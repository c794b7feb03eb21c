/** The database writer (`db_writer`, src/db.rs): gates, write, broadcast, notice and charge. */
module Writer {
  import opened Text
  import opened Events
  import opened Tables
  import opened Store
  import opened StoreRuns
  import opened StoreLaws
  import opened Accounts
  import L = Ledger

  /** The answers of the two gates outside this model. */
  datatype Nip05Answer = Nip05Off | Verified | NoLongerValid | NoRecord | LookupFailed

  datatype GrpcAnswer = GrpcOff | Permitted | Denied | GrpcFailed

  datatype Submission = Submission(e: Event, nip05: Nip05Answer, grpc: GrpcAnswer)

  /** What the writer sent out for one event. */
  datatype Handled = Handled(notice: Option<L.Notice>, broadcast: Option<Event>)

  predicate PassesLaterGates(s: Submission) {
    (s.nip05 == Nip05Off || s.nip05 == Verified) && s.grpc != Denied
  }

  predicate Reaches(cfg: L.Settings, t: AccountTables, s: Submission) {
    L.Admission(cfg, t, s.e.kind, s.e.pubkey).Pass? && PassesLaterGates(s)
  }

  /** Kept by the store, or ephemeral. */
  predicate Keeps(db: Db, e: Event, first: nat) {
    IsEphemeral(e.kind) || Persist(db, e, first).1 == Wrote(1)
  }

  function StoreAfter(db: Db, e: Event, first: nat): Db {
    if IsEphemeral(e.kind) then db else Persist(db, e, first).0
  }

  /** The account tables after a kept event of this payer. */
  function Charged(cfg: L.Settings, t: AccountTables, payer: Option<string>): AccountTables {
    if payer.Some? && L.Charging(cfg) then AddToBalance(t, payer.value, -(cfg.costPerEvent as int)) else t
  }

  class DbWriter {
    const cfg: L.Settings
    const store: EventStore
    const repo: AccountRepo

    constructor (cfg: L.Settings, store: EventStore, repo: AccountRepo)
      ensures this.cfg == cfg && this.store == store && this.repo == repo
    {
      this.cfg, this.store, this.repo := cfg, store, repo;
    }

    /** One turn of the loop. */
    method Handle(s: Submission) returns (h: Handled, ghost first: nat)
      modifies store, repo
      ensures LegalFirst(old(store.View()), s.e, first)
      ensures TurnLaw(cfg, s, h, first, World(old(store.View()), old(repo.View())), World(store.View(), repo.View()))
    {
      first := SomeFirst(store.View(), s.e);
      PersistWritesAtMostOne(store.View(), s.e);
      var e := s.e;
      var verdict := L.Admission(cfg, AccountTables(repo.accounts, repo.invoices), e.kind, e.pubkey);
      if verdict.Refused? {
        return Handled(Some(verdict.notice), None), first;
      }
      L.WhoPays(cfg, repo.View(), e.kind, e.pubkey);
      DebitedIsCharged(cfg, repo.View(), e, verdict);
      match s.nip05 {
        case Nip05Off =>
        case Verified =>
        case NoLongerValid => return Handled(Some(L.Blocked), None), first;
        case NoRecord => return Handled(Some(L.Blocked), None), first;
        case LookupFailed => return Handled(None, None), first;
      }
      if s.grpc == Denied {
        return Handled(Some(L.Blocked), None), first;
      }
      var eventWrite := false;
      if IsEphemeral(e.kind) {
        h := Handled(Some(L.SavedNotice), Some(e));
        eventWrite := true;
      } else {
        var outcome;
        outcome, first := store.PersistEvent(e);
        match outcome {
          case Wrote(updated) =>
            if updated == 0 {
              h := Handled(Some(L.DuplicateNotice), None);
            } else {
              eventWrite := true;
              h := Handled(Some(L.SavedNotice), Some(e));
            }
          case Failed =>
            h := Handled(Some(L.ErrorNotice), None);
        }
      }
      if eventWrite && cfg.payEnabled && cfg.costPerEvent > 0 {
        if verdict.payer.Some? {
          repo.UpdateBalance(verdict.payer.value, false, cfg.costPerEvent);
        }
      }
    }

    /** One turn on a consistent store. */
    method HandleAnnounced(s: Submission) returns (h: Handled)
      requires Consistent(store.View()) && HasIdentity(s.e)
      modifies store, repo
      ensures Consistent(store.View())
      ensures ItemDone(cfg, Turn(s), Some(h), World(old(store.View()), old(repo.View())), World(store.View(), repo.View()))
    {
      ghost var before := store.View();
      ghost var first;
      ghost var accounts := repo.View();
      h, first := Handle(s);
      TurnMeans(cfg, s, h, first, World(before, accounts), World(store.View(), repo.View()));
      WhatIsAnnounced(s.e, h, before, first, store.View());
    }

    /** Something else changes the store between two turns: expiry cleanup, pruning, or another
        writer such as NIP-05 verification or the messages to new accounts. */
    method Elsewhere(step: Step)
      requires Consistent(store.View()) && (step.Submit? ==> HasIdentity(step.e))
      modifies store
      ensures Consistent(store.View()) && Happened(step, old(store.View()), store.View())
    {
      ghost var before := store.View();
      match step
      case Submit(e, _) =>
        var _, first := store.PersistEvent(e);
        StepHappened(step, Submit(e, first), before);
      case Cleanup(now) =>
        var _ := store.DeleteExpired(now);
        StepHappened(step, step, before);
      case Remove(ids) =>
        store.DeleteRows(ids);
        StepHappened(step, step, before);
    }

    /** The receive loop, with other steps between its turns in any way; `states` are the databases and
        accounts before each item and after the last. */
    method Drain(queue: seq<Item>) returns (handled: seq<Option<Handled>>, ghost states: seq<World>)
      requires Consistent(store.View()) && forall x :: x in queue ==> ItemHasIdentity(x)
      modifies store, repo
      ensures states != [] && states[0] == World(old(store.View()), old(repo.View()))
      ensures states[|states| - 1] == World(store.View(), repo.View())
      ensures Consistent(store.View()) && AllDone(cfg, queue, handled, states, |queue|)
    {
      handled := [];
      states := [World(store.View(), repo.View())];
      for i := 0 to |queue|
        invariant |states| == i + 1 && states[0] == World(old(store.View()), old(repo.View()))
        invariant states[i] == World(store.View(), repo.View())
        invariant Consistent(store.View()) && AllDone(cfg, queue, handled, states, i)
      {
        var h: Option<Handled> := None;
        assert ItemHasIdentity(queue[i]);
        match queue[i] {
          case Turn(s) =>
            var answer := HandleAnnounced(s);
            h := Some(answer);
          case Other(step) =>
            Elsewhere(step);
          case Payments(t) =>
            repo.accounts, repo.invoices := t.accounts, t.invoices;
        }
        OneMoreDone(cfg, queue, handled, states, i, h, World(store.View(), repo.View()));
        handled := handled + [h];
        states := states + [World(store.View(), repo.View())];
      }
    }
  }

  /** What happens: a turn of the writer, a step of the store from elsewhere, or the payment task
      leaving the account tables in any state. */
  datatype Item = Turn(s: Submission) | Other(step: Step) | Payments(t: AccountTables)

  predicate ItemHasIdentity(x: Item) {
    match x
    case Turn(s) => HasIdentity(s.e)
    case Other(step) => step.Submit? ==> HasIdentity(step.e)
    case Payments(_) => true
  }

  /** The step was taken, ORDER BY having resolved its ties in some way. */
  ghost predicate Happened(step: Step, before: Db, after: Db) {
    exists taken: Step :: LegalStep(before, taken) && after == Exec(before, taken) &&
      if step.Submit? then taken.Submit? && taken.e == step.e else taken == step
  }

  lemma StepHappened(step: Step, taken: Step, before: Db)
    requires Consistent(before) && LegalStep(before, taken)
    requires if step.Submit? then taken.Submit? && taken.e == step.e else taken == step
    ensures Happened(step, before, Exec(before, taken)) && Consistent(Exec(before, taken))
  {
    match taken
    case Submit(e, first) =>
      if Accepted(before, e) {
        AcceptedConsistent(before, e, first);
      }
    case Cleanup(now) => DeleteConsistent(before, ExpiredIds(before.events, now));
    case Remove(ids) => DeleteConsistent(before, ids);
  }

  /** The law of a turn, by what it keeps: only what reaches the store and is kept is announced, broadcast
      and charged. */
  lemma TurnMeans(cfg: L.Settings, s: Submission, h: Handled, first: nat, before: World, after: World)
    requires TurnLaw(cfg, s, h, first, before, after)
    ensures !Reaches(cfg, before.t, s) ==> after == before && h.broadcast == None
    ensures Reaches(cfg, before.t, s) ==> after.db == StoreAfter(before.db, s.e, first)
    ensures h.notice == Some(L.SavedNotice) <==> Reaches(cfg, before.t, s) && Keeps(before.db, s.e, first)
    ensures h.broadcast == if h.notice == Some(L.SavedNotice) then Some(s.e) else None
    ensures after.t ==
            if h.notice == Some(L.SavedNotice)
            then Charged(cfg, before.t, L.Admission(cfg, before.t, s.e.kind, s.e.pubkey).payer)
            else before.t
  {
    PersistOutcome(before.db, s.e, first);
    var verdict := L.Admission(cfg, before.t, s.e.kind, s.e.pubkey);
    if verdict.Pass? {
      L.WhoPays(cfg, before.t, s.e.kind, s.e.pubkey);
      DebitedIsCharged(cfg, before.t, s.e, verdict);
      if PassesLaterGates(s) && !IsEphemeral(s.e.kind) {
        WriteMeans(h, s.e, Persist(before.db, s.e, first), before.t, Debited(cfg, before.t, s.e, verdict), after);
      }
    }
    L.WhoIsRefused(cfg, before.t, s.e.kind, s.e.pubkey);
  }

  lemma WriteMeans(h: Handled, e: Event, written: (Db, Outcome), t: AccountTables, debited: AccountTables, after: World)
    requires WriteLaw(h, e, written, t, debited, after) && written.1 in {Wrote(0), Wrote(1), Failed}
    ensures after.db == written.0 && (h.notice == Some(L.SavedNotice) <==> written.1 == Wrote(1))
    ensures h.broadcast == if written.1 == Wrote(1) then Some(e) else None
    ensures after.t == if written.1 == Wrote(1) then debited else t
  {
  }

  lemma DebitedIsCharged(cfg: L.Settings, t: AccountTables, e: Event, verdict: L.Verdict)
    requires verdict == L.Pass(None) || verdict == L.Pass(Some(L.AccountKey(e.pubkey)))
    requires verdict == L.Pass(None) || cfg.payEnabled
    ensures Debited(cfg, t, e, verdict) == Charged(cfg, t, verdict.payer)
  {
    if verdict.payer.Some? && verdict.payer.value in t.accounts {
      var key := verdict.payer.value;
      assert cfg.costPerEvent == 0 ==> t.accounts[key := t.accounts[key]] == t.accounts;
    }
  }

  lemma PersistOutcome(db: Db, e: Event, first: nat)
    ensures Persist(db, e, first).1 in {Wrote(0), Wrote(1), Failed}
  {
  }

  lemma PersistWritesAtMostOne(db: Db, e: Event)
    ensures forall first :: Persist(db, e, first).1 in {Wrote(0), Wrote(1), Failed}
  {
  }

  /** A broadcast and a saved notice go together; a stored event that is announced was absent before
      and is visible now (unless it replaced itself); an event that is not announced shows nothing new. */
  ghost predicate Announced(e: Event, h: Handled, before: Db, after: Db) {
    && (h.broadcast == Some(e) <==> h.notice == Some(L.SavedNotice))
    && (h.broadcast.Some? ==> h.broadcast == Some(e))
    && (h.broadcast.Some? && !IsEphemeral(e.kind) ==>
          && HexDecode(e.id).Some?
          && (forall r :: r in before.events ==> r.hash != HexDecode(e.id).value)
          && (HexDecode(e.id).value in Visible(after) <==> !SelfReplacing(e)))
    && (h.broadcast.None? ==> Visible(after) <= Visible(before))
  }

  /** The event store and the account tables together. */
  datatype World = World(db: Db, t: AccountTables)

  /** One turn in the answers it gets. An event that the account gates refuse gets their notice. An
      admitted one is stopped by each refusing answer of the later gates; a failing gRPC server does not
      stop it. What gets through is stored, or only passed on if ephemeral, and the client is told how
      that went; exactly what was kept is broadcast and charged. */
  ghost predicate TurnLaw(cfg: L.Settings, s: Submission, h: Handled, first: nat, before: World, after: World) {
    var verdict := L.Admission(cfg, before.t, s.e.kind, s.e.pubkey);
    if verdict.Refused? then h == Handled(Some(verdict.notice), None) && after == before
    else if s.nip05 == NoLongerValid || s.nip05 == NoRecord then h == Handled(Some(L.Blocked), None) && after == before
    else if s.nip05 == LookupFailed then h == Handled(None, None) && after == before
    else if s.grpc == Denied then h == Handled(Some(L.Blocked), None) && after == before
    else if 20000 <= s.e.kind < 30000 then
      h == Handled(Some(L.SavedNotice), Some(s.e)) && after == World(before.db, Debited(cfg, before.t, s.e, verdict))
    else WriteLaw(h, s.e, Persist(before.db, s.e, first), before.t, Debited(cfg, before.t, s.e, verdict), after)
  }

  /** What the store made of the event decides notice, broadcast and charge. */
  ghost predicate WriteLaw(h: Handled, e: Event, written: (Db, Outcome), t: AccountTables, debited: AccountTables,
                           after: World) {
    after.db == written.0 &&
    match written.1
    case Failed => h == Handled(Some(L.ErrorNotice), None) && after.t == t
    case Wrote(n) =>
      if n == 0 then h == Handled(Some(L.DuplicateNotice), None) && after.t == t
      else h == Handled(Some(L.SavedNotice), Some(e)) && after.t == debited
  }

  /** The accounts after a kept event: the author pays, if this relay takes payment for events and the
      author is not exempt. */
  function Debited(cfg: L.Settings, t: AccountTables, e: Event, verdict: L.Verdict): AccountTables
    requires verdict.Pass?
  {
    var key := Lower(e.pubkey);
    if cfg.payEnabled && verdict.payer.Some? && key in t.accounts then
      t.(accounts := t.accounts[key := Account(t.accounts[key].admitted, t.accounts[key].balance - cfg.costPerEvent)])
    else t
  }

  ghost predicate ItemDone(cfg: L.Settings, x: Item, h: Option<Handled>, before: World, after: World) {
    match x
    case Turn(s) =>
      h.Some? && Announced(s.e, h.value, before.db, after.db) &&
      exists first: nat :: LegalFirst(before.db, s.e, first) && TurnLaw(cfg, s, h.value, first, before, after)
    case Other(step) => h == None && Happened(step, before.db, after.db) && after.t == before.t
    case Payments(t) => h == None && after == World(before.db, t)
  }

  /** The first n items went as they should: turns by their law, other steps taken. */
  ghost predicate AllDone(cfg: L.Settings, queue: seq<Item>, handled: seq<Option<Handled>>, states: seq<World>, n: nat) {
    |handled| == n <= |queue| && |states| == n + 1 &&
    forall i :: 0 <= i < n ==> ItemDone(cfg, queue[i], handled[i], states[i], states[i + 1])
  }

  lemma OneMoreDone(cfg: L.Settings, queue: seq<Item>, handled: seq<Option<Handled>>, states: seq<World>, n: nat,
                    h: Option<Handled>, after: World)
    requires AllDone(cfg, queue, handled, states, n) && n < |queue|
    requires ItemDone(cfg, queue[n], h, states[n], after)
    ensures AllDone(cfg, queue, handled + [h], states + [after], n + 1)
  {
  }

  lemma WhatIsAnnounced(e: Event, h: Handled, before: Db, first: nat, after: Db)
    requires Consistent(before) && LegalFirst(before, e, first)
    requires after == before || after == StoreAfter(before, e, first)
    requires h.broadcast == if h.notice == Some(L.SavedNotice) then Some(e) else None
    requires h.broadcast.Some? ==> after == StoreAfter(before, e, first) && Keeps(before, e, first)
    requires h.broadcast.None? && after != before ==> !Keeps(before, e, first)
    ensures Announced(e, h, before, after) && Consistent(after)
  {
    if Accepted(before, e) {
      AcceptedConsistent(before, e, first);
    }
    if !IsEphemeral(e.kind) {
      if Persist(before, e, first).1 == Wrote(1) {
        SavedMeansVisible(before, e, first);
      } else {
        UnsavedShowsNothingNew(before, e, first);
      }
    }
  }

  /** A turn of the loop that no payment step interrupts is a run of ledger steps that leaves the
      accounts as `Handle` leaves them: the event is charged if it gets through and the store keeps it. */
  lemma HandleIsALedgerRun(cfg: L.Settings, acts: seq<L.Action>, s: Submission, db: Db, first: nat)
    returns (more: seq<L.Action>)
    requires L.IsRun(cfg, acts) && L.After(cfg, acts).writer == L.WIdle
    ensures L.IsRun(cfg, more)
    ensures
      var before := L.After(cfg, acts);
      L.After(cfg, more) == before.(t :=
        if Reaches(cfg, before.t, s) && Keeps(db, s.e, first)
        then Charged(cfg, before.t, L.Admission(cfg, before.t, s.e.kind, s.e.pubkey).payer) else before.t)
  {
    more := L.Extend(cfg, acts, L.Gate(s.e.kind, s.e.pubkey));
    if L.After(cfg, more).writer.WGated? {
      if PassesLaterGates(s) {
        more := WriteIsALedgerRun(cfg, more, Keeps(db, s.e, first));
      } else {
        more := L.Extend(cfg, more, L.TurnAway);
      }
    }
  }

  /** The part of the turn after the gates. */
  lemma WriteIsALedgerRun(cfg: L.Settings, acts: seq<L.Action>, kept: bool) returns (more: seq<L.Action>)
    requires L.IsRun(cfg, acts) && L.After(cfg, acts).writer.WGated?
    ensures L.IsRun(cfg, more)
    ensures
      var gated := L.After(cfg, acts);
      L.After(cfg, more) ==
      gated.(t := if kept then Charged(cfg, gated.t, gated.writer.payer) else gated.t, writer := L.WIdle)
  {
    more := L.Extend(cfg, acts, L.Write(kept));
    if L.After(cfg, more).writer.WDebit? {
      more := L.Extend(cfg, more, L.Debit);
    }
  }
}
