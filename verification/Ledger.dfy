/** The event writer (src/db.rs) and the payment task (src/payment/mod.rs) as interleaved steps, each
    step one transaction, and the money laws that hold of every interleaving. */
module Ledger {
  import opened Text
  import opened Accounts

  datatype Settings = Settings(
    payEnabled: bool,
    costPerEvent: nat,
    admissionCost: nat,
    whitelist: Option<set<string>>,
    kindBlacklist: Option<set<nat>>,
    kindAllowlist: Option<set<nat>>)

  datatype Notice = Blocked | ErrorNotice | SavedNotice | DuplicateNotice

  /** A passed event carries the account that will pay for it, if any. */
  datatype Verdict = Pass(payer: Option<string>) | Refused(notice: Notice)

  /** `Keys::from_pk_str(..).public_key().to_string()`. */
  function AccountKey(pubkey: string): string {
    Lower(pubkey)
  }

  predicate Listed(s: Settings, pubkey: string) {
    s.whitelist.Some? && pubkey in s.whitelist.value
  }

  /** The writer's gates up to the balance check. */
  function Admission(s: Settings, t: AccountTables, kind: nat, pubkey: string): Verdict {
    if s.kindBlacklist.Some? && kind in s.kindBlacklist.value then Refused(Blocked)
    else if s.kindAllowlist.Some? && kind !in s.kindAllowlist.value then Refused(Blocked)
    else if !s.payEnabled then
      if s.whitelist.Some? && pubkey !in s.whitelist.value then Refused(Blocked) else Pass(None)
    else if Listed(s, pubkey) then Pass(None)
    else
      match GetAccountBalance(t, AccountKey(pubkey))
      case NoRow => Refused(ErrorNotice)
      case Unreadable => Refused(ErrorNotice)
      case Read(admitted, balance) =>
        if !admitted || balance < s.costPerEvent then Refused(Blocked) else Pass(Some(AccountKey(pubkey)))
  }

  predicate KindAllowed(s: Settings, kind: nat) {
    (s.kindBlacklist.Some? ==> kind !in s.kindBlacklist.value) &&
    (s.kindAllowlist.Some? ==> kind in s.kindAllowlist.value)
  }

  /** Who passes and pays: exactly the unlisted authors who are admitted and can afford the event. Who
      passes free: exactly the listed ones, or anyone when there is neither payment nor list. */
  lemma WhoPays(s: Settings, t: AccountTables, kind: nat, pubkey: string)
    ensures
      var key := AccountKey(pubkey);
      Admission(s, t, kind, pubkey) == Pass(Some(key)) <==>
      KindAllowed(s, kind) && s.payEnabled && !Listed(s, pubkey) &&
      key in t.accounts && t.accounts[key].admitted && t.accounts[key].balance >= s.costPerEvent
    ensures Admission(s, t, kind, pubkey) == Pass(None) <==>
            KindAllowed(s, kind) && (Listed(s, pubkey) || (!s.payEnabled && s.whitelist.None?))
    ensures Admission(s, t, kind, pubkey) in {
              Pass(None), Pass(Some(AccountKey(pubkey))), Refused(Blocked), Refused(ErrorNotice)}
  {
  }

  /** Who is told what: blocked are kinds the lists shut out, authors the relay does not list and authors
      without admission or balance; an error is reported for unknown accounts and overdrawn ones. */
  lemma WhoIsRefused(s: Settings, t: AccountTables, kind: nat, pubkey: string)
    ensures
      var key := AccountKey(pubkey);
      var paying := KindAllowed(s, kind) && s.payEnabled && !Listed(s, pubkey);
      && (Admission(s, t, kind, pubkey) == Refused(ErrorNotice) <==>
            paying && (key !in t.accounts || t.accounts[key].balance < 0))
      && (Admission(s, t, kind, pubkey) == Refused(Blocked) <==>
            || !KindAllowed(s, kind)
            || (!s.payEnabled && s.whitelist.Some? && !Listed(s, pubkey))
            || (paying && key in t.accounts && t.accounts[key].balance >= 0 &&
                (!t.accounts[key].admitted || t.accounts[key].balance < s.costPerEvent)))
  {
  }

  /** Two spellings of one public key have one account, and different keys have different ones. */
  lemma AccountKeyIsIdentity(a: string, b: string)
    requires IsHex64(a) && IsHex64(b)
    ensures AccountKey(a) == AccountKey(b) <==> HexDecode(a) == HexDecode(b)
    ensures IsFullHex(AccountKey(a)) && AccountKey(AccountKey(a)) == AccountKey(a)
  {
    HexDecodeIgnoresCase(a);
    HexDecodeIgnoresCase(b);
    if HexDecode(a) == HexDecode(b) {
      HexDecodeInjective(Lower(a), Lower(b));
    }
  }

  // ----- the system -----

  datatype WriterPc = WIdle | WGated(payer: Option<string>) | WDebit(key: string) | WHalted(key: string)

  datatype PaymentPc = PReady | PInvoicing(key: string) | PSettling(hash: string) | PAdmitting(key: string)

  datatype Sys = Sys(t: AccountTables, writer: WriterPc, pay: PaymentPc)

  datatype Action =
    | Gate(kind: nat, pubkey: string)      // the writer takes an event and reads the balance
    | TurnAway                             // a later gate refuses it
    | Write(saved: bool)                   // the store keeps it (or it is ephemeral), or not
    | Debit                                // the charge
    | DebitFails                           // the charge fails, which ends the writer
    | NewAccount(key: string)              // get_invoice_info: create_account, look for an unpaid invoice
    | RecordNew(hash: string, amount: nat, now: nat) // create_invoice_record
    | CheckReport(hash: string, status: Status) // CheckAccount: the processor's answer is stored
    | PaidReport(hash: string, status: Status)  // InvoicePaid: the processor's answer is stored
    | Settle                               // InvoicePaid: update_invoice to Paid
    | Admit                                // admit_account
    | PaymentFails                         // an error abandons the message in hand

  predicate Enabled(st: Sys, a: Action) {
    match a
    case Gate(_, _) => st.writer == WIdle
    case TurnAway => st.writer.WGated?
    case Write(_) => st.writer.WGated?
    case Debit => st.writer.WDebit?
    case DebitFails => st.writer.WDebit?
    case NewAccount(_) => st.pay == PReady
    case RecordNew(_, _, _) => st.pay.PInvoicing?
    case CheckReport(h, _) => st.pay == PReady && h in st.t.invoices && st.t.invoices[h].status == Unpaid
    case PaidReport(_, _) => st.pay == PReady
    case Settle => st.pay.PSettling?
    case Admit => st.pay.PAdmitting?
    case PaymentFails => !st.pay.PReady?
  }

  function Next(s: Settings, st: Sys, a: Action): Sys
    requires Enabled(st, a)
  {
    match a
    case Gate(kind, pubkey) =>
      var v := Admission(s, st.t, kind, pubkey);
      if v.Pass? then st.(writer := WGated(v.payer)) else st
    case TurnAway => st.(writer := WIdle)
    case Write(saved) =>
      st.(writer := if saved && s.payEnabled && s.costPerEvent > 0 && st.writer.payer.Some?
                    then WDebit(st.writer.payer.value) else WIdle)
    case Debit => st.(t := AddToBalance(st.t, st.writer.key, -(s.costPerEvent as int)), writer := WIdle)
    case DebitFails => st.(writer := WHalted(st.writer.key))
    case NewAccount(key) =>
      var created := CreateAccount(st.t, key);
      st.(t := created.0, pay := if !created.1 && UnpaidOf(st.t, key) != {} then PReady else PInvoicing(key))
    case RecordNew(h, amount, now) =>
      st.(t := RecordInvoice(st.t, h, Invoice(st.pay.key, amount, Unpaid, now)), pay := PReady)
    case CheckReport(h, status) =>
      st.(t := UpdateInvoice(st.t, h, status),
          pay := if status == Paid then PAdmitting(st.t.invoices[h].pubkey) else PReady)
    case PaidReport(h, status) =>
      st.(t := UpdateInvoice(st.t, h, status),
          pay := if status == Paid && h in st.t.invoices then PSettling(h) else PReady)
    case Settle =>
      st.(t := UpdateInvoice(st.t, st.pay.hash, Paid),
          pay := if st.pay.hash in st.t.invoices then PAdmitting(st.t.invoices[st.pay.hash].pubkey) else PReady)
    case Admit => st.(t := AdmitAccount(st.t, st.pay.key, s.admissionCost), pay := PReady)
    case PaymentFails => st.(pay := PReady)
  }

  const START := Sys(AccountTables(map[], map[]), WIdle, PReady)

  /** An interleaving: any sequence of actions, each enabled where it happens. */
  ghost predicate IsRun(s: Settings, acts: seq<Action>)
    decreases |acts|, 0
  {
    acts == [] ||
    (IsRun(s, acts[..|acts| - 1]) && Enabled(After(s, acts[..|acts| - 1]), acts[|acts| - 1]))
  }

  ghost function After(s: Settings, acts: seq<Action>): Sys
    requires IsRun(s, acts)
    decreases |acts|, 1
  {
    if acts == [] then START else Next(s, After(s, acts[..|acts| - 1]), acts[|acts| - 1])
  }

  // ----- what happened, read off the run -----

  /** The invoice whose status an action writes. */
  function Touched(st: Sys, a: Action): Option<string> {
    match a
    case CheckReport(h, _) => Some(h)
    case PaidReport(h, _) => Some(h)
    case Settle => if st.pay.PSettling? then Some(st.pay.hash) else None
    case _ => None
  }

  /** The action moved this invoice from Unpaid to Paid. */
  predicate Credits(st: Sys, st': Sys, a: Action, h: string) {
    Touched(st, a) == Some(h) && h in st.t.invoices && h in st'.t.invoices &&
    st.t.invoices[h].status == Unpaid && st'.t.invoices[h].status == Paid
  }

  function CreditTo(st: Sys, st': Sys, a: Action, key: string): nat {
    var h := Touched(st, a);
    if h.Some? && Credits(st, st', a, h.value) && st.t.invoices[h.value].pubkey == key
    then st.t.invoices[h.value].amount else 0
  }

  ghost function Credited(s: Settings, acts: seq<Action>, key: string): nat
    requires IsRun(s, acts)
  {
    if acts == [] then 0
    else
      var init := acts[..|acts| - 1];
      Credited(s, init, key) + CreditTo(After(s, init), After(s, acts), acts[|acts| - 1], key)
  }

  ghost function CreditCount(s: Settings, acts: seq<Action>, h: string): nat
    requires IsRun(s, acts)
  {
    if acts == [] then 0
    else
      var init := acts[..|acts| - 1];
      CreditCount(s, init, h) + if Credits(After(s, init), After(s, acts), acts[|acts| - 1], h) then 1 else 0
  }

  ghost function Admissions(s: Settings, acts: seq<Action>, key: string): nat
    requires IsRun(s, acts)
  {
    if acts == [] then 0
    else
      var init := acts[..|acts| - 1];
      Admissions(s, init, key) +
      if acts[|acts| - 1] == Admit && After(s, init).pay == PAdmitting(key) then 1 else 0
  }

  ghost function Charges(s: Settings, acts: seq<Action>, key: string): nat
    requires IsRun(s, acts)
  {
    if acts == [] then 0
    else
      var init := acts[..|acts| - 1];
      Charges(s, init, key) + if acts[|acts| - 1] == Debit && After(s, init).writer == WDebit(key) then 1 else 0
  }

  /** Events of an unlisted author that were saved. */
  ghost function PaidSaves(s: Settings, acts: seq<Action>, key: string): nat
    requires IsRun(s, acts)
  {
    if acts == [] then 0
    else
      var init := acts[..|acts| - 1];
      PaidSaves(s, init, key) +
      if acts[|acts| - 1] == Write(true) && After(s, init).writer == WGated(Some(key)) then 1 else 0
  }

  // ----- conservation -----

  /** Every key the tasks hold has an account row, and a settling invoice is already Paid. */
  ghost predicate WellFormed(st: Sys) {
    && (forall h :: h in st.t.invoices ==> st.t.invoices[h].pubkey in st.t.accounts)
    && (st.writer.WGated? && st.writer.payer.Some? ==> st.writer.payer.value in st.t.accounts)
    && (st.writer.WDebit? ==> st.writer.key in st.t.accounts)
    && (st.pay.PInvoicing? ==> st.pay.key in st.t.accounts)
    && (st.pay.PAdmitting? ==> st.pay.key in st.t.accounts)
    && (st.pay.PSettling? ==> st.pay.hash in st.t.invoices && st.t.invoices[st.pay.hash].status == Paid)
  }

  lemma StepKeepsWellFormed(s: Settings, st: Sys, a: Action)
    requires Enabled(st, a) && WellFormed(st)
    ensures WellFormed(Next(s, st, a))
  {
  }

  lemma {:induction false} RunsAreWellFormed(s: Settings, acts: seq<Action>)
    requires IsRun(s, acts)
    ensures WellFormed(After(s, acts))
  {
    if acts == [] {
    } else {
      var init := acts[..|acts| - 1];
      RunsAreWellFormed(s, init);
      StepKeepsWellFormed(s, After(s, init), acts[|acts| - 1]);
    }
  }

  function BalanceOf(t: AccountTables, key: string): int {
    if key in t.accounts then t.accounts[key].balance else 0
  }

  /** One step changes a balance by exactly its credit, admission or charge. */
  lemma StepBalances(s: Settings, st: Sys, a: Action, key: string)
    requires Enabled(st, a) && WellFormed(st)
    ensures BalanceOf(Next(s, st, a).t, key) ==
            BalanceOf(st.t, key) + CreditTo(st, Next(s, st, a), a, key)
            - (if a == Admit && st.pay == PAdmitting(key) then s.admissionCost else 0)
            - (if a == Debit && st.writer == WDebit(key) then s.costPerEvent else 0)
  {
  }

  lemma OneMore(cost: nat, n: nat)
    ensures cost * (n + 1) == cost * n + cost
  {
  }

  /** In every interleaving each balance is what its invoices brought, less the admission cost per
      admission, less the event cost per charge. */
  lemma {:induction false} BalancesAreConserved(s: Settings, acts: seq<Action>, key: string)
    requires IsRun(s, acts)
    ensures BalanceOf(After(s, acts).t, key) ==
            Credited(s, acts, key) - s.admissionCost * Admissions(s, acts, key) - s.costPerEvent * Charges(s, acts, key)
  {
    if acts == [] {
    } else {
      var init, last := acts[..|acts| - 1], acts[|acts| - 1];
      BalancesAreConserved(s, init, key);
      RunsAreWellFormed(s, init);
      StepBalances(s, After(s, init), last, key);
      OneMore(s.admissionCost, Admissions(s, init, key));
      OneMore(s.costPerEvent, Charges(s, init, key));
    }
  }

  // ----- each saved event is charged once -----

  predicate Charging(s: Settings) {
    s.payEnabled && s.costPerEvent > 0
  }

  predicate OwesCharge(st: Sys, key: string) {
    st.writer == WDebit(key) || st.writer == WHalted(key)
  }

  /** Saved events of an unlisted author and charges match one to one, up to the charge in hand (or the
      one whose failure ended the writer); nothing else is ever charged. */
  lemma {:induction false} SavedEventsAreChargedOnce(s: Settings, acts: seq<Action>, key: string)
    requires IsRun(s, acts)
    ensures Charging(s) ==>
              PaidSaves(s, acts, key) == Charges(s, acts, key) + if OwesCharge(After(s, acts), key) then 1 else 0
    ensures !Charging(s) ==> Charges(s, acts, key) == 0 && !OwesCharge(After(s, acts), key)
  {
    if acts == [] {
    } else {
      SavedEventsAreChargedOnce(s, acts[..|acts| - 1], key);
    }
  }

  /** While the writer is between events, the counts are equal. */
  lemma NothingOwedBetweenEvents(s: Settings, acts: seq<Action>, key: string)
    requires IsRun(s, acts) && Charging(s) && After(s, acts).writer == WIdle
    ensures PaidSaves(s, acts, key) == Charges(s, acts, key)
  {
    SavedEventsAreChargedOnce(s, acts, key);
  }

  // ----- each invoice is credited once -----

  /** The processor's answer about an invoice that an action stores. */
  predicate Reports(a: Action, h: string, status: Status) {
    a == CheckReport(h, status) || a == PaidReport(h, status)
  }

  ghost predicate NeverUnpaidAfterPaid(acts: seq<Action>, h: string) {
    forall i, j :: 0 <= i < j < |acts| && Reports(acts[i], h, Paid) ==> !Reports(acts[j], h, Unpaid)
  }

  ghost predicate ReportedPaid(acts: seq<Action>, h: string) {
    exists i :: 0 <= i < |acts| && Reports(acts[i], h, Paid)
  }

  lemma ReportedSnoc(acts: seq<Action>, h: string)
    requires acts != []
    ensures ReportedPaid(acts, h) <==>
            ReportedPaid(acts[..|acts| - 1], h) || Reports(acts[|acts| - 1], h, Paid)
  {
    var init := acts[..|acts| - 1];
    if ReportedPaid(init, h) {
      var i :| 0 <= i < |init| && Reports(init[i], h, Paid);
      assert acts[i] == init[i];
    }
    if ReportedPaid(acts, h) {
      var i :| 0 <= i < |acts| && Reports(acts[i], h, Paid);
      if i < |init| {
        assert init[i] == acts[i];
      }
    }
  }

  predicate SettledStatus(st: Sys, h: string) {
    h in st.t.invoices && st.t.invoices[h].status != Unpaid
  }

  /** A credit is a paid report on an unpaid invoice; only an unpaid report undoes a settled status. */
  lemma CreditStep(s: Settings, st: Sys, a: Action, h: string)
    requires Enabled(st, a) && WellFormed(st)
    ensures Credits(st, Next(s, st, a), a, h) ==>
              Reports(a, h, Paid) && !SettledStatus(st, h) && SettledStatus(Next(s, st, a), h)
    ensures SettledStatus(st, h) && !Reports(a, h, Unpaid) ==> SettledStatus(Next(s, st, a), h)
  {
  }

  lemma {:induction false} UnpaidMeansNotCredited(s: Settings, acts: seq<Action>, h: string)
    requires IsRun(s, acts) && NeverUnpaidAfterPaid(acts, h)
    ensures CreditCount(s, acts, h) <= 1
    ensures CreditCount(s, acts, h) == 1 ==> ReportedPaid(acts, h) && SettledStatus(After(s, acts), h)
  {
    if acts == [] {
    } else {
      var init, last := acts[..|acts| - 1], acts[|acts| - 1];
      UnpaidMeansNotCredited(s, init, h);
      RunsAreWellFormed(s, init);
      CreditStep(s, After(s, init), last, h);
      ReportedSnoc(acts, h);
      if CreditCount(s, init, h) == 1 {
        var i :| 0 <= i < |init| && Reports(init[i], h, Paid);
        assert acts[i] == init[i] && !Reports(acts[|acts| - 1], h, Unpaid);
      }
    }
  }

  /** If the processor never reports a paid invoice as unpaid, it is credited at most once. */
  lemma InvoiceCreditedAtMostOnce(s: Settings, acts: seq<Action>, h: string)
    requires IsRun(s, acts) && NeverUnpaidAfterPaid(acts, h)
    ensures CreditCount(s, acts, h) <= 1
  {
    UnpaidMeansNotCredited(s, acts, h);
  }

  lemma UpdateEffect(t: AccountTables, h: string, status: Status)
    requires h in t.invoices && t.invoices[h].pubkey in t.accounts
    ensures
      var i, t' := t.invoices[h], UpdateInvoice(t, h, status);
      && h in t'.invoices && t'.invoices[h] == i.(status := status) && i.pubkey in t'.accounts
      && BalanceOf(t', i.pubkey) ==
         BalanceOf(t, i.pubkey) + if i.status == Unpaid && status == Paid then i.amount else 0
  {
  }

  /** An answer about a recorded invoice, after which an error stops the message. */
  lemma Answered(s: Settings, acts: seq<Action>, h: string, status: Status) returns (more: seq<Action>)
    requires IsRun(s, acts) && After(s, acts).pay == PReady && h in After(s, acts).t.invoices
    ensures IsRun(s, more)
    ensures
      var st := After(s, acts);
      && After(s, more) == st.(t := UpdateInvoice(st.t, h, status))
      && CreditCount(s, more, h) ==
         CreditCount(s, acts, h) + if st.t.invoices[h].status == Unpaid && status == Paid then 1 else 0
  {
    more := Extend(s, acts, PaidReport(h, status));
    if status == Paid {
      more := Extend(s, more, PaymentFails);
    }
  }

  /** A processor that takes a payment back and reports it again credits the invoice twice. */
  lemma RegressionCreditsTwice(s: Settings) returns (acts: seq<Action>)
    ensures IsRun(s, acts) && CreditCount(s, acts, "h") == 2
    ensures BalanceOf(After(s, acts).t, "k") == 10
  {
    acts := OneInvoice(s);
    UpdateEffect(After(s, acts).t, "h", Paid);
    acts := Answered(s, acts, "h", Paid);
    UpdateEffect(After(s, acts).t, "h", Unpaid);
    acts := Answered(s, acts, "h", Unpaid);
    UpdateEffect(After(s, acts).t, "h", Paid);
    acts := Answered(s, acts, "h", Paid);
  }

  lemma Extend(s: Settings, acts: seq<Action>, a: Action) returns (more: seq<Action>)
    requires IsRun(s, acts) && Enabled(After(s, acts), a)
    ensures more == acts + [a] && IsRun(s, more) && After(s, more) == Next(s, After(s, acts), a)
    ensures forall h :: CreditCount(s, more, h) ==
              CreditCount(s, acts, h) + if Credits(After(s, acts), After(s, more), a, h) then 1 else 0
  {
    more := acts + [a];
    assert more[..|more| - 1] == acts;
  }

  /** The processor's word on an invoice since it was recorded, Unpaid first. */
  function Reported(acts: seq<Action>, h: string): seq<Status> {
    if acts == [] then [] else Heard(Reported(acts[..|acts| - 1], h), acts[|acts| - 1], h)
  }

  function Heard(before: seq<Status>, a: Action, h: string): seq<Status> {
    if a.RecordNew? && a.hash == h && before == [] then [Unpaid]
    else if (a.CheckReport? || a.PaidReport?) && a.hash == h && before != [] then before + [a.status]
    else before
  }

  predicate Rise(rs: seq<Status>, i: nat) {
    0 < i < |rs| && rs[i - 1] == Unpaid && rs[i] == Paid
  }

  function Rises(rs: seq<Status>): nat {
    if rs == [] then 0
    else Rises(rs[..|rs| - 1]) + if Rise(rs, |rs| - 1) then 1 else 0
  }

  lemma RisesSnoc(rs: seq<Status>, status: Status)
    ensures Rises(rs + [status]) == Rises(rs) + if Rise(rs + [status], |rs|) then 1 else 0
  {
    assert (rs + [status])[..|rs|] == rs;
  }

  /** The stored status is the last word; before the invoice is recorded there is none. */
  predicate LastWord(t: AccountTables, h: string, rs: seq<Status>) {
    if rs == [] then h !in t.invoices else h in t.invoices && t.invoices[h].status == rs[|rs| - 1]
  }

  lemma StatusSteps(s: Settings, st: Sys, a: Action, h: string, rs: seq<Status>)
    requires Enabled(st, a) && WellFormed(st) && LastWord(st.t, h, rs)
    ensures LastWord(Next(s, st, a).t, h, Heard(rs, a, h))
    ensures Credits(st, Next(s, st, a), a, h) <==> Heard(rs, a, h) != rs && Rise(Heard(rs, a, h), |rs|)
  {
  }

  /** Every step of the processor's word from Unpaid to Paid is one credit. */
  lemma {:induction false} CreditsAreRises(s: Settings, acts: seq<Action>, h: string)
    requires IsRun(s, acts)
    ensures CreditCount(s, acts, h) == Rises(Reported(acts, h))
    ensures LastWord(After(s, acts).t, h, Reported(acts, h))
  {
    if acts == [] {
    } else {
      var init, last := acts[..|acts| - 1], acts[|acts| - 1];
      var before := Reported(init, h);
      CreditsAreRises(s, init, h);
      RunsAreWellFormed(s, init);
      StatusSteps(s, After(s, init), last, h, before);
      HeardRises(before, last, h);
    }
  }

  lemma HeardRises(before: seq<Status>, a: Action, h: string)
    ensures
      var after := Heard(before, a, h);
      Rises(after) == Rises(before) + if after != before && Rise(after, |before|) then 1 else 0
  {
    if a.CheckReport? || a.PaidReport? {
      RisesSnoc(before, a.status);
    }
  }

  lemma RiseSnoc(rs: seq<Status>, i: nat)
    requires rs != [] && i < |rs| - 1
    ensures Rise(rs[..|rs| - 1], i) <==> Rise(rs, i)
  {
  }

  lemma {:induction false} RisesCount(rs: seq<Status>)
    ensures Rises(rs) > 0 <==> exists i: nat :: Rise(rs, i)
    ensures Rises(rs) > 1 <==> exists i: nat, j: nat :: i < j && Rise(rs, i) && Rise(rs, j)
  {
    if rs == [] {
    } else {
      var init := rs[..|rs| - 1];
      RisesCount(init);
      forall i: nat | i < |rs| - 1
        ensures Rise(init, i) <==> Rise(rs, i)
      {
        RiseSnoc(rs, i);
      }
    }
  }

  /** Exactly when an invoice is credited more than once: after it was recorded, the processor's word
      went from Unpaid to Paid, and later from Unpaid to Paid again. */
  lemma CreditedAgainExactly(s: Settings, acts: seq<Action>, h: string)
    requires IsRun(s, acts)
    ensures CreditCount(s, acts, h) > 1 <==>
            exists i: nat, j: nat :: i < j && Rise(Reported(acts, h), i) && Rise(Reported(acts, h), j)
  {
    CreditsAreRises(s, acts, h);
    RisesCount(Reported(acts, h));
  }

  // ----- admission follows payment -----

  predicate InvoiceOf(st: Sys, h: string, key: string) {
    h in st.t.invoices && st.t.invoices[h].pubkey == key
  }

  /** Since it was recorded, the processor reported an invoice of this account paid. */
  ghost predicate PaidFor(s: Settings, acts: seq<Action>, key: string)
    requires IsRun(s, acts)
  {
    exists h :: Paid in Reported(acts, h) && InvoiceOf(After(s, acts), h, key)
  }

  predicate IsAdmitted(st: Sys, key: string) {
    key in st.t.accounts && st.t.accounts[key].admitted
  }

  lemma InvoiceStays(s: Settings, st: Sys, a: Action, h: string, key: string)
    requires Enabled(st, a) && InvoiceOf(st, h, key)
    ensures InvoiceOf(Next(s, st, a), h, key)
  {
  }

  lemma PaidForCarriesOver(s: Settings, acts: seq<Action>, key: string, h: string)
    requires IsRun(s, acts) && acts != []
    requires Paid in Reported(acts, h) && InvoiceOf(After(s, acts[..|acts| - 1]), h, key)
    ensures PaidFor(s, acts, key)
  {
    var init := acts[..|acts| - 1];
    InvoiceStays(s, After(s, init), acts[|acts| - 1], h, key);
  }

  /** Where an admission comes from, one step back. */
  lemma AdmissionStep(s: Settings, st: Sys, a: Action, key: string)
    requires Enabled(st, a) && WellFormed(st)
    ensures IsAdmitted(Next(s, st, a), key) ==> IsAdmitted(st, key) || st.pay == PAdmitting(key)
    ensures Next(s, st, a).pay == PAdmitting(key) ==>
              || st.pay == PAdmitting(key)
              || (st.pay.PSettling? && InvoiceOf(st, st.pay.hash, key))
              || (a.CheckReport? && a.status == Paid && InvoiceOf(st, a.hash, key))
    ensures Next(s, st, a).pay.PSettling? ==>
              st.pay == Next(s, st, a).pay ||
              (a == PaidReport(Next(s, st, a).pay.hash, Paid) && a.hash in st.t.invoices)
  {
  }

  /** No account is admitted, or about to be, unless the processor reported one of its invoices paid
      after that invoice was recorded. */
  lemma {:induction false} AdmittedAccountsPaid(s: Settings, acts: seq<Action>, key: string)
    requires IsRun(s, acts)
    ensures IsAdmitted(After(s, acts), key) || After(s, acts).pay == PAdmitting(key) ==> PaidFor(s, acts, key)
    ensures After(s, acts).pay.PSettling? ==> Paid in Reported(acts, After(s, acts).pay.hash)
  {
    if acts == [] {
    } else {
      var init, last := acts[..|acts| - 1], acts[|acts| - 1];
      var st := After(s, init);
      AdmittedAccountsPaid(s, init, key);
      RunsAreWellFormed(s, init);
      AdmissionStep(s, st, last, key);
      if PaidFor(s, init, key) {
        var h :| Paid in Reported(init, h) && InvoiceOf(st, h, key);
        PaidForCarriesOver(s, acts, key, h);
      }
      if st.pay.PSettling? && InvoiceOf(st, st.pay.hash, key) {
        PaidForCarriesOver(s, acts, key, st.pay.hash);
      }
      if last.CheckReport? || last.PaidReport? {
        CreditsAreRises(s, init, last.hash);
        if last.status == Paid && InvoiceOf(st, last.hash, key) {
          PaidForCarriesOver(s, acts, key, last.hash);
        }
      }
    }
  }

  /** In every interleaving an account is admitted exactly if an admission step reached it. */
  lemma {:induction false} AdmittedExactly(s: Settings, acts: seq<Action>, key: string)
    requires IsRun(s, acts)
    ensures IsAdmitted(After(s, acts), key) <==> Admissions(s, acts, key) > 0
  {
    if acts == [] {
    } else {
      var init := acts[..|acts| - 1];
      AdmittedExactly(s, init, key);
      RunsAreWellFormed(s, init);
      StepAdmits(s, After(s, init), acts[|acts| - 1], key);
    }
  }

  lemma StepAdmits(s: Settings, st: Sys, a: Action, key: string)
    requires Enabled(st, a) && WellFormed(st)
    ensures IsAdmitted(Next(s, st, a), key) <==> IsAdmitted(st, key) || (a == Admit && st.pay == PAdmitting(key))
  {
  }

  /** A paid answer that is not abandoned admits: what the processor reported paid, and no error lost, is
      an admitted account, unless its admission is the step in hand. */
  lemma PaidAnswersAdmit(s: Settings, acts: seq<Action>, key: string)
    requires IsRun(s, acts) && PaidAnswers(s, acts, key) > Abandoned(s, acts, key)
    ensures IsAdmitted(After(s, acts), key) || OwesAdmission(After(s, acts), key)
  {
    PaidAnswersAdmitOnceEach(s, acts, key);
    AdmittedExactly(s, acts, key);
  }

  // ----- how often an account is admitted -----

  /** The payment task holds a paid answer about an invoice of this account. */
  predicate OwesAdmission(st: Sys, key: string) {
    st.pay == PAdmitting(key) ||
    (st.pay.PSettling? && st.pay.hash in st.t.invoices && st.t.invoices[st.pay.hash].pubkey == key)
  }

  /** The processor reports a recorded invoice of this account paid. */
  predicate ReportsPayment(st: Sys, a: Action, key: string) {
    (a.CheckReport? || a.PaidReport?) && a.status == Paid &&
    a.hash in st.t.invoices && st.t.invoices[a.hash].pubkey == key
  }

  ghost function PaidAnswers(s: Settings, acts: seq<Action>, key: string): nat
    requires IsRun(s, acts)
  {
    if acts == [] then 0
    else
      var init := acts[..|acts| - 1];
      PaidAnswers(s, init, key) + if ReportsPayment(After(s, init), acts[|acts| - 1], key) then 1 else 0
  }

  /** Paid answers lost to an error before the account was admitted. */
  ghost function Abandoned(s: Settings, acts: seq<Action>, key: string): nat
    requires IsRun(s, acts)
  {
    if acts == [] then 0
    else
      var init := acts[..|acts| - 1];
      Abandoned(s, init, key) +
      if acts[|acts| - 1] == PaymentFails && OwesAdmission(After(s, init), key) then 1 else 0
  }

  lemma StepOwes(s: Settings, st: Sys, a: Action, key: string)
    requires Enabled(st, a) && WellFormed(st)
    ensures
      (if OwesAdmission(Next(s, st, a), key) then 1 else 0) ==
      (if OwesAdmission(st, key) then 1 else 0) + (if ReportsPayment(st, a, key) then 1 else 0)
      - (if a == Admit && st.pay == PAdmitting(key) then 1 else 0)
      - (if a == PaymentFails && OwesAdmission(st, key) then 1 else 0)
  {
  }

  /** Every paid answer about an account's invoices admits it once, repeated answers included, except
      those abandoned and the one in hand. */
  lemma {:induction false} PaidAnswersAdmitOnceEach(s: Settings, acts: seq<Action>, key: string)
    requires IsRun(s, acts)
    ensures PaidAnswers(s, acts, key) ==
            Admissions(s, acts, key) + Abandoned(s, acts, key) + if OwesAdmission(After(s, acts), key) then 1 else 0
  {
    if acts == [] {
    } else {
      var init := acts[..|acts| - 1];
      PaidAnswersAdmitOnceEach(s, init, key);
      RunsAreWellFormed(s, init);
      StepOwes(s, After(s, init), acts[|acts| - 1], key);
    }
  }

  /** What an InvoicePaid message does to an account whose invoice the processor calls paid. */
  lemma SettlingEffect(t: AccountTables, h: string, admissionCost: nat)
    requires h in t.invoices && t.invoices[h].pubkey in t.accounts
    ensures
      var i, t' := t.invoices[h], OnInvoicePaid(t, h, Some(Paid), admissionCost);
      && h in t'.invoices && t'.invoices[h] == i.(status := Paid) && i.pubkey in t'.accounts
      && BalanceOf(t', i.pubkey) ==
         BalanceOf(t, i.pubkey) + (if i.status == Unpaid then i.amount else 0) - admissionCost
  {
  }

  /** That message as a run: it admits once, and credits if the invoice was unpaid. */
  lemma Settled(s: Settings, acts: seq<Action>, h: string) returns (more: seq<Action>)
    requires IsRun(s, acts) && After(s, acts).pay == PReady && h in After(s, acts).t.invoices
    ensures IsRun(s, more)
    ensures
      var st := After(s, acts);
      var key := st.t.invoices[h].pubkey;
      && After(s, more) == st.(t := OnInvoicePaid(st.t, h, Some(Paid), s.admissionCost))
      && CreditCount(s, more, h) == CreditCount(s, acts, h) + (if st.t.invoices[h].status == Unpaid then 1 else 0)
      && Admissions(s, more, key) == Admissions(s, acts, key) + 1
  {
    var key := After(s, acts).t.invoices[h].pubkey;
    var one := Extend(s, acts, PaidReport(h, Paid));
    var two := Extend(s, one, Settle);
    more := Extend(s, two, Admit);
    ExtendAdmissions(s, acts, PaidReport(h, Paid), key);
    ExtendAdmissions(s, one, Settle, key);
    ExtendAdmissions(s, two, Admit, key);
  }

  /** A new account with one unpaid invoice of 5. */
  lemma OneInvoice(s: Settings) returns (acts: seq<Action>)
    ensures IsRun(s, acts) && CreditCount(s, acts, "h") == 0 && Admissions(s, acts, "k") == 0
    ensures After(s, acts).pay == PReady && BalanceOf(After(s, acts).t, "k") == 0
    ensures After(s, acts).t.invoices == map["h" := Invoice("k", 5, Unpaid, 0)] && "k" in After(s, acts).t.accounts
  {
    var one := Extend(s, [], NewAccount("k"));
    acts := Extend(s, one, RecordNew("h", 5, 0));
    ExtendAdmissions(s, [], NewAccount("k"), "k");
    ExtendAdmissions(s, one, RecordNew("h", 5, 0), "k");
  }

  /** A paid invoice that is reported again is credited once and admits, and charges for admission, twice. */
  lemma RepeatedReportAdmitsTwice(s: Settings) returns (acts: seq<Action>)
    ensures IsRun(s, acts) && CreditCount(s, acts, "h") == 1 && Admissions(s, acts, "k") == 2
    ensures BalanceOf(After(s, acts).t, "k") == 5 - 2 * s.admissionCost
  {
    var zero := OneInvoice(s);
    SettlingEffect(After(s, zero).t, "h", s.admissionCost);
    var one := Settled(s, zero, "h");
    SettlingEffect(After(s, one).t, "h", s.admissionCost);
    acts := Settled(s, one, "h");
  }

  lemma ExtendAdmissions(s: Settings, acts: seq<Action>, a: Action, key: string)
    requires IsRun(s, acts) && Enabled(After(s, acts), a) && IsRun(s, acts + [a])
    ensures Admissions(s, acts + [a], key) ==
            Admissions(s, acts, key) + if a == Admit && After(s, acts).pay == PAdmitting(key) then 1 else 0
  {
    assert (acts + [a])[..|acts|] == acts;
  }

  // ----- payment messages handled without interruption are runs -----

  lemma InvoicePaidIsALedgerRun(s: Settings, acts: seq<Action>, h: string, status: Status) returns (more: seq<Action>)
    requires IsRun(s, acts) && After(s, acts).pay == PReady
    ensures IsRun(s, more)
    ensures After(s, more) ==
            After(s, acts).(t := OnInvoicePaid(After(s, acts).t, h, Some(status), s.admissionCost))
  {
    more := Extend(s, acts, PaidReport(h, status));
    if status == Paid && h in After(s, acts).t.invoices {
      more := Extend(s, more, Settle);
      more := Extend(s, more, Admit);
    }
  }

  lemma NewAccountIsALedgerRun(s: Settings, acts: seq<Action>, key: string, issued: Issued, now: nat)
    returns (more: seq<Action>)
    requires IsRun(s, acts) && After(s, acts).pay == PReady
    ensures IsRun(s, more)
    ensures After(s, more) == After(s, acts).(t := OnNewAccount(After(s, acts).t, key, issued, now))
  {
    more := Extend(s, acts, NewAccount(key));
    if !Reuses(After(s, acts).t, key) {
      if issued.Some? {
        more := Extend(s, more, RecordNew(issued.value.0, issued.value.1, now));
      } else {
        more := Extend(s, more, PaymentFails);
      }
    }
  }

  lemma CheckAccountIsALedgerRun(s: Settings, acts: seq<Action>, key: string, h: string, status: Status)
    returns (more: seq<Action>)
    requires IsRun(s, acts) && After(s, acts).pay == PReady && h in UnpaidOf(After(s, acts).t, key)
    ensures IsRun(s, more)
    ensures After(s, more) ==
            After(s, acts).(t := OnCheckAccount(After(s, acts).t, key, h, Some(status), s.admissionCost).0)
  {
    more := Extend(s, acts, CheckReport(h, status));
    if status == Paid {
      more := Extend(s, more, Admit);
    }
  }
}
