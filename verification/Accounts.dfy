/** The account and invoice tables and the transactions on them (src/repo/sqlite.rs), and the payment
    task that drives them (src/payment/mod.rs). */
module Accounts {
  import opened Text

  datatype Status = Unpaid | Paid | Expired

  datatype Account = Account(admitted: bool, balance: int)

  datatype Invoice = Invoice(pubkey: string, amount: nat, status: Status, createdAt: nat)

  datatype AccountTables = AccountTables(accounts: map<string, Account>, invoices: map<string, Invoice>)

  // ----- transactions -----

  /** Relative balance update; an unknown account is left alone, as UPDATE ... WHERE leaves it. */
  function AddToBalance(t: AccountTables, key: string, delta: int): AccountTables {
    if key in t.accounts then
      t.(accounts := t.accounts[key := t.accounts[key].(balance := t.accounts[key].balance + delta)])
    else t
  }

  function CreateAccount(t: AccountTables, key: string): (AccountTables, bool) {
    if key in t.accounts then (t, false)
    else (t.(accounts := t.accounts[key := Account(false, 0)]), true)
  }

  function AdmitAccount(t: AccountTables, key: string, admissionCost: nat): AccountTables {
    if key in t.accounts then
      AddToBalance(t.(accounts := t.accounts[key := t.accounts[key].(admitted := true)]), key, -(admissionCost as int))
    else t
  }

  /** Reading a balance as u64 fails on a missing row and on a negative value. */
  datatype BalanceRead = NoRow | Unreadable | Read(admitted: bool, balance: nat)

  function GetAccountBalance(t: AccountTables, key: string): BalanceRead {
    if key !in t.accounts then NoRow
    else if t.accounts[key].balance < 0 then Unreadable
    else Read(t.accounts[key].admitted, t.accounts[key].balance)
  }

  /** The primary key must be new and the foreign key must hold. */
  predicate CanRecord(t: AccountTables, key: string, hash: string) {
    key in t.accounts && hash !in t.invoices
  }

  function RecordInvoice(t: AccountTables, hash: string, i: Invoice): AccountTables {
    if CanRecord(t, i.pubkey, hash) then t.(invoices := t.invoices[hash := i]) else t
  }

  /** The status is always overwritten; the account is credited on the step from Unpaid to Paid. */
  function UpdateInvoice(t: AccountTables, hash: string, status: Status): AccountTables {
    if hash !in t.invoices then t
    else
      var i := t.invoices[hash];
      var t' := t.(invoices := t.invoices[hash := i.(status := status)]);
      if i.status == Unpaid && status == Paid then AddToBalance(t', i.pubkey, i.amount) else t'
  }

  function UnpaidOf(t: AccountTables, key: string): set<string> {
    set h | h in t.invoices && t.invoices[h].pubkey == key && t.invoices[h].status == Unpaid
  }

  /** An unpaid invoice of the account that ORDER BY created_at DESC may put first. */
  predicate IsLatestUnpaid(t: AccountTables, key: string, hash: string) {
    hash in UnpaidOf(t, key) &&
    forall h :: h in UnpaidOf(t, key) ==> t.invoices[h].createdAt <= t.invoices[hash].createdAt
  }

  class AccountRepo {
    var accounts: map<string, Account>
    var invoices: map<string, Invoice>

    ghost function View(): AccountTables
      reads this
    {
      AccountTables(accounts, invoices)
    }

    constructor ()
      ensures View() == AccountTables(map[], map[])
    {
      accounts, invoices := map[], map[];
    }

    method Create(key: string) returns (created: bool)
      modifies this
      ensures (View(), created) == CreateAccount(old(View()), key)
    {
      if key in accounts {
        return false;
      }
      accounts := accounts[key := Account(false, 0)];
      created := true;
    }

    method Admit(key: string, admissionCost: nat)
      modifies this
      ensures View() == AdmitAccount(old(View()), key, admissionCost)
    {
      if key in accounts {
        accounts := accounts[key := Account(true, accounts[key].balance - admissionCost)];
      }
    }

    method UpdateBalance(key: string, positive: bool, amount: nat)
      modifies this
      ensures View() == AddToBalance(old(View()), key, if positive then amount as int else -(amount as int))
    {
      if key in accounts {
        var a := accounts[key];
        accounts := accounts[key := a.(balance := if positive then a.balance + amount else a.balance - amount)];
      }
    }

    method Record(hash: string, i: Invoice) returns (ok: bool)
      modifies this
      ensures ok == CanRecord(old(View()), i.pubkey, hash)
      ensures View() == RecordInvoice(old(View()), hash, i)
    {
      ok := i.pubkey in accounts && hash !in invoices;
      if ok {
        invoices := invoices[hash := i];
      }
    }

    /** Returns the invoice's account, or nothing when there is no such invoice. */
    method Update(hash: string, status: Status) returns (key: Option<string>)
      modifies this
      ensures View() == UpdateInvoice(old(View()), hash, status)
      ensures key == if hash in old(invoices) then Some(old(invoices)[hash].pubkey) else None
    {
      if hash !in invoices {
        return None;
      }
      var i := invoices[hash];
      invoices := invoices[hash := i.(status := status)];
      if i.status == Unpaid && status == Paid {
        UpdateBalance(i.pubkey, true, i.amount);
      }
      key := Some(i.pubkey);
    }

    /** The most recent unpaid invoice; ties are left open. */
    method GetUnpaid(key: string) returns (hash: Option<string>)
      ensures hash.None? <==> UnpaidOf(View(), key) == {}
      ensures hash.Some? ==> IsLatestUnpaid(View(), key, hash.value)
      ensures hash.Some? ==>
                hash.value in invoices && invoices[hash.value].pubkey == key && invoices[hash.value].status == Unpaid
      ensures hash.Some? ==>
                forall i :: i in invoices.Values && i.pubkey == key && i.status == Unpaid ==>
                  i.createdAt <= invoices[hash.value].createdAt
    {
      var candidates := UnpaidOf(AccountTables(accounts, invoices), key);
      hash := None;
      var left := candidates;
      while left != {}
        invariant left <= candidates
        invariant hash.None? <==> left == candidates
        invariant hash.Some? ==> hash.value in candidates && forall h ::
                    h in candidates && h !in left ==> invoices[h].createdAt <= invoices[hash.value].createdAt
        decreases left
      {
        var h :| h in left;
        if hash.None? || invoices[hash.value].createdAt < invoices[h].createdAt {
          hash := Some(h);
        }
        left := left - {h};
      }
    }
  }

  // ----- the payment task -----

  /** What the processor may answer: an error, or a status. */
  type Answer = Option<Status>

  datatype PaymentMessage = AccountAdmitted(key: string) | InvoiceSent(key: string, hash: string)

  /** `check_invoice_status`: the answer is stored, which may credit. */
  function Checked(t: AccountTables, hash: string, answer: Answer): AccountTables {
    if answer.Some? then UpdateInvoice(t, hash, answer.value) else t
  }

  /** `InvoicePaid`: check, settle and admit. */
  function OnInvoicePaid(t: AccountTables, hash: string, answer: Answer, admissionCost: nat): AccountTables {
    var checked := Checked(t, hash, answer);
    if answer == Some(Paid) && hash in t.invoices
    then AdmitAccount(UpdateInvoice(checked, hash, Paid), t.invoices[hash].pubkey, admissionCost)
    else checked
  }

  /** An invoice the processor issues: its hash and amount, or an error. */
  type Issued = Option<(string, nat)>

  /** The issued invoice is recorded; an error or a refused record leaves no invoice. */
  function NewInvoice(t: AccountTables, key: string, issued: Issued, now: nat): (AccountTables, Option<string>) {
    if issued.Some? && CanRecord(t, key, issued.value.0)
    then (RecordInvoice(t, issued.value.0, Invoice(key, issued.value.1, Unpaid, now)), Some(issued.value.0))
    else (t, None)
  }

  /** The direct messages with terms and invoice: switched off, stored and broadcast, or failed. */
  datatype Delivery = MessagesOff | Delivered | DeliveryFailed

  /** A failed delivery loses the reply, though the invoice stays recorded. */
  function Replied(hash: Option<string>, delivery: Delivery): Option<string> {
    if delivery == DeliveryFailed then None else hash
  }

  /** `get_invoice_info`: a known account with an unpaid invoice keeps it. */
  predicate Reuses(t: AccountTables, key: string) {
    key in t.accounts && UnpaidOf(t, key) != {}
  }

  function OnNewAccount(t: AccountTables, key: string, issued: Issued, now: nat): AccountTables {
    if Reuses(t, key) then t else NewInvoice(CreateAccount(t, key).0, key, issued, now).0
  }

  /** `CheckAccount`: the tables and the message sent, when `hash` is the unpaid invoice found. */
  function OnCheckAccount(t: AccountTables, key: string, hash: string, answer: Answer, admissionCost: nat)
    : (AccountTables, Option<PaymentMessage>)
  {
    var checked := Checked(t, hash, answer);
    if answer.None? then (checked, None)
    else if answer.value == Paid then (AdmitAccount(checked, key, admissionCost), Some(AccountAdmitted(key)))
    else (checked, Some(InvoiceSent(key, hash)))
  }

  function SentFor(key: string, hash: Option<string>): Option<PaymentMessage> {
    if hash.Some? then Some(InvoiceSent(key, hash.value)) else None
  }

  // ----- what the messages do -----

  /** The invoice is paid and credited at most once, its account admitted for the cost; nothing else
      changes. Any other answer admits nobody. */
  lemma InvoicePaidMeans(t: AccountTables, h: string, answer: Answer, admissionCost: nat)
    requires h in t.invoices && t.invoices[h].pubkey in t.accounts
    ensures
      var i, t' := t.invoices[h], OnInvoicePaid(t, h, answer, admissionCost);
      var a := t.accounts[i.pubkey];
      if answer == Some(Paid) then
        && t'.invoices == t.invoices[h := i.(status := Paid)]
        && t'.accounts == t.accounts[i.pubkey :=
             Account(true, a.balance + (if i.status == Unpaid then i.amount else 0) - admissionCost)]
      else if answer.Some? then t' == AccountTables(t.accounts, t.invoices[h := i.(status := answer.value)])
      else t' == t
  {
  }

  /** An unknown hash changes nothing, whatever the processor says. */
  lemma UnknownInvoiceChangesNothing(t: AccountTables, h: string, answer: Answer, admissionCost: nat)
    requires h !in t.invoices
    ensures OnInvoicePaid(t, h, answer, admissionCost) == t
  {
  }

  /** A paid answer credits, admits and says so; another is stored and the same invoice sent again; an
      error does and says nothing. */
  lemma CheckAccountMeans(t: AccountTables, key: string, h: string, answer: Answer, admissionCost: nat)
    requires h in UnpaidOf(t, key) && key in t.accounts
    ensures
      var i, a := t.invoices[h], t.accounts[key];
      OnCheckAccount(t, key, h, answer, admissionCost) ==
      if answer == Some(Paid) then
        (AccountTables(t.accounts[key := Account(true, a.balance + i.amount - admissionCost)],
                       t.invoices[h := i.(status := Paid)]), Some(AccountAdmitted(key)))
      else if answer.Some? then
        (AccountTables(t.accounts, t.invoices[h := i.(status := answer.value)]), Some(InvoiceSent(key, h)))
      else (t, None)
  {
    if answer == Some(Paid) {
      InvoicePaidMeans(t, h, answer, admissionCost);
      var paid := Checked(t, h, answer);
      assert AdmitAccount(paid, key, admissionCost).accounts ==
             t.accounts[key := Account(true, t.accounts[key].balance + t.invoices[h].amount - admissionCost)];
    }
  }

  /** A new account starts unadmitted with nothing; a new invoice starts unpaid under its account, and is
      sent exactly if it could be recorded and the messages with it were delivered or switched off. */
  lemma NewAccountMeans(t: AccountTables, key: string, issued: Issued, now: nat, delivery: Delivery)
    requires key in t.accounts ==>
               forall h :: h in t.invoices && t.invoices[h].pubkey == key ==> t.invoices[h].status != Unpaid
    ensures
      var t' := OnNewAccount(t, key, issued, now);
      var recorded := issued.Some? && issued.value.0 !in t.invoices;
      var reply := Replied(NewInvoice(CreateAccount(t, key).0, key, issued, now).1, delivery);
      && t'.accounts == (if key in t.accounts then t.accounts else t.accounts[key := Account(false, 0)])
      && t'.invoices == (if recorded then t.invoices[issued.value.0 := Invoice(key, issued.value.1, Unpaid, now)]
                         else t.invoices)
      && SentFor(key, reply) == (if recorded && delivery != DeliveryFailed then Some(InvoiceSent(key, issued.value.0))
                                 else None)
  {
    assert !Reuses(t, key);
  }

  /** An account that has an unpaid invoice gets no new one. */
  lemma KnownDebtorKeepsInvoice(t: AccountTables, key: string, h: string, issued: Issued, now: nat)
    requires key in t.accounts && h in t.invoices && t.invoices[h].pubkey == key && t.invoices[h].status == Unpaid
    ensures OnNewAccount(t, key, issued, now) == t
  {
    assert h in UnpaidOf(t, key);
  }

  class Payment {
    const repo: AccountRepo
    const admissionCost: nat

    constructor (repo: AccountRepo, admissionCost: nat)
      ensures this.repo == repo && this.admissionCost == admissionCost
    {
      this.repo, this.admissionCost := repo, admissionCost;
    }

    method CheckInvoiceStatus(hash: string, answer: Answer) returns (status: Option<Status>)
      modifies repo
      ensures repo.View() == Checked(old(repo.View()), hash, answer)
      ensures status == if hash in old(repo.invoices) then answer else None
    {
      if answer.None? {
        return None;
      }
      var key := repo.Update(hash, answer.value);
      status := if key.Some? then answer else None;
    }

    method InvoicePaid(hash: string, answer: Answer)
      modifies repo
      ensures repo.View() == OnInvoicePaid(old(repo.View()), hash, answer, admissionCost)
    {
      var status := CheckInvoiceStatus(hash, answer);
      if status == Some(Paid) {
        var key := repo.Update(hash, Paid);
        if key.Some? {
          repo.Admit(key.value, admissionCost);
        }
      }
    }

    /** Reuses the latest unpaid invoice of a known account, or asks the processor for a new one. */
    method GetInvoiceInfo(key: string, issued: Issued, now: nat, delivery: Delivery) returns (hash: Option<string>)
      modifies repo
      ensures repo.View() == OnNewAccount(old(repo.View()), key, issued, now)
      ensures if Reuses(old(repo.View()), key)
              then hash.Some? && IsLatestUnpaid(old(repo.View()), key, hash.value)
              else hash == Replied(NewInvoice(CreateAccount(old(repo.View()), key).0, key, issued, now).1, delivery)
    {
      var created := repo.Create(key);
      if !created {
        hash := repo.GetUnpaid(key);
        if hash.Some? {
          return;
        }
      }
      if issued.None? {
        return None;
      }
      var ok := repo.Record(issued.value.0, Invoice(key, issued.value.1, Unpaid, now));
      if !ok {
        return None;
      }
      if delivery == DeliveryFailed {
        return None;
      }
      hash := Some(issued.value.0);
    }

    /** `NewAccount`. */
    method NewAccount(key: string, issued: Issued, now: nat, delivery: Delivery) returns (m: Option<PaymentMessage>)
      modifies repo
      ensures repo.View() == OnNewAccount(old(repo.View()), key, issued, now)
      ensures if Reuses(old(repo.View()), key)
              then exists h :: IsLatestUnpaid(old(repo.View()), key, h) && m == Some(InvoiceSent(key, h))
              else m == SentFor(key, Replied(NewInvoice(CreateAccount(old(repo.View()), key).0, key, issued, now).1,
                                             delivery))
    {
      var hash := GetInvoiceInfo(key, issued, now, delivery);
      m := SentFor(key, hash);
    }

    method CheckAccount(key: string, answer: Answer, issued: Issued, now: nat, delivery: Delivery)
      returns (m: Option<PaymentMessage>)
      modifies repo
      ensures UnpaidOf(old(repo.View()), key) != {} ==>
                exists h :: IsLatestUnpaid(old(repo.View()), key, h) &&
                  (repo.View(), m) == OnCheckAccount(old(repo.View()), key, h, answer, admissionCost)
      ensures UnpaidOf(old(repo.View()), key) == {} ==>
                repo.View() == OnNewAccount(old(repo.View()), key, issued, now) &&
                m == SentFor(key, Replied(NewInvoice(CreateAccount(old(repo.View()), key).0, key, issued, now).1,
                                          delivery))
    {
      ghost var before := repo.View();
      var hash := repo.GetUnpaid(key);
      m := None;
      if hash.Some? {
        var status := CheckInvoiceStatus(hash.value, answer);
        if status == Some(Paid) {
          repo.Admit(key, admissionCost);
          m := Some(AccountAdmitted(key));
        } else if status.Some? {
          m := Some(InvoiceSent(key, hash.value));
        }
        assert (repo.View(), m) == OnCheckAccount(before, key, hash.value, answer, admissionCost);
      } else {
        var info := GetInvoiceInfo(key, issued, now, delivery);
        m := SentFor(key, info);
      }
    }
  }
}
