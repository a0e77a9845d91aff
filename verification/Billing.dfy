/** Invoices and the paid window they buy, under repeated and reordered webhooks. Times are
    whole seconds, as the database stores them. */
module Billing {
  import opened Options

  const MONTH := 2_592_000 // thirty days

  datatype Invoice = Invoice(userId: int, plan: string, amount: string, payUrl: string, status: string, paidAt: Option<int>)

  datatype User = User(plan: string, proUntil: Option<int>)

  /** The two tables; `invoices` is keyed by the unique invoice id. */
  datatype Db = Db(invoices: map<string, Invoice>, users: map<int, User>)

  predicate Paid(db: Db, id: string) {
    id in db.invoices && db.invoices[id].paidAt.Some?
  }

  /** Whether a paid-call for `id` charges: the invoice exists and is not paid yet. */
  predicate Charges(db: Db, id: string) {
    id in db.invoices && db.invoices[id].paidAt == None
  }

  function AfterSave(db: Db, id: string, invoice: Invoice): Db {
    if id in db.invoices then db else db.(invoices := db.invoices[id := invoice])
  }

  function Renewed(until: Option<int>, now: int): int {
    match until
    case Some(t) => t + MONTH
    case None => now + MONTH
  }

  /** The update of the users table; it has no effect when the user has no row. */
  function Extended(users: map<int, User>, u: int, now: int): map<int, User> {
    if u in users then users[u := User("pro", Some(Renewed(users[u].proUntil, now)))] else users
  }

  function AfterPay(db: Db, id: string, now: int): Db {
    if !Charges(db, id) then db
    else
      var i := db.invoices[id];
      Db(db.invoices[id := i.(status := "paid", paidAt := Some(now))], Extended(db.users, i.userId, now))
  }

  // ----- What the paid window must be

  ghost function PaidBy(db: Db, u: int): set<string> {
    set id | id in db.invoices && db.invoices[id].paidAt.Some? && db.invoices[id].userId == u
  }

  function Months(n: nat): int {
    2_592_000 * n
  }

  /** The row of user `u`, who began as `start` and first paid at `first`: untouched without
      a paid invoice; otherwise "pro", with thirty days for every paid invoice, counted from
      the initial end or, without one, from the first payment. */
  ghost predicate WindowIsPaid(db: Db, start: User, first: Option<int>, u: int)
    requires u in db.users
  {
    var n := |PaidBy(db, u)|;
    (n > 0 <==> first.Some?) &&
    match first
    case None => db.users[u] == start
    case Some(t) =>
      db.users[u] == User("pro", Some((if start.proUntil == None then t else start.proUntil.value) + Months(n)))
  }

  lemma PaidByAfterPay(db: Db, id: string, now: int, u: int)
    requires Charges(db, id)
    ensures |PaidBy(AfterPay(db, id, now), u)| == |PaidBy(db, u)| + if db.invoices[id].userId == u then 1 else 0
  {
    var was, paid := PaidBy(db, u), PaidBy(AfterPay(db, id, now), u);
    if db.invoices[id].userId == u {
      assert paid == was + {id};
    } else {
      assert paid == was;
    }
  }

  lemma PaidByAfterSave(db: Db, id: string, invoice: Invoice, u: int)
    requires invoice.paidAt == None
    ensures PaidBy(AfterSave(db, id, invoice), u) == PaidBy(db, u)
  {
  }

  // ----- Where the code and its promise part

  /** The promise: extend the paid time that remains, otherwise begin a month now. */
  function Promised(until: Option<int>, now: int): int {
    match until
    case Some(t) => (if t < now then now else t) + MONTH
    case None => now + MONTH
  }

  /** The code keeps the promise exactly when the old window has not ended before `now`; a
      user who lapsed longer than thirty days ago is still lapsed after paying. */
  lemma PromiseKeptIff(until: Option<int>, now: int)
    ensures Renewed(until, now) == Promised(until, now) <==> until == None || now <= until.value
    ensures Renewed(until, now) > now <==> until == None || now < until.value + MONTH
  {
  }

  // ----- Runs

  datatype Op =
    | Save(now: int, id: string, userId: int, plan: string, amount: string, payUrl: string)
    | Pay(now: int, id: string)

  function Created(userId: int, plan: string, amount: string, payUrl: string): Invoice {
    Invoice(userId, plan, amount, payUrl, "created", None)
  }

  function Step(db: Db, op: Op): Db {
    match op
    case Save(_, id, u, plan, amount, payUrl) => AfterSave(db, id, Created(u, plan, amount, payUrl))
    case Pay(now, id) => AfterPay(db, id, now)
  }

  function Run(db: Db, ops: seq<Op>, n: nat): Db
    requires n <= |ops|
  {
    if n == 0 then db else Step(Run(db, ops, n - 1), ops[n - 1])
  }

  /** No invoice is paid at the start. */
  ghost predicate Fresh(db: Db) {
    forall id :: id in db.invoices ==> db.invoices[id].paidAt == None
  }

  /** Whether operation `k` charges an invoice of user `u`. */
  predicate ChargesUser(db: Db, ops: seq<Op>, k: nat, u: int)
    requires k < |ops|
  {
    ops[k].Pay? && Charges(Run(db, ops, k), ops[k].id) && Run(db, ops, k).invoices[ops[k].id].userId == u
  }

  /** When user `u` first paid. */
  function FirstPayment(db: Db, ops: seq<Op>, n: nat, u: int): Option<int>
    requires n <= |ops|
  {
    if n == 0 then None
    else if FirstPayment(db, ops, n - 1, u).Some? then FirstPayment(db, ops, n - 1, u)
    else if ChargesUser(db, ops, n - 1, u) then Some(ops[n - 1].now) else None
  }

  /** However invoices are saved and paid, repeated and reordered, every user's window is
      thirty days for each distinct paid invoice, from its initial end or the first payment. */
  lemma {:induction false} WindowOverRuns(db: Db, ops: seq<Op>, n: nat, u: int)
    requires n <= |ops| && Fresh(db) && u in db.users
    ensures u in Run(db, ops, n).users
    ensures WindowIsPaid(Run(db, ops, n), db.users[u], FirstPayment(db, ops, n, u), u)
  {
    if n == 0 {
      assert PaidBy(db, u) == {};
    } else {
      WindowOverRuns(db, ops, n - 1, u);
      var before := Run(db, ops, n - 1);
      match ops[n - 1]
      case Save(_, id, v, plan, amount, payUrl) =>
        PaidByAfterSave(before, id, Created(v, plan, amount, payUrl), u);
      case Pay(now, id) =>
        if Charges(before, id) {
          PaidByAfterPay(before, id, now, u);
        }
    }
  }

  /** In every run, a payment leaves its user a window beyond the moment of payment exactly
      when that moment is less than a month for each paid invoice after the initial end, or
      after the first payment where there was none. */
  lemma PaidWindowIsOpenIff(db: Db, ops: seq<Op>, k: nat, u: int)
    requires k < |ops| && Fresh(db) && u in db.users && ChargesUser(db, ops, k, u)
    ensures FirstPayment(db, ops, k + 1, u).Some? && u in Run(db, ops, k + 1).users
    ensures var from := if db.users[u].proUntil.Some? then db.users[u].proUntil.value
                        else FirstPayment(db, ops, k + 1, u).value;
            Run(db, ops, k + 1).users[u].proUntil.Some? &&
            (ops[k].now < Run(db, ops, k + 1).users[u].proUntil.value
             <==> ops[k].now < from + Months(|PaidBy(Run(db, ops, k + 1), u)|))
  {
    WindowOverRuns(db, ops, k + 1, u);
  }

  /** Pay one invoice at `first` and another at `second`. */
  function TwoPayments(u: int, a: string, b: string, first: int, second: int): seq<Op> {
    [Save(first, a, u, "pro", "5", ""), Pay(first, a), Save(second, b, u, "pro", "5", ""), Pay(second, b)]
  }

  /** A user without a window who pays again `first` plus sixty days or later has paid twice
      and has nothing, where the promise gives thirty days. */
  lemma LapsedPayerGetsNothing(db: Db, u: int, a: string, b: string, first: int, second: int)
    requires Fresh(db) && u in db.users && db.users[u].proUntil == None
    requires a !in db.invoices && b !in db.invoices && a != b && first + 2 * MONTH <= second
    ensures var r := Run(db, TwoPayments(u, a, b, first, second), 4);
            Paid(r, a) && Paid(r, b) && u in r.users && r.users[u].proUntil == Some(first + 2 * MONTH)
    ensures var r := Run(db, TwoPayments(u, a, b, first, second), 3);
            u in r.users && Promised(r.users[u].proUntil, second) == second + MONTH
  {
    var ops := TwoPayments(u, a, b, first, second);
    var invoice := Created(u, "pro", "5", "");
    var db1 := AfterSave(db, a, invoice);
    var db2 := AfterPay(db1, a, first);
    var db3 := AfterSave(db2, b, invoice);
    assert Run(db, ops, 1) == db1;
    assert Run(db, ops, 2) == db2;
    assert Run(db, ops, 3) == db3;
    assert Run(db, ops, 4) == AfterPay(db3, b, second);
  }

  /** Once stamped, an invoice keeps its payment time, and it never changes its owner. */
  lemma {:induction false} PaidAtIsStable(db: Db, ops: seq<Op>, m: nat, n: nat, id: string)
    requires m <= n <= |ops| && id in Run(db, ops, m).invoices
    ensures id in Run(db, ops, n).invoices
    ensures var was, now := Run(db, ops, m).invoices[id], Run(db, ops, n).invoices[id];
            now.userId == was.userId && (was.paidAt.Some? ==> now == was)
  {
    if m < n {
      PaidAtIsStable(db, ops, m, n - 1, id);
    }
  }

  /** An invoice bears the time of the paid-call that charged it. */
  lemma {:induction false} PaidAtIsChargeTime(db: Db, ops: seq<Op>, n: nat, id: string) returns (k: nat)
    requires n <= |ops| && Fresh(db) && Paid(Run(db, ops, n), id)
    ensures k < n && ops[k].Pay? && ops[k].id == id && id in Run(db, ops, k).invoices && !Paid(Run(db, ops, k), id)
    ensures Run(db, ops, n).invoices[id] == Run(db, ops, k).invoices[id].(status := "paid", paidAt := Some(ops[k].now))
  {
    if Paid(Run(db, ops, n - 1), id) {
      k := PaidAtIsChargeTime(db, ops, n - 1, id);
    } else {
      k := n - 1;
    }
  }

  /** How many of the first `n` operations report a first charge of `id`. */
  function TimesCharged(db: Db, ops: seq<Op>, n: nat, id: string): nat
    requires n <= |ops|
  {
    if n == 0 then 0
    else
      TimesCharged(db, ops, n - 1, id) +
      if ops[n - 1].Pay? && ops[n - 1].id == id && Charges(Run(db, ops, n - 1), id) then 1 else 0
  }

  /** Some paid-call found the invoice. */
  ghost predicate CalledOnce(db: Db, ops: seq<Op>, n: nat, id: string)
    requires n <= |ops|
  {
    exists k :: 0 <= k < n && ops[k].Pay? && ops[k].id == id && id in Run(db, ops, k).invoices
  }

  /** A first charge is reported exactly once for every invoice some paid-call found, and
      never for another. */
  lemma {:induction false} ChargedOnce(db: Db, ops: seq<Op>, n: nat, id: string)
    requires n <= |ops| && Fresh(db)
    ensures TimesCharged(db, ops, n, id) == (if CalledOnce(db, ops, n, id) then 1 else 0)
    ensures Paid(Run(db, ops, n), id) <==> CalledOnce(db, ops, n, id)
  {
    if n > 0 {
      ChargedOnce(db, ops, n - 1, id);
      var called := ops[n - 1].Pay? && ops[n - 1].id == id && id in Run(db, ops, n - 1).invoices;
      assert CalledOnce(db, ops, n, id) <==> CalledOnce(db, ops, n - 1, id) || called;
    }
  }

  datatype PayResult = NoInvoice | Known(userId: int, firstCharge: bool)

  /** On the paid plan for thirty days more, from the end the user had, or else from now. */
  function OnPro(user: User, now: int): User {
    User("pro", Some(30 * 24 * 3600 + if user.proUntil.Some? then user.proUntil.value else now))
  }

  class BillingStore {
    var invoices: map<string, Invoice>
    var users: map<int, User>

    ghost function Contents(): Db
      reads this
    {
      Db(invoices, users)
    }

    /** False when the invoice id is taken: the insert violates its unique constraint. */
    method SaveInvoice(invoiceId: string, userId: int, plan: string, amount: string, payUrl: string) returns (ok: bool)
      modifies this`invoices
      ensures ok <==> invoiceId !in old(invoices)
      ensures invoices == if ok then old(invoices)[invoiceId := Invoice(userId, plan, amount, payUrl, "created", None)] else old(invoices)
      ensures forall now :: Contents() == Step(old(Contents()), Save(now, invoiceId, userId, plan, amount, payUrl))
    {
      ok := invoiceId !in invoices;
      if ok {
        invoices := invoices[invoiceId := Invoice(userId, plan, amount, payUrl, "created", None)];
      }
    }

    method MarkInvoicePaid(invoiceId: string, now: int) returns (r: PayResult)
      modifies this
      ensures Contents() == Step(old(Contents()), Pay(now, invoiceId))
      ensures r == (if invoiceId !in old(invoices) then NoInvoice
                    else Known(old(invoices)[invoiceId].userId, old(invoices)[invoiceId].paidAt == None))
      ensures r.Known? && r.firstCharge ==>
                invoices == old(invoices)[invoiceId := old(invoices)[invoiceId].(status := "paid", paidAt := Some(now))] &&
                users == if r.userId in old(users) then old(users)[r.userId := OnPro(old(users)[r.userId], now)] else old(users)
      ensures !(r.Known? && r.firstCharge) ==> Contents() == old(Contents())
    {
      if invoiceId !in invoices {
        return NoInvoice;
      }
      var userId, paidAt := invoices[invoiceId].userId, invoices[invoiceId].paidAt;
      if paidAt.Some? {
        return Known(userId, false);
      }
      invoices := invoices[invoiceId := invoices[invoiceId].(status := "paid", paidAt := Some(now))];
      if userId in users {
        users := users[userId := User("pro", Some(Renewed(users[userId].proUntil, now)))];
      }
      r := Known(userId, true);
    }
  }
}
