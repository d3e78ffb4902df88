// Per-connection session state: the transaction status machine, the
// operations a transaction has done, and the open portals.

module Sessions {
  import D = Datums
  import R = Repr
  import TF = TableFunc

  /// The errors of the coordinator that session operations raise; any other
  /// error only passes through (it comes from the timestamp source).
  datatype CoordError =
    | ReadOnlyTransaction
    | TailOnlyTransaction
    | WriteOnlyTransaction
    | DuplicateCursor(name: string)
    | Unstructured(msg: string)
    | Other(code: nat)

  datatype CoordResult<T> = Ok(value: T) | Err(error: CoordError)

  /// The plan context of a transaction: the wall-clock time it started at.
  datatype PlanContext = PlanContext(wallTime: int)

  /// An `INSERT` waiting to be committed: the target table and its updates.
  datatype WriteOp = WriteOp(id: nat, rows: seq<TF.Update>)

  /// What a transaction has done so far; reads and writes never mix.
  /// `NoOps` is `TransactionOps::None`.
  datatype TransactionOps =
    | NoOps
    | Peeks(ts: nat)
    | Tail
    | Writes(writes: seq<WriteOp>)

  /// A transaction; the coordinator's write lock is held or not.
  datatype Transaction = Transaction(pcx: PlanContext, ops: TransactionOps, writeLock: bool)

  datatype TransactionStatus =
    | Default
    | Started(txn: Transaction)
    | InTransaction(txn: Transaction)
    | InTransactionImplicit(txn: Transaction)
    | Failed(txn: Transaction)

  /// A fresh transaction started at `wallTime`.
  function NewTransaction(wallTime: int): (t: Transaction)
    ensures t.ops == NoOps && !t.writeLock && t.pcx.wallTime == wallTime
  {
    Transaction(PlanContext(wallTime), NoOps, false)
  }

  predicate Active(s: TransactionStatus) {
    s.Started? || s.InTransaction? || s.InTransactionImplicit?
  }

  /// `TransactionStatus::into_ops`: the operations of a transaction that has
  /// not failed.
  function IntoOps(s: TransactionStatus): (r: D.Option<TransactionOps>)
    ensures r.Some? <==> Active(s)
    ensures r.Some? ==> r.value == s.txn.ops
  {
    match s
    case Default => D.None
    case Failed(_) => D.None
    case Started(t) => D.Some(t.ops)
    case InTransaction(t) => D.Some(t.ops)
    case InTransactionImplicit(t) => D.Some(t.ops)
  }

  /// `TransactionStatus::inner`: the transaction, failed or not.
  function Inner(s: TransactionStatus): (r: D.Option<Transaction>)
    ensures r.Some? <==> !s.Default?
    ensures r.Some? ==> r.value == s.txn
  {
    if s.Default? then D.None else D.Some(s.txn)
  }

  /// `TransactionStatus::is_implicit`: a single-statement or an implicit
  /// multi-statement transaction.
  function IsImplicit(s: TransactionStatus): (b: bool)
    ensures b ==> Active(s)
    ensures b <==> IntoOps(s).Some? && !s.InTransaction?
  {
    s.Started? || s.InTransactionImplicit?
  }

  // ---------------------------------------------------------------------
  // Transitions of the status, as values

  /// The status after `start_transaction`: always an explicit transaction;
  /// an implicit one is kept with everything it has done, an explicit one
  /// is left alone, and otherwise a fresh transaction begins.
  function AfterStart(s: TransactionStatus, wallTime: int): (r: TransactionStatus)
    requires !s.Failed?
    ensures r.InTransaction? && !IsImplicit(r)
    ensures s.InTransactionImplicit? || s.InTransaction? ==> r.txn == s.txn
    ensures s.Default? || s.Started? ==> r.txn == NewTransaction(wallTime)
  {
    match s
    case Default => InTransaction(NewTransaction(wallTime))
    case Started(_) => InTransaction(NewTransaction(wallTime))
    case InTransactionImplicit(t) => InTransaction(t)
    case InTransaction(_) => s
  }

  /// The status after `start_transaction_implicit` for a query of `stmts`
  /// statements: only an idle session changes, to a single-statement
  /// transaction for one statement and an implicit one for more.
  function AfterStartImplicit(s: TransactionStatus, wallTime: int, stmts: nat): (r: TransactionStatus)
    ensures !s.Default? || stmts == 0 ==> r == s
    ensures s.Default? && stmts == 1 ==> r == Started(NewTransaction(wallTime))
    ensures s.Default? && stmts > 1 ==> r == InTransactionImplicit(NewTransaction(wallTime))
  {
    if s.Default? then
      if stmts == 1 then Started(NewTransaction(wallTime))
      else if stmts > 1 then InTransactionImplicit(NewTransaction(wallTime))
      else s
    else s
  }

  /// The status after `fail_transaction`: failed, with the same transaction.
  function AfterFail(s: TransactionStatus): (r: TransactionStatus)
    requires !s.Default?
    ensures r.Failed? && r.txn == s.txn
  {
    Failed(s.txn)
  }

  /// `add_transaction_ops` on the operations alone: nothing done yet takes
  /// the new operations; reads take only further reads at the same
  /// timestamp; a `TAIL` takes nothing; writes take further writes, appended
  /// in order.
  function MergeOps(ops: TransactionOps, add: TransactionOps): (r: CoordResult<TransactionOps>)
    requires ops.Peeks? && add.Peeks? ==> ops.ts == add.ts
    ensures ops.NoOps? ==> r == Ok(add)
    ensures ops.Peeks? ==> (if add.Peeks? then r == Ok(ops) else r == Err(ReadOnlyTransaction))
    ensures ops.Tail? ==> r == Err(TailOnlyTransaction)
    ensures ops.Writes? ==>
      (if add.Writes? then r == Ok(Writes(ops.writes + add.writes)) else r == Err(WriteOnlyTransaction))
  {
    match ops
    case NoOps => Ok(add)
    case Peeks(_) => if add.Peeks? then Ok(ops) else Err(ReadOnlyTransaction)
    case Tail => Err(TailOnlyTransaction)
    case Writes(ws) => if add.Writes? then Ok(Writes(ws + add.writes)) else Err(WriteOnlyTransaction)
  }

  /// The same status around a transaction with other operations.
  function WithOps(s: TransactionStatus, ops: TransactionOps): (r: TransactionStatus)
    requires !s.Default?
    ensures !r.Default? && r.txn.ops == ops && r.txn.pcx == s.txn.pcx && r.txn.writeLock == s.txn.writeLock
    ensures IntoOps(r).Some? == IntoOps(s).Some? && IsImplicit(r) == IsImplicit(s)
  {
    var t := s.txn.(ops := ops);
    match s
    case Started(_) => Started(t)
    case InTransaction(_) => InTransaction(t)
    case InTransactionImplicit(_) => InTransactionImplicit(t)
    case Failed(_) => Failed(t)
  }

  // ---------------------------------------------------------------------
  // Properties of the transitions

  /// Starting an explicit transaction twice is starting it once.
  lemma StartIdempotent(s: TransactionStatus, w1: int, w2: int)
    requires !s.Failed?
    ensures AfterStart(AfterStart(s, w1), w2) == AfterStart(s, w1)
  {
  }

  /// Failing is idempotent, keeps the transaction visible through `inner`
  /// and hides its operations from `into_ops`.
  lemma FailSpec(s: TransactionStatus)
    requires !s.Default?
    ensures AfterFail(AfterFail(s)) == AfterFail(s)
    ensures Inner(AfterFail(s)) == Inner(s) && IntoOps(AfterFail(s)).None?
  {
  }

  /// Every status the implicit start reaches from an idle session with at
  /// least one statement is implicit, and the explicit start then turns it
  /// into an explicit transaction that has still done nothing.
  lemma ImplicitThenExplicit(w1: int, w2: int, stmts: nat)
    requires stmts >= 1
    ensures IsImplicit(AfterStartImplicit(Default, w1, stmts))
    ensures var s := AfterStart(AfterStartImplicit(Default, w1, stmts), w2);
      s.InTransaction? && s.txn.ops == NoOps
  {
  }

  /// All read operations among `ops` are at one timestamp (the source
  /// asserts this when it merges reads).
  predicate PeeksAgree(ops: seq<TransactionOps>) {
    forall a, b :: a in ops && b in ops && a.Peeks? && b.Peeks? ==> a.ts == b.ts
  }

  /// Merging a sequence of operations in turn, stopping at the first error.
  function MergeAll(ops: TransactionOps, adds: seq<TransactionOps>): CoordResult<TransactionOps>
    requires PeeksAgree([ops] + adds)
    decreases |adds|
  {
    if adds == [] then Ok(ops)
    else
      assert adds[0] in [ops] + adds;
      var r := MergeOps(ops, adds[0]);
      if r.Err? then r
      else
        MergeAgree(ops, adds);
        MergeAll(r.value, adds[1..])
  }

  lemma MergeAgree(ops: TransactionOps, adds: seq<TransactionOps>)
    requires adds != [] && PeeksAgree([ops] + adds)
    requires ops.Peeks? && adds[0].Peeks? ==> ops.ts == adds[0].ts
    ensures MergeOps(ops, adds[0]).Ok? ==> PeeksAgree([MergeOps(ops, adds[0]).value] + adds[1..])
  {
    var r := MergeOps(ops, adds[0]);
    if r.Ok? {
      forall x | x in [r.value] + adds[1..] ensures x in [ops] + adds || !x.Peeks? {
        if x != r.value {
          assert x in adds[1..];
        }
      }
    }
  }

  /// The operations all belong to one kind.
  predicate SameKind(a: TransactionOps, b: TransactionOps) {
    (a.Peeks? && b.Peeks?) || (a.Tail? && b.Tail?) || (a.Writes? && b.Writes?) || (a.NoOps? && b.NoOps?)
  }

  /// A transaction never mixes kinds of operations: when a sequence of
  /// additions merges without error, each addition did nothing or is of
  /// the kind of the final operations.
  lemma {:induction false} MergeAllNoMixing(ops: TransactionOps, adds: seq<TransactionOps>)
    requires PeeksAgree([ops] + adds)
    requires MergeAll(ops, adds).Ok?
    ensures ops.NoOps? || SameKind(ops, MergeAll(ops, adds).value)
    ensures forall k :: 0 <= k < |adds| ==> adds[k].NoOps? || SameKind(adds[k], MergeAll(ops, adds).value)
    decreases |adds|
  {
    if adds != [] {
      assert adds[0] in [ops] + adds;
      var r := MergeOps(ops, adds[0]);
      MergeAgree(ops, adds);
      MergeAllNoMixing(r.value, adds[1..]);
      assert forall k :: 1 <= k < |adds| ==> adds[k] == adds[1..][k - 1];
    }
  }

  /// All the writes of a sequence of additions, in order.
  function AllWrites(adds: seq<TransactionOps>): seq<WriteOp>
    requires forall k :: 0 <= k < |adds| ==> adds[k].Writes?
  {
    if adds == [] then [] else adds[0].writes + AllWrites(adds[1..])
  }

  /// A write transaction accumulates every write it is given, in order.
  lemma {:induction false} MergeAllWrites(ws: seq<WriteOp>, adds: seq<TransactionOps>)
    requires forall k :: 0 <= k < |adds| ==> adds[k].Writes?
    ensures PeeksAgree([Writes(ws)] + adds)
    ensures MergeAll(Writes(ws), adds) == Ok(Writes(ws + AllWrites(adds)))
    decreases |adds|
  {
    assert forall x :: x in [Writes(ws)] + adds ==> x.Writes?;
    if adds != [] {
      assert forall k :: 0 <= k < |adds[1..]| ==> adds[1..][k] == adds[k + 1];
      MergeAllWrites(ws + adds[0].writes, adds[1..]);
      assert adds[0] in [Writes(ws)] + adds;
      assert MergeOps(Writes(ws), adds[0]) == Ok(Writes(ws + adds[0].writes));
      MergeAgree(Writes(ws), adds);
      assert MergeAll(Writes(ws), adds) == MergeAll(Writes(ws + adds[0].writes), adds[1..]);
      assert ws + adds[0].writes + AllWrites(adds[1..]) == ws + (adds[0].writes + AllWrites(adds[1..]));
    } else {
      assert ws + [] == ws;
    }
  }

  // ---------------------------------------------------------------------
  // Portals

  datatype Format = Text | Binary

  /// The execution state of a portal; the rows of one in progress are not
  /// part of this model.
  datatype PortalState = NotStarted | InProgress | Completed(tag: D.Option<string>)

  /// Bound parameter values and their types.
  datatype Params = Params(datums: seq<D.Datum>, types: seq<R.ScalarType>)

  /// A portal: its statement's text (none for the empty query), the bound
  /// parameters, the result formats and its state.
  datatype Portal = Portal(stmt: D.Option<string>, parameters: Params, resultFormats: seq<Format>, state: PortalState)

  datatype PreparedStatement = PreparedStatement(sql: D.Option<string>)

  /// The values of `(value, type)` pairs and their types, in order.
  function SplitParams(ps: seq<(D.Datum, R.ScalarType)>): (r: Params)
    ensures |r.datums| == |ps| == |r.types|
    ensures forall k :: 0 <= k < |ps| ==> r.datums[k] == ps[k].0 && r.types[k] == ps[k].1
  {
    if ps == [] then Params([], [])
    else
      var rest := SplitParams(ps[1..]);
      Params([ps[0].0] + rest.datums, [ps[0].1] + rest.types)
  }

  function DigitChar(d: nat): char
    requires d < 10
  {
    "0123456789"[d]
  }

  /// The decimal digits of `n`, as `format!("{}", n)` writes them.
  function Decimal(n: nat): (s: string)
    ensures |s| >= 1
    ensures forall k :: 0 <= k < |s| ==> '0' <= s[k] <= '9'
    ensures |s| == 1 <==> n < 10
  {
    if n < 10 then [DigitChar(n)] else Decimal(n / 10) + [DigitChar(n % 10)]
  }

  /// Distinct numbers have distinct decimal forms.
  lemma {:induction false} DecimalInjective(a: nat, b: nat)
    requires Decimal(a) == Decimal(b)
    ensures a == b
  {
    if a >= 10 && b >= 10 {
      var da, db := Decimal(a), Decimal(b);
      assert da[..|da| - 1] == Decimal(a / 10);
      assert db[..|db| - 1] == Decimal(b / 10);
      DecimalInjective(a / 10, b / 10);
      assert DigitChar(a % 10) == da[|da| - 1] == db[|db| - 1] == DigitChar(b % 10);
    }
  }

  /// The name of the `i`-th unnamed portal.
  function PortalName(i: nat): string {
    "<unnamed portal " + Decimal(i) + ">"
  }

  lemma PortalNameInjective(i: nat, j: nat)
    requires PortalName(i) == PortalName(j)
    ensures i == j
  {
    var pre := "<unnamed portal ";
    var di, dj := Decimal(i), Decimal(j);
    assert PortalName(i)[|pre|..|PortalName(i)| - 1] == di;
    assert PortalName(j)[|pre|..|PortalName(j)| - 1] == dj;
    DecimalInjective(i, j);
  }

  /// The number of values a `usize` counter takes.
  const USIZE: nat := 0x1_0000_0000_0000_0000

  /// The names of the first `n` unnamed portals.
  function FirstNames(n: nat): set<string> {
    set i | 0 <= i < n :: PortalName(i)
  }

  /// There are `n` distinct names among the first `n`.
  lemma {:induction false} FirstNamesCount(n: nat)
    ensures |FirstNames(n)| == n
  {
    if n > 0 {
      FirstNamesCount(n - 1);
      assert FirstNames(n) == FirstNames(n - 1) + {PortalName(n - 1)};
      if PortalName(n - 1) in FirstNames(n - 1) {
        var i :| 0 <= i < n - 1 && PortalName(i) == PortalName(n - 1);
        PortalNameInjective(i, n - 1);
      }
    }
  }

  lemma {:induction false} SubsetCard<T>(a: set<T>, b: set<T>)
    requires a <= b
    ensures |a| <= |b|
    decreases |a|
  {
    if a != {} {
      var x :| x in a;
      SubsetCard(a - {x}, b - {x});
    }
  }

  /// A portal map with fewer than `usize::MAX + 1` entries leaves some
  /// unnamed portal name free.
  lemma SomeNameFree(portals: map<string, Portal>)
    requires |portals| < USIZE
    ensures exists i :: 0 <= i < USIZE && PortalName(i) !in portals
  {
    if forall i :: 0 <= i < USIZE ==> PortalName(i) in portals {
      FirstNamesCount(USIZE);
      SubsetCard(FirstNames(USIZE), portals.Keys);
      assert false;
    }
  }

  // ---------------------------------------------------------------------
  // The session

  /// A session holds per-connection state. Session variables are not part
  /// of this model.
  class Session {
    const connId: nat
    const user: string
    var preparedStatements: map<string, PreparedStatement>
    var portals: map<string, Portal>
    var transaction: TransactionStatus
    var pcx: D.Option<PlanContext>
    var dropSinks: seq<nat>

    /// `Session::new_internal`: idle, with nothing prepared or open.
    constructor (connId: nat, user: string)
      ensures this.connId == connId && this.user == user
      ensures transaction == Default && pcx == D.None
      ensures preparedStatements == map[] && portals == map[] && dropSinks == []
    {
      this.connId := connId;
      this.user := user;
      transaction := Default;
      pcx := D.None;
      preparedStatements := map[];
      portals := map[];
      dropSinks := [];
    }

    /// `Session::start_transaction`; a failed transaction cannot be
    /// restarted (the source marks it unreachable).
    method StartTransaction(wallTime: int)
      requires !transaction.Failed?
      modifies this
      ensures transaction == AfterStart(old(transaction), wallTime)
      ensures portals == old(portals) && preparedStatements == old(preparedStatements)
      ensures pcx == old(pcx) && dropSinks == old(dropSinks)
    {
      match transaction
      case Default =>
        transaction := InTransaction(NewTransaction(wallTime));
      case Started(_) =>
        transaction := InTransaction(NewTransaction(wallTime));
      case InTransactionImplicit(t) =>
        transaction := InTransaction(t);
      case InTransaction(_) =>
    }

    /// `Session::start_transaction_implicit`.
    method StartTransactionImplicit(wallTime: int, stmts: nat)
      modifies this
      ensures transaction == AfterStartImplicit(old(transaction), wallTime, stmts)
      ensures portals == old(portals) && preparedStatements == old(preparedStatements)
      ensures pcx == old(pcx) && dropSinks == old(dropSinks)
    {
      if transaction.Default? {
        var t := NewTransaction(wallTime);
        if stmts == 1 {
          transaction := Started(t);
        } else if stmts > 1 {
          transaction := InTransactionImplicit(t);
        }
      }
    }

    /// `Session::clear_transaction`: every portal is destroyed, the status
    /// is idle again and the sinks to drop are handed back with the old
    /// status.
    method ClearTransaction() returns (sinks: seq<nat>, txn: TransactionStatus)
      modifies this
      ensures sinks == old(dropSinks) && txn == old(transaction)
      ensures portals == map[] && transaction == Default && pcx == D.None && dropSinks == []
      ensures preparedStatements == old(preparedStatements)
    {
      portals := map[];
      pcx := D.None;
      sinks := dropSinks;
      dropSinks := [];
      txn := transaction;
      transaction := Default;
    }

    /// `Session::fail_transaction`; an idle session cannot fail (the
    /// source marks it unreachable).
    method FailTransaction()
      requires !transaction.Default?
      modifies this
      ensures transaction == AfterFail(old(transaction))
      ensures portals == old(portals) && preparedStatements == old(preparedStatements)
      ensures pcx == old(pcx) && dropSinks == old(dropSinks)
    {
      if !transaction.Failed? {
        transaction := Failed(transaction.txn);
      }
    }

    /// `Session::add_transaction_ops`, for an active transaction (the
    /// source marks the others unreachable). Reads at two timestamps are
    /// refused by an assertion of the source, so the caller must not offer
    /// them. On an error nothing changes.
    method AddTransactionOps(add: TransactionOps) returns (r: CoordResult<()>)
      requires Active(transaction)
      requires transaction.txn.ops.Peeks? && add.Peeks? ==> transaction.txn.ops.ts == add.ts
      modifies this
      ensures var m := MergeOps(old(transaction).txn.ops, add);
        (r.Err? <==> m.Err?)
        && (m.Err? ==> r.error == m.error && transaction == old(transaction))
        && (m.Ok? ==> transaction == WithOps(old(transaction), m.value))
      ensures portals == old(portals) && preparedStatements == old(preparedStatements)
      ensures pcx == old(pcx) && dropSinks == old(dropSinks)
    {
      var ops := transaction.txn.ops;
      match ops {
        case NoOps =>
          transaction := WithOps(transaction, add);
        case Peeks(_) =>
          if !add.Peeks? {
            return Err(ReadOnlyTransaction);
          }
          assert WithOps(transaction, ops) == transaction;
        case Tail =>
          return Err(TailOnlyTransaction);
        case Writes(ws) =>
          if !add.Writes? {
            return Err(WriteOnlyTransaction);
          }
          transaction := WithOps(transaction, Writes(ws + add.writes));
      }
      r := Ok(());
    }

    /// `Session::get_transaction_timestamp`, with `getTs` standing for what
    /// the timestamp source would answer. A read transaction reuses its
    /// timestamp and never asks; any other asks once and becomes a read
    /// at the answer, unless the answer is an error or it cannot take reads.
    method GetTransactionTimestamp(getTs: CoordResult<nat>) returns (r: CoordResult<nat>, asked: bool)
      requires Active(transaction)
      modifies this
      ensures var ops := old(transaction).txn.ops;
        (asked <==> !ops.Peeks?)
        && (ops.Peeks? ==> r == Ok(ops.ts) && transaction == old(transaction))
        && (getTs.Err? && asked ==> r == getTs && transaction == old(transaction))
        && (ops.NoOps? && getTs.Ok? ==> r == getTs && transaction == WithOps(old(transaction), Peeks(getTs.value)))
        && (ops.Tail? && getTs.Ok? ==> r == Err(TailOnlyTransaction) && transaction == old(transaction))
        && (ops.Writes? && getTs.Ok? ==> r == Err(WriteOnlyTransaction) && transaction == old(transaction))
      ensures portals == old(portals) && preparedStatements == old(preparedStatements)
      ensures pcx == old(pcx) && dropSinks == old(dropSinks)
    {
      var ts: nat;
      if transaction.txn.ops.Peeks? {
        ts := transaction.txn.ops.ts;
        asked := false;
      } else {
        asked := true;
        if getTs.Err? {
          return getTs, asked;
        }
        ts := getTs.value;
      }
      var added := AddTransactionOps(Peeks(ts));
      if added.Err? {
        return Err(added.error), asked;
      }
      r := Ok(ts);
    }

    /// `Session::set_portal`: a named portal that already exists is refused
    /// with nothing changed; the unnamed one (the empty name) is silently
    /// replaced. The new portal has not started.
    method SetPortal(name: string, stmt: D.Option<string>, params: seq<(D.Datum, R.ScalarType)>, formats: seq<Format>)
      returns (r: CoordResult<()>)
      modifies this
      ensures r.Err? <==> name != "" && name in old(portals)
      ensures r.Err? ==> r.error == DuplicateCursor(name) && portals == old(portals)
      ensures r.Ok? ==> portals == old(portals)[name := Portal(stmt, SplitParams(params), formats, NotStarted)]
      ensures transaction == old(transaction) && preparedStatements == old(preparedStatements)
      ensures pcx == old(pcx) && dropSinks == old(dropSinks)
    {
      if name != "" && name in portals {
        return Err(DuplicateCursor(name));
      }
      portals := portals[name := Portal(stmt, SplitParams(params), formats, NotStarted)];
      r := Ok(());
    }

    /// `Session::remove_portal`: whether the portal existed; afterwards it
    /// does not.
    method RemovePortal(name: string) returns (existed: bool)
      modifies this
      ensures existed <==> name in old(portals)
      ensures portals == old(portals) - {name}
      ensures transaction == old(transaction) && preparedStatements == old(preparedStatements)
      ensures pcx == old(pcx) && dropSinks == old(dropSinks)
    {
      existed := name in portals;
      portals := portals - {name};
    }

    /// `Session::create_new_portal`: the portal is installed under the first
    /// unnamed-portal name not in use, which is returned; only when every
    /// `usize` counter value is taken does it fail.
    method CreateNewPortal(stmt: D.Option<string>, parameters: Params, formats: seq<Format>)
      returns (r: CoordResult<string>)
      modifies this
      ensures r.Ok? ==> exists i :: (0 <= i < USIZE && r.value == PortalName(i)
        && r.value !in old(portals)
        && (forall j :: 0 <= j < i ==> PortalName(j) in old(portals)))
      ensures r.Ok? ==> portals == old(portals)[r.value := Portal(stmt, parameters, formats, NotStarted)]
      ensures r.Err? ==> r.error == Unstructured("unable to create a new portal") && portals == old(portals)
      ensures r.Err? ==> forall j :: 0 <= j < USIZE ==> PortalName(j) in old(portals)
      ensures transaction == old(transaction) && preparedStatements == old(preparedStatements)
      ensures pcx == old(pcx) && dropSinks == old(dropSinks)
    {
      var i := 0;
      while i < USIZE
        invariant 0 <= i <= USIZE
        invariant portals == old(portals)
        invariant forall j :: 0 <= j < i ==> PortalName(j) in portals
      {
        var name := PortalName(i);
        if name !in portals {
          portals := portals[name := Portal(stmt, parameters, formats, NotStarted)];
          return Ok(name);
        }
        i := i + 1;
      }
      r := Err(Unstructured("unable to create a new portal"));
    }

    /// `Session::reset`: the transaction is cleared and every prepared
    /// statement removed; the sinks to drop are handed back.
    method Reset() returns (sinks: seq<nat>)
      modifies this
      ensures sinks == old(dropSinks)
      ensures portals == map[] && transaction == Default && pcx == D.None && dropSinks == []
      ensures preparedStatements == map[]
    {
      var txn;
      sinks, txn := ClearTransaction();
      preparedStatements := map[];
    }
  }

  /// With fewer than `usize::MAX + 1` portals open, creating a portal always
  /// succeeds, under a name no other portal has, and keeps every other one.
  method CreateInSession(s: Session, stmt: D.Option<string>, parameters: Params, formats: seq<Format>)
    returns (name: string)
    requires |s.portals| < USIZE
    modifies s
    ensures name !in old(s.portals) && s.portals == old(s.portals)[name := Portal(stmt, parameters, formats, NotStarted)]
  {
    SomeNameFree(s.portals);
    var r := s.CreateNewPortal(stmt, parameters, formats);
    assert r.Ok?;
    name := r.value;
  }
}
