/** The session test double of app/__dev__/class_inheritance_testing.py:
    a stand-in for a database session that records one pending transaction
    per `query` call, forgets them all on `commit`, and reports through
    `in_transaction` whether any are pending. Its query objects answer
    `order_by(x).all()` with `x` itself and `delete()` with `None`.

    Python objects have identity; a `QueryMock` carries a handle for it, and
    the session hands out a fresh handle per `query` call. */
module SessionMocks {

  /** A `QueryMock` object; `handle` stands for its identity. */
  datatype QueryMock = QueryMock(handle: nat)

  /** An `OrderByMock` object holding the result it was built with. */
  datatype OrderByMock<T> = OrderByMock(queryResult: seq<T>) {
    /** `all()`: the stored result. */
    function All(): seq<T> {
      queryResult
    }
  }

  /** `query_mock.order_by(query_result)`: wraps the given result. */
  function OrderBy<T>(q: QueryMock, queryResult: seq<T>): (o: OrderByMock<T>)
    ensures o.All() == queryResult
  {
    OrderByMock(queryResult)
  }

  /** `order_by(x).all()` hands back `x` unchanged, from any query object. */
  lemma OrderByAllIsIdentity<T>(q: QueryMock, x: seq<T>)
    ensures OrderBy(q, x).All() == x
  {
  }

  /** A `SessionMock` object: its pending transactions, oldest first, and
      the next unused object handle. */
  datatype SessionMock = SessionMock(transactions: seq<QueryMock>, nextHandle: nat)

  /** The pending query objects are distinct objects, all handed out
      before. */
  predicate Valid(s: SessionMock) {
    && (forall i :: 0 <= i < |s.transactions| ==> s.transactions[i].handle < s.nextHandle)
    && (forall i, j :: 0 <= i < j < |s.transactions| ==> s.transactions[i] != s.transactions[j])
  }

  /** `SessionMock()`: no pending transactions. */
  function NewSession(): (s: SessionMock)
    ensures Valid(s)
    ensures |s.transactions| == 0
  {
    SessionMock([], 0)
  }

  /** `in_transaction()`: whether the transaction list is non-empty (Python
      list truthiness). */
  function InTransaction(s: SessionMock): (b: bool)
    ensures b <==> |s.transactions| > 0
  {
    s.transactions != []
  }

  /** `commit()`: clears the transaction list. */
  function Commit(s: SessionMock): (s': SessionMock)
    ensures |s'.transactions| == 0 && !InTransaction(s')
    ensures s'.nextHandle == s.nextHandle
    ensures Valid(s')
  {
    s.(transactions := [])
  }

  /** `query(db_table)`: creates a new `QueryMock`, appends it to the
      transaction list and returns that same object; the table is
      ignored. */
  function Query(s: SessionMock, dbTable: string): (res: (SessionMock, QueryMock))
    ensures res.0.transactions == s.transactions + [res.1]
    ensures Valid(s) ==> Valid(res.0) && res.1 !in s.transactions
  {
    var q := QueryMock(s.nextHandle);
    (SessionMock(s.transactions + [q], s.nextHandle + 1), q)
  }

  /** `delete()`, which the session inherits from `QueryMock`: returns `None`
      and changes nothing. */
  function Delete(s: SessionMock): (res: (SessionMock, ()))
    ensures res.0 == s
  {
    (s, ())
  }

  /** The docstring's call chain `session.query(table).order_by(x).all()`
      returns `x` and leaves exactly one more pending transaction. */
  lemma QueryOrderByAll<T>(s: SessionMock, table: string, x: seq<T>)
    ensures var (s', q) := Query(s, table);
      OrderBy(q, x).All() == x && |s'.transactions| == |s.transactions| + 1 && InTransaction(s')
  {
  }

  // ---------------------------------------------------------------------
  // Sequences of calls on one session
  // ---------------------------------------------------------------------

  /** A method call on the session. */
  datatype Call = QueryCall(dbTable: string) | CommitCall | InTransactionCall | DeleteCall

  /** What a call returns: `None`, a `bool`, or a query object. */
  datatype Reply = NoneReply | BoolReply(b: bool) | QueryReply(q: QueryMock)

  /** One call: the session afterwards and the call's return value. */
  function Step(s: SessionMock, c: Call): (SessionMock, Reply) {
    match c
    case QueryCall(t) => var (s', q) := Query(s, t); (s', QueryReply(q))
    case CommitCall => (Commit(s), NoneReply)
    case InTransactionCall => (s, BoolReply(InTransaction(s)))
    case DeleteCall => (Delete(s).0, NoneReply)
  }

  /** The session after a sequence of calls, made in order. */
  function Run(s: SessionMock, calls: seq<Call>): SessionMock
    decreases |calls|
  {
    if |calls| == 0 then s else Run(Step(s, calls[0]).0, calls[1..])
  }

  /** The number of `query` calls in a sequence of calls. */
  function CountQueries(calls: seq<Call>): nat {
    if |calls| == 0 then 0
    else (if calls[0].QueryCall? then 1 else 0) + CountQueries(calls[1..])
  }

  /** The query objects returned by the `query` calls of a run, in the
      order they were returned. */
  function Issued(s: SessionMock, calls: seq<Call>): seq<QueryMock>
    decreases |calls|
  {
    if |calls| == 0 then []
    else
      var (s', reply) := Step(s, calls[0]);
      (if reply.QueryReply? then [reply.q] else []) + Issued(s', calls[1..])
  }

  /** `in_transaction()` reports exactly whether anything is pending, and
      asking changes nothing; `delete()` returns `None` and changes
      nothing. */
  lemma ObserversChangeNothing(s: SessionMock)
    ensures Step(s, InTransactionCall) == (s, BoolReply(|s.transactions| > 0))
    ensures Step(s, DeleteCall) == (s, NoneReply)
  {
  }

  /** Every call keeps the pending query objects distinct and fresh, and a
      `query` call returns the object it appended. */
  lemma StepKeepsValid(s: SessionMock, c: Call)
    requires Valid(s)
    ensures Valid(Step(s, c).0)
    ensures c.QueryCall? ==>
      var (s', reply) := Step(s, c);
      reply.QueryReply? && s'.transactions == s.transactions + [reply.q] && reply.q !in s.transactions
  {
  }

  /** Over any sequence of calls, the pending query objects stay distinct
      objects that were handed out by the session. */
  lemma {:induction false} RunKeepsValid(s: SessionMock, calls: seq<Call>)
    requires Valid(s)
    ensures Valid(Run(s, calls))
    decreases |calls|
  {
    if |calls| > 0 {
      StepKeepsValid(s, calls[0]);
      RunKeepsValid(Step(s, calls[0]).0, calls[1..]);
    }
  }

  /** A run of calls is the run of a prefix continued with the rest. */
  lemma {:induction false} RunAppend(s: SessionMock, a: seq<Call>, b: seq<Call>)
    ensures Run(s, a + b) == Run(Run(s, a), b)
    decreases |a|
  {
    if |a| > 0 {
      assert (a + b)[1..] == a[1..] + b;
      RunAppend(Step(s, a[0]).0, a[1..], b);
    } else {
      assert a + b == b;
    }
  }

  /** Without a `commit`, every `query` appends the object it returns to
      the pending transactions and nothing removes any. */
  lemma {:induction false} RunWithoutCommit(s: SessionMock, calls: seq<Call>)
    requires forall k :: 0 <= k < |calls| ==> !calls[k].CommitCall?
    ensures Run(s, calls).transactions == s.transactions + Issued(s, calls)
    ensures |Run(s, calls).transactions| == |s.transactions| + CountQueries(calls)
    decreases |calls|
  {
    if |calls| > 0 {
      var (s', reply) := Step(s, calls[0]);
      var mine := if reply.QueryReply? then [reply.q] else [];
      assert s'.transactions == s.transactions + mine;
      RunWithoutCommit(s', calls[1..]);
      assert s.transactions + mine + Issued(s', calls[1..])
        == s.transactions + (mine + Issued(s', calls[1..]));
    }
  }

  /** After a `commit`, the pending transactions are exactly the objects
      returned by the `query` calls made since the last `commit`, in order,
      whatever came before it; so `in_transaction()` is true iff some
      `query` followed the last `commit`. */
  lemma PendingSinceLastCommit(s: SessionMock, calls: seq<Call>, j: nat)
    requires j < |calls| && calls[j].CommitCall?
    requires forall k :: j < k < |calls| ==> !calls[k].CommitCall?
    ensures Run(s, calls).transactions == Issued(Run(s, calls[..j + 1]), calls[j + 1..])
    ensures |Run(s, calls).transactions| == CountQueries(calls[j + 1..])
    ensures InTransaction(Run(s, calls)) <==> CountQueries(calls[j + 1..]) > 0
  {
    assert calls == calls[..j] + [calls[j]] + calls[j + 1..];
    assert calls[..j] + [calls[j]] == calls[..j + 1];
    RunAppend(s, calls[..j] + [calls[j]], calls[j + 1..]);
    RunAppend(s, calls[..j], [calls[j]]);
    var committed := Run(s, calls[..j] + [calls[j]]);
    assert committed.transactions == [];
    RunWithoutCommit(committed, calls[j + 1..]);
  }

  /** A fresh session has nothing pending, and a `commit` as the last call
      always leaves nothing pending. */
  lemma CommitEndsTransaction(calls: seq<Call>)
    ensures !InTransaction(NewSession())
    ensures !InTransaction(Run(NewSession(), calls + [CommitCall]))
  {
    RunAppend(NewSession(), calls, [CommitCall]);
  }
}
