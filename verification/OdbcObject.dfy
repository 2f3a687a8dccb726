/** OdbcObject (src/OdbcObject.cpp): the diagnostic list every handle carries, and the
    `next` links by which parents keep their handles. */
module OdbcObjects {
  import opened Odbc

  class OdbcError {
    const sqlState: string
    const nativeCode: int
    var next: OdbcError?

    constructor (code: int, state: string)
      ensures sqlState == state && nativeCode == code && next == null
    {
      sqlState, nativeCode, next := state, code, null;
    }
  }

  function RecordAfter(queue: seq<OdbcError>, i: nat): OdbcError?
  {
    if i + 1 < |queue| then queue[i + 1] else null
  }

  ghost function Elements<T>(s: seq<T>): set<T> { set x | x in s }

  predicate Distinct<T(==)>(s: seq<T>)
  {
    forall i, j :: 0 <= i < j < |s| ==> s[i] != s[j]
  }

  /** The sequence without the (first) occurrence of an element. */
  function Without<T(==)>(s: seq<T>, x: T): seq<T>
  {
    if s == [] then [] else if s[0] == x then s[1..] else [s[0]] + Without(s[1..], x)
  }

  lemma {:induction false} WithoutNone<T>(s: seq<T>, x: T)
    requires x !in s
    ensures Without(s, x) == s
  {
    if s != [] {
      WithoutNone(s[1..], x);
    }
  }

  lemma {:induction false} WithoutElements<T>(s: seq<T>, x: T)
    requires Distinct(s) && x in s
    ensures forall y :: y in Without(s, x) <==> y in s && y != x
    ensures |Without(s, x)| == |s| - 1
  {
    if s[0] != x {
      WithoutElements(s[1..], x);
    }
  }

  lemma {:induction false} WithoutIsPart<T>(s: seq<T>, x: T)
    ensures Elements(Without(s, x)) <= Elements(s)
  {
    if s != [] {
      assert Elements(s[1..]) <= Elements(s);
      if s[0] != x {
        WithoutIsPart(s[1..], x);
        assert Without(s, x)[1..] == Without(s[1..], x);
      }
    }
  }

  lemma {:induction false} WithoutAppend<T>(a: seq<T>, s: seq<T>, x: T)
    requires x !in a
    ensures Without(a + s, x) == a + Without(s, x)
  {
    if a == [] {
      assert a + s == s;
    } else {
      assert (a + s)[1..] == a[1..] + s;
      WithoutAppend(a[1..], s, x);
    }
  }

  lemma {:induction false} WithoutAt<T>(s: seq<T>, x: T, k: nat)
    requires Distinct(s) && k < |s| && s[k] == x
    ensures Without(s, x) == s[..k] + s[k + 1..]
  {
    if k == 0 {
    } else {
      WithoutAt(s[1..], x, k - 1);
      assert s[..k] == [s[0]] + s[1..][..k - 1];
    }
  }

  lemma CutDistinct<T>(s: seq<T>, k: nat)
    requires Distinct(s) && k < |s|
    ensures Distinct(s[..k] + s[k + 1..])
  {
    var r := s[..k] + s[k + 1..];
    forall i, j | 0 <= i < j < |r| ensures r[i] != r[j] {
      assert r[i] == s[if i < k then i else i + 1] && r[j] == s[if j < k then j else j + 1];
    }
  }

  /** The kinds of handle that hang in a connection's lists. */
  datatype Kind = StatementKind | DescriptorKind

  class OdbcObject {
    const kind: Kind
    const owned: seq<OdbcObject>       // a statement's four descriptors, in the order they were made
    var next: OdbcObject?
    var errors: OdbcError?
    var infoPosted: bool
    ghost var queue: seq<OdbcError>    // the records reachable from `errors`

    constructor (kind: Kind, owned: seq<OdbcObject>)
      ensures this.kind == kind && this.owned == owned && next == null
      ensures ValidQueue() && queue == [] && !infoPosted
    {
      this.kind, this.owned := kind, owned;
      next, errors, infoPosted := null, null, false;
      queue := [];
    }

    // ----- diagnostics -----------------------------------------------------------------

    ghost predicate ValidQueue()
      reads this, queue
    {
      && Distinct(queue)
      && errors == (if queue == [] then null else queue[0])
      && forall i {:trigger queue[i].next} :: 0 <= i < |queue| ==> queue[i].next == RecordAfter(queue, i)
    }

    ghost function Diagnostics(): Queue<OdbcError>
      reads this
    {
      Queue(queue, infoPosted)
    }

    method PostError(error: OdbcError)
      requires ValidQueue() && error !in queue
      modifies this`errors, this`infoPosted, this`queue, queue, error
      ensures ValidQueue() && Diagnostics() == Post(old(Diagnostics()), error)
    {
      infoPosted := true;
      if errors == null {
        errors := error;
      } else {
        var p := errors;
        ghost var i := 0;
        while p.next != null
          invariant 0 <= i < |queue| && p == queue[i]
          decreases |queue| - i
        {
          p := p.next;
          i := i + 1;
        }
        p.next := error;
      }
      error.next := null;
      queue := queue + [error];
    }

    method ClearErrors()
      requires ValidQueue()
      modifies this`errors, this`infoPosted, this`queue
      ensures ValidQueue() && Diagnostics() == Clear()
    {
      while errors != null
        invariant ValidQueue()
        decreases |queue|
      {
        errors := errors.next;
        queue := queue[1..];
      }
      infoPosted := false;
    }

    /** Hands out the oldest record and forgets it; null stands for SQL_NO_DATA_FOUND. */
    method SqlError() returns (error: OdbcError?)
      requires ValidQueue()
      modifies this`errors, this`queue
      ensures ValidQueue()
      ensures error == (if old(queue) == [] then null else old(queue)[0])
      ensures Diagnostics() == Pop(old(Diagnostics()))
    {
      error := errors;
      if error != null {
        errors := error.next;
        queue := queue[1..];
      }
    }

    /** Record `recNumber`, counted from 1; null stands for SQL_NO_DATA_FOUND. */
    method SqlGetDiagRec(recNumber: int) returns (error: OdbcError?)
      requires ValidQueue()
      ensures error == if 1 <= recNumber <= |queue| then queue[recNumber - 1] else null
    {
      var n := 1;
      error := errors;
      while error != null
        invariant 1 <= n <= |queue| + 1
        invariant error == if n <= |queue| then queue[n - 1] else null
        invariant !(1 <= recNumber < n)
        decreases |queue| + 1 - n
      {
        if n == recNumber {
          return;
        }
        error := error.next;
        n := n + 1;
      }
    }
  }

  // ----- the life of the diagnostic list ---------------------------------------------

  datatype Queue<E> = Queue(records: seq<E>, infoPosted: bool)

  function Post<E>(q: Queue<E>, e: E): Queue<E> { Queue(q.records + [e], true) }

  function Clear<E>(): Queue<E> { Queue([], false) }

  function Pop<E>(q: Queue<E>): Queue<E> { Queue(if q.records == [] then [] else q.records[1..], q.infoPosted) }

  datatype DiagOp<E> = Posting(e: E) | Clearing | Popping

  function QueueAfter<E>(ops: Run<DiagOp<E>>): Queue<E>
  {
    match ops
    case Start => Clear()
    case Then(earlier, Posting(e)) => Post(QueueAfter(earlier), e)
    case Then(earlier, Clearing) => Clear()
    case Then(earlier, Popping) => Pop(QueueAfter(earlier))
  }

  /** Everything posted since the diagnostics were last cleared. */
  function PostedSinceClear<E>(ops: Run<DiagOp<E>>): seq<E>
  {
    match ops
    case Start => []
    case Then(earlier, Posting(e)) => PostedSinceClear(earlier) + [e]
    case Then(earlier, Clearing) => []
    case Then(earlier, Popping) => PostedSinceClear(earlier)
  }

  function PopsSinceClear<E>(ops: Run<DiagOp<E>>): nat
  {
    match ops
    case Start => 0
    case Then(earlier, Posting(_)) => PopsSinceClear(earlier)
    case Then(earlier, Clearing) => 0
    case Then(earlier, Popping) => Min(PopsSinceClear(earlier) + 1, |PostedSinceClear(earlier)|)
  }

  /** In every run the list is what was posted since the last clear, in posting
      order, less the oldest records popped; and a success is downgraded exactly
      when something was posted since the last clear - popped or not. */
  lemma {:induction false} QueueHistory<E>(ops: Run<DiagOp<E>>, exit: RetCode)
    requires exit != SqlSuccessWithInfo
    ensures var q := QueueAfter(ops); var posted := PostedSinceClear(ops);
      && PopsSinceClear(ops) <= |posted|
      && q.records == posted[PopsSinceClear(ops)..]
      && (q.infoPosted <==> posted != [])
      && (q.records != [] ==> q.infoPosted)
      && (Outcome(q.infoPosted, exit) != exit <==> posted != [])
  {
    if ops.Then? {
      QueueHistory(ops.earlier, exit);
    }
  }

  // ----- chains of handles -----------------------------------------------------------

  function HandleAfter(list: seq<OdbcObject>, i: nat): OdbcObject?
  {
    if i + 1 < |list| then list[i + 1] else null
  }

  ghost predicate Chain(head: OdbcObject?, list: seq<OdbcObject>)
    reads list
  {
    && Distinct(list)
    && head == (if list == [] then null else list[0])
    && forall i {:trigger list[i].next} :: 0 <= i < |list| ==> list[i].next == HandleAfter(list, i)
  }

  /** The search loop of `statementDeleted` and `descriptorDeleted`: takes `x`
      out of a list, leaving a list without `x` unchanged. */
  method Unlink(head: OdbcObject?, x: OdbcObject, ghost list: seq<OdbcObject>) returns (head': OdbcObject?)
    requires Chain(head, list)
    modifies Elements(list)`next
    ensures Chain(head', Without(list, x))
    ensures x.next == old(x.next)
  {
    head' := head;
    if head == null {
      WithoutNone(list, x);
      return;
    }
    if head == x {
      head' := x.next;
      WithoutAt(list, x, 0);
      ghost var rest := Without(list, x);
      assert rest == list[1..];
      forall j | 0 <= j < |rest| ensures rest[j].next == HandleAfter(rest, j) {
        assert rest[j] == list[j + 1] && list[j + 1].next == HandleAfter(list, j + 1);
      }
      return;
    }
    var p := head;
    ghost var i := 0;
    while p.next != null
      invariant 0 <= i < |list| && p == list[i]
      invariant forall j :: 0 <= j <= i ==> list[j] != x
      invariant Chain(head, list) && x.next == old(x.next)
      decreases |list| - i
    {
      if p.next == x {
        assert x == list[i + 1] && x.next == HandleAfter(list, i + 1);
        p.next := x.next;
        WithoutAt(list, x, i + 1);
        ghost var rest := Without(list, x);
        forall j | 0 <= j < |rest| ensures rest[j].next == HandleAfter(rest, j) {
          if j <= i {
            assert rest[j] == list[j];
          } else {
            assert rest[j] == list[j + 1] && list[j + 1].next == HandleAfter(list, j + 1);
          }
        }
        return;
      }
      p := p.next;
      i := i + 1;
    }
    WithoutNone(list, x);
  }
}
