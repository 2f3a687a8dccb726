/** OdbcConnection and OdbcEnv: ownership of handles, and the pending transaction. */
module OdbcConnections {
  import opened Odbc
  import opened OdbcObjects
  import opened Transactions
  import CS = ConnectString

  datatype Operation = Commit | Rollback

  /** The descriptors of a list of statements, as the descriptor list holds them:
      each statement's four, last made first. */
  function OwnedBy(stmts: seq<OdbcObject>): seq<OdbcObject>
    requires forall s :: s in stmts ==> |s.owned| == 4
  {
    if stmts == [] then [] else Four(stmts[0]) + OwnedBy(stmts[1..])
  }

  function Four(s: OdbcObject): seq<OdbcObject>
    requires |s.owned| == 4
  {
    [s.owned[3], s.owned[2], s.owned[1], s.owned[0]]
  }

  /** The descriptor list after a statement's destructor has deleted its own, last made first. */
  function WithoutFour(descs: seq<OdbcObject>, s: OdbcObject): seq<OdbcObject>
    requires |s.owned| == 4
  {
    Without(Without(Without(Without(descs, s.owned[3]), s.owned[2]), s.owned[1]), s.owned[0])
  }

  lemma {:induction false} OwnedIn(stmts: seq<OdbcObject>, s: OdbcObject, i: nat)
    requires (forall t :: t in stmts ==> |t.owned| == 4) && s in stmts && i < 4
    ensures s.owned[i] in OwnedBy(stmts)
  {
    if stmts[0] == s {
      assert Four(s)[3 - i] == s.owned[i];
    } else {
      OwnedIn(stmts[1..], s, i);
    }
  }

  lemma {:induction false} OwnedAreDistinct(stmts: seq<OdbcObject>, s: OdbcObject)
    requires (forall t :: t in stmts ==> |t.owned| == 4) && s in stmts
    requires Distinct(OwnedBy(stmts))
    ensures forall i :: 0 <= i < 4 ==> s.owned[i] in OwnedBy(stmts)
    ensures forall i, j :: 0 <= i < j < 4 ==> s.owned[i] != s.owned[j]
  {
    var descs := OwnedBy(stmts);
    assert descs[4..] == OwnedBy(stmts[1..]) && descs[..4] == Four(stmts[0]);
    if stmts[0] == s {
      assert forall i :: 0 <= i < 4 ==> descs[3 - i] == Four(s)[3 - i] == s.owned[i];
    } else {
      forall i, j | 0 <= i < j < |OwnedBy(stmts[1..])| ensures OwnedBy(stmts[1..])[i] != OwnedBy(stmts[1..])[j] {
        assert descs[4 + i] != descs[4 + j];
      }
      OwnedAreDistinct(stmts[1..], s);
    }
    forall i | 0 <= i < 4 ensures s.owned[i] in descs {
      OwnedIn(stmts, s, i);
    }
  }

  /** Deleting a statement's four descriptors leaves those of the other statements. */
  lemma {:induction false} DeletingOwned(stmts: seq<OdbcObject>, s: OdbcObject)
    requires (forall t :: t in stmts ==> |t.owned| == 4) && s in stmts
    requires Distinct(OwnedBy(stmts))
    ensures forall t :: t in Without(stmts, s) ==> |t.owned| == 4
    ensures WithoutFour(OwnedBy(stmts), s) == OwnedBy(Without(stmts, s))
  {
    var rest := stmts[1..];
    var descs := OwnedBy(stmts);
    assert descs[4..] == OwnedBy(rest) && descs[..4] == Four(stmts[0]);
    if stmts[0] == s {
      assert Without(descs, s.owned[3]) == descs[1..];
      assert Without(descs[1..], s.owned[2]) == descs[1..][1..] == descs[2..];
      assert Without(descs[2..], s.owned[1]) == descs[2..][1..] == descs[3..];
      assert Without(descs[3..], s.owned[0]) == descs[3..][1..] == descs[4..];
    } else {
      forall i | 0 <= i < 4 ensures s.owned[i] !in Four(stmts[0]) {
        OwnedIn(rest, s, i);
        var k :| 0 <= k < |OwnedBy(rest)| && OwnedBy(rest)[k] == s.owned[i];
        assert descs[4 + k] == s.owned[i];
        assert forall j :: 0 <= j < 4 ==> descs[j] == Four(stmts[0])[j];
      }
      forall i, j | 0 <= i < j < |OwnedBy(rest)| ensures OwnedBy(rest)[i] != OwnedBy(rest)[j] {
        assert descs[4 + i] != descs[4 + j];
      }
      DeletingOwned(rest, s);
      PeelFour(Four(stmts[0]), OwnedBy(rest), s);
      assert Without(stmts, s)[1..] == Without(rest, s);
    }
  }

  /** Four descriptors for each statement, each of them owned by exactly one. */
  lemma {:induction false} EachOwnedOnce(stmts: seq<OdbcObject>)
    requires (forall s :: s in stmts ==> |s.owned| == 4) && Distinct(OwnedBy(stmts))
    ensures |OwnedBy(stmts)| == 4 * |stmts|
    ensures forall d :: d in OwnedBy(stmts) <==> exists s :: s in stmts && d in s.owned
    ensures forall i, j :: 0 <= i < j < |stmts| ==> Elements(stmts[i].owned) !! Elements(stmts[j].owned)
  {
    if stmts != [] {
      var first, rest := stmts[0], stmts[1..];
      var descs := OwnedBy(stmts);
      assert descs[4..] == OwnedBy(rest) && descs[..4] == Four(first);
      forall i, j | 0 <= i < j < |OwnedBy(rest)| ensures OwnedBy(rest)[i] != OwnedBy(rest)[j] {
        assert descs[4 + i] != descs[4 + j];
      }
      EachOwnedOnce(rest);
      assert forall d :: d in first.owned <==> d in Four(first);
      forall d | d in first.owned ensures d !in OwnedBy(rest) {
        var i :| 0 <= i < 4 && Four(first)[i] == d;
        assert descs[i] == d;
        assert forall k :: 0 <= k < |OwnedBy(rest)| ==> descs[4 + k] == OwnedBy(rest)[k];
      }
      forall j | 0 < j < |stmts| ensures Elements(first.owned) !! Elements(stmts[j].owned) {
        assert stmts[j] == rest[j - 1];
        forall d | d in stmts[j].owned ensures d in OwnedBy(rest) {}
      }
      forall i, j | 0 <= i < j < |stmts| ensures Elements(stmts[i].owned) !! Elements(stmts[j].owned) {
        if i > 0 {
          assert stmts[i] == rest[i - 1] && stmts[j] == rest[j - 1];
        }
      }
    }
  }

  lemma PeelFour(a: seq<OdbcObject>, descs: seq<OdbcObject>, s: OdbcObject)
    requires |s.owned| == 4 && forall i :: 0 <= i < 4 ==> s.owned[i] !in a
    ensures WithoutFour(a + descs, s) == a + WithoutFour(descs, s)
  {
    WithoutAppend(a, descs, s.owned[3]);
    var d3 := Without(descs, s.owned[3]);
    WithoutAppend(a, d3, s.owned[2]);
    var d2 := Without(d3, s.owned[2]);
    WithoutAppend(a, d2, s.owned[1]);
    var d1 := Without(d2, s.owned[1]);
    WithoutAppend(a, d1, s.owned[0]);
  }

  lemma DeletedAreFewer(descs: seq<OdbcObject>, s: OdbcObject)
    requires |s.owned| == 4
    ensures Elements(WithoutFour(descs, s)) <= Elements(descs)
  {
    var d3 := Without(descs, s.owned[3]);
    var d2 := Without(d3, s.owned[2]);
    WithoutIsPart(descs, s.owned[3]);
    WithoutIsPart(d3, s.owned[2]);
    WithoutIsPart(d2, s.owned[1]);
    WithoutIsPart(Without(d2, s.owned[1]), s.owned[0]);
  }

  class OdbcConnection {
    var env: OdbcEnv?
    var next: OdbcConnection?
    var statements: OdbcObject?
    var descriptors: OdbcObject?
    var connected: bool                  // `connected`, and `connection` not null
    var transactionPending: bool
    var autoCommit: bool
    var serverAutoCommit: bool           // what the server connection has
    var transactionIsolation: int
    var attributes: CS.Attributes        // `dsn` to `driver`, and the complaints posted
    ghost var stmts: seq<OdbcObject>     // what `statements` leads to
    ghost var descs: seq<OdbcObject>     // what `descriptors` leads to
    ghost var live: set<OdbcObject>      // the handles made here and not deleted

    constructor (parent: OdbcEnv, driverName: string)
      ensures attributes == CS.Attributes("", "", "", "", "", driverName, 0)
      ensures Valid() && stmts == [] && live == {} && env == parent && next == null
      ensures TranState() == Fresh
    {
      env, next := parent, null;
      statements, descriptors := null, null;
      connected, transactionPending, autoCommit, serverAutoCommit, transactionIsolation := false, false, true, true, 0;
      attributes := CS.Attributes("", "", "", "", "", driverName, 0);
      stmts, descs, live := [], [], {};
    }

    function TranState(): Tran
      reads this`connected, this`transactionPending, this`autoCommit, this`serverAutoCommit
    {
      Tran(connected, transactionPending, autoCommit, serverAutoCommit)
    }

    // ----- connection strings ------------------------------------------------------------

    /** The attribute loop of `sqlDriverConnect` and `sqlBrowseConnect`. */
    method ParseAttributes(s: string)
      requires CS.FitsBuffers(s)
      modifies this`attributes
      ensures attributes == CS.Parse(old(attributes), s)
    {
      var p := 0;
      while p < |s|
        invariant p <= |s|
        invariant CS.FitsBuffers(s[p..]) && CS.Parse(attributes, s[p..]) == CS.Parse(old(attributes), s)
        decreases |s| - p
      {
        var name, value;
        p, name, value := CS.ReadAttribute(s, p);
        attributes := CS.Assign(attributes, name, value);
      }
    }

    // ----- handles -----------------------------------------------------------------------

    /** The two lists, whoever owns what. */
    ghost predicate Lists()
      reads this, stmts, descs
    {
      && Chain(statements, stmts)
      && Chain(descriptors, descs)
      && (forall s :: s in stmts ==> s.kind == StatementKind && |s.owned| == 4)
      && (forall d :: d in descs ==> d.kind == DescriptorKind)
    }

    /** The lists hold exactly the live handles. */
    ghost predicate Accounted()
      reads this
    {
      live == Elements(stmts) + Elements(descs)
    }

    /** Moreover the descriptors are the four of each statement, each owned by exactly one. */
    ghost predicate Valid()
      reads this, stmts, descs
    {
      Lists() && Accounted() && descs == OwnedBy(stmts)
    }

    /** A new descriptor at the front of the list. */
    method AllocDescriptor() returns (d: OdbcObject)
      requires Lists() && Accounted()
      modifies this`descriptors, this`descs, this`live
      ensures Lists() && Accounted() && fresh(d)
      ensures descs == [d] + old(descs) && live == old(live) + {d}
    {
      d := new OdbcObject(DescriptorKind, []);
      d.next := descriptors;
      descriptors := d;
      descs, live := [d] + descs, live + {d};
    }

    method AllocTwo() returns (first: OdbcObject, second: OdbcObject)
      requires Lists() && Accounted()
      modifies this`descriptors, this`descs, this`live
      ensures Lists() && Accounted() && fresh(first) && fresh(second)
      ensures descs == [second, first] + old(descs)
      ensures live == old(live) + {first, second}
    {
      first := AllocDescriptor();
      second := AllocDescriptor();
    }

    /** The descriptors a statement makes for itself. */
    method AllocFour() returns (owned: seq<OdbcObject>)
      requires Lists() && Accounted()
      modifies this`descriptors, this`descs, this`live
      ensures Lists() && Accounted() && |owned| == 4 && fresh(owned)
      ensures descs == [owned[3], owned[2], owned[1], owned[0]] + old(descs)
      ensures live == old(live) + {owned[0], owned[1], owned[2], owned[3]}
    {
      var ard, apd := AllocTwo();
      var ird, ipd := AllocTwo();
      owned := [ard, apd, ird, ipd];
    }

    /** A new statement at the front of the list. */
    method Link(s: OdbcObject)
      requires Lists() && Accounted() && s !in live
      requires s.kind == StatementKind && |s.owned| == 4
      modifies this`statements, this`stmts, this`live, s`next
      ensures Lists() && Accounted()
      ensures stmts == [s] + old(stmts) && live == old(live) + {s}
    {
      s.next := statements;
      statements := s;
      stmts, live := [s] + stmts, live + {s};
    }

    /** `allocHandle` for a statement: its constructor makes the four descriptors
        before the statement is linked. */
    method AllocStatement() returns (s: OdbcObject)
      requires Valid()
      modifies this`statements, this`stmts, this`descriptors, this`descs, this`live
      ensures Valid() && fresh(s) && fresh(s.owned) && |s.owned| == 4
      ensures stmts == [s] + old(stmts) && descs == Four(s) + old(descs)
      ensures live == old(live) + {s, s.owned[0], s.owned[1], s.owned[2], s.owned[3]}
    {
      var owned := AllocFour();
      s := new OdbcObject(StatementKind, owned);
      Link(s);
      assert stmts[1..] == old(stmts);
    }

    // ----- deletion ----------------------------------------------------------------------

    /** `delete` of a descriptor: its destructor takes it out of the list. */
    method DeleteDescriptor(d: OdbcObject)
      requires Lists() && Accounted() && d in descs
      modifies this`descriptors, this`descs, this`live, Elements(descs)`next
      ensures Lists() && Accounted()
      ensures descs == Without(old(descs), d) && live == old(live) - {d}
      ensures forall e :: e in descs <==> e in old(descs) && e != d
    {
      assert forall i :: 0 <= i < |stmts| ==> stmts[i] in stmts && stmts[i] !in descs;
      descriptors := Unlink(descriptors, d, descs);
      assert forall i {:trigger stmts[i].next} :: 0 <= i < |stmts| ==> stmts[i].next == old(stmts[i].next);
      WithoutElements(descs, d);
      descs, live := Without(descs, d), live - {d};
    }

    /** The body of a statement's destructor, as far as the lists go. */
    method UnlinkStatement(s: OdbcObject)
      requires Lists() && Accounted() && s in stmts
      modifies this`statements, this`stmts, this`live, Elements(stmts)`next
      ensures Lists() && Accounted()
      ensures stmts == Without(old(stmts), s) && live == old(live) - {s}
    {
      assert forall i :: 0 <= i < |descs| ==> descs[i] in descs && descs[i] !in stmts;
      statements := Unlink(statements, s, stmts);
      assert forall i {:trigger descs[i].next} :: 0 <= i < |descs| ==> descs[i].next == old(descs[i].next);
      WithoutElements(stmts, s);
      stmts, live := Without(stmts, s), live - {s};
    }

    method DeleteTwo(a: OdbcObject, b: OdbcObject)
      requires Lists() && Accounted() && a in descs && b in descs && a != b
      modifies this`descriptors, this`descs, this`live, Elements(descs)`next
      ensures Lists() && Accounted()
      ensures descs == Without(Without(old(descs), a), b) && live == old(live) - {a, b}
      ensures forall d :: d in descs <==> d in old(descs) && d != a && d != b
    {
      DeleteDescriptor(a);
      DeleteDescriptor(b);
    }

    /** A statement's destructor: it is unlinked, then its four descriptors are
        deleted, last made first. */
    method DeleteStatement(s: OdbcObject)
      requires Valid() && s in stmts
      modifies this`statements, this`stmts, this`descriptors, this`descs, this`live, Elements(stmts)`next, Elements(descs)`next
      ensures Valid() && s !in stmts
      ensures stmts == Without(old(stmts), s) && descs == WithoutFour(old(descs), s)
      ensures live == old(live) - {s, s.owned[0], s.owned[1], s.owned[2], s.owned[3]}
    {
      DeletingOwned(stmts, s);
      OwnedAreDistinct(stmts, s);
      WithoutElements(stmts, s);
      UnlinkStatement(s);
      DeleteTwo(s.owned[3], s.owned[2]);
      DeleteTwo(s.owned[1], s.owned[0]);
    }

    /** The delete loops of `close`: the first ends because each destructor unlinks
        its statement; it leaves no descriptor for the second. */
    method DeleteHandles()
      requires Valid()
      modifies this`statements, this`stmts, this`descriptors, this`descs, this`live
      modifies Elements(stmts)`next, Elements(descs)`next
      ensures Valid() && statements == null && descriptors == null
      ensures stmts == [] && descs == [] && live == {}
    {
      while statements != null
        invariant Valid()
        invariant Elements(stmts) <= old(Elements(stmts)) && Elements(descs) <= old(Elements(descs))
        decreases |stmts|
      {
        WithoutElements(stmts, statements);
        DeletedAreFewer(descs, statements);
        DeleteStatement(statements);
      }
      DeleteDescriptors();
    }

    /** The second loop, whatever is left for it. */
    method DeleteDescriptors()
      requires Lists() && Accounted() && stmts == []
      modifies this`descriptors, this`descs, this`live, Elements(descs)`next
      ensures Lists() && Accounted() && descriptors == null && descs == [] && live == {}
    {
      while descriptors != null
        invariant Lists() && Accounted()
        invariant Elements(descs) <= old(Elements(descs))
        decreases |descs|
      {
        WithoutElements(descs, descriptors);
        DeleteDescriptor(descriptors);
      }
    }

    /** The first lines of `close`: the connection leaves its environment for good. */
    method LeaveEnvironment()
      requires env != null && env.Linked() && env.Reaches()
      modifies this`env, env, Elements(env.linked)`next
      ensures env == null
      ensures old(env).Linked() && old(env).linked == Without(old(env.linked), this)
      ensures old(env).Reaches() && old(env).issued == old(env.issued)
    {
      hide Without;
      ghost var left, was := env, env.linked;
      if this in was {
        WithoutElements(was, this);
      } else {
        WithoutNone(was, this);
      }
      WithoutIsPart(was, this);
      env.ConnectionClosed(this);
      env := null;
      forall c | c in left.issued ensures c in left.linked <==> c.env == left {
        assert c in was <==> old(c.env) == left;
      }
    }

    /** `close`: leaves the environment, deletes every handle, drops the server connection. */
    method Close()
      requires Valid() && (env != null ==> env.Linked() && env.Reaches())
      modifies this`env, this`statements, this`stmts, this`descriptors, this`descs, this`live, this`connected
      modifies Elements(stmts)`next, Elements(descs)`next
      modifies env, if env == null then {} else Elements(env.linked)`next
      ensures Valid() && statements == null && descriptors == null && stmts == [] && descs == [] && live == {}
      ensures env == null && !connected
      ensures old(env) != null ==>
        && old(env).Linked() && old(env).linked == Without(old(env.linked), this)
        && old(env).Reaches() && old(env).issued == old(env.issued)
    {
      if env != null {
        LeaveEnvironment();
      }
      DeleteHandles();
      connected := false;
    }

    // ----- transactions ------------------------------------------------------------------

    /** `connect`: the outcome of opening the database, and the auto-commit it comes with,
        are the server's; the driver passes on the isolation level only. */
    method Connect(serverOk: bool, auto: bool) returns (code: RetCode)
      modifies this`connected, this`serverAutoCommit
      ensures (TranState(), code) == TranStep(old(TranState()), Connecting(serverOk, auto))
    {
      if connected || !serverOk {
        return SqlError;
      }
      connected, serverAutoCommit := true, auto;
      code := SqlSuccess;
    }

    method TransactionStarted()
      modifies this`transactionPending
      ensures TranState() == TranStep(old(TranState()), Executed).0
    {
      if !autoCommit {
        transactionPending := true;
      }
    }

    /** `serverOk`: the server's answer to the commit or rollback. */
    method SqlEndTran(operation: Operation, serverOk: bool) returns (code: RetCode)
      modifies this`transactionPending
      ensures (TranState(), code) == TranStep(old(TranState()), Ending(serverOk))
    {
      if connected {
        if !serverOk {
          return SqlError;
        }
        transactionPending := false;
      }
      code := SqlSuccess;
    }

    method SetAutoCommit(on: bool, serverOk: bool) returns (code: RetCode)
      modifies this`autoCommit, this`serverAutoCommit
      ensures (TranState(), code) == TranStep(old(TranState()), SettingAutoCommit(on, serverOk))
    {
      autoCommit := on;
      if connected {
        if !serverOk {
          return SqlError;
        }
        serverAutoCommit := autoCommit;
      }
      code := SqlSuccess;
    }

    method SetIsolation(level: int, serverOk: bool) returns (code: RetCode)
      modifies this`transactionIsolation
      ensures code == TranStep(old(TranState()), SettingIsolation(serverOk)).1
      ensures transactionIsolation == if transactionPending then old(transactionIsolation) else level
    {
      if transactionPending {
        return SqlError;
      }
      transactionIsolation := level;
      code := if connected && !serverOk then SqlError else SqlSuccess;
    }

    /** Refused while a transaction is pending; otherwise commits and closes.  A
        failed commit drops the server connection but leaves the handles alone. */
    method SqlDisconnect(serverOk: bool) returns (code: RetCode)
      requires Valid() && (env != null ==> env.Linked() && env.Reaches())
      modifies this`env, this`statements, this`stmts, this`descriptors, this`descs, this`live, this`connected
      modifies Elements(stmts)`next, Elements(descs)`next
      modifies env, if env == null then {} else Elements(env.linked)`next
      ensures Valid()
      ensures (TranState(), code) == TranStep(old(TranState()), Disconnecting(serverOk))
      ensures if old(connected) && code == SqlSuccess then stmts == [] && descs == [] && live == {} && env == null
              else stmts == old(stmts) && descs == old(descs) && live == old(live) && env == old(env)
      ensures old(env) != null ==>
        && old(env).Linked() && old(env).Reaches() && old(env).issued == old(env.issued)
        && old(env).linked == if env == null then Without(old(env.linked), this) else old(env.linked)
    {
      if transactionPending {
        return SqlError;
      }
      if connected {
        if !serverOk {
          connected := false;
          return SqlSuccessWithInfo;
        }
        Close();
      }
      code := SqlSuccess;
    }
  }

  /** What `connection` leads to along `next`. */
  function ConnectionAfter(list: seq<OdbcConnection>, i: nat): OdbcConnection?
  {
    if i + 1 < |list| then list[i + 1] else null
  }

  class OdbcEnv {
    var connections: OdbcConnection?
    ghost var linked: seq<OdbcConnection>
    ghost var issued: set<OdbcConnection>   // every connection made by `AllocConnection`

    constructor ()
      ensures Linked() && Reaches() && linked == [] && issued == {}
    {
      connections, linked, issued := null, [], {};
    }

    /** The list holds exactly the issued connections that have not been closed since:
        `close` forgets the environment for good. */
    ghost predicate Reaches()
      reads this, issued`env
    {
      && Elements(linked) <= issued
      && forall c :: c in issued ==> (c in linked <==> c.env == this)
    }

    ghost predicate Linked()
      reads this, Elements(linked)`next
    {
      && Distinct(linked)
      && connections == (if linked == [] then null else linked[0])
      && forall i {:trigger linked[i].next} :: 0 <= i < |linked| ==> linked[i].next == ConnectionAfter(linked, i)
    }

    /** `allocHandle` for a connection. */
    method AllocConnection(driverName: string) returns (c: OdbcConnection)
      requires Linked() && Reaches()
      modifies this
      ensures Linked() && Reaches() && fresh(c) && c.Valid() && c.env == this
      ensures linked == [c] + old(linked) && issued == old(issued) + {c}
    {
      c := new OdbcConnection(this, driverName);
      c.next := connections;
      connections := c;
      linked, issued := [c] + linked, issued + {c};
    }

    /** Takes out the connection behind the one at `i`. */
    method CutAfter(ghost i: nat, x: OdbcConnection, p: OdbcConnection)
      requires Linked() && i + 1 < |linked| && linked[i] == p && linked[i + 1] == x
      modifies this`linked, p`next
      ensures Linked() && linked == Without(old(linked), x)
    {
      hide Without;
      assert x.next == ConnectionAfter(linked, i + 1);
      p.next := x.next;
      WithoutAt(linked, x, i + 1);
      CutDistinct(linked, i + 1);
      ghost var rest := linked[..i + 1] + linked[i + 2..];
      forall j | 0 <= j < |rest| ensures rest[j].next == ConnectionAfter(rest, j) {
        if j <= i {
          assert rest[j] == linked[j];
        } else {
          assert rest[j] == linked[j + 1] && linked[j + 1].next == ConnectionAfter(linked, j + 1);
        }
      }
      linked := rest;
    }

    method ConnectionClosed(x: OdbcConnection)
      requires Linked()
      modifies this`connections, this`linked, Elements(linked)`next
      ensures Linked() && linked == Without(old(linked), x)
    {
      hide Without;
      if connections == null {
        WithoutNone(linked, x);
        return;
      }
      if connections == x {
        WithoutAt(linked, x, 0);
        CutDistinct(linked, 0);
        assert linked[..0] + linked[1..] == linked[1..];
        ghost var rest := linked[1..];
        forall j | 0 <= j < |rest| ensures rest[j].next == ConnectionAfter(rest, j) {
          assert rest[j] == linked[j + 1] && linked[j + 1].next == ConnectionAfter(linked, j + 1);
        }
        connections, linked := x.next, rest;
        return;
      }
      var p: OdbcConnection := connections;
      ghost var i := 0;
      while p.next != null
        invariant 0 <= i < |linked| && p == linked[i]
        invariant forall j :: 0 <= j <= i ==> linked[j] != x
        invariant Linked() && linked == old(linked)
        decreases |linked| - i
      {
        if p.next == x {
          CutAfter(i, x, p);
          return;
        }
        p := p.next;
        i := i + 1;
      }
      WithoutNone(linked, x);
    }

    /** Ends the transactions of all linked connections, going on after a failure;
        `answers` is what each server says.  These are exactly the issued connections
        that have not been closed: one that was disconnected and connected again keeps
        its pending transaction, and success says nothing about it. */
    method SqlEndTran(operation: Operation, answers: OdbcConnection -> bool) returns (code: RetCode)
      requires Linked() && Reaches()
      modifies Elements(linked)`transactionPending
      ensures Linked() && Reaches() && linked == old(linked)
      ensures code == SqlSuccess <==> forall c :: c in issued && c.env == this && c.connected ==> answers(c)
      ensures forall c :: c in issued && c.env == this ==> c.TranState() == TranStep(old(c.TranState()), Ending(answers(c))).0
      ensures forall c :: c in issued && c.env != this ==> c.TranState() == old(c.TranState())
      ensures code == SqlSuccess ==>
        forall c :: c in issued && c.connected && c.transactionPending ==> c.env != this && old(c.transactionPending)
    {
      code := SqlSuccess;
      var connection := connections;
      ghost var i := 0;
      while connection != null
        invariant 0 <= i <= |linked| && connection == (if i < |linked| then linked[i] else null)
        invariant Linked()
        invariant code == SqlSuccess <==> forall j :: 0 <= j < i && linked[j].connected ==> answers(linked[j])
        invariant forall j :: 0 <= j < i ==>
          linked[j].transactionPending == TranStep(old(linked[j].TranState()), Ending(answers(linked[j]))).0.pending
        invariant forall j :: i <= j < |linked| ==> linked[j].transactionPending == old(linked[j].transactionPending)
        decreases |linked| - i
      {
        var retcode := connection.SqlEndTran(operation, answers(connection));
        if retcode != SqlSuccess {
          code := retcode;
        }
        connection := connection.next;
        i := i + 1;
      }
    }
  }
}
