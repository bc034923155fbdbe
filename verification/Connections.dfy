/**
  The daemon's list of client connections: nodes linked both ways from a sentinel.
 */
module Connections {
  import opened Words

  class Conn {
    var prev: Conn?
    var next: Conn?

    constructor ()
      ensures prev == null && next == null
    {
      prev, next := null, null;
    }
  }

  function Remove<T>(s: seq<T>, k: nat): seq<T>
    requires k < |s|
  {
    s[..k] + s[k + 1..]
  }

  /** The neighbours of position i in a list that starts after `head`. */
  function NextOf(s: seq<Conn>, i: nat): Conn?
    requires i < |s|
  {
    if i == |s| - 1 then null else s[i + 1]
  }

  function PrevOf(head: Conn, s: seq<Conn>, i: nat): Conn
    requires i < |s|
  {
    if i == 0 then head else s[i - 1]
  }

  /** What the neighbours of position j must be once position k is taken out. */
  function NextWithout(s: seq<Conn>, k: nat, j: nat): Conn?
    requires k < |s| && j < |s|
  {
    if j + 1 == k then NextOf(s, k) else NextOf(s, j)
  }

  function PrevWithout(head: Conn, s: seq<Conn>, k: nat, j: nat): Conn
    requires k < |s| && j < |s|
  {
    if j == k + 1 then PrevOf(head, s, k) else PrevOf(head, s, j)
  }

  /** Position i of the shorter list in the longer one. */
  function Before(k: nat, i: nat): nat {
    if i < k then i else i + 1
  }

  lemma RemoveAt<T>(s: seq<T>, k: nat, i: nat)
    requires k < |s| && i < |s| - 1
    ensures |Remove(s, k)| == |s| - 1 && Remove(s, k)[i] == s[Before(k, i)]
  {
  }

  lemma RemoveNeighbours(head: Conn, s: seq<Conn>, k: nat, i: nat)
    requires k < |s| && i < |s| - 1
    ensures |Remove(s, k)| == |s| - 1
    ensures NextOf(Remove(s, k), i) == NextWithout(s, k, Before(k, i))
    ensures PrevOf(head, Remove(s, k), i) == PrevWithout(head, s, k, Before(k, i))
  {
    RemoveAt(s, k, i);
    if i > 0 { RemoveAt(s, k, i - 1); }
    if i < |s| - 2 { RemoveAt(s, k, i + 1); }
    hide Remove;
  }

  lemma RemoveDistinct<T>(s: seq<T>, k: nat)
    requires k < |s| && Distinct(s)
    ensures Distinct(Remove(s, k))
    ensures forall c :: c in Remove(s, k) ==> c in s
  {
    var r := Remove(s, k);
    forall i, j | 0 <= i < j < |r| ensures r[i] != r[j] {
      RemoveAt(s, k, i);
      RemoveAt(s, k, j);
    }
  }

  lemma Others<T>(s: seq<T>, k: nat)
    requires k < |s| && Distinct(s)
    ensures forall j :: 0 <= j < |s| && j != k ==> s[j] != s[k]
  {
  }

  predicate Distinct<T(==)>(s: seq<T>) {
    forall i, j :: 0 <= i < j < |s| ==> s[i] != s[j]
  }

  lemma RemoveFirst<T>(s: seq<T>)
    requires s != []
    ensures Remove(s, 0) == s[1..]
  {
  }

  lemma RemoveLength<T>(s: seq<T>, k: nat)
    requires k < |s|
    ensures |Remove(s, k)| == |s| - 1
  {
  }

  lemma FirstWithout(s: seq<Conn>, k: nat)
    requires k < |s|
    ensures (if Remove(s, k) == [] then null else Remove(s, k)[0]) == if k > 0 then s[0] else NextOf(s, 0)
  {
  }

  class ConnectionList {
    const head: Conn
    /** The live connections, most recently added first. */
    ghost var conns: seq<Conn>
    /** The connections disposed of so far, in order. */
    ghost var disposed: seq<Conn>

    /** The links of the live connections, and of the sentinel. */
    ghost predicate Linked(s: seq<Conn>)
      reads head, s
    {
      && head.next == (if s == [] then null else s[0])
      && (forall i {:trigger s[i].prev} :: 0 <= i < |s| ==> s[i].prev == PrevOf(head, s, i))
      && (forall i {:trigger s[i].next} :: 0 <= i < |s| ==> s[i].next == NextOf(s, i))
    }

    ghost predicate Valid()
      reads this, head, conns
    {
      head !in conns && Distinct(conns) && Linked(conns)
    }

    constructor ()
      ensures Valid() && conns == [] && disposed == [] && fresh(head)
    {
      head := new Conn();
      conns, disposed := [], [];
    }

    /** conn_add */
    method Add(c: Conn)
      requires Valid() && c != head && c !in conns
      modifies this`conns, head, conns, c
      ensures Valid() && conns == [c] + old(conns)
    {
      c.prev := head;
      c.next := head.next;
      if head.next != null {
        head.next.prev := c;
      }
      head.next := c;
      conns := [c] + conns;
    }

    /** The links when everything but position k is linked as it must be without it. */
    lemma Relinked(s: seq<Conn>, k: nat)
      requires k < |s|
      requires head.next == (if k > 0 then s[0] else NextOf(s, 0))
      requires forall j {:trigger s[j].next} :: 0 <= j < |s| && j != k ==> s[j].next == NextWithout(s, k, j)
      requires forall j {:trigger s[j].prev} :: 0 <= j < |s| && j != k ==> s[j].prev == PrevWithout(head, s, k, j)
      ensures Linked(Remove(s, k))
    {
      hide NextWithout, PrevWithout, NextOf, PrevOf, Remove;
      var r := Remove(s, k);
      RemoveLength(s, k);
      forall i | 0 <= i < |r| ensures r[i].prev == PrevOf(head, r, i) && r[i].next == NextOf(r, i) {
        RemoveAt(s, k, i);
        RemoveNeighbours(head, s, k, i);
      }
      FirstWithout(s, k);
    }

    /** smartid_conn_dispose for a connection that was added: unlinks it. */
    method Dispose(c: Conn, ghost k: nat)
      requires Valid() && k < |conns| && conns[k] == c
      modifies this, head, conns
      ensures Valid() && conns == Remove(old(conns), k) && disposed == old(disposed) + [c]
    {
      hide Remove, Distinct;
      ghost var s := conns;
      Others(s, k);
      if k > 0 { Others(s, k - 1); }
      if k + 1 < |s| { Others(s, k + 1); }
      if c.prev.next == c {
        c.prev.next := c.next;
      }
      if c.next != null {
        if c.next.prev == c {
          c.next.prev := c.prev;
        }
      }
      Relinked(s, k);
      RemoveDistinct(s, k);
      conns := Remove(conns, k);
      disposed := disposed + [c];
    }

    /** smartid_conn_cleanup: every live connection is disposed exactly once, from the head on. */
    method Cleanup()
      requires Valid()
      modifies this, head, conns
      ensures Valid() && conns == [] && head.next == null
      ensures disposed == old(disposed) + old(conns)
    {
      hide Valid, Remove;
      ghost var all, before := conns, disposed;
      ghost var k := 0;
      HeadNext();
      while head.next != null
        invariant Valid() && k <= |all| && conns == all[k..] && disposed == before + all[..k]
        invariant head.next == if conns == [] then null else conns[0]
        decreases |conns|
      {
        assert conns[0] == all[k];
        RemoveFirst(all[k..]);
        Dispose(head.next, 0);
        HeadNext();
        k := k + 1;
      }
    }

    lemma HeadNext()
      requires Valid()
      ensures head.next == if conns == [] then null else conns[0]
    {
    }

    /** Following `next` n times from the sentinel. */
    ghost function Walk(n: nat): Conn?
      requires Valid()
      reads this, head, conns
      ensures Walk(n) == null || Walk(n) == head || Walk(n) in conns
    {
      if n == 0 then head
      else
        var c := Walk(n - 1);
        if c == null then null else c.next
    }

    /** The chain from the sentinel visits the live connections in order, once each, and ends. */
    lemma {:induction false} WalkVisits(n: nat)
      requires Valid()
      ensures Walk(n) == if n == 0 then head else if n <= |conns| then conns[n - 1] else null
    {
      if n > 0 { WalkVisits(n - 1); }
    }

    /** next and prev are inverse to each other along the chain, sentinel included. */
    lemma LinksMutual(c: Conn)
      requires Valid() && (c in conns || c == head)
      ensures c.next != null ==> c.next in conns && c.next.prev == c
      ensures c in conns ==> c.prev != null && (c.prev in conns || c.prev == head) && c.prev.next == c
    {
      if c in conns {
        var i :| 0 <= i < |conns| && conns[i] == c;
        if i > 0 { assert conns[i - 1].next == conns[i]; }
        if i < |conns| - 1 { assert conns[i + 1].prev == conns[i]; }
      } else if conns != [] {
        assert conns[0].prev == head;
      }
    }
  }

  // ---------------------------------------------------------------- histories

  datatype Op = Added(c: Conn) | Disposed(c: Conn)

  /** An operation the daemon can perform when `live` are its connections. */
  predicate Possible(head: Conn, live: seq<Conn>, op: Op) {
    match op
    case Added(c) => c != head && c !in live
    case Disposed(c) => c in live
  }

  function Without(s: seq<Conn>, c: Conn): seq<Conn> {
    if s == [] then [] else if s[0] == c then s[1..] else [s[0]] + Without(s[1..], c)
  }

  function After(live: seq<Conn>, op: Op): seq<Conn> {
    match op
    case Added(c) => [c] + live
    case Disposed(c) => Without(live, c)
  }

  /** The live connections after a history. */
  function Live(live: seq<Conn>, ops: seq<Op>): seq<Conn>
    decreases |ops|
  {
    if ops == [] then live else Live(After(live, ops[0]), ops[1..])
  }

  predicate PossibleAll(head: Conn, live: seq<Conn>, ops: seq<Op>)
    decreases |ops|
  {
    ops == [] || (Possible(head, live, ops[0]) && PossibleAll(head, After(live, ops[0]), ops[1..]))
  }

  lemma {:induction false} WithoutRemoves(s: seq<Conn>, k: nat)
    requires Distinct(s) && k < |s|
    ensures Without(s, s[k]) == Remove(s, k)
  {
    if k > 0 {
      WithoutRemoves(s[1..], k - 1);
      assert s[0] != s[k];
      assert Remove(s, k) == [s[0]] + Remove(s[1..], k - 1);
    } else {
      assert Remove(s, 0) == s[1..];
    }
  }

  /** One operation of a history. */
  method Perform(list: ConnectionList, op: Op)
    requires list.Valid() && Possible(list.head, list.conns, op)
    modifies list, list.head, list.conns, op.c
    ensures list.Valid() && list.conns == After(old(list.conns), op)
    ensures list.disposed == old(list.disposed) + if op.Disposed? then [op.c] else []
  {
    match op {
      case Added(c) => list.Add(c);
      case Disposed(c) =>
        ghost var k: nat :| k < |list.conns| && list.conns[k] == c;
        WithoutRemoves(list.conns, k);
        list.Dispose(c, k);
    }
  }

  lemma AfterWithin(live: seq<Conn>, op: Op, universe: set<Conn>)
    requires (forall c :: c in live ==> c in universe) && op.c in universe
    ensures forall c :: c in After(live, op) ==> c in universe
  {
    if op.Disposed? { WithoutWithin(live, op.c); }
  }

  lemma {:induction false} WithoutWithin(s: seq<Conn>, c: Conn)
    ensures forall d :: d in Without(s, c) ==> d in s
  {
    if s != [] && s[0] != c { WithoutWithin(s[1..], c); }
  }

  /** Connections disposed of in a history, in order. */
  function DisposedIn(ops: seq<Op>): seq<Conn> {
    if ops == [] then [] else (if ops[0].Disposed? then [ops[0].c] else []) + DisposedIn(ops[1..])
  }

  /** Any history of additions and disposals: the links stay consistent and hold exactly the live
      connections, and exactly the disposals asked for have happened. */
  method Serve(list: ConnectionList, ops: seq<Op>, ghost universe: set<Conn>)
    requires list.Valid() && PossibleAll(list.head, list.conns, ops)
    requires (forall c :: c in list.conns ==> c in universe) && list.head in universe
    requires forall op :: op in ops ==> op.c in universe
    modifies list, universe
    ensures list.Valid() && list.conns == Live(old(list.conns), ops)
    ensures list.disposed == old(list.disposed) + DisposedIn(ops)
    decreases |ops|
  {
    if ops != [] {
      AfterWithin(list.conns, ops[0], universe);
      ghost var before := list.disposed;
      Perform(list, ops[0]);
      Serve(list, ops[1..], universe);
      ConcatAssoc(before, if ops[0].Disposed? then [ops[0].c] else [], DisposedIn(ops[1..]));
    }
  }

  function AddedIn(ops: seq<Op>): seq<Conn> {
    if ops == [] then [] else (if ops[0].Added? then [ops[0].c] else []) + AddedIn(ops[1..])
  }

  lemma {:induction false} WithoutTakesOne(s: seq<Conn>, c: Conn)
    requires c in s
    ensures multiset(s) == multiset(Without(s, c)) + multiset{c}
  {
    assert s == [s[0]] + s[1..];
    if s[0] != c { WithoutTakesOne(s[1..], c); }
  }

  /** Conservation over any history: what was live or added is live or disposed, each connection as often
      on one side as on the other. */
  lemma {:induction false} DisposedOnce(head: Conn, live: seq<Conn>, ops: seq<Op>)
    requires PossibleAll(head, live, ops)
    ensures multiset(live) + multiset(AddedIn(ops)) == multiset(DisposedIn(ops)) + multiset(Live(live, ops))
    decreases |ops|
  {
    if ops != [] {
      hide After, Without, Possible;
      var next := After(live, ops[0]);
      DisposedOnce(head, next, ops[1..]);
      OneOpConserves(head, live, ops[0]);
      Balance(ops);
      Regroup(multiset(live), multiset(next), multiset(AddedIn(ops[1..])), multiset(DisposedIn(ops[1..])),
              multiset(Live(live, ops)), multiset{ops[0].c});
    }
  }

  lemma Regroup<T>(live: multiset<T>, next: multiset<T>, added: multiset<T>, disposed: multiset<T>,
                   end: multiset<T>, c: multiset<T>)
    requires next + added == disposed + end
    ensures next == live + c ==> live + (c + added) == (multiset{} + disposed) + end
    ensures live == next + c ==> live + (multiset{} + added) == (c + disposed) + end
  {
    assert live + (c + added) == (live + c) + added;
    assert (next + c) + added == c + (next + added);
    assert c + (disposed + end) == (c + disposed) + end;
    assert multiset{} + added == added && multiset{} + disposed == disposed;
  }

  lemma OneOpConserves(head: Conn, live: seq<Conn>, op: Op)
    requires Possible(head, live, op)
    ensures if op.Added? then multiset(After(live, op)) == multiset(live) + multiset{op.c}
      else multiset(live) == multiset(After(live, op)) + multiset{op.c}
  {
    if op.Disposed? { WithoutTakesOne(live, op.c); }
  }

  lemma Balance(ops: seq<Op>)
    requires ops != []
    ensures multiset(AddedIn(ops)) ==
      (if ops[0].Added? then multiset{ops[0].c} else multiset{}) + multiset(AddedIn(ops[1..]))
    ensures multiset(DisposedIn(ops)) ==
      (if ops[0].Disposed? then multiset{ops[0].c} else multiset{}) + multiset(DisposedIn(ops[1..]))
  {
  }

  /** A whole life of the daemon from an empty list: after the cleanup nothing is live, and every connection
      has been disposed exactly as often as it was added. */
  method ServeThenCleanup(list: ConnectionList, ops: seq<Op>, ghost universe: set<Conn>)
    requires list.Valid() && list.conns == [] && list.disposed == [] && PossibleAll(list.head, [], ops)
    requires list.head in universe && forall op :: op in ops ==> op.c in universe
    modifies list, universe
    ensures list.Valid() && list.conns == []
    ensures multiset(list.disposed) == multiset(AddedIn(ops))
  {
    DisposedOnce(list.head, [], ops);
    LiveWithin([], ops, universe);
    Serve(list, ops, universe);
    list.Cleanup();
    assert [] + DisposedIn(ops) == DisposedIn(ops);
  }

  lemma {:induction false} LiveWithin(live: seq<Conn>, ops: seq<Op>, universe: set<Conn>)
    requires (forall c :: c in live ==> c in universe) && forall op :: op in ops ==> op.c in universe
    ensures forall c :: c in Live(live, ops) ==> c in universe
    decreases |ops|
  {
    if ops != [] {
      AfterWithin(live, ops[0], universe);
      LiveWithin(After(live, ops[0]), ops[1..], universe);
    }
  }
}
