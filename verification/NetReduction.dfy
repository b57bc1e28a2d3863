/** Removing connections without impact and hidden nodes without successors, and
    putting the connections into each node in a canonical order. */
module NetReduction {
  datatype Conn = Conn(src: int, dst: int, weight: real)

  /** A net as far as propagation goes: the nodes in the order in which they are
      activated, the list of all connections, the connections into each node in the
      order in which their signals are added, and which nodes are inputs. */
  datatype Net = Net(nodes: seq<int>, conns: seq<Conn>, ins: map<int, seq<Conn>>, inputs: set<int>)

  type Activations = int -> real

  function Times(x: real, y: real): real { x * y }

  /** The connections into n. */
  function Into(conns: seq<Conn>, n: int): (r: seq<Conn>)
    ensures forall c :: c in r <==> c in conns && c.dst == n
  {
    if conns == [] then [] else (if conns[0].dst == n then [conns[0]] else []) + Into(conns[1..], n)
  }

  /** Connections join nodes of the net, and each is listed at its destination. */
  ghost predicate Proper(net: Net) {
    && (forall c | c in net.conns :: c.src in net.nodes && c.dst in net.nodes)
    && (forall n :: n in net.ins <==> n in net.nodes)
    && forall n {:trigger Listed(net, n)} | n in net.nodes :: Listed(net, n)
  }

  /** The connections into n are listed there, in some order. */
  ghost predicate Listed(net: Net, n: int) {
    n in net.ins && multiset(net.ins[n]) == multiset(Into(net.conns, n))
  }

  // ---------------------------------------------------------------- propagation

  /** The signal that the connections carry. */
  function Signal(conns: seq<Conn>, a: Activations): real {
    if conns == [] then 0.0 else Signal(conns[1..], a) + Times(conns[0].weight, a(conns[0].src))
  }

  function InsOf(net: Net, n: int): seq<Conn> { if n in net.ins then net.ins[n] else [] }

  function Activated(net: Net, f: real -> real, a: Activations, n: int): Activations {
    if n in net.inputs then a
    else
      var v := f(Signal(InsOf(net, n), a));
      x => if x == n then v else a(x)
  }

  /** The nodes ns activated one after the other, in place. */
  function ActivatedAll(net: Net, f: real -> real, a: Activations, ns: seq<int>): Activations
    decreases |ns|
  {
    if ns == [] then a else ActivatedAll(net, f, Activated(net, f, a, ns[0]), ns[1..])
  }

  function Propagated(net: Net, f: real -> real, a: Activations, passes: nat): Activations
    decreases passes
  {
    if passes == 0 then a else Propagated(net, f, ActivatedAll(net, f, a, net.nodes), passes - 1)
  }

  ghost predicate Agree(a: Activations, b: Activations, s: seq<int>) {
    forall n | n in s :: a(n) == b(n)
  }

  /** Started with the same activations of the nodes of b, the nets have the same
      activations of these nodes after any number of passes. */
  ghost predicate SameOn(a: Net, b: Net, f: real -> real) {
    && (forall n | n in b.nodes :: n in a.nodes)
    && forall x: Activations, y: Activations, k: nat | Agree(x, y, b.nodes) ::
      Agree(Propagated(a, f, x, k), Propagated(b, f, y, k), b.nodes)
  }

  lemma {:induction false} SameSignalsSameOn(a: Net, b: Net, f: real -> real)
    requires SameSignals(a, b) && forall n | n in b.nodes :: n in a.nodes
    ensures SameOn(a, b, f)
  {
    forall x: Activations, y: Activations, k: nat | Agree(x, y, b.nodes)
      ensures Agree(Propagated(a, f, x, k), Propagated(b, f, y, k), b.nodes)
    {
      SamePasses(a, b, f, x, y, k);
    }
  }

  lemma {:induction false} AllKept(s: seq<int>, t: seq<int>)
    requires forall i | 0 <= i < |s| :: s[i] in t
    ensures Restricted(s, t) == s
  {
    if s != [] { AllKept(s[1..], t); }
  }

  /** The signal depends on the activations of the sources only. */
  lemma {:induction false} SignalFromNodes(conns: seq<Conn>, nodes: seq<int>, x: Activations, y: Activations)
    requires Agree(x, y, nodes) && forall c | c in conns :: c.src in nodes
    ensures Signal(conns, x) == Signal(conns, y)
  {
    if conns != [] { SignalFromNodes(conns[1..], nodes, x, y); }
  }

  lemma {:induction false} SameOnChain(a: Net, b: Net, c: Net, f: real -> real)
    requires SameOn(a, b, f) && SameOn(b, c, f)
    ensures SameOn(a, c, f)
  {
    forall x: Activations, y: Activations, k: nat | Agree(x, y, c.nodes)
      ensures Agree(Propagated(a, f, x, k), Propagated(c, f, y, k), c.nodes)
    {
      assert Agree(x, x, b.nodes);
      assert Agree(Propagated(a, f, x, k), Propagated(b, f, x, k), b.nodes);
      assert Agree(Propagated(b, f, x, k), Propagated(c, f, y, k), c.nodes);
    }
  }

  /** Into every node of b, the nets carry the same signal, and a visits the nodes
      of b in the same order. */
  ghost predicate SameSignals(a: Net, b: Net) {
    && a.inputs == b.inputs && Kept(a.nodes, b.nodes)
    && forall n, x: Activations, y: Activations | n in b.nodes && Agree(x, y, b.nodes) ::
      Signal(InsOf(a, n), x) == Signal(InsOf(b, n), y)
  }

  /** The list t is s without the elements that are not in t. */
  ghost predicate Kept(s: seq<int>, t: seq<int>) { Restricted(s, t) == t }

  function Restricted(s: seq<int>, t: seq<int>): seq<int> {
    if s == [] then [] else (if s[0] in t then [s[0]] else []) + Restricted(s[1..], t)
  }

  lemma {:induction false} SamePass(a: Net, b: Net, f: real -> real, x: Activations, y: Activations, ns: seq<int>)
    requires SameSignals(a, b) && Agree(x, y, b.nodes)
    ensures Agree(ActivatedAll(a, f, x, ns), ActivatedAll(b, f, y, Restricted(ns, b.nodes)), b.nodes)
    decreases |ns|
  {
    if ns != [] {
      var n, ms := ns[0], Restricted(ns, b.nodes);
      var x', y' := Activated(a, f, x, n), if n in b.nodes then Activated(b, f, y, n) else y;
      assert Agree(x', y', b.nodes);
      SamePass(a, b, f, x', y', ns[1..]);
      if n in b.nodes {
        assert ms[0] == n && ms[1..] == Restricted(ns[1..], b.nodes);
      } else {
        assert ms == Restricted(ns[1..], b.nodes);
      }
    }
  }

  lemma {:induction false} SamePasses(a: Net, b: Net, f: real -> real, x: Activations, y: Activations, k: nat)
    requires SameSignals(a, b) && Agree(x, y, b.nodes)
    ensures Agree(Propagated(a, f, x, k), Propagated(b, f, y, k), b.nodes)
    decreases k
  {
    if k > 0 {
      SamePass(a, b, f, x, y, a.nodes);
      SamePasses(a, b, f, ActivatedAll(a, f, x, a.nodes), ActivatedAll(b, f, y, b.nodes), k - 1);
    }
  }

  // ---------------------------------------------------------------- the order of the sum

  /** The list without its first c. */
  function RemoveFirst(s: seq<Conn>, c: Conn): (r: seq<Conn>)
    requires c in s
    ensures multiset(r) == multiset(s) - multiset{c}
  {
    assert s == [s[0]] + s[1..];
    if s[0] == c then s[1..] else [s[0]] + RemoveFirst(s[1..], c)
  }

  lemma {:induction false} SignalWithoutFirst(s: seq<Conn>, c: Conn, a: Activations)
    requires c in s
    ensures Signal(s, a) == Signal(RemoveFirst(s, c), a) + Times(c.weight, a(c.src))
  {
    if s[0] != c {
      SignalWithoutFirst(s[1..], c, a);
      var r := RemoveFirst(s, c);
      assert r[0] == s[0] && r[1..] == RemoveFirst(s[1..], c);
    }
  }

  /** The signal does not depend on the order of the connections. */
  lemma {:induction false} SignalPermuted(s: seq<Conn>, t: seq<Conn>, a: Activations)
    requires multiset(s) == multiset(t)
    ensures Signal(s, a) == Signal(t, a)
  {
    if s == [] {
      assert |multiset(t)| == 0;
    } else {
      assert s == [s[0]] + s[1..];
      assert s[0] in multiset(t);
      SignalWithoutFirst(t, s[0], a);
      SignalPermuted(s[1..], RemoveFirst(t, s[0]), a);
    }
  }

  /** Nets whose lists of connections carry the same signals, whatever the order at
      each node. */
  lemma {:induction false} SameIntoSameOn(a: Net, b: Net, f: real -> real)
    requires Proper(a) && Proper(b) && a.inputs == b.inputs && Kept(a.nodes, b.nodes)
    requires forall n | n in b.nodes :: n in a.nodes
    requires forall n, x: Activations | n in b.nodes :: Signal(Into(a.conns, n), x) == Signal(Into(b.conns, n), x)
    ensures SameOn(a, b, f)
  {
    forall n, x: Activations, y: Activations | n in b.nodes && Agree(x, y, b.nodes)
      ensures Signal(InsOf(a, n), x) == Signal(InsOf(b, n), y)
    {
      assert Listed(a, n) && Listed(b, n);
      SignalPermuted(a.ins[n], Into(a.conns, n), x);
      SignalPermuted(b.ins[n], Into(b.conns, n), x);
      SourcesAreNodes(b, n);
      SignalFromNodes(b.ins[n], b.nodes, x, y);
    }
    SameSignalsSameOn(a, b, f);
  }

  lemma {:induction false} SourcesAreNodes(net: Net, n: int)
    requires Proper(net) && n in net.nodes
    ensures forall c | c in net.ins[n] :: c.src in net.nodes
  {
    assert Listed(net, n);
    forall c | c in net.ins[n] ensures c.src in net.nodes {
      assert c in multiset(net.ins[n]);
      assert c in Into(net.conns, n);
    }
  }

  /** Neither the order of the connections nor their order at each node matters. */
  lemma {:induction false} PermutedSameOn(a: Net, b: Net, f: real -> real)
    requires Proper(a) && Proper(b) && a.inputs == b.inputs && a.nodes == b.nodes
    requires multiset(a.conns) == multiset(b.conns)
    ensures SameOn(a, b, f)
  {
    AllKept(a.nodes, a.nodes);
    forall n, x: Activations | n in b.nodes ensures Signal(Into(a.conns, n), x) == Signal(Into(b.conns, n), x) {
      IntoPermuted(a.conns, b.conns, n);
      SignalPermuted(Into(a.conns, n), Into(b.conns, n), x);
    }
    SameIntoSameOn(a, b, f);
  }

  lemma {:induction false} IntoPermuted(s: seq<Conn>, t: seq<Conn>, n: int)
    requires multiset(s) == multiset(t)
    ensures multiset(Into(s, n)) == multiset(Into(t, n))
  {
    forall c ensures multiset(Into(s, n))[c] == multiset(Into(t, n))[c] {
      IntoCounts(s, n, c);
      IntoCounts(t, n, c);
    }
  }

  lemma {:induction false} IntoCounts(s: seq<Conn>, n: int, c: Conn)
    ensures multiset(Into(s, n))[c] == if c.dst == n then multiset(s)[c] else 0
  {
    if s != [] {
      assert s == [s[0]] + s[1..];
      IntoCounts(s[1..], n, c);
    }
  }

  // ---------------------------------------------------------------- one removal

  function RemoveAt<T>(s: seq<T>, i: nat): (r: seq<T>)
    requires i < |s|
    ensures |r| == |s| - 1 && forall x | x in r :: x in s
  {
    s[..i] + s[i + 1..]
  }

  lemma {:induction false} IntoConcat(c: seq<Conn>, d: seq<Conn>, n: int)
    ensures Into(c + d, n) == Into(c, n) + Into(d, n)
  {
    if c == [] {
      assert c + d == d;
    } else {
      assert (c + d)[1..] == c[1..] + d;
      IntoConcat(c[1..], d, n);
    }
  }

  /** What is listed at n once a connection is removed. */
  lemma {:induction false} IntoWithout(conns: seq<Conn>, i: nat, n: int)
    requires i < |conns|
    ensures var c := conns[i];
      && multiset(Into(RemoveAt(conns, i), n)) == multiset(Into(conns, n)) - multiset{c}
      && (c in Into(conns, n) <==> c.dst == n)
  {
    var c := conns[i];
    var head, tail := conns[..i], conns[i + 1..];
    assert conns == head + ([c] + tail);
    IntoConcat(head, [c] + tail, n);
    IntoConcat([c], tail, n);
    IntoConcat(head, tail, n);
    assert Into([c], n) == if c.dst == n then [c] else [] by { assert [c][1..] == []; }
    if c.dst != n { assert c !in Into(conns, n); }
  }

  /** A connection is removed from the list of all and at its destination. */
  function RemoveConn(net: Net, i: nat): Net
    requires i < |net.conns| && var c := net.conns[i]; c.dst in net.ins && c in net.ins[c.dst]
  {
    var c := net.conns[i];
    net.(conns := RemoveAt(net.conns, i), ins := net.ins[c.dst := RemoveFirst(net.ins[c.dst], c)])
  }

  lemma {:induction false} ListedAtDestination(net: Net, i: nat)
    requires Proper(net) && i < |net.conns|
    ensures var c := net.conns[i]; c.dst in net.ins && c in net.ins[c.dst]
  {
    var c := net.conns[i];
    assert Listed(net, c.dst) && c in Into(net.conns, c.dst);
    assert c in multiset(net.ins[c.dst]);
  }

  lemma {:induction false} RemoveConnProper(net: Net, i: nat)
    requires Proper(net) && i < |net.conns|
    ensures var c := net.conns[i]; c.dst in net.ins && c in net.ins[c.dst]
    ensures Proper(RemoveConn(net, i))
  {
    ListedAtDestination(net, i);
    var after := RemoveConn(net, i);
    forall n | n in net.nodes ensures Listed(after, n) {
      RemoveConnListed(net, i, n);
    }
    assert net.conns[i] in net.conns;
  }

  lemma {:induction false} RemoveConnListed(net: Net, i: nat, n: int)
    requires i < |net.conns| && Listed(net, n)
    requires var c := net.conns[i]; c.dst in net.ins && c in net.ins[c.dst]
    ensures Listed(RemoveConn(net, i), n)
  {
    var c := net.conns[i];
    IntoWithout(net.conns, i, n);
    if c.dst != n { assert multiset(Into(net.conns, n))[c] == 0; }
  }

  /** A connection of weight zero may go. */
  lemma {:induction false} RemoveConnectionSame(a: Net, i: nat, f: real -> real)
    requires Proper(a) && i < |a.conns| && a.conns[i].weight == 0.0
    ensures var c := a.conns[i]; c.dst in a.ins && c in a.ins[c.dst]
    ensures Proper(RemoveConn(a, i)) && SameOn(a, RemoveConn(a, i), f)
  {
    RemoveConnProper(a, i);
    var b := RemoveConn(a, i);
    AllKept(a.nodes, a.nodes);
    forall n, x: Activations | n in b.nodes ensures Signal(Into(a.conns, n), x) == Signal(Into(b.conns, n), x) {
      SilentConnection(a.conns, i, n, x);
    }
    SameIntoSameOn(a, b, f);
  }

  lemma {:induction false} SilentConnection(conns: seq<Conn>, i: nat, n: int, x: Activations)
    requires i < |conns| && conns[i].weight == 0.0
    ensures Signal(Into(conns, n), x) == Signal(Into(RemoveAt(conns, i), n), x)
  {
    var c := conns[i];
    IntoWithout(conns, i, n);
    if c.dst == n {
      SignalWithoutFirst(Into(conns, n), c, x);
      SignalPermuted(RemoveFirst(Into(conns, n), c), Into(RemoveAt(conns, i), n), x);
    } else {
      assert multiset(Into(conns, n)) - multiset{c} == multiset(Into(conns, n));
      SignalPermuted(Into(conns, n), Into(RemoveAt(conns, i), n), x);
    }
  }

  predicate Touches(c: Conn, d: int) { c.src == d || c.dst == d }

  /** The connections that do not touch d. */
  function Detached(conns: seq<Conn>, d: int): (r: seq<Conn>)
    ensures forall i | 0 <= i < |r| :: r[i] in conns && !Touches(r[i], d)
  {
    if conns == [] then []
    else (if Touches(conns[0], d) then [] else [conns[0]]) + Detached(conns[1..], d)
  }

  /** The list without the value. */
  function Without(s: seq<int>, d: int): (r: seq<int>)
    ensures forall n :: n in r <==> n in s && n != d
  {
    if s == [] then [] else (if s[0] == d then [] else [s[0]]) + Without(s[1..], d)
  }

  lemma {:induction false} WithoutIsRestricted(s: seq<int>, t: seq<int>, d: int)
    requires forall n | n in s :: n in t <==> n != d
    ensures Restricted(s, t) == Without(s, d)
  {
    if s != [] { WithoutIsRestricted(s[1..], t, d); }
  }

  lemma {:induction false} DetachedInto(conns: seq<Conn>, d: int, n: int)
    requires n != d && forall i | 0 <= i < |conns| :: conns[i].src != d
    ensures Into(Detached(conns, d), n) == Into(conns, n)
  {
    if conns != [] {
      DetachedInto(conns[1..], d, n);
      if !Touches(conns[0], d) {
        var r := Detached(conns, d);
        assert r == [conns[0]] + Detached(conns[1..], d) && r[1..] == Detached(conns[1..], d);
      } else {
        assert Detached(conns, d) == Detached(conns[1..], d);
      }
    }
  }

  /** The net b is a without the node d and the connections that touch it. */
  ghost predicate IsWithoutNode(a: Net, b: Net, d: int) {
    Proper(b) && b.nodes == Without(a.nodes, d) && b.conns == Detached(a.conns, d) && b.inputs == a.inputs
  }

  /** A node without outgoing connections may go. */
  lemma {:induction false} RemoveNodeSame(a: Net, b: Net, d: int, f: real -> real)
    requires Proper(a) && IsWithoutNode(a, b, d) && forall i | 0 <= i < |a.conns| :: a.conns[i].src != d
    ensures SameOn(a, b, f)
  {
    WithoutIsRestricted(a.nodes, b.nodes, d);
    forall n, x: Activations | n in b.nodes ensures Signal(Into(a.conns, n), x) == Signal(Into(b.conns, n), x) {
      DetachedInto(a.conns, d, n);
    }
    SameIntoSameOn(a, b, f);
  }

  // ---------------------------------------------------------------- what one scan removes

  predicate AllNonZero(cs: seq<Conn>) { forall i | 0 <= i < |cs| :: cs[i].weight != 0.0 }

  function NonZero(cs: seq<Conn>): seq<Conn> {
    if cs == [] then [] else (if cs[0].weight == 0.0 then [] else [cs[0]]) + NonZero(cs[1..])
  }

  function FirstZero(cs: seq<Conn>): (z: nat)
    requires !AllNonZero(cs)
    ensures z < |cs| && cs[z].weight == 0.0 && AllNonZero(cs[..z])
  {
    if cs[0].weight == 0.0 then 0
    else
      assert !AllNonZero(cs[1..]) by {
        var i :| 0 <= i < |cs| && cs[i].weight == 0.0;
        assert cs[1..][i - 1] == cs[i];
      }
      var z := 1 + FirstZero(cs[1..]);
      assert forall i | 0 < i < z :: cs[i] == cs[1..][..z - 1][i - 1];
      z
  }

  /** After each removal the scan goes on from the second connection, so that the
      one that has come first stays whatever its weight. */
  function Scanned(cs: seq<Conn>): seq<Conn> {
    if AllNonZero(cs) then cs
    else
      var rest := RemoveAt(cs, FirstZero(cs));
      if rest == [] then [] else [rest[0]] + NonZero(rest[1..])
  }

  lemma {:induction false} NonZeroIsAll(cs: seq<Conn>)
    ensures AllNonZero(NonZero(cs))
    ensures AllNonZero(cs) ==> NonZero(cs) == cs
  {
    if cs != [] { NonZeroIsAll(cs[1..]); }
  }

  lemma {:induction false} NonZeroConcat(c: seq<Conn>, d: seq<Conn>)
    ensures NonZero(c + d) == NonZero(c) + NonZero(d)
  {
    if c == [] {
      assert c + d == d;
    } else {
      assert (c + d)[1..] == c[1..] + d;
      NonZeroConcat(c[1..], d);
    }
  }

  lemma {:induction false} NonZeroRemoved(cs: seq<Conn>, i: nat)
    requires i < |cs| && cs[i].weight == 0.0
    ensures NonZero(RemoveAt(cs, i)) == NonZero(cs)
  {
    assert cs == cs[..i] + ([cs[i]] + cs[i + 1..]);
    NonZeroConcat(cs[..i], [cs[i]] + cs[i + 1..]);
    NonZeroConcat([cs[i]], cs[i + 1..]);
    NonZeroConcat(cs[..i], cs[i + 1..]);
    assert NonZero([cs[i]]) == [] by { assert [cs[i]][1..] == []; }
  }

  /** A scan leaves a connection of weight zero if and only if the first two have it. */
  lemma {:induction false} ScanLeavesZero(cs: seq<Conn>)
    ensures !AllNonZero(Scanned(cs)) <==> |cs| >= 2 && cs[0].weight == 0.0 && cs[1].weight == 0.0
    ensures forall i | 1 <= i < |Scanned(cs)| :: Scanned(cs)[i].weight != 0.0
  {
    if !AllNonZero(cs) {
      var z := FirstZero(cs);
      var rest := RemoveAt(cs, z);
      if rest == [] {
        assert |cs| == 1;
      } else {
        var tail := NonZero(rest[1..]);
        NonZeroIsAll(rest[1..]);
        assert Scanned(cs) == [rest[0]] + tail;
        assert forall i | 1 <= i < |Scanned(cs)| :: Scanned(cs)[i] == tail[i - 1];
        assert Scanned(cs)[0] == rest[0] == if z == 0 then cs[1] else cs[0];
        assert z > 0 ==> cs[..z][0] == cs[0];
      }
    } else {
      assert Scanned(cs) == cs;
    }
  }

  // ---------------------------------------------------------------- reduce

  /** Whether one of the connections comes from n. */
  predicate Feeds(conns: seq<Conn>, n: int) { exists i :: 0 <= i < |conns| && conns[i].src == n }

  /** When a connection of weight zero is left at the end: the first two had it, and
      without the first and the other ones of weight zero but the second, every
      hidden node still feeds something. */
  predicate LeavesZero(conns: seq<Conn>, hidden: seq<int>, memory: set<int>) {
    && |conns| >= 2 && conns[0].weight == 0.0 && conns[1].weight == 0.0
    && forall n | n in hidden :: n in memory || Feeds([conns[1]] + NonZero(conns[2..]), n)
  }

  lemma {:induction false} ScannedFromTwoZeros(cs: seq<Conn>)
    requires |cs| >= 2 && cs[0].weight == 0.0 && cs[1].weight == 0.0
    ensures Scanned(cs) == [cs[1]] + NonZero(cs[2..])
  {
    var rest := RemoveAt(cs, 0);
    assert FirstZero(cs) == 0 && rest[0] == cs[1] && rest[1..] == cs[2..];
  }

  /** Sum of the magnitudes. */
  function Magnitude(conns: seq<Conn>): real {
    if conns == [] then 0.0 else Magnitude(conns[1..]) + Abs(conns[0].weight)
  }

  function Abs(x: real): real { if x < 0.0 then -x else x }

  function OutOf(conns: seq<Conn>, n: int): seq<Conn> {
    if conns == [] then [] else (if conns[0].src == n then [conns[0]] else []) + OutOf(conns[1..], n)
  }

  /** What the connections into a node are sorted by: the magnitudes at their source. */
  function SortValue(net: Net, n: int): real {
    Magnitude(InsOf(net, n)) + Magnitude(OutOf(net.conns, n))
  }

  ghost predicate SortedBy(conns: seq<Conn>, values: map<int, real>) {
    && (forall c | c in conns :: c.src in values)
    && forall i, j | 0 <= i < j < |conns| :: values[conns[i].src] <= values[conns[j].src]
  }

  /** A sorted arrangement of the connections; nothing else is said of it. */
  method Sort(conns: seq<Conn>, values: map<int, real>) returns (sorted: seq<Conn>)
    requires forall c | c in conns :: c.src in values
    ensures multiset(sorted) == multiset(conns) && SortedBy(sorted, values)
  {
    sorted := [];
    for i := 0 to |conns|
      invariant multiset(sorted) == multiset(conns[..i]) && SortedBy(sorted, values)
    {
      assert conns[..i + 1] == conns[..i] + [conns[i]];
      var k := PlaceOf(sorted, conns[i], values);
      InsertSorted(sorted, conns[i], k, values);
      sorted := Inserted(sorted, k, conns[i]);
    }
    assert conns[..|conns|] == conns;
  }

  method PlaceOf(s: seq<Conn>, c: Conn, values: map<int, real>) returns (k: nat)
    requires SortedBy(s, values) && c.src in values
    ensures k <= |s| && forall j | 0 <= j < k :: values[s[j].src] < values[c.src]
    ensures k < |s| ==> values[c.src] <= values[s[k].src]
  {
    k := 0;
    while k < |s| && values[s[k].src] < values[c.src]
      invariant k <= |s| && forall j | 0 <= j < k :: values[s[j].src] < values[c.src]
    {
      k := k + 1;
    }
  }

  function Inserted(s: seq<Conn>, k: nat, c: Conn): (r: seq<Conn>)
    requires k <= |s|
    ensures |r| == |s| + 1 && multiset(r) == multiset(s) + multiset{c}
    ensures forall i | 0 <= i < |r| :: r[i] == if i < k then s[i] else if i == k then c else s[i - 1]
  {
    assert s == s[..k] + s[k..];
    s[..k] + [c] + s[k..]
  }

  lemma {:induction false} InsertSorted(s: seq<Conn>, c: Conn, k: nat, values: map<int, real>)
    requires k <= |s| && SortedBy(s, values) && c.src in values
    requires forall j | 0 <= j < k :: values[s[j].src] < values[c.src]
    requires k < |s| ==> values[c.src] <= values[s[k].src]
    ensures SortedBy(Inserted(s, k, c), values)
  {
    var r := Inserted(s, k, c);
    forall x | x in r ensures x.src in values {
      var i :| 0 <= i < |r| && r[i] == x;
      assert i != k ==> r[i] in s;
    }
    forall j | k <= j < |s| ensures values[c.src] <= values[s[j].src] {
      if k < j { assert values[s[k].src] <= values[s[j].src]; }
    }
    forall i, j | 0 <= i < j < |r| ensures values[r[i].src] <= values[r[j].src] {
      if i != k && j != k {
        assert values[s[if i < k then i else i - 1].src] <= values[s[if j < k then j else j - 1].src];
      }
    }
  }

  ghost predicate SortedUpTo(net: Net, i: nat, values: map<int, real>) {
    i <= |net.nodes| && forall j | 0 <= j < i :: net.nodes[j] in net.ins && SortedBy(net.ins[net.nodes[j]], values)
  }

  lemma {:induction false} SortedNext(a: Net, b: Net, i: nat, values: map<int, real>)
    requires b.nodes == a.nodes && i < |a.nodes| && forall m | m in a.nodes :: m in a.ins && m in b.ins
    requires SortedUpTo(a, i, values) && var n := a.nodes[i]; n in b.ins && SortedBy(b.ins[n], values)
    requires forall m | m in a.nodes && SortedBy(a.ins[m], values) :: SortedBy(b.ins[m], values)
    ensures SortedUpTo(b, i + 1, values)
  {
    forall j | 0 <= j < i + 1 ensures b.nodes[j] in b.ins && SortedBy(b.ins[b.nodes[j]], values) {
      var n := a.nodes[j];
      assert n in a.nodes;
      if j < i { assert SortedBy(a.ins[n], values); }
    }
  }

  class Reducer {
    var net: Net
    var hidden: seq<int>
    const memory: set<int>

    ghost predicate Valid()
      reads this
    {
      Proper(net) && forall n | n in hidden :: n in net.nodes && n !in net.inputs
    }

    /** Removes a connection wherever it is listed. */
    method RemoveConnection(i: nat)
      requires Proper(net) && i < |net.conns|
      modifies this`net
      ensures var c := old(net).conns[i]; c.dst in old(net).ins && c in old(net).ins[c.dst]
      ensures Proper(net) && net == RemoveConn(old(net), i)
    {
      RemoveConnProper(net, i);
      var c := net.conns[i];
      net := net.(conns := RemoveAt(net.conns, i), ins := net.ins[c.dst := RemoveFirst(net.ins[c.dst], c)]);
    }

    method RemoveSilent(i: nat, ghost f: real -> real)
      requires Valid() && i < |net.conns| && net.conns[i].weight == 0.0
      modifies this`net
      ensures Valid() && net.nodes == old(net).nodes && net.inputs == old(net).inputs
      ensures net.conns == RemoveAt(old(net).conns, i) && SameOn(old(net), net, f)
    {
      RemoveConnectionSame(net, i, f);
      RemoveConnection(i);
    }

    /** Removes the connections of weight zero that the restarting scan comes to. */
    method RemoveConnections(ghost f: real -> real)
      requires Valid()
      modifies this`net
      ensures Valid() && net.nodes == old(net).nodes && net.inputs == old(net).inputs
      ensures net.conns == Scanned(old(net).conns) && SameOn(old(net), net, f)
    {
      ghost var start, removed := net.conns, false;
      PermutedSameOn(net, net, f);
      var i := 0;
      while i < |net.conns|
        invariant Valid() && net.nodes == old(net).nodes && net.inputs == old(net).inputs && SameOn(old(net), net, f)
        invariant ScanState(start, net.conns, i, removed)
        decreases |net.conns|, |net.conns| - i
      {
        if net.conns[i].weight != 0.0 {
          StepKeeps(start, net.conns, i, removed);
          i := i + 1;
          continue;
        }
        ghost var before := net;
        StepRemoves(start, net.conns, i, removed);
        RemoveSilent(i, f);
        SameOnChain(old(net), before, net, f);
        i, removed := 0, true;
        if net.conns == [] { break; }
        i := i + 1;
      }
      ScanEnds(start, net.conns, i, removed);
    }

    /** Whether the node feeds no other and no memory input. */
    predicate Dead(n: int)
      reads this
    {
      n !in memory && !Feeds(net.conns, n)
    }

    method IsDead(n: int) returns (dead: bool)
      ensures dead == Dead(n)
    {
      if n in memory { return false; }
      for i := 0 to |net.conns|
        invariant forall j | 0 <= j < i :: net.conns[j].src != n
      {
        if net.conns[i].src == n { return false; }
      }
      dead := true;
    }

    /** Removes a node with all its connections. */
    method RemoveNode(d: int)
      requires Valid()
      modifies this`net, this`hidden
      ensures Valid() && IsWithoutNode(old(net), net, d) && hidden == Without(old(hidden), d)
    {
      ghost var start := net.conns;
      var i := 0;
      assert start[..0] == [] && start[0..] == start;
      while i < |net.conns|
        invariant Proper(net) && net.nodes == old(net).nodes && net.inputs == old(net).inputs && hidden == old(hidden)
        invariant DetachedUpTo(start, net.conns, i, d)
        decreases |net.conns| - i
      {
        DetachedNext(start, net.conns, i, d);
        if Touches(net.conns[i], d) {
          RemoveConnection(i);
        } else {
          i := i + 1;
        }
      }
      assert net.conns[..i] == net.conns && net.conns[i..] == [];
      assert net.conns == Detached(start, d);
      DetachedProper(net, d);
      net := Net(Without(net.nodes, d), net.conns, net.ins - {d}, net.inputs);
      hidden := Without(hidden, d);
    }

    method RemoveDeadNode(d: int, ghost f: real -> real)
      requires Valid() && d in hidden && Dead(d)
      modifies this`net, this`hidden
      ensures Valid() && SameOn(old(net), net, f) && OnlyHiddenGone(old(net.nodes), old(hidden), net.nodes, hidden)
      ensures |hidden| < |old(hidden)| && (OneZeroAtMost(old(net).conns) ==> OneZeroAtMost(net.conns))
    {
      ghost var before := net;
      WithoutShorter(hidden, d);
      DetachedKeepsZeros(net.conns, d);
      RemoveNode(d);
      RemoveNodeSame(before, net, d, f);
    }

    /** Removes dead hidden nodes, starting over after each; says whether there were any. */
    method RemoveNodes(ghost f: real -> real) returns (dirty: bool)
      requires Valid()
      modifies this`net, this`hidden
      ensures Valid() && SameOn(old(net), net, f) && OnlyHiddenGone(old(net.nodes), old(hidden), net.nodes, hidden)
      ensures if dirty then |hidden| < |old(hidden)| else net == old(net) && hidden == old(hidden)
      ensures dirty <==> exists n :: n in old(hidden) && old(Dead(n))
      ensures OneZeroAtMost(old(net).conns) ==> OneZeroAtMost(net.conns)
    {
      dirty := false;
      PermutedSameOn(net, net, f);
      var j := 0;
      while j < |hidden|
        invariant Valid() && SameOn(old(net), net, f) && OnlyHiddenGone(old(net.nodes), old(hidden), net.nodes, hidden)
        invariant if dirty then |hidden| < |old(hidden)| else net == old(net) && hidden == old(hidden)
        invariant if dirty then exists n :: n in old(hidden) && old(Dead(n))
                  else j <= |hidden| && forall i | 0 <= i < j :: !Dead(hidden[i])
        invariant OneZeroAtMost(old(net).conns) ==> OneZeroAtMost(net.conns)
        decreases |hidden|, |hidden| - j
      {
        var dead := IsDead(hidden[j]);
        if dead {
          ghost var before := net;
          RemoveDeadNode(hidden[j], f);
          SameOnChain(old(net), before, net, f);
          j, dirty := 0, true;
          if hidden == [] { break; }
        }
        j := j + 1;
      }
    }

    /** Sum of the magnitudes at a node, first of what comes in, then of what goes out. */
    method CalculateSortValue(n: int) returns (value: real)
      ensures value == SortValue(net, n)
    {
      var ins := if n in net.ins then net.ins[n] else [];
      value := 0.0;
      for i := |ins| downto 0
        invariant value == Magnitude(ins[i..])
      {
        value := value + Abs(ins[i].weight);
      }
      assert ins[0..] == ins;
      var out := 0.0;
      for i := |net.conns| downto 0
        invariant out == Magnitude(OutOf(net.conns[i..], n))
      {
        assert net.conns[i..][0] == net.conns[i] && net.conns[i..][1..] == net.conns[i + 1..];
        OutOfNext(net.conns[i..], n);
        if net.conns[i].src == n { out := out + Abs(net.conns[i].weight); }
      }
      assert net.conns[0..] == net.conns;
      value := value + out;
    }

    /** Sorts the connections into every node by the magnitudes at their sources. */
    method SortAll(ghost f: real -> real)
      requires Valid()
      modifies this`net
      ensures Valid() && net == old(net).(ins := net.ins) && SameOn(old(net), net, f)
      ensures forall n | n in net.nodes :: SortedBySource(net, net.ins[n])
    {
      var values: map<int, real> := map[];
      for i := 0 to |net.nodes|
        invariant net == old(net)
        invariant forall j | 0 <= j < i :: net.nodes[j] in values
        invariant forall n | n in values :: n in net.nodes
        invariant forall n | n in values :: values[n] == SortValue(net, n)
      {
        var value := CalculateSortValue(net.nodes[i]);
        values := values[net.nodes[i] := value];
      }
      for i := 0 to |net.nodes|
        invariant Valid() && net == old(net).(ins := net.ins)
        invariant SortedUpTo(net, i, values)
      {
        ghost var before := net;
        SortIns(net.nodes[i], values);
        SortedNext(before, net, i, values);
      }
      PermutedSameOn(old(net), net, f);
      forall n | n in net.nodes ensures SortedBySource(net, net.ins[n]) {
        SortValuesStay(old(net), net);
        SortedByTheirSource(net, net.ins[n], values);
      }
    }

    method SortIns(n: int, values: map<int, real>)
      requires Valid() && n in net.nodes && forall m | m in net.nodes :: m in values
      modifies this`net
      ensures Valid() && net == old(net).(ins := net.ins) && SortedBy(net.ins[n], values)
      ensures forall m | m in net.nodes && SortedBy(old(net).ins[m], values) :: SortedBy(net.ins[m], values)
    {
      SourcesAreNodes(net, n);
      var sorted := Sort(net.ins[n], values);
      ghost var before := net;
      net := net.(ins := net.ins[n := sorted]);
      forall m | m in net.nodes ensures Listed(net, m) {
        assert Listed(before, m);
      }
    }

    /** Removes what has no impact and sorts.  Every node that stays has the same
        activation as before after any number of passes; no dead hidden node stays,
        and a connection of weight zero stays in exactly one case. */
    method Reduce(ghost f: real -> real)
      requires Valid()
      modifies this`net, this`hidden
      ensures Valid() && SameOn(old(net), net, f) && OnlyHiddenGone(old(net.nodes), old(hidden), net.nodes, hidden)
      ensures forall n | n in hidden :: !Dead(n)
      ensures OneZeroAtMost(net.conns)
      ensures !AllNonZero(net.conns) <==> LeavesZero(old(net).conns, old(hidden), memory)
      ensures forall n | n in net.nodes :: SortedBySource(net, net.ins[n])
    {
      PermutedSameOn(net, net, f);
      var dirty := true;
      ghost var first := true;
      while dirty
        invariant Valid() && SameOn(old(net), net, f) && OnlyHiddenGone(old(net.nodes), old(hidden), net.nodes, hidden)
        invariant first ==> dirty && net == old(net) && hidden == old(hidden)
        invariant !first ==> OneZeroAtMost(net.conns)
        invariant !first && dirty ==> !LeavesZero(old(net).conns, old(hidden), memory)
        invariant !dirty ==> forall n | n in hidden :: !Dead(n)
        invariant !dirty ==> (!AllNonZero(net.conns) <==> LeavesZero(old(net).conns, old(hidden), memory))
        decreases |hidden|, if dirty then 1 else 0
      {
        ghost var before := net;
        ScanLeavesZero(net.conns);
        RemoveConnections(f);
        SameOnChain(old(net), before, net, f);
        if first && |before.conns| >= 2 && before.conns[0].weight == 0.0 && before.conns[1].weight == 0.0 {
          ScannedFromTwoZeros(before.conns);
        }
        before := net;
        dirty := RemoveNodes(f);
        SameOnChain(old(net), before, net, f);
        first := false;
      }
      ghost var before := net;
      SortAll(f);
      SameOnChain(old(net), before, net, f);
    }
  }

  /** At most the first connection has weight zero. */
  predicate OneZeroAtMost(conns: seq<Conn>) { forall i | 1 <= i < |conns| :: conns[i].weight != 0.0 }

  lemma {:induction false} DetachedKeepsZeros(conns: seq<Conn>, d: int)
    ensures OneZeroAtMost(conns) ==> OneZeroAtMost(Detached(conns, d))
    ensures AllNonZero(conns) ==> AllNonZero(Detached(conns, d))
  {
    if conns != [] {
      DetachedKeepsZeros(conns[1..], d);
      var rest := Detached(conns[1..], d);
      assert OneZeroAtMost(conns) ==> AllNonZero(conns[1..]);
      assert Detached(conns, d) == (if Touches(conns[0], d) then [] else [conns[0]]) + rest;
    }
  }

  /** Ready to lose the node: nothing touches it. */
  lemma {:induction false} DetachedProper(net: Net, d: int)
    requires Proper(net) && forall i | 0 <= i < |net.conns| :: !Touches(net.conns[i], d)
    ensures Proper(Net(Without(net.nodes, d), net.conns, net.ins - {d}, net.inputs))
  {
    var after := Net(Without(net.nodes, d), net.conns, net.ins - {d}, net.inputs);
    forall n | n in after.nodes ensures Listed(after, n) {
      assert Listed(net, n);
    }
  }

  lemma {:induction false} OutOfNext(conns: seq<Conn>, n: int)
    requires conns != []
    ensures Magnitude(OutOf(conns, n)) ==
            Magnitude(OutOf(conns[1..], n)) + if conns[0].src == n then Abs(conns[0].weight) else 0.0
  {
    var rest := OutOf(conns[1..], n);
    if conns[0].src == n {
      assert OutOf(conns, n) == [conns[0]] + rest;
      assert ([conns[0]] + rest)[1..] == rest;
    } else {
      assert OutOf(conns, n) == rest;
    }
  }

  /** What the connections weigh at n without their signs: at each end that is n. */
  function WeightAt(conns: seq<Conn>, n: int): real {
    if conns == [] then 0.0
    else
      var w := if conns[0].weight > 0.0 then conns[0].weight else -conns[0].weight;
      (if conns[0].src == n then w else 0.0) + (if conns[0].dst == n then w else 0.0) + WeightAt(conns[1..], n)
  }

  lemma {:induction false} WeightAtBothEnds(conns: seq<Conn>, n: int)
    ensures Magnitude(Into(conns, n)) + Magnitude(OutOf(conns, n)) == WeightAt(conns, n)
  {
    if conns != [] {
      WeightAtBothEnds(conns[1..], n);
      OutOfNext(conns, n);
      var rest := Into(conns[1..], n);
      if conns[0].dst == n {
        assert Into(conns, n) == [conns[0]] + rest;
        assert ([conns[0]] + rest)[1..] == rest;
      } else {
        assert Into(conns, n) == rest;
      }
    }
  }

  /** What connections are sorted by is the weight at the node of all connections of the
      net, those out of it as well as those into it. */
  lemma {:induction false} SortValueIsWeightAt(net: Net, n: int)
    requires Proper(net) && n in net.nodes
    ensures SortValue(net, n) == WeightAt(net.conns, n)
  {
    assert Listed(net, n);
    MagnitudePermuted(net.ins[n], Into(net.conns, n));
    WeightAtBothEnds(net.conns, n);
  }

  /** In increasing order of the sort values of the sources. */
  ghost predicate SortedBySource(net: Net, conns: seq<Conn>) {
    forall i, j | 0 <= i < j < |conns| :: SortValue(net, conns[i].src) <= SortValue(net, conns[j].src)
  }

  /** Sorting changes no sort value. */
  lemma {:induction false} SortValuesStay(a: Net, b: Net)
    requires Proper(a) && Proper(b) && b == a.(ins := b.ins)
    ensures forall n :: SortValue(a, n) == SortValue(b, n)
  {
    forall n ensures SortValue(a, n) == SortValue(b, n) {
      if n in a.nodes {
        assert Listed(a, n) && Listed(b, n);
        MagnitudePermuted(a.ins[n], b.ins[n]);
      }
    }
  }

  lemma {:induction false} MagnitudePermuted(s: seq<Conn>, t: seq<Conn>)
    requires multiset(s) == multiset(t)
    ensures Magnitude(s) == Magnitude(t)
  {
    if s == [] {
      assert |multiset(t)| == 0;
    } else {
      assert s == [s[0]] + s[1..];
      assert s[0] in multiset(t);
      MagnitudeWithoutFirst(t, s[0]);
      MagnitudePermuted(s[1..], RemoveFirst(t, s[0]));
    }
  }

  lemma {:induction false} MagnitudeWithoutFirst(s: seq<Conn>, c: Conn)
    requires c in s
    ensures Magnitude(s) == Magnitude(RemoveFirst(s, c)) + Abs(c.weight)
  {
    if s[0] != c {
      MagnitudeWithoutFirst(s[1..], c);
      var r := RemoveFirst(s, c);
      assert r[0] == s[0] && r[1..] == RemoveFirst(s[1..], c);
    }
  }

  lemma {:induction false} SortedByTheirSource(net: Net, conns: seq<Conn>, values: map<int, real>)
    requires SortedBy(conns, values)
    requires forall n | n in values :: values[n] == SortValue(net, n)
    ensures SortedBySource(net, conns)
  {
    forall i, j | 0 <= i < j < |conns| ensures SortValue(net, conns[i].src) <= SortValue(net, conns[j].src) {
      assert conns[i] in conns && conns[j] in conns;
    }
  }

  /** Up to i, no connection touches d any more. */
  ghost predicate DetachedUpTo(start: seq<Conn>, now: seq<Conn>, i: nat, d: int) {
    i <= |now| && now[..i] + Detached(now[i..], d) == Detached(start, d)
  }

  lemma {:induction false} DetachedNext(start: seq<Conn>, now: seq<Conn>, i: nat, d: int)
    requires DetachedUpTo(start, now, i, d) && i < |now|
    ensures if Touches(now[i], d) then DetachedUpTo(start, RemoveAt(now, i), i, d) else DetachedUpTo(start, now, i + 1, d)
  {
    assert now[i..][0] == now[i] && now[i..][1..] == now[i + 1..];
    if Touches(now[i], d) {
      assert RemoveAt(now, i)[..i] == now[..i] && RemoveAt(now, i)[i..] == now[i + 1..];
      assert Detached(now[i..], d) == Detached(now[i + 1..], d);
    } else {
      assert now[..i + 1] == now[..i] + [now[i]];
      assert Detached(now[i..], d) == [now[i]] + Detached(now[i + 1..], d);
    }
  }

  /** Only hidden nodes have gone, from both lists. */
  ghost predicate OnlyHiddenGone(nodes: seq<int>, hidden: seq<int>, nodes': seq<int>, hidden': seq<int>) {
    && (forall n | n in nodes :: n in nodes' || n in hidden)
    && (forall n :: n in nodes' ==> n in nodes)
    && (forall n :: n in hidden' <==> n in hidden && n in nodes')
  }

  lemma {:induction false} WithoutShorter(s: seq<int>, d: int)
    requires d in s
    ensures |Without(s, d)| < |s|
  {
    WithoutAtMost(s[1..], d);
    if s[0] != d { WithoutShorter(s[1..], d); }
  }

  lemma {:induction false} WithoutAtMost(s: seq<int>, d: int)
    ensures |Without(s, d)| <= |s|
  {
    if s != [] { WithoutAtMost(s[1..], d); }
  }

  /** Before the first removal everything up to i is not zero; after it, everything
      between the first and i. */
  ghost predicate ScanState(start: seq<Conn>, now: seq<Conn>, i: nat, removed: bool) {
    if removed then
      if now == [] then Scanned(start) == []
      else Scanned(start) == [now[0]] + NonZero(now[1..]) && 1 <= i <= |now| && AllNonZero(now[1..i])
    else now == start && i <= |now| && AllNonZero(now[..i])
  }

  lemma {:induction false} StepKeeps(start: seq<Conn>, now: seq<Conn>, i: nat, removed: bool)
    requires ScanState(start, now, i, removed) && i < |now| && now[i].weight != 0.0
    ensures ScanState(start, now, i + 1, removed)
  {
    if removed {
      assert now[1..i + 1] == now[1..i] + [now[i]];
    } else {
      assert now[..i + 1] == now[..i] + [now[i]];
    }
  }

  lemma {:induction false} StepRemoves(start: seq<Conn>, now: seq<Conn>, i: nat, removed: bool)
    requires ScanState(start, now, i, removed) && i < |now| && now[i].weight == 0.0
    ensures var then' := RemoveAt(now, i);
      if then' == [] then ScanState(start, then', 0, true) else ScanState(start, then', 1, true)
  {
    var rest := RemoveAt(now, i);
    if removed {
      assert rest[0] == now[0] && rest[1..] == RemoveAt(now[1..], i - 1);
      NonZeroRemoved(now[1..], i - 1);
    } else {
      FirstZeroIs(now, i);
    }
    if rest != [] { assert rest[1..1] == []; }
  }

  lemma {:induction false} FirstZeroIs(cs: seq<Conn>, i: nat)
    requires i < |cs| && AllNonZero(cs[..i]) && cs[i].weight == 0.0
    ensures !AllNonZero(cs) && FirstZero(cs) == i
  {
    if i > 0 {
      assert cs[..i][0] == cs[0];
      assert cs[1..][..i - 1] == cs[..i][1..];
      FirstZeroIs(cs[1..], i - 1);
    }
  }

  lemma {:induction false} ScanEnds(start: seq<Conn>, now: seq<Conn>, i: nat, removed: bool)
    requires ScanState(start, now, i, removed) && i >= |now|
    ensures now == Scanned(start)
  {
    if removed {
      if now != [] {
        assert now[1..i] == now[1..];
        NonZeroIsAll(now[1..]);
      }
    } else {
      assert now[..i] == now;
    }
  }
}
