/** What a net computes, path by path, and the same for nets whose nodes are numbers. */
module NetPaths {
  import opened NeuralNet
  import NetReduction

  // ---------------------------------------------------------------- incoming signals are linear

  /** Multiplying all weights by r multiplies what comes in by r. */
  lemma {:induction false} IncomingScales(a: map<Node, real>, cs: seq<Connection>, ds: seq<Connection>, r: real, y: nat)
    requires y <= |cs| == |ds| && forall i | 0 <= i < |cs| :: ds[i].source == cs[i].source && ds[i].weight == r * cs[i].weight
    ensures Incoming(a, ds, y) == r * Incoming(a, cs, y)
  {
    if y > 0 {
      IncomingScales(a, cs, ds, r, y - 1);
      var sum, w, x := Incoming(a, cs, y - 1), cs[y - 1].weight, ActivationIn(a, cs[y - 1].source);
      ScaledStep(r, sum, w, x);
    }
  }

  lemma {:induction false} ScaledStep(r: real, sum: real, w: real, x: real)
    ensures r * sum + Weighted(r * w, x) == r * (sum + Weighted(w, x))
  {
    assert (r * w) * x == r * (w * x);
  }

  /** The sum of the activations at the sources of the first y connections. */
  ghost function SourceSum(a: map<Node, real>, cs: seq<Connection>, y: nat): real
    requires y <= |cs|
  {
    if y == 0 then 0.0 else SourceSum(a, cs, y - 1) + ActivationIn(a, cs[y - 1].source)
  }

  /** With weights one it is the sum of the activations at the sources. */
  lemma {:induction false} IncomingOfOnes(a: map<Node, real>, cs: seq<Connection>, y: nat)
    requires y <= |cs| && forall i | 0 <= i < |cs| :: cs[i].weight == 1.0
    ensures Incoming(a, cs, y) == SourceSum(a, cs, y)
  {
    if y > 0 { IncomingOfOnes(a, cs, y - 1); }
  }

  // ---------------------------------------------------------------- paths

  type Path = seq<Connection>

  /** A path of connections from some input to n. */
  ghost predicate IsPath(g: Graph, p: Path, n: Node)
    decreases |p|
  {
    n in g.ins &&
    if p == [] then n.nodetype == Input
    else n.nodetype != Input && p[|p| - 1] in g.ins[n] && IsPath(g, p[..|p| - 1], p[|p| - 1].source)
  }

  /** Where a path to n starts. */
  ghost function StartOf(p: Path, n: Node): Node { if p == [] then n else p[0].source }

  /** The product of the weights on a path. */
  ghost function Gain(p: Path): real {
    if p == [] then 1.0 else p[|p| - 1].weight * Gain(p[..|p| - 1])
  }

  /** What the paths to n bring along. */
  ghost function Brought(ps: seq<Path>, given: map<Node, real>, n: Node): real
    requires forall p | p in ps :: StartOf(p, n) in given
  {
    if ps == [] then 0.0 else Gain(ps[0]) * given[StartOf(ps[0], n)] + Brought(ps[1..], given, n)
  }

  /** All paths from inputs to n. */
  ghost function Paths(g: Graph, n: Node): seq<Path>
    requires WellRanked(g) && n in g.ins
    decreases g.rank[n], |g.ins[n]| + 1
  {
    if n.nodetype == Input then [[]] else PathsOver(g, n, |g.ins[n]|)
  }

  /** Those whose last connection is one of the first k into n. */
  ghost function PathsOver(g: Graph, n: Node, k: nat): seq<Path>
    requires WellRanked(g) && n in g.ins && k <= |g.ins[n]|
    decreases g.rank[n], k
  {
    if k == 0 then []
    else
      InLink(g, n, k - 1);
      PathsOver(g, n, k - 1) + Extended(Paths(g, g.ins[n][k - 1].source), g.ins[n][k - 1])
  }

  ghost function Extended(ps: seq<Path>, c: Connection): (r: seq<Path>)
    ensures |r| == |ps| && forall i | 0 <= i < |ps| :: r[i] == ps[i] + [c]
  {
    seq(|ps|, i requires 0 <= i < |ps| => ps[i] + [c])
  }

  lemma {:induction false} ExtendedIsPath(g: Graph, p: Path, c: Connection, n: Node)
    requires n in g.ins && n.nodetype != Input && c in g.ins[n] && IsPath(g, p, c.source)
    ensures IsPath(g, p + [c], n)
  {
    assert (p + [c])[..|p|] == p;
  }

  /** Nothing else is listed. */
  lemma {:induction false} ListedIsPath(g: Graph, n: Node)
    requires WellRanked(g) && n in g.ins
    ensures forall p | p in Paths(g, n) :: IsPath(g, p, n)
    decreases g.rank[n], |g.ins[n]| + 1
  {
    if n.nodetype != Input { ListedOverIsPath(g, n, |g.ins[n]|); }
  }

  lemma {:induction false} ListedOverIsPath(g: Graph, n: Node, k: nat)
    requires WellRanked(g) && n in g.ins && k <= |g.ins[n]| && n.nodetype != Input
    ensures forall p | p in PathsOver(g, n, k) :: IsPath(g, p, n)
    decreases g.rank[n], k
  {
    if k > 0 {
      InLink(g, n, k - 1);
      var c := g.ins[n][k - 1];
      ListedOverIsPath(g, n, k - 1);
      ListedIsPath(g, c.source);
      forall p | p in PathsOver(g, n, k) ensures IsPath(g, p, n) {
        if p !in PathsOver(g, n, k - 1) {
          var qs := Paths(g, c.source);
          var i :| 0 <= i < |qs| && p == qs[i] + [c];
          ExtendedIsPath(g, qs[i], c, n);
        }
      }
    }
  }

  /** Every path is listed. */
  lemma {:induction false} PathIsListed(g: Graph, p: Path, n: Node)
    requires WellRanked(g) && n in g.ins && IsPath(g, p, n)
    ensures p in Paths(g, n)
    decreases |p|
  {
    if p != [] {
      var c, front := p[|p| - 1], p[..|p| - 1];
      var k :| 0 <= k < |g.ins[n]| && g.ins[n][k] == c;
      InLink(g, n, k);
      PathIsListed(g, front, c.source);
      PathOverIsListed(g, p, n, k, |g.ins[n]|);
    }
  }

  lemma {:induction false} PathOverIsListed(g: Graph, p: Path, n: Node, i: nat, k: nat)
    requires WellRanked(g) && n in g.ins && i < k <= |g.ins[n]| && p != [] && p[|p| - 1] == g.ins[n][i]
    requires g.ins[n][i].source in g.ins && p[..|p| - 1] in Paths(g, g.ins[n][i].source)
    ensures p in PathsOver(g, n, k)
    decreases k
  {
    InLink(g, n, k - 1);
    if i == k - 1 {
      var c, qs := g.ins[n][i], Paths(g, g.ins[n][i].source);
      var j :| 0 <= j < |qs| && qs[j] == p[..|p| - 1];
      assert p == qs[j] + [c];
      assert Extended(qs, c)[j] == p;
      assert PathsOver(g, n, k)[|PathsOver(g, n, k - 1)| + j] == p;
    } else {
      PathOverIsListed(g, p, n, i, k - 1);
    }
  }

  predicate NoneTwice<A(==)>(s: seq<A>) { forall i, j | 0 <= i < j < |s| :: s[i] != s[j] }

  /** No path is listed twice, where no connection is. */
  lemma {:induction false} NoPathTwice(g: Graph, n: Node)
    requires WellRanked(g) && n in g.ins && forall m | m in g.ins :: NoneTwice(g.ins[m])
    ensures NoneTwice(Paths(g, n))
    decreases g.rank[n], |g.ins[n]| + 1
  {
    if n.nodetype != Input { NoPathOverTwice(g, n, |g.ins[n]|); }
  }

  lemma {:induction false} NoPathOverTwice(g: Graph, n: Node, k: nat)
    requires WellRanked(g) && n in g.ins && k <= |g.ins[n]| && forall m | m in g.ins :: NoneTwice(g.ins[m])
    ensures NoneTwice(PathsOver(g, n, k))
    ensures forall p | p in PathsOver(g, n, k) :: p != [] && p[|p| - 1] in g.ins[n][..k]
    decreases g.rank[n], k
  {
    if k > 0 {
      InLink(g, n, k - 1);
      var c := g.ins[n][k - 1];
      var qs, ps := Paths(g, c.source), PathsOver(g, n, k - 1);
      NoPathOverTwice(g, n, k - 1);
      NoPathTwice(g, c.source);
      ExtendedNoneTwice(qs, c);
      ApartNoneTwice(ps, Extended(qs, c), g.ins[n][..k - 1], c);
      assert g.ins[n][..k] == g.ins[n][..k - 1] + [c];
    }
  }

  lemma {:induction false} ExtendedNoneTwice(ps: seq<Path>, c: Connection)
    requires NoneTwice(ps)
    ensures NoneTwice(Extended(ps, c))
  {
    var r := Extended(ps, c);
    forall i, j | 0 <= i < j < |r| ensures r[i] != r[j] {
      assert r[i][..|ps[i]|] == ps[i] && r[j][..|ps[j]|] == ps[j];
    }
  }

  lemma {:induction false} ApartNoneTwice(ps: seq<Path>, qs: seq<Path>, cs: seq<Connection>, c: Connection)
    requires NoneTwice(ps) && NoneTwice(qs) && c !in cs
    requires forall p | p in ps :: p != [] && p[|p| - 1] in cs
    requires forall q | q in qs :: q != [] && q[|q| - 1] == c
    ensures NoneTwice(ps + qs)
  {
    var r := ps + qs;
    forall i, j | 0 <= i < j < |r| ensures r[i] != r[j] {
      if i < |ps| <= j { assert r[i] in ps && r[j] in qs; }
    }
  }

  // ---------------------------------------------------------------- values are sums over paths

  lemma {:induction false} StartsAreGiven(g: Graph, given: map<Node, real>, p: Path, n: Node)
    requires IsPath(g, p, n) && g.ins.Keys <= given.Keys
    ensures StartOf(p, n) in given && StartOf(p, n).nodetype == Input
    decreases |p|
  {
    if p != [] {
      var front, m := p[..|p| - 1], p[|p| - 1].source;
      StartsAreGiven(g, given, front, m);
      assert StartOf(p, n) == StartOf(front, m);
    }
  }

  ghost predicate Starts(ps: seq<Path>, given: map<Node, real>, n: Node) { forall p | p in ps :: StartOf(p, n) in given }

  lemma {:induction false} AllStart(g: Graph, given: map<Node, real>, n: Node, k: nat)
    requires WellRanked(g) && n in g.ins && g.ins.Keys <= given.Keys && k <= |g.ins[n]|
    ensures Starts(Paths(g, n), given, n) && (n.nodetype != Input ==> Starts(PathsOver(g, n, k), given, n))
  {
    ListedIsPath(g, n);
    forall p | p in Paths(g, n) ensures StartOf(p, n) in given { StartsAreGiven(g, given, p, n); }
    if n.nodetype != Input {
      ListedOverIsPath(g, n, k);
      forall p | p in PathsOver(g, n, k) ensures StartOf(p, n) in given { StartsAreGiven(g, given, p, n); }
    }
  }

  lemma {:induction false} BroughtBoth(ps: seq<Path>, qs: seq<Path>, given: map<Node, real>, n: Node)
    requires Starts(ps, given, n) && Starts(qs, given, n)
    ensures Starts(ps + qs, given, n) && Brought(ps + qs, given, n) == Brought(ps, given, n) + Brought(qs, given, n)
  {
    if ps == [] {
      assert ps + qs == qs;
    } else {
      assert (ps + qs)[0] == ps[0] && (ps + qs)[1..] == ps[1..] + qs;
      BroughtBoth(ps[1..], qs, given, n);
    }
  }

  lemma {:induction false} BroughtOn(ps: seq<Path>, c: Connection, given: map<Node, real>, n: Node)
    requires Starts(ps, given, c.source)
    ensures Starts(Extended(ps, c), given, n)
    ensures Brought(Extended(ps, c), given, n) == Weighted(c.weight, Brought(ps, given, c.source))
  {
    var r := Extended(ps, c);
    forall p | p in r ensures StartOf(p, n) in given {
      var i :| 0 <= i < |r| && r[i] == p;
      assert ps[i] in ps && StartOf(p, n) == StartOf(ps[i], c.source);
    }
    if ps != [] {
      BroughtOn(ps[1..], c, given, n);
      assert r[1..] == Extended(ps[1..], c) && r[0] == ps[0] + [c];
      GainOn(ps[0], c);
      assert StartOf(r[0], n) == StartOf(ps[0], c.source);
      Distribute(c.weight, Gain(ps[0]), given[StartOf(ps[0], c.source)], Brought(ps[1..], given, c.source),
                 Gain(r[0]), Brought(r[1..], given, n));
    }
  }

  lemma {:induction false} GainOn(p: Path, c: Connection)
    ensures Gain(p + [c]) == c.weight * Gain(p)
  {
    assert (p + [c])[..|p|] == p;
  }

  lemma {:induction false} Distribute(w: real, x: real, y: real, z: real, gain: real, rest: real)
    requires gain == w * x && rest == Weighted(w, z)
    ensures gain * y + rest == Weighted(w, x * y + z)
  {
    assert (w * x) * y == w * (x * y);
    assert w * (x * y) + w * z == w * (x * y + z);
  }

  /** With no activation function the value of a node is the sum over all paths from
      inputs to it: on each the given input times the product of the weights. */
  lemma {:induction false} ValueIsPathSum(g: Graph, given: map<Node, real>, act: real -> real, n: Node)
    requires WellRanked(g) && n in g.ins && g.ins.Keys <= given.Keys && Identity(act)
    ensures Starts(Paths(g, n), given, n) && Value(g, given, act, n) == Brought(Paths(g, n), given, n)
    decreases g.rank[n], |g.ins[n]| + 1
  {
    AllStart(g, given, n, 0);
    if n.nodetype == Input {
      assert Brought([[]], given, n) == Gain([]) * given[n] + Brought([], given, n);
    } else {
      WeightedSumIsPathSum(g, given, act, n, |g.ins[n]|);
    }
  }

  lemma {:induction false} WeightedSumIsPathSum(g: Graph, given: map<Node, real>, act: real -> real, n: Node, k: nat)
    requires WellRanked(g) && n in g.ins && g.ins.Keys <= given.Keys && Identity(act) && k <= |g.ins[n]| && n.nodetype != Input
    ensures Starts(PathsOver(g, n, k), given, n) && WeightedSum(g, given, act, n, k) == Brought(PathsOver(g, n, k), given, n)
    decreases g.rank[n], k
  {
    AllStart(g, given, n, k);
    if k > 0 {
      InLink(g, n, k - 1);
      var c := g.ins[n][k - 1];
      WeightedSumIsPathSum(g, given, act, n, k - 1);
      ValueIsPathSum(g, given, act, c.source);
      BroughtOver(PathsOver(g, n, k - 1), Paths(g, c.source), c, given, n);
    }
  }

  lemma {:induction false} BroughtOver(ps: seq<Path>, qs: seq<Path>, c: Connection, given: map<Node, real>, n: Node)
    requires Starts(ps, given, n) && Starts(qs, given, c.source)
    ensures Starts(ps + Extended(qs, c), given, n)
    ensures Brought(ps + Extended(qs, c), given, n) == Brought(ps, given, n) + Weighted(c.weight, Brought(qs, given, c.source))
  {
    var rs, sum := Extended(qs, c), Brought(qs, given, c.source);
    BroughtOn(qs, c, given, n);
    BroughtBoth(ps, rs, given, n);
    assert Brought(rs, given, n) == Weighted(c.weight, sum);
  }

  /** A run without activation function, where only inputs have no connections into them. */
  method RunLinear(net: Ann, ghost g: Graph) returns (depth: nat)
    requires net.Valid(g) && InputsFree(g) && FeedForward(g) && Identity(net.activationFn)
    modifies g.ins.Keys`counter, g.ins.Keys`incoming, g.ins.Keys`activation
    ensures forall o | o in net.outputs ::
              Starts(Paths(g, o), old(net.Activations(g)), o) && o.activation == Brought(Paths(g, o), old(net.Activations(g)), o)
  {
    ghost var given := net.Activations(g);
    depth := net.Run(g);
    forall o | o in net.outputs ensures Starts(Paths(g, o), given, o) && o.activation == Brought(Paths(g, o), given, o) {
      ValueIsPathSum(g, given, net.activationFn, o);
    }
  }

  // ---------------------------------------------------------------- nets of numbers

  /** The net of numbers is the graph: number n stands for the node place[n]. */
  ghost predicate Depicts(net: NetReduction.Net, g: Graph, place: map<int, Node>) {
    && WellRanked(g)
    && (forall n | n in place :: n in net.nodes) && Placed(net.nodes, place) && (forall n :: n in net.ins <==> n in net.nodes)
    && (forall m, n | m in place && n in place && place[m] == place[n] :: m == n)
    && forall n | n in place :: Depicted(net, g, place, n)
  }

  ghost predicate Placed(ns: seq<int>, place: map<int, Node>) { forall i | 0 <= i < |ns| :: ns[i] in place }

  ghost predicate Depicted(net: NetReduction.Net, g: Graph, place: map<int, Node>, n: int)
    requires n in place
  {
    && place[n] in g.ins && n in net.ins && (n in net.inputs <==> place[n].nodetype == Input)
    && Carries(net.ins[n], g.ins[place[n]], place)
  }

  /** The connections join the same nodes with the same weights, in the same order. */
  ghost predicate Carries(conns: seq<NetReduction.Conn>, cs: seq<Connection>, place: map<int, Node>) {
    && |conns| == |cs|
    && forall i | 0 <= i < |cs| :: conns[i].src in place && cs[i].source == place[conns[i].src] && cs[i].weight == conns[i].weight
  }

  ghost predicate SameActivations(x: NetReduction.Activations, a: map<Node, real>, place: map<int, Node>) {
    forall n | n in place :: place[n] in a && a[place[n]] == x(n)
  }

  lemma {:induction false} SignalOn(conns: seq<NetReduction.Conn>, c: NetReduction.Conn, x: NetReduction.Activations)
    ensures NetReduction.Signal(conns + [c], x) == NetReduction.Signal(conns, x) + NetReduction.Times(c.weight, x(c.src))
  {
    if conns == [] {
      assert conns + [c] == [c] && [c][1..] == [];
    } else {
      assert (conns + [c])[1..] == conns[1..] + [c];
      SignalOn(conns[1..], c, x);
    }
  }

  lemma {:induction false} SignalIsIncoming(conns: seq<NetReduction.Conn>, cs: seq<Connection>, place: map<int, Node>,
                                            x: NetReduction.Activations, a: map<Node, real>, y: nat)
    requires Carries(conns, cs, place) && SameActivations(x, a, place) && y <= |cs|
    ensures NetReduction.Signal(conns[..y], x) == Incoming(a, cs, y)
  {
    if y > 0 {
      SignalIsIncoming(conns, cs, place, x, a, y - 1);
      assert conns[..y] == conns[..y - 1] + [conns[y - 1]];
      SignalOn(conns[..y - 1], conns[y - 1], x);
    }
  }

  ghost function NodesAt(ns: seq<int>, place: map<int, Node>): (r: seq<Node>)
    requires Placed(ns, place)
    ensures |r| == |ns| && forall i | 0 <= i < |ns| :: r[i] == place[ns[i]]
  {
    seq(|ns|, i requires 0 <= i < |ns| => place[ns[i]])
  }

  lemma {:induction false} SameVisit(net: NetReduction.Net, g: Graph, place: map<int, Node>, f: real -> real,
                                     x: NetReduction.Activations, a: map<Node, real>, n: int)
    requires Depicts(net, g, place) && SameActivations(x, a, place) && n in place
    ensures place[n] in g.ins && SameActivations(NetReduction.Activated(net, f, x, n), Visited(g, f, a, place[n]), place)
  {
    assert Depicted(net, g, place, n);
    var conns, cs := net.ins[n], g.ins[place[n]];
    SignalIsIncoming(conns, cs, place, x, a, |cs|);
    assert conns[..|cs|] == conns;
  }

  lemma {:induction false} PlacedInGraph(net: NetReduction.Net, g: Graph, place: map<int, Node>, ns: seq<int>)
    requires Depicts(net, g, place) && Placed(ns, place)
    ensures forall m | m in NodesAt(ns, place) :: m in g.ins
  {
    forall m | m in NodesAt(ns, place) ensures m in g.ins {
      var i :| 0 <= i < |ns| && NodesAt(ns, place)[i] == m;
      assert Depicted(net, g, place, ns[i]);
    }
  }

  lemma {:induction false} SameVisits(net: NetReduction.Net, g: Graph, place: map<int, Node>, f: real -> real,
                                      x: NetReduction.Activations, a: map<Node, real>, ns: seq<int>)
    requires Depicts(net, g, place) && SameActivations(x, a, place) && Placed(ns, place)
    ensures forall m | m in NodesAt(ns, place) :: m in g.ins
    ensures SameActivations(NetReduction.ActivatedAll(net, f, x, ns), Passed(g, f, a, NodesAt(ns, place)), place)
    decreases |ns|
  {
    PlacedInGraph(net, g, place, ns);
    if ns != [] {
      var front, n := ns[..|ns| - 1], ns[|ns| - 1];
      SameVisits(net, g, place, f, x, a, front);
      ActivatedLast(net, f, x, front, n);
      assert ns == front + [n] && NodesAt(ns, place)[..|ns| - 1] == NodesAt(front, place);
      SameVisit(net, g, place, f, NetReduction.ActivatedAll(net, f, x, front), Passed(g, f, a, NodesAt(front, place)), n);
    }
  }

  lemma {:induction false} ActivatedLast(net: NetReduction.Net, f: real -> real, x: NetReduction.Activations, ns: seq<int>, n: int)
    ensures NetReduction.ActivatedAll(net, f, x, ns + [n]) == NetReduction.Activated(net, f, NetReduction.ActivatedAll(net, f, x, ns), n)
    decreases |ns|
  {
    if ns == [] {
      assert ns + [n] == [n] && [n][1..] == [];
    } else {
      assert (ns + [n])[1..] == ns[1..] + [n] && (ns + [n])[0] == ns[0];
      ActivatedLast(net, f, NetReduction.Activated(net, f, x, ns[0]), ns[1..], n);
    }
  }

  /** Passes over the net of numbers are those over the net of nodes. */
  lemma {:induction false} SamePasses(net: NetReduction.Net, g: Graph, place: map<int, Node>, f: real -> real,
                                      x: NetReduction.Activations, a: map<Node, real>, k: nat)
    requires Depicts(net, g, place) && SameActivations(x, a, place)
    ensures forall m | m in NodesAt(net.nodes, place) :: m in g.ins
    ensures SameActivations(NetReduction.Propagated(net, f, x, k), Passes(g, f, a, NodesAt(net.nodes, place), k), place)
  {
    SameVisits(net, g, place, f, x, a, net.nodes);
    if k > 0 {
      SamePasses(net, g, place, f, x, a, k - 1);
      PropagatedLast(net, f, x, k - 1);
      SameVisits(net, g, place, f, NetReduction.Propagated(net, f, x, k - 1), Passes(g, f, a, NodesAt(net.nodes, place), k - 1), net.nodes);
    }
  }

  lemma {:induction false} PropagatedLast(net: NetReduction.Net, f: real -> real, x: NetReduction.Activations, k: nat)
    ensures NetReduction.Propagated(net, f, x, k + 1) == NetReduction.ActivatedAll(net, f, NetReduction.Propagated(net, f, x, k), net.nodes)
    decreases k
  {
    if k > 0 { PropagatedLast(net, f, NetReduction.ActivatedAll(net, f, x, net.nodes), k - 1); }
  }
}
