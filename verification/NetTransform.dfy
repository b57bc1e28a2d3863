/** Writing a net of nodes and connections as a tree, and building a net from one. */
module NetTransforms {
  import opened Trees
  import opened NetCodec
  import NN = NeuralNet

  /** The connections are those of the wires. */
  ghost predicate Wired(cs: seq<NN.Connection>, ws: seq<Wire>, place: map<int, NN.Node>) {
    |cs| == |ws| &&
    forall i | 0 <= i < |ws| :: ws[i].source in place && cs[i].source == place[ws[i].source] && cs[i].weight == ws[i].weight
  }

  /** The node with tag x is what the net says. */
  ghost predicate Pictured(place: map<int, NN.Node>, net: Net, x: int)
    requires x in place && x in net.ins
    reads place.Values`inConnections
  {
    && place[x].tag == x && (place[x].nodetype == NN.Input <==> x in net.inputs)
    && Wired(place[x].inConnections, net.ins[x], place)
  }

  /** The nodes, found by their tags, and their connections picture the net. */
  ghost predicate Pictures(place: map<int, NN.Node>, net: Net)
    reads place.Values`inConnections
  {
    && place.Keys == net.ins.Keys && net.inputs <= net.ins.Keys
    && forall x {:trigger Pictured(place, net, x)} | x in place :: Pictured(place, net, x)
  }

  /** The nodes of the net are those found by their tags. */
  ghost predicate Catalogued(nn: NN.Ann, place: map<int, NN.Node>)
    reads nn
  {
    && (forall n | n in nn.nodes :: n.tag in place && place[n.tag] == n)
    && (forall x | x in place :: place[x] in nn.nodes)
  }

  // ---------------------------------------------------------------- encode_node, encode_ann

  ghost predicate Marked(place: map<int, NN.Node>, seen: set<int>)
    reads place.Values`visited
  {
    forall x | x in place :: place[x].visited <==> x in seen
  }

  method EncodeTree(n: NN.Node, ghost place: map<int, NN.Node>, ghost net: Net, ghost seen: set<int>) returns (t: NetTree)
    requires Closed(net) && Pictures(place, net) && seen <= net.ins.Keys && Marked(place, seen)
    requires n.tag in place && place[n.tag] == n
    modifies place.Values`visited
    ensures t == EncodeNode(net, seen, n.tag).t && Marked(place, EncodeNode(net, seen, n.tag).seen)
    decreases |net.ins.Keys - seen|, 0
  {
    assert Pictured(place, net, n.tag);
    t := Node(if n.nodetype == NN.Input then InputTag(n.tag) else NodeTag(n.tag), []);
    if n.visited { return; }
    n.visited := true;
    forall x | x in place ensures place[x].visited <==> x in seen + {n.tag} {
      assert Pictured(place, net, x);
    }
    if n.nodetype == NN.Input { return; }
    Fewer(net.ins.Keys, seen, n.tag);
    var kids := EncodeConnections(n, place, net, seen + {n.tag});
    t := Node(t.op, kids);
  }

  /** The children of a node: each source comes in front of the sources before
      it, each weight behind everything. */
  method EncodeConnections(n: NN.Node, ghost place: map<int, NN.Node>, ghost net: Net, ghost seen: set<int>)
    returns (kids: seq<NetTree>)
    requires Closed(net) && Pictures(place, net) && seen <= net.ins.Keys && Marked(place, seen)
    requires n.tag in place && place[n.tag] == n
    modifies place.Values`visited
    ensures var all := EncodeSources(net, seen, net.ins[n.tag]);
      kids == Reverse(all.ts) + Weights(net.ins[n.tag]) && Marked(place, all.seen)
    decreases |net.ins.Keys - seen|, |n.inConnections| + 1
  {
    ghost var ws, now := net.ins[n.tag], seen;
    ghost var all := EncodeSources(net, seen, ws);
    assert Pictured(place, net, n.tag);
    AtFirst(net, seen, ws, all);
    kids := [];
    for i := 0 to |n.inConnections|
      invariant seen <= now <= net.ins.Keys && Marked(place, now)
      invariant Remaining(net, now, ws, i, all) && Kids(all.ts, ws, i, kids)
    {
      SourceAt(place, net, n.tag, i);
      OneSource(net, now, ws, i, all);
      SetsShrink(net.ins.Keys - now, net.ins.Keys - seen);
      var sub := EncodeTree(n.inConnections[i].source, place, net, now);
      KidsGrow(all.ts, ws, i, kids, sub);
      kids := [sub] + kids + [Node(Weight(n.inConnections[i].weight), [])];
      now := EncodeNode(net, now, ws[i].source).seen;
    }
    AtLast(net, now, ws, all);
  }

  /** The source of a connection is the node that its wire names. */
  lemma {:induction false} SourceAt(place: map<int, NN.Node>, net: Net, x: int, i: nat)
    requires Pictures(place, net) && x in place && i < |net.ins[x]|
    ensures i < |place[x].inConnections|
    ensures var c, w := place[x].inConnections[i], net.ins[x][i];
      c.weight == w.weight && c.source.tag == w.source && w.source in place && place[w.source] == c.source
  {
    assert Pictured(place, net, x);
    assert Pictured(place, net, net.ins[x][i].source);
  }

  /** The children after i wires. */
  ghost predicate Kids(ts: seq<NetTree>, ws: seq<Wire>, i: nat, kids: seq<NetTree>) {
    i <= |ts| == |ws| && kids == Reverse(ts[..i]) + Weights(ws[..i])
  }

  lemma {:induction false} AtFirst(net: Net, seen: set<int>, ws: seq<Wire>, all: WrittenAll)
    requires Closed(net) && seen <= net.ins.Keys && SourcesIn(ws, net.ins.Keys) && all == EncodeSources(net, seen, ws)
    ensures Remaining(net, seen, ws, 0, all) && Kids(all.ts, ws, 0, [])
  {
    assert ws[0..] == ws && all.ts[0..] == all.ts;
    assert all.ts[..0] == [] && ws[..0] == [];
  }

  lemma {:induction false} AtLast(net: Net, now: set<int>, ws: seq<Wire>, all: WrittenAll)
    requires Closed(net) && now <= net.ins.Keys && SourcesIn(ws, net.ins.Keys) && Remaining(net, now, ws, |ws|, all)
    ensures all.seen == now && all.ts[..|ws|] == all.ts && ws[..|ws|] == ws
  {
    assert ws[|ws|..] == [];
  }

  /** From the i-th wire on, writing goes on to what it comes to in the end. */
  ghost predicate Remaining(net: Net, now: set<int>, ws: seq<Wire>, i: nat, all: WrittenAll)
    requires Closed(net) && now <= net.ins.Keys && SourcesIn(ws, net.ins.Keys)
  {
    && i <= |ws| == |all.ts|
    && EncodeSources(net, now, ws[i..]) == WrittenAll(all.ts[i..], all.seen)
  }

  lemma {:induction false} OneSource(net: Net, now: set<int>, ws: seq<Wire>, i: nat, all: WrittenAll)
    requires Closed(net) && now <= net.ins.Keys && SourcesIn(ws, net.ins.Keys)
    requires Remaining(net, now, ws, i, all) && i < |ws|
    ensures var first := EncodeNode(net, now, ws[i].source);
      first.t == all.ts[i] && Remaining(net, first.seen, ws, i + 1, all)
  {
    assert ws[i..][0] == ws[i] && ws[i..][1..] == ws[i + 1..];
    assert all.ts[i..][0] == all.ts[i] && all.ts[i..][1..] == all.ts[i + 1..];
  }

  lemma {:induction false} KidsGrow(ts: seq<NetTree>, ws: seq<Wire>, i: nat, kids: seq<NetTree>, sub: NetTree)
    requires Kids(ts, ws, i, kids) && i < |ts| && sub == ts[i]
    ensures Kids(ts, ws, i + 1, [sub] + kids + [Node(Weight(ws[i].weight), [])])
  {
    assert Reverse(ts[..i + 1]) == [sub] + Reverse(ts[..i]);
    assert Weights(ws[..i + 1]) == Weights(ws[..i]) + [Node(Weight(ws[i].weight), [])];
  }

  /** The tags of some nodes. */
  function TagsOf(ns: seq<NN.Node>): (ts: seq<int>)
    ensures |ts| == |ns| && forall i | 0 <= i < |ns| :: ts[i] == ns[i].tag
  {
    seq(|ns|, i requires 0 <= i < |ns| => ns[i].tag)
  }

  method EncodeAnn(nn: NN.Ann, ghost place: map<int, NN.Node>, ghost net: Net) returns (t: NetTree)
    requires Closed(net) && Pictures(place, net) && FreeOutputs(net, TagsOf(nn.outputs))
    requires Catalogued(nn, place) && forall n | n in nn.outputs :: n in nn.nodes
    modifies place.Values`visited
    ensures t == EncodeNet(net, TagsOf(nn.outputs))
  {
    ResetVisited(nn, place, net);
    var kids := EncodeAllOutputs(nn, place, net, EncodeOutputs(net, TagsOf(nn.outputs)));
    t := Node(Root, kids);
  }

  method EncodeAllOutputs(nn: NN.Ann, ghost place: map<int, NN.Node>, ghost net: Net, ghost all: WrittenAll)
    returns (kids: seq<NetTree>)
    requires Closed(net) && Pictures(place, net) && FreeOutputs(net, TagsOf(nn.outputs))
    requires Catalogued(nn, place) && forall n | n in nn.outputs :: n in nn.nodes
    requires Marked(place, {}) && all == EncodeOutputs(net, TagsOf(nn.outputs))
    modifies place.Values`visited
    ensures kids == Reverse(all.ts)
  {
    ghost var now: set<int> := {};
    ghost var ws := AsWires(TagsOf(nn.outputs));
    kids := [];
    NoneYet(place, net, ws, all);
    for i := 0 to |nn.outputs|
      invariant Halfway(place, net, now, ws, all, i, kids)
    {
      kids, now := EncodeOutput(nn, place, net, now, ws, all, i, kids);
    }
    AllDone(place, net, now, ws, all, kids);
  }

  lemma {:induction false} NoneYet(place: map<int, NN.Node>, net: Net, ws: seq<Wire>, all: WrittenAll)
    requires Closed(net) && SourcesIn(ws, net.ins.Keys) && Marked(place, {}) && all == EncodeSources(net, {}, ws)
    ensures Halfway(place, net, {}, ws, all, 0, [])
  {
    AtFirst(net, {}, ws, all);
  }

  lemma {:induction false} AllDone(place: map<int, NN.Node>, net: Net, now: set<int>, ws: seq<Wire>, all: WrittenAll, kids: seq<NetTree>)
    requires Closed(net) && SourcesIn(ws, net.ins.Keys) && Halfway(place, net, now, ws, all, |ws|, kids)
    ensures kids == Reverse(all.ts)
  {
    AtLast(net, now, ws, all);
  }

  /** Puts the tree of the i-th output in front of those before it. */
  method EncodeOutput(nn: NN.Ann, ghost place: map<int, NN.Node>, ghost net: Net, ghost now: set<int>,
                      ghost ws: seq<Wire>, ghost all: WrittenAll, i: nat, kids: seq<NetTree>)
    returns (more: seq<NetTree>, ghost later: set<int>)
    requires Closed(net) && Pictures(place, net) && FreeOutputs(net, TagsOf(nn.outputs))
    requires Catalogued(nn, place) && forall n | n in nn.outputs :: n in nn.nodes
    requires i < |nn.outputs| && ws == AsWires(TagsOf(nn.outputs)) && Halfway(place, net, now, ws, all, i, kids)
    modifies place.Values`visited
    ensures Halfway(place, net, later, ws, all, i + 1, more)
  {
    assert nn.outputs[i] in nn.nodes;
    OneSource(net, now, ws, i, all);
    later := EncodeNode(net, now, nn.outputs[i].tag).seen;
    var sub := EncodeTree(nn.outputs[i], place, net, now);
    FrontsGrow(all.ts, i, kids, sub);
    more := [sub] + kids;
  }

  /** The first i outputs are encoded and marked. */
  ghost predicate Halfway(place: map<int, NN.Node>, net: Net, now: set<int>, ws: seq<Wire>, all: WrittenAll, i: nat, kids: seq<NetTree>)
    requires Closed(net) && SourcesIn(ws, net.ins.Keys)
    reads place.Values`visited
  {
    now <= net.ins.Keys && Marked(place, now) && Remaining(net, now, ws, i, all) && Fronts(all.ts, i, kids)
  }

  ghost predicate Fronts(ts: seq<NetTree>, i: nat, kids: seq<NetTree>) { i <= |ts| && kids == Reverse(ts[..i]) }

  lemma {:induction false} FrontsGrow(ts: seq<NetTree>, i: nat, kids: seq<NetTree>, sub: NetTree)
    requires i < |ts| && Fronts(ts, i, kids) && sub == ts[i]
    ensures Fronts(ts, i + 1, [sub] + kids)
  {
    assert Reverse(ts[..i + 1]) == [sub] + Reverse(ts[..i]);
  }

  method ResetVisited(nn: NN.Ann, ghost place: map<int, NN.Node>, ghost net: Net)
    requires Pictures(place, net)
    requires Catalogued(nn, place)
    modifies place.Values`visited
    ensures Marked(place, {})
  {
    for i := 0 to |nn.nodes|
      invariant forall j | 0 <= j < i :: !nn.nodes[j].visited
    {
      assert nn.nodes[i] in nn.nodes;
      nn.nodes[i].visited := false;
    }
    forall x | x in place ensures !place[x].visited {
      assert place[x] in nn.nodes;
    }
  }

  // ---------------------------------------------------------------- decodify_tree

  /** The wires into x, none if there is no such node. */
  function WiresInto(net: Net, x: int): seq<Wire> { if x in net.ins then net.ins[x] else [] }

  /** A net with one more node. */
  ghost function WithNode(net: Net, tag: int, input: bool): Net {
    Net(net.ins[tag := []], if input then net.inputs + {tag} else net.inputs)
  }

  /** A net with one more wire into d. */
  ghost function WithWire(net: Net, d: int, w: Wire): Net
    requires d in net.ins
  {
    net.(ins := net.ins[d := net.ins[d] + [w]])
  }

  /** The tree says of every node what it is. */
  ghost predicate Kinds(vs: set<Vertex>, kinds: set<int>) {
    forall v | v in vs :: IsTag(v) && (v.InputTag? <==> v.tag in kinds)
  }

  /** Of each node, the net knows what kind it is. */
  ghost predicate Sorted(net: Net, kinds: set<int>) {
    forall x | x in net.ins :: x in net.inputs <==> x in kinds
  }

  /** The nodes of vs have been added, where they were missing, but no wires. */
  ghost predicate Introduced(before: Net, after: Net, vs: set<Vertex>) {
    && (forall x :: x in after.ins <==> x in before.ins || NodeTag(x) in vs || InputTag(x) in vs)
    && after.inputs <= after.ins.Keys
  }

  /** Everything that t says has been added. */
  ghost predicate Heard(before: Net, after: Net, t: NetTree)
    requires WellFormed(t)
  {
    Introduced(before, after, Tags(t)) && forall x :: WiresInto(after, x) == WiresInto(before, x) + Told(t, x)
  }

  /** Everything that the trees say has been added. */
  ghost predicate HeardAll(before: Net, after: Net, ts: seq<NetTree>)
    requires SourcesWellFormed(ts)
  {
    Introduced(before, after, TagsAll(ts)) && forall x :: WiresInto(after, x) == WiresInto(before, x) + ToldAll(ts, x)
  }

  lemma {:induction false} HeardOneMore(before: Net, mid: Net, after: Net, ts: seq<NetTree>, t: NetTree)
    requires AllTags(ts) && SourcesWellFormed(ts) && WellFormed(t) && IsTag(t.op)
    requires HeardAll(before, mid, ts) && Heard(mid, after, t)
    ensures SourcesWellFormed(ts + [t]) && AllTags(ts + [t]) && HeardAll(before, after, ts + [t])
  {
    OneMoreTags(ts, t, 0);
    forall x ensures WiresInto(after, x) == WiresInto(before, x) + ToldAll(ts + [t], x) {
      OneMoreTags(ts, t, x);
      Associate(WiresInto(before, x), ToldAll(ts, x), Told(t, x));
    }
  }

  lemma {:induction false} OneMoreTags(ts: seq<NetTree>, t: NetTree, x: int)
    requires AllTags(ts) && SourcesWellFormed(ts) && WellFormed(t) && IsTag(t.op)
    ensures SourcesWellFormed(ts + [t]) && AllTags(ts + [t])
    ensures ToldAll(ts + [t], x) == ToldAll(ts, x) + Told(t, x) && TagsAll(ts + [t]) == TagsAll(ts) + Tags(t)
  {
    OneTells(t, x);
    ToldConcat(ts, [t], x);
  }

  lemma {:induction false} Associate<A>(a: seq<A>, b: seq<A>, c: seq<A>)
    ensures a + (b + c) == a + b + c
  {
  }

  /** Everything that t says has been added, but for its own root. */
  ghost predicate HeardBelow(before: Net, after: Net, t: NetTree)
    requires WellFormed(t)
  {
    Introduced(before, after, TagsAll(t.kids)) && forall x :: WiresInto(after, x) == WiresInto(before, x) + Told(t, x)
  }

  lemma {:induction false} ChildKinds(t: NetTree, kinds: set<int>)
    requires WellFormed(t) && Kinds(Tags(t), kinds)
    ensures Kinds(TagsAll(t.kids), kinds) && Kinds({t.op}, kinds)
  {
  }

  lemma {:induction false} HeardChild(before: Net, mid: Net, after: Net, t: NetTree)
    requires WellFormed(t) && Introduced(before, mid, {t.op}) && forall x :: WiresInto(mid, x) == WiresInto(before, x)
    requires if t.op.NodeTag? then HeardBelow(mid, after, t) else after == mid
    ensures Heard(before, after, t)
  {
    if t.op.InputTag? {
      assert TagsAll(t.kids) == {} && WiresOf(t) == [];
      assert forall x :: Told(t, x) == [];
    }
  }

  lemma {:induction false} NothingHeard(net: Net)
    requires net.inputs <= net.ins.Keys
    ensures HeardAll(net, net, [])
  {
  }

  /** The nodes of the first children. */
  ghost predicate Found(ts: seq<NetTree>, sources: seq<NN.Node>, place: map<int, NN.Node>) {
    && |sources| <= Sources(ts)
    && forall j | 0 <= j < |sources| ::
      sources[j].tag == ts[j].op.tag && sources[j].tag in place && place[sources[j].tag] == sources[j]
  }

  lemma {:induction false} FoundNext(ts: seq<NetTree>, sources: seq<NN.Node>, was: map<int, NN.Node>,
                                     place: map<int, NN.Node>, n: NN.Node)
    requires Found(ts, sources, was) && |sources| < Sources(ts) && forall x | x in was :: x in place && place[x] == was[x]
    requires n.tag == ts[|sources|].op.tag && n.tag in place && place[n.tag] == n
    ensures Found(ts, sources + [n], place)
  {
  }

  /** What the first k children say has been added. */
  ghost predicate HeardFirst(before: Net, after: Net, ts: seq<NetTree>, k: nat) {
    k <= Sources(ts) && SourcesWellFormed(ts[..k]) && HeardAll(before, after, ts[..k])
  }

  lemma {:induction false} HeardNext(before: Net, mid: Net, after: Net, ts: seq<NetTree>, k: nat)
    requires SourcesWellFormed(ts) && k < Sources(ts) && HeardFirst(before, mid, ts, k) && Heard(mid, after, ts[k])
    ensures HeardFirst(before, after, ts, k + 1)
  {
    assert AllTags(ts[..k]);
    HeardOneMore(before, mid, after, ts[..k], ts[k]);
    assert ts[..k] + [ts[k]] == ts[..k + 1];
  }

  lemma {:induction false} SourceKinds(ts: seq<NetTree>, k: nat, kinds: set<int>)
    requires SourcesWellFormed(ts) && k < Sources(ts) && Kinds(TagsAll(ts), kinds)
    ensures WellFormed(ts[k]) && Kinds(Tags(ts[k]), kinds) && AllTags(ts[..k])
  {
    SourceTags(ts, k);
  }

  lemma {:induction false} SourceTags(ts: seq<NetTree>, k: nat)
    requires SourcesWellFormed(ts) && k < Sources(ts)
    ensures Tags(ts[k]) <= TagsAll(ts)
  {
    if k > 0 {
      RestWellFormed(ts);
      SourceTags(ts[1..], k - 1);
    }
  }

  lemma {:induction false} HeardWeights(before: Net, mid: Net, after: Net, t: NetTree, k: nat)
    requires WellFormed(t) && k == Sources(t.kids) && HeardFirst(before, mid, t.kids, k)
    requires WeightsAdded(mid, after, t, |WiresOf(t)|)
    ensures HeardBelow(before, after, t)
  {
    forall x ensures WiresInto(after, x) == WiresInto(before, x) + Told(t, x) {
      ToldStops(t.kids, k, x);
      assert WiresOf(t)[..|WiresOf(t)|] == WiresOf(t);
      Associate(WiresInto(before, x), ToldAll(t.kids, x), if x == t.op.tag then WiresOf(t) else []);
    }
    ToldStops(t.kids, k, 0);
  }

  /** The first j wires into the root of t have been added. */
  ghost predicate WeightsAdded(before: Net, after: Net, t: NetTree, j: nat)
    requires WellFormed(t)
  {
    && j <= |WiresOf(t)| && after.ins.Keys == before.ins.Keys && after.inputs == before.inputs
    && forall x :: WiresInto(after, x) == WiresInto(before, x) + if x == t.op.tag then WiresOf(t)[..j] else []
  }

  lemma {:induction false} OneWeight(before: Net, mid: Net, t: NetTree, j: nat)
    requires WellFormed(t) && WeightsAdded(before, mid, t, j) && j < |WiresOf(t)| && t.op.tag in mid.ins
    ensures WeightsAdded(before, WithWire(mid, t.op.tag, WiresOf(t)[j]), t, j + 1)
  {
    var ws := WiresOf(t);
    assert ws[..j] + [ws[j]] == ws[..j + 1];
  }

  /** The j-th weight belongs to the j-th source from the end. */
  lemma {:induction false} WireOfWeight(t: NetTree, sources: seq<NN.Node>, place: map<int, NN.Node>, i: nat, count: int)
    requires WellFormed(t) && |sources| == Sources(t.kids) && Found(t.kids, sources, place)
    requires |sources| <= i < |t.kids| && count == 2 * |sources| - 1 - i
    ensures 0 <= count < |sources| && t.kids[i].op.Weight? && i - |sources| < |WiresOf(t)|
    ensures WiresOf(t)[i - |sources|] == Wire(sources[count].tag, t.kids[i].op.w)
    ensures sources[count].tag in place && place[sources[count].tag] == sources[count]
  {
    assert count == |sources| - 1 - (i - |sources|);
  }

  lemma {:induction false} ToldStops(ts: seq<NetTree>, k: nat, x: int)
    requires SourcesWellFormed(ts) && k == Sources(ts)
    ensures SourcesWellFormed(ts[..k]) && ToldAll(ts[..k], x) == ToldAll(ts, x) && TagsAll(ts[..k]) == TagsAll(ts)
  {
    assert AllTags(ts[..k]);
    assert ts == ts[..k] + ts[k..];
    assert Sources(ts[k..]) == 0;
    ToldConcat(ts[..k], ts[k..], x);
    assert ToldAll(ts[..k], x) + [] == ToldAll(ts[..k], x);
  }

  function NoNet(): Net { Net(map[], {}) }

  lemma {:induction false} AllSources(ts: seq<NetTree>)
    requires AllTags(ts)
    ensures Sources(ts) == |ts| && SourcesWellFormed(ts)
  {
    SourcesOf(ts, []);
    assert ts + [] == ts;
  }

  lemma {:induction false} RootIsNew(before: Net, net: Net, ts: seq<NetTree>, i: nat)
    requires Roots(ts) && i < |ts| == Sources(ts) && before == NoNet() && HeardFirst(before, net, ts, i)
    ensures ts[i].op.tag !in net.ins
  {
    var first := ts[..i];
    TagsFrom(first, NodeTag(ts[i].op.tag));
    TagsFrom(first, InputTag(ts[i].op.tag));
  }

  lemma {:induction false} TagsFrom(ts: seq<NetTree>, v: Vertex)
    requires AllTags(ts) && SourcesWellFormed(ts) && forall i | 0 <= i < |ts| :: v !in Tags(ts[i])
    ensures v !in TagsAll(ts)
  {
    if ts != [] {
      RestWellFormed(ts);
      TagsFrom(ts[1..], v);
    }
  }

  class Decoder {
    const nn: NN.Ann
    ghost var place: map<int, NN.Node>
    ghost var net: Net

    ghost predicate Valid()
      reads this, nn, place.Values`inConnections
    {
      Pictures(place, net) && Catalogued(nn, place)
    }

    constructor (activationFn: real -> real)
      ensures Valid() && fresh(nn) && net == Net(map[], {}) && nn.outputs == [] && place == map[]
    {
      nn := new NN.Ann(activationFn);
      place, net := map[], Net(map[], {});
    }

    /** The node with the tag t, if there is one. */
    method FindTag(t: int) returns (n: NN.Node?)
      requires Valid()
      ensures if t in place then n == place[t] else n == null
    {
      assert t in place ==> Pictured(place, net, t) && place[t] in nn.nodes;
      for i := 0 to |nn.nodes|
        invariant forall j | 0 <= j < i :: nn.nodes[j].tag != t
      {
        assert nn.nodes[i] in nn.nodes;
        if nn.nodes[i].tag == t { return nn.nodes[i]; }
      }
      n := null;
    }

    method AddNode(nodetype: NN.NodeType, tag: int) returns (n: NN.Node)
      requires Valid() && tag !in place
      modifies this, nn
      ensures Valid() && fresh(n) && place == old(place)[tag := n]
      ensures net == WithNode(old(net), tag, nodetype == NN.Input)
      ensures nn.outputs == if nodetype == NN.Output then old(nn.outputs) + [n] else old(nn.outputs)
    {
      n := new NN.Node(nodetype, tag);
      nn.nodes := nn.nodes + [n];
      if nodetype == NN.Input {
        nn.inputs := nn.inputs + [n];
      } else if nodetype == NN.Output {
        nn.outputs := nn.outputs + [n];
      } else {
        nn.hidden := nn.hidden + [n];
      }
      place, net := place[tag := n], WithNode(net, tag, nodetype == NN.Input);
      forall x {:trigger Pictured(place, net, x)} | x in place ensures Pictured(place, net, x) {
        if x != tag { assert Pictured(old(place), old(net), x); }
      }
    }

    method AddConnection(s: NN.Node, d: NN.Node, w: real)
      requires Valid() && s.tag in place && place[s.tag] == s && d.tag in place && place[d.tag] == d
      modifies this, nn, place.Values
      ensures Valid() && place == old(place) && net == WithWire(old(net), d.tag, Wire(s.tag, w))
      ensures nn.outputs == old(nn.outputs) && |nn.connections| == |old(nn.connections)| + 1
      ensures var c := nn.connections[|nn.connections| - 1];
        && fresh(c) && c.source == s && c.dest == d && c.weight == w && nn.connections == old(nn.connections) + [c]
        && s.outConnections == old(s.outConnections) + [c] && d.inConnections == old(d.inConnections) + [c]
      ensures forall n | n in place.Values && n != s :: n.outConnections == old(n.outConnections)
      ensures forall n | n in place.Values && n != d :: n.inConnections == old(n.inConnections)
    {
      var c := new NN.Connection(s, d, w);
      nn.connections := nn.connections + [c];
      s.outConnections := s.outConnections + [c];
      d.inConnections := d.inConnections + [c];
      net := WithWire(net, d.tag, Wire(s.tag, w));
      assert s in place.Values && d in place.Values;
      forall x {:trigger Pictured(place, net, x)} | x in place ensures Pictured(place, net, x) {
        assert old(Pictured(place, net, x));
      }
    }

    /** The node that a vertex names, added if there is none. */
    method DecodifyNode(v: Vertex, ghost kinds: set<int>) returns (n: NN.Node)
      requires Valid() && IsTag(v) && Sorted(net, kinds) && (v.InputTag? <==> v.tag in kinds)
      modifies this, nn
      ensures Valid() && Sorted(net, kinds) && Extends()
      ensures v.tag in place && place[v.tag] == n
      ensures Introduced(old(net), net, {v}) && forall x :: WiresInto(net, x) == WiresInto(old(net), x)
    {
      var found := FindTag(v.tag);
      if found == null {
        n := AddNode(if v.NodeTag? then NN.Hidden else NN.Input, v.tag);
      } else {
        n := found;
      }
    }

    /** All nodes are still found by their tags, and other nodes are new. */
    twostate predicate Extends()
      reads this, nn
    {
      && nn.outputs == old(nn.outputs)
      && (forall x | x in old(place) :: x in place && place[x] == old(place)[x])
      && (forall n | n in place.Values :: n in old(place).Values || fresh(n))
    }

    /** A child that is a node: found or added, and followed into unless it is an input. */
    method DecodifyChild(child: NetTree, ghost kinds: set<int>) returns (n: NN.Node)
      requires Valid() && WellFormed(child) && Sorted(net, kinds) && Kinds(Tags(child), kinds)
      modifies this, nn, place.Values
      ensures Valid() && Sorted(net, kinds) && Extends()
      ensures child.op.tag in place && place[child.op.tag] == n && n.tag == child.op.tag && Heard(old(net), net, child)
      decreases child, 4
    {
      ChildKinds(child, kinds);
      n := DecodifyNode(child.op, kinds);
      ghost var mid := net;
      assert Pictured(place, net, child.op.tag);
      if child.op.NodeTag? {
        DecodifySubtree(n, child, kinds);
      }
      HeardChild(old(net), mid, net, child);
    }

    /** Adds what is below t, and then the wires into dest, the root of t. */
    method DecodifySubtree(dest: NN.Node, t: NetTree, ghost kinds: set<int>)
      requires Valid() && WellFormed(t) && Sorted(net, kinds) && Kinds(TagsAll(t.kids), kinds)
      requires t.op.tag in place && place[t.op.tag] == dest && dest.tag == t.op.tag
      modifies this, nn, place.Values
      ensures Valid() && Sorted(net, kinds) && Extends()
      ensures HeardBelow(old(net), net, t)
      decreases t, 3
    {
      ghost var before := net;
      var sources := DecodifySources(t, kinds);
      ghost var mid := net;
      AddWeights(dest, t, sources);
      HeardWeights(before, mid, net, t, |sources|);
    }

    /** The nodes of the children that come before the weights. */
    method DecodifySources(t: NetTree, ghost kinds: set<int>) returns (sources: seq<NN.Node>)
      requires Valid() && WellFormed(t) && Sorted(net, kinds) && Kinds(TagsAll(t.kids), kinds)
      modifies this, nn, place.Values
      ensures Valid() && Sorted(net, kinds) && Extends()
      ensures |sources| == Sources(t.kids) && Found(t.kids, sources, place)
      ensures HeardFirst(old(net), net, t.kids, |sources|)
      decreases t, 2
    {
      sources := [];
      ghost var before := net;
      NothingHeard(before);
      while |sources| < |t.kids| && IsTag(t.kids[|sources|].op)
        invariant Valid() && Sorted(net, kinds) && Extends()
        invariant HeardFirst(before, net, t.kids, |sources|) && Found(t.kids, sources, place)
        decreases |t.kids| - |sources|
      {
        sources := DecodifyNext(t, sources, before, kinds);
      }
    }

    method DecodifyNext(t: NetTree, sources: seq<NN.Node>, ghost before: Net, ghost kinds: set<int>)
      returns (more: seq<NN.Node>)
      requires Valid() && WellFormed(t) && Sorted(net, kinds) && Kinds(TagsAll(t.kids), kinds)
      requires |sources| < Sources(t.kids) && HeardFirst(before, net, t.kids, |sources|) && Found(t.kids, sources, place)
      modifies this, nn, place.Values
      ensures Valid() && Sorted(net, kinds) && Extends()
      ensures |more| == |sources| + 1 && HeardFirst(before, net, t.kids, |more|) && Found(t.kids, more, place)
      decreases t, 1
    {
      ghost var mid, was := net, place;
      SourceKinds(t.kids, |sources|, kinds);
      var node := DecodifyChild(t.kids[|sources|], kinds);
      HeardNext(before, mid, net, t.kids, |sources|);
      FoundNext(t.kids, sources, was, place, node);
      more := sources + [node];
    }

    /** The weights, in order, for the sources from the last to the first. */
    method AddWeights(dest: NN.Node, t: NetTree, sources: seq<NN.Node>)
      requires Valid() && WellFormed(t) && |sources| == Sources(t.kids) && Found(t.kids, sources, place)
      requires t.op.tag in place && place[t.op.tag] == dest && dest.tag == t.op.tag
      modifies this, nn, place.Values
      ensures Valid() && place == old(place) && nn.outputs == old(nn.outputs)
      ensures WeightsAdded(old(net), net, t, |WiresOf(t)|)
    {
      var count: int := |sources| - 1;
      ghost var before := net;
      for i := |sources| to |t.kids|
        invariant Valid() && place == old(place) && nn.outputs == old(nn.outputs)
        invariant count == 2 * |sources| - 1 - i && WeightsAdded(before, net, t, i - |sources|)
      {
        WireOfWeight(t, sources, place, i, count);
        AddWeight(dest, sources[count], t.kids[i].op.w, before, t, i - |sources|);
        count := count - 1;
      }
    }

    /** Adds the j-th wire into the root of t. */
    method AddWeight(dest: NN.Node, source: NN.Node, w: real, ghost before: Net, ghost t: NetTree, ghost j: nat)
      requires Valid() && WellFormed(t) && WeightsAdded(before, net, t, j) && j < |WiresOf(t)|
      requires t.op.tag in place && place[t.op.tag] == dest && dest.tag == t.op.tag
      requires WiresOf(t)[j] == Wire(source.tag, w) && source.tag in place && place[source.tag] == source
      modifies this, nn, place.Values
      ensures Valid() && place == old(place) && nn.outputs == old(nn.outputs)
      ensures WeightsAdded(before, net, t, j + 1)
    {
      OneWeight(before, net, t, j);
      AddConnection(source, dest, w);
    }

    /** Builds the net that a tree says: an output for each child of the root. */
    method DecodifyTree(t: NetTree, ghost kinds: set<int>)
      requires Valid() && place == map[] && nn.outputs == [] && net == NoNet()
      requires t.op.Root? && Roots(t.kids) && Kinds(TagsAll(t.kids), kinds)
      modifies this, nn
      ensures Valid() && Sorted(net, kinds) && HeardAll(NoNet(), net, t.kids)
      ensures |nn.outputs| == |t.kids| && forall i | 0 <= i < |t.kids| :: nn.outputs[i].tag == t.kids[i].op.tag
    {
      ghost var before := place;
      NothingHeard(net);
      AllSources(t.kids);
      for i := 0 to |t.kids|
        invariant Valid() && Sorted(net, kinds) && HeardFirst(NoNet(), net, t.kids, i)
        invariant forall n | n in place.Values :: fresh(n)
        invariant |nn.outputs| == i && (forall j | 0 <= j < i :: nn.outputs[j].tag == t.kids[j].op.tag)
      {
        DecodifyRoot(t, i, kinds);
      }
      assert t.kids[..|t.kids|] == t.kids;
    }

    /** The i-th child of the root. */
    method DecodifyRoot(t: NetTree, i: nat, ghost kinds: set<int>)
      requires Valid() && Sorted(net, kinds) && i < |t.kids|
      requires t.op.Root? && Roots(t.kids) && Kinds(TagsAll(t.kids), kinds) && Sources(t.kids) == |t.kids|
      requires HeardFirst(NoNet(), net, t.kids, i)
      modifies this, nn, place.Values
      ensures Valid() && Sorted(net, kinds) && HeardFirst(NoNet(), net, t.kids, i + 1)
      ensures forall n | n in place.Values :: n in old(place).Values || fresh(n)
      ensures |nn.outputs| == |old(nn.outputs)| + 1 && nn.outputs[..|old(nn.outputs)|] == old(nn.outputs)
      ensures nn.outputs[|old(nn.outputs)|].tag == t.kids[i].op.tag
    {
      ghost var now := net;
      SourceKinds(t.kids, i, kinds);
      RootIsNew(NoNet(), net, t.kids, i);
      var n := DecodifyOutput(t.kids[i], kinds);
      HeardNext(NoNet(), now, net, t.kids, i);
    }

    /** Adds an output and everything below it. */
    method DecodifyOutput(child: NetTree, ghost kinds: set<int>) returns (n: NN.Node)
      requires Valid() && WellFormed(child) && child.op.NodeTag? && child.op.tag !in place
      requires Sorted(net, kinds) && Kinds(Tags(child), kinds)
      modifies this, nn, place.Values
      ensures Valid() && Sorted(net, kinds) && Heard(old(net), net, child)
      ensures forall n | n in place.Values :: n in old(place).Values || fresh(n)
      ensures nn.outputs == old(nn.outputs) + [n] && n.tag == child.op.tag
    {
      ChildKinds(child, kinds);
      ghost var before := net;
      n := AddNode(NN.Output, child.op.tag);
      ghost var mid := net;
      assert Pictured(place, net, child.op.tag);
      DecodifySubtree(n, child, kinds);
      HeardChild(before, mid, net, child);
    }
  }

  /** Writing a net as a tree and building a net from that gives the part of the
      net with a path to an output: by tag the same nodes, of the same kind, with
      the same connections and weights in the same order. */
  method RoundTrip(nn: NN.Ann, ghost place: map<int, NN.Node>, ghost net: Net) returns (d: Decoder)
    requires Closed(net) && Pictures(place, net) && FreeOutputs(net, TagsOf(nn.outputs))
    requires Catalogued(nn, place) && forall n | n in nn.outputs :: n in nn.nodes
    modifies place.Values`visited
    ensures d.Valid() && TagsOf(d.nn.outputs) == Reverse(TagsOf(nn.outputs))
    ensures forall x :: x in d.net.ins <==> x in net.ins && Reaches(net, TagsOf(nn.outputs), x)
    ensures forall x | x in d.net.ins :: d.net.ins[x] == net.ins[x] && (x in d.net.inputs <==> x in net.inputs)
  {
    ghost var outputs := TagsOf(nn.outputs);
    var t := EncodeAnn(nn, place, net);
    d := DecodeWritten(t, nn.activationFn, net, outputs);
  }

  /** Building a net from the tree that a net is written as. */
  method DecodeWritten(t: NetTree, activationFn: real -> real, ghost net: Net, ghost outputs: seq<int>) returns (d: Decoder)
    requires Closed(net) && FreeOutputs(net, outputs) && t == EncodeNet(net, outputs)
    ensures d.Valid() && TagsOf(d.nn.outputs) == Reverse(outputs)
    ensures forall x :: x in d.net.ins <==> x in net.ins && Reaches(net, outputs, x)
    ensures forall x | x in d.net.ins :: d.net.ins[x] == net.ins[x] && (x in d.net.inputs <==> x in net.inputs)
  {
    WrittenRoots(net, outputs);
    WrittenKinds(net, outputs);
    d := new Decoder(activationFn);
    d.DecodifyTree(t, net.inputs);
    HeardIsReaching(net, outputs, d.net);
  }

  lemma {:induction false} WrittenKinds(net: Net, outputs: seq<int>)
    requires Closed(net) && FreeOutputs(net, outputs)
    ensures SourcesWellFormed(EncodeNet(net, outputs).kids)
    ensures Kinds(TagsAll(EncodeNet(net, outputs).kids), net.inputs)
  {
    RootNames(net, outputs);
  }

  lemma {:induction false} HeardIsReaching(net: Net, outputs: seq<int>, built: Net)
    requires Closed(net) && FreeOutputs(net, outputs) && Sorted(built, net.inputs)
    requires SourcesWellFormed(EncodeNet(net, outputs).kids) && HeardAll(NoNet(), built, EncodeNet(net, outputs).kids)
    ensures forall x :: x in built.ins <==> x in net.ins && Reaches(net, outputs, x)
    ensures forall x | x in built.ins :: built.ins[x] == net.ins[x] && (x in built.inputs <==> x in net.inputs)
  {
    forall x ensures x in built.ins <==> x in net.ins && Reaches(net, outputs, x)
      ensures x in built.ins ==> built.ins[x] == net.ins[x]
    {
      NodeHeard(net, outputs, built, x);
    }
  }

  lemma {:induction false} NodeHeard(net: Net, outputs: seq<int>, built: Net, x: int)
    requires Closed(net) && FreeOutputs(net, outputs) && Sorted(built, net.inputs)
    requires SourcesWellFormed(EncodeNet(net, outputs).kids) && HeardAll(NoNet(), built, EncodeNet(net, outputs).kids)
    ensures x in built.ins <==> x in net.ins && Reaches(net, outputs, x)
    ensures x in built.ins ==> built.ins[x] == net.ins[x]
  {
    var kids := EncodeNet(net, outputs).kids;
    if x in net.ins {
      WrittenNetTells(net, outputs, x);
      assert WiresInto(built, x) == WiresInto(NoNet(), x) + ToldAll(kids, x);
    } else {
      RootNames(net, outputs);
    }
  }
}
