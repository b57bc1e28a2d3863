/** Nets as trees: every node is written out once, with the subtrees of its
    sources and then the weights, and is only named where it comes up again. */
module NetCodec {
  import opened Trees

  /** A node is known by its tag. */
  datatype Vertex = Root | NodeTag(tag: int) | InputTag(tag: int) | Weight(w: real)

  type NetTree = Tree<Vertex>

  datatype Wire = Wire(source: int, weight: real)

  /** The wires into each node, in order, and the nodes that are inputs. */
  datatype Net = Net(ins: map<int, seq<Wire>>, inputs: set<int>)

  predicate IsTag(v: Vertex) { v.NodeTag? || v.InputTag? }

  /** Wires come from nodes of the net, and none lead into an input. */
  ghost predicate Closed(net: Net) {
    && net.inputs <= net.ins.Keys
    && (forall x | x in net.inputs :: net.ins[x] == [])
    && forall x | x in net.ins :: SourcesIn(net.ins[x], net.ins.Keys)
  }

  ghost predicate SourcesIn(ws: seq<Wire>, s: set<int>) {
    forall i | 0 <= i < |ws| :: ws[i].source in s
  }

  ghost predicate SourcesNotIn(ws: seq<Wire>, s: seq<int>) {
    forall i | 0 <= i < |ws| :: ws[i].source !in s
  }

  function Named(net: Net, tag: int): Vertex { if tag in net.inputs then InputTag(tag) else NodeTag(tag) }

  function Reverse<T>(s: seq<T>): (r: seq<T>)
    ensures |r| == |s| && forall i | 0 <= i < |s| :: r[i] == s[|s| - 1 - i]
  {
    if s == [] then [] else Reverse(s[1..]) + [s[0]]
  }

  function Weights(ws: seq<Wire>): (r: seq<NetTree>)
    ensures |r| == |ws| && forall i | 0 <= i < |ws| :: r[i] == Node(Weight(ws[i].weight), [])
  {
    seq(|ws|, i requires 0 <= i < |ws| => Node(Weight(ws[i].weight), []))
  }

  // ---------------------------------------------------------------- writing

  /** A tree and the set of nodes that have come up when it is written. */
  datatype Written = Written(t: NetTree, seen: set<int>)

  datatype WrittenAll = WrittenAll(ts: seq<NetTree>, seen: set<int>)

  ghost function EncodeNode(net: Net, seen: set<int>, tag: int): (w: Written)
    requires Closed(net) && tag in net.ins && seen <= net.ins.Keys
    ensures seen + {tag} <= w.seen <= net.ins.Keys
    decreases |net.ins.Keys - seen|, 0
  {
    if tag in seen then Written(Node(Named(net, tag), []), seen)
    else if tag in net.inputs then Written(Node(InputTag(tag), []), seen + {tag})
    else
      Fewer(net.ins.Keys, seen, tag);
      var ws := net.ins[tag];
      var all := EncodeSources(net, seen + {tag}, ws);
      Written(Node(NodeTag(tag), Reverse(all.ts) + Weights(ws)), all.seen)
  }

  /** The sources of some wires, in the order of the wires. */
  ghost function EncodeSources(net: Net, seen: set<int>, ws: seq<Wire>): (w: WrittenAll)
    requires Closed(net) && seen <= net.ins.Keys && SourcesIn(ws, net.ins.Keys)
    ensures |w.ts| == |ws| && seen <= w.seen <= net.ins.Keys
    decreases |net.ins.Keys - seen|, |ws| + 1
  {
    if ws == [] then WrittenAll([], seen)
    else
      var first := EncodeNode(net, seen, ws[0].source);
      SetsShrink(net.ins.Keys - first.seen, net.ins.Keys - seen);
      var rest := EncodeSources(net, first.seen, ws[1..]);
      WrittenAll([first.t] + rest.ts, rest.seen)
  }

  lemma {:induction false} SetsShrink(a: set<int>, b: set<int>)
    requires a <= b
    ensures |a| <= |b|
  {
    if a != b {
      var c := b - a;
      assert b == a + c;
      assert |b| == |a| + |c|;
    }
  }

  lemma {:induction false} Fewer(keys: set<int>, seen: set<int>, tag: int)
    requires tag in keys && tag !in seen
    ensures |keys - (seen + {tag})| < |keys - seen|
  {
    var rest := keys - (seen + {tag});
    assert keys - seen == rest + {tag};
  }

  // ---------------------------------------------------------------- what a tree says

  /** Number of children that are nodes: they come before the weights. */
  function Sources(ts: seq<NetTree>): (k: nat)
    ensures k <= |ts| && forall i | 0 <= i < k :: IsTag(ts[i].op)
    ensures k < |ts| ==> !IsTag(ts[k].op)
  {
    if ts == [] || !IsTag(ts[0].op) then 0 else 1 + Sources(ts[1..])
  }

  /** Sources first, then at most as many weights; inputs have no children. */
  predicate WellFormed(t: NetTree) {
    && IsTag(t.op) && (t.op.InputTag? ==> t.kids == [])
    && (forall i | Sources(t.kids) <= i < |t.kids| :: t.kids[i].op.Weight?)
    && |t.kids| <= 2 * Sources(t.kids)
    && forall i | 0 <= i < Sources(t.kids) :: WellFormed(t.kids[i])
  }

  /** The wires into the root of t: the weights belong to the sources from the last to the first. */
  function WiresOf(t: NetTree): (ws: seq<Wire>)
    requires WellFormed(t)
    ensures |ws| == |t.kids| - Sources(t.kids)
  {
    var k := Sources(t.kids);
    seq(|t.kids| - k, i requires 0 <= i < |t.kids| - k => Wire(t.kids[k - 1 - i].op.tag, t.kids[k + i].op.w))
  }

  /** The wires into the node x that t tells of, in the order in which they are added. */
  function Told(t: NetTree, x: int): seq<Wire>
    requires WellFormed(t)
    decreases t, 0
  {
    ToldAll(t.kids, x) + if t.op.tag == x then WiresOf(t) else []
  }

  predicate SourcesWellFormed(ts: seq<NetTree>) { forall i | 0 <= i < Sources(ts) :: WellFormed(ts[i]) }

  lemma {:induction false} RestWellFormed(ts: seq<NetTree>)
    requires SourcesWellFormed(ts) && ts != [] && IsTag(ts[0].op)
    ensures WellFormed(ts[0]) && SourcesWellFormed(ts[1..])
  {
    assert forall i | 0 <= i < Sources(ts[1..]) :: ts[1..][i] == ts[i + 1];
  }

  /** The same for the children that are nodes. */
  function ToldAll(ts: seq<NetTree>, x: int): seq<Wire>
    requires SourcesWellFormed(ts)
    decreases ts, 1
  {
    if ts == [] || !IsTag(ts[0].op) then []
    else
      RestWellFormed(ts);
      Told(ts[0], x) + ToldAll(ts[1..], x)
  }

  /** The vertices for nodes that come up in t. */
  function Tags(t: NetTree): set<Vertex>
    requires WellFormed(t)
    decreases t, 0
  {
    {t.op} + TagsAll(t.kids)
  }

  function TagsAll(ts: seq<NetTree>): set<Vertex>
    requires SourcesWellFormed(ts)
    decreases ts, 1
  {
    if ts == [] || !IsTag(ts[0].op) then {}
    else
      RestWellFormed(ts);
      Tags(ts[0]) + TagsAll(ts[1..])
  }

  // ---------------------------------------------------------------- what a written net says

  /** All of the nodes are written as what they are. */
  ghost predicate NamedRight(net: Net, vs: set<Vertex>) {
    forall v | v in vs :: IsTag(v) && v.tag in net.ins && v == Named(net, v.tag)
  }

  /** The wires of x are told of if x was seen between one set and the next. */
  ghost predicate TellsNew(net: Net, told: seq<Wire>, x: int, before: set<int>, after: set<int>)
    requires x in net.ins
  {
    told == if x in after && x !in before then net.ins[x] else []
  }

  /** Newly seen nodes are named, and only seen ones. */
  ghost predicate TagsNew(net: Net, vs: set<Vertex>, x: int, before: set<int>, after: set<int>) {
    && NamedRight(net, vs)
    && (x in after && x !in before ==> Named(net, x) in vs)
    && (Named(net, x) in vs ==> x in after)
  }

  lemma {:induction false} OneMoreTag(net: Net, vs: set<Vertex>, tag: int, x: int, before: set<int>, after: set<int>)
    requires tag in net.ins && TagsNew(net, vs, x, before + {tag}, after) && tag in after
    ensures TagsNew(net, {Named(net, tag)} + vs, x, before, after)
  {
  }

  lemma {:induction false} OneMoreTold(net: Net, told: seq<Wire>, tag: int, x: int, before: set<int>, after: set<int>)
    requires tag in net.ins && x in net.ins && TellsNew(net, told, x, before + {tag}, after) && tag in after && tag !in before
    ensures TellsNew(net, told + (if tag == x then net.ins[tag] else []), x, before, after)
  {
  }

  lemma {:induction false} BothNew(net: Net, a: seq<Wire>, b: seq<Wire>, v: set<Vertex>, w: set<Vertex>, x: int,
                                   before: set<int>, mid: set<int>, after: set<int>)
    requires x in net.ins && before <= mid <= after
    requires TellsNew(net, a, x, before, mid) && TellsNew(net, b, x, mid, after)
    requires TagsNew(net, v, x, before, mid) && TagsNew(net, w, x, mid, after)
    ensures TellsNew(net, b + a, x, before, after) && TagsNew(net, w + v, x, before, after)
  {
  }

  predicate AllTags(ts: seq<NetTree>) { forall i | 0 <= i < |ts| :: IsTag(ts[i].op) && WellFormed(ts[i]) }

  lemma {:induction false} SourcesOf(a: seq<NetTree>, b: seq<NetTree>)
    requires AllTags(a) && (b == [] || !IsTag(b[0].op))
    ensures Sources(a + b) == |a| && SourcesWellFormed(a + b)
  {
    if a == [] {
      assert a + b == b;
    } else {
      SourcesOf(a[1..], b);
      assert (a + b)[1..] == a[1..] + b;
    }
  }

  lemma {:induction false} RestOfConcat(a: seq<NetTree>, b: seq<NetTree>)
    requires a != [] && AllTags(a) && SourcesWellFormed(a[1..]) && SourcesWellFormed(a[1..] + b)
    ensures SourcesWellFormed(a) && SourcesWellFormed(a + b) && (a + b)[1..] == a[1..] + b && (a + b)[0] == a[0]
  {
    var ab := a + b;
    assert ab[1..] == a[1..] + b;
    assert forall i | 0 < i < Sources(ab) :: ab[i] == ab[1..][i - 1];
    assert forall i | 0 < i < Sources(a) :: a[i] == a[1..][i - 1];
  }

  lemma {:induction false} ToldConcat(a: seq<NetTree>, b: seq<NetTree>, x: int)
    requires AllTags(a) && SourcesWellFormed(b)
    ensures SourcesWellFormed(a) && SourcesWellFormed(a + b)
    ensures ToldAll(a + b, x) == ToldAll(a, x) + ToldAll(b, x)
    ensures TagsAll(a + b) == TagsAll(a) + TagsAll(b)
  {
    if a == [] {
      assert a + b == b;
    } else {
      ToldConcat(a[1..], b, x);
      RestOfConcat(a, b);
      ToldHead(a, x);
      ToldHead(a + b, x);
      Regroup(Told(a[0], x), ToldAll(a[1..], x), ToldAll(b, x), Tags(a[0]), TagsAll(a[1..]), TagsAll(b));
    }
  }

  lemma {:induction false} Regroup<E, F>(x: seq<E>, y: seq<E>, z: seq<E>, r: set<F>, s: set<F>, t: set<F>)
    ensures x + (y + z) == x + y + z && r + (s + t) == r + s + t
  {
  }

  lemma {:induction false} ToldHead(ts: seq<NetTree>, x: int)
    requires SourcesWellFormed(ts) && ts != [] && IsTag(ts[0].op)
    ensures WellFormed(ts[0]) && SourcesWellFormed(ts[1..])
    ensures ToldAll(ts, x) == Told(ts[0], x) + ToldAll(ts[1..], x) && TagsAll(ts) == Tags(ts[0]) + TagsAll(ts[1..])
  {
    RestWellFormed(ts);
  }

  /** What is known of a written tree. */
  ghost predicate Tells(net: Net, w: Written, tag: int, x: int, before: set<int>)
    requires x in net.ins && tag in net.ins
  {
    && WellFormed(w.t) && w.t.op == Named(net, tag)
    && TellsNew(net, Told(w.t, x), x, before, w.seen)
    && TagsNew(net, Tags(w.t), x, before, w.seen)
  }

  /** What is known of the written sources of some wires, from the last to the first. */
  ghost predicate TellsAll(net: Net, w: WrittenAll, ws: seq<Wire>, x: int, before: set<int>)
    requires x in net.ins
  {
    var back := Reverse(w.ts);
    && |w.ts| == |ws| && AllTags(back) && SourcesWellFormed(back)
    && (forall i | 0 <= i < |ws| :: ws[i].source in net.ins && w.ts[i].op == Named(net, ws[i].source))
    && TellsNew(net, ToldAll(back, x), x, before, w.seen)
    && TagsNew(net, TagsAll(back), x, before, w.seen)
  }

  lemma {:induction false} EncodeNodeTells(net: Net, seen: set<int>, tag: int, x: int)
    requires Closed(net) && tag in net.ins && x in net.ins && seen <= net.ins.Keys
    ensures Tells(net, EncodeNode(net, seen, tag), tag, x, seen)
    decreases |net.ins.Keys - seen|, 0
  {
    if tag !in seen && tag !in net.inputs {
      Fewer(net.ins.Keys, seen, tag);
      var ws := net.ins[tag];
      var all := EncodeSources(net, seen + {tag}, ws);
      EncodeSourcesTells(net, seen + {tag}, ws, x);
      NodeTells(net, all, tag, x, seen);
    } else {
      LeafTells(net, EncodeNode(net, seen, tag), tag, x, seen);
    }
  }

  lemma {:induction false} LeafTells(net: Net, w: Written, tag: int, x: int, seen: set<int>)
    requires Closed(net) && tag in net.ins && x in net.ins && w.t == Node(Named(net, tag), [])
    requires if tag in seen then w.seen == seen else tag in net.inputs && w.seen == seen + {tag}
    ensures Tells(net, w, tag, x, seen)
  {
    assert WiresOf(w.t) == [] && ToldAll([], x) == [] && TagsAll([]) == {};
    assert Tags(w.t) == {Named(net, tag)};
  }

  lemma {:induction false} NodeTells(net: Net, all: WrittenAll, tag: int, x: int, seen: set<int>)
    requires Closed(net) && tag in net.ins && x in net.ins && tag !in net.inputs && tag !in seen && seen + {tag} <= all.seen
    requires TellsAll(net, all, net.ins[tag], x, seen + {tag})
    ensures Tells(net, Written(Node(NodeTag(tag), Reverse(all.ts) + Weights(net.ins[tag])), all.seen), tag, x, seen)
  {
    var ws, back := net.ins[tag], Reverse(all.ts);
    WiresKept(net, all.ts, ws, tag);
    NodeSays(back, Weights(ws), tag, x);
    OneMoreTag(net, TagsAll(back), tag, x, seen, all.seen);
    OneMoreTold(net, ToldAll(back, x), tag, x, seen, all.seen);
  }

  lemma {:induction false} NodeSays(back: seq<NetTree>, weights: seq<NetTree>, tag: int, x: int)
    requires AllTags(back) && (weights == [] || !IsTag(weights[0].op)) && WellFormed(Node(NodeTag(tag), back + weights))
    ensures SourcesWellFormed(back)
    ensures var t := Node(NodeTag(tag), back + weights);
      && Told(t, x) == ToldAll(back, x) + (if tag == x then WiresOf(t) else [])
      && Tags(t) == {NodeTag(tag)} + TagsAll(back)
  {
    assert Sources(weights) == 0 && ToldAll(weights, x) == [] && TagsAll(weights) == {};
    ToldConcat(back, weights, x);
    assert ToldAll(back, x) + [] == ToldAll(back, x);
  }

  lemma {:induction false} WiresKept(net: Net, ts: seq<NetTree>, ws: seq<Wire>, tag: int)
    requires |ts| == |ws| && AllTags(Reverse(ts))
    requires forall i | 0 <= i < |ws| :: ts[i].op == Named(net, ws[i].source)
    ensures WellFormed(Node(NodeTag(tag), Reverse(ts) + Weights(ws)))
    ensures WiresOf(Node(NodeTag(tag), Reverse(ts) + Weights(ws))) == ws
  {
    var back, weights := Reverse(ts), Weights(ws);
    var kids := back + weights;
    var t := Node(NodeTag(tag), kids);
    SourcesOf(back, weights);
    SourcesThenWeights(t, back, weights);
    forall i | 0 <= i < |ws| ensures WiresOf(t)[i] == ws[i] {
      WireKept(net, ts, ws, i);
    }
  }

  lemma {:induction false} SourcesThenWeights(t: NetTree, back: seq<NetTree>, weights: seq<NetTree>)
    requires t.op.NodeTag? && t.kids == back + weights && |weights| <= |back|
    requires Sources(t.kids) == |back| && SourcesWellFormed(t.kids)
    requires forall i | 0 <= i < |weights| :: weights[i].op.Weight?
    ensures WellFormed(t)
  {
    forall i | |back| <= i < |t.kids| ensures t.kids[i].op.Weight? {
      assert t.kids[i] == weights[i - |back|];
    }
  }

  lemma {:induction false} WireKept(net: Net, ts: seq<NetTree>, ws: seq<Wire>, i: nat)
    requires i < |ws| == |ts| && ts[i].op == Named(net, ws[i].source)
    ensures var kids := Reverse(ts) + Weights(ws);
      kids[|ts| - 1 - i].op == Named(net, ws[i].source) && kids[|ts| + i].op == Weight(ws[i].weight)
  {
  }

  lemma {:induction false} EncodeSourcesTells(net: Net, seen: set<int>, ws: seq<Wire>, x: int)
    requires Closed(net) && x in net.ins && seen <= net.ins.Keys && SourcesIn(ws, net.ins.Keys)
    ensures TellsAll(net, EncodeSources(net, seen, ws), ws, x, seen)
    decreases |net.ins.Keys - seen|, |ws| + 1
  {
    if ws != [] {
      var first := EncodeNode(net, seen, ws[0].source);
      SetsShrink(net.ins.Keys - first.seen, net.ins.Keys - seen);
      var rest := EncodeSources(net, first.seen, ws[1..]);
      EncodeNodeTells(net, seen, ws[0].source, x);
      EncodeSourcesTells(net, first.seen, ws[1..], x);
      FirstTells(net, first, rest, ws, x, seen);
    }
  }

  lemma {:induction false} FirstTells(net: Net, first: Written, rest: WrittenAll, ws: seq<Wire>, x: int, seen: set<int>)
    requires ws != [] && x in net.ins && ws[0].source in net.ins && seen <= first.seen <= rest.seen
    requires Tells(net, first, ws[0].source, x, seen) && TellsAll(net, rest, ws[1..], x, first.seen)
    ensures TellsAll(net, WrittenAll([first.t] + rest.ts, rest.seen), ws, x, seen)
  {
    var back, one := Reverse(rest.ts), [first.t];
    var ts := one + rest.ts;
    assert ts[1..] == rest.ts && Reverse(ts) == back + one;
    OneTells(first.t, x);
    ToldConcat(back, one, x);
    BothNew(net, Told(first.t, x), ToldAll(back, x), Tags(first.t), TagsAll(back), x, seen, first.seen, rest.seen);
    FirstNamed(net, first.t, rest.ts, ws);
  }

  lemma {:induction false} OneTells(t: NetTree, x: int)
    requires WellFormed(t)
    ensures SourcesWellFormed([t]) && AllTags([t]) && ToldAll([t], x) == Told(t, x) && TagsAll([t]) == Tags(t)
  {
    var one := [t];
    assert one[1..] == [];
    assert SourcesWellFormed(one);
    assert Told(t, x) + [] == Told(t, x);
  }

  lemma {:induction false} FirstNamed(net: Net, first: NetTree, rest: seq<NetTree>, ws: seq<Wire>)
    requires ws != [] && |rest| == |ws| - 1 && ws[0].source in net.ins && first.op == Named(net, ws[0].source)
    requires forall i | 0 <= i < |rest| :: ws[1..][i].source in net.ins && rest[i].op == Named(net, ws[1..][i].source)
    ensures var ts := [first] + rest;
      forall i | 0 <= i < |ws| :: ws[i].source in net.ins && ts[i].op == Named(net, ws[i].source)
  {
    var ts := [first] + rest;
    forall i | 0 <= i < |ws| ensures ws[i].source in net.ins && ts[i].op == Named(net, ws[i].source) {
      if i > 0 { assert ws[i] == ws[1..][i - 1] && ts[i] == rest[i - 1]; }
    }
  }

  // ---------------------------------------------------------------- which nodes come up

  /** A path of k wires leads from x to one of the outputs. */
  ghost predicate ReachesIn(net: Net, outputs: seq<int>, x: int, k: nat)
    decreases k
  {
    if k == 0 then x in outputs
    else exists y, i :: y in net.ins && 0 <= i < |net.ins[y]| && net.ins[y][i].source == x && ReachesIn(net, outputs, y, k - 1)
  }

  ghost predicate Reaches(net: Net, outputs: seq<int>, x: int) { exists k: nat :: ReachesIn(net, outputs, x, k) }

  lemma {:induction false} SourceReaches(net: Net, outputs: seq<int>, y: int, i: nat)
    requires Reaches(net, outputs, y) && y in net.ins && i < |net.ins[y]|
    ensures Reaches(net, outputs, net.ins[y][i].source)
  {
    var k: nat :| ReachesIn(net, outputs, y, k);
    assert ReachesIn(net, outputs, net.ins[y][i].source, k + 1);
  }

  /** Newly seen nodes have only seen sources, and reach an output if the first one does. */
  ghost predicate Grows(net: Net, outputs: seq<int>, before: set<int>, after: set<int>) {
    forall x | x in after && x !in before :: x in net.ins && SourcesIn(net.ins[x], after) && Reaches(net, outputs, x)
  }

  lemma {:induction false} EncodeNodeGrows(net: Net, seen: set<int>, tag: int, outputs: seq<int>)
    requires Closed(net) && tag in net.ins && seen <= net.ins.Keys && Reaches(net, outputs, tag)
    ensures Grows(net, outputs, seen, EncodeNode(net, seen, tag).seen)
    decreases |net.ins.Keys - seen|, 0
  {
    if tag !in seen && tag !in net.inputs {
      Fewer(net.ins.Keys, seen, tag);
      var ws := net.ins[tag];
      forall i | 0 <= i < |ws| ensures Reaches(net, outputs, ws[i].source) { SourceReaches(net, outputs, tag, i); }
      EncodeSourcesGrows(net, seen + {tag}, ws, outputs);
    }
  }

  lemma {:induction false} EncodeSourcesGrows(net: Net, seen: set<int>, ws: seq<Wire>, outputs: seq<int>)
    requires Closed(net) && seen <= net.ins.Keys && SourcesIn(ws, net.ins.Keys)
    requires forall i | 0 <= i < |ws| :: Reaches(net, outputs, ws[i].source)
    ensures Grows(net, outputs, seen, EncodeSources(net, seen, ws).seen)
    ensures SourcesIn(ws, EncodeSources(net, seen, ws).seen)
    decreases |net.ins.Keys - seen|, |ws| + 1
  {
    if ws != [] {
      var first := EncodeNode(net, seen, ws[0].source);
      SetsShrink(net.ins.Keys - first.seen, net.ins.Keys - seen);
      EncodeNodeGrows(net, seen, ws[0].source, outputs);
      EncodeSourcesGrows(net, first.seen, ws[1..], outputs);
      forall i | 0 <= i < |ws| ensures ws[i].source in EncodeSources(net, seen, ws).seen {
        if i > 0 { assert ws[i] == ws[1..][i - 1]; }
      }
    }
  }

  // ---------------------------------------------------------------- the whole net

  /** The outputs, as if they were wired to the root. */
  function AsWires(outputs: seq<int>): (ws: seq<Wire>)
    ensures |ws| == |outputs| && forall i | 0 <= i < |outputs| :: ws[i].source == outputs[i]
  {
    seq(|outputs|, i requires 0 <= i < |outputs| => Wire(outputs[i], 0.0))
  }

  /** Outputs are different nodes, no inputs, and feed no other node. */
  ghost predicate FreeOutputs(net: Net, outputs: seq<int>) {
    && (forall i | 0 <= i < |outputs| :: outputs[i] in net.ins && outputs[i] !in net.inputs)
    && (forall i, j | 0 <= i < j < |outputs| :: outputs[i] != outputs[j])
    && forall x | x in net.ins :: SourcesNotIn(net.ins[x], outputs)
  }

  ghost function EncodeOutputs(net: Net, outputs: seq<int>): (w: WrittenAll)
    requires Closed(net) && FreeOutputs(net, outputs)
  {
    EncodeSources(net, {}, AsWires(outputs))
  }

  /** The children of the root: each output comes in front of those before it. */
  ghost function EncodeNet(net: Net, outputs: seq<int>): NetTree
    requires Closed(net) && FreeOutputs(net, outputs)
  {
    Node(Root, Reverse(EncodeOutputs(net, outputs).ts))
  }

  /** The nodes that come up are those with a path to an output. */
  lemma {:induction false} SeenIsReaching(net: Net, outputs: seq<int>, x: int)
    requires Closed(net) && FreeOutputs(net, outputs)
    ensures x in EncodeOutputs(net, outputs).seen <==> Reaches(net, outputs, x)
  {
    var seen := EncodeOutputs(net, outputs).seen;
    var ws := AsWires(outputs);
    forall i | 0 <= i < |ws| ensures Reaches(net, outputs, ws[i].source) {
      assert ReachesIn(net, outputs, ws[i].source, 0);
    }
    EncodeSourcesGrows(net, {}, ws, outputs);
    if Reaches(net, outputs, x) {
      var k: nat :| ReachesIn(net, outputs, x, k);
      ReachingIsSeen(net, outputs, seen, x, k);
    }
  }

  lemma {:induction false} ReachingIsSeen(net: Net, outputs: seq<int>, seen: set<int>, x: int, k: nat)
    requires Grows(net, outputs, {}, seen) && SourcesIn(AsWires(outputs), seen) && ReachesIn(net, outputs, x, k)
    ensures x in seen
    decreases k
  {
    if k == 0 {
      var i :| 0 <= i < |outputs| && outputs[i] == x;
      assert AsWires(outputs)[i].source == x;
    } else {
      var y, i :| y in net.ins && 0 <= i < |net.ins[y]| && net.ins[y][i].source == x && ReachesIn(net, outputs, y, k - 1);
      ReachingIsSeen(net, outputs, seen, y, k - 1);
      assert SourcesIn(net.ins[y], seen);
    }
  }

  /** What the written net tells: the reaching nodes and exactly their wires. */
  lemma {:induction false} WrittenNetTells(net: Net, outputs: seq<int>, x: int)
    requires Closed(net) && FreeOutputs(net, outputs) && x in net.ins
    ensures var kids := EncodeNet(net, outputs).kids;
      && AllTags(kids) && SourcesWellFormed(kids)
      && ToldAll(kids, x) == (if Reaches(net, outputs, x) then net.ins[x] else [])
      && NamedRight(net, TagsAll(kids)) && (Named(net, x) in TagsAll(kids) <==> Reaches(net, outputs, x))
  {
    SeenIsReaching(net, outputs, x);
    EncodeSourcesTells(net, {}, AsWires(outputs), x);
  }

  // ---------------------------------------------------------------- outputs come up once

  /** A tree for one node names no outputs but perhaps that node. */
  ghost predicate Avoids(t: NetTree, tag: int, outputs: seq<int>) {
    WellFormed(t) && forall v | v in Tags(t) :: IsTag(v) && (v.tag == tag || v.tag !in outputs)
  }

  lemma {:induction false} TagOfSome(ts: seq<NetTree>, v: Vertex) returns (i: nat)
    requires AllTags(ts) && SourcesWellFormed(ts) && v in TagsAll(ts)
    ensures i < |ts| && v in Tags(ts[i])
  {
    RestWellFormed(ts);
    if v in Tags(ts[0]) {
      i := 0;
    } else {
      i := TagOfSome(ts[1..], v);
      i := i + 1;
    }
  }

  lemma {:induction false} EncodeNodeAvoids(net: Net, seen: set<int>, tag: int, outputs: seq<int>)
    requires Closed(net) && tag in net.ins && seen <= net.ins.Keys && FreeOutputs(net, outputs)
    ensures Avoids(EncodeNode(net, seen, tag).t, tag, outputs)
    decreases |net.ins.Keys - seen|, 0
  {
    EncodeNodeTells(net, seen, tag, tag);
    if tag !in seen && tag !in net.inputs {
      Fewer(net.ins.Keys, seen, tag);
      var ws := net.ins[tag];
      EncodeSourcesAvoid(net, seen + {tag}, ws, outputs);
      EncodeSourcesTells(net, seen + {tag}, ws, tag);
      NodeAvoids(net, EncodeSources(net, seen + {tag}, ws).ts, tag, outputs);
    } else {
      assert TagsAll([]) == {};
    }
  }

  lemma {:induction false} NodeAvoids(net: Net, ts: seq<NetTree>, tag: int, outputs: seq<int>)
    requires tag in net.ins && |ts| == |net.ins[tag]| && AllTags(Reverse(ts)) && FreeOutputs(net, outputs)
    requires WellFormed(Node(NodeTag(tag), Reverse(ts) + Weights(net.ins[tag])))
    requires forall i | 0 <= i < |ts| :: Avoids(ts[i], net.ins[tag][i].source, outputs)
    ensures Avoids(Node(NodeTag(tag), Reverse(ts) + Weights(net.ins[tag])), tag, outputs)
  {
    var back := Reverse(ts);
    NodeSays(back, Weights(net.ins[tag]), tag, tag);
    forall v | v in TagsAll(back) ensures IsTag(v) && v.tag !in outputs {
      var i := TagOfSome(back, v);
      assert back[i] == ts[|ts| - 1 - i];
    }
  }

  lemma {:induction false} EncodeSourcesAvoid(net: Net, seen: set<int>, ws: seq<Wire>, outputs: seq<int>)
    requires Closed(net) && seen <= net.ins.Keys && SourcesIn(ws, net.ins.Keys) && FreeOutputs(net, outputs)
    ensures var all := EncodeSources(net, seen, ws);
      forall i | 0 <= i < |ws| :: Avoids(all.ts[i], ws[i].source, outputs)
    decreases |net.ins.Keys - seen|, |ws| + 1
  {
    if ws != [] {
      var first := EncodeNode(net, seen, ws[0].source);
      SetsShrink(net.ins.Keys - first.seen, net.ins.Keys - seen);
      EncodeNodeAvoids(net, seen, ws[0].source, outputs);
      EncodeSourcesAvoid(net, first.seen, ws[1..], outputs);
      var all, rest := EncodeSources(net, seen, ws), EncodeSources(net, first.seen, ws[1..]);
      forall i | 0 <= i < |ws| ensures Avoids(all.ts[i], ws[i].source, outputs) {
        if i > 0 { assert all.ts[i] == rest.ts[i - 1] && ws[i] == ws[1..][i - 1]; }
      }
    }
  }

  /** Different nodes that are no inputs, each of which comes up first as a child of the root. */
  ghost predicate Roots(ts: seq<NetTree>) {
    && AllTags(ts) && (forall i | 0 <= i < |ts| :: ts[i].op.NodeTag?)
    && forall i, j | 0 <= i < j < |ts| :: NodeTag(ts[j].op.tag) !in Tags(ts[i]) && InputTag(ts[j].op.tag) !in Tags(ts[i])
  }

  lemma {:induction false} WrittenRoots(net: Net, outputs: seq<int>)
    requires Closed(net) && FreeOutputs(net, outputs)
    ensures Roots(EncodeNet(net, outputs).kids)
    ensures |EncodeNet(net, outputs).kids| == |outputs|
    ensures forall i | 0 <= i < |outputs| :: EncodeNet(net, outputs).kids[i].op == NodeTag(Reverse(outputs)[i])
  {
    var kids := EncodeNet(net, outputs).kids;
    RootNames(net, outputs);
    forall i, j | 0 <= i < j < |kids|
      ensures NodeTag(kids[j].op.tag) !in Tags(kids[i]) && InputTag(kids[j].op.tag) !in Tags(kids[i])
    {
      RootAvoids(net, outputs, i);
      RootsApart(kids[i], outputs, |kids| - 1 - i, |kids| - 1 - j);
    }
  }

  lemma {:induction false} RootAvoids(net: Net, outputs: seq<int>, i: nat)
    requires Closed(net) && FreeOutputs(net, outputs) && i < |outputs| == |EncodeNet(net, outputs).kids|
    ensures Avoids(EncodeNet(net, outputs).kids[i], outputs[|outputs| - 1 - i], outputs)
  {
    var n := |outputs| - 1 - i;
    EncodeSourcesAvoid(net, {}, AsWires(outputs), outputs);
    assert EncodeNet(net, outputs).kids[i] == EncodeOutputs(net, outputs).ts[n];
    assert AsWires(outputs)[n].source == outputs[n];
  }

  lemma {:induction false} RootsApart(t: NetTree, outputs: seq<int>, i: nat, j: nat)
    requires i < |outputs| && j < |outputs| && outputs[i] != outputs[j] && Avoids(t, outputs[i], outputs)
    ensures NodeTag(outputs[j]) !in Tags(t) && InputTag(outputs[j]) !in Tags(t)
  {
  }

  lemma {:induction false} RootNames(net: Net, outputs: seq<int>)
    requires Closed(net) && FreeOutputs(net, outputs)
    ensures var kids := EncodeNet(net, outputs).kids;
      && |kids| == |outputs| && AllTags(kids) && forall i | 0 <= i < |kids| :: kids[i].op == NodeTag(Reverse(outputs)[i])
    ensures SourcesWellFormed(EncodeNet(net, outputs).kids) && NamedRight(net, TagsAll(EncodeNet(net, outputs).kids))
  {
    var all, ws := EncodeOutputs(net, outputs), AsWires(outputs);
    if outputs == [] {
      assert all.ts == [] && Reverse(all.ts) == [];
    } else {
      EncodeSourcesTells(net, {}, ws, outputs[0]);
      NamesTold(net, all, ws, outputs[0], {});
      forall i | 0 <= i < |outputs| ensures Reverse(all.ts)[i].op == NodeTag(Reverse(outputs)[i]) {
        var k := |outputs| - 1 - i;
        assert ws[k].source == outputs[k] && outputs[k] !in net.inputs;
      }
    }
  }

  lemma {:induction false} NamesTold(net: Net, w: WrittenAll, ws: seq<Wire>, x: int, before: set<int>)
    requires x in net.ins && TellsAll(net, w, ws, x, before)
    ensures |w.ts| == |ws| && AllTags(Reverse(w.ts)) && SourcesWellFormed(Reverse(w.ts))
    ensures forall i | 0 <= i < |ws| :: w.ts[i].op == Named(net, ws[i].source)
    ensures NamedRight(net, TagsAll(Reverse(w.ts)))
  {
  }
}
