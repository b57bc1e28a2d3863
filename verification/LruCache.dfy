/** The least-recently-used cache of a function that may fail. */
module LruCaches {
  import opened Options

  // ---------------------------------------------------------------- specification

  /** The list without x. */
  function Without<K(==, !new)>(s: seq<K>, x: K): (r: seq<K>)
    ensures forall y :: y in r <==> y in s && y != x
    ensures |r| <= |s| && (x !in s ==> r == s)
  {
    if s == [] then [] else if s[0] == x then Without(s[1..], x) else [s[0]] + Without(s[1..], x)
  }

  function Take<K>(s: seq<K>, n: nat): seq<K> { if |s| <= n then s else s[..n] }

  predicate Distinct<K(==, !new)>(s: seq<K>) { forall i, j | 0 <= i < j < |s| :: s[i] != s[j] }

  /** The arguments with a value, most recently called first, each once. */
  function Recent<K(==, !new), V>(f: K -> Option<V>, calls: seq<K>): seq<K> {
    if calls == [] then []
    else
      var before, x := Recent(f, calls[..|calls| - 1]), calls[|calls| - 1];
      if f(x).Some? then [x] + Without(before, x) else before
  }

  datatype State<K> = State(lru: seq<K>, hits: nat, misses: nat)

  /** What one call does to a cache of size n. */
  function Step<K(==, !new), V>(f: K -> Option<V>, n: nat, s: State<K>, x: K): State<K> {
    if x in s.lru then
      State([x] + Without(s.lru, x), s.hits + 1, s.misses)
    else if f(x).None? then
      State(s.lru, s.hits, s.misses + 1)
    else
      State(Take([x] + s.lru, n), s.hits, s.misses + 1)
  }

  function Run<K(==, !new), V>(f: K -> Option<V>, n: nat, calls: seq<K>): State<K> {
    if calls == [] then State([], 0, 0)
    else Step(f, n, Run(f, n, calls[..|calls| - 1]), calls[|calls| - 1])
  }

  // ---------------------------------------------------------------- the cache

  class LruCache<K(==, !new), V> {
    const f: K -> Option<V>
    const n: nat
    var lru: seq<K>
    var cached: map<K, V>
    var hits: nat
    var misses: nat

    constructor (n: nat, f: K -> Option<V>)
      ensures Valid() && this.n == n && this.f == f && Abstract() == State([], 0, 0)
    {
      this.f, this.n := f, n;
      lru, cached, hits, misses := [], map[], 0, 0;
    }

    /** List and map agree: the map holds the function's values at the listed arguments. */
    ghost predicate Valid()
      reads this
    {
      Agree() && |lru| <= n
    }

    ghost function Abstract(): State<K>
      reads this
    {
      State(lru, hits, misses)
    }

    /** Counts a miss and calls the function; on failure the argument pushed on the
        list is taken off again. */
    method IfxF(x: K) returns (r: Option<V>)
      requires lru != [] && lru[0] == x
      modifies this`misses, this`lru
      ensures r == f(x) && misses == old(misses) + 1
      ensures lru == if r.Some? then old(lru) else old(lru)[1..]
    {
      misses := misses + 1;
      r := f(x);
      if r.None? { lru := lru[1..]; }
    }

    /** The value of the function at x; None when it fails. */
    method Call(x: K) returns (r: Option<V>)
      requires Valid()
      modifies this`lru, this`cached, this`hits, this`misses
      ensures Valid() && r == f(x) && Abstract() == Step(f, n, old(Abstract()), x)
    {
      CountsAgree(lru, cached);
      if |cached| == 0 {
        if |cached| == n {  // so that a cache of size 0 stores nothing
          misses := misses + 1;
          r := f(x);
          return;
        }
        lru := [x] + lru;
        r := IfxF(x);
        if r.Some? { cached := cached[x := r.value]; }
      } else if x in cached {
        r := Hit(x);
      } else {
        r := Miss(x);
      }
    }

    /** The argument just pushed to search with comes off, the entry found moves to the front. */
    method Hit(x: K) returns (r: Option<V>)
      requires Valid() && x in cached
      modifies this`lru, this`hits
      ensures Valid() && r == f(x) && Abstract() == Step(f, n, old(Abstract()), x)
    {
      lru := [x] + lru;
      lru := lru[1..];
      DistinctFront(lru, x);
      lru := [x] + Without(lru, x);
      hits := hits + 1;
      r := Some(cached[x]);
    }

    method Miss(x: K) returns (r: Option<V>)
      requires Valid() && x !in cached && n > 0
      modifies this`lru, this`cached, this`misses
      ensures Valid() && r == f(x) && Abstract() == Step(f, n, old(Abstract()), x)
    {
      DistinctCons(x, lru);
      lru := [x] + lru;
      r := IfxF(x);
      if r.None? {
        assert lru == old(lru);
        return;
      }
      cached := cached[x := r.value];
      assert Agree();
      Trim();
    }

    /** List and map agree, whatever their size. */
    ghost predicate Agree()
      reads this
    {
      && Distinct(lru)
      && (forall k :: k in lru <==> k in cached)
      && (forall k | k in cached :: f(k) == Some(cached[k]))
    }

    /** Drops the least recently used argument if there is one too many. */
    method Trim()
      requires Agree() && 0 < |lru| <= n + 1
      modifies this`lru, this`cached
      ensures Agree() && lru == Take(old(lru), n)
    {
      CountsAgree(lru, cached);
      if |cached| > n {
        var last := lru[|lru| - 1];
        cached := cached - {last};
        lru := lru[..|lru| - 1];
        assert old(lru) == lru + [last];
      }
    }

    /** Forgets x. */
    method Remove(x: K)
      requires Valid()
      modifies this`lru, this`cached
      ensures Valid() && lru == Without(old(lru), x)
    {
      lru := [x] + lru;
      if x in cached {
        lru := [lru[0]] + Without(lru[1..], x);
        DistinctWithout(old(lru), x);
        cached := cached - {x};
      }
      lru := lru[1..];
    }

    method Clear()
      modifies this`lru, this`cached
      ensures Valid() && lru == []
    {
      cached := map[];
      lru := [];
    }
  }

  lemma {:induction false} DistinctCons<K(!new)>(x: K, s: seq<K>)
    ensures Distinct([x] + s) <==> x !in s && Distinct(s)
  {
    var t := [x] + s;
    if Distinct(t) {
      forall i, j | 0 <= i < j < |s| ensures s[i] != s[j] {
        assert t[i + 1] != t[j + 1];
      }
      forall i | 0 <= i < |s| ensures s[i] != x {
        assert t[0] != t[i + 1];
      }
    }
  }

  lemma {:induction false} CountsAgree<K(!new), V>(s: seq<K>, m: map<K, V>)
    requires Distinct(s) && forall k :: k in s <==> k in m
    ensures |s| == |m|
  {
    CountDistinct(s, m.Keys);
    assert |m.Keys| == |m|;
  }

  lemma {:induction false} CountDistinct<K(!new)>(s: seq<K>, keys: set<K>)
    requires Distinct(s) && forall k :: k in s <==> k in keys
    ensures |s| == |keys|
    decreases s
  {
    if s == [] {
      assert keys == {};
    } else {
      assert s == [s[0]] + s[1..];
      DistinctCons(s[0], s[1..]);
      CountDistinct(s[1..], keys - {s[0]});
    }
  }

  lemma {:induction false} DistinctWithout<K(!new)>(s: seq<K>, x: K)
    requires Distinct(s)
    ensures Distinct(Without(s, x)) && |Without(s, x)| == if x in s then |s| - 1 else |s|
  {
    if s != [] {
      assert s == [s[0]] + s[1..];
      DistinctCons(s[0], s[1..]);
      DistinctWithout(s[1..], x);
      DistinctCons(s[0], Without(s[1..], x));
    }
  }

  lemma {:induction false} DistinctFront<K(!new)>(s: seq<K>, x: K)
    requires Distinct(s) && x in s
    ensures Distinct([x] + Without(s, x)) && |[x] + Without(s, x)| == |s|
  {
    DistinctWithout(s, x);
    DistinctCons(x, Without(s, x));
  }

  // ---------------------------------------------------------------- whole runs

  lemma {:induction false} RecentParts<K(!new), V>(f: K -> Option<V>, calls: seq<K>)
    ensures Distinct(Recent(f, calls))
    ensures forall y :: y in Recent(f, calls) <==> y in calls && f(y).Some?
  {
    if calls != [] {
      var before, x := calls[..|calls| - 1], calls[|calls| - 1];
      RecentParts(f, before);
      DistinctWithout(Recent(f, before), x);
      DistinctCons(x, Without(Recent(f, before), x));
      assert calls == before + [x];
    }
  }

  lemma {:induction false} TakeCons<K(!new)>(x: K, s: seq<K>, n: nat)
    requires n > 0
    ensures Take([x] + s, n) == [x] + Take(s, n - 1)
  {
  }

  /** Taking and removing commute where the removed element is among those taken. */
  lemma {:induction false} TakeWithout<K(!new)>(s: seq<K>, n: nat, x: K)
    requires Distinct(s) && n > 0
    ensures Take(Without(s, x), n - 1) == if x in Take(s, n) then Without(Take(s, n), x) else Take(s, n - 1)
    decreases s
  {
    if s != [] {
      var t := s[1..];
      assert s == [s[0]] + t;
      DistinctCons(s[0], t);
      TakeCons(s[0], t, n);
      if s[0] == x {
        assert x !in Take(t, n - 1);
      } else if n > 1 {
        TakeWithout(t, n - 1, x);
        TakeCons(s[0], t, n - 1);
        TakeCons(s[0], Without(t, x), n - 1);
      }
    }
  }

  /** After any run of calls the list holds the n most recent distinct arguments that have a
      value, in recency order. */
  lemma {:induction false} RunIsRecent<K(!new), V>(f: K -> Option<V>, n: nat, calls: seq<K>)
    ensures Run(f, n, calls).lru == Take(Recent(f, calls), n)
  {
    if calls != [] {
      var before, x := calls[..|calls| - 1], calls[|calls| - 1];
      RunIsRecent(f, n, before);
      RecentParts(f, before);
      var s := Recent(f, before);
      if f(x).Some? && n > 0 {
        TakeWithout(s, n, x);
        TakeCons(x, Without(s, x), n);
        TakeCons(x, Take(s, n), n);
      }
    }
  }

  lemma {:induction false} EveryCallCounts<K(!new), V>(f: K -> Option<V>, n: nat, calls: seq<K>)
    ensures Run(f, n, calls).hits + Run(f, n, calls).misses == |calls|
  {
    if calls != [] { EveryCallCounts(f, n, calls[..|calls| - 1]); }
  }

  /** A larger cache holds what a smaller one holds, in the same order, and never hits less. */
  lemma {:induction false} LargerCacheIncludesSmaller<K(!new), V>(f: K -> Option<V>, n: nat, m: nat, calls: seq<K>)
    requires n <= m
    ensures Run(f, n, calls).lru <= Run(f, m, calls).lru
    ensures Run(f, n, calls).hits <= Run(f, m, calls).hits
  {
    RunIsRecent(f, n, calls);
    RunIsRecent(f, m, calls);
    if calls != [] { LargerCacheIncludesSmaller(f, n, m, calls[..|calls| - 1]); }
  }

  /** The arguments with a value in a list of calls. */
  ghost function Valued<K(!new), V>(f: K -> Option<V>, calls: seq<K>): set<K> {
    set y | y in calls && f(y).Some?
  }

  /** The place of x in the recency order is the number of distinct arguments called since. */
  lemma {:induction false} RecencyIsDistance<K(!new), V>(f: K -> Option<V>, before: seq<K>, x: K, since: seq<K>)
    requires f(x).Some? && x !in since
    ensures var r := Recent(f, before + [x] + since);
            var d := |Valued(f, since)|;
            && d < |r| && r[d] == x && forall y :: y in r[..d] <==> y in Valued(f, since)
    decreases since
  {
    var calls := before + [x] + since;
    if since == [] {
      assert calls == before + [x] && calls[..|calls| - 1] == before;
    } else {
      var earlier, y := since[..|since| - 1], since[|since| - 1];
      RecencyIsDistance(f, before, x, earlier);
      assert calls[..|calls| - 1] == before + [x] + earlier;
      assert since == earlier + [y];
      var s, d := Recent(f, before + [x] + earlier), |Valued(f, earlier)|;
      RecentParts(f, before + [x] + earlier);
      var next := if f(y).None? then Valued(f, earlier) else Valued(f, earlier) + {y};
      assert Valued(f, since) == next;
      if f(y).Some? { OneCallLater(s, Valued(f, earlier), x, y); }
    }
  }

  /** A call of y moves y to the front, and x behind it unless y was in front of x already. */
  lemma {:induction false} OneCallLater<K(!new)>(s: seq<K>, since: set<K>, x: K, y: K)
    requires Distinct(s) && |since| < |s| && s[|since|] == x && x != y
    requires forall z :: z in s[..|since|] <==> z in since
    ensures var r, d := [y] + Without(s, y), |since + {y}|;
            d < |r| && r[d] == x && forall z :: z in r[..d] <==> z in since + {y}
  {
    MoveToFront(s, |since|, y);
    if y in since {
      assert since + {y} == since;
    } else {
      assert |since + {y}| == |since| + 1;
    }
  }

  /** Moving y to the front shifts x, behind the first d, by one unless y was among them. */
  lemma {:induction false} MoveToFront<K(!new)>(s: seq<K>, d: nat, y: K)
    requires Distinct(s) && d < |s| && s[d] != y
    ensures var r, d' := [y] + Without(s, y), if y in s[..d] then d else d + 1;
            && d' < |r| && r[d'] == s[d] && forall z :: z in r[..d'] <==> z in s[..d] || z == y
    decreases s
  {
    WithoutAt(s, d, y);
    var w := Without(s, y);
    var k := if y in s[..d] then d - 1 else d;
    var r := [y] + w;
    assert r[..k + 1] == [y] + w[..k];
  }

  lemma {:induction false} WithoutAt<K(!new)>(s: seq<K>, d: nat, y: K)
    requires Distinct(s) && d < |s| && s[d] != y
    ensures var w, k := Without(s, y), if y in s[..d] then d - 1 else d;
            && 0 <= k < |w| && w[k] == s[d] && forall z :: z in w[..k] <==> z in s[..d] && z != y
    decreases s
  {
    if d == 0 {
      assert s[..0] == [];
    } else {
      WithoutAt(s[1..], d - 1, y);
      assert s[..d] == [s[0]] + s[1..][..d - 1];
      var w := Without(s[1..], y);
      if s[0] == y {
        assert y !in s[1..][..d - 1];
      } else {
        var k := if y in s[1..][..d - 1] then d - 2 else d - 1;
        assert ([s[0]] + w)[..k + 1] == [s[0]] + w[..k];
      }
    }
  }

  /** A call hits exactly when fewer than n distinct arguments with a value were called
      since the argument's own last call. */
  lemma {:induction false} HitIffFewCallsSince<K(!new), V>(f: K -> Option<V>, n: nat, before: seq<K>, x: K, since: seq<K>)
    requires f(x).Some? && x !in since
    ensures var calls := before + [x] + since;
            Run(f, n, calls + [x]).hits == Run(f, n, calls).hits + 1 <==> |Valued(f, since)| < n
  {
    var calls := before + [x] + since;
    RunIsRecent(f, n, calls);
    RecencyIsDistance(f, before, x, since);
    RecentParts(f, calls);
    assert (calls + [x])[..|calls|] == calls;
    var r, d := Recent(f, calls), |Valued(f, since)|;
    if d < n {
      assert Take(r, n)[d] == x;
    } else {
      assert forall i | 0 <= i < n && i < |r| :: r[i] != x;
    }
  }
}
