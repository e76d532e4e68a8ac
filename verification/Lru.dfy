/** The recency order of an OrderedDict used as an LRU list: least recent first. */
module Lru {

  function Elems(s: seq<nat>): set<nat> {
    set p | p in s
  }

  predicate Distinct(s: seq<nat>) {
    forall i, j :: 0 <= i < j < |s| ==> s[i] != s[j]
  }

  function IndexOf(s: seq<nat>, p: nat): (k: nat)
    requires p in s
    ensures k < |s| && s[k] == p
  {
    if s[0] == p then 0 else 1 + IndexOf(s[1..], p)
  }

  /** Deleting a key from the order. */
  function Without(s: seq<nat>, p: nat): seq<nat> {
    if p in s then var k := IndexOf(s, p); s[..k] + s[k + 1..] else s
  }

  /** `move_to_end`, or pop and insert again. */
  function MoveToEnd(s: seq<nat>, p: nat): seq<nat> {
    Without(s, p) + [p]
  }

  /** One page touch of a cache that evicts before it inserts. */
  function Touch(order: seq<nat>, p: nat, cap: nat): seq<nat>
    requires cap > 0
  {
    if p in order then MoveToEnd(order, p)
    else (if |order| >= cap then order[1..] else order) + [p]
  }

  /** Dropping keys from the front while there are more than `cap` of them. */
  function Trim(order: seq<nat>, cap: nat): seq<nat>
    decreases |order|
  {
    if |order| > cap then Trim(order[1..], cap) else order
  }

  /** One page touch of a cache that inserts first and then trims. */
  function TouchThenTrim(order: seq<nat>, p: nat, cap: nat): seq<nat> {
    if p in order then MoveToEnd(order, p)
    else Trim(order + [p], cap)
  }

  function Run(order: seq<nat>, trace: seq<nat>, cap: nat): seq<nat>
    requires cap > 0
  {
    if trace == [] then order
    else Touch(Run(order, trace[..|trace| - 1], cap), trace[|trace| - 1], cap)
  }

  function Misses(order: seq<nat>, trace: seq<nat>, cap: nat): nat
    requires cap > 0
  {
    if trace == [] then 0
    else
      var before := trace[..|trace| - 1];
      Misses(order, before, cap) + if trace[|trace| - 1] in Run(order, before, cap) then 0 else 1
  }

  /** An order a cache of capacity `cap` can be in. */
  predicate Fits(order: seq<nat>, cap: nat) {
    Distinct(order) && |order| <= cap
  }

  lemma WithoutElems(s: seq<nat>, p: nat)
    requires Distinct(s)
    ensures Distinct(Without(s, p)) && Elems(Without(s, p)) == Elems(s) - {p}
    ensures |Without(s, p)| == if p in s then |s| - 1 else |s|
  {
    hide IndexOf;
    if p in s {
      var k := IndexOf(s, p);
      var w := Without(s, p);
      forall q | q in s && q != p ensures q in w {
        var i :| 0 <= i < |s| && s[i] == q;
        assert w[if i < k then i else i - 1] == q;
      }
    }
  }

  lemma DistinctSize(s: seq<nat>)
    requires Distinct(s)
    ensures |Elems(s)| == |s|
  {
    if s != [] {
      var front := s[..|s| - 1];
      DistinctSize(front);
      assert Elems(s) == Elems(front) + {s[|s| - 1]};
    }
  }

  lemma TouchFits(order: seq<nat>, p: nat, cap: nat)
    requires cap > 0 && Fits(order, cap)
    ensures Fits(Touch(order, p, cap), cap)
    ensures var o := Touch(order, p, cap); |o| > 0 && o[|o| - 1] == p
    ensures Elems(Touch(order, p, cap)) ==
            if p in order || |order| < cap then Elems(order) + {p}
            else Elems(order) - {order[0]} + {p}
  {
    WithoutElems(order, p);
    var o := Touch(order, p, cap);
    if p in order {
      assert Elems(o) == Elems(Without(order, p)) + {p};
    } else if |order| >= cap {
      assert order == [order[0]] + order[1..];
      assert Elems(o) == Elems(order[1..]) + {p};
    } else {
      assert Elems(o) == Elems(order) + {p};
    }
  }

  lemma RunFits(order: seq<nat>, trace: seq<nat>, cap: nat)
    requires cap > 0 && Fits(order, cap)
    ensures Fits(Run(order, trace, cap), cap)
  {
    if trace != [] {
      RunFits(order, trace[..|trace| - 1], cap);
      TouchFits(Run(order, trace[..|trace| - 1], cap), trace[|trace| - 1], cap);
    }
  }

  /** Running two traces one after the other. */
  lemma {:induction false} RunConcat(order: seq<nat>, a: seq<nat>, b: seq<nat>, cap: nat)
    requires cap > 0
    ensures Run(order, a + b, cap) == Run(Run(order, a, cap), b, cap)
    ensures Misses(order, a + b, cap) == Misses(order, a, cap) + Misses(Run(order, a, cap), b, cap)
    decreases |b|
  {
    if b == [] {
      assert a + b == a;
    } else {
      var front := b[..|b| - 1];
      assert (a + b)[..|a + b| - 1] == a + front;
      RunConcat(order, a, front, cap);
    }
  }

  // ---- Order and counters together ----

  datatype Tally = Tally(order: seq<nat>, hits: nat, misses: nat)

  function TouchOne(t: Tally, p: nat, cap: nat): Tally
    requires cap > 0
  {
    Tally(Touch(t.order, p, cap), t.hits + (if p in t.order then 1 else 0), t.misses + (if p in t.order then 0 else 1))
  }

  /** Touching the pages of a trace one after the other. */
  function TouchAll(t: Tally, trace: seq<nat>, cap: nat): Tally
    requires cap > 0
    decreases |trace|
  {
    if trace == [] then t else TouchAll(TouchOne(t, trace[0], cap), trace[1..], cap)
  }

  lemma {:induction false} TouchAllRuns(t: Tally, trace: seq<nat>, cap: nat)
    requires cap > 0
    ensures var r := TouchAll(t, trace, cap);
            && r.order == Run(t.order, trace, cap)
            && r.misses == t.misses + Misses(t.order, trace, cap)
            && r.hits + r.misses == t.hits + t.misses + |trace|
    decreases |trace|
  {
    if trace != [] {
      var p, rest := trace[0], trace[1..];
      assert trace == [p] + rest;
      TouchAllRuns(TouchOne(t, p, cap), rest, cap);
      RunConcat(t.order, [p], rest, cap);
      assert [p][..0] == [];
      assert Run(t.order, [p], cap) == Touch(t.order, p, cap);
      assert Misses(t.order, [p], cap) == if p in t.order then 0 else 1;
    }
  }

  /** Evict-before-insert and insert-then-trim keep the same order. */
  lemma TrimmingIsTouching(order: seq<nat>, p: nat, cap: nat)
    requires cap > 0 && Fits(order, cap)
    ensures TouchThenTrim(order, p, cap) == Touch(order, p, cap)
  {
    if p !in order && |order| == cap {
      var longer := order + [p];
      assert longer[1..] == order[1..] + [p];
      assert Trim(longer, cap) == Trim(longer[1..], cap);
    }
  }

  // ---- The pages touched since some moment are the most recent ones ----

  /** `recent` is exactly the set of the last |recent| keys of the order. */
  predicate Recent(order: seq<nat>, recent: set<nat>) {
    |recent| <= |order| && Elems(order[|order| - |recent|..]) == recent
  }

  lemma WithoutAt(s: seq<nat>, k: nat)
    requires Distinct(s) && k < |s|
    ensures Without(s, s[k]) == s[..k] + s[k + 1..]
  {
    assert IndexOf(s, s[k]) == k;
  }

  /** A touched page that is already among the last keys stays among them. */
  lemma RotateTail(order: seq<nat>, m: nat, k: nat)
    requires Distinct(order) && m <= k < |order|
    ensures MoveToEnd(order, order[k])[m..] == MoveToEnd(order[m..], order[k])
    ensures Elems(MoveToEnd(order, order[k])[m..]) == Elems(order[m..])
  {
    var tail := order[m..];
    assert tail[k - m] == order[k];
    WithoutAt(order, k);
    WithoutAt(tail, k - m);
    assert (order[..k] + order[k + 1..] + [order[k]])[m..] == tail[..k - m] + tail[k - m + 1..] + [order[k]];
    WithoutElems(tail, order[k]);
    assert Elems(MoveToEnd(tail, order[k])) == Elems(Without(tail, order[k])) + {order[k]};
  }

  /** A page outside the last keys joins them and pushes none of them out. */
  lemma ExtendTail(order: seq<nat>, m: nat, p: nat, cap: nat)
    requires cap > 0 && Fits(order, cap) && m <= |order| && p !in order[m..]
    requires |order| - m < cap
    ensures var o := Touch(order, p, cap); var start := |o| - (|order| - m) - 1;
            start >= 0 && o[start..] == order[m..] + [p]
  {
    var tail := order[m..];
    if p in order {
      var k := IndexOf(order, p);
      if k < m {
        WithoutAt(order, k);
        assert (order[..k] + order[k + 1..] + [p])[m - 1..] == tail + [p];
      }
    }
  }

  lemma TouchInRecent(order: seq<nat>, recent: set<nat>, p: nat, cap: nat)
    requires cap > 0 && Fits(order, cap) && Recent(order, recent) && p in recent
    ensures Recent(Touch(order, p, cap), recent) && p in order
  {
    hide IndexOf, Without;
    var m := |order| - |recent|;
    assert p in Elems(order[m..]);
    var k := m + IndexOf(order[m..], p);
    RotateTail(order, m, k);
    WithoutElems(order, p);
    assert Touch(order, p, cap) == MoveToEnd(order, p);
    assert |MoveToEnd(order, p)| == |order|;
  }

  lemma OldestOutside(order: seq<nat>, m: nat)
    requires Distinct(order) && m <= |order|
    ensures m > 0 ==> order[0] !in Elems(order[m..])
  {
  }

  lemma TouchOutsideRecent(order: seq<nat>, recent: set<nat>, p: nat, cap: nat)
    requires cap > 0 && Fits(order, cap) && Recent(order, recent) && p !in recent
    requires |recent| < cap
    ensures Recent(Touch(order, p, cap), recent + {p})
    ensures p !in order && |order| >= cap ==> order[0] !in recent
  {
    var m := |order| - |recent|;
    assert p !in order[m..];
    ExtendTail(order, m, p, cap);
    assert Elems(order[m..] + [p]) == recent + {p};
    assert |recent + {p}| == |recent| + 1;
    OldestOutside(order, m);
  }

  /** As long as at most `cap` distinct pages are touched, none of them is evicted. */
  lemma TouchRecent(order: seq<nat>, recent: set<nat>, p: nat, cap: nat)
    requires cap > 0 && Fits(order, cap) && Recent(order, recent)
    requires |recent + {p}| <= cap
    ensures Recent(Touch(order, p, cap), recent + {p})
    ensures p !in order && |order| >= cap ==> order[0] !in recent
    ensures p in recent ==> p in order
  {
    if p in recent {
      assert recent + {p} == recent;
      TouchInRecent(order, recent, p, cap);
    } else {
      assert |recent + {p}| == |recent| + 1;
      TouchOutsideRecent(order, recent, p, cap);
    }
  }
}
