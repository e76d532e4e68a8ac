/** What the LRU order is worth: its exact content after any trace, and bounds on its misses. */
module LruBounds {
  import opened Lru

  // ---- Exact state ----

  /** The position after the last use of `p` in `trace`, or 0 when `p` is never used. */
  function LastUse(trace: seq<nat>, p: nat): (k: nat)
    ensures k <= |trace|
  {
    if trace == [] then 0
    else if trace[|trace| - 1] == p then |trace|
    else LastUse(trace[..|trace| - 1], p)
  }

  /** The keys are used, ordered by last use, and every page used later than one of them is a key. */
  ghost predicate ByUse(order: seq<nat>, use: nat -> nat) {
    && (forall i :: 0 <= i < |order| ==> use(order[i]) > 0)
    && (forall i, j :: 0 <= i < j < |order| ==> use(order[i]) < use(order[j]))
    && (forall q, i :: q !in order && 0 <= i < |order| ==> use(q) < use(order[i]))
  }

  /** `after` is `use` once `p` has been used again. */
  ghost predicate UsedNow(use: nat -> nat, p: nat, after: nat -> nat) {
    && (forall q :: use(q) < after(p))
    && (forall q :: q != p ==> after(q) == use(q))
  }

  lemma RotateElems(order: seq<nat>, k: nat)
    requires k < |order|
    ensures Elems(order[..k] + order[k + 1..] + [order[k]]) == Elems(order)
  {
    var o := order[..k] + order[k + 1..] + [order[k]];
    forall i | 0 <= i < |order| ensures order[i] in o {
      assert order[i] == o[if i < k then i else if i == k then |order| - 1 else i - 1];
    }
  }

  lemma HitByUse(order: seq<nat>, k: nat, use: nat -> nat, after: nat -> nat)
    requires Distinct(order) && k < |order| && ByUse(order, use) && UsedNow(use, order[k], after)
    ensures ByUse(order[..k] + order[k + 1..] + [order[k]], after)
  {
    var o := order[..k] + order[k + 1..] + [order[k]];
    RotateElems(order, k);
    assert forall q :: q in o <==> q in Elems(order);
    assert forall i :: 0 <= i < |o| - 1 ==> o[i] == order[if i < k then i else i + 1];
  }

  lemma AppendByUse(order: seq<nat>, p: nat, use: nat -> nat, after: nat -> nat)
    requires p !in order && ByUse(order, use) && UsedNow(use, p, after)
    ensures ByUse(order + [p], after)
  {
    assert p in order + [p] && use(p) < after(p);
  }

  lemma NewestByUse(order: seq<nat>, use: nat -> nat)
    requires order != [] && ByUse(order, use)
    ensures ByUse(order[1..], use) && order[0] !in order[1..]
  {
    assert forall q :: q in order ==> q == order[0] || q in order[1..];
  }

  lemma TouchByUse(order: seq<nat>, p: nat, cap: nat, use: nat -> nat, after: nat -> nat)
    requires cap > 0 && Fits(order, cap) && ByUse(order, use) && UsedNow(use, p, after)
    ensures ByUse(Touch(order, p, cap), after)
  {
    if p in order {
      HitByUse(order, IndexOf(order, p), use, after);
    } else if |order| >= cap {
      NewestByUse(order, use);
      AppendByUse(order[1..], p, use, after);
    } else {
      AppendByUse(order, p, use, after);
    }
  }

  lemma SubsetSize(a: set<nat>, b: set<nat>)
    requires a <= b
    ensures |a| <= |b| && (|a| == |b| ==> a == b)
  {
    assert b == a + (b - a);
  }

  lemma TouchSize(order: seq<nat>, seen: set<nat>, p: nat, cap: nat)
    requires cap > 0 && Fits(order, cap) && Elems(order) <= seen
    requires |order| == if |seen| <= cap then |seen| else cap
    ensures |Touch(order, p, cap)| == if |seen + {p}| <= cap then |seen + {p}| else cap
  {
    DistinctSize(order);
    SubsetSize(Elems(order), seen);
    TouchFits(order, p, cap);
    DistinctSize(Touch(order, p, cap));
    SubsetSize(seen, seen + {p});
    assert p in seen ==> seen + {p} == seen;
    assert p !in seen ==> p !in Elems(order);
    assert p !in seen ==> |seen + {p}| == |seen| + 1;
  }

  ghost function Uses(trace: seq<nat>): nat -> nat {
    q => LastUse(trace, q)
  }

  lemma {:induction false} UsesSnoc(trace: seq<nat>)
    requires trace != []
    ensures UsedNow(Uses(trace[..|trace| - 1]), trace[|trace| - 1], Uses(trace))
  {
  }

  /** After any trace the keys are the most recent min(cap, distinct) pages, by last use. */
  lemma {:induction false} ExactState(trace: seq<nat>, cap: nat)
    requires cap > 0
    ensures var order := Run([], trace, cap);
            && Fits(order, cap)
            && Elems(order) <= Elems(trace)
            && |order| == (if |Elems(trace)| <= cap then |Elems(trace)| else cap)
            && ByUse(order, Uses(trace))
  {
    hide Touch, ByUse, UsedNow, Uses, Distinct;
    if trace == [] {
      EmptyByUse();
    } else {
      var front, p := trace[..|trace| - 1], trace[|trace| - 1];
      var order := Run([], front, cap);
      ExactState(front, cap);
      assert Elems(trace) == Elems(front) + {p} by { assert trace == front + [p]; }
      TouchFits(order, p, cap);
      TouchSize(order, Elems(front), p, cap);
      UsesSnoc(trace);
      TouchByUse(order, p, cap, Uses(front), Uses(trace));
    }
  }

  lemma EmptyByUse()
    ensures Distinct([]) && ByUse([], Uses([]))
  {
  }

  /** That description determines the order: it is complete. */
  lemma {:induction false} ExactStateUnique(a: seq<nat>, b: seq<nat>, use: nat -> nat)
    requires |a| == |b| && ByUse(a, use) && ByUse(b, use)
    ensures a == b
    decreases |a|
  {
    if a != [] {
      NewestByUse(a, use);
      NewestByUse(b, use);
      ExactStateUnique(a[1..], b[1..], use);
      SameOldest(a, b, use);
    }
  }

  lemma SameOldest(a: seq<nat>, b: seq<nat>, use: nat -> nat)
    requires a != [] && b != [] && a[1..] == b[1..] && a[0] !in a[1..] && b[0] !in b[1..]
    requires ByUse(a, use) && ByUse(b, use)
    ensures a == b
  {
    assert a == [a[0]] + a[1..] && b == [b[0]] + b[1..];
    var x, y := a[0], b[0];
    if x != y {
      assert false;
    }
  }

  // ---- A larger cache holds a superset ----

  function Newest(order: seq<nat>, cap: nat): seq<nat> {
    if |order| <= cap then order else order[|order| - cap..]
  }

  lemma HitNewest(order: seq<nat>, p: nat, small: nat, large: nat)
    requires 0 < small <= large && Fits(order, large) && p in Newest(order, small)
    ensures Touch(Newest(order, small), p, small) == Newest(Touch(order, p, large), small)
  {
    hide IndexOf, Without;
    var tail := Newest(order, small);
    var m := |order| - |tail|;
    assert tail == order[m..];
    var k := m + IndexOf(tail, p);
    assert order[k] == p;
    RotateTail(order, m, k);
    WithoutElems(order, p);
    assert Touch(order, p, large) == MoveToEnd(order, p) && |MoveToEnd(order, p)| == |order|;
    if m == 0 {
      assert order[0..] == order;
    }
  }

  lemma MissNewest(order: seq<nat>, p: nat, small: nat, large: nat)
    requires 0 < small <= large && Fits(order, large) && p !in Newest(order, small)
    ensures Touch(Newest(order, small), p, small) == Newest(Touch(order, p, large), small)
  {
    var m := |order| - small;
    if m > 0 {
      var rest := order[m + 1..];
      assert order[m..][1..] == rest;
      ExtendTail(order, m + 1, p, large);
    } else if m == 0 {
      assert (order + [p])[1..] == order[1..] + [p];
    }
  }

  lemma TouchNewest(order: seq<nat>, p: nat, small: nat, large: nat)
    requires 0 < small <= large && Fits(order, large)
    ensures Touch(Newest(order, small), p, small) == Newest(Touch(order, p, large), small)
  {
    if p in Newest(order, small) {
      HitNewest(order, p, small, large);
    } else {
      MissNewest(order, p, small, large);
    }
  }

  /** The stack property: on one trace the larger cache holds every key of the smaller one. */
  lemma {:induction false} Inclusion(trace: seq<nat>, small: nat, large: nat)
    requires 0 < small <= large
    ensures Run([], trace, small) == Newest(Run([], trace, large), small)
    ensures Elems(Run([], trace, small)) <= Elems(Run([], trace, large))
    ensures Misses([], trace, large) <= Misses([], trace, small)
  {
    if trace != [] {
      var front, p := trace[..|trace| - 1], trace[|trace| - 1];
      Inclusion(front, small, large);
      RunFits([], front, large);
      TouchNewest(Run([], front, large), p, small, large);
    }
  }

  // ---- Fault bounds ----

  /** A stretch over at most `cap` distinct pages misses each of them at most once. */
  lemma {:induction false} FewPagesFewMisses(order: seq<nat>, trace: seq<nat>, cap: nat)
    requires cap > 0 && Fits(order, cap) && |Elems(trace)| <= cap
    ensures Misses(order, trace, cap) <= |Elems(trace)|
    ensures Recent(Run(order, trace, cap), Elems(trace))
  {
    if trace == [] {
      assert Elems(trace) == {};
      assert order[|order|..] == [];
    } else {
      var front, p := trace[..|trace| - 1], trace[|trace| - 1];
      assert Elems(trace) == Elems(front) + {p} by { assert trace == front + [p]; }
      SubsetSize(Elems(front), Elems(trace));
      FewPagesFewMisses(order, front, cap);
      RunFits(order, front, cap);
      TouchRecent(Run(order, front, cap), Elems(front), p, cap);
      assert p !in Elems(front) ==> |Elems(trace)| == |Elems(front)| + 1;
    }
  }

  /** The contents of some other cache under demand paging: a hit changes nothing, a miss brings
      the page in and drops at most one page. */
  ghost predicate DemandStep(held: set<nat>, after: set<nat>, p: nat, cap: nat) {
    && |after| <= cap
    && if p in held then after == held
       else p in after && after <= held + {p} && |held - after| <= 1
  }

  ghost predicate DemandRun(held: seq<set<nat>>, trace: seq<nat>, cap: nat) {
    && |held| == |trace| + 1
    && |held[0]| <= cap
    && forall i {:trigger trace[i]} :: 0 <= i < |trace| ==> DemandStep(held[i], held[i + 1], trace[i], cap)
  }

  ghost function DemandMisses(held: seq<set<nat>>, trace: seq<nat>): nat
    requires |held| == |trace| + 1
  {
    if trace == [] then 0
    else
      var n := |trace| - 1;
      DemandMisses(held[..n + 1], trace[..n]) + if trace[n] in held[n] then 0 else 1
  }

  lemma {:induction false} HitsChangeNothing(held: seq<set<nat>>, trace: seq<nat>, cap: nat)
    requires DemandRun(held, trace, cap) && DemandMisses(held, trace) == 0
    ensures Elems(trace) <= held[0] && held[|trace|] == held[0]
  {
    if trace != [] {
      var n := |trace| - 1;
      HitsChangeNothing(held[..n + 1], trace[..n], cap);
      assert trace == trace[..n] + [trace[n]];
    }
  }

  /** A stretch with more than `cap` misses touches more than `cap` pages, so that every
      demand-paged cache of that capacity misses in it too. */
  lemma FaultBound(order: seq<nat>, trace: seq<nat>, cap: nat, held: seq<set<nat>>)
    requires cap > 0 && Fits(order, cap) && Misses(order, trace, cap) > cap
    requires DemandRun(held, trace, cap)
    ensures |Elems(trace)| > cap
    ensures DemandMisses(held, trace) > 0
  {
    if |Elems(trace)| <= cap {
      FewPagesFewMisses(order, trace, cap);
    }
    if DemandMisses(held, trace) == 0 {
      HitsChangeNothing(held, trace, cap);
      SubsetSize(Elems(trace), held[0]);
    }
  }

  // ---- LRU against any other replacement policy ----

  /** Keys of LRU that the other cache lacks, each weighted by how recently LRU used it:
      the newest weighs `cap`, the one before it `cap - 1`, and so on. */
  ghost function Potential(order: seq<nat>, held: set<nat>, cap: nat): (v: nat)
    requires |order| <= cap
  {
    if order == [] then 0
    else (if order[0] in held then 0 else cap + 1 - |order|) + Potential(order[1..], held, cap)
  }

  ghost function Lacking(order: seq<nat>, held: set<nat>): nat {
    if order == [] then 0
    else (if order[0] in held then 0 else 1) + Lacking(order[1..], held)
  }

  /** A page the other cache holds becomes the newest key: every lacking key loses one. */
  lemma {:induction false} PotentialAppend(order: seq<nat>, p: nat, held: set<nat>, cap: nat)
    requires |order| < cap && p in held
    ensures Potential(order + [p], held, cap) == Potential(order, held, cap) - Lacking(order, held)
  {
    if order != [] {
      assert (order + [p])[1..] == order[1..] + [p];
      PotentialAppend(order[1..], p, held, cap);
    }
  }

  lemma {:induction false} PotentialRotate(order: seq<nat>, k: nat, held: set<nat>, cap: nat)
    requires |order| <= cap && k < |order| && order[k] in held
    ensures Potential(order[..k] + order[k + 1..] + [order[k]], held, cap) <= Potential(order, held, cap)
  {
    var o := order[..k] + order[k + 1..] + [order[k]];
    if k == 0 {
      assert o == order[1..] + [order[0]];
      PotentialAppend(order[1..], order[0], held, cap);
    } else {
      var rest := order[1..];
      PotentialRotate(rest, k - 1, held, cap);
      assert o[1..] == rest[..k - 1] + rest[k..] + [rest[k - 1]];
    }
  }

  /** The other cache drops at most one page `y` and brings in one page. */
  lemma {:induction false} PotentialSwap(order: seq<nat>, held: set<nat>, after: set<nat>, cap: nat)
    requires Fits(order, cap) && |held - after| <= 1
    ensures Potential(order, after, cap) <= Potential(order, held, cap) + cap
    ensures Elems(order) * (held - after) == {} ==> Potential(order, after, cap) <= Potential(order, held, cap)
  {
    if order != [] {
      var rest := order[1..];
      PotentialSwap(rest, held, after, cap);
      assert Elems(order) == {order[0]} + Elems(rest) by { assert order == [order[0]] + rest; }
      if order[0] in held && order[0] !in after {
        assert held - after == {order[0]} by { SubsetSize({order[0]}, held - after); }
        assert order[0] !in rest;
        assert Elems(rest) * (held - after) == {};
      }
    }
  }

  lemma {:induction false} LackingNone(order: seq<nat>, held: set<nat>)
    requires Lacking(order, held) == 0
    ensures Elems(order) <= held
  {
    if order != [] {
      LackingNone(order[1..], held);
      assert order == [order[0]] + order[1..];
    }
  }

  /** A miss of LRU on a page the other cache holds by now lowers the potential or fills LRU. */
  lemma PotentialMiss(order: seq<nat>, p: nat, held: set<nat>, cap: nat)
    requires cap > 0 && Fits(order, cap) && p !in order && p in held && |held| <= cap
    ensures var o := Touch(order, p, cap);
            |o| <= cap && Potential(o, held, cap) + 1 + |order| <= Potential(order, held, cap) + |o|
  {
    if |order| < cap {
      PotentialAppend(order, p, held, cap);
    } else {
      if Lacking(order, held) == 0 {
        LackingNone(order, held);
        DistinctSize(order);
        SubsetSize(Elems(order) + {p}, held);
        assert false;
      }
      PotentialAppend(order[1..], p, held, cap);
    }
  }

  lemma {:induction false} CompetitiveStep(order: seq<nat>, p: nat, held: set<nat>, after: set<nat>, cap: nat)
    requires cap > 0 && Fits(order, cap) && |held| <= cap && DemandStep(held, after, p, cap)
    ensures var o := Touch(order, p, cap);
            && |o| <= cap
            && (if p in order then 0 else 1) + Potential(o, after, cap) + |order|
               <= Potential(order, held, cap) + |o| + (if p in held then 0 else cap)
  {
    PotentialSwap(order, held, after, cap);
    if p in held { assert held - after == {}; }
    if p in order {
      WithoutElems(order, p);
      PotentialRotate(order, IndexOf(order, p), after, cap);
    } else {
      PotentialMiss(order, p, after, cap);
    }
  }

  lemma {:induction false} DemandFront(held: seq<set<nat>>, trace: seq<nat>, cap: nat)
    requires DemandRun(held, trace, cap) && trace != []
    ensures var n := |trace| - 1;
            && DemandRun(held[..n + 1], trace[..n], cap)
            && DemandStep(held[n], held[n + 1], trace[n], cap)
  {
  }

  lemma {:induction false} DemandCost(held: seq<set<nat>>, trace: seq<nat>, cap: nat)
    requires |held| == |trace| + 1 && trace != []
    ensures var n := |trace| - 1;
            cap * DemandMisses(held, trace)
            == cap * DemandMisses(held[..n + 1], trace[..n]) + if trace[n] in held[n] then 0 else cap
  {
    var n := |trace| - 1;
    var d := DemandMisses(held[..n + 1], trace[..n]);
    if trace[n] !in held[n] {
      assert DemandMisses(held, trace) == d + 1;
    }
  }

  lemma {:induction false} CompetitiveRun(trace: seq<nat>, cap: nat, held: seq<set<nat>>)
    requires cap > 0 && DemandRun(held, trace, cap)
    ensures var o := Run([], trace, cap);
            && Fits(o, cap)
            && |held[|trace|]| <= cap
            && Misses([], trace, cap) + Potential(o, held[|trace|], cap)
               <= cap * DemandMisses(held, trace) + |o|
  {
    if trace != [] {
      var n := |trace| - 1;
      DemandFront(held, trace, cap);
      DemandCost(held, trace, cap);
      CompetitiveRun(trace[..n], cap, held[..n + 1]);
      CompetitiveStep(Run([], trace[..n], cap), trace[n], held[n], held[n + 1], cap);
      TouchFits(Run([], trace[..n], cap), trace[n], cap);
    }
  }

  function TimesMore(cap: nat, n: nat): nat {
    cap * n + cap
  }

  /** LRU misses at most `cap` times as often as any demand-paged cache of its size, the best
      offline one included, plus once per page it can hold. */
  lemma {:induction false} Competitive(trace: seq<nat>, cap: nat, held: seq<set<nat>>)
    requires cap > 0 && DemandRun(held, trace, cap)
    ensures Misses([], trace, cap) <= TimesMore(cap, DemandMisses(held, trace))
  {
    CompetitiveRun(trace, cap, held);
  }
}
