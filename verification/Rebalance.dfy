/** Oversampling conversations that start with a selection (revise/generate_sft_data.py). Ratios are exact. */
module Rebalance {
  import opened Py

  /** How many conversations are added to `total`, of which `selects` start with a selection. */
  function Needed(selects: nat, total: nat, target: real): int
    requires target < 1.0
  {
    Ceil((target * total as real - selects as real) / (1.0 - target))
  }

  function Ratio(selects: nat, total: nat): real
    requires total > 0
  {
    selects as real / total as real
  }

  lemma DivideOut(a: real, b: real, d: real)
    requires d > 0.0
    ensures a / d <= b <==> a <= b * d
  {
    assert a == (a / d) * d;
    if a / d <= b {
      assert (b - a / d) * d >= 0.0;
    } else {
      assert (a / d - b) * d > 0.0;
    }
  }

  lemma CeilBound(x: real, k: int)
    ensures x <= k as real <==> Ceil(x) <= k
  {
  }

  /** The share of selections after adding `k` of them is large enough. */
  predicate Meets(selects: nat, total: nat, k: nat, target: real)
    requires total > 0
  {
    Ratio(selects + k, total + k) >= target
  }

  lemma Rearrange(s: real, n: real, x: real, t: real)
    ensures t * (n + x) <= s + x <==> t * n - s <= x * (1.0 - t)
  {
    assert t * (n + x) == t * n + t * x;
    assert x * (1.0 - t) == x - t * x;
  }

  /** The number added is the least one that brings the ratio up to the target. */
  lemma NeededIsLeast(selects: nat, total: nat, target: real, k: nat)
    requires 0.0 < target < 1.0 && total > 0
    ensures Meets(selects, total, k, target) <==> k >= Needed(selects, total, target)
  {
    hide Meets, Needed;
    MeetsIs(selects, total, target, k);
    NeededIs(selects, total, target, k);
    Rearrange(selects as real, total as real, k as real, target);
  }

  lemma MeetsIs(selects: nat, total: nat, target: real, k: nat)
    requires total > 0
    ensures var s, n, x := selects as real, total as real, k as real;
            Meets(selects, total, k, target) <==> target * (n + x) <= s + x
  {
    assert (total + k) as real == total as real + k as real && (selects + k) as real == selects as real + k as real;
    RatioAtLeast((selects + k) as real, (total + k) as real, target);
  }

  lemma NeededIs(selects: nat, total: nat, target: real, k: nat)
    requires target < 1.0
    ensures var s, n, x := selects as real, total as real, k as real;
            k >= Needed(selects, total, target) <==> target * n - s <= x * (1.0 - target)
  {
    hide Ceil;
    var gap := target * total as real - selects as real;
    DivideOut(gap, k as real, 1.0 - target);
    CeilBound(gap / (1.0 - target), k);
  }

  lemma RatioAtLeast(a: real, b: real, t: real)
    requires b > 0.0
    ensures a / b >= t <==> t * b <= a
  {
    assert a == (a / b) * b;
    if a / b >= t {
      assert (a / b - t) * b >= 0.0;
    } else {
      assert (t - a / b) * b > 0.0;
    }
  }

  datatype Outcome<C> = BadTarget | Balanced(conversations: seq<C>)

  function Count<C>(isSelect: C -> bool, s: seq<C>): nat {
    if s == [] then 0 else (if isSelect(s[0]) then 1 else 0) + Count(isSelect, s[1..])
  }

  function Selects<C>(isSelect: C -> bool, s: seq<C>): (r: seq<C>)
    ensures |r| == Count(isSelect, s) && forall c :: c in r ==> isSelect(c) && c in s
  {
    if s == [] then [] else (if isSelect(s[0]) then [s[0]] else []) + Selects(isSelect, s[1..])
  }

  lemma {:induction false} CountSum<C>(isSelect: C -> bool, a: seq<C>, b: seq<C>)
    ensures Count(isSelect, a + b) == Count(isSelect, a) + Count(isSelect, b)
  {
    if a == [] {
      assert a + b == b;
    } else {
      assert (a + b)[1..] == a[1..] + b;
      CountSum(isSelect, a[1..], b);
    }
  }

  lemma {:induction false} CountAll<C>(isSelect: C -> bool, s: seq<C>)
    ensures Count(isSelect, s) <= |s|
    ensures (forall c :: c in s ==> isSelect(c)) ==> Count(isSelect, s) == |s|
  {
    if s != [] {
      CountAll(isSelect, s[1..]);
    }
  }

  /** `rng.choices(pool, k)`: any `k` members of the pool. */
  ghost predicate IsChoice<C>(pool: seq<C>, k: int, chosen: seq<C>) {
    |chosen| == Max(0, k) && forall c :: c in chosen ==> c in pool
  }

  /** `rebalance_first_select_ratio`, with the random choice and the random order it makes. */
  function Augmented<C>(isSelect: C -> bool, conversations: seq<C>, target: real, choose: (seq<C>, int) -> seq<C>,
                        shuffle: seq<C> -> seq<C>)
    : Outcome<C>
  {
    if target <= 0.0 || conversations == [] then Balanced(conversations)
    else if target >= 1.0 then BadTarget
    else
      var pool := Selects(isSelect, conversations);
      if Ratio(|pool|, |conversations|) >= target || pool == [] then Balanced(conversations)
      else Balanced(shuffle(conversations + choose(pool, Needed(|pool|, |conversations|, target))))
  }

  /** The cases in which nothing is chosen and the order is kept, and the targets that are refused. */
  lemma LeftAlone<C>(isSelect: C -> bool, conversations: seq<C>, target: real, choose: (seq<C>, int) -> seq<C>,
                     shuffle: seq<C> -> seq<C>)
    ensures var r := Augmented(isSelect, conversations, target, choose, shuffle);
            var n, s := |conversations|, Count(isSelect, conversations);
            && (target <= 0.0 || n == 0 ==> r == Balanced(conversations))
            && (r.BadTarget? <==> target >= 1.0 && n > 0)
            && (0.0 < target < 1.0 && n > 0 && (s == 0 || s as real / n as real >= target) ==>
                  r == Balanced(conversations))
  {
    hide Needed;
  }

  /** `rng.shuffle`: the same conversations in some order. */
  ghost predicate IsShuffle<C(!new)>(shuffle: seq<C> -> seq<C>) {
    forall s :: multiset(shuffle(s)) == multiset(s)
  }

  lemma TakeOut<C>(b: seq<C>, i: nat)
    requires i < |b|
    ensures multiset(b[..i] + b[i + 1..]) == multiset(b) - multiset{b[i]}
  {
    assert b == b[..i] + ([b[i]] + b[i + 1..]);
  }

  lemma CountTakeOut<C>(isSelect: C -> bool, b: seq<C>, i: nat)
    requires i < |b|
    ensures Count(isSelect, b) == Count(isSelect, b[..i] + b[i + 1..]) + if isSelect(b[i]) then 1 else 0
  {
    var tail := b[i..];
    assert b == b[..i] + tail && tail[1..] == b[i + 1..];
    CountSum(isSelect, b[..i], tail);
    CountSum(isSelect, b[..i], b[i + 1..]);
  }

  /** How many start with a selection does not depend on the order. */
  lemma {:induction false} CountUnordered<C>(isSelect: C -> bool, a: seq<C>, b: seq<C>)
    requires multiset(a) == multiset(b)
    ensures |a| == |b| && Count(isSelect, a) == Count(isSelect, b)
  {
    assert |a| == |multiset(a)| == |multiset(b)| == |b|;
    if a != [] {
      hide Count;
      var i := Find(b, a[0]) by { assert a[0] in multiset(b); }
      TakeOut(a, 0);
      TakeOut(b, i);
      CountTakeOut(isSelect, a, 0);
      CountTakeOut(isSelect, b, i);
      CountUnordered(isSelect, a[..0] + a[1..], b[..i] + b[i + 1..]);
    }
  }

  lemma Find<C>(s: seq<C>, x: C) returns (i: nat)
    requires x in s
    ensures i < |s| && s[i] == x
  {
    i :| 0 <= i < |s| && s[i] == x;
  }

  /** Every conversation is kept as often as it was there, only selections are added, no more than it takes, and the
  target ratio is reached unless there is nothing to choose from. */
  lemma AugmentedRatio<C(!new)>(isSelect: C -> bool, conversations: seq<C>, target: real,
                                choose: (seq<C>, int) -> seq<C>, shuffle: seq<C> -> seq<C>)
    requires 0.0 < target < 1.0 && conversations != [] && IsShuffle(shuffle)
    requires forall pool: seq<C>, k: int :: pool != [] ==> IsChoice(pool, k, choose(pool, k))
    ensures var after := Augmented(isSelect, conversations, target, choose, shuffle);
            var n, s := |conversations|, Count(isSelect, conversations);
            after.Balanced? && multiset(conversations) <= multiset(after.conversations)
            && (forall c :: c in after.conversations ==> c in conversations)
            && Count(isSelect, after.conversations) - s == |after.conversations| - n
            && var added := |after.conversations| - n;
               (s > 0 ==> Meets(s, n, added, target)) && forall k: nat :: k < added ==> !Meets(s, n, k, target)
  {
    hide Ratio, Needed, Meets;
    var n, s := |conversations|, Count(isSelect, conversations);
    var pool := Selects(isSelect, conversations);
    assert Meets(s, n, 0, target) <==> Ratio(s, n) >= target by { NoneAdded(s, n, target); }
    forall k: nat ensures Meets(s, n, k, target) <==> k >= Needed(s, n, target) {
      NeededIsLeast(s, n, target, k);
    }
    if Ratio(s, n) < target && pool != [] {
      var chosen := choose(pool, Needed(s, n, target));
      assert IsChoice(pool, Needed(s, n, target), chosen);
      CountAll(isSelect, chosen);
      CountSum(isSelect, conversations, chosen);
      assert Meets(s, n, |chosen|, target);
      Shuffled(isSelect, conversations, chosen, shuffle);
    }
  }

  lemma Shuffled<C(!new)>(isSelect: C -> bool, a: seq<C>, b: seq<C>, shuffle: seq<C> -> seq<C>)
    requires IsShuffle(shuffle) && forall c :: c in b ==> c in a
    ensures var s := shuffle(a + b);
            |s| == |a + b| && Count(isSelect, s) == Count(isSelect, a + b) && multiset(a) <= multiset(s)
            && forall c :: c in s ==> c in a
  {
    hide Count;
    var mixed := a + b;
    var s := shuffle(mixed);
    assert multiset(s) == multiset(mixed) == multiset(a) + multiset(b);
    CountUnordered(isSelect, s, mixed);
    forall c | c in s ensures c in a {
      assert c in multiset(s);
    }
  }

  lemma NoneAdded(selects: nat, total: nat, target: real)
    requires total > 0
    ensures Meets(selects, total, 0, target) <==> Ratio(selects, total) >= target
  {
  }
}
