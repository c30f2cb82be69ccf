/** The few Python list operations the agent loop relies on, written as functions on sequences. */
module Py {

  datatype Option<+T> = None | Some(value: T)

  datatype Result<+T, +E> = Ok(value: T) | Err(error: E)

  function Max(a: int, b: int): int { if a < b then b else a }

  function Min(a: int, b: int): int { if a < b then a else b }

  /** `math.ceil` */
  function Ceil(x: real): (n: int)
    ensures x <= n as real < x + 1.0
  {
    -((-x).Floor)
  }

  /** `s[:n]`, where a negative `n` counts from the end. */
  function Take<T>(s: seq<T>, n: int): (r: seq<T>)
    ensures r <= s
    ensures forall x :: x in r ==> x in s
    ensures n >= 0 ==> |r| == Min(n, |s|)
  {
    if n >= |s| then s
    else if n >= 0 then s[..n]
    else if |s| + n >= 0 then s[..|s| + n]
    else []
  }

  lemma MulNext(a: int, w: int)
    ensures (a + 1) * w == a * w + w
  {
  }

  lemma MulMono(a: int, b: int, w: int)
    requires a <= b && 0 <= w
    ensures a * w <= b * w
  {
    assert 0 <= (b - a) * w;
  }

  /** The quotient and the remainder are the only ones there are. */
  lemma DivUnique(x: int, n: int, q: int, r: int)
    requires 0 <= r < n && x == q * n + r
    ensures x / n == q && x % n == r
  {
    var q2, r2 := x / n, x % n;
    assert x == q2 * n + r2;
    if q < q2 {
      MulNext(q, n);
      MulMono(q + 1, q2, n);
      assert false;
    } else if q2 < q {
      MulNext(q2, n);
      MulMono(q2 + 1, q, n);
      assert false;
    }
  }

  ghost predicate Distinct<T>(s: seq<T>) {
    forall i, j :: 0 <= i < j < |s| ==> s[i] != s[j]
  }

  ghost predicate Increasing(s: seq<int>) {
    forall i, j :: 0 <= i < j < |s| ==> s[i] < s[j]
  }

  ghost predicate AllIn(s: seq<int>, lo: int, hi: int) {
    forall x :: x in s ==> lo <= x < hi
  }

  /** `[i for i in s if i not in gone]` */
  function Without(s: seq<int>, gone: seq<int>): (r: seq<int>)
    ensures forall x :: x in r <==> x in s && x !in gone
    ensures |r| <= |s|
  {
    if s == [] then []
    else if s[0] in gone then Without(s[1..], gone)
    else [s[0]] + Without(s[1..], gone)
  }

  /** Appending the members of `s` one by one to `base`, skipping those already there. */
  function AppendNew(base: seq<int>, s: seq<int>): (r: seq<int>)
    ensures base <= r
    ensures forall x :: x in r <==> x in base || x in s
    ensures |base| <= |r| <= |base| + |s|
    ensures Distinct(base) ==> Distinct(r)
  {
    if s == [] then base
    else
      var r := AppendNew(base, s[..|s| - 1]);
      var x := s[|s| - 1];
      assert s == s[..|s| - 1] + [x];
      if x in r then r else r + [x]
  }

  /** `dedupe_preserve_order` */
  function Dedupe(s: seq<int>): (r: seq<int>)
    ensures Distinct(r)
    ensures forall x :: x in r <==> x in s
    ensures |r| <= |s|
  {
    AppendNew([], s)
  }

  lemma {:induction false} WithoutNone(s: seq<int>, gone: seq<int>)
    requires forall i :: 0 <= i < |s| ==> s[i] !in gone
    ensures Without(s, gone) == s
  {
    if s != [] {
      WithoutNone(s[1..], gone);
    }
  }

  lemma {:induction false} AppendNewDisjoint(base: seq<int>, s: seq<int>)
    requires Distinct(s) && forall x :: x in s ==> x !in base
    ensures AppendNew(base, s) == base + s
  {
    if s == [] {
      assert base + s == base;
    } else {
      var t, x := s[..|s| - 1], s[|s| - 1];
      assert s == t + [x];
      AppendNewDisjoint(base, t);
      assert x !in t;
      assert base + s == base + t + [x];
    }
  }

  lemma DedupeDistinct(s: seq<int>)
    requires Distinct(s)
    ensures Dedupe(s) == s
  {
    AppendNewDisjoint([], s);
    assert [] + s == s;
  }

  /** Where `x` stands first. */
  function First(s: seq<int>, x: int): (i: nat)
    requires x in s
    ensures i < |s| && s[i] == x && x !in s[..i]
  {
    var last := |s| - 1;
    if x in s[..last] then
      assert s[..last][..First(s[..last], x)] == s[..First(s[..last], x)];
      First(s[..last], x)
    else last
  }

  /** The first occurrences keep their order. */
  lemma {:induction false} DedupeOrder(s: seq<int>)
    ensures var r := Dedupe(s); forall i, j :: 0 <= i < j < |r| ==> First(s, r[i]) < First(s, r[j])
  {
    if s != [] {
      var t, r := s[..|s| - 1], Dedupe(s);
      DedupeOrder(t);
      assert s == t + [s[|s| - 1]];
      forall i, j | 0 <= i < j < |r| ensures First(s, r[i]) < First(s, r[j]) {
        if j < |Dedupe(t)| {
          assert r[i] == Dedupe(t)[i] && r[j] == Dedupe(t)[j];
        } else {
          assert r[i] == Dedupe(t)[i];
        }
      }
    }
  }

  /** The members of a sequence as a set; a sequence without repetition has as many. */
  function Elems(s: seq<int>): set<int> { set x | x in s }

  lemma {:induction false} DistinctCard(s: seq<int>)
    requires Distinct(s)
    ensures |Elems(s)| == |s|
  {
    if s != [] {
      var t, x := s[..|s| - 1], s[|s| - 1];
      assert s == t + [x];
      DistinctCard(t);
      assert Elems(s) == Elems(t) + {x} && x !in Elems(t);
    }
  }

  /** `set(range(lo, hi))` */
  function Range(lo: int, hi: int): (r: set<int>)
    ensures forall x :: x in r <==> lo <= x < hi
    ensures |r| == if lo <= hi then hi - lo else 0
    decreases hi - lo
  {
    if lo < hi then Range(lo, hi - 1) + {hi - 1} else {}
  }

  lemma {:induction false} SubsetCard(a: set<int>, b: set<int>)
    requires a <= b
    ensures |a| <= |b|
    ensures |a| == |b| ==> a == b
  {
    assert b == a + (b - a);
  }

  /** Distinct frames inside a window of `hi - lo` positions are at most that many. */
  lemma PigeonHole(s: seq<int>, lo: int, hi: int)
    requires Distinct(s) && AllIn(s, lo, hi) && lo <= hi
    ensures |s| <= hi - lo
  {
    DistinctCard(s);
    SubsetCard(Elems(s), Range(lo, hi));
  }

  /** Fewer than `hi - lo` frames leave some position of the window out. */
  lemma SomeUnseen(s: seq<int>, lo: int, hi: int) returns (f: int)
    requires lo <= hi && |s| < hi - lo
    ensures lo <= f < hi && f !in s
  {
    var d := Dedupe(s);
    var inside := Elems(d) * Range(lo, hi);
    DistinctCard(d);
    SubsetCard(inside, Elems(d));
    if Range(lo, hi) <= inside {
      SubsetCard(Range(lo, hi), inside);
    }
    f :| f in Range(lo, hi) && f !in inside;
  }

  /** The concatenation of a list of pieces. */
  function Flat<T>(pieces: seq<seq<T>>): seq<T> {
    if pieces == [] then [] else pieces[0] + Flat(pieces[1..])
  }

  lemma FlatNothing<T>()
    ensures Flat<T>([]) == []
  {
  }

  ghost predicate NoneEmpty<T>(pieces: seq<seq<T>>) {
    forall i :: 0 <= i < |pieces| ==> pieces[i] != []
  }

  /** Reading `s` to its end, `n` elements at a time. */
  function Pieces<T>(s: seq<T>, n: nat): seq<seq<T>>
    requires n > 0
  {
    if s == [] then [] else if |s| <= n then [s] else [s[..n]] + Pieces(s[n..], n)
  }

  lemma {:induction false} FlatSum<T>(a: seq<seq<T>>, b: seq<seq<T>>)
    ensures Flat(a + b) == Flat(a) + Flat(b)
  {
    if a == [] {
      assert a + b == b;
    } else {
      assert (a + b)[1..] == a[1..] + b;
      FlatSum(a[1..], b);
    }
  }

  lemma FlatSnoc<T>(pieces: seq<seq<T>>, last: seq<T>)
    ensures Flat(pieces + [last]) == Flat(pieces) + last
  {
    FlatSum(pieces, [last]);
    assert Flat([last]) == last + Flat<T>([]);
  }

  lemma {:induction false} PiecesFlat<T>(s: seq<T>, n: nat)
    requires n > 0
    ensures Flat(Pieces(s, n)) == s && NoneEmpty(Pieces(s, n))
    decreases |s|
  {
    if |s| > n {
      PiecesFlat(s[n..], n);
      assert s == s[..n] + s[n..];
    }
  }
}
