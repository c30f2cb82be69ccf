/** Slices of a batch as Python writes them, with any bounds and any step (verl/protocol.py). */
module Slices {
  import opened Py
  import opened DataProto
  import opened BatchOps

  /** `slice(start, stop, step)`; any of the three may be missing. */
  datatype Cut = Cut(start: Option<int>, stop: Option<int>, step: Option<int>)

  function StepOf(c: Cut): int { if c.step.Some? then c.step.value else 1 }

  /** A bound: counted from the end if it is negative, then held to the range that the direction allows. */
  function Bound(x: Option<int>, n: nat, missing: int, forward: bool): int {
    if x.None? then missing
    else
      var at := if x.value < 0 then x.value + n else x.value;
      if forward then Max(0, Min(at, n)) else Max(-1, Min(at, n - 1))
  }

  function First(n: nat, c: Cut): int { Bound(c.start, n, if StepOf(c) > 0 then 0 else n - 1, StepOf(c) > 0) }

  function Last(n: nat, c: Cut): int { Bound(c.stop, n, if StepOf(c) > 0 then n else -1, StepOf(c) > 0) }

  /** `range(from, to, step)`, within a list. */
  function Progression(from: int, to: int, step: int): seq<nat>
    requires if step > 0 then from >= 0 else step < 0 && to >= -1
    decreases if step > 0 then to - from else from - to
  {
    if (if step > 0 then from < to else from > to) then [from] + Progression(from + step, to, step) else []
  }

  /** The rows that a slice takes of `n`. */
  function Indices(n: nat, c: Cut): seq<nat>
    requires StepOf(c) != 0
  {
    Progression(First(n, c), Last(n, c), StepOf(c))
  }

  /** A step further, as long as that is in front of the end. */
  lemma {:induction false} ProgressionIs(from: int, to: int, step: int, k: nat)
    requires if step > 0 then from >= 0 else step < 0 && to >= -1
    ensures k < |Progression(from, to, step)| <==> if step > 0 then from + k * step < to else from + k * step > to
    ensures k < |Progression(from, to, step)| ==> Progression(from, to, step)[k] == from + k * step
    decreases k
  {
    if k == 0 {
      assert 0 * step == 0;
    } else {
      MulNext(k - 1, step);
      if step > 0 {
        MulMono(0, k, step);
      } else {
        MulMono(0, k, -step);
        assert k * -step == -(k * step);
      }
      if if step > 0 then from < to else from > to {
        ProgressionIs(from + step, to, step, k - 1);
      }
    }
  }

  lemma IndicesIn(n: nat, c: Cut)
    requires StepOf(c) != 0
    ensures IndexOk(Indices(n, c), n)
  {
    hide Progression;
    var step := StepOf(c);
    forall k | 0 <= k < |Indices(n, c)| ensures Indices(n, c)[k] < n {
      ProgressionIs(First(n, c), Last(n, c), step, k);
      if step < 0 {
        MulMono(0, k, -step);
        assert k * -step == -(k * step);
      }
    }
  }

  /** A position as Python counts it: a negative one from the end. */
  function FromEnd(x: int, n: nat): int { if x < 0 then n + x else x }

  /** The rows between the two bounds, in the direction of the step: the first bound belongs to them and the second does
  not. A missing bound bounds nothing, and neither does one outside the batch. */
  predicate Between(n: nat, c: Cut, i: int) {
    && 0 <= i < n
    && (c.start.Some? ==> var a := FromEnd(c.start.value, n); if StepOf(c) > 0 then a <= i else i <= a)
    && (c.stop.Some? ==> var b := FromEnd(c.stop.value, n); if StepOf(c) > 0 then i < b else b < i)
  }

  lemma BetweenIs(n: nat, c: Cut, i: int)
    requires StepOf(c) != 0
    ensures Between(n, c, i) <==> if StepOf(c) > 0 then First(n, c) <= i < Last(n, c) else First(n, c) >= i > Last(n, c)
  {
  }

  /** A slice without a step, or with the step 1 or -1, takes every row between its bounds once, forwards or backwards.
  */
  lemma UnitSlice(n: nat, c: Cut)
    requires c.step == None || c.step == Some(1) || c.step == Some(-1)
    ensures var r := Indices(n, c);
            && (forall i :: i in r <==> Between(n, c, i))
            && forall k :: 0 < k < |r| ==> if c.step == Some(-1) then r[k - 1] == r[k] + 1 else r[k] == r[k - 1] + 1
  {
    hide Progression, First, Last;
    var step, r := StepOf(c), Indices(n, c);
    assert step == if c.step == Some(-1) then -1 else 1;
    BoundsHeld(n, c);
    forall k: nat ensures k < |r| <==> if step > 0 then First(n, c) + k < Last(n, c) else First(n, c) - k > Last(n, c)
                  ensures k < |r| ==> r[k] == if step > 0 then First(n, c) + k else First(n, c) - k {
      ProgressionIs(First(n, c), Last(n, c), step, k);
    }
    forall i ensures i in r <==> Between(n, c, i) {
      BetweenIs(n, c, i);
      if Between(n, c, i) {
        var k := if step > 0 then i - First(n, c) else First(n, c) - i;
        assert r[k] == i;
      }
    }
  }

  lemma BoundsHeld(n: nat, c: Cut)
    ensures if StepOf(c) > 0 then First(n, c) >= 0 else Last(n, c) >= -1
  {
  }

  /** A slice with a longer step takes the first of the rows that the step 1 or -1 takes, and every so many-th of them.
  */
  lemma EveryStep(n: nat, c: Cut, k: nat)
    requires c.step.Some? && c.step.value != 0
    ensures var (step, r) := (c.step.value, Indices(n, c));
            var unit := Indices(n, c.(step := Some(if step > 0 then 1 else -1)));
            var at := k * if step > 0 then step else -step;
            at >= 0 && (k < |r| <==> at < |unit|) && (k < |r| ==> r[k] == unit[at])
  {
    hide Progression, First, Last;
    var step := c.step.value;
    var u := c.(step := Some(if step > 0 then 1 else -1));
    var per := if step > 0 then step else -step;
    SameBounds(n, c, u);
    BoundsHeld(n, c);
    MulMono(0, k, per);
    assert k * per == if step > 0 then k * step else -(k * step);
    ProgressionIs(First(n, c), Last(n, c), step, k);
    ProgressionIs(First(n, c), Last(n, c), StepOf(u), k * per);
  }

  lemma SameBounds(n: nat, c: Cut, u: Cut)
    requires u.start == c.start && u.stop == c.stop && (StepOf(u) > 0 <==> StepOf(c) > 0)
    ensures First(n, u) == First(n, c) && Last(n, u) == Last(n, c)
  {
  }

  /** A step of nothing is refused, and so is going backwards through a tensor. */
  predicate Refused<T>(b: Batch<T>, c: Cut) {
    || (StepOf(c) == 0 && (b.tensors.Some? || b.objects != map[]))
    || (StepOf(c) < 0 && b.tensors.Some? && b.tensors.value.columns != map[])
  }

  function CutColumns<T>(columns: Columns<T>, c: Cut): Columns<T>
    requires StepOf(c) != 0
  {
    map k | k in columns :: (IndicesIn(|columns[k]|, c); Gather(columns[k], Indices(|columns[k]|, c)))
  }

  /** `DataProto.slice`: every column is cut for itself, by its own length. */
  function SliceBy<T>(b: Batch<T>, c: Cut): Option<Batch<T>> {
    if Refused(b, c) then None
    else if StepOf(c) == 0 then Some(b)
    else
      Some(Batch(if b.tensors.None? then None
                 else Some(Table(|Indices(b.tensors.value.size, c)|, CutColumns(b.tensors.value.columns, c))),
                 CutColumns(b.objects, c)))
  }

  /** Python refuses a step of nothing as soon as there is something to cut, and the tensors refuse to go backwards. */
  lemma RefusedExactly<T>(b: Batch<T>, c: Cut)
    ensures SliceBy(b, c).None? <==>
            c.step.Some? && if c.step.value == 0 then b.tensors.Some? || b.objects != map[]
                            else c.step.value < 0 && b.tensors.Some? && b.tensors.value.columns != map[]
  {
    hide CutColumns;
  }

  /** A slice, where it is not refused, picks the rows of the progression, in all columns alike. */
  lemma SliceByRows<T>(b: Batch<T>, c: Cut)
    requires Valid(b) && !Refused(b, c) && StepOf(c) != 0
    ensures IndexOk(Indices(Length(b), c), Length(b))
    ensures var s := SliceBy(b, c).value;
            Valid(s) && SameSchema(s, b) && Rows(s) == Gather(Rows(b), Indices(Length(b), c))
  {
    hide Indices, Gather;
    var index := Indices(Length(b), c);
    IndicesIn(Length(b), c);
    PickRows(b, index);
    assert CutColumns(b.objects, c) == PickColumns(b.objects, index);
    if b.tensors.Some? {
      assert CutColumns(b.tensors.value.columns, c) == PickColumns(b.tensors.value.columns, index);
    }
  }

  /** Without a step and with bounds inside the batch it is the plain slice. */
  lemma PlainSlice<T>(b: Batch<T>, i: nat, j: nat)
    requires Valid(b) && i <= j <= Length(b)
    ensures Reaches(b, j) && SliceBy(b, Cut(Some(i), Some(j), None)) == Some(Slice(b, i, j))
  {
    hide Gather, Length;
    SliceRows(b, i, j);
    var c := Cut(Some(i), Some(j), None);
    PlainColumns(b.objects, Length(b), i, j);
    PlainIndices(Length(b), i, j);
    if b.tensors.Some? {
      PlainColumns(b.tensors.value.columns, Length(b), i, j);
      TableSize(b);
    }
  }

  lemma TableSize<T>(b: Batch<T>)
    requires b.tensors.Some?
    ensures b.tensors.value.size == Length(b)
  {
  }

  lemma PlainIndices(n: nat, i: nat, j: nat)
    requires i <= j <= n
    ensures var r := Indices(n, Cut(Some(i), Some(j), None));
            |r| == j - i && forall k :: 0 <= k < j - i ==> r[k] == i + k
  {
    Steps(i, j);
  }

  lemma {:induction false} Steps(i: nat, j: nat)
    requires i <= j
    ensures var r := Progression(i, j, 1); |r| == j - i && forall k :: 0 <= k < j - i ==> r[k] == i + k
    decreases j - i
  {
    if i < j {
      Steps(i + 1, j);
    }
  }

  lemma PlainColumns<T>(columns: Columns<T>, n: nat, i: nat, j: nat)
    requires AllLength(columns, n) && i <= j <= n
    ensures CutColumns(columns, Cut(Some(i), Some(j), None)) == SliceColumns(columns, i, j)
  {
    hide Indices;
    var c := Cut(Some(i), Some(j), None);
    PlainIndices(n, i, j);
    IndicesIn(n, c);
    forall k | k in columns ensures Gather(columns[k], Indices(n, c)) == columns[k][i..j] {
    }
  }
}
