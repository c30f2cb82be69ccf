/** Repeating, reordering, padding and folding batches (verl/protocol.py). */
module BatchOps {
  import opened Py
  import opened DataProto
  import opened Dispatch

  // ---------------------------------------------------------------- rows picked by index

  ghost predicate IndexOk(index: seq<nat>, n: nat) { forall i :: 0 <= i < |index| ==> index[i] < n }

  function Gather<R>(s: seq<R>, index: seq<nat>): (r: seq<R>)
    requires IndexOk(index, |s|)
    ensures |r| == |index| && forall i :: 0 <= i < |r| ==> r[i] == s[index[i]]
  {
    seq(|index|, i requires 0 <= i < |index| => s[index[i]])
  }

  function PickColumns<T>(c: Columns<T>, index: seq<nat>): Columns<T>
    requires forall k :: k in c ==> IndexOk(index, |c[k]|)
  {
    map k | k in c :: Gather(c[k], index)
  }

  /** The indices are within all columns. */
  ghost predicate PickOk<T>(b: Batch<T>, index: seq<nat>) {
    (b.tensors.Some? ==> forall k :: k in b.tensors.value.columns ==> IndexOk(index, |b.tensors.value.columns[k]|))
    && forall k :: k in b.objects ==> IndexOk(index, |b.objects[k]|)
  }

  /** The rows of the batch at some indices, as `batch[indices]` picks them. */
  function Pick<T>(b: Batch<T>, index: seq<nat>): Batch<T>
    requires PickOk(b, index)
  {
    Batch(if b.tensors.None? then None else Some(Table(|index|, PickColumns(b.tensors.value.columns, index))),
          PickColumns(b.objects, index))
  }

  lemma RowOfPick<T>(c: Columns<T>, n: nat, index: seq<nat>, x: nat)
    requires AllLength(c, n) && IndexOk(index, n) && x < |index|
    ensures AllLength(PickColumns(c, index), |index|)
    ensures RowOf(PickColumns(c, index), |index|, x) == RowOf(c, n, index[x])
  {
  }

  lemma PickRows<T>(b: Batch<T>, index: seq<nat>)
    requires Valid(b) && IndexOk(index, Length(b))
    ensures PickOk(b, index)
    ensures var p := Pick(b, index);
            Valid(p) && SameSchema(p, b) && Length(p) == |index| && Rows(p) == Gather(Rows(b), index)
  {
    hide RowOf;
    var p, n := Pick(b, index), Length(b);
    if index != [] {
      SomeIndex(index, n);
    }
    if b.objects == map[] {
      assert p.objects == map[];
    }
    LengthIs(p, |index|);
    forall x | 0 <= x < |index| ensures RowAt(p, x) == RowAt(b, index[x]) {
      RowOfPick(b.objects, n, index, x);
      if b.tensors.Some? {
        RowOfPick(b.tensors.value.columns, n, index, x);
      }
    }
  }

  lemma SomeIndex(index: seq<nat>, n: nat)
    requires IndexOk(index, n) && index != []
    ensures n > 0
  {
    assert index[0] < n;
  }

  // ---------------------------------------------------------------- repeating

  function Copies<R>(x: R, n: nat): (r: seq<R>)
    ensures |r| == n && forall i :: 0 <= i < n ==> r[i] == x
  {
    seq(n, _ => x)
  }

  /** `repeat_interleave` and `np.repeat`: every element as often as its count says. */
  function RepeatEach<R>(s: seq<R>, times: seq<nat>): seq<R>
    requires |times| == |s|
  {
    if s == [] then [] else Copies(s[0], times[0]) + RepeatEach(s[1..], times[1..])
  }

  /** `expand` and `np.tile`: the whole list again and again. */
  function Tiled<R>(s: seq<R>, times: nat): seq<R> {
    if times == 0 then [] else s + Tiled(s, times - 1)
  }

  function Total(times: seq<nat>): nat {
    if times == [] then 0 else times[0] + Total(times[1..])
  }

  /** The element that place `x` of the repeated list comes from. */
  function Source(times: seq<nat>, x: nat): (i: nat)
    requires x < Total(times)
    ensures i < |times|
  {
    if x < times[0] then 0 else 1 + Source(times[1..], x - times[0])
  }

  function Sources(times: seq<nat>): (r: seq<nat>)
    ensures |r| == Total(times) && IndexOk(r, |times|)
    ensures forall x :: 0 <= x < |r| ==> r[x] == Source(times, x)
  {
    seq(Total(times), x requires 0 <= x < Total(times) => Source(times, x))
  }

  lemma {:induction false} RepeatSource<R>(s: seq<R>, times: seq<nat>, x: nat)
    requires |times| == |s| && x < Total(times)
    ensures |RepeatEach(s, times)| == Total(times) && RepeatEach(s, times)[x] == s[Source(times, x)]
    decreases |s|
  {
    RepeatLength(s, times);
    if x >= times[0] {
      RepeatSource(s[1..], times[1..], x - times[0]);
    }
  }

  lemma {:induction false} RepeatLength<R>(s: seq<R>, times: seq<nat>)
    requires |times| == |s|
    ensures |RepeatEach(s, times)| == Total(times)
    decreases |s|
  {
    if s != [] {
      RepeatLength(s[1..], times[1..]);
    }
  }

  lemma RepeatIsGather<R>(s: seq<R>, times: seq<nat>)
    requires |times| == |s|
    ensures RepeatEach(s, times) == Gather(s, Sources(times))
  {
    hide RepeatEach, Source;
    RepeatLength(s, times);
    forall x | 0 <= x < Total(times) ensures RepeatEach(s, times)[x] == s[Source(times, x)] {
      RepeatSource(s, times, x);
    }
  }

  /** Where the copies of element `i` stand, and that all of them are there: a repeated list keeps the order of the
  elements and gives each its own count. */
  lemma {:induction false} CopiesOf<R>(s: seq<R>, times: seq<nat>, i: nat, j: nat)
    requires |times| == |s| && i < |s| && j < times[i]
    ensures Total(times[..i]) + j < |RepeatEach(s, times)| && RepeatEach(s, times)[Total(times[..i]) + j] == s[i]
    decreases |s|
  {
    if i == 0 {
      assert times[..0] == [];
    } else {
      assert times[..i][1..] == times[1..][..i - 1];
      CopiesOf(s[1..], times[1..], i - 1, j);
    }
  }

  /** With the same count for all, place `i` holds element `i / times`. */
  lemma {:induction false} Interleaved<R>(s: seq<R>, times: nat, i: nat)
    requires i < |s| * times
    ensures |RepeatEach(s, Copies(times, |s|))| == |s| * times && i / times < |s|
    ensures RepeatEach(s, Copies(times, |s|))[i] == s[i / times]
    decreases |s|
  {
    MulNext(|s| - 1, times);
    var rest := s[1..];
    assert Copies(times, |s|)[1..] == Copies(times, |rest|);
    if i < times {
      DivUnique(i, times, 0, i);
      InterleavedLength(rest, times);
    } else {
      Interleaved(rest, times, i - times);
      var q := (i - times) / times;
      assert i - times == q * times + (i - times) % times;
      MulNext(q, times);
      DivUnique(i, times, q + 1, (i - times) % times);
    }
  }

  lemma {:induction false} InterleavedLength<R>(s: seq<R>, times: nat)
    ensures |RepeatEach(s, Copies(times, |s|))| == |s| * times
    decreases |s|
  {
    if s != [] {
      MulNext(|s| - 1, times);
      assert Copies(times, |s|)[1..] == Copies(times, |s[1..]|);
      InterleavedLength(s[1..], times);
    }
  }

  /** Stacked, place `i` holds element `i` modulo the size. */
  lemma {:induction false} TiledAt<R>(s: seq<R>, times: nat)
    ensures |Tiled(s, times)| == times * |s|
    ensures Cyclic(Tiled(s, times), s)
    decreases times
  {
    if times > 0 {
      MulNext(times - 1, |s|);
      TiledAt(s, times - 1);
      forall i | 0 <= i < times * |s| ensures s != [] && Tiled(s, times)[i] == s[i % |s|] {
        if i >= |s| {
          var q := (i - |s|) / |s|;
          assert i - |s| == q * |s| + (i - |s|) % |s|;
          MulNext(q, |s|);
          DivUnique(i, |s|, q + 1, (i - |s|) % |s|);
        } else {
          DivUnique(i, |s|, 0, i);
        }
      }
    }
  }

  function RepeatColumns<T>(c: Columns<T>, times: seq<nat>): Columns<T>
    requires forall k :: k in c ==> |c[k]| == |times|
  {
    map k | k in c :: RepeatEach(c[k], times)
  }

  /** `sample_level_repeat`: one count for every row, or an error. */
  function SampleLevelRepeat<T>(b: Batch<T>, times: seq<nat>): Option<Batch<T>> {
    if (b.tensors.Some? && exists k :: k in b.tensors.value.columns && |b.tensors.value.columns[k]| != |times|)
       || exists k :: k in b.objects && |b.objects[k]| != |times| then None
    else
      Some(Batch(if b.tensors.None? then None
                 else Some(Table(Total(times), RepeatColumns(b.tensors.value.columns, times))),
                 RepeatColumns(b.objects, times)))
  }

  /** All columns repeat their rows alike. */
  lemma RepeatRows<T>(b: Batch<T>, times: seq<nat>)
    requires Valid(b) && |times| == Length(b)
    ensures var r := SampleLevelRepeat(b, times);
            r.Some? && Valid(r.value) && SameSchema(r.value, b) && Rows(r.value) == RepeatEach(Rows(b), times)
  {
    hide RepeatEach, Source, Gather;
    RepeatIsGather(Rows(b), times);
    PickRows(b, Sources(times));
    RepeatPicks(b.objects, times);
    if b.tensors.Some? {
      RepeatPicks(b.tensors.value.columns, times);
    }
    assert SampleLevelRepeat(b, times) == Some(Pick(b, Sources(times)));
  }

  lemma RepeatPicks<T>(c: Columns<T>, times: seq<nat>)
    requires AllLength(c, |times|)
    ensures RepeatColumns(c, times) == PickColumns(c, Sources(times))
  {
    hide RepeatEach, Source, Gather;
    forall k | k in c ensures RepeatEach(c[k], times) == Gather(c[k], Sources(times)) {
      RepeatIsGather(c[k], times);
    }
  }

  /** `repeat`: interleaved, or the whole batch again and again. */
  function Repeat<T>(b: Batch<T>, times: nat, interleave: bool): Batch<T> {
    Batch(if b.tensors.None? then None
          else Some(Table(b.tensors.value.size * times, RepeatAll(b.tensors.value.columns, times, interleave))),
          RepeatAll(b.objects, times, interleave))
  }

  function RepeatAll<T>(c: Columns<T>, times: nat, interleave: bool): Columns<T> {
    map k | k in c :: if interleave then RepeatEach(c[k], Copies(times, |c[k]|)) else Tiled(c[k], times)
  }

  function RoundIndex(n: nat, times: nat): (r: seq<nat>)
    ensures |r| == times * n && IndexOk(r, n)
    ensures forall i :: 0 <= i < |r| ==> n > 0 && r[i] == i % n
  {
    ProductNat(times, n);
    seq(times * n, i requires 0 <= i < times * n => (ProductPositive(times, n, i); i % n))
  }

  lemma ProductNat(a: nat, b: nat)
    ensures a * b >= 0
  {
  }

  lemma ProductPositive(a: nat, b: nat, i: nat)
    requires i < a * b
    ensures b > 0
  {
  }

  lemma TiledIsGather<R>(s: seq<R>, times: nat)
    ensures Tiled(s, times) == Gather(s, RoundIndex(|s|, times))
  {
    hide Tiled, Gather, RoundIndex;
    TiledAt(s, times);
  }

  /** Repeating a batch repeats its rows, in all columns alike. */
  lemma RepeatBatchRows<T>(b: Batch<T>, times: nat, interleave: bool)
    requires Valid(b)
    ensures var r := Repeat(b, times, interleave);
            Valid(r) && SameSchema(r, b)
            && Rows(r) == if interleave then RepeatEach(Rows(b), Copies(times, Length(b))) else Tiled(Rows(b), times)
  {
    hide RepeatEach, Source, Gather, Tiled, Copies, RoundIndex, Sources;
    var n := Length(b);
    var index := if interleave then Sources(Copies(times, n)) else RoundIndex(n, times);
    RepeatAllPicks(b.objects, n, times, interleave);
    if b.tensors.Some? {
      RepeatAllPicks(b.tensors.value.columns, n, times, interleave);
    }
    ConstantTotal(times, n);
    PickRows(b, index);
    if interleave {
      RepeatIsGather(Rows(b), Copies(times, n));
    } else {
      TiledIsGather(Rows(b), times);
    }
    assert Repeat(b, times, interleave) == Pick(b, index);
  }

  lemma {:induction false} ConstantTotal(times: nat, n: nat)
    ensures |Sources(Copies(times, n))| == n * times == times * n && IndexOk(Sources(Copies(times, n)), n)
    decreases n
  {
    if n > 0 {
      MulNext(n - 1, times);
      assert Copies(times, n)[1..] == Copies(times, n - 1);
      ConstantTotal(times, n - 1);
    }
  }

  lemma RepeatAllPicks<T>(c: Columns<T>, n: nat, times: nat, interleave: bool)
    requires AllLength(c, n)
    ensures IndexOk(Sources(Copies(times, n)), n)
    ensures RepeatAll(c, times, interleave)
            == PickColumns(c, if interleave then Sources(Copies(times, n)) else RoundIndex(n, times))
  {
    hide RepeatEach, Source, Gather, Tiled, Copies, RoundIndex, Sources;
    ConstantTotal(times, n);
    forall k | k in c
      ensures RepeatEach(c[k], Copies(times, n)) == Gather(c[k], Sources(Copies(times, n)))
      ensures Tiled(c[k], times) == Gather(c[k], RoundIndex(n, times))
    {
      RepeatIsGather(c[k], Copies(times, n));
      TiledIsGather(c[k], times);
    }
  }

  // ---------------------------------------------------------------- operations in place

  /** A batch whose operations replace its columns. */
  class Proto<T> {
    var batch: Option<Table<T>>
    var nonTensorBatch: Columns<T>

    constructor (b: Batch<T>)
      ensures Current() == b
    {
      batch, nonTensorBatch := b.tensors, b.objects;
    }

    function Current(): Batch<T>
      reads this
    {
      Batch(batch, nonTensorBatch)
    }

    /** `reorder` */
    method Reorder(indices: seq<nat>)
      requires Valid(Current()) && IndexOk(indices, Length(Current()))
      modifies this
      ensures Valid(Current()) && SameSchema(Current(), old(Current()))
      ensures Rows(Current()) == Gather(old(Rows(Current())), indices)
    {
      ghost var before := Current();
      PickRows(before, indices);
      if batch.Some? {
        batch := Some(Table(|indices|, PickColumns(batch.value.columns, indices)));
      }
      nonTensorBatch := PickColumns(nonTensorBatch, indices);
    }

    /** `padding`: copies of the first or the last row behind the others. */
    method Padding(size: nat, length: nat, first: bool)
      requires Valid(Current()) && length == Length(Current()) && (size > 0 ==> length > 0)
      modifies this
      ensures Valid(Current()) && SameSchema(Current(), old(Current()))
      ensures size == 0 ==> Current() == old(Current())
      ensures size > 0 ==>
                Rows(Current()) ==
                old(Rows(Current())) + Copies(old(Rows(Current()))[if first then 0 else length - 1], size)
    {
      hide Valid, SameSchema, Rows, Concat, Pick, Repeat, Gather, RepeatEach;
      ghost var before := Current();
      SchemaTrans(before, before, before);
      if size == 0 {
        return;
      }
      ghost var rows := Rows(before);
      RowCount(before);
      var at := if first then 0 else length - 1;
      PickRows(before, [at]);
      var candidate := Pick(Current(), [at]);
      RepeatBatchRows(candidate, size, true);
      RepeatOne(Rows(candidate), size);
      var part := Repeat(candidate, size, true);
      SchemaTrans(part, candidate, before);
      var both := [Current(), part];
      OneList([before]);
      assert both == [before] + [part];
      StackPiece([before], part, before);
      ConcatRows(both);
      var padded := Concat(both).value;
      assert rows + Rows(part) == rows + Copies(rows[at], size) by { PickedOne(rows, at); }
      batch := padded.tensors;
      nonTensorBatch := padded.objects;
    }
  }

  lemma PickedOne<R>(s: seq<R>, at: nat)
    requires at < |s|
    ensures Gather(s, [at]) == [s[at]]
  {
  }

  lemma RepeatOne<R>(s: seq<R>, n: nat)
    requires |s| == 1
    ensures RepeatEach(s, Copies(n, 1)) == Copies(s[0], n)
  {
    assert RepeatEach(s[1..], Copies(n, 1)[1..]) == [];
    assert Copies(s[0], n) + [] == Copies(s[0], n);
  }

  // ---------------------------------------------------------------- folding

  /** A cell of a folded batch: a value, or a row of cells. */
  datatype Cell<T> = One(value: T) | Many(cells: seq<Cell<T>>)

  /** Cutting a column into `m` rows of the same size. */
  function FoldColumn<T>(s: seq<Cell<T>>, m: nat): (r: seq<Cell<T>>)
    requires m > 0
    ensures |r| == m
  {
    seq(m, i requires 0 <= i < m => Many(PartOf(s, i, |s| / m)))
  }

  function CellsOf<T>(c: Cell<T>): seq<Cell<T>> { if c.Many? then c.cells else [c] }

  /** Taking the first two dimensions of a column together. */
  function UnfoldColumn<T>(s: seq<Cell<T>>): seq<Cell<T>> {
    if s == [] then [] else CellsOf(s[0]) + UnfoldColumn(s[1..])
  }

  function FoldColumns<T>(c: Columns<Cell<T>>, m: nat): Columns<Cell<T>>
    requires m > 0
  {
    map k | k in c :: FoldColumn(c[k], m)
  }

  function UnfoldColumns<T>(c: Columns<Cell<T>>): Columns<Cell<T>> { map k | k in c :: UnfoldColumn(c[k]) }

  /** `fold_batch_dim`: an error for a batch without a table, without rows, or not divisible. It writes the folded
  object columns into the dictionary of its argument as well. */
  method FoldBatchDim<T>(data: Proto<Cell<T>>, newSize: nat) returns (folded: Option<Proto<Cell<T>>>)
    requires newSize > 0
    modifies data`nonTensorBatch
    ensures folded.Some? <==> data.batch.Some? && data.batch.value.size > 0 && data.batch.value.size % newSize == 0
    ensures folded.None? ==> data.nonTensorBatch == old(data.nonTensorBatch)
    ensures folded.Some? ==>
              data.nonTensorBatch == FoldColumns(old(data.nonTensorBatch), newSize)
              && fresh(folded.value) && folded.value.nonTensorBatch == data.nonTensorBatch
              && folded.value.batch == Some(Table(newSize, FoldColumns(data.batch.value.columns, newSize)))
  {
    if data.batch.None? || data.batch.value.size == 0 || data.batch.value.size % newSize != 0 {
      return None;
    }
    data.nonTensorBatch := FoldColumns(data.nonTensorBatch, newSize);
    var table := Some(Table(newSize, FoldColumns(data.batch.value.columns, newSize)));
    var result := new Proto(Batch(table, data.nonTensorBatch));
    return Some(result);
  }

  lemma {:induction false} UnfoldMany<T>(s: seq<Cell<T>>, parts: seq<seq<Cell<T>>>)
    requires |s| == |parts| && forall i :: 0 <= i < |s| ==> s[i] == Many(parts[i])
    ensures UnfoldColumn(s) == Flat(parts)
    decreases |s|
  {
    if s != [] {
      UnfoldMany(s[1..], parts[1..]);
    }
  }

  /** Every row of a folded column gets the same number of cells, in order. */
  lemma FoldedAt<T>(s: seq<Cell<T>>, m: nat, i: nat, j: nat)
    requires m > 0 && |s| % m == 0 && i < m
    ensures var (row, per) := (FoldColumn(s, m)[i], |s| / m);
            row.Many? && |row.cells| == per && (j < per ==> i * per + j < |s| && row.cells[j] == s[i * per + j])
  {
    hide PartOf, Offset;
    PartsEnd(|s|, m, i);
    PartAt(s, i, |s| / m, j);
  }

  lemma PartAt<R>(s: seq<R>, i: nat, per: nat, j: nat)
    requires Offset(i, per) + per <= |s|
    ensures |PartOf(s, i, per)| == per
    ensures j < per ==> 0 <= i * per + j < |s| && PartOf(s, i, per)[j] == s[i * per + j]
  {
    assert Offset(i, per) == i * per;
  }

  /** Folding a column and unfolding it gives it back. */
  lemma FoldColumnRoundTrip<T>(s: seq<Cell<T>>, m: nat)
    requires m > 0 && |s| % m == 0
    ensures UnfoldColumn(FoldColumn(s, m)) == s
  {
    hide PartOf, UnfoldColumn, Offset;
    var per := |s| / m;
    var parts := seq(m, i requires 0 <= i < m => PartOf(s, i, per));
    UnfoldMany(FoldColumn(s, m), parts);
    PartsEnd(|s|, m, 0);
    EqualParts(s, per, parts);
  }

  /** Folding and unfolding a batch gives it back, table and object columns alike. */
  lemma FoldRoundTrip<T>(c: Columns<Cell<T>>, n: nat, m: nat)
    requires AllLength(c, n) && m > 0 && n % m == 0
    ensures AllLength(FoldColumns(c, m), m) && UnfoldColumns(FoldColumns(c, m)) == c
  {
    hide FoldColumn, UnfoldColumn;
    forall k | k in c ensures UnfoldColumn(FoldColumn(c[k], m)) == c[k] {
      FoldColumnRoundTrip(c[k], m);
    }
  }

  /** The argument of a fold is left consistent only if it has no object columns or kept its size. */
  lemma FoldedArgument<T>(table: Table<Cell<T>>, objects: Columns<Cell<T>>, m: nat)
    requires Valid(Batch(Some(table), objects)) && m > 0
    ensures Consistent(Batch(Some(table), FoldColumns(objects, m))) <==> objects == map[] || m == table.size
  {
    if objects != map[] {
      var k :| k in objects;
      assert |FoldColumns(objects, m)[k]| == m;
    }
  }
}
