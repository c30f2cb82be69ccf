/** Batches of tensor and object columns, and the way they are cut up and put together (verl/protocol.py).

A batch is one table of tensor columns, which knows its size, and object columns beside it; either may be absent. */
module DataProto {
  import opened Py

  type Columns<T> = map<string, seq<T>>

  datatype Table<T> = Table(size: nat, columns: Columns<T>)

  datatype Batch<T> = Batch(tensors: Option<Table<T>>, objects: Columns<T>)

  // ---------------------------------------------------------------- columns

  ghost predicate AllLength<T>(c: Columns<T>, n: nat) { forall k :: k in c ==> |c[k]| == n }

  /** Row `i` of some columns. */
  ghost function RowOf<T>(c: Columns<T>, n: nat, i: nat): map<string, T>
    requires AllLength(c, n) && i < n
  {
    map k | k in c :: c[k][i]
  }

  function SliceColumns<T>(c: Columns<T>, i: nat, j: nat): Columns<T>
    requires i <= j && forall k :: k in c ==> j <= |c[k]|
  {
    map k | k in c :: c[k][i..j]
  }

  function StackColumns<T>(a: Columns<T>, b: Columns<T>): Columns<T>
    requires a.Keys == b.Keys
  {
    map k | k in a :: a[k] + b[k]
  }

  /** The cells of column `key`, none if there is no such column. */
  function Cells<T>(c: Columns<T>, key: string): seq<T> { if key in c then c[key] else [] }

  /** The column `key` of all those that have it. */
  function ColumnOf<T>(cs: seq<Columns<T>>, key: string): seq<T> {
    if cs == [] then [] else Cells(cs[0], key) + ColumnOf(cs[1..], key)
  }

  function ConcatColumns<T>(cs: seq<Columns<T>>): Columns<T>
    requires cs != []
  {
    map key | key in cs[0] :: ColumnOf(cs, key)
  }

  lemma RowOfSlice<T>(c: Columns<T>, n: nat, i: nat, j: nat, x: nat)
    requires AllLength(c, n) && i <= j <= n && x < j - i
    ensures AllLength(SliceColumns(c, i, j), j - i)
    ensures RowOf(SliceColumns(c, i, j), j - i, x) == RowOf(c, n, i + x)
  {
  }

  lemma RowOfStack<T>(a: Columns<T>, b: Columns<T>, m: nat, n: nat, x: nat)
    requires a.Keys == b.Keys && AllLength(a, m) && AllLength(b, n) && x < m + n
    ensures AllLength(StackColumns(a, b), m + n)
    ensures RowOf(StackColumns(a, b), m + n, x) == if x < m then RowOf(a, m, x) else RowOf(b, n, x - m)
  {
    var s := StackColumns(a, b);
    forall k | k in a ensures s[k][x] == if x < m then a[k][x] else b[k][x - m] {
    }
  }

  lemma ConcatColumnsOne<T>(c: Columns<T>)
    ensures ConcatColumns([c]) == c
  {
    assert [c][1..] == [];
    forall k | k in c ensures ColumnOf([c], k) == c[k] {
      assert c[k] + [] == c[k];
    }
  }

  lemma ConcatColumnsStep<T>(cs: seq<Columns<T>>)
    requires |cs| > 1 && cs[0].Keys == cs[1].Keys
    ensures ConcatColumns(cs) == StackColumns(cs[0], ConcatColumns(cs[1..]))
  {
  }

  // ---------------------------------------------------------------- batches as lists of rows

  /** All columns have `n` rows. */
  ghost predicate Aligned<T>(b: Batch<T>, n: nat) {
    (b.tensors.Some? ==> b.tensors.value.size == n && AllLength(b.tensors.value.columns, n))
    && AllLength(b.objects, n)
    && (b.tensors.None? && b.objects == map[] ==> n == 0)
  }

  /** `len(data)`: the size of the table, or the length of some object column. */
  ghost function Length<T>(b: Batch<T>): nat {
    if b.tensors.Some? then b.tensors.value.size
    else if b.objects == map[] then 0
    else var k :| k in b.objects; |b.objects[k]|
  }

  ghost predicate Valid<T>(b: Batch<T>) { Aligned(b, Length(b)) }

  lemma LengthIs<T>(b: Batch<T>, n: nat)
    requires Aligned(b, n)
    ensures Length(b) == n && Valid(b)
  {
  }

  datatype Row<T> = Row(tensors: Option<map<string, T>>, objects: map<string, T>)

  ghost function RowAt<T>(b: Batch<T>, i: nat): Row<T>
    requires Valid(b) && i < Length(b)
  {
    Row(if b.tensors.None? then None else Some(RowOf(b.tensors.value.columns, Length(b), i)),
        RowOf(b.objects, Length(b), i))
  }

  /** The batch as a list of rows: what makes its columns belong together. */
  ghost function Rows<T>(b: Batch<T>): (r: seq<Row<T>>)
    requires Valid(b)
    ensures |r| == Length(b) && forall i :: 0 <= i < |r| ==> r[i] == RowAt(b, i)
  {
    seq(Length(b), i requires 0 <= i < Length(b) => RowAt(b, i))
  }

  /** Two batches have the same columns. */
  ghost predicate SameSchema<T>(a: Batch<T>, b: Batch<T>) {
    (a.tensors.None? <==> b.tensors.None?)
    && (a.tensors.Some? && b.tensors.Some? ==> a.tensors.value.columns.Keys == b.tensors.value.columns.Keys)
    && a.objects.Keys == b.objects.Keys
  }

  lemma SchemaTrans<T>(a: Batch<T>, b: Batch<T>, c: Batch<T>)
    requires SameSchema(a, b) && SameSchema(b, c)
    ensures SameSchema(a, c) && SameSchema(c, a) && SameSchema(a, a)
  {
  }

  // ---------------------------------------------------------------- slices

  /** No column ends before row `j`. */
  ghost predicate Reaches<T>(b: Batch<T>, j: nat) {
    (b.tensors.Some? ==> forall k :: k in b.tensors.value.columns ==> j <= |b.tensors.value.columns[k]|)
    && forall k :: k in b.objects ==> j <= |b.objects[k]|
  }

  /** `data[i:j]`, for indices within the batch. */
  function Slice<T>(b: Batch<T>, i: nat, j: nat): Batch<T>
    requires i <= j && Reaches(b, j)
  {
    Batch(if b.tensors.None? then None else Some(Table(j - i, SliceColumns(b.tensors.value.columns, i, j))),
          SliceColumns(b.objects, i, j))
  }

  lemma SliceRows<T>(b: Batch<T>, i: nat, j: nat)
    requires Valid(b) && i <= j <= Length(b)
    ensures Reaches(b, j)
    ensures var s := Slice(b, i, j);
            Valid(s) && SameSchema(s, b) && Length(s) == j - i && Rows(s) == Rows(b)[i..j]
  {
    hide RowOf;
    var s := Slice(b, i, j);
    if b.tensors.None? && b.objects == map[] {
      assert s.objects == map[];
    }
    LengthIs(s, j - i);
    forall x | 0 <= x < j - i ensures RowAt(s, x) == RowAt(b, i + x) {
      RowOfSlice(b.objects, Length(b), i, j, x);
      if b.tensors.Some? {
        RowOfSlice(b.tensors.value.columns, Length(b), i, j, x);
      }
    }
  }

  // ---------------------------------------------------------------- concatenation

  function ObjectsOf<T>(bs: seq<Batch<T>>): (r: seq<Columns<T>>)
    ensures |r| == |bs| && forall i :: 0 <= i < |bs| ==> r[i] == bs[i].objects
  {
    seq(|bs|, i requires 0 <= i < |bs| => bs[i].objects)
  }

  function TablesOf<T>(bs: seq<Batch<T>>): (r: seq<Columns<T>>)
    requires forall i :: 0 <= i < |bs| ==> bs[i].tensors.Some?
    ensures |r| == |bs| && forall i :: 0 <= i < |bs| ==> r[i] == bs[i].tensors.value.columns
  {
    seq(|bs|, i requires 0 <= i < |bs| => bs[i].tensors.value.columns)
  }

  function TotalSize<T>(bs: seq<Batch<T>>): nat
    requires forall i :: 0 <= i < |bs| ==> bs[i].tensors.Some?
  {
    if bs == [] then 0 else bs[0].tensors.value.size + TotalSize(bs[1..])
  }

  /** The tables can be put one below the other. */
  predicate TablesFit<T>(bs: seq<Batch<T>>)
    requires bs != [] && bs[0].tensors.Some?
  {
    forall i :: 0 <= i < |bs| ==>
      bs[i].tensors.Some? && bs[i].tensors.value.columns.Keys == bs[0].tensors.value.columns.Keys
  }

  /** No batch has an object column the first one has not. */
  predicate ObjectsFit<T>(bs: seq<Batch<T>>)
    requires bs != []
  {
    forall i :: 0 <= i < |bs| ==> bs[i].objects.Keys <= bs[0].objects.Keys
  }

  /** The check of a new batch: no object column has another size than the table. */
  predicate Consistent<T>(b: Batch<T>) {
    b.tensors.Some? ==> forall k :: k in b.objects ==> |b.objects[k]| == b.tensors.value.size
  }

  /** `DataProto.concat`: it fails for no batches, for columns that do not fit, and when an object column does not get
  as many rows as the table. Whether there is a table is decided by the first batch. */
  function Concat<T>(bs: seq<Batch<T>>): Option<Batch<T>> {
    if bs == [] || (bs[0].tensors.Some? && !TablesFit(bs)) || !ObjectsFit(bs) then None
    else
      var objects := ConcatColumns(ObjectsOf(bs));
      var all := Batch(if bs[0].tensors.None? then None
                       else Some(Table(TotalSize(bs), ConcatColumns(TablesOf(bs)))), objects);
      if Consistent(all) then Some(all) else None
  }

  ghost function RowLists<T>(bs: seq<Batch<T>>): (r: seq<seq<Row<T>>>)
    requires forall i :: 0 <= i < |bs| ==> Valid(bs[i])
    ensures |r| == |bs| && forall i :: 0 <= i < |bs| ==> r[i] == Rows(bs[i])
  {
    seq(|bs|, i requires 0 <= i < |bs| => Rows(bs[i]))
  }

  /** The batches are valid and have the columns of `first`. */
  ghost predicate Uniform<T>(bs: seq<Batch<T>>, first: Batch<T>) {
    forall i :: 0 <= i < |bs| ==> Valid(bs[i]) && SameSchema(bs[i], first)
  }

  /** One batch on top of another. */
  function Stack<T>(a: Batch<T>, b: Batch<T>): Batch<T>
    requires a.tensors.Some? ==> b.tensors.Some? && a.tensors.value.columns.Keys == b.tensors.value.columns.Keys
    requires a.objects.Keys == b.objects.Keys
  {
    Batch(if a.tensors.None? then None
          else Some(Table(a.tensors.value.size + b.tensors.value.size,
                          StackColumns(a.tensors.value.columns, b.tensors.value.columns))),
          StackColumns(a.objects, b.objects))
  }

  lemma StackRows<T>(a: Batch<T>, b: Batch<T>)
    requires Valid(a) && Valid(b) && SameSchema(a, b)
    ensures var s := Stack(a, b);
            Valid(s) && SameSchema(s, a) && Length(s) == Length(a) + Length(b) && Rows(s) == Rows(a) + Rows(b)
  {
    hide RowOf;
    var s, m, n := Stack(a, b), Length(a), Length(b);
    if a.tensors.None? && a.objects == map[] {
      assert b.objects.Keys == {} && b.objects == map[] && s.objects == map[];
    }
    LengthIs(s, m + n);
    forall x | 0 <= x < m + n ensures RowAt(s, x) == if x < m then RowAt(a, x) else RowAt(b, x - m) {
      RowOfStack(a.objects, b.objects, m, n, x);
      if a.tensors.Some? {
        RowOfStack(a.tensors.value.columns, b.tensors.value.columns, m, n, x);
      }
    }
  }

  /** Concatenating a batch and more is stacking it on the concatenation of the rest. */
  lemma ConcatStep<T>(bs: seq<Batch<T>>)
    requires |bs| > 1 && Uniform(bs, bs[0]) && Concat(bs[1..]).Some?
    requires Valid(Concat(bs[1..]).value) && SameSchema(bs[0], Concat(bs[1..]).value)
    ensures Concat(bs) == Some(Stack(bs[0], Concat(bs[1..]).value))
  {
    hide ConcatColumns, StackColumns;
    var a, b := bs[0], Concat(bs[1..]).value;
    assert ObjectsOf(bs)[1..] == ObjectsOf(bs[1..]);
    ConcatColumnsStep(ObjectsOf(bs));
    if a.tensors.Some? {
      assert TablesOf(bs)[1..] == TablesOf(bs[1..]);
      ConcatColumnsStep(TablesOf(bs));
    }
    StackRows(a, b);
  }

  lemma ConcatOne<T>(b: Batch<T>)
    requires Valid(b)
    ensures Concat([b]) == Some(b)
  {
    hide ConcatColumns;
    var bs := [b];
    assert bs[1..] == [] && ObjectsOf(bs) == [b.objects];
    ConcatColumnsOne(b.objects);
    if b.tensors.Some? {
      assert TablesOf(bs) == [b.tensors.value.columns];
      ConcatColumnsOne(b.tensors.value.columns);
      assert TotalSize(bs) == b.tensors.value.size + TotalSize(bs[1..]);
    }
  }

  /** The rows of a concatenation are the rows of the batches, one after the other, in all columns alike. */
  lemma {:induction false} ConcatRows<T>(bs: seq<Batch<T>>)
    requires bs != [] && Uniform(bs, bs[0])
    ensures Concat(bs).Some?
    ensures var c := Concat(bs).value;
            Valid(c) && SameSchema(c, bs[0]) && Rows(c) == Flat(RowLists(bs))
    decreases |bs|
  {
    hide Concat, Valid, Stack, SameSchema, Rows;
    SchemaTrans(bs[0], bs[0], bs[0]);
    if |bs| == 1 {
      assert bs == [bs[0]];
      ConcatOne(bs[0]);
      OneList(bs);
    } else {
      var rest := bs[1..];
      SchemaOfRest(bs);
      ConcatRows(rest);
      SchemaTrans(Concat(rest).value, rest[0], bs[0]);
      ConcatStep(bs);
      StackRows(bs[0], Concat(rest).value);
      assert RowLists(bs)[1..] == RowLists(rest);
    }
  }

  lemma OneList<T>(bs: seq<Batch<T>>)
    requires |bs| == 1 && Valid(bs[0])
    ensures Flat(RowLists(bs)) == Rows(bs[0])
  {
    var l := RowLists(bs);
    assert l[1..] == [] && l[0] + [] == l[0];
  }

  lemma SchemaOfRest<T>(bs: seq<Batch<T>>)
    requires |bs| > 1 && Uniform(bs, bs[0])
    ensures Uniform(bs[1..], bs[1]) && SameSchema(bs[1], bs[0])
  {
  }

  // ---------------------------------------------------------------- exactly when a concatenation is right

  /** Every batch that has rows has the columns of the first one, and all the others can be passed over. */
  ghost predicate Fitting<T>(bs: seq<Batch<T>>)
    requires bs != [] && forall i :: 0 <= i < |bs| ==> Valid(bs[i])
  {
    && (bs[0].tensors.Some? ==> TablesFit(bs)) && ObjectsFit(bs)
    && (forall i :: 0 <= i < |bs| && Length(bs[i]) > 0 ==> SameSchema(bs[i], bs[0]))
  }

  /** The columns of a batch, without a row. */
  function EmptyColumns<T>(c: Columns<T>): Columns<T> { map k | k in c :: [] }

  function EmptyLike<T>(b: Batch<T>): Batch<T> {
    Batch(if b.tensors.None? then None else Some(Table(0, EmptyColumns(b.tensors.value.columns))),
          EmptyColumns(b.objects))
  }

  lemma EmptyLikeRows<T>(b: Batch<T>)
    ensures var e := EmptyLike(b); Valid(e) && Length(e) == 0 && SameSchema(e, b) && Rows(e) == []
  {
    LengthIs(EmptyLike(b), 0);
  }

  /** The batches, with those that have no rows put into the form of the first. */
  ghost function Regular<T>(bs: seq<Batch<T>>): (r: seq<Batch<T>>)
    requires bs != []
    ensures |r| == |bs|
    ensures forall i :: 0 <= i < |bs| ==> r[i] == if i > 0 && Length(bs[i]) == 0 then EmptyLike(bs[0]) else bs[i]
  {
    seq(|bs|, i requires 0 <= i < |bs| => if i > 0 && Length(bs[i]) == 0 then EmptyLike(bs[0]) else bs[i])
  }

  /** Two lists of columns give the same column `key`. */
  lemma {:induction false} SameColumn<T>(a: seq<Columns<T>>, b: seq<Columns<T>>, key: string)
    requires |a| == |b| && forall i :: 0 <= i < |a| ==> Cells(a[i], key) == Cells(b[i], key)
    ensures ColumnOf(a, key) == ColumnOf(b, key)
  {
    if a != [] {
      SameColumn(a[1..], b[1..], key);
    }
  }

  lemma {:induction false} SameTotal<T>(a: seq<Batch<T>>, b: seq<Batch<T>>)
    requires |a| == |b| && forall i :: 0 <= i < |a| ==> a[i].tensors.Some? && b[i].tensors.Some?
    requires forall i :: 0 <= i < |a| ==> a[i].tensors.value.size == b[i].tensors.value.size
    ensures TotalSize(a) == TotalSize(b)
  {
    if a != [] {
      SameTotal(a[1..], b[1..]);
    }
  }

  /** A batch without rows adds nothing to any column. */
  lemma NoRowsNoCells<T>(b: Batch<T>, key: string)
    requires Valid(b) && Length(b) == 0
    ensures Cells(b.objects, key) == []
    ensures b.tensors.Some? ==> b.tensors.value.size == 0 && Cells(b.tensors.value.columns, key) == []
  {
  }

  lemma RegularColumns<T>(bs: seq<Batch<T>>)
    requires bs != [] && (forall i :: 0 <= i < |bs| ==> Valid(bs[i])) && Fitting(bs)
    ensures Uniform(Regular(bs), bs[0]) && Regular(bs)[0] == bs[0]
    ensures ConcatColumns(ObjectsOf(Regular(bs))) == ConcatColumns(ObjectsOf(bs))
  {
    hide Valid, SameSchema, EmptyLike, Length, Cells;
    var r := Regular(bs);
    EmptyLikeRows(bs[0]);
    SchemaTrans(bs[0], bs[0], bs[0]);
    forall key ensures ColumnOf(ObjectsOf(r), key) == ColumnOf(ObjectsOf(bs), key) {
      forall i | 0 <= i < |bs| ensures Cells(r[i].objects, key) == Cells(bs[i].objects, key) {
        if i > 0 && Length(bs[i]) == 0 {
          NoRowsNoCells(bs[i], key);
          NoRowsNoCells(EmptyLike(bs[0]), key);
        }
      }
      SameColumn(ObjectsOf(r), ObjectsOf(bs), key);
    }
  }

  lemma RegularTable<T>(bs: seq<Batch<T>>, i: nat, key: string)
    requires bs != [] && (forall i :: 0 <= i < |bs| ==> Valid(bs[i])) && Fitting(bs) && bs[0].tensors.Some? && i < |bs|
    ensures bs[i].tensors.Some? && Regular(bs)[i].tensors.Some?
    ensures var a, b := bs[i].tensors.value, Regular(bs)[i].tensors.value;
            a.size == b.size && Cells(a.columns, key) == Cells(b.columns, key)
  {
    hide Valid, SameSchema, Length, Cells, ObjectsFit;
    assert EmptyLike(bs[0]).tensors.Some?;
    if i > 0 && Length(bs[i]) == 0 {
      hide EmptyLike;
      EmptyLikeRows(bs[0]);
      NoRowsNoCells(bs[i], key);
      NoRowsNoCells(EmptyLike(bs[0]), key);
    }
  }

  lemma RegularTables<T>(bs: seq<Batch<T>>)
    requires bs != [] && (forall i :: 0 <= i < |bs| ==> Valid(bs[i])) && Fitting(bs) && bs[0].tensors.Some?
    ensures forall i :: 0 <= i < |bs| ==> bs[i].tensors.Some? && Regular(bs)[i].tensors.Some?
    ensures TotalSize(Regular(bs)) == TotalSize(bs)
    ensures ConcatColumns(TablesOf(Regular(bs))) == ConcatColumns(TablesOf(bs))
  {
    hide Valid, EmptyLike, Fitting, Cells, Length;
    var r := Regular(bs);
    forall i | 0 <= i < |bs|
      ensures bs[i].tensors.Some? && r[i].tensors.Some? && r[i].tensors.value.size == bs[i].tensors.value.size
    {
      RegularTable(bs, i, "");
    }
    SameTotal(r, bs);
    forall key ensures ColumnOf(TablesOf(r), key) == ColumnOf(TablesOf(bs), key) {
      forall i | 0 <= i < |bs| ensures Cells(TablesOf(r)[i], key) == Cells(TablesOf(bs)[i], key) {
        RegularTable(bs, i, key);
      }
      SameColumn(TablesOf(r), TablesOf(bs), key);
    }
  }

  lemma {:induction false} InFlat<T>(lists: seq<seq<T>>, i: nat, x: T)
    requires i < |lists| && x in lists[i]
    ensures x in Flat(lists)
  {
    if i > 0 {
      InFlat(lists[1..], i - 1, x);
    }
  }

  /** The result is a batch whose rows are those of the batches, one after the other. */
  ghost predicate IsConcatenation<T>(bs: seq<Batch<T>>, r: Option<Batch<T>>)
    requires forall i :: 0 <= i < |bs| ==> Valid(bs[i])
  {
    r.Some? && Valid(r.value) && Rows(r.value) == Flat(RowLists(bs))
  }

  lemma FittingIsEnough<T>(bs: seq<Batch<T>>)
    requires bs != [] && (forall i :: 0 <= i < |bs| ==> Valid(bs[i])) && Fitting(bs)
    ensures IsConcatenation(bs, Concat(bs))
  {
    hide Valid, SameSchema, EmptyLike, Uniform, ConcatColumns, Rows, TotalSize;
    var r := Regular(bs);
    RegularColumns(bs);
    if bs[0].tensors.Some? {
      RegularTables(bs);
    }
    ConcatRows(r);
    assert Concat(r) == Concat(bs);
    EmptyLikeRows(bs[0]);
    forall i | 0 <= i < |bs| ensures Valid(r[i]) && Rows(r[i]) == Rows(bs[i]) {
    }
    assert RowLists(r) == RowLists(bs);
  }

  lemma RowSchema<T>(a: Batch<T>, i: nat, b: Batch<T>, j: nat)
    requires Valid(a) && Valid(b) && i < Length(a) && j < Length(b) && RowAt(a, i) == RowAt(b, j)
    ensures SameSchema(a, b)
  {
    var x, y := RowAt(a, i), RowAt(b, j);
    assert x.objects.Keys == a.objects.Keys && y.objects.Keys == b.objects.Keys;
    if a.tensors.Some? {
      assert x.tensors.value.Keys == a.tensors.value.columns.Keys;
      assert y.tensors.value.Keys == b.tensors.value.columns.Keys;
    }
  }

  lemma ConcatSchema<T>(bs: seq<Batch<T>>)
    requires Concat(bs).Some?
    ensures bs != [] && SameSchema(Concat(bs).value, bs[0])
    ensures (bs[0].tensors.Some? ==> TablesFit(bs)) && ObjectsFit(bs)
  {
  }

  /** Concatenation is right exactly when it is done with fitting batches: otherwise it fails, or, when the first batch
  has no table, rows are lost, mixed up or missing some of their columns. */
  lemma ConcatExactly<T>(bs: seq<Batch<T>>)
    requires bs != [] && forall i :: 0 <= i < |bs| ==> Valid(bs[i])
    ensures IsConcatenation(bs, Concat(bs)) <==> Fitting(bs)
  {
    hide Valid, SameSchema, Concat;
    if Fitting(bs) {
      FittingIsEnough(bs);
    }
    if IsConcatenation(bs, Concat(bs)) {
      var c := Concat(bs).value;
      ConcatSchema(bs);
      forall i | 0 <= i < |bs| && Length(bs[i]) > 0 ensures SameSchema(bs[i], bs[0]) {
        var x := Rows(bs[i])[0];
        assert x in RowLists(bs)[i];
        InFlat(RowLists(bs), i, x);
        assert x in Rows(c);
        var j :| 0 <= j < |Rows(c)| && Rows(c)[j] == x;
        RowSchema(bs[i], 0, c, j);
        SchemaTrans(bs[i], c, bs[0]);
      }
    }
  }

  lemma ThreeColumns<T>(a: Columns<T>, b: Columns<T>, c: Columns<T>, key: string)
    ensures ColumnOf([a, b, c], key) == Cells(a, key) + Cells(b, key) + Cells(c, key)
  {
    assert [a, b, c][1..] == [b, c] && [b, c][1..] == [c] && [c][1..] == [];
    assert ColumnOf([c], key) == Cells(c, key) + ColumnOf([], key);
  }

  /** Three batches without a table, of which the second lacks one column and the third the other: all of them are
  valid, and the last row of their concatenation is put together from two of theirs. */
  lemma RowsMixed()
    ensures var a := Batch(None, map["x" := [1], "y" := [2]]);
            var b, c := Batch(None, map["x" := [3]]), Batch(None, map["y" := [4]]);
            && Valid(a) && Valid(b) && Valid(c) && Length(a) == Length(b) == Length(c) == 1
            && Concat([a, b, c]) == Some(Batch(None, map["x" := [1, 3], "y" := [2, 4]]))
  {
    var a := Batch(None, map["x" := [1], "y" := [2]]);
    var b, c := Batch(None, map["x" := [3]]), Batch(None, map["y" := [4]]);
    assert "x" in a.objects && "x" in b.objects && "y" in c.objects;
    LengthIs(a, 1);
    LengthIs(b, 1);
    LengthIs(c, 1);
    var columns := [a.objects, b.objects, c.objects];
    assert ObjectsOf([a, b, c]) == columns;
    ThreeColumns(a.objects, b.objects, c.objects, "x");
    ThreeColumns(a.objects, b.objects, c.objects, "y");
    assert ColumnOf(columns, "x") == [1, 3] && ColumnOf(columns, "y") == [2, 4];
    assert ConcatColumns(columns) == map["x" := [1, 3], "y" := [2, 4]];
  }
}
