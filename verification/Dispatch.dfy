/** Spreading a batch over workers and collecting the results (verl/protocol.py): padding to a multiple, chunking,
concatenating, unpadding, and futures that are cut up before they are collected. */
module Dispatch {
  import opened Py
  import opened DataProto

  // ---------------------------------------------------------------- padding

  /** A list that goes round and round through `rows`. */
  ghost predicate Cyclic<R>(s: seq<R>, rows: seq<R>) {
    forall i :: 0 <= i < |s| ==> rows != [] && s[i] == rows[i % |rows|]
  }

  predicate WholeRounds(x: nat, n: nat) { n > 0 && x % n == 0 }

  /** `pad_dataproto_to_divisor`: the rows are repeated from the start, as often as it takes. */
  method PadToDivisor<T>(data: Batch<T>, length: nat, divisor: nat) returns (padded: Batch<T>, padSize: nat)
    requires Valid(data) && length == Length(data) && divisor > 0
    ensures Valid(padded) && SameSchema(padded, data)
    ensures Length(padded) == length + padSize && Length(padded) % divisor == 0 && padSize < divisor
    ensures Cyclic(Rows(padded), Rows(data))
  {
    hide Concat, Slice, SameSchema, Valid, Rows, Cyclic, WholeRounds, Length;
    SchemaTrans(data, data, data);
    ghost var rows := Rows(data);
    RowCount(data);
    OneRound(rows);
    if length % divisor == 0 {
      return data, 0;
    }
    padSize := divisor - length % divisor;
    Divides(length, divisor);
    var pieces := [data];
    OneList(pieces);
    ghost var stacked := rows;
    var remaining: nat := padSize;
    while remaining > 0
      invariant remaining <= padSize && length > 0
      invariant pieces != [] && pieces[0] == data && Uniform(pieces, data)
      invariant Flat(RowLists(pieces)) == stacked && |stacked| == length + (padSize - remaining)
      invariant remaining > 0 ==> WholeRounds(padSize - remaining, length)
      invariant Cyclic(stacked, rows)
    {
      var takeSize := Min(remaining, length);
      SliceRows(data, 0, takeSize);
      var piece := Slice(data, 0, takeSize);
      StackPiece(pieces, piece, data);
      NextRound(stacked, rows, takeSize);
      stacked := stacked + Rows(piece);
      pieces := pieces + [piece];
      remaining := remaining - takeSize;
    }
    ConcatRows(pieces);
    padded := Concat(pieces).value;
    RowCount(padded);
  }

  lemma OneRound<R>(rows: seq<R>)
    ensures Cyclic(rows, rows)
    ensures rows != [] ==> WholeRounds(0, |rows|)
  {
  }

  lemma RowCount<T>(b: Batch<T>)
    requires Valid(b)
    ensures |Rows(b)| == Length(b)
  {
  }

  /** A place `j` rows after whole rounds. */
  lemma Round(x: nat, n: nat, j: nat)
    requires n > 0 && x % n == 0 && j < n
    ensures (x + j) % n == j && (x + n) % n == 0
  {
    var q := x / n;
    assert x == q * n;
    DivUnique(x + j, n, q, j);
    MulNext(q, n);
    DivUnique(x + n, n, q + 1, 0);
  }

  lemma Divides(n: nat, d: nat)
    requires d > 0
    ensures (n + (d - n % d)) % d == 0
  {
    var q := n / d;
    assert n == q * d + n % d;
    MulNext(q, d);
    DivUnique(n + (d - n % d), d, q + 1, 0);
  }

  /** After whole rounds, the list goes on with the first rows; if it takes all of them, that is another round. */
  lemma NextRound<R>(stacked: seq<R>, rows: seq<R>, n: nat)
    requires |stacked| >= |rows| && WholeRounds(|stacked| - |rows|, |rows|) && n <= |rows| && Cyclic(stacked, rows)
    ensures Cyclic(stacked + rows[0..n], rows)
    ensures n == |rows| ==> WholeRounds(|stacked| - |rows| + n, |rows|)
  {
    var s := stacked + rows[0..n];
    Round(|stacked| - |rows|, |rows|, 0);
    forall i | |stacked| <= i < |s| ensures s[i] == rows[i % |rows|] {
      Round(|stacked|, |rows|, i - |stacked|);
    }
  }

  lemma StackPiece<T>(pieces: seq<Batch<T>>, piece: Batch<T>, data: Batch<T>)
    requires Uniform(pieces, data) && Valid(piece) && SameSchema(piece, data)
    ensures Uniform(pieces + [piece], data)
    ensures Flat(RowLists(pieces + [piece])) == Flat(RowLists(pieces)) + Rows(piece)
  {
    hide Valid, SameSchema, Rows;
    var all := pieces + [piece];
    assert RowLists(all) == RowLists(pieces) + [Rows(piece)];
    FlatSnoc(RowLists(pieces), Rows(piece));
  }

  /** `unpad_dataproto`: `data[:-pad_size]`. */
  function Unpad<T>(data: Batch<T>, length: nat, padSize: nat): Batch<T>
    requires Reaches(data, length)
  {
    if padSize == 0 then data else Slice(data, 0, Max(length - padSize, 0))
  }

  // ---------------------------------------------------------------- chunks

  /** Where part `i` starts. */
  function Offset(i: nat, m: nat): nat { i * m }

  /** Part `i` of the parts of size `m` of a list. */
  function PartOf<R>(s: seq<R>, i: nat, m: nat): seq<R> {
    if Offset(i, m) + m <= |s| then s[Offset(i, m)..Offset(i, m) + m] else []
  }

  /** `chunk`: equal parts, or an error (automatic padding is off). */
  function Chunk<T>(data: Batch<T>, length: nat, chunks: nat): Option<seq<Batch<T>>>
    requires chunks > 0 && Reaches(data, length)
  {
    if length % chunks != 0 then None
    else
      var m := length / chunks;
      Some(seq(chunks, i requires 0 <= i < chunks =>
                 (PartsEnd(length, chunks, i); Slice(data, Offset(i, m), Offset(i, m) + m))))
  }

  lemma PartsEnd(n: nat, k: nat, i: nat)
    requires i < k && n % k == 0
    ensures Offset(k, n / k) == n && Offset(i, n / k) + n / k <= n
  {
    var m := n / k;
    assert n == m * k + 0;
    assert Offset(k, m) == n;
    MulNext(i, m);
    MulMono(i + 1, k, m);
  }

  /** The parts are slices of the rows, in order, with all their columns. */
  lemma ChunkRows<T>(data: Batch<T>, chunks: nat, i: nat)
    requires Valid(data) && chunks > 0 && Length(data) % chunks == 0 && i < chunks
    ensures Reaches(data, Length(data)) && Chunk(data, Length(data), chunks).Some?
    ensures var parts := Chunk(data, Length(data), chunks).value;
            var m := Length(data) / chunks;
            |parts| == chunks && Offset(i, m) + m <= Length(data) && Valid(parts[i]) && SameSchema(parts[i], data)
            && Rows(parts[i]) == PartOf(Rows(data), i, m)
  {
    hide Slice, Valid, SameSchema, Rows, Offset, Length;
    var n := Length(data);
    var m := n / chunks;
    RowCount(data);
    SliceRows(data, 0, n);
    PartsEnd(n, chunks, i);
    SliceRows(data, Offset(i, m), Offset(i, m) + m);
  }

  /** A list cut into equal parts is their concatenation. */
  lemma {:induction false} EqualParts<R>(s: seq<R>, m: nat, parts: seq<seq<R>>)
    requires |s| == Offset(|parts|, m)
    requires forall i :: 0 <= i < |parts| ==> parts[i] == PartOf(s, i, m)
    ensures Flat(parts) == s
    decreases |parts|
  {
    hide Flat;
    if parts == [] {
      FlatNothing<R>();
    } else {
      var last := |parts| - 1;
      MulNext(last, m);
      var front, cut := parts[..last], Offset(last, m);
      assert |s| == cut + m;
      hide Offset;
      forall i | 0 <= i < last ensures front[i] == PartOf(s[..cut], i, m) {
        PartInside(i, last, m);
        assert s[..cut][Offset(i, m)..Offset(i, m) + m] == s[Offset(i, m)..Offset(i, m) + m];
      }
      EqualParts(s[..cut], m, front);
      FlatSnoc(front, parts[last]);
      assert front + [parts[last]] == parts;
      assert s[..cut] + s[cut..cut + m] == s;
    }
  }

  lemma PartInside(i: nat, k: nat, m: nat)
    requires i < k
    ensures Offset(i, m) + m <= Offset(k, m)
  {
    MulNext(i, m);
    MulMono(i + 1, k, m);
  }

  /** `split`: parts of one size, the last one of what is left. */
  function Split<T>(data: Batch<T>, length: nat, i: nat, size: nat): seq<Batch<T>>
    requires size > 0 && Reaches(data, length)
    decreases length - i
  {
    if i >= length then [] else [Slice(data, i, Min(i + size, length))] + Split(data, length, i + size, size)
  }

  /** Splitting a batch splits its rows, and putting the parts together again gives them all. */
  lemma {:induction false} SplitRows<T>(data: Batch<T>, i: nat, size: nat)
    requires Valid(data) && size > 0 && i <= Length(data)
    ensures Reaches(data, Length(data))
    ensures var parts := Split(data, Length(data), i, size);
            Uniform(parts, data) && RowLists(parts) == Pieces(Rows(data)[i..], size)
            && Flat(RowLists(parts)) == Rows(data)[i..]
    decreases Length(data) - i
  {
    hide Slice, Valid, SameSchema, Rows, Length, Pieces;
    var n := Length(data);
    RowCount(data);
    SliceRows(data, 0, n);
    PiecesFlat(Rows(data)[i..], size);
    if i < n {
      var j := Min(i + size, n);
      SliceRows(data, i, j);
      OnePiece(Rows(data), i, size);
      var part, more := Slice(data, i, j), Split(data, n, i + size, size);
      if i + size < n {
        SplitRows(data, i + size, size);
      } else {
        NoPieces<Row<T>>(size);
        assert more == [];
      }
      MoreLists(part, more);
      UniformMore(part, more, data);
    } else {
      NoPieces<Row<T>>(size);
    }
  }

  lemma OnePiece<R>(rows: seq<R>, i: nat, size: nat)
    requires size > 0 && i < |rows|
    ensures var j := Min(i + size, |rows|);
            Pieces(rows[i..], size) == [rows[i..j]] + Pieces(rows[j..], size)
  {
    var s := rows[i..];
    if |s| <= size {
      assert rows[i..|rows|] == s && rows[|rows|..] == [];
    } else {
      assert s[..size] == rows[i..i + size] && s[size..] == rows[i + size..];
    }
  }

  lemma NoPieces<R>(size: nat)
    requires size > 0
    ensures Pieces<R>([], size) == []
  {
  }

  lemma MoreLists<T>(part: Batch<T>, more: seq<Batch<T>>)
    requires Valid(part) && forall i :: 0 <= i < |more| ==> Valid(more[i])
    ensures forall i :: 0 <= i < |[part] + more| ==> Valid(([part] + more)[i])
    ensures RowLists([part] + more) == [Rows(part)] + RowLists(more)
  {
    hide Valid, Rows;
  }

  lemma UniformMore<T>(part: Batch<T>, more: seq<Batch<T>>, data: Batch<T>)
    requires Valid(part) && SameSchema(part, data) && Uniform(more, data)
    ensures Uniform([part] + more, data)
  {
    hide Valid, SameSchema;
  }

  // ---------------------------------------------------------------- dispatch

  function Mapped<R, S>(w: R -> S, rows: seq<R>): (r: seq<S>)
    ensures |r| == |rows| && forall i :: 0 <= i < |rows| ==> r[i] == w(rows[i])
  {
    seq(|rows|, i requires 0 <= i < |rows| => w(rows[i]))
  }

  /** What a worker that treats the rows one by one gives back for a part: its rows mapped, in columns of its own. */
  ghost predicate Answers<T, U>(w: Row<T> -> Row<U>, parts: seq<Batch<T>>, outputs: seq<Batch<U>>) {
    |outputs| == |parts| && outputs != [] && Uniform(outputs, outputs[0])
    && forall i :: 0 <= i < |parts| ==> Valid(parts[i]) && Rows(outputs[i]) == Mapped(w, Rows(parts[i]))
  }

  /** Chunking, working on every part and concatenating is working on the whole. */
  lemma ChunkMapConcat<T, U>(w: Row<T> -> Row<U>, data: Batch<T>, chunks: nat, outputs: seq<Batch<U>>)
    requires Valid(data) && chunks > 0 && Length(data) % chunks == 0 && Reaches(data, Length(data))
    requires Chunk(data, Length(data), chunks).Some?
    requires Answers(w, Chunk(data, Length(data), chunks).value, outputs)
    ensures Concat(outputs).Some? && Valid(Concat(outputs).value)
    ensures Rows(Concat(outputs).value) == Mapped(w, Rows(data))
  {
    hide Valid, SameSchema, Rows, Concat, Chunk;
    hide Offset, Mapped, PartOf, Length;
    var n, rows := Length(data), Rows(data);
    var m := n / chunks;
    RowCount(data);
    ChunkRows(data, chunks, 0);
    ConcatRows(outputs);
    PartsEnd(n, chunks, 0);
    forall i | 0 <= i < chunks ensures RowLists(outputs)[i] == PartOf(Mapped(w, rows), i, m) {
      WorkerPart(w, data, chunks, outputs, i);
    }
    EqualParts(Mapped(w, rows), m, RowLists(outputs));
  }

  lemma WorkerPart<T, U>(w: Row<T> -> Row<U>, data: Batch<T>, chunks: nat, outputs: seq<Batch<U>>, i: nat)
    requires Valid(data) && i < chunks && Length(data) % chunks == 0 && Reaches(data, Length(data))
    requires Chunk(data, Length(data), chunks).Some?
    requires Answers(w, Chunk(data, Length(data), chunks).value, outputs)
    ensures |outputs| == chunks && Valid(outputs[i])
    ensures Rows(outputs[i]) == PartOf(Mapped(w, Rows(data)), i, Length(data) / chunks)
  {
    hide Valid, SameSchema, Rows, Chunk, Offset, Mapped, PartOf, Length;
    ChunkRows(data, chunks, i);
    MappedPart(w, Rows(data), i, Length(data) / chunks);
  }

  lemma MappedPart<R, S>(w: R -> S, rows: seq<R>, i: nat, m: nat)
    ensures Mapped(w, PartOf(rows, i, m)) == PartOf(Mapped(w, rows), i, m)
  {
    hide Offset;
  }

  /** Data-parallel dispatch: padding to a multiple of the number of workers, chunking, working on every part,
  concatenating and unpadding is working on the batch itself. */
  lemma DispatchIsMap<T, U>(w: Row<T> -> Row<U>, data: Batch<T>, padded: Batch<T>, padSize: nat, workers: nat,
                            outputs: seq<Batch<U>>)
    requires Valid(data) && Valid(padded) && workers > 0
    requires Length(padded) == Length(data) + padSize && Length(padded) % workers == 0
    requires Cyclic(Rows(padded), Rows(data))
    requires Reaches(padded, Length(padded)) && Chunk(padded, Length(padded), workers).Some?
    requires Answers(w, Chunk(padded, Length(padded), workers).value, outputs)
    ensures Concat(outputs).Some?
    ensures var all := Concat(outputs).value;
            Valid(all) && Reaches(all, Length(all))
            && var result := Unpad(all, Length(all), padSize);
               Valid(result) && Rows(result) == Mapped(w, Rows(data))
  {
    hide Valid, SameSchema, Rows, Concat, Chunk, Slice, Reaches, Unpad, Cyclic, Mapped, Answers, Length;
    ChunkMapConcat(w, padded, workers, outputs);
    var all := Concat(outputs).value;
    RowCount(all);
    RowCount(padded);
    RowCount(data);
    UnpadRows(all, padSize);
    OriginalRows(Rows(padded), Rows(data));
    MappedPrefix(w, Rows(padded), |Rows(data)|);
  }

  lemma UnpadRows<T>(all: Batch<T>, padSize: nat)
    requires Valid(all) && padSize <= Length(all)
    ensures Reaches(all, Length(all))
    ensures var result := Unpad(all, Length(all), padSize);
            Valid(result) && Rows(result) == Rows(all)[..Length(all) - padSize]
  {
    hide Valid, Rows, Slice, SameSchema;
    RowCount(all);
    SliceRows(all, 0, Length(all));
    SliceRows(all, 0, Length(all) - padSize);
    assert Rows(all)[..Length(all)] == Rows(all);
  }

  /** A padded list starts with the list itself. */
  lemma OriginalRows<R>(padded: seq<R>, rows: seq<R>)
    requires Cyclic(padded, rows) && |padded| >= |rows|
    ensures padded[..|rows|] == rows
  {
    forall i | 0 <= i < |rows| ensures padded[i] == rows[i] {
      DivUnique(i, |rows|, 0, i);
    }
  }

  lemma MappedPrefix<R, S>(w: R -> S, rows: seq<R>, n: nat)
    requires n <= |rows|
    ensures |Mapped(w, rows)| == |rows| && Mapped(w, rows)[..n] == Mapped(w, rows[..n])
  {
  }

  // ---------------------------------------------------------------- futures

  /** Results still being computed by several workers, and the part that is wanted of them. */
  datatype Future<T> = Future(results: seq<Batch<T>>, part: Option<(nat, nat)>)

  /** `DataProtoFuture.chunk` */
  function ChunkFuture<T>(f: Future<T>, chunks: nat): (r: seq<Future<T>>)
    ensures |r| == chunks
  {
    seq(chunks, i requires 0 <= i < chunks => Future(f.results, Some((i, chunks))))
  }

  /** Part `i` of the parts a batch is cut into, or an error. */
  ghost function CutPart<T>(all: Batch<T>, chunks: nat, i: nat): Option<Batch<T>> {
    if chunks == 0 || !Reaches(all, Length(all)) then None
    else
      match Chunk(all, Length(all), chunks)
      case None => None
      case Some(parts) => if i < |parts| then Some(parts[i]) else None
  }

  /** `DataProtoFuture.get` */
  ghost function Get<T>(f: Future<T>): Option<Batch<T>> {
    match Concat(f.results)
    case None => None
    case Some(all) => if f.part.None? then Some(all) else CutPart(all, f.part.value.1, f.part.value.0)
  }

  /** Part `i` of a batch cut into equal parts, if it can be cut so. */
  ghost predicate IsPart<T>(part: Option<Batch<T>>, all: Batch<T>, chunks: nat, i: nat)
    requires Valid(all) && i < chunks
  {
    if Length(all) % chunks != 0 then part.None?
    else part.Some? && Valid(part.value) && Rows(part.value) == PartOf(Rows(all), i, Length(all) / chunks)
  }

  lemma CutPartIs<T>(all: Batch<T>, chunks: nat, i: nat)
    requires Valid(all) && i < chunks
    ensures IsPart(CutPart(all, chunks, i), all, chunks, i)
  {
    hide Valid, SameSchema, Rows, Offset, Length;
    SliceRows(all, 0, Length(all));
    RowCount(all);
    if Length(all) % chunks == 0 {
      ChunkRows(all, chunks, i);
    }
  }

  /** Getting part `i` of a future is part `i` of the concatenated results, for any number of workers and parts. */
  lemma FutureParts<T>(f: Future<T>, chunks: nat, i: nat)
    requires f.results != [] && Uniform(f.results, f.results[0]) && f.part.None? && i < chunks
    ensures Get(f).Some? && Valid(Get(f).value)
    ensures Rows(Get(f).value) == Flat(RowLists(f.results))
    ensures IsPart(Get(ChunkFuture(f, chunks)[i]), Get(f).value, chunks, i)
  {
    hide Valid, SameSchema, Rows, Concat, CutPart, IsPart, Length;
    ConcatRows(f.results);
    CutPartIs(Concat(f.results).value, chunks, i);
  }

  /** Part `j` of what a future gives, cut into `b` parts: what the future that is cut up once more stands for. */
  ghost function PartOfGotten<T>(f: Future<T>, b: nat, j: nat): Option<Batch<T>> {
    var part := Get(f);
    if part.None? then None else CutPart(part.value, b, j)
  }

  /** Both fail, or both are batches with the same rows. */
  ghost predicate SameRows<T>(x: Option<Batch<T>>, y: Option<Batch<T>>) {
    if x.None? || y.None? then x.None? && y.None?
    else Valid(x.value) && Valid(y.value) && Rows(x.value) == Rows(y.value)
  }

  lemma PartLength<R>(s: seq<R>, i: nat, k: nat)
    requires i < k && |s| % k == 0
    ensures |PartOf(s, i, |s| / k)| == |s| / k
  {
    hide Offset;
    PartsEnd(|s|, k, i);
  }

  /** A part of a part is smaller than a part, unless there is only one or they are empty. */
  lemma PartOfPartSize(n: nat, a: nat, b: nat)
    requires a > 0 && b > 0 && n % a == 0 && (n / a) % b == 0
    ensures n % b == 0 && (n / b == n / a / b <==> a == 1 || n == 0)
  {
    var m := n / a / b;
    assert n / a == m * b && n == (n / a) * a;
    assert n == (a * m) * b + 0 by { assert (m * b) * a == (a * m) * b; }
    DivUnique(n, b, a * m, 0);
    if m > 0 && a > 1 {
      MulMono(2, a, m);
    }
  }

  /** A future that is cut up twice forgets the first cut: its part is the one of the concatenated results by the
  second cut alone. It is the part of the part, errors included, exactly if the first cut was into one, there are no
  rows, or the second cut alone does not come out even. */
  lemma SecondCut<T>(f: Future<T>, a: nat, b: nat, i: nat, j: nat)
    requires f.results != [] && Uniform(f.results, f.results[0]) && f.part.None? && i < a && j < b
    ensures var part := Get(ChunkFuture(ChunkFuture(f, a)[i], b)[j]);
            var n := |Flat(RowLists(f.results))|;
            && Get(f).Some? && Valid(Get(f).value) && IsPart(part, Get(f).value, b, j)
            && (SameRows(part, PartOfGotten(ChunkFuture(f, a)[i], b, j)) <==> a == 1 || n == 0 || n % b != 0)
  {
    hide Valid, Rows, Get, PartOf, CutPart, Length;
    var rows := Flat(RowLists(f.results));
    var n := |rows|;
    assert ChunkFuture(ChunkFuture(f, a)[i], b)[j] == ChunkFuture(f, b)[j];
    FutureParts(f, b, j);
    FutureParts(f, a, i);
    RowCount(Get(f).value);
    var first := Get(ChunkFuture(f, a)[i]);
    if n % a == 0 {
      PartLength(rows, i, a);
      RowCount(first.value);
      CutPartIs(first.value, b, j);
      if n / a % b == 0 {
        PartOfPartSize(n, a, b);
        PartLength(rows, j, b);
        PartLength(PartOf(rows, i, n / a), j, b);
      }
      if a == 1 {
        WholePart(rows);
      }
    } else {
      NoRowsEven(n, a);
    }
  }

  lemma NoRowsEven(n: nat, a: nat)
    requires a > 0 && n % a != 0
    ensures n != 0 && a != 1
  {
  }

  lemma WholePart<R>(s: seq<R>)
    ensures PartOf(s, 0, |s| / 1) == s && |s| / 1 == |s|
  {
    assert Offset(0, |s|) == 0;
  }

  /** Of two rows, the second half has one part, which is the second row; the future gives both of them. */
  lemma SecondHalfLost<T>(f: Future<T>)
    requires f.results != [] && Uniform(f.results, f.results[0]) && f.part.None? && |Flat(RowLists(f.results))| == 2
    ensures var part, nested := Get(ChunkFuture(ChunkFuture(f, 2)[1], 1)[0]), PartOfGotten(ChunkFuture(f, 2)[1], 1, 0);
            var rows := Flat(RowLists(f.results));
            && part.Some? && Valid(part.value) && Rows(part.value) == rows
            && nested.Some? && Valid(nested.value) && Rows(nested.value) == [rows[1]]
  {
    hide Valid, Rows, Get, CutPart, Length;
    var rows := Flat(RowLists(f.results));
    SecondCut(f, 2, 1, 1, 0);
    FutureParts(f, 2, 1);
    RowCount(Get(f).value);
    var first := Get(ChunkFuture(f, 2)[1]);
    assert Offset(1, 1) == 1;
    assert PartOf(rows, 1, 1) == [rows[1]];
    RowCount(first.value);
    CutPartIs(first.value, 1, 0);
    WholePart(rows);
    WholePart([rows[1]]);
  }
}
