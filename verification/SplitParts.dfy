/** Positions and reads in an archive that is cut into parts (scripts/extract_videoespresso_split_zip_subset.py). */
module SplitParts {
  import opened Py
  import opened Bytes

  type Parts = seq<seq<Byte>>

  /** A place in an archive: a part, and an offset into it that may lie past its end. */
  datatype Position = At(disk: nat, offset: nat)

  /** Where part `disk` starts in the concatenation; the end for a part that does not exist. */
  function Base(parts: Parts, disk: nat): (r: nat)
    ensures r <= |Flat(parts)|
    decreases |parts|
  {
    if parts == [] || disk == 0 then 0 else |parts[0]| + Base(parts[1..], disk - 1)
  }

  /** The offset in the concatenation. A position past the end of its part stands for the start of the next one. */
  function FlatOffset(parts: Parts, p: Position): (r: nat)
    ensures r <= |Flat(parts)|
  {
    if p.disk >= |parts| then |Flat(parts)|
    else
      BaseNext(parts, p.disk);
      Base(parts, p.disk) + Min(p.offset, |parts[p.disk]|)
  }

  lemma {:induction false} BaseNext(parts: Parts, disk: nat)
    requires disk < |parts|
    ensures Base(parts, disk + 1) == Base(parts, disk) + |parts[disk]| <= |Flat(parts)|
    ensures disk + 1 == |parts| ==> Base(parts, disk + 1) == |Flat(parts)|
    ensures Flat(parts)[Base(parts, disk)..Base(parts, disk + 1)] == parts[disk]
    decreases |parts|
  {
    if disk == 0 {
      if |parts| == 1 {
        assert Flat(parts[1..]) == [];
      }
      assert Base(parts[1..], 0) == 0;
    } else {
      BaseNext(parts[1..], disk - 1);
      var a, f := parts[0], Flat(parts[1..]);
      var i, j := Base(parts[1..], disk - 1), Base(parts[1..], disk);
      assert (a + f)[|a| + i..|a| + j] == f[i..j];
    }
  }

  /** The position a reader that comes from the left stops at: at a boundary, the start of the first part there. */
  function Locate(parts: Parts, x: nat): Position
    requires x <= |Flat(parts)|
    decreases |parts|
  {
    if x == 0 then At(0, 0)
    else if x < |parts[0]| then At(0, x)
    else
      var p := Locate(parts[1..], x - |parts[0]|);
      At(p.disk + 1, p.offset)
  }

  /** Moving forward: nothing happens for no bytes, and past the end it fails. */
  function Advance(parts: Parts, p: Position, n: nat): Option<Position> {
    if n == 0 then Some(p)
    else if FlatOffset(parts, p) + n <= |Flat(parts)| then Some(Locate(parts, FlatOffset(parts, p) + n))
    else None
  }

  lemma {:induction false} LocateIsThere(parts: Parts, x: nat)
    requires x <= |Flat(parts)|
    ensures FlatOffset(parts, Locate(parts, x)) == x
    decreases |parts|
  {
    var p := Locate(parts, x);
    if x == 0 {
    } else if x < |parts[0]| {
    } else {
      var q := Locate(parts[1..], x - |parts[0]|);
      LocateIsThere(parts[1..], x - |parts[0]|);
    }
  }

  /** Advancing twice is advancing once, and fails exactly when it would. */
  lemma AdvanceAdds(parts: Parts, p: Position, a: nat, b: nat)
    ensures Advance(parts, p, a + b) ==
            var q := Advance(parts, p, a); if q.Some? then Advance(parts, q.value, b) else None
  {
    if a > 0 && FlatOffset(parts, p) + a <= |Flat(parts)| {
      LocateIsThere(parts, FlatOffset(parts, p) + a);
    }
  }

  /** A position strictly inside part `disk`, or at the start of it coming from the left. */
  lemma {:induction false} LocateIn(parts: Parts, disk: nat, offset: nat)
    requires disk < |parts| && 0 < offset <= |parts[disk]|
    ensures Base(parts, disk) + offset <= |Flat(parts)|
    ensures Locate(parts, Base(parts, disk) + offset) ==
            if offset < |parts[disk]| then At(disk, offset) else At(disk + 1, 0)
    decreases |parts|
  {
    BaseNext(parts, disk);
    if disk == 0 {
      assert Base(parts, 0) == 0;
    } else {
      LocateIn(parts[1..], disk - 1, offset);
    }
  }

  /** `_advance_position` */
  method AdvancePosition(parts: Parts, start: Position, nbytes: nat) returns (r: Option<Position>)
    ensures r == Advance(parts, start, nbytes)
  {
    hide Flat, Locate, Base;
    var remaining: nat, disk: nat, offset: nat := nbytes, start.disk, start.offset;
    while remaining > 0
      invariant remaining > 0 ==>
                  FlatOffset(parts, At(disk, offset)) + remaining == FlatOffset(parts, start) + nbytes
      invariant remaining == 0 ==> Advance(parts, start, nbytes) == Some(At(disk, offset))
      decreases remaining, |parts| - disk
    {
      if disk >= |parts| {
        return None;
      }
      BaseNext(parts, disk);
      NextStart(parts, disk);
      var available := |parts[disk]| - offset;
      if remaining < available {
        LocateIn(parts, disk, offset + remaining);
        return Some(At(disk, offset + remaining));
      }
      if remaining == available {
        LocateIn(parts, disk, offset + remaining);
      }
      remaining := remaining - Max(available, 0);
      disk, offset := disk + 1, 0;
    }
    return Some(At(disk, offset));
  }

  /** The end of a part is the start of the next. */
  lemma NextStart(parts: Parts, disk: nat)
    requires disk < |parts|
    ensures FlatOffset(parts, At(disk + 1, 0)) == Base(parts, disk) + |parts[disk]|
  {
    BaseNext(parts, disk);
  }

  // ---------------------------------------------------------------- reading

  /** All the bytes of a request are there. */
  predicate Available(parts: Parts, p: Position, n: nat) { n == 0 || FlatOffset(parts, p) + n <= |Flat(parts)| }

  /** What a request for `n` bytes reads before it ends or fails: a slice of the concatenation. */
  function Slice(parts: Parts, p: Position, n: nat): seq<Byte> {
    var f := Flat(parts)[FlatOffset(parts, p)..];
    if n <= |f| then f[..n] else f
  }

  /** The inner loop of `_iter_part_bytes`: reading one part from `offset`, until it ends or the request is served. */
  method ReadPart(part: seq<Byte>, offset: nat, wanted: nat, chunkSize: nat)
    returns (chunks: seq<seq<Byte>>, remaining: nat)
    requires chunkSize > 0
    ensures var at := Min(offset, |part|);
            remaining == Max(wanted - (|part| - at), 0) && Flat(chunks) == part[at..at + (wanted - remaining)]
    ensures forall i :: 0 <= i < |chunks| ==> 0 < |chunks[i]| <= chunkSize
  {
    hide Flat;
    FlatNothing<Byte>();
    chunks, remaining := [], wanted;
    ghost var first := Min(offset, |part|);
    var at := offset;
    while remaining > 0
      invariant remaining <= wanted && first + (wanted - remaining) <= |part|
      invariant Min(at, |part|) == first + (wanted - remaining)
      invariant Flat(chunks) == part[first..first + (wanted - remaining)]
      invariant forall i :: 0 <= i < |chunks| ==> 0 < |chunks[i]| <= chunkSize
    {
      var toRead := Min(chunkSize, remaining);
      if at >= |part| {
        break;
      }
      var chunk := part[at..Min(at + toRead, |part|)];
      FlatSnoc(chunks, chunk);
      SliceJoin(part, first, at, at + |chunk|);
      remaining := remaining - |chunk|;
      at := at + |chunk|;
      chunks := chunks + [chunk];
    }
  }

  lemma SliceJoin<T>(s: seq<T>, i: nat, j: nat, k: nat)
    requires i <= j <= k <= |s|
    ensures s[i..j] + s[j..k] == s[i..k]
  {
  }

  /** `_iter_part_bytes`: the chunks in the order in which they are given out, and whether the request was served. */
  method IterPartBytes(parts: Parts, start: Position, nbytes: nat, chunkSize: nat)
    returns (chunks: seq<seq<Byte>>, served: bool)
    requires chunkSize > 0
    ensures served <==> Available(parts, start, nbytes)
    ensures Flat(chunks) == Slice(parts, start, nbytes)
    ensures forall i :: 0 <= i < |chunks| ==> 0 < |chunks[i]| <= chunkSize
  {
    hide Flat, Base;
    chunks := [];
    var remaining: nat, disk: nat, offset: nat := nbytes, start.disk, start.offset;
    ghost var x, f := FlatOffset(parts, start), Flat(parts);
    FlatNothing<Byte>();
    while remaining > 0
      invariant remaining <= nbytes && x + (nbytes - remaining) <= |f|
      invariant remaining > 0 ==> FlatOffset(parts, At(disk, offset)) == x + (nbytes - remaining)
      invariant Flat(chunks) == f[x..x + (nbytes - remaining)]
      invariant forall i :: 0 <= i < |chunks| ==> 0 < |chunks[i]| <= chunkSize
      decreases remaining, |parts| - disk
    {
      if disk >= |parts| {
        return chunks, false;
      }
      BaseNext(parts, disk);
      NextStart(parts, disk);
      var more, left := ReadPart(parts[disk], offset, remaining, chunkSize);
      ghost var y := x + (nbytes - remaining);
      PartSlice(f, Base(parts, disk), parts[disk], Min(offset, |parts[disk]|), remaining - left);
      SliceJoin(f, x, y, y + (remaining - left));
      FlatSum(chunks, more);
      chunks := chunks + more;
      remaining, disk, offset := left, disk + 1, 0;
    }
    return chunks, true;
  }

  lemma PartSlice(f: seq<Byte>, base: nat, part: seq<Byte>, at: nat, n: nat)
    requires base + |part| <= |f| && f[base..base + |part|] == part && at + n <= |part|
    ensures f[base + at..base + at + n] == part[at..at + n]
  {
    assert forall k :: 0 <= k < |part| ==> part[k] == f[base..base + |part|][k] == f[base + k];
  }

  /** `_read_from_parts`, in one-megabyte chunks. */
  method ReadFromParts(parts: Parts, p: Position, n: nat) returns (r: Option<seq<Byte>>)
    ensures r == if Available(parts, p, n) then Some(Slice(parts, p, n)) else None
    ensures r.Some? ==> |r.value| == n
  {
    hide Flat, FlatOffset;
    var chunks, served := IterPartBytes(parts, p, n, 1048576);
    return if served then Some(Flat(chunks)) else None;
  }

  /** Reading after an advance is reading further on. */
  lemma SliceAfter(parts: Parts, p: Position, a: nat, n: nat)
    requires Advance(parts, p, a).Some?
    ensures var q := Advance(parts, p, a).value;
            (Available(parts, p, a + n) <==> Available(parts, q, n) || a + n == 0)
            && (a > 0 || n > 0 ==> Slice(parts, p, a + n)[|Slice(parts, p, a)|..] == Slice(parts, q, n))
  {
    hide Flat, FlatOffset, Locate;
    if a > 0 {
      LocateIsThere(parts, FlatOffset(parts, p) + a);
    }
  }
}
