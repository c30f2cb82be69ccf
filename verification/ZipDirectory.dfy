/** The central directory of a ZIP archive (APPNOTE.TXT sections 4.3.12, 4.3.16 and 4.5.3), as
scripts/extract_videoespresso_split_zip_subset.py reads it. File names are kept as bytes, and
refused where they are not UTF-8. */
module ZipDirectory {
  import opened Py
  import opened Bytes

  const EOCD_SIG: seq<Byte> := [0x50, 0x4B, 0x05, 0x06]
  const CENTRAL_SIG: nat := 0x02014B50
  const ZIP64_EXTRA_ID: nat := 1
  const NONE32: nat := 0xFFFFFFFF
  const NONE16: nat := 0xFFFF

  /** `data[:n]` and `data[n:]`, which may be short. */
  function Head(data: seq<Byte>, n: nat): seq<Byte> { data[..Min(n, |data|)] }

  function Drop(data: seq<Byte>, n: nat): seq<Byte> { data[Min(n, |data|)..] }

  // ---------------------------------------------------------------- the ZIP64 extra field

  function Nones(n: nat): (r: seq<Option<nat>>)
    ensures |r| == n && forall i :: 0 <= i < n ==> r[i].None?
  {
    seq(n, _ => None)
  }

  function FieldWidth(index: nat): nat { if index < 3 then 8 else 4 }

  /** The needed fields from the front of the data, until one is cut off. */
  function ReadFields(data: seq<Byte>, needed: seq<bool>, index: nat): (r: seq<Option<nat>>)
    requires index <= |needed|
    ensures |r| == |needed| - index
    decreases |needed| - index
  {
    if index == |needed| then []
    else if !needed[index] then [None] + ReadFields(data, needed, index + 1)
    else if |data| < FieldWidth(index) then Nones(|needed| - index)
    else [Some(Le(data[..FieldWidth(index)]))] + ReadFields(data[FieldWidth(index)..], needed, index + 1)
  }

  /** The values of the first ZIP64 block among the blocks of an extra field. */
  function Zip64Values(extra: seq<Byte>, needed: seq<bool>): (r: seq<Option<nat>>)
    ensures |r| == |needed|
    decreases |extra|
  {
    if |extra| < 4 then Nones(|needed|)
    else
      var size := Le(extra[2..4]);
      if Le(extra[..2]) == ZIP64_EXTRA_ID then ReadFields(Head(extra[4..], size), needed, 0)
      else Zip64Values(Drop(extra[4..], size), needed)
  }

  /** One turn of the loop over the needed fields. */
  lemma OneField(data: seq<Byte>, needed: seq<bool>, index: nat)
    requires index < |needed|
    ensures ReadFields(data, needed, index) ==
            if !needed[index] then [None] + ReadFields(data, needed, index + 1)
            else if |data| < FieldWidth(index) then Nones(|needed| - index)
            else [Some(Le(data[..FieldWidth(index)]))] + ReadFields(data[FieldWidth(index)..], needed, index + 1)
  {
    hide Le, FieldWidth;
  }

  lemma FillOne(filled: seq<Option<nat>>, x: Option<nat>, left: nat, rest: seq<Option<nat>>)
    requires left > 0
    ensures filled + ([x] + rest) == (filled + [x]) + rest
    ensures (filled + Nones(left))[|filled| := x] == (filled + [x]) + Nones(left - 1)
    ensures filled + Nones(left) == (filled + [None]) + Nones(left - 1)
  {
  }

  lemma DropTake(data: seq<Byte>, pos: nat, w: nat)
    requires pos + w <= |data|
    ensures data[pos..][..w] == data[pos..pos + w] && data[pos..][w..] == data[pos + w..]
  {
  }

  lemma NothingToFill(filled: seq<Option<nat>>)
    ensures filled + Nones(0) == filled && filled + [] == filled && [] + filled == filled
  {
  }

  /** The loop over the needed fields in `_read_zip64_values`. */
  method FillFields(data: seq<Byte>, needed: seq<bool>) returns (out: seq<Option<nat>>)
    ensures out == ReadFields(data, needed, 0)
  {
    hide Le, ReadFields, FieldWidth, Nones;
    out := Nones(|needed|);
    var pos: nat := 0;
    ghost var filled: seq<Option<nat>>, rest := [], data;
    NothingToFill(out);
    NothingToFill(ReadFields(data, needed, 0));
    for index := 0 to |needed|
      invariant pos <= |data| && rest == data[pos..]
      invariant |filled| == index && out == filled + Nones(|needed| - index)
      invariant ReadFields(data, needed, 0) == filled + ReadFields(rest, needed, index)
    {
      OneField(rest, needed, index);
      ghost var left := |needed| - index;
      if !needed[index] {
        FillOne(filled, None, left, ReadFields(rest, needed, index + 1));
        filled := filled + [None];
        continue;
      }
      var width := FieldWidth(index);
      if pos + width > |data| {
        return;
      }
      var value := Some(Le(data[pos..pos + width]));
      DropTake(data, pos, width);
      FillOne(filled, value, left, ReadFields(rest[width..], needed, index + 1));
      out := out[index := value];
      filled, rest := filled + [value], rest[width..];
      pos := pos + width;
    }
    NoFields(rest, needed);
    NothingToFill(filled);
  }

  lemma NoFields(data: seq<Byte>, needed: seq<bool>)
    ensures ReadFields(data, needed, |needed|) == []
  {
  }

  /** `_read_zip64_values` */
  method ReadZip64Values(extra: seq<Byte>, needed: seq<bool>) returns (out: seq<Option<nat>>)
    ensures out == Zip64Values(extra, needed)
  {
    hide Le, ReadFields;
    var pos := 0;
    assert extra[0..] == extra;
    while pos + 4 <= |extra|
      invariant Zip64Values(extra, needed) == Zip64Values(Drop(extra, pos), needed)
    {
      ghost var rest := extra[pos..];
      var headerId, size := Le(extra[pos..pos + 2]), Le(extra[pos + 2..pos + 4]);
      assert rest[..2] == extra[pos..pos + 2] && rest[2..4] == extra[pos + 2..pos + 4] && rest[4..] == extra[pos + 4..];
      pos := pos + 4;
      var data := Head(extra[pos..], size);
      assert Drop(extra[pos..], size) == Drop(extra, pos + size);
      pos := pos + size;
      if headerId != ZIP64_EXTRA_ID {
        continue;
      }
      out := FillFields(data, needed);
      return;
    }
    out := Nones(|needed|);
  }

  /** A block of an extra field that is not the ZIP64 block. */
  datatype Block = Block(id: nat, data: seq<Byte>)

  ghost predicate IsOther(b: Block) { b.id < 0x10000 && b.id != ZIP64_EXTRA_ID && |b.data| < 0x10000 }

  function BlockBytes(id: nat, data: seq<Byte>): seq<Byte> { LeBytes(2, id) + LeBytes(2, |data|) + data }

  function BlocksBytes(blocks: seq<Block>): seq<Byte> {
    if blocks == [] then [] else BlockBytes(blocks[0].id, blocks[0].data) + BlocksBytes(blocks[1..])
  }

  /** The ZIP64 data: the values of the needed fields, in order. */
  function FieldBytes(values: seq<nat>, needed: seq<bool>, index: nat): seq<Byte>
    requires index <= |needed| == |values|
    decreases |needed| - index
  {
    if index == |needed| then []
    else if !needed[index] then FieldBytes(values, needed, index + 1)
    else LeBytes(FieldWidth(index), values[index]) + FieldBytes(values, needed, index + 1)
  }

  function Masked(values: seq<nat>, needed: seq<bool>): seq<Option<nat>>
    requires |needed| == |values|
  {
    seq(|needed|, i requires 0 <= i < |needed| => if needed[i] then Some(values[i]) else None)
  }

  lemma {:induction false} FieldsRoundTrip(values: seq<nat>, needed: seq<bool>, index: nat, junk: seq<Byte>)
    requires index <= |needed| == |values|
    requires forall i :: 0 <= i < |values| ==> values[i] < Pow256(FieldWidth(i))
    ensures ReadFields(FieldBytes(values, needed, index) + junk, needed, index) == Masked(values, needed)[index..]
    decreases |needed| - index
  {
    hide Le, LeBytes, Pow256, FieldWidth, ReadFields, Masked;
    var m := Masked(values, needed);
    MaskedAt(values, needed, index);
    var data := FieldBytes(values, needed, index) + junk;
    if index == |needed| {
      NoFields(data, needed);
    } else {
      OneField(data, needed, index);
      FieldsRoundTrip(values, needed, index + 1, junk);
      if needed[index] {
        var w := FieldWidth(index);
        LeRoundTrip(w, values[index]);
        assert data[..w] == LeBytes(w, values[index]);
        assert data[w..] == FieldBytes(values, needed, index + 1) + junk;
      }
    }
  }

  lemma MaskedAt(values: seq<nat>, needed: seq<bool>, index: nat)
    requires index <= |needed| == |values|
    ensures |Masked(values, needed)| == |needed|
    ensures var m := Masked(values, needed);
            m[index..] == if index == |needed| then []
                          else [if needed[index] then Some(values[index]) else None] + m[index + 1..]
  {
  }

  lemma BlockHead(id: nat, data: seq<Byte>, rest: seq<Byte>)
    requires id < 0x10000 && |data| < 0x10000
    ensures var b := BlockBytes(id, data) + rest;
            |b| >= 4 && Le(b[..2]) == id && Le(b[2..4]) == |data| && Head(b[4..], |data|) == data
            && Drop(b[4..], |data|) == rest
  {
    hide Le, LeBytes;
    var b := BlockBytes(id, data) + rest;
    assert Pow256(2) == 0x10000;
    LeRoundTrip(2, id);
    LeRoundTrip(2, |data|);
    assert b[..2] == LeBytes(2, id) && b[2..4] == LeBytes(2, |data|) && b[4..] == data + rest;
  }

  /** Other blocks in front of the ZIP64 block are skipped, and whatever follows it is not read. */
  lemma {:induction false} Zip64RoundTrip(others: seq<Block>, values: seq<nat>, needed: seq<bool>, junk: seq<Byte>)
    requires forall i :: 0 <= i < |others| ==> IsOther(others[i])
    requires |needed| == |values| && |FieldBytes(values, needed, 0)| < 0x10000
    requires forall i :: 0 <= i < |values| ==> values[i] < Pow256(FieldWidth(i))
    ensures Zip64Values(BlocksBytes(others) + (BlockBytes(ZIP64_EXTRA_ID, FieldBytes(values, needed, 0)) + junk),
                        needed) == Masked(values, needed)
    decreases |others|
  {
    hide Le, LeBytes, ReadFields, BlockBytes, Masked, FieldBytes, Pow256, FieldWidth;
    var data := FieldBytes(values, needed, 0);
    var last := BlockBytes(ZIP64_EXTRA_ID, data) + junk;
    if others == [] {
      assert BlocksBytes([]) + last == last;
      BlockHead(ZIP64_EXTRA_ID, data, junk);
      FieldsRoundTrip(values, needed, 0, []);
      assert data + [] == data;
      MaskedAll(values, needed);
    } else {
      var o, rest := others[0], BlocksBytes(others[1..]) + last;
      assert BlocksBytes(others) + last == BlockBytes(o.id, o.data) + rest;
      BlockHead(o.id, o.data, rest);
      Zip64RoundTrip(others[1..], values, needed, junk);
    }
  }

  /** With all four fields in it, the block holds three numbers of eight bytes and one of four (APPNOTE.TXT, section
  4.5.3). */
  lemma Zip64Layout(values: seq<nat>)
    requires |values| == 4
    ensures FieldBytes(values, [true, true, true, true], 0) ==
            LeBytes(8, values[0]) + (LeBytes(8, values[1]) + (LeBytes(8, values[2]) + LeBytes(4, values[3])))
  {
    hide LeBytes;
    var all := [true, true, true, true];
    assert FieldBytes(values, all, 4) == [];
    assert FieldBytes(values, all, 3) == LeBytes(4, values[3]) + [];
    assert FieldBytes(values, all, 2) == LeBytes(8, values[2]) + FieldBytes(values, all, 3);
    assert FieldBytes(values, all, 1) == LeBytes(8, values[1]) + FieldBytes(values, all, 2);
  }

  lemma MaskedAll(values: seq<nat>, needed: seq<bool>)
    requires |needed| == |values|
    ensures Masked(values, needed)[0..] == Masked(values, needed)
  {
  }

  // ---------------------------------------------------------------- central file headers

  datatype Entry = Entry(name: seq<Byte>, disk: nat, localHeaderOffset: nat, compressType: nat, compressSize: nat,
                         fileSize: nat, crc: nat)

  /** `<4s6H3L5H2L`: the signature, then fields of 16 and 32 bits. */
  function CentralFormat(): (r: seq<nat>)
    ensures |r| == 17 && Width(r) == 46
    ensures forall i :: 0 <= i < 17 ==> r[i] == if i == 0 || 7 <= i < 10 || 15 <= i then 4 else 2
  {
    FieldsAre(1, 4);
    FieldsAre(6, 2);
    FieldsAre(3, 4);
    FieldsAre(5, 2);
    FieldsAre(2, 4);
    WidthSum(Fields(1, 4), Fields(6, 2));
    WidthSum(Fields(1, 4) + Fields(6, 2), Fields(3, 4));
    WidthSum(Fields(1, 4) + Fields(6, 2) + Fields(3, 4), Fields(5, 2));
    WidthSum(Fields(1, 4) + Fields(6, 2) + Fields(3, 4) + Fields(5, 2), Fields(2, 4));
    Fields(1, 4) + Fields(6, 2) + Fields(3, 4) + Fields(5, 2) + Fields(2, 4)
  }

  /** Which of file size, compressed size, header offset and disk number are to be found in the ZIP64 block. */
  function Needed(v: seq<nat>): (r: seq<bool>)
    requires |v| == 17
    ensures |r| == 4
  {
    [v[9] == NONE32, v[8] == NONE32, v[16] == NONE32, v[13] == NONE16]
  }

  function Or(z: Option<nat>, v: nat): nat { if z.Some? then z.value else v }

  function EntryFrom(v: seq<nat>, name: seq<Byte>, extra: seq<Byte>): Entry
    requires |v| == 17
  {
    var z := Zip64Values(extra, Needed(v));
    Entry(name, Or(z[3], v[13]), Or(z[2], v[16]), v[4], Or(z[1], v[8]), Or(z[0], v[9]), v[7])
  }

  /** One entry from the front of the data, and what follows it. */
  function ReadEntry(data: seq<Byte>): Option<(Entry, seq<Byte>)> {
    if |data| < 46 then None
    else
      var v := Unpack(CentralFormat(), data[..46]);
      if v[0] != CENTRAL_SIG then None
      else
        var afterHeader := data[46..];
        var afterName := Drop(afterHeader, v[10]);
        var afterExtra := Drop(afterName, v[11]);
        var name := Head(afterHeader, v[10]);
        if !IsUtf8(name) then None else Some((EntryFrom(v, name, Head(afterName, v[11])), Drop(afterExtra, v[12])))
  }

  lemma CentralWidths(format: seq<nat>)
    requires |format| == 17
    requires forall i :: 0 <= i < 17 ==> format[i] == if i == 0 || 7 <= i < 10 || 15 <= i then 4 else 2
    ensures Width(format[..0]) == 0 && Width(format[..4]) == 10 && Width(format[..7]) == 16 && Width(format[..8]) == 20
    ensures Width(format[..9]) == 24 && Width(format[..10]) == 28 && Width(format[..11]) == 30
    ensures Width(format[..12]) == 32 && Width(format[..13]) == 34 && Width(format[..16]) == 42
  {
    hide Width;
    NoWidth(format);
    WidthStep(format, 0);
    WidthStep(format, 1);
    WidthStep(format, 2);
    WidthStep(format, 3);
    WidthStep(format, 4);
    WidthStep(format, 5);
    WidthStep(format, 6);
    WidthStep(format, 7);
    WidthStep(format, 8);
    WidthStep(format, 9);
    WidthStep(format, 10);
    WidthStep(format, 11);
    WidthStep(format, 12);
    WidthStep(format, 13);
    WidthStep(format, 14);
    WidthStep(format, 15);
  }

  /** The fields of a header that are read, where they stand. */
  lemma CentralFields(h: seq<Byte>)
    requires |h| == 46
    ensures var v := Unpack(CentralFormat(), h);
            && v[0] == Le(h[0..4]) && v[4] == Le(h[10..12]) && v[7] == Le(h[16..20]) && v[8] == Le(h[20..24])
            && v[9] == Le(h[24..28]) && v[10] == Le(h[28..30]) && v[11] == Le(h[30..32]) && v[12] == Le(h[32..34])
            && v[13] == Le(h[34..36]) && v[16] == Le(h[42..46])
  {
    hide Le, Unpack, CentralFormat, Width;
    var f := CentralFormat();
    CentralWidths(f);
    UnpackAt(f, h, 0);
    UnpackAt(f, h, 4);
    UnpackAt(f, h, 7);
    UnpackAt(f, h, 8);
    UnpackAt(f, h, 9);
    UnpackAt(f, h, 10);
    UnpackAt(f, h, 11);
    UnpackAt(f, h, 12);
    UnpackAt(f, h, 13);
    UnpackAt(f, h, 16);
  }

  /** An entry is read exactly if its header is there, begins with the signature and is followed by a name that is
  UTF-8; its fields are those of the header (APPNOTE.TXT, section 4.3.12), but for the ones that are all ones there and
  stand in the ZIP64 block; the next entry begins behind name, extra field and comment. */
  lemma EntryExactly(data: seq<Byte>)
    ensures ReadEntry(data) ==
            if |data| < 46 || Le(data[0..4]) != 0x02014B50 then None
            else
              var (body, n, m, k) := (data[46..], Le(data[28..30]), Le(data[30..32]), Le(data[32..34]));
              var (name, extra) := (Head(body, n), Head(Drop(body, n), m));
              var (size, packed, offset, disk) :=
                (Le(data[24..28]), Le(data[20..24]), Le(data[42..46]), Le(data[34..36]));
              var z := Zip64Values(extra, [size == 0xFFFFFFFF, packed == 0xFFFFFFFF, offset == 0xFFFFFFFF,
                                           disk == 0xFFFF]);
              if !IsUtf8(name) then None
              else Some((Entry(name, if z[3].Some? then z[3].value else disk,
                               if z[2].Some? then z[2].value else offset, Le(data[10..12]),
                               if z[1].Some? then z[1].value else packed,
                               if z[0].Some? then z[0].value else size, Le(data[16..20])),
                         Drop(Drop(Drop(body, n), m), k)))
  {
    hide Le, Unpack, CentralFormat, IsUtf8, Zip64Values, Head, Drop;
    if |data| >= 46 {
      var h := data[..46];
      CentralFields(h);
      assert h[0..4] == data[0..4] && h[10..12] == data[10..12] && h[16..20] == data[16..20];
      assert h[20..24] == data[20..24] && h[24..28] == data[24..28] && h[28..30] == data[28..30];
      assert h[30..32] == data[30..32] && h[32..34] == data[32..34] && h[34..36] == data[34..36];
      assert h[42..46] == data[42..46];
    }
  }

  /** The entries given out before the loop ends or fails, and whether it ended. */
  function Entries(data: seq<Byte>, n: nat): (seq<Entry>, bool) {
    if n == 0 then ([], true)
    else
      match ReadEntry(data)
      case None => ([], false)
      case Some((entry, rest)) =>
        var more := Entries(rest, n - 1);
        ([entry] + more.0, more.1)
  }

  type Flags = s: seq<bool> | |s| == 4 witness [false, false, false, false]

  /** What an archiver may write for an entry: any of the four ZIP64 fields moved to the extra field, any other blocks
  in front of the ZIP64 block, anything behind it, and any value in the fields that are not read. */
  datatype Record = Record(entry: Entry, moved: Flags, versions: (nat, nat), flags: nat, stamp: (nat, nat),
                           attributes: (nat, nat), others: seq<Block>, junk: seq<Byte>, comment: seq<Byte>)

  function FieldsOf(e: Entry): seq<nat> { [e.fileSize, e.compressSize, e.localHeaderOffset, e.disk] }

  function ExtraOf(r: Record): seq<Byte>
  {
    if r.moved == [false, false, false, false] then r.junk
    else BlocksBytes(r.others) + (BlockBytes(ZIP64_EXTRA_ID, FieldBytes(FieldsOf(r.entry), r.moved, 0)) + r.junk)
  }

  function HeaderValues(r: Record): (v: seq<nat>)
    ensures |v| == 17
  {
    var e := r.entry;
    [CENTRAL_SIG, r.versions.0, r.versions.1, r.flags, e.compressType, r.stamp.0, r.stamp.1, e.crc,
     if r.moved[1] then NONE32 else e.compressSize, if r.moved[0] then NONE32 else e.fileSize,
     |e.name|, |ExtraOf(r)|, |r.comment|, if r.moved[3] then NONE16 else e.disk,
     r.attributes.0, r.attributes.1, if r.moved[2] then NONE32 else e.localHeaderOffset]
  }

  function RecordBytes(r: Record): seq<Byte>
  {
    Pack(CentralFormat(), HeaderValues(r)) + (r.entry.name + (ExtraOf(r) + r.comment))
  }

  ghost predicate RecordOk(r: Record) {
    IsUtf8(r.entry.name) && |r.entry.name| < 0x10000 && |ExtraOf(r)| < 0x10000 && |r.comment| < 0x10000
    && r.versions.0 < 0x10000 && r.versions.1 < 0x10000 && r.flags < 0x10000 && r.entry.compressType < 0x10000
    && r.stamp.0 < 0x10000 && r.stamp.1 < 0x10000 && r.attributes.0 < 0x10000
    && r.entry.crc < 0x1_0000_0000 && r.attributes.1 < 0x1_0000_0000
    && (forall i :: 0 <= i < |r.others| ==> IsOther(r.others[i]))
    && (forall i :: 0 <= i < 3 ==> FieldsOf(r.entry)[i] < if r.moved[i] then 0x1_0000_0000_0000_0000 else NONE32)
    && r.entry.disk < if r.moved[3] then 0x1_0000_0000 else NONE16
  }

  lemma Powers()
    ensures Pow256(2) == 0x10000 && Pow256(4) == 0x1_0000_0000 && Pow256(8) == 0x1_0000_0000_0000_0000
  {
    assert Pow256(3) == 0x1_000000;
    assert Pow256(5) == 0x100_0000_0000;
    assert Pow256(6) == 0x1_0000_0000_0000;
    assert Pow256(7) == 0x100_0000_0000_0000;
  }

  lemma HeaderFits(r: Record)
    requires RecordOk(r)
    ensures Fits(CentralFormat(), HeaderValues(r))
  {
    hide Pow256, CentralFormat, ExtraOf, IsUtf8;
    Powers();
    var v := HeaderValues(r);
    assert forall i :: 0 <= i < 17 && (i == 0 || 7 <= i < 10 || 15 <= i) ==> v[i] < 0x1_0000_0000;
    assert forall i :: 0 <= i < 17 && !(i == 0 || 7 <= i < 10 || 15 <= i) ==> v[i] < 0x10000;
  }

  lemma {:induction false} NoneNeeded(extra: seq<Byte>, needed: seq<bool>)
    requires forall i :: 0 <= i < |needed| ==> !needed[i]
    ensures Zip64Values(extra, needed) == Nones(|needed|)
    decreases |extra|
  {
    hide Le;
    if |extra| >= 4 {
      var size := Le(extra[2..4]);
      if Le(extra[..2]) == ZIP64_EXTRA_ID {
        NoneRead(Head(extra[4..], size), needed, 0);
      } else {
        NoneNeeded(Drop(extra[4..], size), needed);
      }
    }
  }

  lemma {:induction false} NoneRead(data: seq<Byte>, needed: seq<bool>, index: nat)
    requires index <= |needed| && forall i :: 0 <= i < |needed| ==> !needed[i]
    ensures ReadFields(data, needed, index) == Nones(|needed| - index)
    decreases |needed| - index
  {
    hide Le;
    if index < |needed| {
      NoneRead(data, needed, index + 1);
      assert Nones(|needed| - index) == [None] + Nones(|needed| - index - 1);
    }
  }

  /** The fields of an entry come back, wherever they were put. */
  lemma FieldsComeBack(r: Record)
    requires RecordOk(r)
    ensures Needed(HeaderValues(r)) == r.moved
    ensures EntryFrom(HeaderValues(r), r.entry.name, ExtraOf(r)) == r.entry
  {
    hide Pow256, BlocksBytes, BlockBytes, FieldBytes, Zip64Values, IsOther, IsUtf8;
    Powers();
    var v, f := HeaderValues(r), FieldsOf(r.entry);
    assert Needed(v) == r.moved;
    var z := Zip64Values(ExtraOf(r), r.moved);
    if r.moved == [false, false, false, false] {
      NoneNeeded(r.junk, r.moved);
    } else {
      BlockFits(r);
      Zip64RoundTrip(r.others, f, r.moved, r.junk);
      assert z == Masked(f, r.moved);
    }
    assert forall i :: 0 <= i < 4 ==> z[i] == if r.moved[i] then Some(f[i]) else None;
  }

  lemma BlockFits(r: Record)
    requires RecordOk(r) && r.moved != [false, false, false, false]
    ensures |FieldBytes(FieldsOf(r.entry), r.moved, 0)| < 0x10000
  {
    hide FieldBytes, BlocksBytes;
    assert |ExtraOf(r)| >= |FieldBytes(FieldsOf(r.entry), r.moved, 0)|;
  }

  lemma EntryRead(header: seq<Byte>, v: seq<nat>, name: seq<Byte>, extra: seq<Byte>, comment: seq<Byte>,
                  rest: seq<Byte>)
    requires |header| == 46 && Unpack(CentralFormat(), header) == v && |v| == 17 && v[0] == CENTRAL_SIG
    requires v[10] == |name| && v[11] == |extra| && v[12] == |comment| && IsUtf8(name)
    ensures ReadEntry(header + (name + (extra + (comment + rest)))) == Some((EntryFrom(v, name, extra), rest))
  {
    hide Unpack, CentralFormat, EntryFrom, Head, Drop, IsUtf8;
    var data := header + (name + (extra + (comment + rest)));
    assert data[..46] == header && data[46..] == name + (extra + (comment + rest));
    HeadDrop(name, extra + (comment + rest));
    HeadDrop(extra, comment + rest);
    HeadDrop(comment, rest);
  }

  lemma NameOk(r: Record)
    requires RecordOk(r)
    ensures IsUtf8(r.entry.name)
  {
  }

  lemma LengthsIn(r: Record)
    ensures var v := HeaderValues(r);
            v[0] == CENTRAL_SIG && v[10] == |r.entry.name| && v[11] == |ExtraOf(r)| && v[12] == |r.comment|
  {
    hide ExtraOf;
  }

  /** Reading an encoded entry gives it back and stops right behind it. */
  lemma RecordRoundTrip(r: Record, rest: seq<Byte>)
    requires RecordOk(r)
    ensures ReadEntry(RecordBytes(r) + rest) == Some((r.entry, rest))
  {
    hide Unpack, Pack, CentralFormat, ExtraOf, EntryFrom, RecordOk, ReadEntry;
    HeaderFits(r);
    var v := HeaderValues(r);
    var header := Pack(CentralFormat(), v);
    LengthsIn(r);
    PackRoundTrip(CentralFormat(), v);
    FieldsComeBack(r);
    NameOk(r);
    EntryRead(header, v, r.entry.name, ExtraOf(r), r.comment, rest);
    assert RecordBytes(r) + rest == header + (r.entry.name + (ExtraOf(r) + (r.comment + rest)));
  }

  lemma HeadDrop(a: seq<Byte>, b: seq<Byte>)
    ensures Head(a + b, |a|) == a && Drop(a + b, |a|) == b
  {
  }

  function DirectoryBytes(records: seq<Record>): seq<Byte>
  {
    if records == [] then [] else RecordBytes(records[0]) + DirectoryBytes(records[1..])
  }

  function EntriesOf(records: seq<Record>): seq<Entry> {
    if records == [] then [] else [records[0].entry] + EntriesOf(records[1..])
  }

  /** Central-directory round trip: reading the encoding of any list of entries gives exactly these entries. */
  lemma {:induction false} DirectoryRoundTrip(records: seq<Record>, rest: seq<Byte>)
    requires forall i :: 0 <= i < |records| ==> RecordOk(records[i])
    ensures Entries(DirectoryBytes(records) + rest, |records|) == (EntriesOf(records), true)
    decreases |records|
  {
    hide ReadEntry, RecordBytes, RecordOk;
    if records != [] {
      var more := DirectoryBytes(records[1..]) + rest;
      assert DirectoryBytes(records) + rest == RecordBytes(records[0]) + more;
      RecordRoundTrip(records[0], more);
      DirectoryRoundTrip(records[1..], rest);
    }
  }

  // ---------------------------------------------------------------- the end of the central directory

  /** `<4s4H2LH` */
  function EocdFormat(): (r: seq<nat>)
    ensures |r| == 8 && Width(r) == 22
    ensures forall i :: 0 <= i < 8 ==> r[i] == if i == 0 || i == 5 || i == 6 then 4 else 2
  {
    FieldsAre(1, 4);
    FieldsAre(4, 2);
    FieldsAre(2, 4);
    FieldsAre(1, 2);
    WidthSum(Fields(1, 4), Fields(4, 2));
    WidthSum(Fields(1, 4) + Fields(4, 2), Fields(2, 4));
    WidthSum(Fields(1, 4) + Fields(4, 2) + Fields(2, 4), Fields(1, 2));
    Fields(1, 4) + Fields(4, 2) + Fields(2, 4) + Fields(1, 2)
  }

  predicate SigAt(s: seq<Byte>, i: nat) { i + 4 <= |s| && s[i..i + 4] == EOCD_SIG }

  /** `s.rfind(EOCD_SIG)`, looking no further than index `limit - 1`. */
  function LastSig(s: seq<Byte>, limit: nat): (r: Option<nat>)
    ensures r.Some? ==> r.value < limit && SigAt(s, r.value) && forall i :: r.value < i < limit ==> !SigAt(s, i)
    ensures r.None? ==> forall i :: 0 <= i < limit ==> !SigAt(s, i)
  {
    if limit == 0 then None else if SigAt(s, limit - 1) then Some(limit - 1) else LastSig(s, limit - 1)
  }

  datatype Eocd = Eocd(finalDisk: nat, centralDisk: nat, total: nat, centralSize: nat, centralOffset: nat)

  const MAX_EOCD: nat := 65557

  /** The end record at `pos`, if the entries are all on one disk. */
  function EndRecord(s: seq<Byte>, pos: nat): Option<Eocd> {
    if pos + 22 > |s| then None
    else
      var v := Unpack(EocdFormat(), s[pos..pos + 22]);
      if v[3] != v[4] then None else Some(Eocd(v[1], v[2], v[4], v[5], v[6]))
  }

  lemma EndWidths(format: seq<nat>)
    requires |format| == 8
    requires forall i :: 0 <= i < 8 ==> format[i] == if i == 0 || i == 5 || i == 6 then 4 else 2
    ensures Width(format[..1]) == 4 && Width(format[..2]) == 6 && Width(format[..3]) == 8 && Width(format[..4]) == 10
    ensures Width(format[..5]) == 12 && Width(format[..6]) == 16
  {
    hide Width;
    NoWidth(format);
    WidthStep(format, 0);
    WidthStep(format, 1);
    WidthStep(format, 2);
    WidthStep(format, 3);
    WidthStep(format, 4);
    WidthStep(format, 5);
  }

  /** An end record is read exactly if all of it is there and it counts as many entries on its disk as in all; its
  fields stand where section 4.3.16 of APPNOTE.TXT has them. */
  lemma EndExactly(s: seq<Byte>, pos: nat)
    ensures EndRecord(s, pos) ==
            if pos + 22 > |s| then None
            else
              var r := s[pos..pos + 22];
              if Le(r[8..10]) != Le(r[10..12]) then None
              else Some(Eocd(Le(r[4..6]), Le(r[6..8]), Le(r[10..12]), Le(r[12..16]), Le(r[16..20])))
  {
    hide Le, Unpack, EocdFormat, Width;
    if pos + 22 <= |s| {
      var r, f := s[pos..pos + 22], EocdFormat();
      EndWidths(f);
      UnpackAt(f, r, 1);
      UnpackAt(f, r, 2);
      UnpackAt(f, r, 3);
      UnpackAt(f, r, 4);
      UnpackAt(f, r, 5);
      UnpackAt(f, r, 6);
    }
  }

  /** `_find_eocd`: the last end record among the last bytes of the final part. */
  function FindEocd(file: seq<Byte>): Option<Eocd> {
    var tail := file[Max(0, |file| - MAX_EOCD)..];
    match LastSig(tail, |tail|)
    case None => None
    case Some(pos) => EndRecord(tail, pos)
  }

  /** The signature of an end record stands at a position of the file. */
  ghost predicate Signed(file: seq<Byte>, i: int) {
    0 <= i && i + 4 <= |file| && file[i] == 0x50 && file[i + 1] == 0x4B && file[i + 2] == 0x05 && file[i + 3] == 0x06
  }

  lemma SignedTail(file: seq<Byte>, m: nat, i: nat)
    requires m <= |file|
    ensures SigAt(file[m..], i) <==> Signed(file, m + i)
  {
    var tail := file[m..];
    if i + 4 <= |tail| {
      assert tail[i..i + 4] == [tail[i], tail[i + 1], tail[i + 2], tail[i + 3]];
    }
  }

  /** The last signature among the last 65557 bytes decides: there is an end record exactly if one can be read there. */
  lemma FindsLast(file: seq<Byte>, e: Eocd)
    ensures FindEocd(file) == Some(e) <==>
            exists i: nat :: Signed(file, i) && |file| - i <= 65557 && (forall k :: k > i ==> !Signed(file, k))
                             && EndRecord(file, i) == Some(e)
  {
    hide EndRecord;
    var m := Max(0, |file| - MAX_EOCD);
    var tail := file[m..];
    forall i: nat ensures SigAt(tail, i) <==> Signed(file, m + i) {
      SignedTail(file, m, i);
    }
    var last := LastSig(tail, |tail|);
    if last.Some? {
      var i := m + last.value;
      forall k | k > i ensures !Signed(file, k) {
        assert SigAt(tail, k - m) <==> Signed(file, m + (k - m));
      }
      SameRecord(file, m, last.value);
      assert Signed(file, i) && |file| - i <= 65557;
    }
    forall i: nat | Signed(file, i) && |file| - i <= 65557 && forall k :: k > i ==> !Signed(file, k)
      ensures last == Some(i - m)
    {
      assert SigAt(tail, i - m) <==> Signed(file, m + (i - m));
    }
  }

  lemma SameRecord(file: seq<Byte>, m: nat, pos: nat)
    requires m + pos <= |file|
    ensures EndRecord(file[m..], pos) == EndRecord(file, m + pos)
  {
    if pos + 22 <= |file| - m {
      assert file[m..][pos..pos + 22] == file[m + pos..m + pos + 22];
    }
  }

  /** `_iter_central_entries`, as a function of the final part. */
  function Directory(file: seq<Byte>): (seq<Entry>, bool) {
    match FindEocd(file)
    case None => ([], false)
    case Some(e) => Entries(Drop(file, e.centralOffset), e.total)
  }

  /** Reading one header and what belongs to it, from `pos` on. */
  method ReadHeader(file: seq<Byte>, pos: nat) returns (entry: Option<Entry>, next: nat)
    ensures ReadEntry(Drop(file, pos)) == if entry.Some? then Some((entry.value, Drop(file, next))) else None
  {
    hide Unpack, CentralFormat, Zip64Values, Drop, IsUtf8;
    next := pos;
    var rest := Drop(file, pos);
    var header := Head(rest, 46);
    HeadOrAll(rest);
    if |header| != 46 {
      return None, next;
    }
    var v := Unpack(CentralFormat(), header);
    if v[0] != CENTRAL_SIG {
      return None, next;
    }
    DropDrop(file, pos, 46);
    DropDrop(file, pos + 46, v[10]);
    DropDrop(file, pos + 46 + v[10], v[11]);
    DropDrop(file, pos + 46 + v[10] + v[11], v[12]);
    next := next + 46;
    var name := Head(Drop(file, next), v[10]);
    if !IsUtf8(name) {
      return None, next;
    }
    next := next + v[10];
    var extra := Head(Drop(file, next), v[11]);
    next := next + v[11];
    next := next + v[12];
    var z := ReadZip64Values(extra, Needed(v));
    entry := Some(Entry(name, Or(z[3], v[13]), Or(z[2], v[16]), v[4], Or(z[1], v[8]), Or(z[0], v[9]), v[7]));
  }

  lemma HeadOrAll(data: seq<Byte>)
    ensures |data| >= 46 ==> Head(data, 46) == data[..46] && Drop(data, 46) == data[46..]
    ensures |Head(data, 46)| == 46 <==> |data| >= 46
  {
  }

  /** `_iter_central_entries`: the entries given out, and whether the loop ended without an error. */
  method IterCentralEntries(file: seq<Byte>) returns (entries: seq<Entry>, ok: bool)
    ensures (entries, ok) == Directory(file)
  {
    hide FindEocd, ReadEntry, Drop;
    entries := [];
    var eocd := FindEocd(file);
    if eocd.None? {
      return [], false;
    }
    var pos := eocd.value.centralOffset;
    var total := eocd.value.total;
    ghost var goal := Entries(Drop(file, pos), total);
    NothingRead(goal);
    for i := 0 to total
      invariant goal == (entries + Entries(Drop(file, pos), total - i).0, Entries(Drop(file, pos), total - i).1)
    {
      NothingRead((entries, false));
      var entry, next := ReadHeader(file, pos);
      if entry.None? {
        return entries, false;
      }
      Snoc(entries, entry.value, Entries(Drop(file, next), total - i - 1).0);
      pos := next;
      entries := entries + [entry.value];
    }
    NothingRead((entries, true));
    return entries, true;
  }

  lemma NothingRead(r: (seq<Entry>, bool))
    ensures ([] + r.0, r.1) == r && r.0 + [] == r.0
  {
    assert [] + r.0 == r.0;
  }

  lemma Snoc<T>(a: seq<T>, x: T, b: seq<T>)
    ensures a + ([x] + b) == (a + [x]) + b
  {
  }

  lemma DropDrop(s: seq<Byte>, a: nat, b: nat)
    ensures Drop(Drop(s, a), b) == Drop(s, a + b)
  {
  }

  /** The end record of an archive, up to its comment of `n` bytes, and all of it. */
  function EocdHead(e: Eocd, n: nat): seq<Byte> {
    Pack(EocdFormat(),
         [EOCD_SIG_NUMBER, e.finalDisk, e.centralDisk, e.total, e.total, e.centralSize, e.centralOffset, n])
  }

  function EocdBytes(e: Eocd, comment: seq<Byte>): seq<Byte> { EocdHead(e, |comment|) + comment }

  const EOCD_SIG_NUMBER: nat := 0x06054B50

  ghost predicate EocdOk(e: Eocd, comment: seq<Byte>) {
    e.total < 0x10000 && e.centralOffset < 0x1_0000_0000 && e.finalDisk < 0x10000 && e.centralDisk < 0x10000
    && e.centralSize < 0x1_0000_0000 && |comment| < 0x10000
  }

  /** What is found in an end record: at the last signature in it, which may be in its comment. */
  function FoundIn(e: Eocd, comment: seq<Byte>): Option<Eocd> {
    var b := EocdBytes(e, comment);
    var pos := LastSig(b, |b|);
    if pos.None? then None else EndRecord(b, pos.value)
  }

  /** The whole archive directory: of any final part that ends with an end record the record is found exactly when the
  last signature in it starts a record that reads the same, in particular when the signature does not come up again.
  Then the entries come back. */
  lemma ArchiveRoundTrip(before: seq<Byte>, records: seq<Record>, between: seq<Byte>, e: Eocd, comment: seq<Byte>)
    requires forall i :: 0 <= i < |records| ==> RecordOk(records[i])
    requires e.total == |records| && e.centralOffset == |before| && EocdOk(e, comment)
    ensures var file := before + (DirectoryBytes(records) + (between + EocdBytes(e, comment)));
            (FindEocd(file) == Some(e) <==> FoundIn(e, comment) == Some(e))
            && (FindEocd(file) == Some(e) ==> Directory(file) == (EntriesOf(records), true))
    ensures (forall i :: 0 < i < |EocdBytes(e, comment)| ==> !SigAt(EocdBytes(e, comment), i)) ==>
              FoundIn(e, comment) == Some(e)
  {
    hide FindEocd, Entries, EntriesOf, DirectoryBytes, EocdBytes, RecordOk, FoundIn, SigAt;
    var end := EocdBytes(e, comment);
    var file := before + (DirectoryBytes(records) + (between + end));
    assert file == (before + DirectoryBytes(records) + between) + end;
    EocdFound(before + DirectoryBytes(records) + between, e, comment);
    DirectoryRoundTrip(records, between + end);
    HeadDrop(before, DirectoryBytes(records) + (between + end));
    if forall i :: 0 < i < |end| ==> !SigAt(end, i) {
      OnlySignature(e, comment);
    }
  }

  /** An archive cut into two parts at `x`, with its end record whole in the second: the second part starts at `x`, and
  the record says in which part and where in it the directory starts. */
  ghost predicate CutInTwo(front: seq<Byte>, records: seq<Record>, between: seq<Byte>, e: Eocd, comment: seq<Byte>,
                           x: nat)
  {
    && x <= |front + DirectoryBytes(records) + between| && e.finalDisk == 1 && e.total == |records|
    && (if x <= |front| then e.centralDisk == 1 && e.centralOffset == |front| - x
        else e.centralDisk == 0 && e.centralOffset == |front|)
    && EocdOk(e, comment) && FoundIn(e, comment) == Some(e)
    && forall i :: 0 <= i < |records| ==> RecordOk(records[i])
  }

  function Whole(front: seq<Byte>, records: seq<Record>, between: seq<Byte>, e: Eocd, comment: seq<Byte>): seq<Byte> {
    front + (DirectoryBytes(records) + (between + EocdBytes(e, comment)))
  }

  /** The part in which the directory starts is read from the end record and not looked at. So an archive with more in
  front of its directory than from there on is listed exactly if it is cut in front of the directory; cut inside it,
  not a single entry is listed. */
  lemma CutInsideDirectory(front: seq<Byte>, records: seq<Record>, between: seq<Byte>, e: Eocd, comment: seq<Byte>,
                           x: nat)
    requires CutInTwo(front, records, between, e, comment, x) && records != []
    requires 2 * |front| >= |Whole(front, records, between, e, comment)|
    ensures x <= |Whole(front, records, between, e, comment)|
    ensures var listed := Directory(Whole(front, records, between, e, comment)[x..]);
            (listed == (EntriesOf(records), true) <==> x <= |front|) && (x > |front| ==> listed == ([], false))
  {
    hide FindEocd, Entries, EntriesOf, DirectoryBytes, EocdBytes, RecordOk, FoundIn, EocdOk;
    var directory, end := DirectoryBytes(records), EocdBytes(e, comment);
    var file := Whole(front, records, between, e, comment)[x..];
    if x <= |front| {
      assert file == front[x..] + (directory + (between + end));
      ArchiveRoundTrip(front[x..], records, between, e, comment);
    } else {
      var body := front + directory + between;
      assert Whole(front, records, between, e, comment) == body + end;
      assert file == body[x..] + end;
      EocdFound(body[x..], e, comment);
      assert Drop(file, |front|) == [];
      NothingThere(|records|);
    }
  }

  lemma NothingThere(n: nat)
    requires n > 0
    ensures Entries([], n) == ([], false)
  {
  }

  lemma OnlySignature(e: Eocd, comment: seq<Byte>)
    requires EocdOk(e, comment)
    requires forall i :: 0 < i < |EocdBytes(e, comment)| ==> !SigAt(EocdBytes(e, comment), i)
    ensures FoundIn(e, comment) == Some(e)
  {
    hide EocdBytes, Unpack, EocdFormat, LastSig;
    EocdRecord(e, comment);
    LastIs(EocdBytes(e, comment), 0);
  }

  lemma EocdRecord(e: Eocd, comment: seq<Byte>)
    requires EocdOk(e, comment)
    ensures var b := EocdBytes(e, comment);
            |b| == 22 + |comment| && SigAt(b, 0)
            && var v := Unpack(EocdFormat(), b[..22]);
               v[1] == e.finalDisk && v[2] == e.centralDisk && v[3] == v[4] == e.total && v[5] == e.centralSize
               && v[6] == e.centralOffset
  {
    hide Pow256, Pack, Unpack, EocdFormat;
    Powers();
    var v := [EOCD_SIG_NUMBER, e.finalDisk, e.centralDisk, e.total, e.total, e.centralSize, e.centralOffset, |comment|];
    assert Fits(EocdFormat(), v);
    PackRoundTrip(EocdFormat(), v);
    var b := EocdBytes(e, comment);
    assert b[..22] == Pack(EocdFormat(), v);
    SigFirst(v);
    assert b[0..4] == Pack(EocdFormat(), v)[0..4];
  }

  lemma SigFirst(v: seq<nat>)
    requires |v| == 8 && v[0] == EOCD_SIG_NUMBER
    ensures |Pack(EocdFormat(), v)| >= 4 && Pack(EocdFormat(), v)[0..4] == EOCD_SIG
  {
    var p := Pack(EocdFormat(), v);
    assert p == LeBytes(4, EOCD_SIG_NUMBER) + Pack(EocdFormat()[1..], v[1..]);
    assert LeBytes(0, 0) == [];
    assert LeBytes(1, 0x06) == [0x06];
    assert LeBytes(2, 0x0605) == [0x05, 0x06];
    assert LeBytes(3, 0x06054B) == [0x4B, 0x05, 0x06];
    assert LeBytes(4, EOCD_SIG_NUMBER) == EOCD_SIG;
  }

  lemma EocdFound(front: seq<Byte>, e: Eocd, comment: seq<Byte>)
    requires EocdOk(e, comment)
    ensures FindEocd(front + EocdBytes(e, comment)) == FoundIn(e, comment)
  {
    hide EocdBytes, Unpack, EocdFormat, LastSig, SigAt, EndRecord;
    EocdRecord(e, comment);
    var b := EocdBytes(e, comment);
    var file := front + b;
    var cut := Max(0, |file| - MAX_EOCD);
    var tail := file[cut..];
    var at := |front| - cut;
    assert at >= 0 && tail == front[cut..] + b;
    var last := LastSig(b, |b|);
    assert last.Some?;
    var pos := last.value;
    SigShift(front, b, cut, at + pos);
    forall i | at + pos < i < |tail| ensures !SigAt(tail, i) {
      SigShift(front, b, cut, i);
    }
    LastIs(tail, at + pos);
    EndShift(front[cut..], b, pos);
  }

  lemma EndShift(front: seq<Byte>, b: seq<Byte>, pos: nat)
    ensures EndRecord(front + b, |front| + pos) == EndRecord(b, pos)
  {
    hide Unpack, EocdFormat;
    if pos + 22 <= |b| {
      assert (front + b)[|front| + pos..|front| + pos + 22] == b[pos..pos + 22];
    }
  }

  const EMPTY: Eocd := Eocd(0, 0, 0, 0, 0)

  /** A comment that is itself an end record is taken for the end of the archive: here all the entries are lost. */
  lemma CommentWins(before: seq<Byte>, e: Eocd)
    ensures Directory(before + EocdBytes(e, EocdBytes(EMPTY, []))) == ([], true)
  {
    hide EocdHead, FindEocd, FoundIn, SigAt;
    var comment := EocdBytes(EMPTY, []);
    var front := before + EocdHead(e, |comment|);
    assert before + EocdBytes(e, comment) == front + comment;
    EocdFound(front, EMPTY, []);
    EmptyEnd();
    OnlySignature(EMPTY, []);
  }

  lemma {:induction false} ZeroBytes(w: nat)
    ensures forall i :: 0 <= i < w ==> LeBytes(w, 0)[i] == 0
  {
    if w > 0 {
      ZeroBytes(w - 1);
    }
  }

  lemma {:induction false} ZeroPack(format: seq<nat>, values: seq<nat>)
    requires |format| == |values| && forall i :: 0 <= i < |values| ==> values[i] == 0
    ensures forall i :: 0 <= i < |Pack(format, values)| ==> Pack(format, values)[i] == 0
  {
    hide LeBytes;
    if format != [] {
      ZeroBytes(format[0]);
      ZeroPack(format[1..], values[1..]);
    }
  }

  lemma EmptyEnd()
    ensures forall i :: 0 < i < |EocdBytes(EMPTY, [])| ==> !SigAt(EocdBytes(EMPTY, []), i)
  {
    hide Pack, EocdFormat;
    var v: seq<nat> := [EOCD_SIG_NUMBER, 0, 0, 0, 0, 0, 0, 0];
    var b := EocdBytes(EMPTY, []);
    assert b == Pack(EocdFormat(), v);
    SigFirst(v);
    SigThenRest(v);
    forall i | 0 < i < |b| ensures !SigAt(b, i) {
      assert i + 4 <= |b| ==> b[i..i + 4][0] == b[i];
      assert i < 4 ==> b[i] == b[0..4][i];
    }
  }

  lemma SigThenRest(v: seq<nat>)
    requires |v| == 8 && forall i :: 0 < i < 8 ==> v[i] == 0
    ensures forall i :: 4 <= i < |Pack(EocdFormat(), v)| ==> Pack(EocdFormat(), v)[i] == 0
  {
    hide LeBytes, EocdFormat;
    var format := EocdFormat();
    assert Pack(format, v) == LeBytes(4, v[0]) + Pack(format[1..], v[1..]);
    ZeroPack(format[1..], v[1..]);
  }

  lemma SigShift(front: seq<Byte>, b: seq<Byte>, cut: nat, i: nat)
    requires cut <= |front| && |front| - cut <= i
    ensures SigAt((front + b)[cut..], i) <==> SigAt(b, i - (|front| - cut))
  {
    var tail, j := (front + b)[cut..], i - (|front| - cut);
    if j + 4 <= |b| {
      assert tail[i..i + 4] == b[j..j + 4];
    }
  }

  lemma LastIs(s: seq<Byte>, at: nat)
    requires at < |s| && SigAt(s, at) && forall i :: at < i < |s| ==> !SigAt(s, i)
    ensures LastSig(s, |s|) == Some(at)
  {
    hide SigAt;
    var r := LastSig(s, |s|);
  }
}
