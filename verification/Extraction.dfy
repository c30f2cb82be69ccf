/** Extracting one entry of a split archive (scripts/extract_videoespresso_split_zip_subset.py).

Decompression is any decoder that works byte by byte, and the checksum any fold over bytes. */
module Extraction {
  import opened Py
  import opened Bytes
  import opened SplitParts
  import opened ZipDirectory

  const LOCAL_SIG: nat := 0x04034B50
  const STORED: nat := 0
  const DEFLATED: nat := 8
  const CHUNK: nat := 8388608

  /** A decoder that may refuse a byte, what it still gives out at the end, and one step of the checksum. */
  datatype Codec<!S> = Codec(start: S, feed: (S, Byte) -> Option<(S, seq<Byte>)>, flush: S -> seq<Byte>,
                             crc: (nat, Byte) -> nat)

  function FeedAll<S>(c: Codec<S>, s: S, data: seq<Byte>): Option<(S, seq<Byte>)>
    decreases |data|
  {
    if data == [] then Some((s, []))
    else
      match c.feed(s, data[0])
      case None => None
      case Some((t, out)) =>
        match FeedAll(c, t, data[1..])
        case None => None
        case Some((u, more)) => Some((u, out + more))
  }

  function Checksum<S>(c: Codec<S>, crc: nat, data: seq<Byte>): nat
    decreases |data|
  {
    if data == [] then crc else Checksum(c, c.crc(crc, data[0]), data[1..])
  }

  /** Feeding in two pieces is feeding at once. */
  lemma {:induction false} FeedSum<S>(c: Codec<S>, s: S, a: seq<Byte>, b: seq<Byte>)
    ensures var x := FeedAll(c, s, a);
            var y := FeedAll(c, s, a + b);
            if x.None? then y.None?
            else var z := FeedAll(c, x.value.0, b);
                 y == if z.None? then None else Some((z.value.0, x.value.1 + z.value.1))
    decreases |a|
  {
    if a == [] {
      assert a + b == b;
      var z := FeedAll(c, s, b);
      assert z.Some? ==> [] + z.value.1 == z.value.1;
    } else {
      assert (a + b)[1..] == a[1..] + b;
      match c.feed(s, a[0]) {
        case None =>
        case Some((t, out)) =>
          FeedSum(c, t, a[1..], b);
          var x := FeedAll(c, t, a[1..]);
          if x.Some? {
            var z := FeedAll(c, x.value.0, b);
            assert z.Some? ==> out + (x.value.1 + z.value.1) == (out + x.value.1) + z.value.1;
          }
      }
    }
  }

  lemma {:induction false} ChecksumSum<S>(c: Codec<S>, crc: nat, a: seq<Byte>, b: seq<Byte>)
    ensures Checksum(c, crc, a + b) == Checksum(c, Checksum(c, crc, a), b)
    decreases |a|
  {
    if a == [] {
      assert a + b == b;
    } else {
      assert (a + b)[1..] == a[1..] + b;
      ChecksumSum(c, c.crc(crc, a[0]), a[1..], b);
    }
  }

  /** One byte more is one step more, of the decoder and of the checksum. */
  lemma OneByteMore<S>(c: Codec<S>, s: S, crc: nat, data: seq<Byte>, b: Byte)
    ensures Checksum(c, crc, []) == crc && Checksum(c, crc, data + [b]) == c.crc(Checksum(c, crc, data), b)
    ensures FeedAll(c, s, []) == Some((s, []))
    ensures var (x, y) := (FeedAll(c, s, data), FeedAll(c, s, data + [b]));
            if x.None? || c.feed(x.value.0, b).None? then y.None?
            else var z := c.feed(x.value.0, b).value; y == Some((z.0, x.value.1 + z.1))
  {
    ChecksumSum(c, crc, data, [b]);
    FeedSum(c, s, data, [b]);
    assert [b][1..] == [];
    assert Checksum(c, Checksum(c, crc, data), [b]) == c.crc(Checksum(c, crc, data), b);
    var x := FeedAll(c, s, data);
    if x.Some? && c.feed(x.value.0, b).Some? {
      var z := c.feed(x.value.0, b).value;
      assert z.1 + [] == z.1;
      assert FeedAll(c, x.value.0, [b]) == Some(z);
    }
  }

  // ---------------------------------------------------------------- what should come out

  /** `<4s5H3L2H` */
  function LocalFormat(): (r: seq<nat>)
    ensures |r| == 11 && Width(r) == 30
    ensures forall i :: 0 <= i < 11 ==> r[i] == if i == 0 || 6 <= i < 9 then 4 else 2
  {
    FieldsAre(1, 4);
    FieldsAre(5, 2);
    FieldsAre(3, 4);
    FieldsAre(2, 2);
    WidthSum(Fields(1, 4), Fields(5, 2));
    WidthSum(Fields(1, 4) + Fields(5, 2), Fields(3, 4));
    WidthSum(Fields(1, 4) + Fields(5, 2) + Fields(3, 4), Fields(2, 2));
    Fields(1, 4) + Fields(5, 2) + Fields(3, 4) + Fields(2, 2)
  }

  /** `_compressed_data_position`: behind the local header, its name and its extra field. */
  function DataPosition(parts: Parts, e: Entry): Option<Position> {
    var p := At(e.disk, e.localHeaderOffset);
    if !Available(parts, p, 30) then None
    else
      var v := Unpack(LocalFormat(), Slice(parts, p, 30));
      if v[0] != LOCAL_SIG || v[3] != e.compressType then None else Advance(parts, p, 30 + v[9] + v[10])
  }

  /** The content of an entry whose compressed bytes are `raw`. */
  function Content<S>(c: Codec<S>, compressType: nat, raw: seq<Byte>): Option<seq<Byte>> {
    if compressType == STORED then Some(raw)
    else if compressType == DEFLATED then
      match FeedAll(c, c.start, raw)
      case None => None
      case Some((s, data)) => Some(data + c.flush(s))
    else None
  }

  predicate Verified<S>(c: Codec<S>, e: Entry, data: seq<Byte>) {
    |data| == e.fileSize && Checksum(c, 0, data) % 0x1_0000_0000 == e.crc
  }

  /** The bytes of an entry, from one read of the whole archive. */
  function Payload<S>(c: Codec<S>, parts: Parts, e: Entry, p: Position): Option<seq<Byte>> {
    if !Available(parts, p, e.compressSize) then None
    else
      match Content(c, e.compressType, Slice(parts, p, e.compressSize))
      case None => None
      case Some(data) => if Verified(c, e, data) then Some(data) else None
  }

  datatype Status = Exists | DryRun | Extracted | Failed

  type Files = map<string, seq<Byte>>

  function Temp(out: string): string { out + ".tmp" }

  /** What an extraction reports, and the files it leaves. */
  function After<S>(files: Files, c: Codec<S>, parts: Parts, e: Entry, out: string, overwrite: bool, dryRun: bool)
    : (Status, Files)
  {
    if out in files && !overwrite then (Exists, files)
    else if dryRun then (DryRun, files)
    else
      match DataPosition(parts, e)
      case None => (Failed, files)
      case Some(p) =>
        match Payload(c, parts, e, p)
        case None => (Failed, files - {Temp(out)})
        case Some(data) => (Extracted, (files - {Temp(out)})[out := data])
  }

  // ---------------------------------------------------------------- the extraction

  class FileSystem {
    var files: Files

    constructor (first: Files)
      ensures files == first
    {
      files := first;
    }

    /** Writing at the end of an open file. */
    method Append(path: string, data: seq<Byte>)
      requires path in files
      modifies this
      ensures files == old(files)[path := old(files)[path] + data]
    {
      files := files[path := files[path] + data];
    }

    /** Removing a file, if it is there. */
    method Unlink(path: string)
      modifies this
      ensures files == old(files) - {path}
    {
      files := files - {path};
    }
  }

  method CompressedDataPosition(parts: Parts, e: Entry) returns (r: Option<Position>)
    ensures r == DataPosition(parts, e)
  {
    hide Unpack, LocalFormat, Available, Slice, Advance;
    var header := ReadFromParts(parts, At(e.disk, e.localHeaderOffset), 30);
    if header.None? {
      return None;
    }
    var v := Unpack(LocalFormat(), header.value);
    if v[0] != LOCAL_SIG {
      return None;
    }
    if v[3] != e.compressType {
      return None;
    }
    r := AdvancePosition(parts, At(e.disk, e.localHeaderOffset), 30 + v[9] + v[10]);
  }

  /** Copying the chunks of a stored entry. */
  method Store<S>(c: Codec<S>, chunks: seq<seq<Byte>>, fs: FileSystem, path: string) returns (crc: nat, written: nat)
    requires path in fs.files && fs.files[path] == []
    modifies fs
    ensures fs.files == old(fs.files)[path := Flat(chunks)]
    ensures crc == Checksum(c, 0, Flat(chunks)) && written == |Flat(chunks)|
  {
    hide Flat, Checksum;
    crc, written := 0, 0;
    ghost var data: seq<Byte> := [];
    NothingYet(c);
    FlatNothing<Byte>();
    assert chunks[..0] == [];
    for k := 0 to |chunks|
      invariant data == Flat(chunks[..k]) && written == |data| && crc == Checksum(c, 0, data)
      invariant fs.files == old(fs.files)[path := data]
    {
      fs.Append(path, chunks[k]);
      assert chunks[..k + 1] == chunks[..k] + [chunks[k]];
      FlatSnoc(chunks[..k], chunks[k]);
      ChecksumSum(c, 0, data, chunks[k]);
      crc := Checksum(c, crc, chunks[k]);
      written := written + |chunks[k]|;
      data := data + chunks[k];
    }
    assert chunks[..|chunks|] == chunks;
  }

  lemma NothingYet<S>(c: Codec<S>)
    ensures Checksum(c, 0, []) == 0 && FeedAll(c, c.start, []) == Some((c.start, []))
  {
  }

  /** Decompressing the chunks of a deflated entry, until the decoder refuses. */
  method Inflate<S>(c: Codec<S>, chunks: seq<seq<Byte>>, fs: FileSystem, path: string)
    returns (ok: bool, crc: nat, written: nat)
    requires path in fs.files && fs.files[path] == []
    modifies fs
    ensures path in fs.files && forall q :: q != path ==> (q in fs.files <==> q in old(fs.files))
    ensures forall q :: q != path && q in fs.files ==> fs.files[q] == old(fs.files)[q]
    ensures var r := Content(c, DEFLATED, Flat(chunks));
            ok == r.Some?
            && (ok ==> fs.files[path] == r.value && crc == Checksum(c, 0, r.value) && written == |r.value|)
  {
    hide Flat, Checksum, FeedAll;
    crc, written, ok := 0, 0, true;
    var state := c.start;
    ghost var data: seq<Byte> := [];
    NothingYet(c);
    FlatNothing<Byte>();
    assert chunks[..0] == [];
    for k := 0 to |chunks|
      invariant FeedAll(c, c.start, Flat(chunks[..k])) == Some((state, data))
      invariant written == |data| && crc == Checksum(c, 0, data)
      invariant fs.files == old(fs.files)[path := data]
    {
      assert chunks[..k + 1] == chunks[..k] + [chunks[k]];
      FlatSnoc(chunks[..k], chunks[k]);
      FeedSum(c, c.start, Flat(chunks[..k]), chunks[k]);
      var r := FeedAll(c, state, chunks[k]);
      if r.None? {
        FeedRefused(c, chunks, k + 1);
        return false, crc, written;
      }
      var out := r.value.1;
      ChecksumSum(c, 0, data, out);
      if out != [] {
        fs.Append(path, out);
        crc := Checksum(c, crc, out);
        written := written + |out|;
      } else {
        assert data + out == data;
      }
      state, data := r.value.0, data + out;
    }
    assert chunks[..|chunks|] == chunks;
    var tail := c.flush(state);
    ChecksumSum(c, 0, data, tail);
    if tail != [] {
      fs.Append(path, tail);
      crc := Checksum(c, crc, tail);
      written := written + |tail|;
    } else {
      assert data + tail == data;
    }
  }

  /** A decoder that refuses some of the chunks refuses them all. */
  lemma FeedRefused<S>(c: Codec<S>, chunks: seq<seq<Byte>>, k: nat)
    requires k <= |chunks| && FeedAll(c, c.start, Flat(chunks[..k])).None?
    ensures FeedAll(c, c.start, Flat(chunks)).None?
  {
    hide Flat, FeedAll;
    assert chunks == chunks[..k] + chunks[k..];
    FlatSum(chunks[..k], chunks[k..]);
    FeedSum(c, c.start, Flat(chunks[..k]), Flat(chunks[k..]));
  }

  /** The body of the `try`: everything up to the checks, with the temporary file still in place. */
  method WriteTemp<S>(c: Codec<S>, parts: Parts, e: Entry, p: Position, fs: FileSystem, temp: string) returns (ok: bool)
    modifies fs
    ensures temp in fs.files && fs.files - {temp} == old(fs.files) - {temp}
    ensures var r := Payload(c, parts, e, p); ok == r.Some? && (ok ==> fs.files[temp] == r.value)
  {
    hide Flat, Checksum, FeedAll, Available, Slice;
    var crc, written := 0, 0;
    ok := false;
    fs.files := fs.files[temp := []];
    var chunks, served := IterPartBytes(parts, p, e.compressSize, CHUNK);
    if e.compressType == STORED {
      crc, written := Store(c, chunks, fs, temp);
      ok := served;
    } else if e.compressType == DEFLATED {
      ok, crc, written := Inflate(c, chunks, fs, temp);
      ok := ok && served;
    }
    if written != e.fileSize || crc % 0x1_0000_0000 != e.crc {
      ok := false;
    }
  }

  /** `_extract_entry` */
  method ExtractEntry<S>(c: Codec<S>, parts: Parts, e: Entry, fs: FileSystem, out: string, overwrite: bool,
                         dryRun: bool)
    returns (status: Status)
    modifies fs
    ensures (status, fs.files) == After(old(fs.files), c, parts, e, out, overwrite, dryRun)
  {
    hide DataPosition, Payload;
    if out in fs.files && !overwrite {
      return Exists;
    }
    if dryRun {
      return DryRun;
    }
    var p := CompressedDataPosition(parts, e);
    if p.None? {
      return Failed;
    }
    var temp := Temp(out);
    assert |temp| == |out| + 4;
    var ok := WriteTemp(c, parts, e, p.value, fs, temp);
    if !ok {
      fs.Unlink(temp);
      return Failed;
    }
    ghost var written, data := fs.files, fs.files[temp];
    fs.files := fs.files[out := fs.files[temp]];
    fs.Unlink(temp);
    assert written[out := data] - {temp} == (written - {temp})[out := data];
    return Extracted;
  }

  lemma Widths(format: seq<nat>)
    requires |format| == 11 && forall i :: 0 <= i < 11 ==> format[i] == if i == 0 || 6 <= i < 9 then 4 else 2
    ensures Width(format[..0]) == 0 && Width(format[..3]) == 8 && Width(format[..9]) == 26 && Width(format[..10]) == 28
  {
    hide Width;
    NoWidth(format);
    WidthStep(format, 0);
    WidthStep(format, 1);
    WidthStep(format, 2);
    WidthStep(format, 3);
    WidthStep(format, 4);
    WidthStep(format, 5);
    WidthStep(format, 6);
    WidthStep(format, 7);
    WidthStep(format, 8);
    WidthStep(format, 9);
  }

  /** The local header is taken exactly if its 30 bytes are there, begin with the signature and name the method of the
  entry; the data then follow the name and the extra field, whose lengths stand at its end (APPNOTE.TXT, section 4.3.7).
  */
  lemma HeaderExactly(parts: Parts, e: Entry)
    ensures var p := At(e.disk, e.localHeaderOffset);
            DataPosition(parts, e) ==
            if !Available(parts, p, 30) then None
            else
              var h := Slice(parts, p, 30);
              if Le(h[0..4]) == 0x04034B50 && Le(h[8..10]) == e.compressType
              then Advance(parts, p, 30 + Le(h[26..28]) + Le(h[28..30])) else None
  {
    hide Le, Advance, Unpack, LocalFormat, Width;
    var p := At(e.disk, e.localHeaderOffset);
    if Available(parts, p, 30) {
      var h, f := Slice(parts, p, 30), LocalFormat();
      Widths(f);
      UnpackAt(f, h, 0);
      UnpackAt(f, h, 3);
      UnpackAt(f, h, 9);
      UnpackAt(f, h, 10);
    }
  }

  /** An entry has a content exactly if its compressed bytes are all there, are stored or deflated in a way the decoder
  takes to its end, and come to the size and checksum of the directory. */
  lemma PayloadExactly<S>(c: Codec<S>, parts: Parts, e: Entry, p: Position, data: seq<Byte>)
    ensures Payload(c, parts, e, p) == Some(data) <==>
            && Available(parts, p, e.compressSize)
            && var raw := Slice(parts, p, e.compressSize);
               && (e.compressType == 0 || e.compressType == 8)
               && (e.compressType == 0 ==> data == raw)
               && (e.compressType == 8 ==>
                     var x := FeedAll(c, c.start, raw); x.Some? && data == x.value.1 + c.flush(x.value.0))
               && |data| == e.fileSize && Checksum(c, 0, data) % 4294967296 == e.crc
  {
    hide Available, Slice, FeedAll, Checksum;
  }

  /** What is reported, in every case. A file that is there and may not be overwritten is left alone, and so is
  everything in a dry run and when no local header can be read. */
  lemma StatusIs<S>(files: Files, c: Codec<S>, parts: Parts, e: Entry, out: string, overwrite: bool, dryRun: bool)
    ensures var (status, after) := After(files, c, parts, e, out, overwrite, dryRun);
            var p := DataPosition(parts, e);
            && (status.Exists? <==> out in files && !overwrite)
            && (status.DryRun? <==> dryRun && !(out in files && !overwrite))
            && (status.Extracted? <==> !dryRun && !(out in files && !overwrite)
                                       && p.Some? && Payload(c, parts, e, p.value).Some?)
            && (status.Exists? || status.DryRun? || (status.Failed? && p.None?) ==> after == files)
            && (status.Failed? && p.Some? ==> after == files - {Temp(out)})
  {
    hide DataPosition, Payload;
  }

  /** All or nothing: the target holds the verified bytes or what it held before, no temporary file is left behind by an
  attempt, and nothing else changes. */
  lemma AllOrNothing<S>(files: Files, c: Codec<S>, parts: Parts, e: Entry, out: string, overwrite: bool, dryRun: bool)
    ensures var (status, after) := After(files, c, parts, e, out, overwrite, dryRun);
            (status.Extracted? ==>
               DataPosition(parts, e).Some? && out in after
               && Payload(c, parts, e, DataPosition(parts, e).value) == Some(after[out]) && Verified(c, e, after[out]))
            && (!status.Extracted? ==> (out in after <==> out in files) && (out in files ==> after[out] == files[out]))
            && (status.Extracted? ==> Temp(out) !in after)
            && (Temp(out) in after ==> Temp(out) in files)
            && (forall q :: q != out && q != Temp(out) ==>
                  (q in after <==> q in files) && (q in files ==> after[q] == files[q]))
  {
    hide DataPosition, Payload, Verified;
    assert |Temp(out)| == |out| + 4;
    PayloadVerified(c, parts, e);
  }

  lemma PayloadVerified<S>(c: Codec<S>, parts: Parts, e: Entry)
    ensures var p := DataPosition(parts, e);
            p.Some? && Payload(c, parts, e, p.value).Some? ==> Verified(c, e, Payload(c, parts, e, p.value).value)
  {
    hide DataPosition, Verified, Content, Slice;
  }

  // ---------------------------------------------------------------- entries of a well-formed archive

  datatype Local = Local(version: nat, flags: nat, stamp: (nat, nat), crc: nat, sizes: (nat, nat), name: seq<Byte>,
                         extra: seq<Byte>)

  function LocalValues(l: Local, compressType: nat): (v: seq<nat>)
    ensures |v| == 11 && v[0] == LOCAL_SIG && v[3] == compressType && v[9] == |l.name| && v[10] == |l.extra|
  {
    [LOCAL_SIG, l.version, l.flags, compressType, l.stamp.0, l.stamp.1, l.crc, l.sizes.0, l.sizes.1, |l.name|,
     |l.extra|]
  }

  function LocalBytes(l: Local, compressType: nat): seq<Byte> {
    Pack(LocalFormat(), LocalValues(l, compressType)) + (l.name + l.extra)
  }

  ghost predicate LocalOk(l: Local, compressType: nat) {
    l.version < 0x10000 && l.flags < 0x10000 && compressType < 0x10000 && l.stamp.0 < 0x10000 && l.stamp.1 < 0x10000
    && |l.name| < 0x10000 && |l.extra| < 0x10000
    && l.crc < 0x1_0000_0000 && l.sizes.0 < 0x1_0000_0000 && l.sizes.1 < 0x1_0000_0000
  }

  lemma LocalHeader(l: Local, compressType: nat)
    requires LocalOk(l, compressType)
    ensures var b := LocalBytes(l, compressType);
            |b| == 30 + |l.name| + |l.extra|
            && var v := Unpack(LocalFormat(), b[..30]);
               v[0] == LOCAL_SIG && v[3] == compressType && v[9] == |l.name| && v[10] == |l.extra|
  {
    hide Pack, Unpack, LocalFormat, LocalValues;
    var v := LocalValues(l, compressType);
    LocalFits(l, compressType);
    PackRoundTrip(LocalFormat(), v);
    assert LocalBytes(l, compressType)[..30] == Pack(LocalFormat(), v);
  }

  lemma LocalFits(l: Local, compressType: nat)
    requires LocalOk(l, compressType)
    ensures Fits(LocalFormat(), LocalValues(l, compressType))
  {
    hide Pow256, LocalFormat;
    Powers();
    var v := LocalValues(l, compressType);
    assert forall i :: 0 <= i < 11 && (i == 0 || 6 <= i < 9) ==> v[i] < 0x1_0000_0000;
    assert forall i :: 0 <= i < 11 && !(i == 0 || 6 <= i < 9) ==> v[i] < 0x10000;
  }

  /** Wherever the archive is cut into parts, an entry whose local header and compressed bytes stand at its offset is
  extracted, if it decompresses to its size and checksum. */
  lemma EntryComesOut<S>(c: Codec<S>, parts: Parts, e: Entry, l: Local, raw: seq<Byte>, rest: seq<Byte>,
                         data: seq<Byte>, files: Files, out: string)
    requires LocalOk(l, e.compressType) && |raw| == e.compressSize
    requires Flat(parts)[FlatOffset(parts, At(e.disk, e.localHeaderOffset))..] ==
             LocalBytes(l, e.compressType) + (raw + rest)
    requires Content(c, e.compressType, raw) == Some(data) && Verified(c, e, data)
    ensures After(files, c, parts, e, out, true, false) == (Extracted, (files - {Temp(out)})[out := data])
  {
    hide Flat, FlatOffset, Unpack, LocalFormat, LocalBytes, Content, Verified, Locate;
    var p := At(e.disk, e.localHeaderOffset);
    var x, f := FlatOffset(parts, p), Flat(parts);
    var b := LocalBytes(l, e.compressType);
    LocalHeader(l, e.compressType);
    var tail := f[x..];
    assert tail == b + (raw + rest);
    assert tail[..30] == b[..30];
    LocateIsThere(parts, x + |b|);
    var q := Locate(parts, x + |b|);
    assert DataPosition(parts, e) == Some(q);
    assert f[x + |b|..] == tail[|b|..] == raw + rest;
    assert Slice(parts, q, |raw|) == raw;
  }

  // ---------------------------------------------------------------- whole archives

  /** A member of an archive: what the archiver writes for it and the content it stands for. Anything may stand in
  front of its local header. */
  datatype Stored = Stored(gap: seq<Byte>, local: Local, raw: seq<Byte>, record: Record, data: seq<Byte>)

  function StoredBytes(m: Stored): seq<Byte> { m.gap + (LocalBytes(m.local, m.record.entry.compressType) + m.raw) }

  function FrontBytes(members: seq<Stored>): seq<Byte> {
    if members == [] then [] else StoredBytes(members[0]) + FrontBytes(members[1..])
  }

  function RecordsOf(members: seq<Stored>): (r: seq<Record>)
    ensures |r| == |members| && forall i :: 0 <= i < |members| ==> r[i] == members[i].record
  {
    seq(|members|, i requires 0 <= i < |members| => members[i].record)
  }

  /** Where the local header of a member stands in the archive. */
  function HeaderAt(members: seq<Stored>, i: nat): nat
    requires i < |members|
  {
    |FrontBytes(members[..i])| + |members[i].gap|
  }

  ghost predicate MemberOk<S>(c: Codec<S>, m: Stored) {
    var e := m.record.entry;
    RecordOk(m.record) && LocalOk(m.local, e.compressType) && |m.raw| == e.compressSize
    && Content(c, e.compressType, m.raw) == Some(m.data) && Verified(c, e, m.data)
  }

  /** The members, the directory in the last part, and the end record, cut into parts anywhere in front of the
  directory. */
  ghost predicate IsArchive<S>(c: Codec<S>, parts: Parts, members: seq<Stored>, pad: seq<Byte>, before: seq<Byte>,
                               between: seq<Byte>, e: Eocd, comment: seq<Byte>) {
    var directory := DirectoryBytes(RecordsOf(members)) + (between + EocdBytes(e, comment));
    && parts != [] && parts[|parts| - 1] == before + directory
    && Flat(parts[..|parts| - 1]) + before == FrontBytes(members) + pad
    && EocdOk(e, comment) && FoundIn(e, comment) == Some(e)
    && e.total == |members| && e.centralOffset == |before| && e.finalDisk == |parts| - 1
    && (forall i :: 0 <= i < |members| ==> MemberOk(c, members[i]) && Placed(parts, members, i))
  }

  ghost predicate Placed(parts: Parts, members: seq<Stored>, i: nat)
    requires i < |members|
  {
    var e := members[i].record.entry;
    FlatOffset(parts, At(e.disk, e.localHeaderOffset)) == HeaderAt(members, i)
  }

  lemma {:induction false} FrontSplit(members: seq<Stored>, i: nat)
    requires i < |members|
    ensures FrontBytes(members) == FrontBytes(members[..i]) + (StoredBytes(members[i]) + FrontBytes(members[i + 1..]))
  {
    hide StoredBytes;
    if i == 0 {
      assert members[..0] == [];
    } else {
      FrontSplit(members[1..], i - 1);
      assert members[1..][..i - 1] == members[..i][1..] && members[1..][i..] == members[i + 1..];
      var a, b := StoredBytes(members[0]), FrontBytes(members[1..][..i - 1]);
      assert FrontBytes(members[..i]) == a + b;
    }
  }

  lemma {:induction false} EntriesAre(records: seq<Record>)
    ensures |EntriesOf(records)| == |records|
    ensures forall i :: 0 <= i < |records| ==> EntriesOf(records)[i] == records[i].entry
  {
    if records != [] {
      EntriesAre(records[1..]);
    }
  }

  lemma SplitAt<T>(a: seq<T>, gap: seq<T>, header: seq<T>, raw: seq<T>, rest: seq<T>)
    ensures (a + (gap + (header + raw) + rest))[|a| + |gap|..] == header + (raw + rest)
  {
    assert a + (gap + (header + raw) + rest) == (a + gap) + (header + (raw + rest));
  }

  /** What stands at the place of a member. */
  lemma MemberStands<S>(c: Codec<S>, parts: Parts, members: seq<Stored>, pad: seq<Byte>, before: seq<Byte>,
                        between: seq<Byte>, e: Eocd, comment: seq<Byte>, i: nat) returns (rest: seq<Byte>)
    requires IsArchive(c, parts, members, pad, before, between, e, comment) && i < |members|
    ensures var m := members[i];
            Flat(parts)[HeaderAt(members, i)..] == LocalBytes(m.local, m.record.entry.compressType) + (m.raw + rest)
  {
    hide Flat, LocalBytes, MemberOk, Placed, DirectoryBytes, EocdBytes, FoundIn, EocdOk, FrontBytes;
    var m := members[i];
    var directory := DirectoryBytes(RecordsOf(members)) + (between + EocdBytes(e, comment));
    var front := parts[..|parts| - 1];
    assert parts == front + [parts[|parts| - 1]];
    FlatSnoc(front, parts[|parts| - 1]);
    FrontSplit(members, i);
    var a, header := FrontBytes(members[..i]), LocalBytes(m.local, m.record.entry.compressType);
    rest := FrontBytes(members[i + 1..]) + (pad + directory);
    assert Flat(front) + (before + directory) == (Flat(front) + before) + directory;
    assert Flat(parts) == a + ((m.gap + (header + m.raw)) + rest);
    SplitAt(a, m.gap, header, m.raw, rest);
  }

  /** Of a whole archive, wherever it is cut in front of its directory, the directory lists the members in order, and
  each of them is extracted with its own content. */
  lemma ArchiveComesOut<S>(c: Codec<S>, parts: Parts, members: seq<Stored>, pad: seq<Byte>, before: seq<Byte>,
                           between: seq<Byte>, e: Eocd, comment: seq<Byte>)
    requires IsArchive(c, parts, members, pad, before, between, e, comment)
    ensures var (entries, ok) := Directory(parts[|parts| - 1]);
            ok && |entries| == |members|
            && forall i :: 0 <= i < |members| ==>
                 entries[i] == members[i].record.entry && ComesOut(c, parts, entries[i], members[i].data)
  {
    hide Directory, Flat, EntriesOf, LocalBytes, Content, Verified, FoundIn, DirectoryBytes, EocdBytes, RecordOk;
    hide LocalOk, FlatOffset, HeaderAt, FrontBytes, ComesOut;
    var records := RecordsOf(members);
    ArchiveRoundTrip(before, records, between, e, comment);
    EntriesAre(records);
    forall i | 0 <= i < |members| ensures ComesOut(c, parts, records[i].entry, members[i].data) {
      var m := members[i];
      var rest := MemberStands(c, parts, members, pad, before, between, e, comment, i);
      EntryOut(c, parts, m.record.entry, m.local, m.raw, rest, m.data);
    }
  }

  /** Extracting the entry puts these bytes into the file it is to go to, whatever the files. */
  ghost predicate ComesOut<S>(c: Codec<S>, parts: Parts, e: Entry, data: seq<Byte>) {
    forall files, out :: After(files, c, parts, e, out, true, false) == (Extracted, (files - {Temp(out)})[out := data])
  }

  lemma EntryOut<S>(c: Codec<S>, parts: Parts, e: Entry, l: Local, raw: seq<Byte>, rest: seq<Byte>, data: seq<Byte>)
    requires LocalOk(l, e.compressType) && |raw| == e.compressSize
    requires Flat(parts)[FlatOffset(parts, At(e.disk, e.localHeaderOffset))..] ==
             LocalBytes(l, e.compressType) + (raw + rest)
    requires Content(c, e.compressType, raw) == Some(data) && Verified(c, e, data)
    ensures ComesOut(c, parts, e, data)
  {
    hide After, Flat, FlatOffset, LocalBytes, LocalOk, Content, Verified;
    forall files, out
      ensures After(files, c, parts, e, out, true, false) == (Extracted, (files - {Temp(out)})[out := data])
    {
      EntryComesOut(c, parts, e, l, raw, rest, data, files, out);
    }
  }

  // ---------------------------------------------------------------- extracting several entries

  datatype Job = Job(entry: Entry, out: string)

  /** The files after extracting one entry after the other, up to the first that fails, and whether none does. */
  function AfterAll<S>(files: Files, c: Codec<S>, parts: Parts, jobs: seq<Job>, overwrite: bool, dryRun: bool)
    : (bool, Files)
    decreases |jobs|
  {
    if jobs == [] then (true, files)
    else
      var (status, after) := After(files, c, parts, jobs[0].entry, jobs[0].out, overwrite, dryRun);
      if status.Failed? then (false, after) else AfterAll(after, c, parts, jobs[1..], overwrite, dryRun)
  }

  /** The loop of `main` over the requested entries. */
  method ExtractAll<S>(c: Codec<S>, parts: Parts, jobs: seq<Job>, fs: FileSystem, overwrite: bool, dryRun: bool)
    returns (ok: bool)
    modifies fs
    ensures (ok, fs.files) == AfterAll(old(fs.files), c, parts, jobs, overwrite, dryRun)
  {
    hide After;
    assert jobs[0..] == jobs;
    for k := 0 to |jobs|
      invariant AfterAll(old(fs.files), c, parts, jobs, overwrite, dryRun) ==
                AfterAll(fs.files, c, parts, jobs[k..], overwrite, dryRun)
    {
      assert jobs[k..][0] == jobs[k] && jobs[k..][1..] == jobs[k + 1..];
      var status := ExtractEntry(c, parts, jobs[k].entry, fs, jobs[k].out, overwrite, dryRun);
      if status.Failed? {
        return false;
      }
    }
    return true;
  }

  /** The first entry that fails ends the loop: the ones behind it are not tried. */
  lemma {:induction false} StopsAtFailure<S>(files: Files, c: Codec<S>, parts: Parts, jobs: seq<Job>, job: Job,
                                             more: seq<Job>, overwrite: bool, dryRun: bool)
    ensures var (ok, before) := AfterAll(files, c, parts, jobs, overwrite, dryRun);
            var (status, after) := After(before, c, parts, job.entry, job.out, overwrite, dryRun);
            AfterAll(files, c, parts, jobs + ([job] + more), overwrite, dryRun) ==
            if !ok then (false, before) else if status.Failed? then (false, after)
            else AfterAll(after, c, parts, more, overwrite, dryRun)
    decreases |jobs|
  {
    hide After;
    var all := jobs + ([job] + more);
    if jobs == [] {
      assert all == [job] + more && all[1..] == more;
    } else {
      assert all[1..] == jobs[1..] + ([job] + more);
      StopsAtFailure(After(files, c, parts, jobs[0].entry, jobs[0].out, overwrite, dryRun).1, c, parts, jobs[1..], job,
                     more, overwrite, dryRun);
    }
  }

  /** A file that a later extraction uses for its temporary data. */
  predicate Trampled(jobs: seq<Job>, i: nat)
    requires i < |jobs|
  {
    exists j :: i < j < |jobs| && jobs[i].out == Temp(jobs[j].out)
  }

  ghost predicate DistinctOuts(jobs: seq<Job>) {
    forall i, j :: 0 <= i < j < |jobs| ==> jobs[i].out != jobs[j].out
  }

  /** Of entries that come out, all end up with their content in their files, but for those whose file is the temporary
  file of a later one: these are gone. */
  lemma {:induction false} AllComeOut<S>(files: Files, c: Codec<S>, parts: Parts, jobs: seq<Job>, datas: seq<seq<Byte>>)
    requires |datas| == |jobs| && DistinctOuts(jobs)
    requires forall i :: 0 <= i < |jobs| ==> ComesOut(c, parts, jobs[i].entry, datas[i])
    ensures var (ok, after) := AfterAll(files, c, parts, jobs, true, false);
            ok && forall i :: 0 <= i < |jobs| ==>
                    (if Trampled(jobs, i) then jobs[i].out !in after
                     else jobs[i].out in after && after[jobs[i].out] == datas[i])
    decreases |jobs|
  {
    hide After, ComesOut, Trampled;
    if jobs != [] {
      var next := After(files, c, parts, jobs[0].entry, jobs[0].out, true, false).1;
      Extracts(c, parts, jobs[0], datas[0], files);
      AllComeOut(next, c, parts, jobs[1..], datas[1..]);
      KeptOrGone(next, c, parts, jobs[1..], datas[1..], jobs[0].out);
      TrampledNext(jobs);
    }
  }

  lemma Extracts<S>(c: Codec<S>, parts: Parts, job: Job, data: seq<Byte>, files: Files)
    requires ComesOut(c, parts, job.entry, data)
    ensures After(files, c, parts, job.entry, job.out, true, false) ==
            (Extracted, (files - {Temp(job.out)})[job.out := data])
  {
    hide After;
  }

  lemma TrampledNext(jobs: seq<Job>)
    requires jobs != []
    ensures forall i :: 0 < i < |jobs| ==> (Trampled(jobs, i) <==> Trampled(jobs[1..], i - 1))
    ensures Trampled(jobs, 0) <==> exists j :: 0 <= j < |jobs| - 1 && Temp(jobs[1..][j].out) == jobs[0].out
  {
    forall i | 0 < i < |jobs| ensures Trampled(jobs, i) <==> Trampled(jobs[1..], i - 1) {
      if Trampled(jobs, i) {
        var j :| i < j < |jobs| && jobs[i].out == Temp(jobs[j].out);
        assert jobs[1..][j - 1] == jobs[j];
      }
    }
    if Trampled(jobs, 0) {
      var j :| 0 < j < |jobs| && jobs[0].out == Temp(jobs[j].out);
      assert jobs[1..][j - 1] == jobs[j];
    }
  }

  /** A file that no job writes stays, unless it is the temporary file of one. */
  lemma {:induction false} KeptOrGone<S>(files: Files, c: Codec<S>, parts: Parts, jobs: seq<Job>, datas: seq<seq<Byte>>,
                                         path: string)
    requires |datas| == |jobs| && path in files
    requires forall i :: 0 <= i < |jobs| ==> ComesOut(c, parts, jobs[i].entry, datas[i]) && jobs[i].out != path
    ensures var after := AfterAll(files, c, parts, jobs, true, false).1;
            if exists j :: 0 <= j < |jobs| && Temp(jobs[j].out) == path then path !in after
            else path in after && after[path] == files[path]
    decreases |jobs|
  {
    hide After, ComesOut;
    if jobs != [] {
      var next := After(files, c, parts, jobs[0].entry, jobs[0].out, true, false).1;
      Extracts(c, parts, jobs[0], datas[0], files);
      if Temp(jobs[0].out) == path {
        StaysGone(next, c, parts, jobs[1..], datas[1..], path);
      } else {
        KeptOrGone(next, c, parts, jobs[1..], datas[1..], path);
        forall j | 0 < j < |jobs| ensures jobs[1..][j - 1] == jobs[j] {
        }
      }
    }
  }

  lemma {:induction false} StaysGone<S>(files: Files, c: Codec<S>, parts: Parts, jobs: seq<Job>, datas: seq<seq<Byte>>,
                                        path: string)
    requires |datas| == |jobs| && path !in files
    requires forall i :: 0 <= i < |jobs| ==> ComesOut(c, parts, jobs[i].entry, datas[i]) && jobs[i].out != path
    ensures path !in AfterAll(files, c, parts, jobs, true, false).1
    decreases |jobs|
  {
    hide After, ComesOut;
    if jobs != [] {
      var next := After(files, c, parts, jobs[0].entry, jobs[0].out, true, false).1;
      Extracts(c, parts, jobs[0], datas[0], files);
      StaysGone(next, c, parts, jobs[1..], datas[1..], path);
    }
  }
}
