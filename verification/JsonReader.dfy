/** The streaming reader of the first elements of a JSON array (scripts/common.py): the loop as a function of the
chunks it is handed, and the loop itself. */
module JsonReader {
  import opened Py
  import opened Protocol
  import opened Json

  // ---------------------------------------------------------------- the reader, as a function of its chunks

  function LStripCommas(s: string): string {
    if s != "" && s[0] == ',' then LStripCommas(s[1..]) else s
  }

  /** `buf.lstrip().lstrip(",").lstrip()` */
  function Trim(s: string): (r: string)
    ensures |r| <= |s|
  {
    LStripShrinks(s);
    LStripCommasShrinks(LStrip(s));
    LStripShrinks(LStripCommas(LStrip(s)));
    LStrip(LStripCommas(LStrip(s)))
  }

  lemma {:induction false} LStripShrinks(s: string)
    ensures |LStrip(s)| <= |s|
  {
    if s != "" && IsSpace(s[0]) { LStripShrinks(s[1..]); }
  }

  lemma {:induction false} LStripCommasShrinks(s: string)
    ensures |LStripCommas(s)| <= |s|
  {
    if s != "" && s[0] == ',' { LStripCommasShrinks(s[1..]); }
  }

  /** The loop once the opening bracket has been seen: `chunks` are still unread. */
  function Elements(chunks: seq<string>, buf: string, items: seq<Json>, limit: int): (seq<Json>, bool)
    decreases |chunks|, |buf|
  {
    if |items| >= limit then (items, true)
    else
      var b := Trim(buf);
      if b != "" && b[0] == ']' then (items, true)
      else if b == "" || WantsMore(ParseValue(b), chunks) then
        if chunks == [] then (items, true) else Elements(chunks[1..], b + chunks[0], items, limit)
      else
        var r := ParseValue(b);
        Elements(chunks, r.rest, items + [r.value], limit)
  }

  /** The value does not decode, or it reaches the end of the buffer and there is more to read. */
  predicate WantsMore(r: Parsed<Json>, chunks: seq<string>) { r.Fail? || (r.rest == "" && chunks != []) }

  /** The loop while only white space has been seen. */
  function Start(chunks: seq<string>, buf: string, limit: int): (seq<Json>, bool)
    decreases |chunks|
  {
    var stripped := LStrip(buf);
    if stripped == "" then if chunks == [] then ([], false) else Start(chunks[1..], chunks[0], limit)
    else if stripped[0] != '[' then ([], false)
    else Elements(chunks, stripped[1..], [], limit)
  }

  function Read(chunks: seq<string>, limit: int): (seq<Json>, bool) {
    if limit <= 0 then ([], true) else Start(chunks, "", limit)
  }

  /** One turn of the loop. */
  lemma OneTurn(chunks: seq<string>, buf: string, items: seq<Json>, limit: int)
    ensures var b := Trim(buf);
            var r := ParseValue(b);
            Elements(chunks, buf, items, limit) ==
            if |items| >= limit || (b != "" && b[0] == ']') then (items, true)
            else if b == "" || WantsMore(r, chunks) then
              if chunks == [] then (items, true) else Elements(chunks[1..], b + chunks[0], items, limit)
            else Elements(chunks, r.rest, items + [r.value], limit)
  {
    hide Trim, ParseValue;
  }

  lemma NothingLeft<T>()
    ensures Flat<T>([]) == []
  {
  }

  // ---------------------------------------------------------------- the reader itself

  /** A text file being read from front to back. */
  class TextFile {
    var unread: string

    constructor (text: string)
      ensures unread == text
    {
      unread := text;
    }

    /** `f.read(size)`: as many characters as are asked for, fewer only at the end. */
    method Read(size: nat) returns (chunk: string)
      modifies this
      ensures chunk == old(unread)[..Min(size, |old(unread)|)] && unread == old(unread)[|chunk|..]
    {
      chunk := unread[..Min(size, |unread|)];
      unread := unread[|chunk|..];
    }
  }

  lemma NextPiece(text: string, size: nat)
    requires size > 0
    ensures var chunk := text[..Min(size, |text|)];
            if text == "" then chunk == "" && Pieces(text, size) == []
            else chunk != "" && |text[|chunk|..]| < |text|
                 && Pieces(text, size) == [chunk] + Pieces(text[|chunk|..], size)
  {
    var chunk := text[..Min(size, |text|)];
    if text != "" && |text| <= size {
      assert chunk == text && text[|chunk|..] == "";
    }
  }

  /** `_read_json_array_prefix`, with blocks of `size` characters (65536 in the source). */
  method ReadJsonArrayPrefix(f: TextFile, limit: int, size: nat) returns (items: seq<Json>, isArray: bool)
    requires size > 0
    modifies f
    ensures (items, isArray) == Read(Pieces(old(f.unread), size), limit)
  {
    hide ParseValue, Trim, LStrip, Pieces;
    items := [];
    var buf, started := "", false;
    ghost var goal := Read(Pieces(f.unread, size), limit);
    while |items| < limit
      invariant started ==> Elements(Pieces(f.unread, size), buf, items, limit) == goal
      invariant !started ==> items == []
      invariant !started && limit > 0 ==> Start(Pieces(f.unread, size), buf, limit) == goal
      invariant limit <= 0 ==> goal == ([], true)
      decreases |f.unread|, |buf|
    {
      NextPiece(f.unread, size);
      if !started {
        var stripped := LStrip(buf);
        if stripped == "" {
          var chunk := f.Read(size);
          if chunk == "" {
            return items, false;
          }
          buf := chunk;
          continue;
        }
        if stripped[0] != '[' {
          return items, false;
        }
        LStripShrinks(buf);
        buf := stripped[1..];
        started := true;
      }
      OneTurn(Pieces(f.unread, size), buf, items, limit);
      buf := Trim(buf);
      if buf != "" && buf[0] == ']' {
        return items, true;
      }
      if buf == "" {
        var chunk := f.Read(size);
        if chunk == "" {
          return items, true;
        }
        buf := buf + chunk;
        continue;
      }
      var r := ParseValue(buf);
      if r.Fail? {
        var chunk := f.Read(size);
        if chunk == "" {
          return items, true;
        }
        buf := buf + chunk;
        continue;
      }
      if r.rest == "" {
        var chunk := f.Read(size);
        if chunk != "" {
          buf := buf + chunk;
          continue;
        }
      }
      items := items + [r.value];
      buf := r.rest;
    }
    return items, true;
  }

  // ---------------------------------------------------------------- the flag

  lemma {:induction false} BlankOnly(w: string, rest: string)
    requires Blank(w)
    ensures LStrip(w + rest) == LStrip(rest)
  {
    if w == "" {
      assert w + rest == rest;
    } else {
      assert (w + rest)[1..] == w[1..] + rest;
      BlankOnly(w[1..], rest);
    }
  }

  predicate OpensArray(text: string) { LStrip(text) != "" && LStrip(text)[0] == '[' }

  lemma {:induction false} OpenFlag(chunks: seq<string>, buf: string, limit: int)
    ensures Start(chunks, buf, limit).1 <==> OpensArray(buf + Flat(chunks))
    decreases |chunks|
  {
    hide Elements, LStrip, Flat;
    var w := LStripSplit(buf);
    var s := LStrip(buf);
    if s == "" {
      assert w == buf;
      BlankOnly(buf, Flat(chunks));
      if chunks == [] {
        NothingLeft<char>();
        assert w + "" == w;
      } else {
        FlatHead(chunks);
        OpenFlag(chunks[1..], chunks[0], limit);
      }
    } else {
      assert buf + Flat(chunks) == w + (s + Flat(chunks));
      LStripOf(w, s + Flat(chunks));
      if s[0] == '[' {
        ElementsFlag(chunks, s[1..], [], limit);
      }
    }
  }

  lemma FlatHead(chunks: seq<string>)
    requires chunks != []
    ensures Flat(chunks) == chunks[0] + Flat(chunks[1..])
  {
  }

  lemma {:induction false} ElementsFlag(chunks: seq<string>, buf: string, items: seq<Json>, limit: int)
    ensures Elements(chunks, buf, items, limit).1
    decreases |chunks|, |buf|
  {
    hide Elements, Trim, ParseValue;
    OneTurn(chunks, buf, items, limit);
    var b := Trim(buf);
    if |items| < limit && (b == "" || b[0] != ']') {
      if b == "" || WantsMore(ParseValue(b), chunks) {
        if chunks != [] {
          ElementsFlag(chunks[1..], b + chunks[0], items, limit);
        }
      } else {
        var r := ParseValue(b);
        ElementsFlag(chunks, r.rest, items + [r.value], limit);
      }
    }
  }

  /** The flag says that the first visible character is an opening bracket, except that a limit of zero or less is
  answered without looking at the file. */
  lemma IsArrayFlag(chunks: seq<string>, limit: int)
    ensures Read(chunks, limit).1 <==> limit <= 0 || OpensArray(Flat(chunks))
  {
    hide Start, OpensArray;
    OpenFlag(chunks, "", limit);
    assert "" + Flat(chunks) == Flat(chunks);
  }
}
