/** What the streaming reader of a JSON array gives, for every way of cutting the file into chunks. */
module JsonPrefix {
  import opened Py
  import opened Protocol
  import opened Json
  import opened JsonCuts
  import opened JsonReader

  // ---------------------------------------------------------------- separators

  ghost predicate AllCommas(s: string) { forall i :: 0 <= i < |s| ==> s[i] == ',' }

  ghost predicate SepAt(s: string, i: int, j: int) {
    0 <= i <= j <= |s| && forall k :: 0 <= k < |s| ==> if i <= k < j then s[k] == ',' else IsSpace(s[k])
  }

  /** What the reader skips between two elements: white space around any number of adjacent commas. */
  ghost predicate IsSep(s: string) { exists i, j :: SepAt(s, i, j) }

  lemma SepCut(s: string, k: nat)
    requires IsSep(s) && k <= |s|
    ensures IsSep(s[..k]) && IsSep(s[k..])
  {
    var i, j :| SepAt(s, i, j);
    assert SepAt(s[..k], Min(i, k), Min(j, k));
    assert SepAt(s[k..], Max(i - k, 0), Max(j - k, 0));
  }

  lemma {:induction false} LStripCommasOf(w: string, rest: string)
    requires AllCommas(w) && (rest == "" || rest[0] != ',')
    ensures LStripCommas(w + rest) == rest
  {
    if w == "" {
      assert w + rest == rest;
    } else {
      assert (w + rest)[1..] == w[1..] + rest;
      LStripCommasOf(w[1..], rest);
    }
  }

  /** A text that starts with something the reader does not skip. */
  predicate Solid(s: string) { s == "" || (!IsSpace(s[0]) && s[0] != ',') }

  lemma TrimSep(sep: string, rest: string)
    requires IsSep(sep) && Solid(rest)
    ensures Trim(sep + rest) == rest
  {
    hide LStrip, LStripCommas;
    var i, j :| SepAt(sep, i, j);
    var a, b, c := sep[..i], sep[i..j], sep[j..];
    assert sep + rest == a + (b + (c + rest));
    LStripOf(c, rest);
    if b == "" {
      assert b + (c + rest) == c + rest;
      BlankOnly(a, c + rest);
      LStripCommasOf("", rest);
      assert "" + rest == rest;
      LStripOf("", rest);
    } else {
      LStripOf(a, b + (c + rest));
      if c + rest == "" || (c + rest)[0] != ',' {
        LStripCommasOf(b, c + rest);
      }
    }
  }

  // ---------------------------------------------------------------- arrays, element by element

  datatype Row = Row(sep: string, tree: Tree)

  /** What follows the last element: the closing bracket and anything after it, or anything at all. */
  datatype Tail = Closed(sep: string, junk: string) | Loose(text: string)

  function TailText(tail: Tail): string {
    match tail case Closed(sep, junk) => sep + ("]" + junk) case Loose(text) => text
  }

  function Body(rows: seq<Row>, tail: Tail): string {
    if rows == [] then TailText(tail) else rows[0].sep + (Text(rows[0].tree) + Body(rows[1..], tail))
  }

  ghost predicate RowsOk(rows: seq<Row>) {
    forall i :: 0 <= i < |rows| ==>
      IsSep(rows[i].sep) && WellFormed(rows[i].tree) && (i > 0 ==> rows[i].sep != "")
  }

  /** The text is right up to and including the character that ends the last of the `wanted` elements. */
  ghost predicate TailOk(rows: seq<Row>, tail: Tail, wanted: int) {
    if tail.Closed? then IsSep(tail.sep) && |rows| <= wanted else |rows| == wanted && Ends(tail.text)
  }

  predicate NoFloats(rows: seq<Row>) { forall i :: 0 <= i < |rows| ==> !IsFloat(rows[i].tree) }

  function RowValues(rows: seq<Row>): seq<Json> {
    if rows == [] then [] else [Value(rows[0].tree)] + RowValues(rows[1..])
  }

  /** What follows an element starts with a character that ends it. */
  lemma RestEnds(rows: seq<Row>, tail: Tail, wanted: int)
    requires RowsOk(rows) && TailOk(rows, tail, wanted) && (rows != [] ==> rows[0].sep != "")
    ensures Ends(Body(rows, tail))
  {
    if rows != [] {
      SepHead(rows[0].sep);
    } else if tail.Closed? && tail.sep != "" {
      SepHead(tail.sep);
    }
  }

  lemma SepHead(s: string)
    requires IsSep(s) && s != ""
    ensures IsSpace(s[0]) || s[0] == ','
  {
    var i, j :| SepAt(s, i, j);
  }

  lemma FlatFirst(chunks: seq<string>, b: string)
    requires chunks != [] && NoneEmpty(chunks)
    ensures b + Flat(chunks) == (b + chunks[0]) + Flat(chunks[1..]) && NoneEmpty(chunks[1..])
  {
  }

  lemma Prefixes(a: string, b: string, x: string, y: string)
    requires a + b == x + y
    ensures |a| <= |x| ==> a == x[..|a|] && b == x[|a|..] + y
    ensures |a| >= |x| ==> a == x + a[|x|..] && a[|x|..] + b == y
  {
    if |a| <= |x| {
      assert a == (a + b)[..|a|] == (x + y)[..|a|] == x[..|a|];
      assert b == (a + b)[|a|..] == (x + y)[|a|..] == x[|a|..] + y;
    }
    if |a| >= |x| {
      var q := a[|x|..];
      assert x == (x + y)[..|x|] == (a + b)[..|x|] == a[..|x|];
      assert y == (x + y)[|x|..] == (a + b)[|x|..] == q + b;
    }
  }

  /** Trimming the buffer takes off the part of the separator that has been read. */
  lemma TrimBuffer(buf: string, unread: string, sep: string, x: string) returns (left: string)
    requires buf + unread == sep + x && IsSep(sep) && Solid(x)
    ensures IsSep(left) && Trim(buf) + unread == left + x && (Trim(buf) == "" || left == "")
  {
    hide Trim, IsSep;
    Prefixes(buf, unread, sep, x);
    if |buf| <= |sep| {
      SepCut(sep, |buf|);
      TrimSep(buf, "");
      assert buf + "" == buf;
      left := sep[|buf|..];
      assert "" + unread == unread;
    } else {
      TrimSep(sep, buf[|sep|..]);
      SepCut(sep, |sep|);
      assert sep[|sep|..] == "";
      left := "";
      assert "" + x == x;
    }
  }

  /** Decoding a buffer that starts with an element, of which only a part may have been read. */
  lemma BufferValue(c: Tree, b: string, unread: string, y: string)
    requires WellFormed(c) && Ends(y) && b + unread == Text(c) + y
    ensures var r := ParseValue(b);
            if |b| >= |Text(c)| then r == Got(Value(c), b[|Text(c)|..]) && r.rest + unread == y
            else if BadCut(c, |b|) then r.Got? && r.rest != "" && r.value != Value(c)
            else (r.Fail? || r.rest == "") && unread != ""
  {
    hide ParseValue, Text, Value, WellFormed, IsFloat, BadCut;
    Prefixes(b, unread, Text(c), y);
    if |b| < |Text(c)| {
      ValueCut(c, |b|);
      assert |b + unread| == |Text(c) + y|;
      if BadCut(c, |b|) {
        Misread(c, |b|);
      }
    } else {
      var q := b[|Text(c)|..];
      assert Ends(q) by { assert q != "" ==> q[0] == (q + unread)[0]; }
      Decoded(c, q);
    }
  }

  /** A float that is cut off is taken for another number. */
  lemma Misread(c: Tree, k: nat)
    requires WellFormed(c) && BadCut(c, k) && ParseValue(Text(c)[..k]).Got?
    ensures ParseValue(Text(c)[..k]).value != Value(c)
  {
    hide ParseValue;
    var d := ValueSound(Text(c)[..k]);
    assert |Text(d)| <= k;
  }

  lemma WithSep(rows: seq<Row>, sep: string, tail: Tail, wanted: int)
    requires rows != [] && RowsOk(rows) && IsSep(sep) && TailOk(rows, tail, wanted)
    ensures var r := [Row(sep, rows[0].tree)] + rows[1..];
            RowsOk(r) && TailOk(r, tail, wanted) && RowValues(r) == RowValues(rows)
            && Body(r, tail) == sep + (Text(rows[0].tree) + Body(rows[1..], tail))
  {
    hide IsSep, WellFormed, Text, Value;
    assert ([Row(sep, rows[0].tree)] + rows[1..])[1..] == rows[1..];
  }

  // ---------------------------------------------------------------- where the chunks end

  /** How much of the file is left at the start of the element at row `m`. */
  function After(rows: seq<Row>, m: nat, tail: Tail): nat
    requires m < |rows|
  {
    |Text(rows[m].tree)| + |Body(rows[m + 1..], tail)|
  }

  /** A chunk that leaves so much of the file unread ends inside a float, without a digit in front of the cut. */
  ghost predicate CutsAt(rows: seq<Row>, tail: Tail, unread: nat) {
    exists m :: 0 <= m < |rows| && BadCut(rows[m].tree, After(rows, m, tail) - unread)
  }

  /** No chunk ends so, neither the buffer in front of `chunks` nor any of them but the last. */
  ghost predicate Clean(rows: seq<Row>, tail: Tail, chunks: seq<string>) {
    forall t :: 0 <= t < |chunks| ==> !CutsAt(rows, tail, |Flat(chunks[t..])|)
  }

  lemma {:induction false} AfterIn(rows: seq<Row>, m: nat, tail: Tail)
    requires m < |rows|
    ensures After(rows, m, tail) <= |Body(rows, tail)|
  {
    hide Text;
    if m > 0 {
      AfterIn(rows[1..], m - 1, tail);
      assert rows[1..][m..] == rows[m + 1..];
    }
  }

  /** Nothing of the rows has been read, so nothing is cut. */
  lemma NotYet(rows: seq<Row>, tail: Tail, unread: nat)
    requires unread >= |Body(rows, tail)|
    ensures !CutsAt(rows, tail, unread)
  {
    hide Body, After;
    forall m | 0 <= m < |rows| ensures !BadCut(rows[m].tree, After(rows, m, tail) - unread) {
      AfterIn(rows, m, tail);
    }
  }

  lemma AfterShift(rows: seq<Row>, m: nat, tail: Tail)
    requires m + 1 < |rows|
    ensures After(rows, m + 1, tail) == After(rows[1..], m, tail)
  {
    hide Text, Body;
    assert rows[1..][m + 1..] == rows[m + 2..];
  }

  lemma FirstPassed(rows: seq<Row>, tail: Tail, unread: nat)
    requires rows != [] && unread <= |Body(rows[1..], tail)|
    ensures !BadCut(rows[0].tree, After(rows, 0, tail) - unread)
  {
    hide Text, Body, BadCut;
    PastEnd(rows[0].tree, After(rows, 0, tail) - unread);
  }

  /** The first element has been read, so a cut is behind it. */
  lemma CutLater(rows: seq<Row>, tail: Tail, unread: nat)
    requires rows != [] && unread <= |Body(rows[1..], tail)|
    ensures CutsAt(rows, tail, unread) <==> CutsAt(rows[1..], tail, unread)
  {
    hide Body, BadCut, After;
    FirstPassed(rows, tail, unread);
    if CutsAt(rows, tail, unread) {
      var m :| 0 <= m < |rows| && BadCut(rows[m].tree, After(rows, m, tail) - unread);
      AfterShift(rows, m - 1, tail);
      assert BadCut(rows[1..][m - 1].tree, After(rows[1..], m - 1, tail) - unread);
    }
    if CutsAt(rows[1..], tail, unread) {
      var m :| 0 <= m < |rows| - 1 && BadCut(rows[1..][m].tree, After(rows[1..], m, tail) - unread);
      AfterShift(rows, m, tail);
      assert BadCut(rows[m + 1].tree, After(rows, m + 1, tail) - unread);
    }
  }

  lemma PastEnd(c: Tree, k: int)
    requires k >= |Text(c)|
    ensures !BadCut(c, k)
  {
  }

  lemma AfterFirst(rows: seq<Row>, tail: Tail)
    requires rows != [] && rows[0].sep == ""
    ensures After(rows, 0, tail) == |Body(rows, tail)| == |Text(rows[0].tree)| + |Body(rows[1..], tail)|
  {
    hide Text;
  }

  /** At most the first element has been read, so a cut is inside it. */
  lemma CutHere(rows: seq<Row>, tail: Tail, b: string, unread: string)
    requires rows != [] && rows[0].sep == "" && b + unread == Body(rows, tail) && |b| <= |Text(rows[0].tree)|
    ensures CutsAt(rows, tail, |unread|) <==> BadCut(rows[0].tree, |b|)
  {
    hide Text, Body, After, BadCut;
    AfterFirst(rows, tail);
    assert |b| + |unread| == |b + unread|;
    assert After(rows, 0, tail) - |unread| == |b|;
    forall m | 0 < m < |rows| ensures !BadCut(rows[m].tree, After(rows, m, tail) - |unread|) {
      LaterRows(rows, m, tail);
      Unread(rows[m].tree, After(rows, m, tail) - |unread|);
    }
  }

  lemma Unread(c: Tree, k: int)
    requires k <= 0
    ensures !BadCut(c, k)
  {
  }

  lemma LaterRows(rows: seq<Row>, m: nat, tail: Tail)
    requires 0 < m < |rows|
    ensures After(rows, m, tail) <= |Body(rows[1..], tail)|
  {
    hide Text, Body;
    AfterIn(rows[1..], m - 1, tail);
    assert rows[1..][m..] == rows[m + 1..];
  }

  lemma CleanHead(rows: seq<Row>, tail: Tail, chunks: seq<string>)
    requires chunks != []
    ensures Clean(rows, tail, chunks) <==> !CutsAt(rows, tail, |Flat(chunks)|) && Clean(rows, tail, chunks[1..])
  {
    hide CutsAt, Flat;
    assert chunks[0..] == chunks;
    forall t | 0 <= t < |chunks| - 1 ensures chunks[1..][t..] == chunks[t + 1..] {
    }
    if Clean(rows, tail, chunks[1..]) && !CutsAt(rows, tail, |Flat(chunks)|) {
      forall t | 0 <= t < |chunks| ensures !CutsAt(rows, tail, |Flat(chunks[t..])|) {
        if t > 0 {
          assert chunks[1..][t - 1..] == chunks[t..];
        }
      }
    }
  }

  lemma {:induction false} FlatShrinks(chunks: seq<string>, t: nat)
    requires t <= |chunks|
    ensures |Flat(chunks[t..])| <= |Flat(chunks)|
  {
    if t == 0 {
      assert chunks[0..] == chunks;
    } else {
      FlatHead(chunks);
      FlatShrinks(chunks[1..], t - 1);
      assert chunks[1..][t - 1..] == chunks[t..];
    }
  }

  lemma CleanNext(rows: seq<Row>, tail: Tail, chunks: seq<string>)
    requires rows != [] && |Flat(chunks)| <= |Body(rows[1..], tail)|
    ensures Clean(rows, tail, chunks) <==> Clean(rows[1..], tail, chunks)
  {
    hide CutsAt, Flat, Body;
    forall t | 0 <= t < |chunks|
      ensures CutsAt(rows, tail, |Flat(chunks[t..])|) <==> CutsAt(rows[1..], tail, |Flat(chunks[t..])|)
    {
      FlatShrinks(chunks, t);
      CutLater(rows, tail, |Flat(chunks[t..])|);
    }
  }

  /** Putting another separator in front of the first element changes nothing about the cuts. */
  lemma SameCuts(rows: seq<Row>, sep: string, tail: Tail, chunks: seq<string>)
    requires rows != []
    ensures Clean([Row(sep, rows[0].tree)] + rows[1..], tail, chunks) <==> Clean(rows, tail, chunks)
  {
    hide Flat, Text, Body, BadCut;
    var r := [Row(sep, rows[0].tree)] + rows[1..];
    forall m | 0 <= m < |rows| ensures r[m].tree == rows[m].tree && After(r, m, tail) == After(rows, m, tail) {
      assert r[m + 1..] == rows[m + 1..];
    }
    forall unread: nat ensures CutsAt(r, tail, unread) <==> CutsAt(rows, tail, unread) {
      SameCut(r, rows, tail, unread);
    }
  }

  lemma SameCut(r: seq<Row>, rows: seq<Row>, tail: Tail, unread: nat)
    requires |r| == |rows|
    requires forall m :: 0 <= m < |rows| ==> r[m].tree == rows[m].tree && After(r, m, tail) == After(rows, m, tail)
    ensures CutsAt(r, tail, unread) <==> CutsAt(rows, tail, unread)
  {
    hide After, BadCut;
    if CutsAt(r, tail, unread) {
      var m :| 0 <= m < |r| && BadCut(r[m].tree, After(r, m, tail) - unread);
      assert BadCut(rows[m].tree, After(rows, m, tail) - unread);
    }
    if CutsAt(rows, tail, unread) {
      var m :| 0 <= m < |rows| && BadCut(rows[m].tree, After(rows, m, tail) - unread);
      assert BadCut(r[m].tree, After(r, m, tail) - unread);
    }
  }

  // ---------------------------------------------------------------- the loop

  /** Elements already decoded stay. */
  lemma {:induction false} ItemsKept(chunks: seq<string>, buf: string, items: seq<Json>, limit: int)
    ensures items <= Elements(chunks, buf, items, limit).0
    decreases |chunks|, |buf|
  {
    hide Elements, Trim, ParseValue;
    OneTurn(chunks, buf, items, limit);
    var b := Trim(buf);
    if |items| < limit && (b == "" || b[0] != ']') {
      if b == "" || WantsMore(ParseValue(b), chunks) {
        if chunks != [] {
          ItemsKept(chunks[1..], b + chunks[0], items, limit);
        }
      } else {
        var r := ParseValue(b);
        ItemsKept(chunks, r.rest, items + [r.value], limit);
        assert items <= items + [r.value];
      }
    }
  }

  lemma {:induction false} ClosingRead(chunks: seq<string>, buf: string, items: seq<Json>, limit: int, tail: Tail)
    requires NoneEmpty(chunks) && tail.Closed? && IsSep(tail.sep) && buf + Flat(chunks) == TailText(tail)
    requires |items| < limit
    ensures Elements(chunks, buf, items, limit) == (items, true)
    decreases |chunks|
  {
    hide Trim, ParseValue, IsSep, Flat, WantsMore;
    var x := "]" + tail.junk;
    var sep := TrimBuffer(buf, Flat(chunks), tail.sep, x);
    var b := Trim(buf);
    assert |b + Flat(chunks)| == |sep + x|;
    NothingLeft<char>();
    if b == "" {
      FlatFirst(chunks, b);
      ClosingRead(chunks[1..], b + chunks[0], items, limit, Closed(sep, tail.junk));
    } else {
      assert b[0] == (b + Flat(chunks))[0] == (sep + x)[0] == x[0];
    }
  }

  /** The reader returns the wanted elements exactly when no chunk cuts one of them badly. */
  lemma {:induction false} ElementsRead(chunks: seq<string>, buf: string, items: seq<Json>, limit: int,
                                       rows: seq<Row>, tail: Tail)
    requires NoneEmpty(chunks) && buf + Flat(chunks) == Body(rows, tail)
    requires RowsOk(rows) && TailOk(rows, tail, limit - |items|)
    ensures Elements(chunks, buf, items, limit) == (items + RowValues(rows), true) <==> Clean(rows, tail, chunks)
    decreases |chunks|, |buf|, 2
  {
    hide Elements, Trim, ParseValue, IsSep, Flat, Text, Value, WellFormed, WantsMore, Clean;
    OneTurn(chunks, buf, items, limit);
    if rows == [] {
      assert items + RowValues(rows) == items;
      NoRowsClean(tail, chunks);
      if |items| < limit {
        ClosingRead(chunks, buf, items, limit, tail);
      }
    } else {
      var c, y := rows[0].tree, Body(rows[1..], tail);
      TextHead(c);
      var sep := TrimBuffer(buf, Flat(chunks), rows[0].sep, Text(c) + y);
      WithSep(rows, sep, tail, limit - |items|);
      SameCuts(rows, sep, tail, chunks);
      ElementRead(chunks, Trim(buf), items, limit, [Row(sep, c)] + rows[1..], tail);
    }
  }

  lemma NoRowsClean(tail: Tail, chunks: seq<string>)
    ensures Clean([], tail, chunks)
  {
  }

  /** The buffer after trimming: either more of the separator or some of the element is next. */
  lemma {:induction false} ElementRead(chunks: seq<string>, b: string, items: seq<Json>, limit: int,
                                      rows: seq<Row>, tail: Tail)
    requires NoneEmpty(chunks) && b + Flat(chunks) == Body(rows, tail) && |items| < limit
    requires RowsOk(rows) && TailOk(rows, tail, limit - |items|)
    requires rows != [] && (b == "" || rows[0].sep == "")
    ensures b == "" || b[0] != ']'
    ensures var r := ParseValue(b);
            var result := (items + RowValues(rows), true);
            var clean := Clean(rows, tail, chunks);
            if b == "" || WantsMore(r, chunks) then
              chunks != [] && (Elements(chunks[1..], b + chunks[0], items, limit) == result <==> clean)
            else (Elements(chunks, r.rest, items + [r.value], limit) == result <==> clean)
    decreases |chunks|, |b|, 1
  {
    hide Elements, ParseValue, IsSep, Flat, Text, Value, WellFormed, RowsOk, TailOk, Clean, CutsAt, BadCut;
    var c, y := rows[0].tree, Body(rows[1..], tail);
    FirstRow(rows, tail, limit - |items|);
    NothingLeft<char>();
    assert |b + Flat(chunks)| == |rows[0].sep + (Text(c) + y)|;
    if b == "" {
      NotYet(rows, tail, |Flat(chunks)|);
      MoreRead(chunks, b, items, limit, rows, tail);
    } else {
      assert b + Flat(chunks) == Text(c) + y;
      assert b[0] == (b + Flat(chunks))[0] == Text(c)[0];
      BufferValue(c, b, Flat(chunks), y);
      var r := ParseValue(b);
      if |b| <= |Text(c)| {
        CutHere(rows, tail, b, Flat(chunks));
        PastEnd(c, |Text(c)|);
      }
      if WantsMore(r, chunks) {
        MoreRead(chunks, b, items, limit, rows, tail);
      } else if |b| < |Text(c)| {
        CleanHead(rows, tail, chunks);
        WrongItem(chunks, r.rest, items, limit, r.value, rows);
      } else {
        ElementsRead(chunks, r.rest, items + [Value(c)], limit, rows[1..], tail);
        CleanNext(rows, tail, chunks);
        assert items + [Value(c)] + RowValues(rows[1..]) == items + ([Value(c)] + RowValues(rows[1..]));
      }
    }
  }

  /** A wrong element is never put right. */
  lemma WrongItem(chunks: seq<string>, buf: string, items: seq<Json>, limit: int, v: Json, rows: seq<Row>)
    requires rows != [] && v != Value(rows[0].tree)
    ensures Elements(chunks, buf, items + [v], limit) != (items + RowValues(rows), true)
  {
    hide Elements, Value;
    ItemsKept(chunks, buf, items + [v], limit);
    assert (items + RowValues(rows))[|items|] == Value(rows[0].tree);
    assert (items + [v])[|items|] == v;
  }

  lemma FirstRow(rows: seq<Row>, tail: Tail, wanted: int)
    requires rows != [] && RowsOk(rows) && TailOk(rows, tail, wanted)
    ensures var c := rows[0].tree;
            WellFormed(c) && Text(c) != "" && Text(c)[0] != ']' && Ends(Body(rows[1..], tail))
            && RowsOk(rows[1..]) && TailOk(rows[1..], tail, wanted - 1)
  {
    hide IsSep, WellFormed, Text, Body;
    TextHead(rows[0].tree);
    RestEnds(rows[1..], tail, wanted - 1);
  }

  lemma {:induction false} MoreRead(chunks: seq<string>, b: string, items: seq<Json>, limit: int,
                                    rows: seq<Row>, tail: Tail)
    requires NoneEmpty(chunks) && b + Flat(chunks) == Body(rows, tail)
    requires RowsOk(rows) && TailOk(rows, tail, limit - |items|) && |items| < limit
    requires chunks != [] && !CutsAt(rows, tail, |Flat(chunks)|)
    ensures Elements(chunks[1..], b + chunks[0], items, limit) == (items + RowValues(rows), true) <==>
            Clean(rows, tail, chunks)
    decreases |chunks| - 1, |b + chunks[0]|, 3
  {
    hide Elements, Body, RowsOk, TailOk, RowValues, Clean, CutsAt;
    FlatFirst(chunks, b);
    CleanHead(rows, tail, chunks);
    ElementsRead(chunks[1..], b + chunks[0], items, limit, rows, tail);
  }

  // ---------------------------------------------------------------- whole files

  /** Opening the array: white space in front of the bracket is passed over. */
  lemma {:induction false} OpenRead(chunks: seq<string>, buf: string, limit: int, lead: string, rows: seq<Row>,
                                   tail: Tail)
    returns (rest: seq<string>, b: string)
    requires NoneEmpty(chunks) && Blank(lead) && buf + Flat(chunks) == lead + ("[" + Body(rows, tail))
    ensures NoneEmpty(rest) && b + Flat(rest) == Body(rows, tail)
    ensures Start(chunks, buf, limit) == Elements(rest, b, [], limit)
    ensures Clean(rows, tail, rest) <==> Clean(rows, tail, chunks)
    decreases |chunks|
  {
    hide LStrip, Elements, Clean, CutsAt, Body;
    NothingLeft<char>();
    var y := "[" + Body(rows, tail);
    Prefixes(buf, Flat(chunks), lead, y);
    if |buf| <= |lead| {
      LStripOf(buf, "");
      assert buf + "" == buf;
      assert |buf + Flat(chunks)| == |lead + y|;
      NotYet(rows, tail, |Flat(chunks)|);
      CleanHead(rows, tail, chunks);
      FlatFirst(chunks, "");
      assert Flat(chunks) == lead[|buf|..] + y && "" + Flat(chunks) == Flat(chunks) && "" + chunks[0] == chunks[0];
      rest, b := OpenRead(chunks[1..], chunks[0], limit, lead[|buf|..], rows, tail);
    } else {
      var q := buf[|lead|..];
      assert q[0] == (q + Flat(chunks))[0] == y[0];
      LStripOf(lead, q);
      assert q[1..] + Flat(chunks) == y[1..] == Body(rows, tail);
      rest, b := chunks, q[1..];
    }
  }

  /** A file that opens an array and is right up to the end of the last of the first `limit` elements. */
  ghost predicate IsFile(text: string, lead: string, rows: seq<Row>, tail: Tail, limit: int) {
    text == lead + ("[" + Body(rows, tail)) && Blank(lead) && RowsOk(rows) && TailOk(rows, tail, limit)
  }

  /** Exactly when the streaming reader is right: when no chunk but the last ends inside a wanted float right behind its
  point, its exponent mark or the sign of its exponent. */
  lemma ReadRight(chunks: seq<string>, lead: string, rows: seq<Row>, tail: Tail, limit: nat)
    requires NoneEmpty(chunks) && IsFile(Flat(chunks), lead, rows, tail, limit)
    ensures Read(chunks, limit) == (RowValues(rows), true) <==> Clean(rows, tail, chunks)
  {
    hide Body, Elements, RowsOk, Start, Clean;
    if limit > 0 {
      assert "" + Flat(chunks) == Flat(chunks);
      var rest, b := OpenRead(chunks, "", limit, lead, rows, tail);
      ElementsRead(rest, b, [], limit, rows, tail);
      assert [] + RowValues(rows) == RowValues(rows);
    } else {
      assert rows == [];
      NoRowsClean(tail, chunks);
    }
  }

  /** Chunk independence: without floats, every way of cutting the file gives the wanted elements, whatever follows
  them. */
  lemma ChunkIndependence(chunks: seq<string>, lead: string, rows: seq<Row>, tail: Tail, limit: nat)
    requires NoneEmpty(chunks) && IsFile(Flat(chunks), lead, rows, tail, limit) && NoFloats(rows)
    ensures Read(chunks, limit) == (RowValues(rows), true)
  {
    hide IsFile, Read, After, Flat, RowValues;
    ReadRight(chunks, lead, rows, tail, limit);
  }

  // ---------------------------------------------------------------- blocks of one size

  /** Where in the file the element at row `m` starts. */
  function Position(text: string, rows: seq<Row>, m: nat, tail: Tail): int
    requires m < |rows|
  {
    |text| - After(rows, m, tail)
  }

  /** Block `t` starts at `t * n`. */
  lemma {:induction false} BlockStart(text: string, n: nat, t: nat)
    requires n > 0
    ensures t < |Pieces(text, n)| <==> t * n < |text|
    ensures t < |Pieces(text, n)| ==> |Flat(Pieces(text, n)[t..])| == |text| - t * n
    decreases t
  {
    hide Flat;
    if t == 0 {
      PiecesFlat(text, n);
      assert Pieces(text, n)[0..] == Pieces(text, n);
    } else {
      MulNext(t - 1, n);
      MulMono(0, t - 1, n);
      if |text| > n {
        FirstPiece(text, n);
        BlockStart(text[n..], n, t - 1);
        assert t - 1 < |Pieces(text[n..], n)| ==> Pieces(text, n)[1..][t - 1..] == Pieces(text, n)[t..];
      }
    }
  }

  /** Exactly when the streaming reader is right with blocks of `n` characters, as the positions of the wanted elements
  in the file tell: no bad cut of a float is at a multiple of `n`. */
  lemma RightAtBlockSize(text: string, lead: string, rows: seq<Row>, tail: Tail, limit: nat, n: nat)
    requires IsFile(text, lead, rows, tail, limit) && n > 0
    ensures Read(Pieces(text, n), limit) == (RowValues(rows), true) <==>
            forall m, k :: 0 <= m < |rows| && BadCut(rows[m].tree, k) ==> (Position(text, rows, m, tail) + k) % n != 0
  {
    hide Read, IsFile, RowValues, Body, Pieces, Flat, BadCut, After;
    var pieces := Pieces(text, n);
    PiecesFlat(text, n);
    ReadRight(pieces, lead, rows, tail, limit);
    forall m, k | 0 <= m < |rows| && BadCut(rows[m].tree, k) && (Position(text, rows, m, tail) + k) % n == 0
      ensures !Clean(rows, tail, pieces)
    {
      CutAtMultiple(text, lead, rows, tail, limit, n, m, k);
    }
    if !Clean(rows, tail, pieces) {
      var t :| 0 <= t < |pieces| && CutsAt(rows, tail, |Flat(pieces[t..])|);
      var m :| 0 <= m < |rows| && BadCut(rows[m].tree, After(rows, m, tail) - |Flat(pieces[t..])|);
      BlockStart(text, n, t);
      var k := After(rows, m, tail) - |Flat(pieces[t..])|;
      assert Position(text, rows, m, tail) + k == t * n;
      MultipleMod(t, n);
      assert BadCut(rows[m].tree, k);
    }
  }

  lemma MultipleMod(t: int, n: nat)
    requires n > 0
    ensures t * n % n == 0
  {
    DivUnique(t * n, n, t, 0);
  }

  lemma Multiple(p: int, n: nat) returns (t: int)
    requires n > 0 && p % n == 0
    ensures p == t * n && (p >= 0 ==> t >= 0)
  {
    t := p / n;
  }

  lemma CutAtMultiple(text: string, lead: string, rows: seq<Row>, tail: Tail, limit: nat, n: nat, m: nat, k: int)
    requires IsFile(text, lead, rows, tail, limit) && n > 0
    requires m < |rows| && BadCut(rows[m].tree, k) && (Position(text, rows, m, tail) + k) % n == 0
    ensures !Clean(rows, tail, Pieces(text, n))
  {
    hide RowsOk, RowValues, Pieces, Flat, After, Body;
    InsideFile(text, lead, rows, tail, limit, m, k);
    var p := Position(text, rows, m, tail) + k;
    hide BadCut;
    var t := Multiple(p, n);
    BlockStart(text, n, t);
    assert After(rows, m, tail) - |Flat(Pieces(text, n)[t..])| == k;
    assert CutsAt(rows, tail, |Flat(Pieces(text, n)[t..])|);
  }

  lemma InsideFile(text: string, lead: string, rows: seq<Row>, tail: Tail, limit: nat, m: nat, k: int)
    requires IsFile(text, lead, rows, tail, limit) && m < |rows| && BadCut(rows[m].tree, k)
    ensures 0 < Position(text, rows, m, tail) + k < |text|
  {
    hide RowsOk, Text, Body;
    AfterIn(rows, m, tail);
  }

  lemma FirstPiece(text: string, n: nat)
    requires 0 < n <= |text|
    ensures var p := Pieces(text, n); p != [] && p[0] == text[..n] && p[1..] == Pieces(text[n..], n)
  {
  }

  /** Right behind its first mark, every float can be cut badly. */
  lemma FirstMark(c: Tree) returns (k: nat)
    requires WellFormed(c) && IsFloat(c)
    ensures BadCut(c, k)
  {
    var whole := (if c.minus then "-" else "") + c.digits;
    var f, e := FracText(c.frac), ExpText(c.exp);
    assert Text(c) == whole + (f + e);
    k := |whole| + 1;
    assert Text(c)[k - 1] == (f + e)[0];
  }

  /** The streaming reader is right at every block size exactly when none of the wanted elements is a float. */
  lemma RightAtEveryBlockSize(text: string, lead: string, rows: seq<Row>, tail: Tail, limit: nat)
    requires IsFile(text, lead, rows, tail, limit)
    ensures NoFloats(rows) <==>
            forall n: nat :: n > 0 ==> Read(Pieces(text, n), limit) == (RowValues(rows), true)
  {
    hide IsFile, Read, RowValues, IsFloat;
    if NoFloats(rows) {
      forall n: nat | n > 0 ensures Read(Pieces(text, n), limit) == (RowValues(rows), true) {
        PiecesFlat(text, n);
        ChunkIndependence(Pieces(text, n), lead, rows, tail, limit);
      }
    } else {
      var m :| 0 <= m < |rows| && IsFloat(rows[m].tree);
      FloatTrap(text, lead, rows, tail, limit, m);
    }
  }

  lemma FloatTrap(text: string, lead: string, rows: seq<Row>, tail: Tail, limit: nat, m: nat)
    requires IsFile(text, lead, rows, tail, limit) && m < |rows| && IsFloat(rows[m].tree)
    ensures exists n: nat :: n > 0 && Read(Pieces(text, n), limit) != (RowValues(rows), true)
  {
    hide Read, RowValues, IsFloat, WellFormed, Text, IsSep;
    var k := FirstMark(rows[m].tree);
    AfterIn(rows, m, tail);
    var n := Position(text, rows, m, tail) + k;
    assert n > 0;
    assert n % n == 0;
    RightAtBlockSize(text, lead, rows, tail, limit, n);
  }

  lemma {:induction false} FloatValue(rows: seq<Row>, m: nat)
    requires m < |rows|
    ensures |RowValues(rows)| == |rows| && RowValues(rows)[m] == Value(rows[m].tree)
  {
    hide Value;
    if |rows| > 1 {
      FloatValue(rows[1..], if m == 0 then 0 else m - 1);
    }
  }

  lemma FloatIsFloat(c: Tree)
    requires IsFloat(c)
    ensures Value(c).JFloat?
  {
  }

  // ---------------------------------------------------------------- against the whole-text decoder

  /** The elements of an array, each with what stands in front of it. */
  function RowsOf(lead: string, i: Items): seq<Row>
    decreases i
  {
    [Row(lead + i.pre, i.value)] + match i.more case LastItem => [] case NextItem(items) => RowsOf(i.post + ",", items)
  }

  function LastPost(i: Items): string {
    match i.more case LastItem => i.post case NextItem(items) => LastPost(items)
  }

  lemma WsIsSep(a: string, comma: string, b: string)
    requires AllWs(a) && AllWs(b) && (comma == "" || comma == ",")
    ensures IsSep(a + comma + b)
  {
    assert SepAt(a + comma + b, |a|, |a| + |comma|);
  }

  lemma {:induction false} RowsOfItems(before: string, comma: string, i: Items, junk: string)
    requires ItemsOk(i) && AllWs(before) && (comma == "" || comma == ",")
    ensures var rows := RowsOf(before + comma, i);
            Body(rows, Closed(LastPost(i), junk)) == (before + comma) + (ItemsText(i) + junk)
            && rows != [] && RowsOk(rows) && RowValues(rows) == Values(i) && IsSep(LastPost(i))
    decreases i
  {
    hide IsSep, WellFormed, Text, Value;
    var lead := before + comma;
    WsIsSep(before, comma, i.pre);
    match i.more {
      case LastItem =>
        WsIsSep(i.post, "", "");
        assert i.post + "" + "" == i.post;
        OneRow(lead, i, [], Closed(i.post, junk), i.post + "]", junk);
      case NextItem(items) =>
        RowsOfItems(i.post, ",", items, junk);
        assert i.post + ("," + ItemsText(items)) == i.post + "," + ItemsText(items);
        OneRow(lead, i, RowsOf(i.post + ",", items), Closed(LastPost(i), junk), i.post + ("," + ItemsText(items)),
               junk);
    }
  }

  lemma OneRow(lead: string, i: Items, more: seq<Row>, tail: Tail, post: string, junk: string)
    requires Body(more, tail) == post + junk
    ensures var rows := [Row(lead + i.pre, i.value)] + more;
            Body(rows, tail) == lead + ((i.pre + (Text(i.value) + post)) + junk)
            && RowValues(rows) == [Value(i.value)] + RowValues(more)
  {
    hide Text, Value;
    var rows := [Row(lead + i.pre, i.value)] + more;
    assert rows[1..] == more;
    Reassociate(lead, i.pre, Text(i.value), post, junk, Body(more, tail));
  }

  lemma Reassociate(lead: string, pre: string, t: string, post: string, junk: string, tail: string)
    requires post + junk == tail
    ensures (lead + pre) + (t + tail) == lead + ((pre + (t + post)) + junk)
  {
  }

  /** What is left of an array after its first `k` elements. */
  lemma {:induction false} FirstRows(rows: seq<Row>, tail: Tail, k: nat)
    requires RowsOk(rows) && tail.Closed? && IsSep(tail.sep) && k <= |rows|
    ensures k < |rows| ==> Body(rows, tail) == Body(rows[..k], Loose(Body(rows[k..], tail)))
    ensures RowsOk(rows[..k]) && RowValues(rows[..k]) == Take(RowValues(rows), k)
    decreases k
  {
    hide IsSep, WellFormed, Text, Value;
    if k == 0 {
      assert rows[..0] == [] && rows[0..] == rows;
    } else {
      FirstRows(rows[1..], tail, k - 1);
      assert rows[1..][k - 1..] == rows[k..];
      assert rows[..k][1..] == rows[1..][..k - 1];
      FloatValue(rows, 0);
    }
  }

  /** The streaming reader refines the whole-text decoder: of an array that the decoder takes it gives the first `limit`
  elements. */
  lemma RefinesDecoder(chunks: seq<string>, lead: string, s: string, items: seq<Json>, junk: string, limit: nat)
    requires NoneEmpty(chunks) && Blank(lead) && Flat(chunks) == lead + s && ParseValue(s) == Got(JArr(items), junk)
    requires forall v :: v in Take(items, limit) ==> !v.JFloat?
    ensures Read(chunks, limit) == (Take(items, limit), true)
  {
    hide ParseValue, Text, Read;
    var c := ValueSound(s);
    assert c.Array? || c.EmptyArray?;
    hide WellFormed;
    var rows, tail := ArrayRows(c, junk);
    FirstRowsRead(chunks, lead, rows, tail, limit);
  }

  lemma ArrayRows(c: Tree, junk: string) returns (rows: seq<Row>, tail: Tail)
    requires WellFormed(c) && (c.Array? || c.EmptyArray?)
    ensures tail.Closed? && RowsOk(rows) && IsSep(tail.sep) && RowValues(rows) == Value(c).items
    ensures Text(c) + junk == "[" + Body(rows, tail)
  {
    hide IsSep, RowsOf, RowsOk, RowValues, Body;
    if c.EmptyArray? {
      WsIsSep(c.ws, "", "");
      assert c.ws + "" + "" == c.ws;
      rows, tail := [], Closed(c.ws, junk);
      EmptyBody(tail);
    } else {
      RowsOfItems("", "", c.items, junk);
      assert "" + "" == "";
      rows, tail := RowsOf("", c.items), Closed(LastPost(c.items), junk);
      assert "" + (ItemsText(c.items) + junk) == ItemsText(c.items) + junk;
    }
  }

  lemma EmptyBody(tail: Tail)
    ensures Body([], tail) == TailText(tail) && RowsOk([]) && RowValues([]) == []
  {
  }

  lemma FirstRowsRead(chunks: seq<string>, lead: string, rows: seq<Row>, tail: Tail, limit: nat)
    requires NoneEmpty(chunks) && Blank(lead) && Flat(chunks) == lead + ("[" + Body(rows, tail))
    requires RowsOk(rows) && tail.Closed? && IsSep(tail.sep)
    requires forall v :: v in Take(RowValues(rows), limit) ==> !v.JFloat?
    ensures Read(chunks, limit) == (Take(RowValues(rows), limit), true)
  {
    hide Body, Read, IsSep, WellFormed, Value, RowValues;
    var k := Min(limit, |rows|);
    var wanted := rows[..k];
    FirstRows(rows, tail, k);
    AllValues(rows);
    AllValues(wanted);
    assert NoFloats(wanted);
    if limit == 0 {
      ReadNothing(chunks);
    } else if limit < |rows| {
      RestEnds(rows[k..], tail, |rows|);
      ChunkIndependence(chunks, lead, wanted, Loose(Body(rows[k..], tail)), limit);
    } else {
      assert wanted == rows;
      ChunkIndependence(chunks, lead, rows, tail, limit);
    }
  }

  lemma ReadNothing(chunks: seq<string>)
    ensures Read(chunks, 0) == ([], true)
  {
  }

  lemma AllValues(rows: seq<Row>)
    ensures |RowValues(rows)| == |rows|
    ensures (forall v :: v in RowValues(rows) ==> !v.JFloat?) ==> NoFloats(rows)
  {
    hide RowValues, Value;
    if rows == [] {
      EmptyBody(Loose(""));
    } else {
      FloatValue(rows, 0);
    }
    forall i | 0 <= i < |rows| && IsFloat(rows[i].tree) ensures exists v :: v in RowValues(rows) && v.JFloat? {
      FloatValue(rows, i);
      FloatIsFloat(rows[i].tree);
      assert RowValues(rows)[i] in RowValues(rows);
    }
  }
}
