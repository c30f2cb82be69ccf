/** JSON text (RFC 8259, with the constants NaN, Infinity and -Infinity that the decoder also takes) and the decoder of
one value from the front of a text. Numbers and strings are kept as they are written. */
module Json {
  import opened Py
  import opened Protocol

  datatype Json =
    | JNull | JTrue | JFalse | JNaN | JInfinity | JMinusInfinity
    | JInt(text: string)
    | JFloat(text: string)
    | JStr(body: string)
    | JArr(items: seq<Json>)
    | JObj(members: seq<(string, Json)>)

  // ---------------------------------------------------------------- the decoder

  datatype Parsed<T> = Fail | Got(value: T, rest: string)

  predicate IsWs(c: char) { c == ' ' || c == '\t' || c == '\n' || c == '\r' }

  predicate AllWs(s: string) { forall i :: 0 <= i < |s| ==> IsWs(s[i]) }

  function SkipWs(s: string): (r: string)
    ensures |r| <= |s|
  {
    if s != "" && IsWs(s[0]) then SkipWs(s[1..]) else s
  }

  predicate IsHex(c: char) { IsDigit(c) || 'a' <= c <= 'f' || 'A' <= c <= 'F' }

  predicate IsEscape(c: char) {
    c == '"' || c == '\\' || c == '/' || c == 'b' || c == 'f' || c == 'n' || c == 'r' || c == 't'
  }

  /** How many characters the first unit of a string body takes: one, an escape, or none if it cannot go on. */
  function UnitLength(s: string): (n: nat)
    ensures n <= |s|
  {
    if s == "" || s[0] == '"' || (s[0] as int) < 32 then 0
    else if s[0] != '\\' then 1
    else if |s| >= 2 && IsEscape(s[1]) then 2
    else if |s| >= 6 && s[1] == 'u' && IsHex(s[2]) && IsHex(s[3]) && IsHex(s[4]) && IsHex(s[5]) then 6
    else 0
  }

  /** The body of a string up to its closing quote, and what follows the quote. */
  function ScanString(s: string): (r: Parsed<string>)
    ensures r.Got? ==> |r.rest| < |s|
    decreases |s|
  {
    if s == "" then Fail
    else if s[0] == '"' then Got("", s[1..])
    else
      var n := UnitLength(s);
      if n == 0 then Fail
      else
        match ScanString(s[n..])
        case Fail => Fail
        case Got(body, rest) => Got(s[..n] + body, rest)
  }

  function FracLength(s: string): (n: nat)
    ensures n <= |s|
  {
    if |s| >= 2 && s[0] == '.' && IsDigit(s[1]) then 1 + DigitRun(s[1..]) else 0
  }

  predicate IsExpMark(c: char) { c == 'e' || c == 'E' }

  function SignLength(s: string): (n: nat)
    ensures n <= |s|
  {
    if s != "" && (s[0] == '+' || s[0] == '-') then 1 else 0
  }

  function ExpLength(s: string): (n: nat)
    ensures n <= |s|
  {
    if s == "" || !IsExpMark(s[0]) then 0
    else
      var sign := SignLength(s[1..]);
      var d := DigitRun(s[1..][sign..]);
      if d == 0 then 0 else 1 + sign + d
  }

  function IntLength(t: string): (n: nat)
    ensures n <= |t|
  {
    if t != "" && t[0] == '0' then 1 else DigitRun(t)
  }

  /** The fraction and exponent at the front of a text, and what follows them. */
  function NumberTail(s: string): (r: (string, string))
    ensures |r.1| <= |s|
  {
    var m := FracLength(s);
    var k := ExpLength(s[m..]);
    (s[..m] + s[m..][..k], s[m..][k..])
  }

  /** The text of an unsigned number, and whether it has a fraction or an exponent. */
  function ParseUnsigned(s: string): (r: Parsed<(string, bool)>)
    ensures r.Got? ==> |r.rest| < |s|
  {
    var n := IntLength(s);
    if n == 0 then Fail
    else
      var (tail, rest) := NumberTail(s[n..]);
      Got((s[..n] + tail, tail != ""), rest)
  }

  function ParseNumber(s: string): (r: Parsed<Json>)
    ensures r.Got? ==> |r.rest| < |s|
  {
    var sign := if s != "" && s[0] == '-' then "-" else "";
    match ParseUnsigned(s[|sign|..])
    case Fail => Fail
    case Got((text, isFloat), rest) => Got(if isFloat then JFloat(sign + text) else JInt(sign + text), rest)
  }

  function ParseLiteral(s: string, word: string, v: Json): (r: Parsed<Json>)
    requires word != ""
    ensures r.Got? ==> |r.rest| < |s|
  {
    if word <= s then Got(v, s[|word|..]) else Fail
  }

  /** `raw_decode`: the value at the very front of the text, and the text after it. */
  function ParseValue(s: string): (r: Parsed<Json>)
    ensures r.Got? ==> |r.rest| < |s|
    decreases |s|, 1
  {
    if s == "" then Fail
    else if s[0] == '"' then
      match ScanString(s[1..])
      case Fail => Fail
      case Got(body, rest) => Got(JStr(body), rest)
    else if s[0] == '[' then
      var t := SkipWs(s[1..]);
      if t != "" && t[0] == ']' then Got(JArr([]), t[1..])
      else
        match ParseItems(t)
        case Fail => Fail
        case Got(items, rest) => Got(JArr(items), rest)
    else if s[0] == '{' then
      var t := SkipWs(s[1..]);
      if t != "" && t[0] == '}' then Got(JObj([]), t[1..])
      else
        match ParseMembers(t)
        case Fail => Fail
        case Got(members, rest) => Got(JObj(members), rest)
    else if s[0] == 'n' then ParseLiteral(s, "null", JNull)
    else if s[0] == 't' then ParseLiteral(s, "true", JTrue)
    else if s[0] == 'f' then ParseLiteral(s, "false", JFalse)
    else if s[0] == 'N' then ParseLiteral(s, "NaN", JNaN)
    else if s[0] == 'I' then ParseLiteral(s, "Infinity", JInfinity)
    else if "-Infinity" <= s then Got(JMinusInfinity, s[9..])
    else ParseNumber(s)
  }

  function ParseItems(s: string): (r: Parsed<seq<Json>>)
    ensures r.Got? ==> |r.rest| < |s|
    decreases |s|, 2
  {
    match ParseValue(s)
    case Fail => Fail
    case Got(v, afterValue) =>
      var t := SkipWs(afterValue);
      if t == "" then Fail
      else if t[0] == ']' then Got([v], t[1..])
      else if t[0] != ',' then Fail
      else
        match ParseItems(SkipWs(t[1..]))
        case Fail => Fail
        case Got(more, rest) => Got([v] + more, rest)
  }

  function ParseMember(s: string): (r: Parsed<(string, Json)>)
    ensures r.Got? ==> |r.rest| < |s|
    decreases |s|, 2
  {
    if s == "" || s[0] != '"' then Fail
    else
      match ScanString(s[1..])
      case Fail => Fail
      case Got(key, afterKey) =>
        var colon := SkipWs(afterKey);
        if colon == "" || colon[0] != ':' then Fail
        else
          match ParseValue(SkipWs(colon[1..]))
          case Fail => Fail
          case Got(v, rest) => Got((key, v), rest)
  }

  function ParseMembers(s: string): (r: Parsed<seq<(string, Json)>>)
    ensures r.Got? ==> |r.rest| < |s|
    decreases |s|, 3
  {
    match ParseMember(s)
    case Fail => Fail
    case Got(member, afterMember) =>
      var t := SkipWs(afterMember);
      if t == "" then Fail
      else if t[0] == '}' then Got([member], t[1..])
      else if t[0] != ',' then Fail
      else
        match ParseMembers(SkipWs(t[1..]))
        case Fail => Fail
        case Got(more, rest) => Got([member] + more, rest)
  }

  // ---------------------------------------------------------------- the grammar

  datatype Exponent = Exponent(mark: char, sign: string, digits: string)

  /** A unit of a string (RFC 8259, section 7): a plain character, a two-character escape or a four-digit code. */
  datatype Unit = Plain(c: char) | Escape(c: char) | Code(hex: string)

  /** A JSON text by its grammar, with every piece of insignificant space. */
  datatype Tree =
    | Literal(word: string, meaning: Json)
    | Number(minus: bool, digits: string, frac: Option<string>, exp: Option<Exponent>)
    | Str(units: seq<Unit>)
    | EmptyArray(ws: string)
    | Array(items: Items)
    | EmptyObject(ws: string)
    | Object(members: Members)

  datatype Items = Item(pre: string, value: Tree, post: string, more: MoreItems)

  datatype MoreItems = LastItem | NextItem(items: Items)

  datatype Members = Member(pre: string, key: seq<Unit>, beforeColon: string, afterColon: string, value: Tree,
                            post: string, more: MoreMembers)

  datatype MoreMembers = LastMember | NextMember(members: Members)

  function UnitText(u: Unit): (t: string)
    ensures t != ""
  {
    match u case Plain(c) => [c] case Escape(c) => ['\\', c] case Code(hex) => ['\\', 'u'] + hex
  }

  function UnitsText(units: seq<Unit>): string {
    if units == [] then "" else UnitText(units[0]) + UnitsText(units[1..])
  }

  function FracText(f: Option<string>): string { match f case None => "" case Some(d) => "." + d }

  function ExpText(e: Option<Exponent>): string { match e case None => "" case Some(x) => [x.mark] + x.sign + x.digits }

  function NumberText(minus: bool, digits: string, frac: Option<string>, exp: Option<Exponent>): string {
    (if minus then "-" else "") + (digits + (FracText(frac) + ExpText(exp)))
  }

  function Text(c: Tree): string {
    match c
    case Literal(word, _) => word
    case Number(minus, digits, frac, exp) => NumberText(minus, digits, frac, exp)
    case Str(units) => "\"" + UnitsText(units) + "\""
    case EmptyArray(ws) => "[" + ws + "]"
    case Array(items) => "[" + ItemsText(items)
    case EmptyObject(ws) => "{" + ws + "}"
    case Object(members) => "{" + MembersText(members)
  }

  function ItemsText(i: Items): string { i.pre + (Text(i.value) + (i.post + MoreItemsText(i.more))) }

  function MoreItemsText(m: MoreItems): string {
    match m case LastItem => "]" case NextItem(items) => "," + ItemsText(items)
  }

  function MemberHead(key: string, beforeColon: string, afterColon: string): string {
    "\"" + (key + ("\"" + (beforeColon + (":" + afterColon))))
  }

  function MembersText(m: Members): string {
    m.pre + (MemberHead(UnitsText(m.key), m.beforeColon, m.afterColon)
             + (Text(m.value) + (m.post + MoreMembersText(m.more))))
  }

  function MoreMembersText(m: MoreMembers): string {
    match m case LastMember => "}" case NextMember(members) => "," + MembersText(members)
  }

  function Value(c: Tree): Json {
    match c
    case Literal(_, meaning) => meaning
    case Number(minus, digits, frac, exp) =>
      var text := NumberText(minus, digits, frac, exp);
      if frac.None? && exp.None? then JInt(text) else JFloat(text)
    case Str(units) => JStr(UnitsText(units))
    case EmptyArray(_) => JArr([])
    case Array(items) => JArr(Values(items))
    case EmptyObject(_) => JObj([])
    case Object(members) => JObj(MemberValues(members))
  }

  function Values(i: Items): (r: seq<Json>)
    ensures r != []
  {
    [Value(i.value)] + match i.more case LastItem => [] case NextItem(items) => Values(items)
  }

  function MemberValues(m: Members): seq<(string, Json)> {
    [(UnitsText(m.key), Value(m.value))]
    + match m.more case LastMember => [] case NextMember(members) => MemberValues(members)
  }

  predicate UnitOk(u: Unit) {
    match u
    case Plain(c) => c >= ' ' && c != '"' && c != '\\'
    case Escape(c) => c in "\"\\/bfnrt"
    case Code(hex) => |hex| == 4 && forall i :: 0 <= i < 4 ==> hex[i] in "0123456789abcdefABCDEF"
  }

  predicate StringOk(units: seq<Unit>) { forall i :: 0 <= i < |units| ==> UnitOk(units[i]) }

  predicate IntOk(s: string) { s != "" && AllDigits(s) && (s[0] == '0' ==> |s| == 1) }

  predicate DigitsOk(s: string) { s != "" && AllDigits(s) }

  predicate ExpOk(e: Exponent) {
    IsExpMark(e.mark) && (e.sign == "" || e.sign == "+" || e.sign == "-") && DigitsOk(e.digits)
  }

  predicate IsLiteral(word: string, meaning: Json) {
    || (word == "null" && meaning == JNull)
    || (word == "true" && meaning == JTrue)
    || (word == "false" && meaning == JFalse)
    || (word == "NaN" && meaning == JNaN)
    || (word == "Infinity" && meaning == JInfinity)
    || (word == "-Infinity" && meaning == JMinusInfinity)
  }

  predicate WellFormed(c: Tree) {
    match c
    case Literal(word, meaning) => IsLiteral(word, meaning)
    case Number(_, digits, frac, exp) =>
      IntOk(digits) && (frac.Some? ==> DigitsOk(frac.value)) && (exp.Some? ==> ExpOk(exp.value))
    case Str(units) => StringOk(units)
    case EmptyArray(ws) => AllWs(ws)
    case Array(items) => ItemsOk(items)
    case EmptyObject(ws) => AllWs(ws)
    case Object(members) => MembersOk(members)
  }

  predicate ItemsOk(i: Items) {
    AllWs(i.pre) && WellFormed(i.value) && AllWs(i.post)
    && (match i.more case LastItem => true case NextItem(n) => ItemsOk(n))
  }

  predicate MembersOk(m: Members) {
    AllWs(m.pre) && StringOk(m.key) && AllWs(m.beforeColon) && AllWs(m.afterColon) && WellFormed(m.value)
    && AllWs(m.post) && (match m.more case LastMember => true case NextMember(n) => MembersOk(n))
  }

  predicate IsFloat(c: Tree) { c.Number? && (c.frac.Some? || c.exp.Some?) }

  // ---------------------------------------------------------------- whole texts are decoded

  /** What may stand right after a value. */
  predicate IsDelimiter(c: char) { IsSpace(c) || c == ',' || c == ']' || c == '}' }

  predicate Ends(rest: string) { rest == "" || IsDelimiter(rest[0]) }

  lemma {:induction false} SkipsWs(w: string, rest: string)
    requires AllWs(w) && (rest == "" || !IsWs(rest[0]))
    ensures SkipWs(w + rest) == rest
  {
    if w == "" {
      assert w + rest == rest;
    } else {
      assert (w + rest)[1..] == w[1..] + rest;
      SkipsWs(w[1..], rest);
    }
  }

  /** A value starts with a visible character that is neither a comma nor a closing bracket. */
  lemma TextHead(c: Tree)
    requires WellFormed(c)
    ensures var t := Text(c); t != "" && !IsSpace(t[0]) && t[0] != ',' && t[0] != ']' && t[0] != '}' && t[0] != ':'
  {
    if c.Number? {
      assert IsDigit(c.digits[0]);
    }
  }

  /** The characters of insignificant space, of numbers and of exponent marks (RFC 8259, sections 2 and 6). */
  lemma CharacterClasses(c: char)
    ensures IsWs(c) <==> c in " \t\n\r"
    ensures IsDigit(c) <==> c in "0123456789"
    ensures IsExpMark(c) <==> c in "eE"
  {
    assert " \t\n\r" == [' ', '\t', '\n', '\r'];
    assert "0123456789" == ['0', '1', '2', '3', '4', '5', '6', '7', '8', '9'];
    assert "eE" == ['e', 'E'];
  }

  lemma EscapeIs(c: char)
    ensures c in "\"\\/bfnrt" <==> IsEscape(c)
  {
    var s := "\"\\/bfnrt";
    assert s == ['"', '\\', '/', 'b', 'f', 'n', 'r', 't'];
  }

  lemma HexIs(c: char)
    ensures c in "0123456789abcdefABCDEF" <==> IsHex(c)
  {
    var s := "0123456789abcdefABCDEF";
    assert s == ['0', '1', '2', '3', '4', '5', '6', '7', '8', '9',
                 'a', 'b', 'c', 'd', 'e', 'f', 'A', 'B', 'C', 'D', 'E', 'F'];
  }

  /** A unit is taken as it is written, whatever follows it. */
  lemma UnitTaken(u: Unit, more: string)
    requires UnitOk(u)
    ensures UnitText(u)[0] != '"' && UnitLength(UnitText(u) + more) == |UnitText(u)|
  {
    hide IsHex, IsEscape;
    var s := UnitText(u) + more;
    match u {
      case Plain(c) =>
      case Escape(c) =>
        EscapeIs(c);
        assert s[1] == c;
      case Code(hex) =>
        NoEscapeU();
        HexIs(hex[0]);
        HexIs(hex[1]);
        HexIs(hex[2]);
        HexIs(hex[3]);
        assert s[0] == '\\' && s[1] == 'u' && s[2] == hex[0] && s[3] == hex[1] && s[4] == hex[2] && s[5] == hex[3];
    }
  }

  lemma NoEscapeU()
    ensures !IsEscape('u')
  {
  }

  lemma {:induction false} StringDecoded(units: seq<Unit>, rest: string)
    requires StringOk(units)
    ensures ScanString(UnitsText(units) + ("\"" + rest)) == Got(UnitsText(units), rest)
    decreases |units|
  {
    hide UnitLength, UnitText, UnitOk;
    var body := UnitsText(units);
    var s := body + ("\"" + rest);
    if units == [] {
      assert s == "\"" + rest;
    } else {
      var u, more := UnitText(units[0]), UnitsText(units[1..]) + ("\"" + rest);
      assert s == u + more && s[0] == u[0];
      UnitTaken(units[0], more);
      assert s[|u|..] == more && s[..|u|] == u;
      StringDecoded(units[1..], rest);
    }
  }

  lemma IntLengthOf(digits: string, rest: string)
    requires IntOk(digits) && (rest == "" || !IsDigit(rest[0]))
    ensures IntLength(digits + rest) == |digits|
  {
    DigitRunOf(digits, rest);
  }

  lemma FracLengthOf(f: Option<string>, rest: string)
    requires (f.Some? ==> DigitsOk(f.value)) && (rest == "" || (!IsDigit(rest[0]) && rest[0] != '.'))
    ensures FracLength(FracText(f) + rest) == |FracText(f)|
  {
    if f.Some? {
      assert (FracText(f) + rest)[1..] == f.value + rest;
      DigitRunOf(f.value, rest);
    }
  }

  lemma ExpDigits(mark: char, sign: string, d: string)
    requires IsExpMark(mark) && (sign == "" || sign == "+" || sign == "-") && d != "" && IsDigit(d[0])
    ensures ExpLength([mark] + (sign + d)) == 1 + |sign| + DigitRun(d)
  {
    hide DigitRun, ExpLength;
    SomeDigits(d);
    var s := [mark] + (sign + d);
    assert s[1..] == sign + d;
    assert (sign + d)[|sign|..] == d;
    ExpLengthAt(s, |sign|, d);
  }

  lemma ExpLengthAt(s: string, sign: nat, d: string)
    requires s != "" && IsExpMark(s[0]) && SignLength(s[1..]) == sign && s[1..][sign..] == d && DigitRun(d) > 0
    ensures ExpLength(s) == 1 + sign + DigitRun(d)
  {
    hide DigitRun, SignLength, IsExpMark;
  }

  lemma SomeDigits(d: string)
    requires d != "" && IsDigit(d[0])
    ensures DigitRun(d) > 0
  {
  }

  lemma ExpLengthOf(e: Option<Exponent>, rest: string)
    requires (e.Some? ==> ExpOk(e.value)) && Ends(rest)
    ensures ExpLength(ExpText(e) + rest) == |ExpText(e)|
  {
    if e.Some? {
      hide DigitRun, ExpLength;
      var x := e.value;
      var d := x.digits + rest;
      assert IsDigit(x.digits[0]) && d[0] == x.digits[0];
      DigitRunOf(x.digits, rest);
      assert ExpText(e) + rest == [x.mark] + (x.sign + d);
      ExpDigits(x.mark, x.sign, d);
    }
  }

  lemma TailDecoded(frac: Option<string>, exp: Option<Exponent>, rest: string)
    requires (frac.Some? ==> DigitsOk(frac.value)) && (exp.Some? ==> ExpOk(exp.value)) && Ends(rest)
    ensures NumberTail(FracText(frac) + ExpText(exp) + rest) == (FracText(frac) + ExpText(exp), rest)
  {
    hide DigitRun, FracLength, ExpLength;
    var f, e := FracText(frac), ExpText(exp);
    assert f + e + rest == f + (e + rest);
    FracLengthOf(frac, e + rest);
    ExpLengthOf(exp, rest);
    assert (f + (e + rest))[|f|..] == e + rest;
  }

  lemma UnsignedDecoded(digits: string, tail: string, rest: string)
    requires IntOk(digits) && NumberTail(tail + rest) == (tail, rest)
    requires tail + rest == "" || !IsDigit((tail + rest)[0])
    ensures ParseUnsigned(digits + tail + rest) == Got((digits + tail, tail != ""), rest)
  {
    hide DigitRun, NumberTail, IntLength;
    assert digits + tail + rest == digits + (tail + rest);
    IntLengthOf(digits, tail + rest);
    assert (digits + (tail + rest))[|digits|..] == tail + rest;
  }

  lemma SignedDecoded(minus: bool, text: string, isFloat: bool, rest: string)
    requires text != "" && text[0] != '-' && ParseUnsigned(text + rest) == Got((text, isFloat), rest)
    ensures var signed := (if minus then "-" else "") + text;
            ParseNumber(signed + rest) == Got(if isFloat then JFloat(signed) else JInt(signed), rest)
  {
    hide ParseUnsigned;
    var sign := if minus then "-" else "";
    assert (sign + text + rest)[|sign|..] == text + rest;
  }

  lemma LiteralDecoded(word: string, meaning: Json, rest: string)
    requires IsLiteral(word, meaning)
    ensures ParseValue(word + rest) == Got(meaning, rest)
  {
    hide ParseNumber, ScanString, ParseItems, ParseMembers;
    assert (word + rest)[|word|..] == rest && (word + rest)[0] == word[0];
  }

  /** A text that starts with a digit, or with a minus sign in front of one, is read as a number. */
  lemma NumberAhead(s: string)
    requires s != "" && (IsDigit(s[0]) || (s[0] == '-' && (|s| == 1 || IsDigit(s[1]))))
    ensures ParseValue(s) == ParseNumber(s)
  {
    hide ParseNumber;
    if s[0] == '-' && |s| > 1 {
      assert s[1] != "-Infinity"[1];
    }
  }

  lemma LeafDecoded(c: Tree, rest: string)
    requires WellFormed(c) && Ends(rest) && (c.Literal? || c.Number? || c.Str?)
    ensures ParseValue(Text(c) + rest) == Got(Value(c), rest)
  {
    hide ParseNumber, ScanString, ParseUnsigned, NumberTail, ParseValue, StringOk, UnitsText;
    var s := Text(c) + rest;
    if c.Literal? {
      LiteralDecoded(c.word, c.meaning, rest);
    } else if c.Number? {
      var tail := FracText(c.frac) + ExpText(c.exp);
      TailDecoded(c.frac, c.exp, rest);
      UnsignedDecoded(c.digits, tail, rest);
      assert IsDigit(c.digits[0]);
      SignedDecoded(c.minus, c.digits + tail, tail != "", rest);
      NumberAhead(s);
    } else {
      assert s[0] == '"' && s[1..] == UnitsText(c.units) + ("\"" + rest);
      StringDecoded(c.units, rest);
      StringAhead(s);
    }
  }

  lemma StringAhead(s: string)
    requires s != "" && s[0] == '"'
    ensures var r := ScanString(s[1..]); ParseValue(s) == if r.Fail? then Fail else Got(JStr(r.value), r.rest)
  {
    hide ScanString;
  }

  /** Completeness: the decoder takes every JSON text for the value it stands for, and stops right after it. */
  lemma {:induction false} Decoded(c: Tree, rest: string)
    requires WellFormed(c) && Ends(rest)
    ensures ParseValue(Text(c) + rest) == Got(Value(c), rest)
    decreases c, 0
  {
    hide ParseNumber, ScanString, ParseItems, ParseMembers, ParseLiteral, SkipWs, ItemsText, MembersText;
    var s := Text(c) + rest;
    match c {
      case EmptyArray(ws) =>
        assert s[1..] == ws + ("]" + rest);
        SkipsWs(ws, "]" + rest);
      case Array(items) =>
        assert s[1..] == ItemsText(items) + rest;
        ItemsDecoded(items, rest);
      case EmptyObject(ws) =>
        assert s[1..] == ws + ("}" + rest);
        SkipsWs(ws, "}" + rest);
      case Object(members) =>
        assert s[1..] == MembersText(members) + rest;
        MembersDecoded(members, rest);
      case _ =>
        LeafDecoded(c, rest);
    }
  }

  /** What the decoder does behind the first item of a list. */
  lemma ItemsTurn(s: string, v: Json, post: string, tail: string)
    requires ParseValue(s) == Got(v, post + tail) && AllWs(post) && tail != "" && !IsWs(tail[0])
    ensures ParseItems(s) ==
            if tail[0] == ']' then Got([v], tail[1..])
            else if tail[0] != ',' then Fail
            else
              match ParseItems(SkipWs(tail[1..])) case Fail => Fail case Got(more, rest) => Got([v] + more, rest)
  {
    hide ParseValue, SkipWs;
    SkipsWs(post, tail);
  }

  lemma ItemsFront(i: Items, rest: string)
    requires ItemsOk(i)
    ensures var tail := MoreItemsText(i.more) + rest;
            var t := Text(i.value) + (i.post + tail);
            SkipWs(ItemsText(i) + rest) == t && t != "" && t[0] != ']' && t[0] != '}' && Ends(i.post + tail)
            && tail != "" && tail[0] == (if i.more.LastItem? then ']' else ',')
            && tail[1..] == if i.more.LastItem? then rest else ItemsText(i.more.items) + rest
  {
    hide SkipWs, WellFormed, Text;
    var tail := MoreItemsText(i.more) + rest;
    var t := Text(i.value) + (i.post + tail);
    assert ItemsText(i) + rest == i.pre + t;
    TextHead(i.value);
    SkipsWs(i.pre, t);
    if i.more.LastItem? {
      assert tail == "]" + rest;
    } else {
      assert tail == "," + (ItemsText(i.more.items) + rest);
    }
  }

  lemma {:induction false} ItemsDecoded(i: Items, rest: string)
    requires ItemsOk(i)
    ensures var t := SkipWs(ItemsText(i) + rest);
            t != "" && t[0] != ']' && ParseItems(t) == Got(Values(i), rest)
    decreases i, 1
  {
    hide ParseValue, ParseItems, SkipWs, Text, ItemsText, MoreItemsText, Value, WellFormed;
    var tail := MoreItemsText(i.more) + rest;
    ItemsFront(i, rest);
    Decoded(i.value, i.post + tail);
    ItemsTurn(Text(i.value) + (i.post + tail), Value(i.value), i.post, tail);
    match i.more {
      case LastItem =>
        assert [Value(i.value)] + [] == [Value(i.value)];
      case NextItem(items) =>
        ItemsDecoded(items, rest);
    }
  }

  lemma MemberTurn(s: string, key: string, afterKey: string)
    requires s != "" && s[0] == '"' && ScanString(s[1..]) == Got(key, afterKey)
    requires var colon := SkipWs(afterKey); colon != "" && colon[0] == ':'
    ensures var r := ParseValue(SkipWs(SkipWs(afterKey)[1..]));
            ParseMember(s) == if r.Fail? then Fail else Got((key, r.value), r.rest)
  {
    hide ParseValue, ScanString, SkipWs;
  }

  /** The key of a member is read, and its value is next. */
  lemma KeyDecoded(units: seq<Unit>, beforeColon: string, afterColon: string, value: string)
    requires StringOk(units) && AllWs(beforeColon) && AllWs(afterColon) && value != "" && !IsWs(value[0])
    ensures var key := UnitsText(units);
            var t := MemberHead(key, beforeColon, afterColon) + value;
            var r := ParseValue(value);
            t[0] == '"' && ParseMember(t) == if r.Fail? then Fail else Got((key, r.value), r.rest)
  {
    hide ParseValue, ScanString, ParseMember, SkipWs, StringOk, UnitsText;
    var key := UnitsText(units);
    var colon := ":" + (afterColon + value);
    var t := MemberHead(key, beforeColon, afterColon) + value;
    assert t == "\"" + (key + ("\"" + (beforeColon + colon)));
    StringDecoded(units, beforeColon + colon);
    SkipsWs(beforeColon, colon);
    SkipsWs(afterColon, value);
    MemberTurn(t, key, beforeColon + colon);
  }

  lemma MembersTurn(s: string, member: (string, Json), post: string, tail: string)
    requires ParseMember(s) == Got(member, post + tail) && AllWs(post) && tail != "" && !IsWs(tail[0])
    ensures ParseMembers(s) ==
            if tail[0] == '}' then Got([member], tail[1..])
            else if tail[0] != ',' then Fail
            else
              match ParseMembers(SkipWs(tail[1..])) case Fail => Fail case Got(more, rest) => Got([member] + more, rest)
  {
    hide ParseMember, SkipWs;
    SkipsWs(post, tail);
  }

  lemma HeadQuote(key: string, beforeColon: string, afterColon: string)
    ensures var head := MemberHead(key, beforeColon, afterColon); head != "" && head[0] == '"'
  {
  }

  lemma MembersFront(m: Members, rest: string)
    requires MembersOk(m)
    ensures var tail := MoreMembersText(m.more) + rest;
            var value := Text(m.value) + (m.post + tail);
            var t := MemberHead(UnitsText(m.key), m.beforeColon, m.afterColon) + value;
            SkipWs(MembersText(m) + rest) == t && t != "" && t[0] == '"' && Ends(m.post + tail)
            && value != "" && !IsWs(value[0]) && tail != "" && tail[0] == (if m.more.LastMember? then '}' else ',')
            && tail[1..] == if m.more.LastMember? then rest else MembersText(m.more.members) + rest
  {
    hide SkipWs, WellFormed, Text, StringOk, UnitsText, MemberHead;
    HeadQuote(UnitsText(m.key), m.beforeColon, m.afterColon);
    var tail := MoreMembersText(m.more) + rest;
    var value := Text(m.value) + (m.post + tail);
    var t := MemberHead(UnitsText(m.key), m.beforeColon, m.afterColon) + value;
    assert MembersText(m) + rest == m.pre + t;
    TextHead(m.value);
    SkipsWs(m.pre, t);
    if m.more.LastMember? {
      assert tail == "}" + rest;
    } else {
      assert tail == "," + (MembersText(m.more.members) + rest);
    }
  }

  lemma {:induction false} MembersDecoded(m: Members, rest: string)
    requires MembersOk(m)
    ensures var t := SkipWs(MembersText(m) + rest);
            t != "" && t[0] != '}' && ParseMembers(t) == Got(MemberValues(m), rest)
    decreases m, 1
  {
    hide ParseValue, ParseMember, ParseMembers, MemberHead, SkipWs, Text, MembersText, MoreMembersText, Value;
    hide WellFormed;
    var tail := MoreMembersText(m.more) + rest;
    var value := Text(m.value) + (m.post + tail);
    MembersFront(m, rest);
    KeyDecoded(m.key, m.beforeColon, m.afterColon, value);
    Decoded(m.value, m.post + tail);
    MembersTurn(MemberHead(UnitsText(m.key), m.beforeColon, m.afterColon) + value,
                (UnitsText(m.key), Value(m.value)), m.post, tail);
    match m.more {
      case LastMember =>
        assert [(UnitsText(m.key), Value(m.value))] + [] == [(UnitsText(m.key), Value(m.value))];
      case NextMember(members) =>
        MembersDecoded(members, rest);
    }
  }

  // ---------------------------------------------------------------- nothing else is decoded

  /** `t` with the text behind it is `s`, it is a JSON text, and it stands for `v`. */
  predicate IsTextOf(c: Tree, s: string, v: Json, rest: string) {
    WellFormed(c) && Value(c) == v && s == Text(c) + rest
  }

  lemma {:induction false} Skipped(s: string) returns (w: string)
    ensures AllWs(w) && s == w + SkipWs(s)
  {
    if s != "" && IsWs(s[0]) {
      w := Skipped(s[1..]);
      w := [s[0]] + w;
    } else {
      w := "";
    }
  }

  lemma Joined(s: string, n: nat, tail: string, rest: string)
    requires n <= |s| && s[n..] == tail + rest
    ensures s == s[..n] + tail + rest
  {
    assert s == s[..n] + s[n..];
  }

  lemma HeadTail(s: string, head: char)
    requires s != "" && s[0] == head
    ensures s == [head] + s[1..]
  {
  }

  lemma Enclosed(s: string, w: string, open: char, close: char)
    requires s != "" && s[0] == open && s[1..] == w + SkipWs(s[1..])
    requires var t := SkipWs(s[1..]); t != "" && t[0] == close
    ensures s == [open] + w + [close] + SkipWs(s[1..])[1..]
  {
    hide SkipWs;
    HeadTail(s, open);
    HeadTail(SkipWs(s[1..]), close);
  }

  lemma Opened(s: string, open: char, inner: string, rest: string)
    requires s != "" && s[0] == open && s[1..] == inner + rest
    ensures s == [open] + inner + rest
  {
    HeadTail(s, open);
  }

  lemma UnitSound(s: string) returns (u: Unit)
    requires UnitLength(s) > 0
    ensures UnitOk(u) && UnitText(u) == s[..UnitLength(s)]
  {
    hide IsHex, IsEscape;
    var n := UnitLength(s);
    if n == 1 {
      u := Plain(s[0]);
    } else if n == 2 {
      EscapeIs(s[1]);
      u := Escape(s[1]);
    } else {
      forall i | 0 <= i < 4 ensures s[2..6][i] in "0123456789abcdefABCDEF" {
        HexIs(s[2 + i]);
      }
      u := Code(s[2..6]);
      assert s[..6] == s[..2] + s[2..6];
    }
  }

  lemma {:induction false} StringSound(s: string) returns (units: seq<Unit>)
    requires ScanString(s).Got?
    ensures var r := ScanString(s);
            StringOk(units) && UnitsText(units) == r.value && s == r.value + ("\"" + r.rest)
    decreases |s|
  {
    if s[0] == '"' {
      units := [];
      assert s == "\"" + s[1..];
    } else {
      hide UnitLength, UnitOk, UnitText;
      var n := UnitLength(s);
      var u := UnitSound(s);
      var more := StringSound(s[n..]);
      var r := ScanString(s[n..]);
      units := [u] + more;
      assert units[1..] == more;
      Joined(s, n, r.value, "\"" + r.rest);
    }
  }

  lemma FracSound(s: string) returns (f: Option<string>)
    ensures (f.Some? ==> DigitsOk(f.value)) && FracText(f) == s[..FracLength(s)]
  {
    hide DigitRun;
    var m := FracLength(s);
    f := if m == 0 then None else Some(s[1..m]);
    if m > 0 {
      SomeDigits(s[1..]);
      assert s[1..][..m - 1] == s[1..m];
      assert s[..m] == "." + s[1..m];
    }
  }

  lemma ExpSound(s: string) returns (e: Option<Exponent>)
    ensures (e.Some? ==> ExpOk(e.value)) && ExpText(e) == s[..ExpLength(s)]
  {
    hide DigitRun;
    var k := ExpLength(s);
    if k == 0 {
      e := None;
    } else {
      var sign := SignLength(s[1..]);
      var t := s[1..][sign..];
      var digits := t[..DigitRun(t)];
      e := Some(Exponent(s[0], s[1..][..sign], digits));
      assert s[..k] == [s[0]] + s[1..][..sign] + digits;
    }
  }

  lemma TailSound(s: string) returns (f: Option<string>, e: Option<Exponent>)
    ensures (f.Some? ==> DigitsOk(f.value)) && (e.Some? ==> ExpOk(e.value))
    ensures var r := NumberTail(s); FracText(f) + ExpText(e) == r.0 && s == r.0 + r.1
  {
    hide FracLength, ExpLength;
    var m := FracLength(s);
    f := FracSound(s);
    e := ExpSound(s[m..]);
    Rejoin(s, m, ExpLength(s[m..]));
  }

  lemma Rejoin(s: string, m: nat, k: nat)
    requires m <= |s| && k <= |s| - m
    ensures s == s[..m] + s[m..][..k] + s[m..][k..]
  {
  }

  lemma IntSound(s: string)
    requires IntLength(s) > 0
    ensures IntOk(s[..IntLength(s)])
  {
    hide DigitRun;
  }

  lemma UnsignedSound(s: string) returns (digits: string, f: Option<string>, e: Option<Exponent>)
    requires ParseUnsigned(s).Got?
    ensures IntOk(digits) && (f.Some? ==> DigitsOk(f.value)) && (e.Some? ==> ExpOk(e.value))
    ensures var r := ParseUnsigned(s);
            r.value.0 == digits + (FracText(f) + ExpText(e)) && (r.value.1 <==> f.Some? || e.Some?)
            && s == r.value.0 + r.rest
  {
    hide IntLength, NumberTail, IntOk, DigitsOk, ExpOk, FracText, ExpText;
    var n := IntLength(s);
    IntSound(s);
    digits := s[..n];
    f, e := TailSound(s[n..]);
    TailEmpty(f, e);
    Joined(s, n, NumberTail(s[n..]).0, NumberTail(s[n..]).1);
  }

  lemma TailEmpty(f: Option<string>, e: Option<Exponent>)
    ensures FracText(f) + ExpText(e) == "" <==> f.None? && e.None?
  {
  }

  lemma NumberSound(s: string) returns (c: Tree)
    requires ParseNumber(s).Got?
    ensures c.Number? && IsTextOf(c, s, ParseNumber(s).value, ParseNumber(s).rest)
  {
    hide ParseUnsigned, IntOk, DigitsOk, ExpOk, FracText, ExpText;
    var minus := s != "" && s[0] == '-';
    var sign := if minus then "-" else "";
    var digits, f, e := UnsignedSound(s[|sign|..]);
    c := Number(minus, digits, f, e);
    var r := ParseUnsigned(s[|sign|..]);
    Joined(s, |sign|, r.value.0, r.rest);
    assert s[..|sign|] == sign;
  }

  /** Soundness: whatever the decoder takes is a JSON text for the value it gives. */
  lemma {:induction false} ValueSound(s: string) returns (c: Tree)
    requires ParseValue(s).Got?
    ensures IsTextOf(c, s, ParseValue(s).value, ParseValue(s).rest)
    decreases |s|, 1
  {
    hide ParseNumber, ScanString, ParseItems, ParseMembers, SkipWs, AllWs, StringOk, IsLiteral;
    if s[0] == '"' {
      var units := StringSound(s[1..]);
      c := Str(units);
      assert s == "\"" + s[1..];
    } else if s[0] == '[' {
      c := ArraySound(s);
    } else if s[0] == '{' {
      c := ObjectSound(s);
    } else {
      c := ScalarSound(s);
    }
  }

  lemma LiteralSound(s: string, word: string, v: Json)
    requires IsLiteral(word, v) && word <= s
    ensures IsTextOf(Literal(word, v), s, v, s[|word|..])
  {
  }

  lemma ScalarSound(s: string) returns (c: Tree)
    requires ParseValue(s).Got? && s[0] != '"' && s[0] != '[' && s[0] != '{'
    ensures IsTextOf(c, s, ParseValue(s).value, ParseValue(s).rest)
  {
    hide ParseNumber, WellFormed, Text, Value;
    var r := ParseValue(s);
    if s[0] in "ntfNI" || "-Infinity" <= s {
      var word :=
        if s[0] == 'n' then "null" else if s[0] == 't' then "true" else if s[0] == 'f' then "false"
        else if s[0] == 'N' then "NaN" else if s[0] == 'I' then "Infinity" else "-Infinity";
      LiteralSound(s, word, r.value);
      c := Literal(word, r.value);
    } else {
      c := NumberSound(s);
    }
  }

  lemma {:induction false} ArraySound(s: string) returns (c: Tree)
    requires ParseValue(s).Got? && s[0] == '['
    ensures IsTextOf(c, s, ParseValue(s).value, ParseValue(s).rest)
    decreases |s|, 0
  {
    hide ParseNumber, ScanString, ParseItems, ParseMembers, SkipWs, ItemsText, MembersText, AllWs;
    var w := Skipped(s[1..]);
    var t := SkipWs(s[1..]);
    if t != "" && t[0] == ']' {
      Enclosed(s, w, '[', ']');
      c := EmptyArray(w);
    } else {
      var items := ItemsSound(t, w);
      c := Array(items);
      Opened(s, '[', ItemsText(items), ParseValue(s).rest);
    }
  }

  lemma {:induction false} ItemsSound(s: string, pre: string) returns (i: Items)
    requires ParseItems(s).Got? && AllWs(pre)
    ensures var r := ParseItems(s); ItemsOk(i) && Values(i) == r.value && pre + s == ItemsText(i) + r.rest
    decreases |s|, 2
  {
    hide ParseValue, SkipWs, Text, WellFormed, Value;
    var c := ValueSound(s);
    var afterValue := ParseValue(s).rest;
    var post := Skipped(afterValue);
    var t := SkipWs(afterValue);
    if t[0] == ']' {
      assert t == "]" + t[1..];
      i := Items.Item(pre, c, post, LastItem);
      assert [Value(c)] + [] == [Value(c)];
    } else {
      var w := Skipped(t[1..]);
      assert t == "," + t[1..];
      var more := ItemsSound(SkipWs(t[1..]), w);
      i := Items.Item(pre, c, post, NextItem(more));
    }
  }

  lemma {:induction false} ObjectSound(s: string) returns (c: Tree)
    requires ParseValue(s).Got? && s[0] == '{'
    ensures IsTextOf(c, s, ParseValue(s).value, ParseValue(s).rest)
    decreases |s|, 0
  {
    hide ParseNumber, ScanString, ParseItems, ParseMembers, SkipWs, ItemsText, MembersText, AllWs;
    var w := Skipped(s[1..]);
    var t := SkipWs(s[1..]);
    if t != "" && t[0] == '}' {
      Enclosed(s, w, '{', '}');
      c := EmptyObject(w);
    } else {
      var members := MembersSound(t, w);
      c := Object(members);
      Opened(s, '{', MembersText(members), ParseValue(s).rest);
    }
  }

  lemma {:induction false} MemberSound(s: string)
    returns (key: seq<Unit>, beforeColon: string, afterColon: string, c: Tree)
    requires ParseMember(s).Got?
    ensures StringOk(key) && AllWs(beforeColon) && AllWs(afterColon) && WellFormed(c)
    ensures var r := ParseMember(s);
            && r.value == (UnitsText(key), Value(c))
            && s == MemberHead(UnitsText(key), beforeColon, afterColon) + (Text(c) + r.rest)
    decreases |s|, 2
  {
    hide ParseValue, ScanString, SkipWs, Text, WellFormed, Value, StringOk, AllWs;
    key := StringSound(s[1..]);
    var r := ScanString(s[1..]);
    beforeColon := Skipped(r.rest);
    var colon := SkipWs(r.rest);
    afterColon := Skipped(colon[1..]);
    c := ValueSound(SkipWs(colon[1..]));
    HeadSound(s, r.value, beforeColon, afterColon, r.rest, colon, SkipWs(colon[1..]));
  }

  lemma HeadSound(s: string, key: string, beforeColon: string, afterColon: string, afterKey: string, colon: string,
                  value: string)
    requires s != "" && s[0] == '"' && s[1..] == key + ("\"" + afterKey) && afterKey == beforeColon + colon
    requires colon != "" && colon[0] == ':' && colon[1..] == afterColon + value
    ensures s == MemberHead(key, beforeColon, afterColon) + value
  {
    assert s == "\"" + s[1..] && colon == ":" + colon[1..];
  }

  lemma {:induction false} MembersSound(s: string, pre: string) returns (m: Members)
    requires ParseMembers(s).Got? && AllWs(pre)
    ensures var r := ParseMembers(s); MembersOk(m) && MemberValues(m) == r.value && pre + s == MembersText(m) + r.rest
    decreases |s|, 3
  {
    hide ParseMember, SkipWs, Text, WellFormed, Value, MemberHead, StringOk;
    var key, beforeColon, afterColon, c := MemberSound(s);
    var afterMember := ParseMember(s).rest;
    var post := Skipped(afterMember);
    var t := SkipWs(afterMember);
    if t[0] == '}' {
      assert t == "}" + t[1..];
      m := Member(pre, key, beforeColon, afterColon, c, post, LastMember);
      assert [(UnitsText(key), Value(c))] + [] == [(UnitsText(key), Value(c))];
    } else {
      var w := Skipped(t[1..]);
      assert t == "," + t[1..];
      var more := MembersSound(SkipWs(t[1..]), w);
      m := Member(pre, key, beforeColon, afterColon, c, post, NextMember(more));
    }
  }

  /** In front of a delimiter or the end, the decoder gives a value exactly when a JSON text for it stands there. */
  lemma DecodesExactly(s: string, v: Json, rest: string)
    requires Ends(rest)
    ensures ParseValue(s) == Got(v, rest) <==> exists c :: IsTextOf(c, s, v, rest)
  {
    hide ParseValue, WellFormed, Text, Value;
    if ParseValue(s) == Got(v, rest) {
      var c := ValueSound(s);
    }
    forall c | IsTextOf(c, s, v, rest) ensures ParseValue(s) == Got(v, rest) {
      Decoded(c, rest);
    }
  }
}
