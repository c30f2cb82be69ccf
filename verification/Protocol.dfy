/** The text protocol of one model turn: the tagged action, the body of a frame request and the answer letter.

A raw output is kept as the text before the first protocol tag and then, for each tag, the tag and the text that
follows it. Letters, digits and whitespace are the ASCII ones. */
module Protocol {
  import opened Py

  datatype TagName = Think | Summarize | Select | Answer

  datatype Tag = Open(name: TagName) | Close(name: TagName)

  datatype Part = Part(tag: Tag, text: string)

  datatype RawOutput = RawOutput(lead: string, parts: seq<Part>)

  datatype Action =
    | SelectAction(think: string, summary: string, body: string)
    | AnswerAction(think: string, body: string)

  // ---------------------------------------------------------------- characters

  predicate IsSpace(c: char) { 9 <= c as int <= 13 || 28 <= c as int <= 32 }

  predicate IsDigit(c: char) { '0' <= c <= '9' }

  predicate IsUpper(c: char) { 'A' <= c <= 'Z' }

  predicate IsLower(c: char) { 'a' <= c <= 'z' }

  predicate IsWord(c: char) { IsUpper(c) || IsLower(c) || IsDigit(c) || c == '_' }

  function UpperChar(c: char): (u: char)
    ensures IsSpace(u) <==> IsSpace(c)
    ensures IsUpper(c) ==> u == c
  {
    if IsLower(c) then ((c as int) - 32) as char else c
  }

  predicate Blank(s: string) { forall i :: 0 <= i < |s| ==> IsSpace(s[i]) }

  predicate AllDigits(s: string) { forall i :: 0 <= i < |s| ==> IsDigit(s[i]) }

  function LStrip(s: string): string {
    if s != "" && IsSpace(s[0]) then LStrip(s[1..]) else s
  }

  function RStrip(s: string): string {
    if s != "" && IsSpace(s[|s| - 1]) then RStrip(s[..|s| - 1]) else s
  }

  function Strip(s: string): string { RStrip(LStrip(s)) }

  lemma {:induction false} LStripSplit(s: string) returns (w: string)
    ensures s == w + LStrip(s) && Blank(w)
    ensures LStrip(s) != "" ==> !IsSpace(LStrip(s)[0])
  {
    if s != "" && IsSpace(s[0]) {
      w := LStripSplit(s[1..]);
      assert s == [s[0]] + s[1..];
      w := [s[0]] + w;
    } else {
      w := "";
    }
  }

  lemma {:induction false} RStripSplit(s: string) returns (w: string)
    ensures s == RStrip(s) + w && Blank(w)
    ensures RStrip(s) != "" ==> !IsSpace(RStrip(s)[|RStrip(s)| - 1])
  {
    if s != "" && IsSpace(s[|s| - 1]) {
      var t, c := s[..|s| - 1], s[|s| - 1];
      var v := RStripSplit(t);
      assert RStrip(s) == RStrip(t) && s == t + [c];
      w := v + [c];
    } else {
      w := "";
    }
  }

  /** Stripping takes blank text from both ends and stops at the first visible character. */
  lemma StripSplit(s: string) returns (left: string, right: string)
    ensures s == left + Strip(s) + right && Blank(left) && Blank(right)
    ensures Strip(s) == "" || (!IsSpace(Strip(s)[0]) && !IsSpace(Strip(s)[|Strip(s)| - 1]))
  {
    left := LStripSplit(s);
    right := RStripSplit(LStrip(s));
    if Strip(s) != "" {
      assert Strip(s)[0] == LStrip(s)[0];
    }
  }

  lemma {:induction false} LStripOf(w: string, rest: string)
    requires Blank(w) && (rest == "" || !IsSpace(rest[0]))
    ensures LStrip(w + rest) == rest
  {
    if w == "" {
      assert w + rest == rest;
    } else {
      assert (w + rest)[1..] == w[1..] + rest;
      LStripOf(w[1..], rest);
    }
  }

  lemma {:induction false} RStripOf(front: string, w: string)
    requires Blank(w) && (front == "" || !IsSpace(front[|front| - 1]))
    ensures RStrip(front + w) == front
  {
    if w == "" {
      assert front + w == front;
    } else {
      assert (front + w)[..|front + w| - 1] == front + w[..|w| - 1];
      RStripOf(front, w[..|w| - 1]);
    }
  }

  lemma StripOf(left: string, s: string, right: string)
    requires Blank(left) && Blank(right) && s != "" && !IsSpace(s[0]) && !IsSpace(s[|s| - 1])
    ensures Strip(left + (s + right)) == s
  {
    LStripOf(left, s + right);
    RStripOf(s, right);
  }

  lemma StripTight(s: string)
    requires s == "" || (!IsSpace(s[0]) && !IsSpace(s[|s| - 1]))
    ensures Strip(s) == s
  {
  }

  lemma StripIdempotent(s: string)
    ensures Strip(Strip(s)) == Strip(s)
  {
    var left, right := StripSplit(s);
    StripTight(Strip(s));
  }

  lemma StripBlank(s: string)
    ensures Strip(s) == "" <==> Blank(s)
  {
    var left, right := StripSplit(s);
    if Strip(s) != "" {
      assert s[|left|] == Strip(s)[0];
    }
  }

  function Upper(s: string): (u: string)
    ensures |u| == |s| && forall i :: 0 <= i < |s| ==> u[i] == UpperChar(s[i])
  {
    seq(|s|, i requires 0 <= i < |s| => UpperChar(s[i]))
  }

  // ---------------------------------------------------------------- the strict action

  /** `<think>` ... `</think>` `<summarize>` ... `</summarize>` `<select>` ... `</select>` */
  predicate SelectTags(p: seq<Part>) {
    && |p| == 6
    && p[0].tag == Open(Think) && p[1].tag == Close(Think)
    && p[2].tag == Open(Summarize) && p[3].tag == Close(Summarize)
    && p[4].tag == Open(Select) && p[5].tag == Close(Select)
  }

  /** `<think>` ... `</think>` `<answer>` ... `</answer>` */
  predicate AnswerTags(p: seq<Part>) {
    && |p| == 4
    && p[0].tag == Open(Think) && p[1].tag == Close(Think)
    && p[2].tag == Open(Answer) && p[3].tag == Close(Answer)
  }

  /** `parse_strict_revise_action` */
  function ParseStrictAction(raw: RawOutput): Option<Action> {
    var p := raw.parts;
    if SelectTags(p) then
      if Blank(raw.lead) && Blank(p[1].text) && Blank(p[3].text) && Blank(p[5].text)
      then Some(SelectAction(Strip(p[0].text), Strip(p[2].text), Strip(p[4].text)))
      else None
    else if AnswerTags(p) then
      if Blank(raw.lead) && Blank(p[1].text) && Blank(p[3].text)
      then Some(AnswerAction(Strip(p[0].text), Strip(p[2].text)))
      else None
    else None
  }

  function RenderAction(a: Action): RawOutput {
    match a
    case SelectAction(think, summary, body) =>
      RawOutput("", [Part(Open(Think), think), Part(Close(Think), ""),
                     Part(Open(Summarize), summary), Part(Close(Summarize), ""),
                     Part(Open(Select), body), Part(Close(Select), "")])
    case AnswerAction(think, body) =>
      RawOutput("", [Part(Open(Think), think), Part(Close(Think), ""),
                     Part(Open(Answer), body), Part(Close(Answer), "")])
  }

  function StripAction(a: Action): Action {
    match a
    case SelectAction(think, summary, body) => SelectAction(Strip(think), Strip(summary), Strip(body))
    case AnswerAction(think, body) => AnswerAction(Strip(think), Strip(body))
  }

  /** Rendering an action and parsing it again gives the action with its fields stripped. */
  lemma ParseRendered(a: Action)
    ensures ParseStrictAction(RenderAction(a)) == Some(StripAction(a))
  {
  }

  /** The output with the space around every piece of its text removed. */
  function NormalForm(raw: RawOutput): RawOutput {
    RawOutput(Strip(raw.lead), seq(|raw.parts|, i requires 0 <= i < |raw.parts| =>
      Part(raw.parts[i].tag, Strip(raw.parts[i].text))))
  }

  /** Parsing is the inverse of rendering up to space: the outputs read as an action are exactly those whose normal form
  is that action written out, so an output with a repeated, nested, missing or extra tag, or with prose outside the
  tags, is no action. */
  lemma ParseIsInverse(raw: RawOutput, a: Action)
    ensures ParseStrictAction(raw) == Some(a) <==> NormalForm(raw) == RenderAction(a)
  {
    var p, n, t := raw.parts, NormalForm(raw), RenderAction(a);
    StripBlank(raw.lead);
    forall i | 0 <= i < |p| ensures Strip(p[i].text) == "" <==> Blank(p[i].text) {
      StripBlank(p[i].text);
    }
    if ParseStrictAction(raw) == Some(a) {
      SameParts(n.parts, t.parts);
    } else if n == t {
      forall i | 0 <= i < |p| ensures p[i].tag == t.parts[i].tag && Strip(p[i].text) == t.parts[i].text {
        assert n.parts[i] == t.parts[i];
      }
      assert false;
    }
  }

  lemma SameParts(n: seq<Part>, t: seq<Part>)
    requires |n| == |t| <= 6
    requires 0 < |n| ==> n[0] == t[0]
    requires 1 < |n| ==> n[1] == t[1]
    requires 2 < |n| ==> n[2] == t[2]
    requires 3 < |n| ==> n[3] == t[3]
    requires 4 < |n| ==> n[4] == t[4]
    requires 5 < |n| ==> n[5] == t[5]
    ensures n == t
  {
  }

  // ---------------------------------------------------------------- the body of a frame request

  function DigitValue(c: char): (d: nat)
    requires IsDigit(c)
    ensures d < 10
  {
    (c as int) - ('0' as int)
  }

  function IntOf(s: string): nat
    requires AllDigits(s)
  {
    if s == "" then 0
    else
      IntOf(s[..|s| - 1]) * 10 + DigitValue(s[|s| - 1])
  }

  function DigitRun(s: string): (n: nat)
    ensures n <= |s| && AllDigits(s[..n])
    ensures n < |s| ==> !IsDigit(s[n])
  {
    if s != "" && IsDigit(s[0]) then
      var n := 1 + DigitRun(s[1..]);
      assert s[..n] == [s[0]] + s[1..][..n - 1];
      n
    else 0
  }

  /** `parse_int_list`: the maximal runs of digits, read as numbers. */
  function ParseIntList(s: string): seq<int>
    decreases |s|
  {
    if s == "" then []
    else if IsDigit(s[0]) then
      var n := DigitRun(s);
      [IntOf(s[..n])] + ParseIntList(s[n..])
    else ParseIntList(s[1..])
  }

  /** Where a scan of a frame request stands: before a number, inside its digits, or in the space after it. */
  datatype ScanState = BeforeNumber | InNumber | AfterNumber

  /** `_is_strict_select_body`: numbers separated by commas, with optional space around each. */
  predicate StrictFrom(state: ScanState, s: string)
    decreases |s|
  {
    if s == "" then !state.BeforeNumber?
    else
      match state
      case BeforeNumber =>
        if IsSpace(s[0]) then StrictFrom(BeforeNumber, s[1..]) else IsDigit(s[0]) && StrictFrom(InNumber, s[1..])
      case InNumber =>
        if IsDigit(s[0]) then StrictFrom(InNumber, s[1..])
        else if IsSpace(s[0]) then StrictFrom(AfterNumber, s[1..])
        else s[0] == ',' && StrictFrom(BeforeNumber, s[1..])
      case AfterNumber =>
        if IsSpace(s[0]) then StrictFrom(AfterNumber, s[1..])
        else s[0] == ',' && StrictFrom(BeforeNumber, s[1..])
  }

  predicate IsStrictSelectBody(s: string) { StrictFrom(BeforeNumber, s) }

  /** One number of a request with the space written around it. */
  datatype Item = Item(pre: string, digits: string, post: string)

  predicate WellFormedItem(i: Item) { Blank(i.pre) && Blank(i.post) && i.digits != "" && AllDigits(i.digits) }

  function ItemText(i: Item): string { i.pre + i.digits + i.post }

  /** The text of the items after the first, each with the comma before it. */
  function MoreText(items: seq<Item>): string {
    if items == [] then "" else "," + ItemText(items[0]) + MoreText(items[1..])
  }

  function RequestText(first: Item, more: seq<Item>): string { ItemText(first) + MoreText(more) }

  predicate WellFormedItems(items: seq<Item>) { forall i :: 0 <= i < |items| ==> WellFormedItem(items[i]) }

  function ItemValue(i: Item): nat
    requires WellFormedItem(i)
  {
    IntOf(i.digits)
  }

  function ItemValues(items: seq<Item>): (vs: seq<int>)
    requires WellFormedItems(items)
    ensures |vs| == |items|
  {
    if items == [] then [] else [ItemValue(items[0])] + ItemValues(items[1..])
  }

  lemma {:induction false} ScanBlank(state: ScanState, w: string, rest: string)
    requires Blank(w) && (w == "" || !state.InNumber?)
    ensures StrictFrom(state, w + rest) == StrictFrom(state, rest)
  {
    if w == "" {
      assert w + rest == rest;
    } else {
      assert (w + rest)[1..] == w[1..] + rest;
      ScanBlank(state, w[1..], rest);
    }
  }

  lemma {:induction false} ScanDigits(d: string, rest: string)
    requires AllDigits(d)
    ensures StrictFrom(InNumber, d + rest) == StrictFrom(InNumber, rest)
  {
    if d == "" {
      assert d + rest == rest;
    } else {
      assert (d + rest)[1..] == d[1..] + rest;
      ScanDigits(d[1..], rest);
    }
  }

  lemma ScanItem(i: Item, rest: string)
    requires WellFormedItem(i)
    requires rest == "" || rest[0] == ','
    ensures StrictFrom(BeforeNumber, ItemText(i) + rest) <==> rest == "" || StrictFrom(BeforeNumber, rest[1..])
  {
    var tail := i.post + rest;
    assert ItemText(i) + rest == i.pre + (i.digits + tail);
    ScanBlank(BeforeNumber, i.pre, i.digits + tail);
    assert (i.digits + tail)[1..] == i.digits[1..] + tail;
    ScanDigits(i.digits[1..], tail);
    if i.post == "" {
      assert tail == rest;
    } else {
      assert tail[1..] == i.post[1..] + rest;
      ScanBlank(AfterNumber, i.post[1..], rest);
    }
  }

  /** Every comma-separated list of numbers, however spaced, is a strict body. */
  lemma {:induction false} RequestIsStrict(first: Item, more: seq<Item>)
    requires WellFormedItem(first) && WellFormedItems(more)
    ensures IsStrictSelectBody(RequestText(first, more))
    decreases more
  {
    ScanItem(first, MoreText(more));
    if more != [] {
      assert MoreText(more)[1..] == RequestText(more[0], more[1..]);
      RequestIsStrict(more[0], more[1..]);
    }
  }

  /** A strict scan from any state reads a list of items, of which the first may already be partly behind it. */
  lemma {:induction false} StrictIsRequest(state: ScanState, s: string) returns (first: Item, more: seq<Item>)
    requires StrictFrom(state, s)
    ensures s == RequestText(first, more) && WellFormedItems(more)
    ensures Blank(first.pre) && Blank(first.post) && AllDigits(first.digits)
    ensures state.BeforeNumber? ==> first.digits != ""
    ensures !state.BeforeNumber? ==> first.pre == ""
    ensures state.AfterNumber? ==> first.digits == ""
    decreases |s|
  {
    if s == "" {
      return Item("", "", ""), [];
    }
    var c, rest := s[0], s[1..];
    assert s == [c] + rest;
    if !state.AfterNumber? && IsDigit(c) {
      first, more := StrictIsRequest(InNumber, rest);
      GrowItem(c, first, more);
      first := first.(digits := [c] + first.digits);
    } else if state.BeforeNumber? {
      first, more := StrictIsRequest(BeforeNumber, rest);
      GrowItem(c, first, more);
      first := first.(pre := [c] + first.pre);
    } else if IsSpace(c) {
      first, more := StrictIsRequest(AfterNumber, rest);
      GrowItem(c, first, more);
      first := first.(post := [c] + first.post);
    } else {
      var head, tail := StrictIsRequest(BeforeNumber, rest);
      GrowItem(c, head, tail);
      first, more := Item("", "", ""), [head] + tail;
    }
  }

  lemma GrowItem(c: char, i: Item, more: seq<Item>)
    ensures [c] + RequestText(i, more) == RequestText(i.(pre := [c] + i.pre), more)
    ensures i.pre == "" ==> [c] + RequestText(i, more) == RequestText(i.(digits := [c] + i.digits), more)
    ensures i.pre == "" && i.digits == "" ==>
              [c] + RequestText(i, more) == RequestText(i.(post := [c] + i.post), more)
    ensures c == ',' ==> [c] + RequestText(i, more) == RequestText(Item("", "", ""), [i] + more)
  {
    assert ([i] + more)[1..] == more;
    assert ItemText(Item("", "", "")) == "";
  }

  /** The strict bodies are exactly the comma-separated lists of numbers with free space around each number. */
  lemma StrictBodyGrammar(s: string)
    ensures IsStrictSelectBody(s) <==>
            exists first, more :: WellFormedItem(first) && WellFormedItems(more) && s == RequestText(first, more)
  {
    if IsStrictSelectBody(s) {
      var first, more := StrictIsRequest(BeforeNumber, s);
      assert WellFormedItem(first);
    }
    forall first, more | WellFormedItem(first) && WellFormedItems(more) && s == RequestText(first, more)
      ensures IsStrictSelectBody(s)
    {
      RequestIsStrict(first, more);
    }
  }

  lemma {:induction false} IntsAfterBlank(w: string, rest: string)
    requires forall i :: 0 <= i < |w| ==> !IsDigit(w[i])
    ensures ParseIntList(w + rest) == ParseIntList(rest)
  {
    if w == "" {
      assert w + rest == rest;
    } else {
      assert (w + rest)[1..] == w[1..] + rest;
      IntsAfterBlank(w[1..], rest);
    }
  }

  lemma {:induction false} DigitRunOf(d: string, rest: string)
    requires AllDigits(d) && (rest == "" || !IsDigit(rest[0]))
    ensures DigitRun(d + rest) == |d|
  {
    if d == "" {
      assert d + rest == rest;
    } else {
      assert (d + rest)[1..] == d[1..] + rest;
      DigitRunOf(d[1..], rest);
    }
  }

  lemma IntsAfterNumber(d: string, rest: string)
    requires d != "" && AllDigits(d) && (rest == "" || !IsDigit(rest[0]))
    ensures ParseIntList(d + rest) == [IntOf(d)] + ParseIntList(rest)
  {
    hide DigitRun, IntOf;
    DigitRunOf(d, rest);
    assert (d + rest)[..|d|] == d && (d + rest)[|d|..] == rest;
  }

  lemma NoInts()
    ensures ParseIntList("") == []
  {
  }

  /** Reading a request gives the values of its items, in order. */
  lemma {:induction false} IntsOfRequest(first: Item, more: seq<Item>)
    requires WellFormedItem(first) && WellFormedItems(more)
    ensures ParseIntList(RequestText(first, more)) == [ItemValue(first)] + ItemValues(more)
    decreases more
  {
    hide ParseIntList, DigitRun, IntOf;
    var d, tail := first.digits, first.post + MoreText(more);
    assert RequestText(first, more) == first.pre + (d + tail);
    IntsAfterBlank(first.pre, d + tail);
    IntsAfterNumber(d, tail);
    if more == [] {
      NoInts();
      IntsAfterBlank(first.post, "");
      assert tail == first.post + "";
    } else {
      var rest := RequestText(more[0], more[1..]);
      assert MoreText(more) == "," + rest;
      assert tail == (first.post + ",") + rest;
      IntsAfterBlank(first.post + ",", rest);
      IntsOfRequest(more[0], more[1..]);
    }
  }

  /** A strict body names at least one frame, so an empty request can never reach the later checks. */
  lemma StrictBodyNonEmpty(s: string)
    requires IsStrictSelectBody(s)
    ensures ParseIntList(s) != [] && forall x :: x in ParseIntList(s) ==> 0 <= x
  {
    var first, more := StrictIsRequest(BeforeNumber, s);
    IntsOfRequest(first, more);
    IntsNonNegative(s);
  }

  lemma {:induction false} IntsNonNegative(s: string)
    ensures forall x :: x in ParseIntList(s) ==> 0 <= x
    decreases |s|
  {
    if s != "" {
      IntsNonNegative(if IsDigit(s[0]) then s[DigitRun(s)..] else s[1..]);
    }
  }

  /** A strict body has no dash, so it can never be mistaken for a range such as "4-182". */
  lemma {:induction false} StrictBodyChars(state: ScanState, s: string)
    requires StrictFrom(state, s)
    ensures forall c :: c in s ==> IsSpace(c) || IsDigit(c) || c == ','
    decreases |s|
  {
    if s != "" {
      var next := if s[0] == ',' then BeforeNumber
                  else if IsDigit(s[0]) then InNumber
                  else if state.BeforeNumber? then BeforeNumber else AfterNumber;
      StrictBodyChars(next, s[1..]);
    }
  }

  // ---------------------------------------------------------------- writing a request

  function DigitChar(d: nat): (c: char)
    requires d < 10
    ensures IsDigit(c) && DigitValue(c) == d
  {
    (d + '0' as int) as char
  }

  function Decimal(n: nat): (s: string)
    ensures s != "" && AllDigits(s)
  {
    (if n < 10 then "" else Decimal(n / 10)) + [DigitChar(n % 10)]
  }

  lemma {:induction false} IntOfDecimal(n: nat)
    ensures IntOf(Decimal(n)) == n
  {
    var s := Decimal(n);
    if n < 10 {
      assert s == [DigitChar(n)] && s[..|s| - 1] == "";
    } else {
      assert s[..|s| - 1] == Decimal(n / 10);
      IntOfDecimal(n / 10);
    }
  }

  function DecimalItems(ns: seq<nat>): (items: seq<Item>)
    ensures |items| == |ns| && WellFormedItems(items)
    ensures forall i :: 0 <= i < |items| ==> items[i].post == ""
  {
    if ns == [] then [] else [Item(" ", Decimal(ns[0]), "")] + DecimalItems(ns[1..])
  }

  /** `ns` written as `n0, n1, n2` */
  function RenderFrames(ns: seq<nat>): string
    requires ns != []
  {
    RequestText(Item("", Decimal(ns[0]), ""), DecimalItems(ns[1..]))
  }

  lemma {:induction false} DecimalItemValues(ns: seq<nat>)
    ensures ItemValues(DecimalItems(ns)) == ns
  {
    if ns != [] {
      IntOfDecimal(ns[0]);
      DecimalItemValues(ns[1..]);
    }
  }

  /** Writing a list of frames and reading it back gives the list, and the text passes the strict check. */
  lemma FramesRoundTrip(ns: seq<nat>)
    requires ns != []
    ensures IsStrictSelectBody(RenderFrames(ns)) && ParseIntList(RenderFrames(ns)) == ns
    ensures Strip(RenderFrames(ns)) == RenderFrames(ns)
  {
    hide StrictFrom, ParseIntList, Strip, IntOf, Decimal, RequestText;
    var first, more := Item("", Decimal(ns[0]), ""), DecimalItems(ns[1..]);
    RequestIsStrict(first, more);
    IntsOfRequest(first, more);
    IntOfDecimal(ns[0]);
    DecimalItemValues(ns[1..]);
    RequestTight(first, more);
  }

  lemma RequestTight(first: Item, more: seq<Item>)
    requires WellFormedItem(first) && WellFormedItems(more)
    requires first.pre == "" && first.post == "" && forall i :: 0 <= i < |more| ==> more[i].post == ""
    ensures Strip(RequestText(first, more)) == RequestText(first, more)
  {
    var s := RequestText(first, more);
    MoreEndsInDigit(more);
    var d := first.digits;
    assert s == d + MoreText(more);
    StripTight(s);
  }

  lemma {:induction false} MoreEndsInDigit(items: seq<Item>)
    requires WellFormedItems(items) && forall i :: 0 <= i < |items| ==> items[i].post == ""
    ensures items != [] ==> IsDigit(MoreText(items)[|MoreText(items)| - 1])
  {
    if items != [] {
      var d := items[0].digits;
      MoreEndsInDigit(items[1..]);
    }
  }

  // ---------------------------------------------------------------- the answer letter

  const OPTION_LABELS := "ABCDEFGHIJKLMNOPQRSTUVWXYZ"

  function Labels(numChoices: int): (r: string)
    ensures r != "" && r[0] == 'A'
    ensures forall c :: c in r ==> IsUpper(c)
  {
    var l := Take(OPTION_LABELS, Max(0, numChoices));
    if l == "" then "ABCDE" else l
  }

  /** `_is_strict_answer_body` */
  predicate IsStrictAnswerBody(s: string, labels: string) {
    var t := Strip(Upper(s));
    |t| == 1 && t[0] in labels
  }

  /** The first allowed capital at or after `i`; with `bounded`, one that is a word by itself. */
  function FirstLabel(t: string, allowed: string, bounded: bool, i: nat): (r: Option<char>)
    requires i <= |t|
    ensures r.Some? ==> r.value in allowed && r.value in t
    decreases |t| - i
  {
    if i == |t| then None
    else if && t[i] in allowed
            && (bounded ==> (i == 0 || !IsWord(t[i - 1])) && (i + 1 == |t| || !IsWord(t[i + 1])))
    then Some(t[i])
    else FirstLabel(t, allowed, bounded, i + 1)
  }

  /** `normalize_answer_letter` */
  function NormalizeAnswer(s: string, labels: string): (r: Option<char>)
    ensures r.Some? ==> r.value in labels
  {
    var t := Upper(Strip(s));
    if |t| == 1 && t[0] in labels then Some(t[0])
    else
      var word := FirstLabel(t, labels, true, 0);
      if word.Some? then word else FirstLabel(t, labels, false, 0)
  }

  lemma {:induction false} UpperOfLStrip(s: string)
    ensures Upper(LStrip(s)) == LStrip(Upper(s))
  {
    if s != "" && IsSpace(s[0]) {
      assert Upper(s)[1..] == Upper(s[1..]);
      UpperOfLStrip(s[1..]);
    }
  }

  lemma {:induction false} UpperOfRStrip(s: string)
    ensures Upper(RStrip(s)) == RStrip(Upper(s))
  {
    if s != "" && IsSpace(s[|s| - 1]) {
      assert Upper(s)[..|s| - 1] == Upper(s[..|s| - 1]);
      UpperOfRStrip(s[..|s| - 1]);
    }
  }

  lemma UpperOfStrip(s: string)
    ensures Upper(Strip(s)) == Strip(Upper(s))
  {
    UpperOfLStrip(s);
    UpperOfRStrip(LStrip(s));
  }

  /** A strict answer body normalises to the one letter it consists of, which is among the labels. */
  lemma StrictAnswerNormalizes(s: string, labels: string)
    requires IsStrictAnswerBody(s, labels)
    ensures Upper(Strip(s)) == [Strip(Upper(s))[0]]
    ensures NormalizeAnswer(s, labels) == Some(Strip(Upper(s))[0])
  {
    UpperOfStrip(s);
  }

  lemma {:induction false} NoLabel(t: string, allowed: string, i: nat)
    requires i <= |t| && FirstLabel(t, allowed, false, i).None?
    ensures forall k :: i <= k < |t| ==> t[k] !in allowed
    decreases |t| - i
  {
    if i < |t| {
      NoLabel(t, allowed, i + 1);
    }
  }

  /** Normalising is more generous than the strict check: it finds a letter wherever the text has one of the labels,
  while the strict bodies are those of a single character. */
  lemma LenientAnswer(s: string, labels: string)
    ensures var t := Upper(Strip(s));
            (NormalizeAnswer(s, labels).Some? <==> exists k :: 0 <= k < |t| && t[k] in labels)
            && (IsStrictAnswerBody(s, labels) <==> |t| == 1 && NormalizeAnswer(s, labels).Some?)
  {
    UpperOfStrip(s);
    var t := Upper(Strip(s));
    if NormalizeAnswer(s, labels).None? {
      NoLabel(t, labels, 0);
    } else {
      var c := NormalizeAnswer(s, labels).value;
      assert c in t;
    }
  }

  /** The characters taken for white space, in ASCII. */
  lemma SpacesAre(c: char)
    ensures IsSpace(c) <==> c in "\t\n\U{0B}\U{0C}\r\U{1C}\U{1D}\U{1E}\U{1F} "
  {
    var s := "\t\n\U{0B}\U{0C}\r\U{1C}\U{1D}\U{1E}\U{1F} ";
    assert s == ['\t', '\n', '\U{0B}', '\U{0C}', '\r', '\U{1C}', '\U{1D}', '\U{1E}', '\U{1F}', ' '];
  }

  lemma CapitalsAre(c: char)
    ensures |OPTION_LABELS| == 26 && forall i :: 0 <= i < 26 ==> OPTION_LABELS[i] as int == 65 + i
    ensures IsUpper(c) <==> c in OPTION_LABELS
  {
    assert |OPTION_LABELS| == 26;
    if IsUpper(c) {
      assert OPTION_LABELS[c as int - 65] == c;
    }
  }

  lemma SmallsAre(c: char)
    ensures var small := "abcdefghijklmnopqrstuvwxyz";
            |small| == 26 && (forall i :: 0 <= i < 26 ==> small[i] as int == 97 + i) && (IsLower(c) <==> c in small)
  {
    var small := "abcdefghijklmnopqrstuvwxyz";
    assert |small| == 26;
    if IsLower(c) {
      assert small[c as int - 97] == c;
    }
  }

  /** The labels are the capitals, and every small letter stands for its capital. */
  lemma LettersAre(c: char, k: nat)
    ensures IsUpper(c) <==> c in OPTION_LABELS
    ensures IsLower(c) <==> c in "abcdefghijklmnopqrstuvwxyz"
    ensures k < 26 ==> UpperChar("abcdefghijklmnopqrstuvwxyz"[k]) == OPTION_LABELS[k]
    ensures !IsLower(c) ==> UpperChar(c) == c
    ensures IsWord(c) <==> IsUpper(c) || IsLower(c) || '0' <= c <= '9' || c == '_'
  {
    CapitalsAre(c);
    SmallsAre(c);
  }

  /** A question with `numChoices` choices has that many labels, from A on, but no more than there are letters; one
  without choices has five. */
  lemma LabelsAre(numChoices: int)
    ensures var l := Labels(numChoices);
            |l| == (if numChoices <= 0 then 5 else if numChoices <= 26 then numChoices else 26)
            && forall k :: 0 <= k < |l| ==> l[k] as int == 'A' as int + k
  {
    CapitalsAre('A');
    var five := "ABCDE";
    assert |five| == 5 && five[0] == 'A' && five[1] == 'B' && five[2] == 'C' && five[3] == 'D' && five[4] == 'E';
  }

  /** A label stands at a place of the text. */
  predicate LabelAt(t: string, labels: string, k: nat) { k < |t| && t[k] in labels }

  /** It is a word by itself: no letter, digit or underscore next to it. */
  predicate AloneAt(t: string, labels: string, k: nat) {
    && LabelAt(t, labels, k)
    && (k > 0 ==> !IsWord(t[k - 1])) && (k + 1 < |t| ==> !IsWord(t[k + 1]))
  }

  lemma {:induction false} FirstFound(t: string, labels: string, bounded: bool, i: nat) returns (k: nat)
    requires i <= |t|
    ensures var r := FirstLabel(t, labels, bounded, i);
            && i <= k <= |t|
            && (forall j :: i <= j < k ==> if bounded then !AloneAt(t, labels, j) else !LabelAt(t, labels, j))
            && if k == |t| then r.None?
               else r == Some(t[k]) && if bounded then AloneAt(t, labels, k) else LabelAt(t, labels, k)
    decreases |t| - i
  {
    k := i;
    if i < |t| && !(if bounded then AloneAt(t, labels, i) else LabelAt(t, labels, i)) {
      k := FirstFound(t, labels, bounded, i + 1);
    }
  }

  /** Which letter is found: the first label that is a word by itself, or if there is none, the first at all. */
  lemma LetterChosen(s: string, labels: string) returns (k: nat)
    requires NormalizeAnswer(s, labels).Some?
    ensures var t := Upper(Strip(s));
            && LabelAt(t, labels, k) && NormalizeAnswer(s, labels) == Some(t[k])
            && if AloneAt(t, labels, k) then forall j: nat :: j < k ==> !AloneAt(t, labels, j)
               else (forall j: nat :: !AloneAt(t, labels, j)) && forall j: nat :: j < k ==> !LabelAt(t, labels, j)
  {
    var t := Upper(Strip(s));
    k := FirstFound(t, labels, true, 0);
    if k == |t| {
      k := FirstFound(t, labels, false, 0);
    }
  }

  /** A single label, however spaced or cased, always passes. */
  lemma LabelIsStrict(c: char, labels: string)
    requires c in labels && IsUpper(c)
    ensures Strip([c]) == [c] && IsStrictAnswerBody([c], labels) && NormalizeAnswer([c], labels) == Some(c)
  {
    StripTight([c]);
    assert Upper([c]) == [c];
  }
}
