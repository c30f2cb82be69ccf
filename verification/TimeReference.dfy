/** The time reference of a question, such as `04:19-08:41` (revise/pnp/utils.py). Seconds are exact. */
module TimeReference {
  import opened Py
  import opened Protocol

  /** Python's `int` and `float` of a text, without a value where they raise. Infinities are not modelled. */
  datatype Numerals = Numerals(integer: string -> Option<int>, float: string -> Option<real>)

  function MaxReal(a: real, b: real): real { if a < b then b else a }

  // ---------------------------------------------------------------- reading

  /** Every run of white space as one space. */
  function Collapse(s: string): string {
    if s == "" then ""
    else if !IsSpace(s[0]) then [s[0]] + Collapse(s[1..])
    else (if |s| > 1 && IsSpace(s[1]) then "" else " ") + Collapse(s[1..])
  }

  /** `collapse_ws` */
  function CollapseWs(s: string): string { Strip(Collapse(s)) }

  /** `s.split(c)` */
  function Split(s: string, c: char): (r: seq<string>)
    ensures r != []
  {
    if s == "" then [""]
    else if s[0] == c then [""] + Split(s[1..], c)
    else
      var more := Split(s[1..], c);
      [[s[0]] + more[0]] + more[1..]
  }

  function NonEmpty(parts: seq<string>): (r: seq<string>)
    ensures forall p :: p in r <==> p in parts && p != ""
  {
    if parts == [] then [] else (if parts[0] == "" then [] else [parts[0]]) + NonEmpty(parts[1..])
  }

  function Clock(hours: Option<int>, minutes: Option<int>, seconds: Option<real>): Option<real> {
    if hours.None? || minutes.None? || seconds.None? then None
    else Some(MaxReal(0.0, hours.value as real * 3600.0 + minutes.value as real * 60.0 + seconds.value))
  }

  /** `parse_time_to_seconds` */
  function ParseTime(num: Numerals, text: string): Option<real> {
    var parts := NonEmpty(Split(CollapseWs(text), ':'));
    if |parts| == 2 then Clock(Some(0), num.integer(parts[0]), num.float(parts[1]))
    else if |parts| == 3 then Clock(num.integer(parts[0]), num.integer(parts[1]), num.float(parts[2]))
    else None
  }

  /** Where the first `c` stands. */
  function Find(s: string, c: char): (r: Option<nat>)
    ensures r.Some? ==> r.value < |s|
  {
    if s == "" then None
    else if s[0] == c then Some(0)
    else match Find(s[1..], c) case None => None case Some(i) => Some(i + 1)
  }

  /** The window of two times on a timeline of one frame a second: the earlier one down, the later one up, held to the
  timeline. */
  function TimeRange(startS: real, endS: real, timelineLen: int): (r: Option<(int, int)>)
    ensures r.Some? <==> timelineLen > 0
    ensures r.Some? ==> 0 <= r.value.0 <= r.value.1 < timelineLen
  {
    if timelineLen <= 0 then None
    else
      var (a, b) := (startS.Floor, Ceil(endS));
      var (lo, hi) := if b < a then (b, a) else (a, b);
      Some((Max(0, Min(lo, timelineLen - 1)), Max(0, Min(hi, timelineLen - 1))))
  }

  /** The two times of a reference. The words that stand for no reference are refused like all texts without a dash. */
  function Times(num: Numerals, text: string): Option<(real, real)> {
    var t := CollapseWs(text);
    match Find(t, '-')
    case None => None
    case Some(i) =>
      var start, end := ParseTime(num, Strip(t[..i])), ParseTime(num, Strip(t[i + 1..]));
      if start.None? || end.None? then None else Some((start.value, end.value))
  }

  /** `parse_time_reference_range` */
  function ParseReference(num: Numerals, text: string, timelineLen: int): (r: Option<(int, int)>)
    ensures r.Some? <==> Times(num, text).Some? && timelineLen > 0
    ensures r.Some? ==> 0 <= r.value.0 <= r.value.1 < timelineLen
  {
    match Times(num, text)
    case None => None
    case Some((start, end)) => TimeRange(start, end, timelineLen)
  }

  /** A second of the timeline belongs to a reference when the time of the reference and the second, taken with a
  neighbour to round up to, overlap. Of a reference that is written backwards over at least one whole second, only the
  whole seconds between its times belong to it. */
  ghost predicate Touched(startS: real, endS: real, second: int) {
    if endS < startS && Ceil(endS) <= startS.Floor then endS <= second as real <= startS
    else startS < second as real + 1.0 && second as real < endS + 1.0
  }

  /** Some second of the timeline belongs to the reference. */
  ghost predicate Meets(startS: real, endS: real, timelineLen: int) {
    exists second :: 0 <= second < timelineLen && Touched(startS, endS, second)
  }

  lemma TouchedBetween(startS: real, endS: real, second: int)
    ensures var (a, b) := (startS.Floor, Ceil(endS));
            Touched(startS, endS, second) <==> if b < a then b <= second <= a else a <= second <= b
  {
  }

  /** The window holds exactly the seconds of the timeline that belong to the reference. Of a reference that misses the
  timeline it holds the last second alone, as no time is negative. */
  lemma WindowExactly(startS: real, endS: real, timelineLen: int)
    requires timelineLen > 0
    ensures var (lo, hi) := TimeRange(startS, endS, timelineLen).value;
            if Meets(startS, endS, timelineLen)
            then forall second :: 0 <= second < timelineLen ==>
                                    (lo <= second <= hi <==> Touched(startS, endS, second))
            else startS >= 0.0 && endS >= 0.0 ==> lo == hi == timelineLen - 1
    ensures 0.0 <= startS <= endS ==> (Meets(startS, endS, timelineLen) <==> startS < timelineLen as real)
  {
    hide Touched;
    forall second ensures var (a, b) := (startS.Floor, Ceil(endS));
                          Touched(startS, endS, second) <==> if b < a then b <= second <= a else a <= second <= b {
      TouchedBetween(startS, endS, second);
    }
    var (a, b) := (startS.Floor, Ceil(endS));
    assert Touched(startS, endS, a) && Touched(startS, endS, b);
    assert Touched(startS, endS, 0) <==> if b < a then b <= 0 <= a else a <= 0 <= b;
    assert Touched(startS, endS, timelineLen - 1) <==>
           if b < a then b <= timelineLen - 1 <= a else a <= timelineLen - 1 <= b;
  }

  lemma TimesNotNegative(num: Numerals, text: string)
    requires Times(num, text).Some?
    ensures Times(num, text).value.0 >= 0.0 && Times(num, text).value.1 >= 0.0
  {
    hide CollapseWs, Split, NonEmpty, Strip, Find;
  }

  // ---------------------------------------------------------------- what references say

  /** Minutes and seconds, or hours, minutes and seconds, in digits. */
  type Stamp = s: seq<string> | IsStamp(s) witness ["0", "0"]

  predicate IsStamp(s: seq<string>) {
    2 <= |s| <= 3 && forall i :: 0 <= i < |s| ==> s[i] != "" && AllDigits(s[i])
  }

  function Join(s: seq<string>): string
    requires s != []
  {
    if |s| == 1 then s[0] else s[0] + (":" + Join(s[1..]))
  }

  function SecondsOf(s: Stamp): real {
    if |s| == 2 then (IntOf(s[0]) * 60 + IntOf(s[1])) as real
    else (IntOf(s[0]) * 3600 + IntOf(s[1]) * 60 + IntOf(s[2])) as real
  }

  /** Digits are read as the number they stand for. */
  ghost predicate ReadsDigits(num: Numerals) {
    forall d :: d != "" && AllDigits(d) ==> num.integer(d) == Some(IntOf(d)) && num.float(d) == Some(IntOf(d) as real)
  }

  /** Two stamps with a dash between them and white space anywhere around them. */
  ghost predicate IsReference(num: Numerals, text: string, a: Stamp, b: Stamp) {
    ReadsDigits(num) && exists w :: Spaced(w, text, Join(a), Join(b))
  }

  predicate Spaced(w: seq<string>, text: string, a: string, b: string) {
    |w| == 4 && (forall i :: 0 <= i < 4 ==> Blank(w[i])) && text == w[0] + (a + (w[1] + ("-" + (w[2] + (b + w[3])))))
  }

  /** One space for some white space. */
  function Squeezed(w: string): string { if w == "" then "" else " " }

  predicate Dense(s: string) { forall i :: 0 <= i < |s| ==> !IsSpace(s[i]) }

  lemma {:induction false} CollapseBlank(w: string, rest: string)
    requires Blank(w) && (rest == "" || !IsSpace(rest[0]))
    ensures Collapse(w + rest) == Squeezed(w) + Collapse(rest)
  {
    if w == "" {
      assert w + rest == rest;
    } else {
      assert (w + rest)[1..] == w[1..] + rest;
      CollapseBlank(w[1..], rest);
    }
  }

  lemma {:induction false} CollapseDense(s: string, rest: string)
    requires Dense(s)
    ensures Collapse(s + rest) == s + Collapse(rest)
  {
    if s == "" {
      assert s + rest == rest;
    } else {
      assert (s + rest)[1..] == s[1..] + rest;
      CollapseDense(s[1..], rest);
      assert s == [s[0]] + s[1..];
    }
  }

  lemma CollapseOnly(s: string)
    requires Dense(s) && s != ""
    ensures CollapseWs(s) == s && Strip(s) == s
  {
    CollapseDense(s, "");
    assert s + "" == s;
    StripTight(s);
  }

  lemma {:induction false} FindAfter(s: string, c: char, rest: string)
    requires forall i :: 0 <= i < |s| ==> s[i] != c
    ensures Find(s + ([c] + rest), c) == Some(|s|)
  {
    if s == "" {
      assert s + ([c] + rest) == [c] + rest;
    } else {
      assert (s + ([c] + rest))[1..] == s[1..] + ([c] + rest);
      FindAfter(s[1..], c, rest);
    }
  }

  lemma {:induction false} SplitFirst(s: string, c: char, rest: string)
    requires forall i :: 0 <= i < |s| ==> s[i] != c
    ensures Split(s, c) == [s] && Split(s + ([c] + rest), c) == [s] + Split(rest, c)
  {
    var t := s + ([c] + rest);
    if s == "" {
      assert t == [c] + rest;
    } else {
      assert t[1..] == s[1..] + ([c] + rest);
      SplitFirst(s[1..], c, rest);
      assert s == [s[0]] + s[1..];
    }
  }

  lemma StampText(s: Stamp)
    ensures var t := Join(s); t != "" && Dense(t) && forall i :: 0 <= i < |t| ==> t[i] != '-'
    ensures NonEmpty(Split(Join(s), ':')) == s
  {
    hide Split, Dense;
    SplitFirst(s[0], ':', Join(s[1..]));
    SplitFirst(s[1], ':', "");
    if |s| == 2 {
      assert Join(s[1..]) == s[1];
      TwoKept(s[0], s[1]);
      assert s == [s[0], s[1]];
    } else {
      SplitFirst(s[1], ':', s[2]);
      SplitFirst(s[2], ':', "");
      assert Join(s[1..]) == s[1] + (":" + s[2]);
      assert [s[1]] + [s[2]] == [s[1], s[2]] && [s[0]] + [s[1], s[2]] == s;
      ThreeKept(s[0], s[1], s[2]);
    }
    StampDense(s);
  }

  lemma StampDense(s: Stamp)
    ensures var t := Join(s); t != "" && Dense(t) && forall i :: 0 <= i < |t| ==> t[i] != '-'
  {
    if |s| == 2 {
      assert Join(s) == s[0] + (":" + s[1]);
    } else {
      assert Join(s[1..]) == s[1] + (":" + s[2]);
      assert Join(s) == s[0] + (":" + (s[1] + (":" + s[2])));
    }
  }

  lemma TwoKept(a: string, b: string)
    requires a != "" && b != ""
    ensures NonEmpty([a, b]) == [a, b] && [a] + [b] == [a, b]
  {
    assert [a, b][1..] == [b] && [b][1..] == [];
    assert NonEmpty([b]) == [b];
  }

  lemma ThreeKept(a: string, b: string, c: string)
    requires a != "" && b != "" && c != ""
    ensures NonEmpty([a, b, c]) == [a, b, c]
  {
    assert [a, b, c][1..] == [b, c];
    TwoKept(b, c);
    assert [a] + [b, c] == [a, b, c];
  }

  lemma StampRead(num: Numerals, s: Stamp)
    requires ReadsDigits(num)
    ensures ParseTime(num, Join(s)) == Some(SecondsOf(s))
  {
    hide Split, NonEmpty, CollapseWs, Join, AllDigits, IntOf;
    StampText(s);
    CollapseOnly(Join(s));
  }

  lemma CollapsedText(w: seq<string>, text: string, a: string, b: string)
    requires Spaced(w, text, a, b) && Dense(a) && Dense(b) && a != "" && b != ""
    ensures Collapse(text) ==
            Squeezed(w[0]) + (a + (Squeezed(w[1]) + ("-" + (Squeezed(w[2]) + (b + Squeezed(w[3]))))))
  {
    hide Collapse, Squeezed;
    BlankAlone(w[3]);
    CollapseDense(b, w[3]);
    CollapseBlank(w[2], b + w[3]);
    CollapseDense("-", w[2] + (b + w[3]));
    CollapseBlank(w[1], "-" + (w[2] + (b + w[3])));
    CollapseDense(a, w[1] + ("-" + (w[2] + (b + w[3]))));
    CollapseBlank(w[0], a + (w[1] + ("-" + (w[2] + (b + w[3])))));
  }

  lemma BlankAlone(w: string)
    requires Blank(w)
    ensures Collapse(w) == Squeezed(w)
  {
    CollapseBlank(w, "");
    assert w + "" == w && Squeezed(w) + "" == Squeezed(w);
  }

  lemma Regroup(a: string, v: string, w: string, b: string, z: string)
    ensures a + (v + ("-" + (w + (b + z)))) == (a + v + ("-" + (w + b))) + z
  {
  }

  /** The text of a reference after its white space has been collapsed. */
  lemma ReferenceText(w: seq<string>, text: string, a: string, b: string)
    requires Spaced(w, text, a, b) && Dense(a) && Dense(b) && a != "" && b != ""
    ensures CollapseWs(text) == a + Squeezed(w[1]) + ("-" + (Squeezed(w[2]) + b))
  {
    hide Collapse, Strip, Squeezed;
    CollapsedText(w, text, a, b);
    var inner := a + Squeezed(w[1]) + ("-" + (Squeezed(w[2]) + b));
    Regroup(a, Squeezed(w[1]), Squeezed(w[2]), b, Squeezed(w[3]));
    SqueezedBlank(w[0]);
    SqueezedBlank(w[3]);
    assert inner[0] == a[0] && inner[|inner| - 1] == b[|b| - 1];
    StripOf(Squeezed(w[0]), inner, Squeezed(w[3]));
  }

  lemma SqueezedBlank(w: string)
    ensures Blank(Squeezed(w))
  {
  }

  /** Every reference is read as the two times it names. */
  lemma ReferenceRead(num: Numerals, text: string, a: Stamp, b: Stamp)
    requires IsReference(num, text, a, b)
    ensures Times(num, text) == Some((SecondsOf(a), SecondsOf(b)))
  {
    hide ParseTime, CollapseWs, Join, SecondsOf, Strip, ReadsDigits, Dense;
    var w :| Spaced(w, text, Join(a), Join(b));
    StampText(a);
    StampText(b);
    ReferenceText(w, text, Join(a), Join(b));
    var left, right := Join(a) + Squeezed(w[1]), Squeezed(w[2]) + Join(b);
    var t := left + ("-" + right);
    FindAfter(left, '-', right);
    assert t[..|left|] == left && t[|left| + 1..] == right;
    Ends(Join(a), Squeezed(w[1]), Squeezed(w[2]), Join(b));
    StampRead(num, a);
    StampRead(num, b);
  }

  lemma Ends(a: string, v: string, w: string, b: string)
    requires a != "" && b != "" && Dense(a) && Dense(b) && Blank(v) && Blank(w)
    ensures Strip(a + v) == a && Strip(w + b) == b
  {
    hide Strip;
    StripOf("", a, v);
    assert "" + (a + v) == a + v;
    StripOf(w, b, "");
    assert b + "" == b;
  }
}
