/** What the decoder of one value does with a JSON text that breaks off too early.

A broken string, array, object or literal is refused. A broken number may be taken for a shorter one. It uses up the
whole text if the last character is a digit; otherwise the reading stops in front of the `.`, `e` or `E`. */
module JsonCuts {
  import opened Py
  import opened Protocol
  import opened Json

  predicate IsFloatMark(c: char) { c == '.' || IsExpMark(c) }

  /** A cut that leaves a float without a digit at its end: it is taken for a shorter number with something behind it.
  */
  predicate BadCut(c: Tree, k: int) { IsFloat(c) && 1 < k < |Text(c)| && !IsDigit(Text(c)[k - 1]) }

  /** The outcomes of decoding the first `k` characters of the text of `c`. */
  predicate Broken(c: Tree, k: int, r: Parsed<Json>) {
    && (r.Got? ==> c.Number? && (r.rest == "" || (IsFloat(c) && IsFloatMark(r.rest[0]))))
    && (r.Got? && r.rest != "" <==> BadCut(c, k))
  }

  lemma TakeSum(a: string, b: string, k: nat)
    requires k <= |a| + |b|
    ensures (a + b)[..k] == if k <= |a| then a[..k] else a + b[..k - |a|]
  {
  }

  lemma SkipsAll(w: string)
    requires AllWs(w)
    ensures SkipWs(w) == ""
  {
    SkipsWs(w, "");
    assert w + "" == w;
  }

  /** A broken unit cannot go on, and does not end the string. */
  lemma UnitCut(u: Unit, k: nat)
    requires UnitOk(u) && 0 < k < |UnitText(u)|
    ensures UnitLength(UnitText(u)[..k]) == 0 && UnitText(u)[..k][0] != '"'
  {
    hide IsHex, IsEscape;
    if u.Code? && k > 1 {
      NoEscapeU();
      assert UnitText(u)[..k][1] == 'u';
    }
  }

  lemma {:induction false} StringCut(units: seq<Unit>, k: nat)
    requires StringOk(units) && k <= |UnitsText(units)|
    ensures ScanString(UnitsText(units)[..k]).Fail?
    decreases |units|
  {
    hide UnitLength, UnitText, UnitOk;
    if k > 0 {
      var u, more := UnitText(units[0]), UnitsText(units[1..]);
      TakeSum(u, more, k);
      if k < |u| {
        UnitCut(units[0], k);
      } else {
        var rest := more[..k - |u|];
        UnitTaken(units[0], rest);
        assert UnitsText(units)[..k] == u + rest;
        assert (u + rest)[|u|..] == rest && (u + rest)[0] == u[0];
        StringCut(units[1..], k - |u|);
      }
    }
  }

  // ---------------------------------------------------------------- numbers

  lemma FracCut(digits: string, k: nat)
    requires DigitsOk(digits) && 0 < k <= 1 + |digits|
    ensures FracLength(("." + digits)[..k]) == if k == 1 then 0 else k
    ensures IsDigit(("." + digits)[k - 1]) <==> k > 1
  {
    var f := ("." + digits)[..k];
    if k > 1 {
      hide DigitRun;
      assert f[1..] == digits[..k - 1];
      assert digits[..k - 1] + "" == digits[..k - 1];
      DigitRunOf(digits[..k - 1], "");
    }
  }

  lemma ExpCut(e: Exponent, k: nat)
    requires ExpOk(e) && 0 < k <= |ExpText(Some(e))|
    ensures ExpLength(ExpText(Some(e))[..k]) == if k <= 1 + |e.sign| then 0 else k
    ensures IsDigit(ExpText(Some(e))[k - 1]) <==> k > 1 + |e.sign|
  {
    hide DigitRun, ExpLength;
    var s := ExpText(Some(e));
    var n := k - 1 - |e.sign|;
    if n > 0 {
      var d := e.digits[..n];
      assert s[..k] == [e.mark] + (e.sign + d);
      assert d + "" == d && IsDigit(e.digits[0]);
      DigitRunOf(d, "");
      ExpDigits(e.mark, e.sign, d);
    } else if k == 1 {
      assert s[..k] == [e.mark] + "";
      BareMark(e.mark, "");
    } else {
      assert s[..k] == [e.mark] + e.sign;
      BareMark(e.mark, e.sign);
    }
  }

  lemma BareMark(mark: char, sign: string)
    requires sign == "" || sign == "+" || sign == "-"
    ensures ExpLength([mark] + sign) == 0
  {
    var s := [mark] + sign;
    assert s[1 + |sign|..] == "";
  }

  lemma NumberTailIs(s: string, m: nat, k: nat)
    requires FracLength(s) == m && ExpLength(s[m..]) == k
    ensures NumberTail(s).1 == s[m..][k..]
  {
  }

  lemma TailOfFrac(digits: string, k: nat)
    requires DigitsOk(digits) && 0 < k <= 1 + |digits|
    ensures var s := ("." + digits)[..k]; NumberTail(s).1 == if k == 1 then "." else ""
  {
    hide FracLength, ExpLength, DigitsOk, NumberTail;
    var s := ("." + digits)[..k];
    FracCut(digits, k);
    if k > 1 {
      assert s[k..] == "";
      NoExp("");
      NumberTailIs(s, k, 0);
    } else {
      assert s[0..] == s;
      NoExp(s);
      NumberTailIs(s, 0, 0);
    }
  }

  lemma NoExp(s: string)
    requires s == "" || s[0] == '.'
    ensures ExpLength(s) == 0
  {
  }

  /** A broken fraction or exponent is used up if it ends in a digit, else the reading stops in front of its mark. */
  lemma TailCut(frac: Option<string>, exp: Option<Exponent>, k: nat)
    requires (frac.Some? ==> DigitsOk(frac.value)) && (exp.Some? ==> ExpOk(exp.value))
    requires 0 < k <= |FracText(frac) + ExpText(exp)|
    ensures var s := (FracText(frac) + ExpText(exp))[..k];
            var rest := NumberTail(s).1;
            (rest == "" || IsFloatMark(rest[0])) && (rest == "" <==> IsDigit(s[k - 1]))
  {
    hide DigitRun, FracLength, ExpLength, DigitsOk, NumberTail;
    var f, e := FracText(frac), ExpText(exp);
    var s := (f + e)[..k];
    TakeSum(f, e, k);
    if k <= |f| {
      FracCut(frac.value, k);
      TailOfFrac(frac.value, k);
      assert s[k - 1] == ("." + frac.value)[k - 1];
    } else {
      var x := e[..k - |f|];
      assert s == f + x && x[0] == exp.value.mark && s[k - 1] == e[|x| - 1];
      FracLengthOf(frac, x);
      assert s[|f|..] == x;
      ExpCut(exp.value, |x|);
      NumberTailIs(s, |f|, ExpLength(x));
    }
  }

  lemma UnsignedCut(c: Tree, k: nat)
    requires c.Number? && WellFormed(c)
    requires k < |c.digits + (FracText(c.frac) + ExpText(c.exp))|
    ensures var s := (c.digits + (FracText(c.frac) + ExpText(c.exp)))[..k];
            var r := ParseUnsigned(s);
            (r.Got? ==> r.rest == "" || (IsFloat(c) && IsFloatMark(r.rest[0])))
            && (r.Got? && r.rest != "" <==> k > 0 && !IsDigit(s[k - 1]))
  {
    hide DigitRun, NumberTail, IntLength;
    var tail := FracText(c.frac) + ExpText(c.exp);
    var s := (c.digits + tail)[..k];
    TakeSum(c.digits, tail, k);
    if k == 0 {
      NoDigits();
      assert s == "";
    } else if k <= |c.digits| {
      assert s == c.digits[..k] && s + "" == s;
      IntLengthOf(s, "");
      assert s[k..] == "";
      EmptyTail();
    } else {
      var t := tail[..k - |c.digits|];
      assert s == c.digits + t;
      assert t[0] == tail[0] && !IsDigit(tail[0]);
      IntLengthOf(c.digits, t);
      assert s[|c.digits|..] == t;
      TailCut(c.frac, c.exp, |t|);
    }
  }

  lemma NoDigits()
    ensures IntLength("") == 0
  {
  }

  lemma EmptyTail()
    ensures NumberTail("").1 == ""
  {
  }

  lemma NumberCut(c: Tree, k: nat)
    requires c.Number? && WellFormed(c) && k < |Text(c)|
    ensures Broken(c, k, ParseNumber(Text(c)[..k]))
  {
    hide ParseUnsigned;
    var u := c.digits + (FracText(c.frac) + ExpText(c.exp));
    var sign := if c.minus then "-" else "";
    var s := Text(c)[..k];
    assert Text(c) == sign + u;
    assert IsDigit(c.digits[0]) && u[0] == c.digits[0];
    if k < |sign| {
      assert s == "" && u[..0] == "";
      UnsignedCut(c, 0);
    } else {
      TakeSum(sign, u, k);
      assert s == sign + u[..k - |sign|];
      assert s[|sign|..] == u[..k - |sign|];
      UnsignedCut(c, k - |sign|);
    }
  }

  // ---------------------------------------------------------------- values

  lemma LeafCut(c: Tree, k: nat)
    requires WellFormed(c) && 0 < k < |Text(c)| && (c.Literal? || c.Number? || c.Str?)
    ensures Broken(c, k, ParseValue(Text(c)[..k]))
  {
    hide ParseNumber, ScanString, ParseValue;
    var s := Text(c)[..k];
    if c.Number? {
      NumberCut(c, k);
      assert IsDigit(c.digits[0]);
      NumberAhead(s);
    } else if c.Str? {
      assert Text(c) == "\"" + (UnitsText(c.units) + "\"");
      assert s[1..] == UnitsText(c.units)[..k - 1];
      StringCut(c.units, k - 1);
      StringAhead(s);
    } else {
      LiteralCut(c.word, c.meaning, k);
    }
  }

  lemma LiteralCut(word: string, meaning: Json, k: nat)
    requires IsLiteral(word, meaning) && 0 < k < |word|
    ensures ParseValue(word[..k]).Fail?
  {
    hide ScanString, ParseItems, ParseMembers;
    assert word[..k][0] == word[0];
    if word == "-Infinity" && k > 1 {
      assert word[..k][1..][0] == 'I';
    }
  }

  /** Every proper prefix of a JSON text is refused, unless the text is a number. */
  lemma {:induction false} ValueCut(c: Tree, k: nat)
    requires WellFormed(c) && k < |Text(c)|
    ensures Broken(c, k, ParseValue(Text(c)[..k]))
    decreases c, 0
  {
    hide ParseNumber, ScanString, ParseItems, ParseMembers, ParseLiteral, SkipWs, ItemsText, MembersText;
    var s := Text(c)[..k];
    if k > 0 {
      match c {
        case EmptyArray(ws) =>
          assert s[1..] == ws[..k - 1];
          SkipsAll(ws[..k - 1]);
          NothingParses();
        case Array(items) =>
          assert s[1..] == ItemsText(items)[..k - 1];
          ItemsCut(items, k - 1);
        case EmptyObject(ws) =>
          assert s[1..] == ws[..k - 1];
          SkipsAll(ws[..k - 1]);
          NothingParses();
        case Object(members) =>
          assert s[1..] == MembersText(members)[..k - 1];
          MembersCut(members, k - 1);
        case _ =>
          LeafCut(c, k);
      }
    }
  }

  lemma NothingParses()
    ensures ParseValue("").Fail? && ParseItems("").Fail? && ParseMember("").Fail? && ParseMembers("").Fail?
  {
  }

  /** After a broken value there is no comma and no closing bracket. */
  lemma BrokenValue(c: Tree, k: nat)
    requires WellFormed(c) && k < |Text(c)| && Broken(c, k, ParseValue(Text(c)[..k]))
    ensures var r := ParseValue(Text(c)[..k]);
            r.Got? ==> var t := SkipWs(r.rest); t == "" || (t[0] != ',' && t[0] != ']' && t[0] != '}')
  {
    hide ParseValue;
  }

  lemma {:induction false} ItemsCut(i: Items, k: nat)
    requires ItemsOk(i) && k < |ItemsText(i)|
    ensures var t := SkipWs(ItemsText(i)[..k]); ParseItems(t).Fail? && (t == "" || t[0] != ']')
    decreases i, 1
  {
    hide ParseValue;
    var more := MoreItemsText(i.more);
    var value := Text(i.value);
    var t := value + (i.post + more);
    TakeSum(i.pre, t, k);
    if k <= |i.pre| {
      SkipsAll(i.pre[..k]);
      NothingParses();
    } else {
      var j := k - |i.pre|;
      TextHead(i.value);
      SkipsWs(i.pre, t[..j]);
      TakeSum(value, i.post + more, j);
      if j < |value| {
        ValueCut(i.value, j);
        BrokenValue(i.value, j);
      } else {
        AfterItem(i, j - |value|);
        assert t[..j] == value + (i.post + more)[..j - |value|];
      }
    }
  }

  lemma {:induction false} AfterItem(i: Items, k: nat)
    requires ItemsOk(i) && k < |i.post + MoreItemsText(i.more)|
    ensures ParseItems(Text(i.value) + (i.post + MoreItemsText(i.more))[..k]).Fail?
    decreases i, 0
  {
    hide ParseValue;
    var more := MoreItemsText(i.more);
    var q := (i.post + more)[..k];
    TakeSum(i.post, more, k);
    assert Ends(q);
    Decoded(i.value, q);
    if k <= |i.post| {
      SkipsAll(q);
    } else {
      var l := k - |i.post|;
      SkipsWs(i.post, more[..l]);
      if i.more.NextItem? {
        assert more[..l][1..] == ItemsText(i.more.items)[..l - 1];
        ItemsCut(i.more.items, l - 1);
      }
    }
  }

  lemma KeyCut(units: seq<Unit>, beforeColon: string, afterColon: string, k: nat)
    requires StringOk(units) && AllWs(beforeColon) && AllWs(afterColon)
    requires k <= |MemberHead(UnitsText(units), beforeColon, afterColon)|
    ensures ParseMember(MemberHead(UnitsText(units), beforeColon, afterColon)[..k]).Fail?
  {
    hide ParseValue, ScanString;
    NothingParses();
    var key := UnitsText(units);
    var colon := ":" + afterColon;
    var s := MemberHead(key, beforeColon, afterColon)[..k];
    if 0 < k <= 1 + |key| {
      assert s[1..] == key[..k - 1];
      StringCut(units, k - 1);
    } else if k > 1 + |key| {
      var l := k - 2 - |key|;
      var q := (beforeColon + colon)[..l];
      assert s[1..] == key + ("\"" + q);
      StringDecoded(units, q);
      TakeSum(beforeColon, colon, l);
      if l <= |beforeColon| {
        SkipsAll(q);
      } else {
        var m := l - |beforeColon|;
        SkipsWs(beforeColon, colon[..m]);
        assert colon[..m][1..] == afterColon[..m - 1];
        SkipsAll(afterColon[..m - 1]);
      }
    }
  }

  lemma {:induction false} MembersCut(m: Members, k: nat)
    requires MembersOk(m) && k < |MembersText(m)|
    ensures var t := SkipWs(MembersText(m)[..k]); ParseMembers(t).Fail? && (t == "" || t[0] != '}')
    decreases m, 2
  {
    hide ParseValue, ParseMember, MemberHead;
    var more := MoreMembersText(m.more);
    var head := MemberHead(UnitsText(m.key), m.beforeColon, m.afterColon);
    var t := head + (Text(m.value) + (m.post + more));
    TakeSum(m.pre, t, k);
    if k <= |m.pre| {
      SkipsAll(m.pre[..k]);
      NothingParses();
    } else {
      var j := k - |m.pre|;
      HeadQuote(UnitsText(m.key), m.beforeColon, m.afterColon);
      SkipsWs(m.pre, t[..j]);
      MemberCut(m, j);
    }
  }

  lemma {:induction false} MemberCut(m: Members, k: nat)
    requires MembersOk(m)
    requires var head := MemberHead(UnitsText(m.key), m.beforeColon, m.afterColon);
             k < |head + (Text(m.value) + (m.post + MoreMembersText(m.more)))|
    ensures var head := MemberHead(UnitsText(m.key), m.beforeColon, m.afterColon);
            ParseMembers((head + (Text(m.value) + (m.post + MoreMembersText(m.more))))[..k]).Fail?
    decreases m, 1
  {
    hide ParseValue, ParseMember, MemberHead;
    var more := MoreMembersText(m.more);
    var head := MemberHead(UnitsText(m.key), m.beforeColon, m.afterColon);
    var value := Text(m.value);
    TakeSum(head, value + (m.post + more), k);
    if k <= |head| {
      KeyCut(m.key, m.beforeColon, m.afterColon, k);
    } else {
      var j := k - |head|;
      TextHead(m.value);
      TakeSum(value, m.post + more, j);
      var v := (value + (m.post + more))[..j];
      assert v[0] == value[0];
      KeyDecoded(m.key, m.beforeColon, m.afterColon, v);
      if j < |value| {
        ValueCut(m.value, j);
        BrokenValue(m.value, j);
      } else {
        var q := (m.post + more)[..j - |value|];
        assert v == value + q;
        AfterMember(m, |q|);
        Decoded(m.value, q);
      }
    }
  }

  /** The members after a whole one are refused when they break off anywhere. */
  lemma {:induction false} AfterMember(m: Members, k: nat)
    requires MembersOk(m) && k < |m.post + MoreMembersText(m.more)|
    ensures var q := (m.post + MoreMembersText(m.more))[..k];
            Ends(q) && var t := SkipWs(q); t == "" || (t[0] == ',' && ParseMembers(SkipWs(t[1..])).Fail?)
    decreases m, 0
  {
    hide ParseValue, ParseMembers;
    var more := MoreMembersText(m.more);
    var q := (m.post + more)[..k];
    TakeSum(m.post, more, k);
    if k <= |m.post| {
      SkipsAll(q);
    } else {
      var l := k - |m.post|;
      SkipsWs(m.post, more[..l]);
      if m.more.NextMember? {
        assert more[..l][1..] == MembersText(m.more.members)[..l - 1];
        MembersCut(m.more.members, l - 1);
      }
    }
  }
}
