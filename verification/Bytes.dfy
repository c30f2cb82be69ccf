/** Little-endian records of unsigned fields, as Python's `struct` packs them, and the texts that are UTF-8 (RFC 3629).
*/
module Bytes {
  type Byte = x: int | 0 <= x < 256

  function Pow256(w: nat): (r: nat)
    ensures r > 0
  {
    if w == 0 then 1 else 256 * Pow256(w - 1)
  }

  /** The number a little-endian field stands for. */
  function Le(b: seq<Byte>): nat {
    if b == [] then 0 else b[0] + 256 * Le(b[1..])
  }

  function LeBytes(w: nat, v: nat): (r: seq<Byte>)
    ensures |r| == w
  {
    if w == 0 then [] else [v % 256] + LeBytes(w - 1, v / 256)
  }

  lemma {:induction false} LeRoundTrip(w: nat, v: nat)
    requires v < Pow256(w)
    ensures Le(LeBytes(w, v)) == v
  {
    if w > 0 {
      Quotient(v, Pow256(w - 1));
      LeRoundTrip(w - 1, v / 256);
      assert LeBytes(w, v)[1..] == LeBytes(w - 1, v / 256);
    }
  }

  lemma Quotient(v: nat, p: nat)
    requires v < 256 * p
    ensures v / 256 < p
  {
  }

  /** The bytes of a record whose fields have the widths `format`. */
  function Pack(format: seq<nat>, values: seq<nat>): seq<Byte>
    requires |format| == |values|
  {
    if format == [] then [] else LeBytes(format[0], values[0]) + Pack(format[1..], values[1..])
  }

  function Width(format: seq<nat>): nat {
    if format == [] then 0 else format[0] + Width(format[1..])
  }

  function Unpack(format: seq<nat>, b: seq<Byte>): (r: seq<nat>)
    requires |b| == Width(format)
    ensures |r| == |format|
    decreases |format|
  {
    if format == [] then [] else [Le(b[..format[0]])] + Unpack(format[1..], b[format[0]..])
  }

  ghost predicate Fits(format: seq<nat>, values: seq<nat>) {
    |format| == |values| && forall i :: 0 <= i < |format| ==> values[i] < Pow256(format[i])
  }

  /** Reading a packed record gives its fields. */
  lemma {:induction false} PackRoundTrip(format: seq<nat>, values: seq<nat>)
    requires Fits(format, values)
    ensures |Pack(format, values)| == Width(format) && Unpack(format, Pack(format, values)) == values
    decreases |format|
  {
    if format != [] {
      var w, v := format[0], values[0];
      LeRoundTrip(w, v);
      PackRoundTrip(format[1..], values[1..]);
      var b := Pack(format, values);
      assert b[..w] == LeBytes(w, v) && b[w..] == Pack(format[1..], values[1..]);
      assert [v] + values[1..] == values;
    }
  }

  lemma NoWidth(format: seq<nat>)
    ensures Width(format[..0]) == 0
  {
  }

  lemma WidthStep(format: seq<nat>, i: nat)
    requires i < |format|
    ensures Width(format[..i + 1]) == Width(format[..i]) + format[i]
  {
    assert format[..i + 1] == format[..i] + [format[i]];
    WidthSum(format[..i], [format[i]]);
    assert [format[i]][1..] == [];
  }

  /** Field `i` is read from the bytes behind the fields in front of it. */
  lemma {:induction false} UnpackAt(format: seq<nat>, b: seq<Byte>, i: nat)
    requires |b| == Width(format) && i < |format|
    ensures var at := Width(format[..i]);
            at + format[i] <= |b| && Unpack(format, b)[i] == Le(b[at..at + format[i]])
    decreases |format|
  {
    hide Le;
    if i == 0 {
      assert format[..0] == [];
      assert b[0..format[0]] == b[..format[0]];
    } else {
      var w, more := format[0], format[1..];
      UnpackAt(more, b[w..], i - 1);
      assert format[..i] == [w] + more[..i - 1];
      assert format[..i][1..] == more[..i - 1];
      TailSlice(b, w, Width(more[..i - 1]), format[i]);
    }
  }

  lemma TailSlice(b: seq<Byte>, w: nat, at: nat, n: nat)
    requires w + at + n <= |b|
    ensures b[w..][at..at + n] == b[w + at..w + at + n]
  {
  }

  lemma {:induction false} WidthSum(a: seq<nat>, b: seq<nat>)
    ensures Width(a + b) == Width(a) + Width(b)
    decreases |a|
  {
    if a == [] {
      assert a + b == b;
    } else {
      assert (a + b)[1..] == a[1..] + b;
      WidthSum(a[1..], b);
    }
  }

  /** `n` fields of width `w`. */
  function Fields(n: nat, w: nat): (r: seq<nat>)
    ensures |r| == n
  {
    if n == 0 then [] else [w] + Fields(n - 1, w)
  }

  lemma {:induction false} FieldsAre(n: nat, w: nat)
    ensures Width(Fields(n, w)) == n * w
    ensures forall i :: 0 <= i < n ==> Fields(n, w)[i] == w
  {
    if n > 0 {
      FieldsAre(n - 1, w);
      assert Fields(n, w)[1..] == Fields(n - 1, w);
      assert n * w == (n - 1) * w + w;
    }
  }

  // ---------------------------------------------------------------- UTF-8

  predicate Continues(b: Byte) { 0x80 <= b < 0xC0 }

  /** How many bytes the first character takes, none if they are not the encoding of one. */
  function CharLength(b: seq<Byte>): (n: nat)
    ensures n <= |b|
  {
    if b == [] then 0
    else if b[0] < 0x80 then 1
    else if |b| < 2 || !Continues(b[1]) then 0
    else if 0xC2 <= b[0] < 0xE0 then 2
    else if |b| < 3 || !Continues(b[2]) then 0
    else if 0xE0 <= b[0] < 0xF0 && (b[0] == 0xE0 ==> b[1] >= 0xA0) && (b[0] == 0xED ==> b[1] < 0xA0) then 3
    else if |b| < 4 || !Continues(b[3]) then 0
    else if 0xF0 <= b[0] < 0xF5 && (b[0] == 0xF0 ==> b[1] >= 0x90) && (b[0] == 0xF4 ==> b[1] < 0x90) then 4
    else 0
  }

  predicate IsUtf8(b: seq<Byte>)
    decreases |b|
  {
    b == [] || (CharLength(b) > 0 && IsUtf8(b[CharLength(b)..]))
  }

  /** The characters that text can hold. */
  predicate Scalar(c: nat) { c < 0xD800 || 0xE000 <= c < 0x110000 }

  /** The bytes of a character (RFC 3629, section 3). */
  function Encoding(c: nat): (r: seq<Byte>)
    requires Scalar(c)
    ensures r != []
  {
    if c < 0x80 then [c]
    else if c < 0x800 then [0xC0 + c / 64, 0x80 + c % 64]
    else if c < 0x10000 then [0xE0 + c / 4096, 0x80 + c / 64 % 64, 0x80 + c % 64]
    else [0xF0 + c / 262144, 0x80 + c / 4096 % 64, 0x80 + c / 64 % 64, 0x80 + c % 64]
  }

  predicate AllScalar(cs: seq<nat>) { forall i :: 0 <= i < |cs| ==> Scalar(cs[i]) }

  function Encodings(cs: seq<nat>): seq<Byte>
    requires AllScalar(cs)
  {
    if cs == [] then [] else Encoding(cs[0]) + Encodings(cs[1..])
  }

  lemma EncodingTaken(c: nat, rest: seq<Byte>)
    requires Scalar(c)
    ensures CharLength(Encoding(c) + rest) == |Encoding(c)|
  {
    var b := Encoding(c) + rest;
    if c >= 0x10000 {
      assert b[0] == 0xF0 + c / 262144 && b[1] == 0x80 + c / 4096 % 64;
    } else if c >= 0x800 {
      assert b[0] == 0xE0 + c / 4096 && b[1] == 0x80 + c / 64 % 64;
    }
  }

  lemma Sixties(h: nat, x: nat)
    requires x < 64
    ensures (h * 64 + x) / 64 == h && (h * 64 + x) % 64 == x
  {
  }

  lemma DividedAgain(c: nat)
    ensures c / 4096 == c / 64 / 64 && c / 262144 == c / 64 / 64 / 64
  {
  }

  lemma TwoFound(x: nat, y: nat) returns (c: nat)
    requires x < 0x20 && y < 0x40
    ensures c == 64 * x + y && c / 64 == x && c % 64 == y
  {
    c := x * 64 + y;
    Sixties(x, y);
  }

  lemma ThreeFound(x: nat, y: nat, z: nat) returns (c: nat)
    requires x < 0x10 && y < 0x40 && z < 0x40
    ensures c == 4096 * x + 64 * y + z && c / 4096 == x && c / 64 % 64 == y && c % 64 == z
  {
    var h := x * 64 + y;
    c := h * 64 + z;
    Sixties(x, y);
    Sixties(h, z);
    DividedAgain(c);
  }

  lemma FourFound(w: nat, x: nat, y: nat, z: nat) returns (c: nat)
    requires w < 5 && x < 0x40 && y < 0x40 && z < 0x40
    ensures c == 262144 * w + 4096 * x + 64 * y + z
    ensures c / 262144 == w && c / 4096 % 64 == x && c / 64 % 64 == y && c % 64 == z
  {
    var g := w * 64 + x;
    var h := g * 64 + y;
    c := h * 64 + z;
    Sixties(w, x);
    Sixties(g, y);
    Sixties(h, z);
    DividedAgain(c);
  }

  lemma EncodingFound(b: seq<Byte>) returns (c: nat)
    requires CharLength(b) > 0
    ensures Scalar(c) && b[..CharLength(b)] == Encoding(c)
  {
    var n := CharLength(b);
    c := b[0];
    if n == 2 {
      c := TwoFound(b[0] - 0xC0, b[1] - 0x80);
    } else if n == 3 {
      c := ThreeFound(b[0] - 0xE0, b[1] - 0x80, b[2] - 0x80);
    } else if n == 4 {
      c := FourFound(b[0] - 0xF0, b[1] - 0x80, b[2] - 0x80, b[3] - 0x80);
    }
  }

  /** The texts that are UTF-8 are exactly the encodings of characters. */
  lemma {:induction false} Utf8Exactly(b: seq<Byte>)
    ensures IsUtf8(b) <==> exists cs :: AllScalar(cs) && b == Encodings(cs)
    decreases |b|
  {
    hide CharLength, Encoding, Scalar;
    if IsUtf8(b) {
      var cs := Utf8Found(b);
    }
    forall cs | AllScalar(cs) && b == Encodings(cs) ensures IsUtf8(b) {
      Utf8Taken(cs);
    }
  }

  lemma {:induction false} Utf8Taken(cs: seq<nat>)
    requires AllScalar(cs)
    ensures IsUtf8(Encodings(cs))
  {
    hide CharLength, Encoding, Scalar;
    if cs != [] {
      var rest := Encodings(cs[1..]);
      Utf8Taken(cs[1..]);
      EncodingTaken(cs[0], rest);
      assert (Encoding(cs[0]) + rest)[|Encoding(cs[0])|..] == rest;
    }
  }

  lemma {:induction false} Utf8Found(b: seq<Byte>) returns (cs: seq<nat>)
    requires IsUtf8(b)
    ensures AllScalar(cs) && b == Encodings(cs)
    decreases |b|
  {
    hide CharLength, Encoding, Scalar;
    if b == [] {
      cs := [];
    } else {
      var n := CharLength(b);
      var c := EncodingFound(b);
      var more := Utf8Found(b[n..]);
      cs := [c] + more;
      assert cs[1..] == more && b == b[..n] + b[n..];
    }
  }
}
