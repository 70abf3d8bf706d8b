/**
 Code units, code points and their encodings.

 A text is a sequence of integers.  The TypeScript boundary reads UTF-16 code units, the
 Python boundary reads code points; `Utf16` relates the two views of one document.
 */
module Unicode {
  type Text = seq<int>

  // ASCII text as codes.
  function ToText(s: string): (t: Text)
    ensures |t| == |s| && forall i :: 0 <= i < |s| ==> t[i] == s[i] as int
  {
    seq(|s|, i requires 0 <= i < |s| => s[i] as int)
  }

  predicate High(c: int) { 0xD800 <= c <= 0xDBFF }
  predicate Low(c: int) { 0xDC00 <= c <= 0xDFFF }
  predicate Surrogate(c: int) { 0xD800 <= c <= 0xDFFF }
  predicate Scalar(c: int) { 0 <= c <= 0x10FFFF && !Surrogate(c) }

  ghost predicate Scalars(p: Text) {
    forall i :: 0 <= i < |p| ==> Scalar(p[i])
  }

  function Combine(high: int, low: int): int
    requires High(high) && Low(low)
  {
    0x10000 + (high - 0xD800) * 0x400 + (low - 0xDC00)
  }

  // The UTF-16 form of one code point.
  function Units(c: int): (u: Text)
    ensures c >= 0x10000 && Scalar(c) ==>
              |u| == 2 && High(u[0]) && Low(u[1]) && Combine(u[0], u[1]) == c
  {
    if c < 0x10000 then [c]
    else [0xD800 + (c - 0x10000) / 0x400, 0xDC00 + (c - 0x10000) % 0x400]
  }

  function Utf16(p: Text): Text {
    if p == [] then [] else Units(p[0]) + Utf16(p[1..])
  }

  lemma {:induction false} Utf16Injective(p: Text, q: Text)
    requires Scalars(p) && Scalars(q)
    requires Utf16(p) == Utf16(q)
    ensures p == q
  {
    if p == [] || q == [] {
      assert |Utf16(p)| == 0;
    } else {
      var a, b := Units(p[0]), Units(q[0]);
      assert Utf16(p)[0] == a[0] && Utf16(q)[0] == b[0];
      assert |a| == |b|;
      if |a| == 2 {
        assert Utf16(p)[1] == a[1] && Utf16(q)[1] == b[1];
      }
      assert p[0] == q[0];
      assert Utf16(p)[|a|..] == Utf16(p[1..]) && Utf16(q)[|a|..] == Utf16(q[1..]);
      Utf16Injective(p[1..], q[1..]);
      assert p == [p[0]] + p[1..] && q == [q[0]] + q[1..];
    }
  }

  // UTF-8, section 3 of RFC 3629.
  function Utf8Char(c: int): (b: Text)
    ensures |b| == if c <= 0x7F then 1 else if c <= 0x7FF then 2 else if c <= 0xFFFF then 3 else 4
  {
    if c <= 0x7F then [c]
    else if c <= 0x7FF then [0xC0 + c / 0x40, 0x80 + c % 0x40]
    else if c <= 0xFFFF then [0xE0 + c / 0x1000, 0x80 + c / 0x40 % 0x40, 0x80 + c % 0x40]
    else [0xF0 + c / 0x40000, 0x80 + c / 0x1000 % 0x40, 0x80 + c / 0x40 % 0x40, 0x80 + c % 0x40]
  }

  predicate Continues(b: int) { 0x80 <= b <= 0xBF }

  // The bytes are those of section 3 of RFC 3629: a lead byte, continuation bytes, and the bits of the code point.
  lemma Utf8Decodes(c: int)
    requires Scalar(c)
    ensures var b := Utf8Char(c);
      match |b|
      case 1 => 0 <= b[0] <= 0x7F && c == b[0]
      case 2 => 0xC2 <= b[0] <= 0xDF && Continues(b[1]) && c == (b[0] - 0xC0) * 0x40 + (b[1] - 0x80)
      case 3 =>
        && 0xE0 <= b[0] <= 0xEF && Continues(b[1]) && Continues(b[2])
        && c == (b[0] - 0xE0) * 0x1000 + (b[1] - 0x80) * 0x40 + (b[2] - 0x80)
      case _ =>
        && |b| == 4 && 0xF0 <= b[0] <= 0xF4 && Continues(b[1]) && Continues(b[2]) && Continues(b[3])
        && c == (b[0] - 0xF0) * 0x40000 + (b[1] - 0x80) * 0x1000 + (b[2] - 0x80) * 0x40 + (b[3] - 0x80)
  {
    var x, y := c / 0x40, c / 0x1000;
    assert c == x * 0x40 + c % 0x40;
    assert y == x / 0x40 && x == y * 0x40 + x % 0x40;
    assert c / 0x40000 == y / 0x40 && y == y / 0x40 * 0x40 + y % 0x40;
  }

  function Utf8(p: Text): Text {
    if p == [] then [] else Utf8Char(p[0]) + Utf8(p[1..])
  }

  // The UTF-8 bytes of a document held as UTF-16 code units: a surrogate pair is one code point.
  function Utf8OfUnits(u: Text): Text {
    if u == [] then []
    else if High(u[0]) && |u| > 1 && Low(u[1]) then Utf8Char(Combine(u[0], u[1])) + Utf8OfUnits(u[2..])
    else Utf8Char(u[0]) + Utf8OfUnits(u[1..])
  }

  // Both views of one document have the same bytes.
  lemma {:induction false} Utf8OfUtf16(p: Text)
    requires Scalars(p)
    ensures Utf8OfUnits(Utf16(p)) == Utf8(p)
  {
    if p != [] {
      Utf8OfUtf16(p[1..]);
      var a := Units(p[0]);
      assert Utf16(p)[|a|..] == Utf16(p[1..]);
    }
  }

  // Code units in which every high surrogate is followed by a low one and every low one follows a high one.
  predicate WellFormedUnits(u: Text) {
    if u == [] then true
    else if High(u[0]) then |u| > 1 && Low(u[1]) && WellFormedUnits(u[2..])
    else !Low(u[0]) && WellFormedUnits(u[1..])
  }
}
