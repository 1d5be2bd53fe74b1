/** What the text and number formats mean, said without their decoders: UTF-8, white space,
    letter case, big-endian integers. */
module Encoding {
  import opened Wrappers
  import opened Bytes
  import opened Strings

  // ---------------------------------------------------------------- UTF-8

  /** The number a lead byte and its continuation bytes spell, six bits each: section 3 of
      RFC 3629. */
  function CodePoint(p: seq<byte>): int
    requires 1 <= |p| <= 4
  {
    if |p| == 1 then p[0] as int
    else if |p| == 2 then (p[0] as int - 0xC0) * 0x40 + (p[1] as int - 0x80)
    else if |p| == 3 then (p[0] as int - 0xE0) * 0x1000 + (p[1] as int - 0x80) * 0x40 + (p[2] as int - 0x80)
    else (p[0] as int - 0xF0) * 0x4_0000 + (p[1] as int - 0x80) * 0x1000 + (p[2] as int - 0x80) * 0x40
         + (p[3] as int - 0x80)
  }

  predicate IsScalarValue(c: int) {
    0 <= c < 0xD800 || 0xE000 <= c < 0x11_0000
  }

  /** The least code point that needs so many bytes. */
  function Least(width: nat): int {
    if width <= 1 then 0 else if width == 2 then 0x80 else if width == 3 then 0x800 else 0x1_0000
  }

  /** A lead byte for this width and continuation bytes that spell a scalar value, and no
      shorter form does. */
  predicate IsScalar(p: seq<byte>) {
    && 1 <= |p| <= 4
    && (|p| == 1 ==> p[0] < 0x80)
    && (|p| == 2 ==> 0xC0 <= p[0] < 0xE0)
    && (|p| == 3 ==> 0xE0 <= p[0] < 0xF0)
    && (|p| == 4 ==> 0xF0 <= p[0] < 0xF8)
    && (forall i :: 1 <= i < |p| ==> 0x80 <= p[i] < 0xC0)
    && IsScalarValue(CodePoint(p)) && Least(|p|) <= CodePoint(p)
  }

  function Concat(pieces: seq<seq<byte>>): seq<byte> {
    if pieces == [] then [] else pieces[0] + Concat(pieces[1..])
  }

  lemma ScalarIsFirst(p: seq<byte>, rest: seq<byte>)
    requires IsScalar(p)
    ensures ScalarWidth(p + rest) == |p|
  {
    assert forall i :: 0 <= i < |p| ==> (p + rest)[i] == p[i];
  }

  lemma FirstIsScalar(b: seq<byte>)
    requires ScalarWidth(b) > 0
    ensures IsScalar(b[..ScalarWidth(b)])
  {
  }

  lemma {:induction false} PiecesAreValid(pieces: seq<seq<byte>>)
    requires forall i :: 0 <= i < |pieces| ==> IsScalar(pieces[i])
    ensures ValidUtf8(Concat(pieces))
  {
    if pieces != [] {
      PiecesAreValid(pieces[1..]);
      ScalarIsFirst(pieces[0], Concat(pieces[1..]));
      assert Concat(pieces)[|pieces[0]|..] == Concat(pieces[1..]);
    }
  }

  lemma {:induction false} ValidHasPieces(b: seq<byte>) returns (pieces: seq<seq<byte>>)
    requires ValidUtf8(b)
    ensures Concat(pieces) == b && forall i :: 0 <= i < |pieces| ==> IsScalar(pieces[i])
    decreases |b|
  {
    if b == [] {
      pieces := [];
    } else {
      var w := ScalarWidth(b);
      FirstIsScalar(b);
      var first, after := b[..w], b[w..];
      var rest := ValidHasPieces(after);
      pieces := [first] + rest;
      assert pieces[1..] == rest;
      assert first + after == b;
    }
  }

  /** Bytes are accepted as text exactly when they are a sequence of encoded scalar values. */
  lemma ValidUtf8Exactly(b: seq<byte>)
    ensures ValidUtf8(b) <==>
      exists pieces: seq<seq<byte>> :: Concat(pieces) == b && forall i :: 0 <= i < |pieces| ==> IsScalar(pieces[i])
  {
    if ValidUtf8(b) {
      var pieces := ValidHasPieces(b);
      assert Concat(pieces) == b;
    }
    if pieces: seq<seq<byte>> :|
      Concat(pieces) == b && forall i :: 0 <= i < |pieces| ==> IsScalar(pieces[i])
    {
      PiecesAreValid(pieces);
    }
  }

  // ---------------------------------------------------------------- white space

  /** Unicode's White_Space. */
  predicate IsWhiteSpace(c: int) {
    || 0x9 <= c <= 0xD || c == 0x20 || c == 0x85 || c == 0xA0 || c == 0x1680
    || 0x2000 <= c <= 0x200A || c == 0x2028 || c == 0x2029 || c == 0x202F || c == 0x205F || c == 0x3000
  }

  /** One encoded character is taken for white space exactly when it is, whatever follows. */
  lemma WhiteSpaceExactly(p: seq<byte>, rest: string)
    requires IsScalar(p)
    ensures SpaceWidth(Text(p) + rest) == if IsWhiteSpace(CodePoint(p)) then |p| else 0
  {
    var s := Text(p) + rest;
    assert forall i :: 0 <= i < |p| ==> s[i] as int == p[i] as int;
  }

  /** And at the end, whatever precedes. */
  lemma EndWhiteSpace(before: string, p: seq<byte>)
    requires IsScalar(p) && IsWhiteSpace(CodePoint(p))
    ensures EndSpaceWidth(before + Text(p)) == |p|
  {
    var s := before + Text(p);
    WhiteSpaceExactly(p, "");
    assert Text(p) + "" == Text(p);
    assert SpaceWidth(Text(p)) == |p|;
    EndSpaceIsLast(before, Text(p));
  }

  // ---------------------------------------------------------------- numbers and letters

  /** The high byte comes first. */
  lemma BigEndian()
    ensures PutU16(443) == [1, 187] && U16(1, 187) == 443
    ensures PutU24(0x010203) == [1, 2, 3] && U24(1, 2, 3) == 0x010203
  {
    PutU16Decodes(1, 187);
    PutU24Decodes(1, 2, 3);
  }

  lemma OnlyLettersChange(upper: string)
    requires |upper| == 26 && forall i :: 0 <= i < 26 ==> upper[i] as int == 'A' as int + i
    ensures forall c: char :: c !in upper ==> LowerChar(c) == c
  {
    forall c: char | 'A' <= c <= 'Z'
      ensures c in upper
    {
      assert upper[c as int - 'A' as int] == c;
    }
  }

  /** Only the 26 letters change case. */
  lemma LetterCase()
    ensures Lower("ABCDEFGHIJKLMNOPQRSTUVWXYZ") == "abcdefghijklmnopqrstuvwxyz"
    ensures forall c: char :: c !in "ABCDEFGHIJKLMNOPQRSTUVWXYZ" ==> LowerChar(c) == c
  {
    var upper, lower := "ABCDEFGHIJKLMNOPQRSTUVWXYZ", "abcdefghijklmnopqrstuvwxyz";
    assert forall i :: 0 <= i < 26 ==> upper[i] as int == 'A' as int + i && lower[i] as int == 'a' as int + i;
    assert Lower(upper) == lower;
    OnlyLettersChange(upper);
  }

  // ---------------------------------------------------------------- decimal numbers

  function Tens(n: nat): nat {
    if n == 0 then 1 else 10 * Tens(n - 1)
  }

  /** What a digit adds: a value from 0 to 9. */
  function Digit(c: char): (d: nat)
    requires IsDigit(c)
    ensures d < 10
  {
    c as int - '0' as int
  }

  /** The sum of the digits, each times the power of ten of its place. */
  function Positional(s: string): nat
    requires AllDigits(s)
  {
    if s == "" then 0 else Digit(s[0]) * Tens(|s| - 1) + Positional(s[1..])
  }

  lemma TimesTen(d: nat, t: nat)
    ensures d * (10 * t) == 10 * (d * t)
  {
  }

  lemma {:induction false} PositionalOfSnoc(s: string, c: char)
    requires AllDigits(s) && IsDigit(c)
    ensures Positional(s + [c]) == 10 * Positional(s) + Digit(c)
  {
    var t := s + [c];
    if s == "" {
      assert t[1..] == "";
    } else {
      assert t[1..] == s[1..] + [c];
      PositionalOfSnoc(s[1..], c);
      TimesTen(Digit(s[0]), Tens(|s| - 1));
    }
  }

  /** Digits are read in base ten. */
  lemma {:induction false} DecimalIsPositional(s: string)
    requires AllDigits(s)
    ensures DecimalValue(s) == Positional(s)
    decreases |s|
  {
    if s != "" {
      var n := |s| - 1;
      DecimalIsPositional(s[..n]);
      PositionalOfSnoc(s[..n], s[n]);
      assert s == s[..n] + [s[n]];
    }
  }

  /** What `parse::<u16>` accepts, and as what: digits, after a plus sign or not, of a number
      that fits. */
  lemma ParseU16Exactly(s: string)
    requires s != "" && AllDigits(s)
    ensures ParseU16(s) == ParseU16("+" + s) == if Positional(s) < 0x1_0000 then Some(Positional(s)) else None
  {
    DecimalIsPositional(s);
    assert ("+" + s)[1..] == s;
  }

  lemma ParseU16Refuses(s: string)
    requires s == "" || s == "+" || exists i :: 0 <= i < |s| && !IsDigit(s[i]) && (i > 0 || s[i] != '+')
    ensures ParseU16(s).None?
  {
    if s != "" && s != "+" {
      var i :| 0 <= i < |s| && !IsDigit(s[i]) && (i > 0 || s[i] != '+');
      assert i > 0 ==> s[1..][i - 1] == s[i];
      assert s[0] == '+' && |s| > 1 ==> !AllDigits(s[1..]);
    }
  }

  /** The ports in use. */
  lemma CommonPorts()
    ensures Decimal(443) == "443" && ParseU16("443") == Some(443)
    ensures Decimal(80) == "80" && ParseU16("80") == Some(80)
  {
    assert Decimal(44) == "44" && Decimal(4) == "4" && Decimal(8) == "8";
    ParseU16OfDecimal(443);
    ParseU16OfDecimal(80);
  }
}
