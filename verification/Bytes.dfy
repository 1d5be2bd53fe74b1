/** Octets, big-endian integers and UTF-8 well-formedness.

    A Rust `String` is modelled as a Dafny `string` holding one character per UTF-8 byte,
    so `Text` and `Octets` move between the wire and text without loss. */
module Bytes {

  newtype byte = x: int | 0 <= x < 256

  function U16(hi: byte, lo: byte): (n: nat)
    ensures n < 0x1_0000
  {
    hi as int * 256 + lo as int
  }

  function U24(b2: byte, b1: byte, b0: byte): (n: nat)
    ensures n < 0x100_0000
  {
    b2 as int * 0x1_0000 + b1 as int * 256 + b0 as int
  }

  lemma {:induction false} HasTwoBytes(n: nat)
    requires n < 0x1_0000
    ensures exists hi: byte, lo: byte :: U16(hi, lo) == n
  {
    if n == 0 {
      assert U16(0, 0) == n;
    } else {
      HasTwoBytes(n - 1);
      var hi: byte, lo: byte :| U16(hi, lo) == n - 1;
      assert if lo < 255 then U16(hi, lo + 1) == n else U16(hi + 1, 0) == n;
    }
  }

  lemma {:induction false} ThreeBytes(n: nat) returns (b2: byte, b1: byte, b0: byte)
    requires n < 0x100_0000
    ensures U24(b2, b1, b0) == n
  {
    if n < 0x1_0000 {
      HasTwoBytes(n);
      b2 := 0;
      b1, b0 :| U16(b1, b0) == n;
    } else {
      b2, b1, b0 := ThreeBytes(n - 0x1_0000);
      b2 := b2 + 1;
    }
  }

  lemma HasThreeBytes(n: nat)
    requires n < 0x100_0000
    ensures exists b2: byte, b1: byte, b0: byte :: U24(b2, b1, b0) == n
  {
    var b2, b1, b0 := ThreeBytes(n);
  }

  lemma U16IsInjective(hi: byte, lo: byte, hi': byte, lo': byte)
    requires U16(hi, lo) == U16(hi', lo')
    ensures hi == hi' && lo == lo'
  {
  }

  lemma U24IsInjective(b2: byte, b1: byte, b0: byte, b2': byte, b1': byte, b0': byte)
    requires U24(b2, b1, b0) == U24(b2', b1', b0')
    ensures b2 == b2' && b1 == b1' && b0 == b0'
  {
    assert b2 == b2';
    U16IsInjective(b1, b0, b1', b0');
  }

  lemma OnlyTwoBytes(n: nat)
    ensures forall hi: byte, lo: byte, hi': byte, lo': byte ::
      U16(hi, lo) == n && U16(hi', lo') == n ==> hi == hi' && lo == lo'
  {
    forall hi: byte, lo: byte, hi': byte, lo': byte | U16(hi, lo) == n && U16(hi', lo') == n
      ensures hi == hi' && lo == lo'
    {
      U16IsInjective(hi, lo, hi', lo');
    }
  }

  lemma OnlyThreeBytes(n: nat)
    ensures forall b2: byte, b1: byte, b0: byte, b2': byte, b1': byte, b0': byte ::
      U24(b2, b1, b0) == n && U24(b2', b1', b0') == n ==> b2 == b2' && b1 == b1' && b0 == b0'
  {
    forall b2: byte, b1: byte, b0: byte, b2': byte, b1': byte, b0': byte
      | U24(b2, b1, b0) == n && U24(b2', b1', b0') == n
      ensures b2 == b2' && b1 == b1' && b0 == b0'
    {
      U24IsInjective(b2, b1, b0, b2', b1', b0');
    }
  }

  /** The byte `n`; a larger number wraps, as in Rust's `as u8`. */
  function PutU8(n: nat): (b: byte)
    ensures n < 256 ==> b as int == n
  {
    if n < 256 then n as byte else PutU8(n - 256)
  }

  /** The two big-endian bytes of `n`; a larger number wraps, as in Rust's `as u16`. */
  function PutU16(n: nat): (b: seq<byte>)
    ensures |b| == 2 && (n < 0x1_0000 ==> U16(b[0], b[1]) == n)
  {
    if n < 0x1_0000 then
      HasTwoBytes(n);
      OnlyTwoBytes(n);
      var hi: byte, lo: byte :| U16(hi, lo) == n;
      [hi, lo]
    else PutU16(n - 0x1_0000)
  }

  function PutU24(n: nat): (b: seq<byte>)
    ensures |b| == 3 && (n < 0x100_0000 ==> U24(b[0], b[1], b[2]) == n)
  {
    if n < 0x100_0000 then
      HasThreeBytes(n);
      OnlyThreeBytes(n);
      var b2: byte, b1: byte, b0: byte :| U24(b2, b1, b0) == n;
      [b2, b1, b0]
    else PutU24(n - 0x100_0000)
  }

  /** The bytes of `n` are the only ones that decode to it. */
  lemma PutU16Decodes(hi: byte, lo: byte)
    ensures PutU16(U16(hi, lo)) == [hi, lo]
  {
    var b := PutU16(U16(hi, lo));
    U16IsInjective(b[0], b[1], hi, lo);
  }

  lemma PutU24Decodes(b2: byte, b1: byte, b0: byte)
    ensures PutU24(U24(b2, b1, b0)) == [b2, b1, b0]
  {
    var b := PutU24(U24(b2, b1, b0));
    U24IsInjective(b[0], b[1], b[2], b2, b1, b0);
  }

  predicate Continuation(b: byte) {
    0x80 <= b <= 0xBF
  }

  /** Length of the well-formed UTF-8 scalar that `b` starts with, or 0 when there is none. */
  function ScalarWidth(b: seq<byte>): (w: nat)
    ensures w <= |b| && w <= 4
  {
    if b == [] then 0
    else if b[0] <= 0x7F then 1
    else if |b| >= 2 && 0xC2 <= b[0] <= 0xDF && Continuation(b[1]) then 2
    else if |b| >= 3 && 0xE0 <= b[0] <= 0xEF && Continuation(b[1]) && Continuation(b[2])
         && (b[0] == 0xE0 ==> b[1] >= 0xA0) && (b[0] == 0xED ==> b[1] <= 0x9F) then 3
    else if |b| >= 4 && 0xF0 <= b[0] <= 0xF4 && Continuation(b[1]) && Continuation(b[2]) && Continuation(b[3])
         && (b[0] == 0xF0 ==> b[1] >= 0x90) && (b[0] == 0xF4 ==> b[1] <= 0x8F) then 4
    else 0
  }

  predicate ValidUtf8(b: seq<byte>) {
    b == [] || (var w := ScalarWidth(b); w > 0 && ValidUtf8(b[w..]))
  }

  lemma {:induction false} AsciiIsUtf8(b: seq<byte>)
    requires forall i :: 0 <= i < |b| ==> b[i] < 0x80
    ensures ValidUtf8(b)
  {
    if b != [] {
      AsciiIsUtf8(b[1..]);
    }
  }

  lemma ScalarStays(a: seq<byte>, b: seq<byte>)
    requires ScalarWidth(a) > 0
    ensures ScalarWidth(a + b) == ScalarWidth(a)
  {
    assert forall i :: 0 <= i < |a| ==> (a + b)[i] == a[i];
  }

  lemma {:induction false} ValidUtf8Concat(a: seq<byte>, b: seq<byte>)
    requires ValidUtf8(a) && ValidUtf8(b)
    ensures ValidUtf8(a + b)
    decreases |a|
  {
    if a == [] {
      assert a + b == b;
    } else {
      var w := ScalarWidth(a);
      ScalarStays(a, b);
      assert (a + b)[w..] == a[w..] + b;
      ValidUtf8Concat(a[w..], b);
    }
  }

  function Text(b: seq<byte>): (s: string)
    ensures |s| == |b|
    ensures forall i :: 0 <= i < |b| ==> s[i] == b[i] as char
  {
    seq(|b|, i requires 0 <= i < |b| => b[i] as char)
  }

  predicate IsOctets(s: string) {
    forall i :: 0 <= i < |s| ==> s[i] as int < 256
  }

  function Octets(s: string): (b: seq<byte>)
    ensures |b| == |s|
    ensures forall i :: 0 <= i < |s| ==> b[i] == PutU8(s[i] as int)
  {
    seq(|s|, i requires 0 <= i < |s| => PutU8(s[i] as int))
  }

  /** The text of a Rust `String`: one character per byte, and the bytes are UTF-8. */
  predicate IsUtf8(s: string) {
    IsOctets(s) && ValidUtf8(Octets(s))
  }

  lemma OctetsOfConcat(a: string, b: string)
    ensures Octets(a + b) == Octets(a) + Octets(b)
  {
  }

  lemma Utf8Concat(a: string, b: string)
    requires IsUtf8(a) && IsUtf8(b)
    ensures IsUtf8(a + b)
  {
    OctetsOfConcat(a, b);
    ValidUtf8Concat(Octets(a), Octets(b));
    assert forall i :: |a| <= i < |a + b| ==> (a + b)[i] == b[i - |a|];
  }

  lemma AsciiTextIsUtf8(s: string)
    requires forall i :: 0 <= i < |s| ==> s[i] as int < 0x80
    ensures IsUtf8(s)
  {
    AsciiIsUtf8(Octets(s));
  }

  lemma TextOfOctets(s: string)
    requires IsOctets(s)
    ensures Text(Octets(s)) == s
  {
  }
}
