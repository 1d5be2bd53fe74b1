/** Base64 as section 4 of RFC 4648 defines it, with padding: the text of the credentials that
    src/proxy.rs sends, and a reader of it. */
module Base64 {
  import opened Wrappers
  import opened Bytes

  /** The character of a 6-bit digit. */
  function Digit(d: nat): char
    requires d < 64
  {
    if d < 26 then ('A' as int + d) as char
    else if d < 52 then ('a' as int + (d - 26)) as char
    else if d < 62 then ('0' as int + (d - 52)) as char
    else if d == 62 then '+' else '/'
  }

  function Value(c: char): (d: Option<nat>)
    ensures d.Some? ==> d.value < 64
  {
    if 'A' <= c <= 'Z' then Some(c as int - 'A' as int)
    else if 'a' <= c <= 'z' then Some(c as int - 'a' as int + 26)
    else if '0' <= c <= '9' then Some(c as int - '0' as int + 52)
    else if c == '+' then Some(62) else if c == '/' then Some(63) else None
  }

  lemma ValueOfDigit(d: nat)
    requires d < 64
    ensures Value(Digit(d)) == Some(d) && Digit(d) != '='
  {
  }

  function First(a: byte): (d: nat)
    ensures d < 64
  {
    a as int / 4
  }

  function Second(a: byte, b: byte): (d: nat)
    ensures d < 64
  {
    a as int % 4 * 16 + b as int / 16
  }

  function Third(b: byte, c: byte): (d: nat)
    ensures d < 64
  {
    b as int % 16 * 4 + c as int / 64
  }

  function Fourth(c: byte): (d: nat)
    ensures d < 64
  {
    c as int % 64
  }

  /** Three bytes are four digits, two bytes three and one byte two, filled up with `=`. */
  function Encode(b: seq<byte>): string {
    if b == [] then ""
    else if |b| == 1 then [Digit(First(b[0])), Digit(Second(b[0], 0)), '=', '=']
    else if |b| == 2 then [Digit(First(b[0])), Digit(Second(b[0], b[1])), Digit(Third(b[1], 0)), '=']
    else [Digit(First(b[0])), Digit(Second(b[0], b[1])), Digit(Third(b[1], b[2])), Digit(Fourth(b[2]))] + Encode(b[3..])
  }

  /** The value of a group of four characters, read as a 24-bit number. */
  function Group(s: string): (n: Option<nat>)
    requires |s| == 4
    ensures n.Some? ==> n.value < 0x100_0000
  {
    match (Value(s[0]), Value(s[1]), Value(s[2]), Value(s[3]))
    case (Some(w), Some(x), Some(y), Some(z)) => Some(((w * 64 + x) * 64 + y) * 64 + z)
    case _ => None
  }

  /** A reader: each group of four characters is a big-endian 24-bit number; a padded last group
      stands for its first one or two bytes. */
  function Decode(s: string): Option<seq<byte>> {
    if s == "" then Some([])
    else if |s| < 4 then None
    else if |s| == 4 && s[2..] == "==" then
      match Group(s[..2] + "AA")
      case Some(n) => Some(PutU24(n)[..1])
      case None => None
    else if |s| == 4 && s[3] == '=' then
      match Group(s[..3] + "A")
      case Some(n) => Some(PutU24(n)[..2])
      case None => None
    else
      match (Group(s[..4]), Decode(s[4..]))
      case (Some(n), Some(rest)) => Some(PutU24(n) + rest)
      case _ => None
  }

  lemma GroupArithmetic(a: byte, b: byte, c: byte)
    ensures ((First(a) * 64 + Second(a, b)) * 64 + Third(b, c)) * 64 + Fourth(c) == U24(a, b, c)
  {
    var x, y, z := a as int, b as int, c as int;
    assert x == x / 4 * 4 + x % 4 && y == y / 16 * 16 + y % 16 && z == z / 64 * 64 + z % 64;
  }

  lemma GroupIsRead(a: byte, b: byte, c: byte)
    ensures var s := [Digit(First(a)), Digit(Second(a, b)), Digit(Third(b, c)), Digit(Fourth(c))];
      Group(s).Some? && PutU24(Group(s).value) == [a, b, c]
  {
    hide Digit, Value, First, Second, Third, Fourth;
    ValueOfDigit(First(a));
    ValueOfDigit(Second(a, b));
    ValueOfDigit(Third(b, c));
    ValueOfDigit(Fourth(c));
    GroupArithmetic(a, b, c);
    PutU24Decodes(a, b, c);
  }

  lemma DecodeOfNothing()
    ensures Decode("") == Some([])
  {
  }

  lemma DigitsAreNotPadding(d: nat)
    requires d < 64
    ensures Digit(d) != '='
    ensures Digit(Third(0, 0)) == 'A' && Digit(Fourth(0)) == 'A'
  {
  }

  lemma DecodeOfOne(a: byte)
    ensures Decode([Digit(First(a)), Digit(Second(a, 0)), '=', '=']) == Some([a])
  {
    hide Digit, Value, First, Second, Third, Fourth, Group;
    DigitsAreNotPadding(0);
    GroupIsRead(a, 0, 0);
    var s := [Digit(First(a)), Digit(Second(a, 0)), '=', '='];
    assert s[2..] == "==";
    assert s[..2] + "AA" == [Digit(First(a)), Digit(Second(a, 0)), Digit(Third(0, 0)), Digit(Fourth(0))];
    assert [a, 0, 0][..1] == [a];
  }

  lemma DecodeOfTwo(a: byte, b: byte)
    ensures Decode([Digit(First(a)), Digit(Second(a, b)), Digit(Third(b, 0)), '=']) == Some([a, b])
  {
    hide Digit, Value, First, Second, Third, Fourth, Group;
    DigitsAreNotPadding(Third(b, 0));
    GroupIsRead(a, b, 0);
    var s := [Digit(First(a)), Digit(Second(a, b)), Digit(Third(b, 0)), '='];
    assert s[2..][0] == s[2];
    assert s[..3] + "A" == [Digit(First(a)), Digit(Second(a, b)), Digit(Third(b, 0)), Digit(Fourth(0))];
    assert [a, b, 0][..2] == [a, b];
  }

  lemma DecodeOfGroup(a: byte, b: byte, c: byte, more: string)
    ensures var s := [Digit(First(a)), Digit(Second(a, b)), Digit(Third(b, c)), Digit(Fourth(c))] + more;
      Decode(s) == match Decode(more)
                   case Some(rest) => Some([a, b, c] + rest)
                   case None => None
  {
    hide Digit, Value, First, Second, Third, Fourth, Group;
    DigitsAreNotPadding(Fourth(c));
    GroupIsRead(a, b, c);
    var group := [Digit(First(a)), Digit(Second(a, b)), Digit(Third(b, c)), Digit(Fourth(c))];
    var s := group + more;
    assert s[3] == group[3] && s[2..][1] == s[3];
    assert s[..4] == group && s[4..] == more;
  }

  /** Reading undoes encoding, for all bytes. */
  lemma {:induction false} DecodeOfEncode(b: seq<byte>)
    ensures Decode(Encode(b)) == Some(b)
    decreases |b|
  {
    hide Digit, First, Second, Third, Fourth, Decode;
    if b == [] {
      DecodeOfNothing();
    } else if |b| == 1 {
      DecodeOfOne(b[0]);
      assert b == [b[0]];
    } else if |b| == 2 {
      DecodeOfTwo(b[0], b[1]);
      assert b == [b[0], b[1]];
    } else {
      DecodeOfGroup(b[0], b[1], b[2], Encode(b[3..]));
      DecodeOfEncode(b[3..]);
      assert b == [b[0], b[1], b[2]] + b[3..];
    }
  }

  /** The alphabet: nothing printed can end a header line. */
  lemma {:induction false} EncodedIsPlain(b: seq<byte>)
    ensures forall i :: 0 <= i < |Encode(b)| ==> Value(Encode(b)[i]).Some? || Encode(b)[i] == '='
    decreases |b|
  {
    if |b| >= 3 {
      EncodedIsPlain(b[3..]);
    }
  }

  /** The alphabet of section 4 of RFC 4648. */
  lemma Alphabet(upper: string, lower: string)
    requires |upper| == |lower| == 26
    requires forall i :: 0 <= i < 26 ==> upper[i] as int == 'A' as int + i && lower[i] as int == 'a' as int + i
    ensures forall d :: 0 <= d < 64 ==> Digit(d) == (upper + lower + "0123456789+/")[d]
  {
    forall d | 0 <= d < 64
      ensures Digit(d) == (upper + lower + "0123456789+/")[d]
    {
      if d >= 52 {
        assert (upper + lower + "0123456789+/")[d] == "0123456789+/"[d - 52];
      }
    }
  }

  /** Test vectors of section 10 of RFC 4648: "f", "fo" and "foo". */
  lemma Vectors()
    ensures Encode([102]) == "Zg==" && Encode([102, 111]) == "Zm8=" && Encode([102, 111, 111]) == "Zm9v"
  {
    assert Encode([102, 111, 111]) == "Zm9v" + Encode([102, 111, 111][3..]);
  }
}
