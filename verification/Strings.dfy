/** The `str` operations the program uses: splitting, trimming, ASCII case, decimal numbers. */
module Strings {
  import opened Wrappers
  import opened Search

  /** `str::find(char)`. */
  function IndexOf(s: string, c: char): (r: Option<nat>)
    ensures r.Some? ==> r.value < |s| && s[r.value] == c && forall j :: 0 <= j < r.value ==> s[j] != c
    ensures r.None? <==> c !in s
  {
    if s == "" then None
    else if s[0] == c then Some(0)
    else
      var r := IndexOf(s[1..], c);
      assert s == [s[0]] + s[1..];
      if r.Some? then Some(r.value + 1) else None
  }

  /** `str::rfind(char)`. */
  function LastIndexOf(s: string, c: char): (r: Option<nat>)
    ensures r.Some? ==> r.value < |s| && s[r.value] == c && forall j :: r.value < j < |s| ==> s[j] != c
    ensures r.None? <==> c !in s
  {
    if s == "" then None
    else
      var last := |s| - 1;
      assert s == s[..last] + [s[last]];
      if s[last] == c then Some(last) else LastIndexOf(s[..last], c)
  }

  /** `str::split`: the pieces between successive separators, at least one. */
  function Split(s: string, sep: string): (parts: seq<string>)
    requires sep != ""
    ensures parts != []
    decreases |s|
  {
    match Find(s, sep)
    case None => [s]
    case Some(i) => [s[..i]] + Split(s[i + |sep|..], sep)
  }

  function Join(parts: seq<string>, sep: string): string
    requires parts != []
  {
    if |parts| == 1 then parts[0] else parts[0] + sep + Join(parts[1..], sep)
  }

  /** Splitting cuts at separators only. */
  lemma {:induction false} JoinOfSplit(s: string, sep: string)
    requires sep != ""
    ensures Join(Split(s, sep), sep) == s
    decreases |s|
  {
    var cut := Find(s, sep);
    if cut.Some? {
      var i := cut.value;
      var rest := s[i + |sep|..];
      JoinOfSplit(rest, sep);
      assert Split(s, sep)[1..] == Split(rest, sep);
      assert s == s[..i] + sep + rest;
    }
  }

  /** Splitting undoes joining when no part contains the separator. */
  lemma {:induction false} SplitOfJoin(parts: seq<string>, sep: string)
    requires parts != [] && Unbordered(sep)
    requires forall i :: 0 <= i < |parts| ==> Lacks(parts[i], sep)
    ensures Split(Join(parts, sep), sep) == parts
  {
    if |parts| == 1 {
      assert Find(parts[0], sep).None?;
    } else {
      var rest := Join(parts[1..], sep);
      FirstAfter(parts[0], sep, rest);
      SplitOfJoin(parts[1..], sep);
      var s := parts[0] + sep + rest;
      assert s[..|parts[0]|] == parts[0] && s[|parts[0]| + |sep|..] == rest;
    }
  }

  /** No piece contains the separator. */
  lemma {:induction false} SplitPartsLack(s: string, sep: string)
    requires sep != ""
    ensures forall i :: 0 <= i < |Split(s, sep)| ==> Lacks(Split(s, sep)[i], sep)
    decreases |s|
  {
    hide FindFrom, At;
    match Find(s, sep)
    case None =>
    case Some(i) =>
      LacksBeforeFirst(s, sep, i);
      SplitPartsLack(s[i + |sep|..], sep);
  }

  lemma NoReturnLacksCrlf(s: string)
    requires '\r' !in s
    ensures Lacks(s, "\r\n")
  {
    forall i
      ensures !At(s, "\r\n", i)
    {
      if 0 <= i && i + 2 <= |s| {
        assert s[i..i + 2][0] == s[i];
      }
    }
  }

  lemma CrlfNeedsBoth(a: string, c: string)
    requires Lacks(a, "\r\n") && Lacks(c, "\r\n")
    requires a == "" || c == "" || a[|a| - 1] != '\r' || c[0] != '\n'
    ensures Lacks(a + c, "\r\n")
  {
    var s := a + c;
    forall i
      ensures !At(s, "\r\n", i)
    {
      if At(s, "\r\n", i) {
        assert s[i..i + 2][0] == s[i] && s[i..i + 2][1] == s[i + 1];
        if i + 2 <= |a| {
          AtPrefix(a, c, "\r\n", i);
        } else if |a| <= i {
          AtSuffix(a, c, "\r\n", i);
        }
      }
    }
  }

  lemma AtChar(s: string, c: char, i: int)
    ensures At(s, [c], i) <==> 0 <= i < |s| && s[i] == c
  {
    if 0 <= i < |s| {
      assert s[i..i + 1] == [s[i]];
    }
  }

  lemma LacksChar(s: string, c: char)
    ensures Lacks(s, [c]) <==> c !in s
  {
    forall i
      ensures At(s, [c], i) <==> 0 <= i < |s| && s[i] == c
    {
      AtChar(s, c, i);
    }
  }

  function LowerChar(c: char): char {
    if 'A' <= c <= 'Z' then (c as int + 32) as char else c
  }

  /** `to_ascii_lowercase`. */
  function Lower(s: string): (r: string)
    ensures |r| == |s| && forall i :: 0 <= i < |s| ==> r[i] == LowerChar(s[i])
  {
    seq(|s|, i requires 0 <= i < |s| => LowerChar(s[i]))
  }

  lemma LowerIsIdempotent(s: string)
    ensures Lower(Lower(s)) == Lower(s)
  {
  }

  /** U+0085 and U+00A0. */
  predicate IsSpace2(a: int, b: int) {
    a == 0xC2 && (b == 0x85 || b == 0xA0)
  }

  /** U+1680, U+2000 to U+200A, U+2028, U+2029, U+202F, U+205F and U+3000. */
  predicate IsSpace3(a: int, b: int, c: int) {
    || (a == 0xE1 && b == 0x9A && c == 0x80)
    || (a == 0xE2 && b == 0x80 && (0x80 <= c <= 0x8A || c == 0xA8 || c == 0xA9 || c == 0xAF))
    || (a == 0xE2 && b == 0x81 && c == 0x9F)
    || (a == 0xE3 && b == 0x80 && c == 0x80)
  }

  /** Width of the character of Unicode White_Space that `s` starts with in UTF-8, or 0 when
      it starts with none. */
  function SpaceWidth(s: string): (w: nat)
    ensures w <= |s|
    ensures w == 1 <==> s != "" && (s[0] == ' ' || '\t' <= s[0] <= '\r')
    ensures w >= 2 ==> s[0] as int >= 0x80 && forall i :: 0 < i < w ==> 0x80 <= s[i] as int < 0xC0
  {
    if s == "" then 0
    else if s[0] == ' ' || '\t' <= s[0] <= '\r' then 1
    else if |s| >= 2 && IsSpace2(s[0] as int, s[1] as int) then 2
    else if |s| >= 3 && IsSpace3(s[0] as int, s[1] as int, s[2] as int) then 3
    else 0
  }

  /** Width of the white space character that `s` ends with. */
  function EndSpaceWidth(s: string): (w: nat)
    ensures w <= |s|
  {
    if |s| >= 1 && SpaceWidth(s[|s| - 1..]) == 1 then 1
    else if |s| >= 2 && SpaceWidth(s[|s| - 2..]) == 2 then 2
    else if |s| >= 3 && SpaceWidth(s[|s| - 3..]) == 3 then 3
    else 0
  }

  function TrimStart(s: string): (r: string)
    ensures |r| <= |s| && r == s[|s| - |r|..] && SpaceWidth(r) == 0
  {
    var w := SpaceWidth(s);
    if w > 0 then TrimStart(s[w..]) else s
  }

  function TrimEnd(s: string): (r: string)
    ensures r <= s && EndSpaceWidth(r) == 0
  {
    var w := EndSpaceWidth(s);
    if w > 0 then TrimEnd(s[..|s| - w]) else s
  }

  function Trim(s: string): string {
    TrimEnd(TrimStart(s))
  }

  predicate IsAsciiChar(c: char) {
    c as int < 0x80
  }

  /** A white space character is not cut short or completed by what follows an ASCII one. */
  lemma SpaceStays(s: string, more: string)
    requires s != "" && (more == "" || !(0x80 <= more[0] as int < 0xC0))
    ensures SpaceWidth(s + more) == SpaceWidth(s)
  {
    var t := s + more;
    assert t[0] == s[0];
    assert forall i :: 0 <= i < |s| ==> t[i] == s[i];
    assert more != "" ==> t[|s|] == more[0];
  }

  /** Trimming the front stops at a visible ASCII character. */
  lemma {:induction false} TrimStartBefore(s: string, more: string)
    requires more != "" && IsAsciiChar(more[0]) && SpaceWidth(more) == 0
    ensures TrimStart(s + more) == TrimStart(s) + more
    decreases |s|
  {
    if s == "" {
      assert s + more == more;
    } else {
      SpaceStays(s, more);
      var w := SpaceWidth(s);
      if w > 0 {
        assert (s + more)[w..] == s[w..] + more;
        TrimStartBefore(s[w..], more);
      }
    }
  }

  /** White space and nothing else. */
  predicate Blank(s: string) {
    s == "" || (SpaceWidth(s) > 0 && Blank(s[SpaceWidth(s)..]))
  }

  lemma SpaceIsFirst(s: string, more: string)
    requires SpaceWidth(s) > 0
    ensures SpaceWidth(s + more) == SpaceWidth(s)
  {
    assert forall i :: 0 <= i < |s| ==> (s + more)[i] == s[i];
  }

  lemma EndSpaceIsLast(before: string, p: string)
    requires p != "" && SpaceWidth(p) == |p|
    ensures EndSpaceWidth(before + p) == |p|
  {
    var s := before + p;
    assert s[|s| - |p|..] == p;
    assert |p| > 1 ==> s[|s| - 1..][0] == p[|p| - 1];
    assert |p| > 2 ==> s[|s| - 2..][0] == p[|p| - 2];
  }

  lemma {:induction false} TrimStartOfBlank(before: string, s: string)
    requires Blank(before)
    ensures TrimStart(before + s) == TrimStart(s)
    decreases |before|
  {
    if before == "" {
      assert before + s == s;
    } else {
      var w := SpaceWidth(before);
      SpaceIsFirst(before, s);
      assert (before + s)[w..] == before[w..] + s;
      TrimStartOfBlank(before[w..], s);
    }
  }

  /** A blank text ends in a white space character after a blank text. */
  lemma {:induction false} BlankSplits(s: string) returns (front: string, last: string)
    requires Blank(s) && s != ""
    ensures s == front + last && Blank(front) && last != "" && SpaceWidth(last) == |last|
    decreases |s|
  {
    var w := SpaceWidth(s);
    if w == |s| {
      front, last := "", s;
    } else {
      var f;
      f, last := BlankSplits(s[w..]);
      front := s[..w] + f;
      assert s == front + last;
      assert SpaceWidth(s[..w]) == w;
      SpaceIsFirst(s[..w], f);
      assert front[w..] == f;
    }
  }

  lemma {:induction false} TrimEndOfBlank(s: string, after: string)
    requires Blank(after)
    ensures TrimEnd(s + after) == TrimEnd(s)
    decreases |after|
  {
    if after == "" {
      assert s + after == s;
    } else {
      var front, last := BlankSplits(after);
      assert s + after == s + front + last;
      EndSpaceIsLast(s + front, last);
      assert (s + after)[..|s + after| - |last|] == s + front;
      TrimEndOfBlank(s, front);
    }
  }

  lemma BlankCompletesNothing(s: string, after: string)
    requires s != "" && Blank(after)
    ensures SpaceWidth(s + after) == SpaceWidth(s)
  {
    SpaceStays(s, after);
  }

  lemma NothingToTrim(s: string)
    ensures SpaceWidth(s) == 0 ==> TrimStart(s) == s
    ensures EndSpaceWidth(s) == 0 ==> TrimEnd(s) == s
  {
  }

  /** Trimming removes exactly the white space around a text. */
  lemma TrimPadded(before: string, s: string, after: string)
    requires Blank(before) && Blank(after)
    requires s != "" && SpaceWidth(s) == 0 && EndSpaceWidth(s) == 0
    ensures Trim(before + s + after) == s
  {
    hide TrimStart, TrimEnd, SpaceWidth, EndSpaceWidth;
    Regroup(before, s, after);
    TrimStartOfBlank(before, s + after);
    BlankCompletesNothing(s, after);
    TrimEndOfBlank(s, after);
    NothingToTrim(s);
    NothingToTrim(s + after);
  }

  lemma TrimAfterBlank(s: string)
    ensures Trim(" " + s) == Trim(s)
  {
    assert (" " + s)[1..] == s;
  }

  lemma VisibleEnd(s: string)
    requires s != "" && IsAsciiChar(s[|s| - 1]) && SpaceWidth([s[|s| - 1]]) == 0
    ensures EndSpaceWidth(s) == 0 && TrimEnd(s) == s
  {
    assert s[|s| - 1..] == [s[|s| - 1]];
  }

  // ---------------------------------------------------------------- decimal numbers

  predicate IsDigit(c: char) {
    '0' <= c <= '9'
  }

  predicate AllDigits(s: string) {
    forall i :: 0 <= i < |s| ==> IsDigit(s[i])
  }

  /** `Display` of an unsigned integer. */
  function Decimal(n: nat): (s: string)
    ensures s != "" && AllDigits(s)
  {
    if n < 10 then [('0' as int + n) as char] else Decimal(n / 10) + [('0' as int + n % 10) as char]
  }

  function DecimalValue(s: string): nat
    requires AllDigits(s)
  {
    if s == "" then 0
    else DecimalValue(s[..|s| - 1]) * 10 + (s[|s| - 1] as int - '0' as int)
  }

  lemma {:induction false} DecimalInverts(n: nat)
    ensures DecimalValue(Decimal(n)) == n
  {
    if n < 10 {
      assert Decimal(n)[..0] == "";
    } else {
      DecimalInverts(n / 10);
      var s := Decimal(n);
      assert s[..|s| - 1] == Decimal(n / 10);
    }
  }

  /** `str::parse::<u16>`: an optional plus sign, at least one digit, no overflow. */
  function ParseU16(s: string): Option<nat> {
    var digits := if |s| > 1 && s[0] == '+' then s[1..] else s;
    if digits != "" && AllDigits(digits) && DecimalValue(digits) < 0x1_0000 then Some(DecimalValue(digits))
    else None
  }

  lemma ParseU16OfDecimal(n: nat)
    ensures ParseU16(Decimal(n)) == if n < 0x1_0000 then Some(n) else None
  {
    DecimalInverts(n);
    assert IsDigit(Decimal(n)[0]);
  }
}
