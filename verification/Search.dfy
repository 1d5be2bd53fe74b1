/** First-occurrence search, as `str::find` and `windows(n).position` do it. */
module Search {
  import opened Wrappers

  predicate At<T(==)>(s: seq<T>, p: seq<T>, i: int) {
    0 <= i && i + |p| <= |s| && s[i..i + |p|] == p
  }

  ghost predicate IsFirst<T>(s: seq<T>, p: seq<T>, i: int) {
    At(s, p, i) && forall j :: 0 <= j < i ==> !At(s, p, j)
  }

  function FindFrom<T(==)>(s: seq<T>, p: seq<T>, i: nat): (r: Option<nat>)
    requires i <= |s|
    ensures r.Some? ==> i <= r.value && At(s, p, r.value) && forall j :: i <= j < r.value ==> !At(s, p, j)
    ensures r.None? ==> forall j :: i <= j ==> !At(s, p, j)
    decreases |s| - i
  {
    if At(s, p, i) then Some(i)
    else if i == |s| then None
    else FindFrom(s, p, i + 1)
  }

  function Find<T(==)>(s: seq<T>, p: seq<T>): (r: Option<nat>)
    ensures r.Some? ==> IsFirst(s, p, r.value) && r.value + |p| <= |s|
    ensures r.None? <==> forall j :: !At(s, p, j)
  {
    FindFrom(s, p, 0)
  }

  /** The last occurrence that starts before `i`. */
  function LastBefore<T(==)>(s: seq<T>, p: seq<T>, i: nat): (r: Option<nat>)
    requires i <= |s|
    ensures r.Some? ==> r.value < i && At(s, p, r.value) && forall j :: r.value < j < i ==> !At(s, p, j)
    ensures r.None? ==> forall j :: j < i ==> !At(s, p, j)
  {
    if i == 0 then None
    else if At(s, p, i - 1) then Some(i - 1)
    else LastBefore(s, p, i - 1)
  }

  lemma Regroup<T>(a: seq<T>, b: seq<T>, c: seq<T>)
    ensures a + (b + c) == a + b + c
  {
  }

  /** The first occurrence is unique, whatever comes after it. */
  lemma FindIs<T>(s: seq<T>, p: seq<T>, i: nat)
    requires IsFirst(s, p, i)
    ensures Find(s, p) == Some(i)
  {
    assert At(s, p, i);
  }

  /** Appending text moves no occurrence. */
  lemma AtPrefix<T>(s: seq<T>, more: seq<T>, p: seq<T>, i: int)
    requires i + |p| <= |s|
    ensures At(s + more, p, i) <==> At(s, p, i)
  {
    if 0 <= i {
      assert (s + more)[i..i + |p|] == s[i..i + |p|];
    }
  }

  lemma AtSuffix<T>(s: seq<T>, more: seq<T>, p: seq<T>, i: int)
    requires |s| <= i
    ensures At(s + more, p, i) <==> At(more, p, i - |s|)
  {
    if i + |p| <= |s| + |more| {
      assert (s + more)[i..i + |p|] == more[i - |s|..i - |s| + |p|];
    }
  }

  lemma FindStable<T>(s: seq<T>, more: seq<T>, p: seq<T>)
    requires Find(s, p).Some?
    ensures Find(s + more, p) == Find(s, p)
  {
    var i := Find(s, p).value;
    AtPrefix(s, more, p, i);
    forall j | 0 <= j < i
      ensures !At(s + more, p, j)
    {
      AtPrefix(s, more, p, j);
    }
    FindIs(s + more, p, i);
  }

  ghost predicate Lacks<T>(s: seq<T>, p: seq<T>) {
    forall i :: !At(s, p, i)
  }

  /** The pattern's first element does not recur in it, so no two occurrences overlap. */
  predicate Unbordered<T(==)>(p: seq<T>) {
    p != [] && p[0] !in p[1..]
  }

  lemma StraddlingStartsInside<T>(a: seq<T>, c: seq<T>, p: seq<T>, i: int)
    requires At(a + c, p, i) && i < |a| < i + |p|
    ensures c != [] && c[0] in p[1..]
  {
    assert c[0] == (a + c)[i..i + |p|][|a| - i] == p[1..][|a| - i - 1];
  }

  /** An occurrence in `a + c` lies in one part, unless `c` starts inside the pattern. */
  lemma NoStraddle<T>(a: seq<T>, c: seq<T>, p: seq<T>, i: int)
    requires p != [] && At(a + c, p, i)
    requires c != [] ==> c[0] !in p[1..]
    ensures At(a, p, i) || At(c, p, i - |a|)
  {
    if i + |p| <= |a| {
      AtPrefix(a, c, p, i);
    } else if |a| <= i {
      AtSuffix(a, c, p, i);
    } else {
      StraddlingStartsInside(a, c, p, i);
    }
  }

  lemma LacksAcross<T>(a: seq<T>, c: seq<T>, p: seq<T>)
    requires p != [] && Lacks(a, p) && Lacks(c, p)
    requires c != [] ==> c[0] !in p[1..]
    ensures Lacks(a + c, p)
  {
    forall i
      ensures !At(a + c, p, i)
    {
      if At(a + c, p, i) {
        NoStraddle(a, c, p, i);
      }
    }
  }

  /** The first occurrence after text without one is where the pattern was put. */
  lemma FirstAfter<T>(a: seq<T>, p: seq<T>, rest: seq<T>)
    requires Unbordered(p) && Lacks(a, p)
    ensures IsFirst(a + p + rest, p, |a|) && Find(a + p + rest, p) == Some(|a|)
  {
    var s := a + p + rest;
    assert s == a + (p + rest) && s[|a|..|a| + |p|] == p;
    forall j | 0 <= j < |a|
      ensures !At(s, p, j)
    {
      if At(s, p, j) {
        NoStraddle(a, p + rest, p, j);
      }
    }
    FindIs(s, p, |a|);
  }

  lemma AtPart<T>(s: seq<T>, p: seq<T>, lo: nat, hi: nat, j: int)
    requires lo <= hi <= |s| && 0 <= j && j + |p| <= hi - lo
    ensures At(s[lo..hi], p, j) <==> At(s, p, lo + j)
  {
    assert s == s[..lo] + s[lo..] && s[lo..] == s[lo..hi] + s[hi..];
    AtSuffix(s[..lo], s[lo..], p, lo + j);
    AtPrefix(s[lo..hi], s[hi..], p, j);
  }

  lemma LacksPart<T>(s: seq<T>, p: seq<T>, lo: nat, hi: nat)
    requires lo <= hi <= |s|
    requires forall j :: lo <= j && j + |p| <= hi ==> !At(s, p, j)
    ensures Lacks(s[lo..hi], p)
  {
    forall j
      ensures !At(s[lo..hi], p, j)
    {
      if 0 <= j && j + |p| <= hi - lo {
        AtPart(s, p, lo, hi, j);
      }
    }
  }

  lemma LacksHalves<T>(s: seq<T>, p: seq<T>, i: nat)
    requires i <= |s| && Lacks(s, p)
    ensures Lacks(s[..i], p) && Lacks(s[i..], p)
  {
    LacksPart(s, p, 0, i);
    LacksPart(s, p, i, |s|);
    assert s[i..] == s[i..|s|];
  }

  /** The text before the first occurrence has none. */
  lemma LacksBeforeFirst<T>(s: seq<T>, p: seq<T>, i: nat)
    requires p != [] && IsFirst(s, p, i)
    ensures Lacks(s[..i], p)
  {
    LacksPart(s, p, 0, i);
  }
}
