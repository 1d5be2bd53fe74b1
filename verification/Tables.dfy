/** Association lists read the way a hash map filled by insertion is read, and the stable sort
    by key that the program applies to them. */
module Tables {
  import opened Wrappers

  type Entries<T> = seq<(string, T)>

  /** The value a map holds after inserting the entries in order: the last one wins. */
  function Last<T>(xs: Entries<T>, key: string): Option<T> {
    if xs == [] then None
    else
      var later := Last(xs[1..], key);
      if later.Some? then later else if xs[0].0 == key then Some(xs[0].1) else None
  }

  lemma {:induction false} LastOfAppend<T>(a: Entries<T>, b: Entries<T>, key: string)
    ensures Last(a + b, key) == if Last(b, key).Some? then Last(b, key) else Last(a, key)
  {
    if a == [] {
      assert a + b == b;
    } else {
      assert (a + b)[1..] == a[1..] + b;
      LastOfAppend(a[1..], b, key);
    }
  }

  lemma LastOfSnoc<T>(a: Entries<T>, e: (string, T), key: string)
    ensures Last(a + [e], key) == if e.0 == key then Some(e.1) else Last(a, key)
  {
    LastOfAppend(a, [e], key);
    assert [e][1..] == [];
  }

  lemma {:induction false} LastIsEntry<T>(xs: Entries<T>, key: string)
    ensures Last(xs, key).Some? <==> exists i :: 0 <= i < |xs| && xs[i].0 == key
    ensures Last(xs, key).Some? ==> (key, Last(xs, key).value) in xs
  {
    if xs != [] {
      LastIsEntry(xs[1..], key);
      if i :| 0 <= i < |xs| && xs[i].0 == key && i > 0 {
        assert xs[1..][i - 1].0 == key;
      }
      if Last(xs[1..], key).Some? {
        var i :| 0 <= i < |xs[1..]| && xs[1..][i].0 == key;
        assert xs[i + 1].0 == key;
      } else if xs[0].0 == key {
        assert xs[0] == (key, xs[0].1);
      }
    }
  }

  // ---------------------------------------------------------------- the order of strings

  predicate Le(a: string, b: string) {
    a == "" || (b != "" && (a[0] < b[0] || (a[0] == b[0] && Le(a[1..], b[1..]))))
  }

  lemma SameStart(a: string, b: string, i: nat)
    requires i < |a| && i < |b| && a[..i] == b[..i]
    ensures i > 0 ==> a[0] == b[0]
  {
    if i > 0 {
      assert a[..i][0] == a[0] && b[..i][0] == b[0];
    }
  }

  /** Strings are compared as Rust compares them: the first different byte decides, and a prefix
      comes first. */
  lemma {:induction false} LeExactly(a: string, b: string)
    ensures Le(a, b) <==> a <= b || exists i :: 0 <= i < |a| && i < |b| && a[..i] == b[..i] && a[i] < b[i]
  {
    if a != "" && b != "" {
      var x, y := a[1..], b[1..];
      LeExactly(x, y);
      assert a == [a[0]] + x && b == [b[0]] + y;
      if a[0] == b[0] {
        if i :| 0 <= i < |a| && i < |b| && a[..i] == b[..i] && a[i] < b[i] {
          assert x[..i - 1] == a[..i][1..] == b[..i][1..] == y[..i - 1] && x[i - 1] < y[i - 1];
        }
        if i :| 0 <= i < |x| && i < |y| && x[..i] == y[..i] && x[i] < y[i] {
          assert a[..i + 1] == [a[0]] + x[..i] == [b[0]] + y[..i] == b[..i + 1] && a[i + 1] < b[i + 1];
        }
      } else if a[0] < b[0] {
        assert a[..0] == b[..0];
      } else {
        forall i | 0 <= i < |a| && i < |b| && a[..i] == b[..i]
          ensures a[i] >= b[i]
        {
          SameStart(a, b, i);
        }
      }
    }
  }

  lemma {:induction false} LeTotal(a: string, b: string)
    ensures Le(a, b) || Le(b, a)
    ensures Le(a, b) && Le(b, a) ==> a == b
  {
    if a != "" && b != "" {
      LeTotal(a[1..], b[1..]);
      assert a == [a[0]] + a[1..] && b == [b[0]] + b[1..];
    }
  }

  lemma {:induction false} LeTransitive(a: string, b: string, c: string)
    requires Le(a, b) && Le(b, c)
    ensures Le(a, c)
  {
    if a != "" && a[0] == b[0] == c[0] {
      LeTransitive(a[1..], b[1..], c[1..]);
    }
  }

  // ---------------------------------------------------------------- the stable sort

  ghost predicate Sorted<T>(xs: Entries<T>) {
    forall i, j :: 0 <= i < j < |xs| ==> Le(xs[i].0, xs[j].0)
  }

  /** Puts `x` before the first entry whose key is not smaller. */
  function Insert<T>(x: (string, T), xs: Entries<T>): Entries<T> {
    if xs == [] || Le(x.0, xs[0].0) then [x] + xs else [xs[0]] + Insert(x, xs[1..])
  }

  /** `sort_by` on the key: entries with equal keys keep their order. */
  function Sort<T>(xs: Entries<T>): Entries<T> {
    if xs == [] then [] else Insert(xs[0], Sort(xs[1..]))
  }

  lemma {:induction false} InsertKeepsEntries<T>(x: (string, T), xs: Entries<T>)
    ensures multiset(Insert(x, xs)) == multiset{x} + multiset(xs)
  {
    if xs == [] || Le(x.0, xs[0].0) {
    } else {
      InsertKeepsEntries(x, xs[1..]);
      assert xs == [xs[0]] + xs[1..];
    }
  }

  lemma {:induction false} InsertKeepsOrder<T>(x: (string, T), xs: Entries<T>)
    requires Sorted(xs)
    ensures Sorted(Insert(x, xs))
  {
    if xs == [] {
    } else if Le(x.0, xs[0].0) {
      forall j | 0 <= j < |xs|
        ensures Le(x.0, xs[j].0)
      {
        if j > 0 {
          LeTransitive(x.0, xs[0].0, xs[j].0);
        }
      }
    } else {
      InsertKeepsOrder(x, xs[1..]);
      LeTotal(x.0, xs[0].0);
      var rest := Insert(x, xs[1..]);
      InsertKeepsEntries(x, xs[1..]);
      forall j | 0 <= j < |rest|
        ensures Le(xs[0].0, rest[j].0)
      {
        assert rest[j] in multiset{x} + multiset(xs[1..]);
        if rest[j] != x {
          assert rest[j] in xs[1..];
        }
      }
    }
  }

  lemma {:induction false} SortSorts<T>(xs: Entries<T>)
    ensures Sorted(Sort(xs)) && multiset(Sort(xs)) == multiset(xs)
  {
    if xs != [] {
      SortSorts(xs[1..]);
      InsertKeepsOrder(xs[0], Sort(xs[1..]));
      InsertKeepsEntries(xs[0], Sort(xs[1..]));
      assert xs == [xs[0]] + xs[1..];
    }
  }

  lemma {:induction false} LastOfInsert<T>(x: (string, T), xs: Entries<T>, key: string)
    ensures Last(Insert(x, xs), key) == Last([x] + xs, key)
  {
    assert ([x] + xs)[1..] == xs;
    if xs == [] || Le(x.0, xs[0].0) {
    } else {
      LastOfInsert(x, xs[1..], key);
      assert ([x] + xs[1..])[1..] == xs[1..];
      assert ([xs[0]] + Insert(x, xs[1..]))[1..] == Insert(x, xs[1..]);
      LeTotal(x.0, x.0);
    }
  }

  /** Stability: sorting does not change which entry of a key comes last. */
  lemma {:induction false} LastOfSort<T>(xs: Entries<T>, key: string)
    ensures Last(Sort(xs), key) == Last(xs, key)
  {
    if xs != [] {
      LastOfSort(xs[1..], key);
      LastOfInsert(xs[0], Sort(xs[1..]), key);
      assert ([xs[0]] + Sort(xs[1..]))[1..] == Sort(xs[1..]);
    }
  }

  /** Entries with equal keys are equal. */
  ghost predicate KeysDetermine<T(!new)>(xs: Entries<T>) {
    forall x, y :: x in xs && y in xs && x.0 == y.0 ==> x == y
  }

  lemma SortedHead<T>(xs: Entries<T>, x: (string, T))
    requires Sorted(xs) && x in xs
    ensures Le(xs[0].0, x.0)
  {
    var i :| 0 <= i < |xs| && xs[i] == x;
    LeTotal(xs[0].0, xs[0].0);
  }

  lemma SameHead<T(!new)>(xs: Entries<T>, ys: Entries<T>)
    requires Sorted(xs) && Sorted(ys) && multiset(xs) == multiset(ys) && KeysDetermine(xs)
    requires xs != [] && ys != []
    ensures xs[0] == ys[0]
  {
    assert xs[0] in multiset(ys) && ys[0] in multiset(xs);
    SortedHead(xs, ys[0]);
    SortedHead(ys, xs[0]);
    LeTotal(xs[0].0, ys[0].0);
  }

  lemma TailEntries<T>(xs: Entries<T>)
    requires xs != []
    ensures multiset(xs[1..]) == multiset(xs) - multiset{xs[0]}
  {
    assert xs == [xs[0]] + xs[1..];
  }

  lemma TailKeysDetermine<T(!new)>(xs: Entries<T>)
    requires xs != [] && KeysDetermine(xs)
    ensures KeysDetermine(xs[1..])
  {
  }

  /** Sorted lists of the same entries are equal when keys determine entries. */
  lemma {:induction false} SortedUnique<T(!new)>(xs: Entries<T>, ys: Entries<T>)
    requires Sorted(xs) && Sorted(ys) && multiset(xs) == multiset(ys) && KeysDetermine(xs)
    ensures xs == ys
    decreases |xs|
  {
    assert |multiset(xs)| == |xs| && |multiset(ys)| == |ys|;
    if xs != [] {
      SameHead(xs, ys);
      TailEntries(xs);
      TailEntries(ys);
      TailKeysDetermine(xs);
      SortedUnique(xs[1..], ys[1..]);
      assert xs == [xs[0]] + xs[1..] && ys == [ys[0]] + ys[1..];
    }
  }

  /** The sorted list does not depend on the order of the entries. */
  lemma SortIsCanonical<T(!new)>(xs: Entries<T>, ys: Entries<T>)
    requires multiset(xs) == multiset(ys) && KeysDetermine(xs)
    ensures Sort(xs) == Sort(ys)
  {
    SortSorts(xs);
    SortSorts(ys);
    forall x, y | x in Sort(xs) && y in Sort(xs) && x.0 == y.0
      ensures x == y
    {
      assert x in multiset(Sort(xs)) && y in multiset(Sort(xs));
      assert x in xs && y in xs;
    }
    SortedUnique(Sort(xs), Sort(ys));
  }

  /** The list with entry `i` moved to the end, where it wins. */
  function MoveLast<T>(xs: Entries<T>, i: nat): (r: Entries<T>)
    requires i < |xs|
    ensures multiset(r) == multiset(xs)
  {
    assert xs == xs[..i] + [xs[i]] + xs[i + 1..];
    xs[..i] + xs[i + 1..] + [xs[i]]
  }
}
