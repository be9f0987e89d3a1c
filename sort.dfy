/**
 * The sort behind the dashboard's transaction table: `Arrays.sort` with a
 * comparator that puts larger keys first and answers 0 for equal keys. Java
 * sorts objects with a stable merge sort, so the result is the unique stable
 * arrangement by descending key; it is specified here by a functional
 * insertion sort and computed by an in-place one.
 */
module DescendingSort {

  ghost predicate NewestFirst<T>(s: seq<T>, key: T -> int) {
    forall i, j :: 0 <= i < j < |s| ==> key(s[i]) >= key(s[j])
  }

  /** The rows of `s` whose date is `t`, in their order in `s`. */
  function WithKey<T>(s: seq<T>, t: int, key: T -> int): seq<T> {
    if s == [] then []
    else WithKey(s[..|s| - 1], t, key) + (if key(s[|s| - 1]) == t then [s[|s| - 1]] else [])
  }

  /**
   * Inserts `x` behind every trailing row of `s` that is older than it, so
   * that `x` ends up after all rows of its own date.
   */
  function Insert<T>(s: seq<T>, x: T, key: T -> int): (r: seq<T>)
    ensures |r| == |s| + 1
  {
    if s == [] || key(s[|s| - 1]) >= key(x) then s + [x]
    else Insert(s[..|s| - 1], x, key) + [s[|s| - 1]]
  }

  /** What `Arrays.sort` with the date comparator makes of `s`. */
  function SortNewestFirst<T>(s: seq<T>, key: T -> int): (r: seq<T>)
    ensures |r| == |s|
  {
    if s == [] then []
    else Insert(SortNewestFirst(s[..|s| - 1], key), s[|s| - 1], key)
  }

  /** Inserting adds exactly `x`. */
  lemma {:induction false} InsertPermutes<T>(s: seq<T>, x: T, key: T -> int)
    ensures multiset(Insert(s, x, key)) == multiset(s) + multiset{x}
  {
    if s != [] {
      assert s == s[..|s| - 1] + [s[|s| - 1]];
      if key(s[|s| - 1]) < key(x) {
        InsertPermutes(s[..|s| - 1], x, key);
      }
    }
  }

  /** The sort is a permutation: it neither loses, duplicates nor invents rows. */
  lemma {:induction false} SortPermutes<T>(s: seq<T>, key: T -> int)
    ensures multiset(SortNewestFirst(s, key)) == multiset(s)
  {
    if s != [] {
      assert s == s[..|s| - 1] + [s[|s| - 1]];
      SortPermutes(s[..|s| - 1], key);
      InsertPermutes(SortNewestFirst(s[..|s| - 1], key), s[|s| - 1], key);
    }
  }

  /** The sort neither loses nor invents rows. */
  lemma SortedMembers<T>(s: seq<T>, key: T -> int)
    ensures forall x :: x in SortNewestFirst(s, key) <==> x in s
  {
    SortPermutes(s, key);
    forall x ensures x in SortNewestFirst(s, key) <==> x in s {
      assert x in SortNewestFirst(s, key) <==> x in multiset(SortNewestFirst(s, key));
      assert x in s <==> x in multiset(s);
    }
  }

  lemma {:induction false} WithKeyAppend<T>(a: seq<T>, b: seq<T>, t: int, key: T -> int)
    ensures WithKey(a + b, t, key) == WithKey(a, t, key) + WithKey(b, t, key)
  {
    if b == [] {
      assert a + b == a;
    } else {
      var ab := a + b;
      assert ab[..|ab| - 1] == a + b[..|b| - 1];
      assert ab[|ab| - 1] == b[|b| - 1];
      WithKeyAppend(a, b[..|b| - 1], t, key);
    }
  }

  lemma {:induction false} WithKeyMembers<T>(s: seq<T>, t: int, x: T, key: T -> int)
    requires x in WithKey(s, t, key)
    ensures x in s && key(x) == t
  {
    if s != [] {
      if x in WithKey(s[..|s| - 1], t, key) {
        WithKeyMembers(s[..|s| - 1], t, x, key);
      }
    }
  }

  /** In a newest-first table the last row is the oldest. */
  lemma LastIsOldest<T>(s: seq<T>, x: T, key: T -> int)
    requires NewestFirst(s, key) && x in s
    ensures key(x) >= key(s[|s| - 1])
  {
    var k :| 0 <= k < |s| && s[k] == x;
    if k < |s| - 1 {
      assert key(s[k]) >= key(s[|s| - 1]);
    }
  }

  lemma NewestFirstInit<T>(s: seq<T>, key: T -> int)
    requires NewestFirst(s, key) && s != []
    ensures NewestFirst(s[..|s| - 1], key)
  {
    var init := s[..|s| - 1];
    forall i, j | 0 <= i < j < |init| ensures key(init[i]) >= key(init[j]) {
      assert init[i] == s[i] && init[j] == s[j];
    }
  }

  lemma NewestFirstSnoc<T>(s: seq<T>, y: T, key: T -> int)
    requires NewestFirst(s, key)
    requires forall x :: x in s ==> key(x) >= key(y)
    ensures NewestFirst(s + [y], key)
  {
    var t := s + [y];
    forall i, j | 0 <= i < j < |t| ensures key(t[i]) >= key(t[j]) {
      if j < |s| {
        assert t[i] == s[i] && t[j] == s[j];
      } else {
        assert t[i] in s;
      }
    }
  }

  lemma {:induction false} InsertKeepsNewestFirst<T>(s: seq<T>, x: T, key: T -> int)
    requires NewestFirst(s, key)
    ensures NewestFirst(Insert(s, x, key), key)
  {
    if s == [] || key(s[|s| - 1]) >= key(x) {
      forall y | y in s ensures key(y) >= key(x) {
        LastIsOldest(s, y, key);
      }
      NewestFirstSnoc(s, x, key);
    } else {
      var init, last := s[..|s| - 1], s[|s| - 1];
      NewestFirstInit(s, key);
      InsertKeepsNewestFirst(init, x, key);
      var r := Insert(init, x, key);
      InsertPermutes(init, x, key);
      forall y | y in r ensures key(y) >= key(last) {
        assert y in multiset(r);
        if y != x {
          assert y in multiset(init);
          assert y in s;
          LastIsOldest(s, y, key);
        }
      }
      NewestFirstSnoc(r, last, key);
    }
  }

  /** The sorted table has the newest rows first. */
  lemma {:induction false} SortIsNewestFirst<T>(s: seq<T>, key: T -> int)
    ensures NewestFirst(SortNewestFirst(s, key), key)
  {
    if s != [] {
      SortIsNewestFirst(s[..|s| - 1], key);
      InsertKeepsNewestFirst(SortNewestFirst(s[..|s| - 1], key), s[|s| - 1], key);
    }
  }

  lemma {:induction false} InsertStable<T>(s: seq<T>, x: T, t: int, key: T -> int)
    ensures WithKey(Insert(s, x, key), t, key) == WithKey(s, t, key) + (if key(x) == t then [x] else [])
  {
    if s == [] || key(s[|s| - 1]) >= key(x) {
      WithKeyAppend(s, [x], t, key);
    } else {
      var init, last := s[..|s| - 1], s[|s| - 1];
      InsertStable(init, x, t, key);
      WithKeyAppend(Insert(init, x, key), [last], t, key);
    }
  }

  /** Rows of the same date keep their relative order: the sort is stable. */
  lemma {:induction false} SortIsStable<T>(s: seq<T>, t: int, key: T -> int)
    ensures WithKey(SortNewestFirst(s, key), t, key) == WithKey(s, t, key)
  {
    if s != [] {
      SortIsStable(s[..|s| - 1], t, key);
      InsertStable(SortNewestFirst(s[..|s| - 1], key), s[|s| - 1], t, key);
    }
  }

  /** `r` is `s` sorted newest first by a stable sort. */
  ghost predicate StablySorted<T>(r: seq<T>, s: seq<T>, key: T -> int) {
    NewestFirst(r, key) && forall t :: WithKey(r, t, key) == WithKey(s, t, key)
  }

  /** The last row of a table is among the rows of its own date, and last there. */
  lemma WithKeyOfLast<T>(s: seq<T>, key: T -> int)
    requires s != []
    ensures WithKey(s, key(s[|s| - 1]), key) == WithKey(s[..|s| - 1], key(s[|s| - 1]), key) + [s[|s| - 1]]
  {
  }

  /** A table's last row is no newer than the last row of a table with the same rows of each date. */
  lemma LastNoNewer<T>(r: seq<T>, q: seq<T>, key: T -> int)
    requires NewestFirst(q, key) && r != [] && q != []
    requires forall t :: WithKey(r, t, key) == WithKey(q, t, key)
    ensures key(r[|r| - 1]) >= key(q[|q| - 1])
  {
    var x := r[|r| - 1];
    WithKeyOfLast(r, key);
    assert WithKey(q, key(x), key) == WithKey(r, key(x), key);
    WithKeyMembers(q, key(x), x, key);
    LastIsOldest(q, x, key);
  }

  /** Two tables with the same rows of each date, whose last rows have one date, end in the same row. */
  lemma SameGroupsSameLast<T>(r: seq<T>, q: seq<T>, key: T -> int)
    requires r != [] && q != []
    requires key(r[|r| - 1]) == key(q[|q| - 1])
    requires forall t :: WithKey(r, t, key) == WithKey(q, t, key)
    ensures r[|r| - 1] == q[|q| - 1]
  {
    var m := key(r[|r| - 1]);
    WithKeyOfLast(r, key);
    WithKeyOfLast(q, key);
    var w := WithKey(r, m, key);
    assert w == WithKey(q, m, key);
    assert w[|w| - 1] == r[|r| - 1];
    assert w[|w| - 1] == q[|q| - 1];
  }

  /** Dropping the same last row from two tables keeps their rows of each date equal. */
  lemma SameGroupsInit<T>(r: seq<T>, q: seq<T>, t: int, key: T -> int)
    requires r != [] && q != [] && r[|r| - 1] == q[|q| - 1]
    requires WithKey(r, t, key) == WithKey(q, t, key)
    ensures WithKey(r[..|r| - 1], t, key) == WithKey(q[..|q| - 1], t, key)
  {
    var x := r[|r| - 1];
    var tail := if key(x) == t then [x] else [];
    var w := WithKey(r, t, key);
    assert w == WithKey(r[..|r| - 1], t, key) + tail;
    assert w == WithKey(q[..|q| - 1], t, key) + tail;
    assert WithKey(r[..|r| - 1], t, key) == w[..|w| - |tail|];
    assert WithKey(q[..|q| - 1], t, key) == w[..|w| - |tail|];
  }

  /** Newest-first tables with the same rows of each date are the same table. */
  lemma {:induction false} SameGroupsSameSeq<T>(r: seq<T>, q: seq<T>, key: T -> int)
    requires NewestFirst(r, key) && NewestFirst(q, key)
    requires forall t :: WithKey(r, t, key) == WithKey(q, t, key)
    ensures r == q
    decreases |r| + |q|
  {
    if r == [] && q != [] {
      WithKeyOfLast(q, key);
    } else if r != [] && q == [] {
      WithKeyOfLast(r, key);
    } else if r != [] {
      LastNoNewer(r, q, key);
      LastNoNewer(q, r, key);
      SameGroupsSameLast(r, q, key);
      var r', q' := r[..|r| - 1], q[..|q| - 1];
      forall t ensures WithKey(r', t, key) == WithKey(q', t, key) {
        SameGroupsInit(r, q, t, key);
      }
      NewestFirstInit(r, key);
      NewestFirstInit(q, key);
      SameGroupsSameSeq(r', q', key);
      assert r == r' + [r[|r| - 1]] && q == q' + [q[|q| - 1]];
    }
  }

  /**
   * The model's sort is what every stable sort with the comparator gives:
   * `Arrays.sort` (a stable merge sort) and the insertion sort below agree.
   */
  lemma StableSortIsUnique<T>(r: seq<T>, s: seq<T>, key: T -> int)
    requires StablySorted(r, s, key)
    ensures r == SortNewestFirst(s, key)
  {
    SortIsNewestFirst(s, key);
    forall t ensures WithKey(r, t, key) == WithKey(SortNewestFirst(s, key), t, key) {
      SortIsStable(s, t, key);
    }
    SameGroupsSameSeq(r, SortNewestFirst(s, key), key);
  }

  /**
   * Inserting `x` puts it right behind the last element at least as new, with
   * every element after that position strictly older.
   */
  lemma {:induction false} InsertAt<T>(prefix: seq<T>, j: nat, x: T, key: T -> int)
    requires j <= |prefix| && (j == 0 || key(prefix[j - 1]) >= key(x))
    requires forall k :: j <= k < |prefix| ==> key(prefix[k]) < key(x)
    ensures Insert(prefix, x, key) == prefix[..j] + [x] + prefix[j..]
    decreases |prefix|
  {
    if j == |prefix| {
      assert prefix[..j] == prefix && prefix[j..] == [];
    } else {
      var init, last := prefix[..|prefix| - 1], prefix[|prefix| - 1];
      assert key(last) < key(x);
      assert Insert(prefix, x, key) == Insert(init, x, key) + [last];
      forall k | j <= k < |init| ensures key(init[k]) < key(x) {
        assert init[k] == prefix[k];
      }
      InsertAt(init, j, x, key);
      assert init[..j] == prefix[..j];
      assert prefix[j..] == init[j..] + [last];
    }
  }

  lemma SortSnoc<T>(input: seq<T>, i: nat, key: T -> int)
    requires i < |input|
    ensures SortNewestFirst(input[..i + 1], key) == Insert(SortNewestFirst(input[..i], key), input[i], key)
  {
    assert input[..i + 1][..i] == input[..i];
  }

  /** Moves `a[i]` down into the sorted part `a[..i]`, behind every row at least as new. */
  method InsertLast<T>(a: array<T>, i: nat, key: T -> int)
    requires i < a.Length
    modifies a
    ensures a[..i + 1] == Insert(old(a[..i]), old(a[i]), key)
    ensures forall k :: i < k < a.Length ==> a[k] == old(a[k])
  {
    var x := a[i];
    ghost var prefix := a[..i];
    var j := i;
    while j > 0 && key(a[j - 1]) < key(x)
      invariant 0 <= j <= i
      invariant forall k :: 0 <= k < j ==> a[k] == prefix[k]
      invariant forall k :: j < k <= i ==> a[k] == prefix[k - 1]
      invariant forall k :: i < k < a.Length ==> a[k] == old(a[k])
      invariant forall k :: j <= k < i ==> key(prefix[k]) < key(x)
    {
      a[j] := a[j - 1];
      j := j - 1;
    }
    a[j] := x;
    InsertAt(prefix, j, x, key);
    assert a[..i + 1] == prefix[..j] + [x] + prefix[j..];
  }

  /** Stable insertion sort of the table, newest first, in place. */
  method SortInPlace<T>(a: array<T>, key: T -> int)
    modifies a
    ensures a[..] == SortNewestFirst(old(a[..]), key)
  {
    ghost var input := a[..];
    for i := 0 to a.Length
      invariant a[..i] == SortNewestFirst(input[..i], key)
      invariant forall k :: i <= k < a.Length ==> a[k] == input[k]
    {
      InsertLast(a, i, key);
      SortSnoc(input, i, key);
    }
    assert input[..a.Length] == input;
  }
}
