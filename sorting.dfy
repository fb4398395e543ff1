/**
 * The ordering step of both report parsers: `list.sort(key=..., reverse=True)`,
 * a stable sort whose keys are str values, largest first. Python documents
 * that `reverse=True` keeps records with equal keys in their original order.
 * SortDesc is insertion sort; SortDescUnique shows that any arrangement that
 * is ordered and keeps equal keys in input order is this one, so the result
 * does not depend on the algorithm behind `list.sort`.
 */
module Sorting {
  import opened Text

  /** `a >= b` on str. */
  predicate KeyAtLeast(a: string, b: string) {
    !StrLess(a, b)
  }

  lemma KeyAtLeastTransitive(a: string, b: string, c: string)
    requires KeyAtLeast(a, b) && KeyAtLeast(b, c)
    ensures KeyAtLeast(a, c)
  {
    if StrLess(a, c) {
      StrLessTotal(a, b);
      if StrLess(b, a) {
        StrLessTransitive(b, a, c);
      }
    }
  }

  lemma KeyAtLeastAntisymmetric(a: string, b: string)
    requires KeyAtLeast(a, b) && KeyAtLeast(b, a)
    ensures a == b
  {
    StrLessTotal(a, b);
  }

  /** Ordered by key, largest first, as `sort(key=key, reverse=True)` leaves a list. */
  predicate SortedDesc<T>(s: seq<T>, key: T -> string) {
    forall i, j :: 0 <= i < j < |s| ==> KeyAtLeast(key(s[i]), key(s[j]))
  }

  /** The elements of `s` whose key is `k`, in their order in `s`. */
  function WithKey<T>(s: seq<T>, key: T -> string, k: string): seq<T> {
    if s == [] then [] else (if key(s[0]) == k then [s[0]] else []) + WithKey(s[1..], key, k)
  }

  lemma {:induction false} WithKeyAppend<T>(a: seq<T>, b: seq<T>, key: T -> string, k: string)
    ensures WithKey(a + b, key, k) == WithKey(a, key, k) + WithKey(b, key, k)
  {
    if a == [] {
      assert a + b == b;
    } else {
      var head := if key(a[0]) == k then [a[0]] else [];
      assert (a + b)[0] == a[0] && (a + b)[1..] == a[1..] + b;
      assert WithKey(a + b, key, k) == head + WithKey(a[1..] + b, key, k);
      WithKeyAppend(a[1..], b, key, k);
      assert WithKey(a, key, k) == head + WithKey(a[1..], key, k);
    }
  }

  lemma {:induction false} WithKeyMember<T>(s: seq<T>, key: T -> string, k: string, y: T)
    requires y in WithKey(s, key, k)
    ensures y in s && key(y) == k
  {
    if s != [] {
      if y != s[0] || key(s[0]) != k {
        WithKeyMember(s[1..], key, k, y);
      }
    }
  }

  /** Taking the first n elements keeps, for every key, a prefix of that key's elements. */
  lemma WithKeyPrefix<T>(s: seq<T>, n: nat, key: T -> string, k: string)
    requires n <= |s|
    ensures WithKey(s[..n], key, k) <= WithKey(s, key, k)
  {
    assert s == s[..n] + s[n..];
    WithKeyAppend(s[..n], s[n..], key, k);
  }

  lemma WithKeyHead<T>(s: seq<T>, key: T -> string)
    ensures s != [] ==> WithKey(s, key, key(s[0])) == [s[0]] + WithKey(s[1..], key, key(s[0]))
  {
  }

  /** Place `x` before the first element whose key is not larger than its own. */
  function Insert<T>(x: T, s: seq<T>, key: T -> string): seq<T> {
    if s == [] || KeyAtLeast(key(x), key(s[0])) then [x] + s
    else [s[0]] + Insert(x, s[1..], key)
  }

  /** `list.sort(key=key, reverse=True)`: stable, largest key first. */
  function SortDesc<T>(s: seq<T>, key: T -> string): seq<T> {
    if s == [] then [] else Insert(s[0], SortDesc(s[1..], key), key)
  }

  lemma {:induction false} InsertElements<T>(x: T, s: seq<T>, key: T -> string)
    ensures multiset(Insert(x, s, key)) == multiset([x]) + multiset(s)
  {
    if !(s == [] || KeyAtLeast(key(x), key(s[0]))) {
      InsertElements(x, s[1..], key);
      assert s == [s[0]] + s[1..];
    }
  }

  lemma {:induction false} InsertSorted<T>(x: T, s: seq<T>, key: T -> string)
    requires SortedDesc(s, key)
    ensures SortedDesc(Insert(x, s, key), key)
  {
    var r := Insert(x, s, key);
    if s == [] {
    } else if KeyAtLeast(key(x), key(s[0])) {
      forall j | 1 <= j < |r| ensures KeyAtLeast(key(r[0]), key(r[j])) {
        if j > 1 {
          KeyAtLeastTransitive(key(x), key(s[0]), key(s[j - 1]));
        }
      }
    } else {
      var tail := Insert(x, s[1..], key);
      InsertSorted(x, s[1..], key);
      InsertElements(x, s[1..], key);
      StrLessAsymmetric(key(x), key(s[0]));
      forall j | 0 <= j < |tail| ensures KeyAtLeast(key(s[0]), key(tail[j])) {
        assert tail[j] in multiset(tail);
        if tail[j] != x {
          assert tail[j] in s[1..];
        }
      }
    }
  }

  lemma {:induction false} InsertWithKey<T>(x: T, s: seq<T>, key: T -> string, k: string)
    ensures WithKey(Insert(x, s, key), key, k) == (if key(x) == k then [x] else []) + WithKey(s, key, k)
  {
    if s == [] || KeyAtLeast(key(x), key(s[0])) {
      assert ([x] + s)[1..] == s;
    } else {
      var tail := Insert(x, s[1..], key);
      var r := [s[0]] + tail;
      assert r[0] == s[0] && r[1..] == tail;
      InsertWithKey(x, s[1..], key, k);
      var head := if key(s[0]) == k then [s[0]] else [];
      assert WithKey(r, key, k) == head + WithKey(tail, key, k);
      assert WithKey(s, key, k) == head + WithKey(s[1..], key, k);
      if key(x) == k {
        StrLessIrreflexive(key(x));
        assert head == [];
      }
    }
  }

  /** The sort yields its input ordered by key, largest first. */
  lemma {:induction false} SortDescSorted<T>(s: seq<T>, key: T -> string)
    ensures SortedDesc(SortDesc(s, key), key)
  {
    if s != [] {
      SortDescSorted(s[1..], key);
      InsertSorted(s[0], SortDesc(s[1..], key), key);
    }
  }

  /** The sort neither loses nor duplicates an element. */
  lemma {:induction false} SortDescPermutes<T>(s: seq<T>, key: T -> string)
    ensures multiset(SortDesc(s, key)) == multiset(s)
  {
    if s != [] {
      SortDescPermutes(s[1..], key);
      InsertElements(s[0], SortDesc(s[1..], key), key);
      assert s == [s[0]] + s[1..];
    }
  }

  /** Stability: for every key, the elements carrying it keep their input order. */
  lemma {:induction false} SortDescStable<T>(s: seq<T>, key: T -> string, k: string)
    ensures WithKey(SortDesc(s, key), key, k) == WithKey(s, key, k)
  {
    if s != [] {
      SortDescStable(s[1..], key, k);
      InsertWithKey(s[0], SortDesc(s[1..], key), key, k);
    }
  }

  /** Two key-ordered sequences that agree on the elements of every key are equal. */
  lemma {:induction false} SortedDetermined<T>(a: seq<T>, b: seq<T>, key: T -> string)
    requires SortedDesc(a, key) && SortedDesc(b, key)
    requires forall k :: WithKey(a, key, k) == WithKey(b, key, k)
    ensures a == b
    decreases |a|
  {
    WithKeyHead(a, key);
    WithKeyHead(b, key);
    if a != [] && b != [] {
      var ka, kb := key(a[0]), key(b[0]);
      assert a[0] in WithKey(b, key, ka) by {
        assert WithKey(a, key, ka)[0] == a[0];
      }
      assert b[0] in WithKey(a, key, kb) by {
        assert WithKey(b, key, kb)[0] == b[0];
      }
      WithKeyMember(b, key, ka, a[0]);
      WithKeyMember(a, key, kb, b[0]);
      var i :| 0 <= i < |b| && b[i] == a[0];
      var j :| 0 <= j < |a| && a[j] == b[0];
      StrLessIrreflexive(ka);
      StrLessIrreflexive(kb);
      assert KeyAtLeast(kb, ka) by {
        if i > 0 { assert KeyAtLeast(key(b[0]), key(b[i])); }
      }
      assert KeyAtLeast(ka, kb) by {
        if j > 0 { assert KeyAtLeast(key(a[0]), key(a[j])); }
      }
      KeyAtLeastAntisymmetric(ka, kb);
      assert a[0] == b[0] by {
        assert WithKey(a, key, ka) == WithKey(b, key, ka);
        assert WithKey(a, key, ka)[0] == a[0];
        assert WithKey(b, key, ka)[0] == b[0];
      }
      forall k ensures WithKey(a[1..], key, k) == WithKey(b[1..], key, k) {
        var head := if ka == k then [a[0]] else [];
        assert WithKey(a, key, k) == head + WithKey(a[1..], key, k);
        assert WithKey(b, key, k) == head + WithKey(b[1..], key, k);
        assert WithKey(a, key, k) == WithKey(b, key, k);
        assert WithKey(a[1..], key, k) == WithKey(a, key, k)[|head|..];
        assert WithKey(b[1..], key, k) == WithKey(b, key, k)[|head|..];
      }
      SortedDetermined(a[1..], b[1..], key);
      assert a == [a[0]] + a[1..] && b == [b[0]] + b[1..];
    }
  }

  /**
   * Any ordered arrangement of `s` that keeps every key's elements in input
   * order is SortDesc(s): the stable sort's result is unique.
   */
  lemma SortDescUnique<T>(s: seq<T>, t: seq<T>, key: T -> string)
    requires SortedDesc(t, key)
    requires forall k :: WithKey(t, key, k) == WithKey(s, key, k)
    ensures t == SortDesc(s, key)
  {
    SortDescSorted(s, key);
    forall k ensures WithKey(t, key, k) == WithKey(SortDesc(s, key), key, k) {
      SortDescStable(s, key, k);
    }
    SortedDetermined(t, SortDesc(s, key), key);
  }
}
