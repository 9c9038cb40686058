/**
 * The ordering engine: the comparator of the `sorted` derivation and the stable sort that
 * `Array.prototype.sort` performs with it.
 */
module Ordering {
  import opened Text
  import opened Records

  /** The columns a user can sort by. */
  datatype SortKey = Id | FirstName | LastName | Email | Department

  datatype SortDir = Asc | Desc

  /** The value a record is compared by: the numeric id, or one of the text fields. */
  datatype KeyValue = Num(n: int) | Str(s: String)

  /** `u[sortKey]`. */
  function KeyOf(u: User, key: SortKey): (v: KeyValue)
    ensures v.Num? <==> key == Id
  {
    match key
    case Id => Num(u.id)
    case FirstName => Str(u.firstName)
    case LastName => Str(u.lastName)
    case Email => Str(u.email)
    case Department => Str(u.department)
  }

  /** JavaScript `<` on strings: lexicographic by character, a proper prefix first. */
  predicate StrLess(a: String, b: String)
    decreases |a|
  {
    if a == [] then b != []
    else if b == [] then false
    else if a[0] != b[0] then a[0] < b[0]
    else StrLess(a[1..], b[1..])
  }

  lemma {:induction false} StrLessIrreflexive(a: String)
    ensures !StrLess(a, a)
    decreases |a|
  {
    if a != [] {
      StrLessIrreflexive(a[1..]);
    }
  }

  lemma {:induction false} StrLessAsymmetric(a: String, b: String)
    ensures !(StrLess(a, b) && StrLess(b, a))
    decreases |a|
  {
    if a != [] && b != [] && a[0] == b[0] {
      StrLessAsymmetric(a[1..], b[1..]);
    }
  }

  lemma {:induction false} StrLessTotal(a: String, b: String)
    ensures a == b || StrLess(a, b) || StrLess(b, a)
    decreases |a|
  {
    if a != [] && b != [] && a[0] == b[0] {
      StrLessTotal(a[1..], b[1..]);
      if a[1..] == b[1..] {
        assert a == [a[0]] + a[1..] && b == [b[0]] + b[1..];
      }
    }
  }

  lemma {:induction false} StrLessTransitive(a: String, b: String, c: String)
    requires StrLess(a, b) && StrLess(b, c)
    ensures StrLess(a, c)
    decreases |a|
  {
    if a != [] && a[0] == b[0] && b[0] == c[0] {
      StrLessTransitive(a[1..], b[1..], c[1..]);
    }
  }

  /** JavaScript `<` on two key values of the same column. */
  predicate Less(a: KeyValue, b: KeyValue) {
    match (a, b)
    case (Num(x), Num(y)) => x < y
    case (Str(x), Str(y)) => StrLess(x, y)
    case _ => false
  }

  /** `Less` is a strict total order on the values of one column. */
  lemma LessStrictTotal(a: KeyValue, b: KeyValue)
    requires a.Num? == b.Num?
    ensures !Less(a, a)
    ensures !(Less(a, b) && Less(b, a))
    ensures a == b || Less(a, b) || Less(b, a)
  {
    if a.Str? {
      StrLessIrreflexive(a.s);
      StrLessAsymmetric(a.s, b.s);
      StrLessTotal(a.s, b.s);
    }
  }

  lemma LessTransitive(a: KeyValue, b: KeyValue, c: KeyValue)
    requires Less(a, b) && Less(b, c)
    ensures Less(a, c)
  {
    if a.Str? {
      StrLessTransitive(a.s, b.s, c.s);
    }
  }

  /** `a` may stand before `b` in a list sorted by `key` in direction `dir`. */
  predicate InOrder(a: User, b: User, key: SortKey, dir: SortDir) {
    if dir == Asc then !Less(KeyOf(b, key), KeyOf(a, key)) else !Less(KeyOf(a, key), KeyOf(b, key))
  }

  /** Non-decreasing by the key for `Asc`, non-increasing for `Desc`. */
  predicate Ordered(s: seq<User>, key: SortKey, dir: SortDir) {
    forall i, j | 0 <= i < j < |s| :: InOrder(s[i], s[j], key, dir)
  }

  /**
   * The comparator: -1 when `a` goes first, 1 when `b` goes first, 0 on a tie; the direction
   * swaps the two non-zero answers and ties are exactly the equal keys.
   */
  function Compare(a: User, b: User, key: SortKey, dir: SortDir): (c: int)
    ensures c == -1 || c == 0 || c == 1
    ensures c <= 0 <==> InOrder(a, b, key, dir)
    ensures c >= 0 <==> InOrder(b, a, key, dir)
    ensures c == 0 <==> KeyOf(a, key) == KeyOf(b, key)
  {
    var av := KeyOf(a, key);
    var bv := KeyOf(b, key);
    LessStrictTotal(av, bv);
    if Less(av, bv) then (if dir == Asc then -1 else 1)
    else if Less(bv, av) then (if dir == Asc then 1 else -1)
    else 0
  }

  lemma InOrderTotal(a: User, b: User, key: SortKey, dir: SortDir)
    ensures InOrder(a, b, key, dir) || InOrder(b, a, key, dir)
  {
    LessStrictTotal(KeyOf(a, key), KeyOf(b, key));
  }

  lemma InOrderTransitive(a: User, b: User, c: User, key: SortKey, dir: SortDir)
    requires InOrder(a, b, key, dir) && InOrder(b, c, key, dir)
    ensures InOrder(a, c, key, dir)
  {
    var av, bv, cv := KeyOf(a, key), KeyOf(b, key), KeyOf(c, key);
    LessStrictTotal(av, bv);
    LessStrictTotal(bv, cv);
    LessStrictTotal(av, cv);
    if dir == Asc {
      if Less(cv, av) && Less(bv, cv) {
        LessTransitive(bv, cv, av);
      }
    } else {
      if Less(av, cv) && Less(cv, bv) {
        LessTransitive(av, cv, bv);
      }
    }
  }

  /** Places `x` before the first element it may precede. */
  function Insert(x: User, t: seq<User>, key: SortKey, dir: SortDir): (r: seq<User>)
    ensures multiset(r) == multiset(t) + multiset{x}
    ensures |r| == |t| + 1
  {
    if t == [] then [x]
    else if Compare(x, t[0], key, dir) <= 0 then [x] + t
    else
      assert t == [t[0]] + t[1..];
      [t[0]] + Insert(x, t[1..], key, dir)
  }

  /** `h` may stand before every element of `s`. */
  predicate Precedes(h: User, s: seq<User>, key: SortKey, dir: SortDir) {
    forall j | 0 <= j < |s| :: InOrder(h, s[j], key, dir)
  }

  lemma ConsOrdered(h: User, s: seq<User>, key: SortKey, dir: SortDir)
    requires Ordered(s, key, dir) && Precedes(h, s, key, dir)
    ensures Ordered([h] + s, key, dir)
  {
    var r := [h] + s;
    forall i, j | 0 <= i < j < |r| ensures InOrder(r[i], r[j], key, dir) {
      assert r[j] == s[j - 1];
      if i > 0 {
        assert r[i] == s[i - 1];
      }
    }
  }

  /** A list holding the elements of `s` and one more, `x`, is still preceded by `h`. */
  lemma PrecedesAddOne(h: User, x: User, s: seq<User>, u: seq<User>, key: SortKey, dir: SortDir)
    requires Precedes(h, s, key, dir) && InOrder(h, x, key, dir)
    requires multiset(u) == multiset(s) + multiset{x}
    ensures Precedes(h, u, key, dir)
  {
    forall j | 0 <= j < |u| ensures InOrder(h, u[j], key, dir) {
      assert u[j] in multiset(u);
      if u[j] != x {
        assert u[j] in multiset(s);
        var k :| 0 <= k < |s| && s[k] == u[j];
      }
    }
  }

  lemma OrderedTail(t: seq<User>, key: SortKey, dir: SortDir)
    requires t != [] && Ordered(t, key, dir)
    ensures Ordered(t[1..], key, dir) && Precedes(t[0], t[1..], key, dir)
  {
    forall i, j | 0 <= i < j < |t| - 1 ensures InOrder(t[1..][i], t[1..][j], key, dir) {
      assert t[1..][i] == t[i + 1] && t[1..][j] == t[j + 1];
    }
    forall j | 0 <= j < |t| - 1 ensures InOrder(t[0], t[1..][j], key, dir) {
      assert t[1..][j] == t[j + 1];
    }
  }

  lemma {:induction false} InsertOrdered(x: User, t: seq<User>, key: SortKey, dir: SortDir)
    requires Ordered(t, key, dir)
    ensures Ordered(Insert(x, t, key, dir), key, dir)
    decreases |t|
  {
    if t == [] {
    } else if Compare(x, t[0], key, dir) <= 0 {
      OrderedTail(t, key, dir);
      forall j | 0 <= j < |t| ensures InOrder(x, t[j], key, dir) {
        if j > 0 {
          assert t[j] == t[1..][j - 1];
          InOrderTransitive(x, t[0], t[j], key, dir);
        }
      }
      ConsOrdered(x, t, key, dir);
    } else {
      OrderedTail(t, key, dir);
      InsertOrdered(x, t[1..], key, dir);
      InOrderTotal(x, t[0], key, dir);
      PrecedesAddOne(t[0], x, t[1..], Insert(x, t[1..], key, dir), key, dir);
      ConsOrdered(t[0], Insert(x, t[1..], key, dir), key, dir);
    }
  }

  /**
   * The `sorted` derivation: a permutation of its input, ordered by `key` in direction `dir`
   * (stability is `SortStable`).
   */
  function SortBy(s: seq<User>, key: SortKey, dir: SortDir): (r: seq<User>)
    ensures multiset(r) == multiset(s)
    ensures |r| == |s|
    ensures Ordered(r, key, dir)
  {
    if s == [] then []
    else
      var rest := SortBy(s[1..], key, dir);
      InsertOrdered(s[0], rest, key, dir);
      assert s == [s[0]] + s[1..];
      Insert(s[0], rest, key, dir)
  }

  /** The records of `s` whose key is `v`, in the order of `s`. */
  function WithKey(s: seq<User>, key: SortKey, v: KeyValue): seq<User> {
    if s == [] then [] else (if KeyOf(s[0], key) == v then [s[0]] else []) + WithKey(s[1..], key, v)
  }

  /** For every key value, `r` and `s` hold the same records with that key, in the same order. */
  ghost predicate SameKeyGroups(r: seq<User>, s: seq<User>, key: SortKey) {
    forall v :: WithKey(r, key, v) == WithKey(s, key, v)
  }

  lemma {:induction false} WithKeyMembers(s: seq<User>, key: SortKey, v: KeyValue, x: User)
    requires x in WithKey(s, key, v)
    ensures x in s && KeyOf(x, key) == v
    decreases |s|
  {
    if x != s[0] || KeyOf(s[0], key) != v {
      WithKeyMembers(s[1..], key, v, x);
    }
  }

  lemma {:induction false} InsertWithKey(x: User, t: seq<User>, key: SortKey, dir: SortDir, v: KeyValue)
    requires Ordered(t, key, dir)
    ensures WithKey(Insert(x, t, key, dir), key, v)
         == (if KeyOf(x, key) == v then [x] else []) + WithKey(t, key, v)
    decreases |t|
  {
    if t == [] {
    } else if Compare(x, t[0], key, dir) <= 0 {
      assert ([x] + t)[1..] == t;
    } else {
      var t' := t[1..];
      InsertWithKey(x, t', key, dir, v);
      InsertWithKeyStep(x, t, key, dir, v);
    }
  }

  lemma InsertWithKeyStep(x: User, t: seq<User>, key: SortKey, dir: SortDir, v: KeyValue)
    requires t != [] && Compare(x, t[0], key, dir) > 0
    requires WithKey(Insert(x, t[1..], key, dir), key, v)
          == (if KeyOf(x, key) == v then [x] else []) + WithKey(t[1..], key, v)
    ensures WithKey(Insert(x, t, key, dir), key, v)
         == (if KeyOf(x, key) == v then [x] else []) + WithKey(t, key, v)
  {
    var rest := Insert(x, t[1..], key, dir);
    InsertPastHead(x, t, key, dir);
    WithKeyCons(t[0], rest, key, v);
    WithKeyCons(t[0], t[1..], key, v);
    assert [t[0]] + t[1..] == t;
    SwapPrefixes(if KeyOf(t[0], key) == v then [t[0]] else [], if KeyOf(x, key) == v then [x] else [],
      WithKey(t[1..], key, v));
  }

  lemma InsertPastHead(x: User, t: seq<User>, key: SortKey, dir: SortDir)
    requires t != [] && Compare(x, t[0], key, dir) > 0
    ensures Insert(x, t, key, dir) == [t[0]] + Insert(x, t[1..], key, dir)
  {
  }

  /** Two prefixes commute in front of `w` when one of them is empty. */
  lemma SwapPrefixes<T>(p: seq<T>, q: seq<T>, w: seq<T>)
    requires p == [] || q == []
    ensures p + (q + w) == q + (p + w)
  {
    if p == [] {
      assert p + (q + w) == q + w == q + (p + w);
    } else {
      assert p + (q + w) == p + w == q + (p + w);
    }
  }

  lemma WithKeyHead(r: seq<User>, key: SortKey)
    requires r != []
    ensures WithKey(r, key, KeyOf(r[0], key)) != []
  {
  }

  lemma WithKeyCons(h: User, t: seq<User>, key: SortKey, v: KeyValue)
    ensures WithKey([h] + t, key, v) == (if KeyOf(h, key) == v then [h] else []) + WithKey(t, key, v)
  {
    assert ([h] + t)[1..] == t;
  }

  /**
   * Stability: for every key value, the records with that key appear in the sorted list in
   * exactly the order they have in the input, whichever the direction.
   */
  lemma {:induction false} SortStable(s: seq<User>, key: SortKey, dir: SortDir, v: KeyValue)
    ensures WithKey(SortBy(s, key, dir), key, v) == WithKey(s, key, v)
    decreases |s|
  {
    if s != [] {
      SortStable(s[1..], key, dir, v);
      InsertWithKey(s[0], SortBy(s[1..], key, dir), key, dir, v);
    }
  }

  /**
   * Two ordered lists that agree on the order of every group of equal keys are the same list:
   * an ordered, stable arrangement is unique.
   */
  lemma {:induction false} OrderedStableUnique(r1: seq<User>, r2: seq<User>, key: SortKey, dir: SortDir)
    requires Ordered(r1, key, dir) && Ordered(r2, key, dir)
    requires forall v :: WithKey(r1, key, v) == WithKey(r2, key, v)
    ensures r1 == r2
    decreases |r1| + |r2|
  {
    if r1 == [] || r2 == [] {
      if r1 != [] {
        WithKeyHead(r1, key);
      } else if r2 != [] {
        WithKeyHead(r2, key);
      }
    } else {
      HeadsAgree(r1, r2, key, dir);
      TailsAgree(r1, r2, key);
      OrderedTail(r1, key, dir);
      OrderedTail(r2, key, dir);
      OrderedStableUnique(r1[1..], r2[1..], key, dir);
      assert r1 == [r1[0]] + r1[1..] && r2 == [r2[0]] + r2[1..];
    }
  }

  /** The first element of an ordered list may stand before any of its members. */
  lemma FirstPrecedesMember(r: seq<User>, x: User, key: SortKey, dir: SortDir)
    requires Ordered(r, key, dir) && x in r
    ensures InOrder(r[0], x, key, dir)
  {
    var k :| 0 <= k < |r| && r[k] == x;
    LessStrictTotal(KeyOf(x, key), KeyOf(x, key));
  }

  /** The first record of `r1` is in `r2` when both have the same group for its key. */
  lemma HeadInOther(r1: seq<User>, r2: seq<User>, key: SortKey)
    requires r1 != []
    requires WithKey(r1, key, KeyOf(r1[0], key)) == WithKey(r2, key, KeyOf(r1[0], key))
    ensures r1[0] in r2
    ensures WithKey(r2, key, KeyOf(r1[0], key))[0] == r1[0]
  {
    var a := r1[0];
    WithKeyCons(a, r1[1..], key, KeyOf(a, key));
    assert [a] + r1[1..] == r1;
    WithKeyMembers(r2, key, KeyOf(a, key), a);
  }

  /** Two ordered lists with the same groups of equal keys start with the same record. */
  lemma HeadsAgree(r1: seq<User>, r2: seq<User>, key: SortKey, dir: SortDir)
    requires r1 != [] && r2 != []
    requires Ordered(r1, key, dir) && Ordered(r2, key, dir)
    requires WithKey(r1, key, KeyOf(r1[0], key)) == WithKey(r2, key, KeyOf(r1[0], key))
    requires WithKey(r2, key, KeyOf(r2[0], key)) == WithKey(r1, key, KeyOf(r2[0], key))
    ensures r1[0] == r2[0]
  {
    var a, b := r1[0], r2[0];
    HeadInOther(r1, r2, key);
    HeadInOther(r2, r1, key);
    FirstPrecedesMember(r2, a, key, dir);
    FirstPrecedesMember(r1, b, key, dir);
    LessStrictTotal(KeyOf(a, key), KeyOf(b, key));
  }

  /** Removing a common first record keeps the groups of equal keys equal. */
  lemma TailsAgree(r1: seq<User>, r2: seq<User>, key: SortKey)
    requires r1 != [] && r2 != [] && r1[0] == r2[0]
    requires forall v :: WithKey(r1, key, v) == WithKey(r2, key, v)
    ensures forall v :: WithKey(r1[1..], key, v) == WithKey(r2[1..], key, v)
  {
    var a := r1[0];
    assert [a] + r1[1..] == r1 && [a] + r2[1..] == r2;
    forall v ensures WithKey(r1[1..], key, v) == WithKey(r2[1..], key, v) {
      var p: seq<User> := if KeyOf(a, key) == v then [a] else [];
      WithKeyCons(a, r1[1..], key, v);
      WithKeyCons(a, r2[1..], key, v);
      assert WithKey(r1, key, v) == WithKey(r2, key, v);
      assert WithKey(r1[1..], key, v) == (p + WithKey(r1[1..], key, v))[|p|..];
      assert WithKey(r2[1..], key, v) == (p + WithKey(r2[1..], key, v))[|p|..];
    }
  }

  /**
   * `SortBy` is the only stable ordering of its input: any list that is ordered by the key and
   * keeps every group of equal keys in input order is `SortBy`'s result.
   */
  lemma SortUnique(s: seq<User>, r: seq<User>, key: SortKey, dir: SortDir)
    requires Ordered(r, key, dir)
    requires forall v :: WithKey(r, key, v) == WithKey(s, key, v)
    ensures r == SortBy(s, key, dir)
  {
    forall v ensures WithKey(r, key, v) == WithKey(SortBy(s, key, dir), key, v) {
      SortStable(s, key, dir, v);
    }
    OrderedStableUnique(r, SortBy(s, key, dir), key, dir);
  }

  /** Sorting a list that is already ordered leaves it unchanged; so sorting twice is sorting once. */
  lemma SortIdempotent(s: seq<User>, key: SortKey, dir: SortDir)
    ensures Ordered(s, key, dir) ==> SortBy(s, key, dir) == s
    ensures SortBy(SortBy(s, key, dir), key, dir) == SortBy(s, key, dir)
  {
    if Ordered(s, key, dir) {
      SortUnique(s, s, key, dir);
    }
    var r := SortBy(s, key, dir);
    SortUnique(r, r, key, dir);
  }

  /**
   * Two records with different keys come out in key order: ascending puts the smaller key
   * first, descending the larger, so flipping the direction swaps them.
   */
  lemma OrderedDistinctKeys(r: seq<User>, key: SortKey, dir: SortDir, i: int, j: int)
    requires Ordered(r, key, dir)
    requires 0 <= i < j < |r| && KeyOf(r[i], key) != KeyOf(r[j], key)
    ensures dir == Asc ==> Less(KeyOf(r[i], key), KeyOf(r[j], key))
    ensures dir == Desc ==> Less(KeyOf(r[j], key), KeyOf(r[i], key))
  {
    LessStrictTotal(KeyOf(r[i], key), KeyOf(r[j], key));
    assert InOrder(r[i], r[j], key, dir);
  }
}
