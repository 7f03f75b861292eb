/**
  The order in which Erik objects are listed: by the octets of their hash,
  compared lexicographically as Rust compares byte slices. Both the partition
  references of an index and the manifest references of a partition are
  sorted this way before they are encoded.
 */
module HashOrder {
  import opened Base

  /** Rust's `Ord` for byte slices: the first differing octet decides, and a
      proper prefix sorts before its extensions. */
  predicate Less(a: seq<byte>, b: seq<byte>)
    decreases |a|
  {
    if |a| == 0 then |b| > 0
    else if |b| == 0 then false
    else a[0] < b[0] || (a[0] == b[0] && Less(a[1..], b[1..]))
  }

  predicate LessEq(a: seq<byte>, b: seq<byte>)
  {
    a == b || Less(a, b)
  }

  lemma {:induction false} LessIrreflexive(a: seq<byte>)
    ensures !Less(a, a)
    decreases |a|
  {
    if |a| > 0 {
      LessIrreflexive(a[1..]);
    }
  }

  lemma {:induction false} LessTransitive(a: seq<byte>, b: seq<byte>, c: seq<byte>)
    requires Less(a, b) && Less(b, c)
    ensures Less(a, c)
    decreases |a|
  {
    if |a| > 0 && |b| > 0 && |c| > 0 && a[0] == b[0] == c[0] {
      LessTransitive(a[1..], b[1..], c[1..]);
    }
  }

  /** Any two byte strings are comparable: the order is total. */
  lemma {:induction false} LessTrichotomy(a: seq<byte>, b: seq<byte>)
    ensures Less(a, b) || a == b || Less(b, a)
    decreases |a|
  {
    if |a| > 0 && |b| > 0 && a[0] == b[0] {
      LessTrichotomy(a[1..], b[1..]);
      if a[1..] == b[1..] {
        assert a == [a[0]] + a[1..] && b == [b[0]] + b[1..];
      }
    }
  }

  lemma {:induction false} LessAsymmetric(a: seq<byte>, b: seq<byte>)
    requires Less(a, b)
    ensures !Less(b, a)
  {
    if Less(b, a) {
      LessTransitive(a, b, a);
      LessIrreflexive(a);
    }
  }

  lemma LessEqTransitive(a: seq<byte>, b: seq<byte>, c: seq<byte>)
    requires LessEq(a, b) && LessEq(b, c)
    ensures LessEq(a, c)
  {
    if a != b && b != c {
      LessTransitive(a, b, c);
    }
  }

  lemma LessEqAntisymmetric(a: seq<byte>, b: seq<byte>)
    requires LessEq(a, b) && LessEq(b, a)
    ensures a == b
  {
    if a != b {
      LessAsymmetric(a, b);
    }
  }

  /** `s` is in ascending order of `key`. */
  predicate SortedBy<T>(s: seq<T>, key: T -> seq<byte>)
  {
    forall i, j :: 0 <= i < j < |s| ==> LessEq(key(s[i]), key(s[j]))
  }

  /** An element no greater than any element of a sorted sequence can be put
      in front of it. */
  lemma PrependSorted<T>(x: T, s: seq<T>, key: T -> seq<byte>)
    requires SortedBy(s, key)
    requires forall j :: 0 <= j < |s| ==> LessEq(key(x), key(s[j]))
    ensures SortedBy([x] + s, key)
  {
    forall i, j | 0 <= i < j < |s| + 1
      ensures LessEq(key(([x] + s)[i]), key(([x] + s)[j]))
    {
      assert ([x] + s)[j] == s[j - 1];
      if i > 0 {
        assert ([x] + s)[i] == s[i - 1];
      }
    }
  }

  /** Inserts `x` after every element whose key is not greater than its own. */
  function Insert<T>(x: T, s: seq<T>, key: T -> seq<byte>): (r: seq<T>)
    requires SortedBy(s, key)
    ensures SortedBy(r, key)
    ensures multiset(r) == multiset(s) + multiset{x}
  {
    if |s| == 0 then [x]
    else if Less(key(x), key(s[0])) then
      assert forall j :: 0 <= j < |s| ==> LessEq(key(x), key(s[j])) by {
        forall j | 0 <= j < |s|
          ensures LessEq(key(x), key(s[j]))
        {
          LessEqTransitive(key(x), key(s[0]), key(s[j]));
        }
      }
      PrependSorted(x, s, key);
      [x] + s
    else
      var rest := Insert(x, s[1..], key);
      assert multiset(s) == multiset{s[0]} + multiset(s[1..]) by {
        assert s == [s[0]] + s[1..];
      }
      assert LessEq(key(s[0]), key(x)) by {
        LessTrichotomy(key(x), key(s[0]));
      }
      HeadBelowRest(x, s, rest, key);
      PrependSorted(s[0], rest, key);
      [s[0]] + rest
  }

  /** The head of a sorted sequence is below the rest with `x` added, when
      it is not above `x`. */
  lemma HeadBelowRest<T>(x: T, s: seq<T>, rest: seq<T>, key: T -> seq<byte>)
    requires SortedBy(s, key) && |s| > 0 && LessEq(key(s[0]), key(x))
    requires multiset(rest) == multiset(s[1..]) + multiset{x}
    ensures forall j :: 0 <= j < |rest| ==> LessEq(key(s[0]), key(rest[j]))
  {
    forall j | 0 <= j < |rest|
      ensures LessEq(key(s[0]), key(rest[j]))
    {
      assert rest[j] in multiset(rest);
      if rest[j] != x {
        assert rest[j] in multiset(s[1..]);
        var k :| 0 <= k < |s[1..]| && s[1..][k] == rest[j];
        assert s[k + 1] == rest[j];
      }
    }
  }

  /** A stable insertion sort by `key`; it stands for Rust's `sort` on types
      whose `Ord` compares hashes. */
  function SortBy<T>(s: seq<T>, key: T -> seq<byte>): (r: seq<T>)
    ensures SortedBy(r, key)
    ensures multiset(r) == multiset(s)
  {
    if |s| == 0 then []
    else
      assert s == s[..|s| - 1] + [s[|s| - 1]];
      Insert(s[|s| - 1], SortBy(s[..|s| - 1], key), key)
  }

  /** The elements of `s` whose key is `h`, in their order in `s`. */
  function WithKey<T>(s: seq<T>, key: T -> seq<byte>, h: seq<byte>): seq<T>
  {
    if |s| == 0 then []
    else (if key(s[0]) == h then [s[0]] else []) + WithKey(s[1..], key, h)
  }

  lemma {:induction false} WithKeyAppend<T>(a: seq<T>, b: seq<T>, key: T -> seq<byte>, h: seq<byte>)
    ensures WithKey(a + b, key, h) == WithKey(a, key, h) + WithKey(b, key, h)
  {
    if |a| > 0 {
      var head := if key(a[0]) == h then [a[0]] else [];
      assert (a + b)[0] == a[0];
      assert (a + b)[1..] == a[1..] + b;
      WithKeyAppend(a[1..], b, key, h);
      calc {
        WithKey(a + b, key, h);
        head + WithKey(a[1..] + b, key, h);
        head + (WithKey(a[1..], key, h) + WithKey(b, key, h));
        (head + WithKey(a[1..], key, h)) + WithKey(b, key, h);
      }
    } else {
      assert a + b == b;
    }
  }

  /** Nothing in `s` has a key below all of its keys. */
  lemma {:induction false} WithKeyNone<T>(s: seq<T>, key: T -> seq<byte>, h: seq<byte>)
    requires forall j :: 0 <= j < |s| ==> Less(h, key(s[j]))
    ensures WithKey(s, key, h) == []
  {
    if |s| > 0 {
      LessIrreflexive(h);
      assert key(s[0]) != h;
      assert forall j :: 0 <= j < |s[1..]| ==> Less(h, key(s[1..][j])) by {
        forall j | 0 <= j < |s[1..]| ensures Less(h, key(s[1..][j])) {
          assert s[1..][j] == s[j + 1];
        }
      }
      WithKeyNone(s[1..], key, h);
    }
  }

  /** An element placed before a sorted sequence whose keys all exceed its
      own precedes everything with its key. */
  lemma InsertFrontStable<T>(x: T, s: seq<T>, key: T -> seq<byte>, h: seq<byte>)
    requires SortedBy(s, key) && |s| > 0 && Less(key(x), key(s[0]))
    ensures WithKey([x] + s, key, h) == WithKey(s, key, h) + WithKey([x], key, h)
  {
    WithKeyAppend([x], s, key, h);
    if key(x) == h {
      forall j | 0 <= j < |s| ensures Less(h, key(s[j])) {
        if key(s[0]) != key(s[j]) {
          assert LessEq(key(s[0]), key(s[j]));
          LessTransitive(key(x), key(s[0]), key(s[j]));
        }
      }
      WithKeyNone(s, key, h);
    } else {
      assert WithKey([x], key, h) == [];
    }
  }

  /** Inserting places `x` after every element with the same key. */
  lemma {:induction false} InsertStable<T>(x: T, s: seq<T>, key: T -> seq<byte>, h: seq<byte>)
    requires SortedBy(s, key)
    ensures WithKey(Insert(x, s, key), key, h) == WithKey(s, key, h) + WithKey([x], key, h)
  {
    if |s| == 0 {
      assert Insert(x, s, key) == [x];
    } else if Less(key(x), key(s[0])) {
      assert Insert(x, s, key) == [x] + s;
      InsertFrontStable(x, s, key, h);
    } else {
      var rest := Insert(x, s[1..], key);
      assert Insert(x, s, key) == [s[0]] + rest;
      InsertStable(x, s[1..], key, h);
      WithKeyAppend([s[0]], rest, key, h);
      WithKeyAppend([s[0]], s[1..], key, h);
      assert s == [s[0]] + s[1..];
    }
  }

  /** The sort is stable: elements with equal keys keep their order. */
  lemma {:induction false} SortStable<T>(s: seq<T>, key: T -> seq<byte>, h: seq<byte>)
    ensures WithKey(SortBy(s, key), key, h) == WithKey(s, key, h)
  {
    if |s| > 0 {
      var init, last := s[..|s| - 1], s[|s| - 1];
      SortStable(init, key, h);
      InsertStable(last, SortBy(init, key), key, h);
      assert s == init + [last];
      WithKeyAppend(init, [last], key, h);
    }
  }

  /** No two distinct elements of `s` share a key. */
  predicate KeyInjective<T(==)>(s: seq<T>, key: T -> seq<byte>)
  {
    forall x, y :: x in s && y in s && key(x) == key(y) ==> x == y
  }

  lemma TailFacts<T>(a: seq<T>, key: T -> seq<byte>)
    requires |a| > 0
    requires SortedBy(a, key) && KeyInjective(a, key)
    ensures SortedBy(a[1..], key) && KeyInjective(a[1..], key)
    ensures multiset(a[1..]) == multiset(a) - multiset{a[0]}
  {
    assert a == [a[0]] + a[1..];
    assert multiset(a) == multiset{a[0]} + multiset(a[1..]);
  }

  /** Two sorted arrangements of the same elements start with the same
      element when no two elements share a key. */
  lemma SameHead<T>(a: seq<T>, b: seq<T>, key: T -> seq<byte>)
    requires |a| > 0 && |b| > 0
    requires SortedBy(a, key) && SortedBy(b, key)
    requires multiset(a) == multiset(b)
    requires KeyInjective(a, key)
    ensures a[0] == b[0]
  {
    assert a[0] in multiset(b) && b[0] in multiset(a);
    var i :| 0 <= i < |a| && a[i] == b[0];
    var j :| 0 <= j < |b| && b[j] == a[0];
    assert LessEq(key(a[0]), key(a[i]));
    assert LessEq(key(b[0]), key(b[j]));
    LessEqAntisymmetric(key(a[0]), key(b[0]));
  }

  lemma SameHeadSameTail<T>(a: seq<T>, b: seq<T>)
    requires |a| > 0 && |b| > 0 && a[0] == b[0] && a[1..] == b[1..]
    ensures a == b
  {
    assert a == [a[0]] + a[1..] && b == [b[0]] + b[1..];
  }

  lemma InjectiveTransfers<T>(a: seq<T>, b: seq<T>, key: T -> seq<byte>)
    requires multiset(a) == multiset(b)
    requires KeyInjective(a, key)
    ensures KeyInjective(b, key)
  {
    forall x | x in b ensures x in a {
      assert x in multiset(b);
    }
  }

  /** When no two elements share a key, sorting fixes the order completely:
      two sorted arrangements of the same elements are the same sequence. */
  lemma {:induction false} SortedUnique<T>(a: seq<T>, b: seq<T>, key: T -> seq<byte>)
    requires SortedBy(a, key) && SortedBy(b, key)
    requires multiset(a) == multiset(b)
    requires KeyInjective(a, key)
    ensures a == b
    decreases |a|
  {
    assert |a| == |multiset(a)| == |multiset(b)| == |b|;
    if |a| > 0 {
      SameHead(a, b, key);
      TailFacts(a, key);
      InjectiveTransfers(a, b, key);
      TailFacts(b, key);
      SortedUnique(a[1..], b[1..], key);
      SameHeadSameTail(a, b);
    }
  }
}
