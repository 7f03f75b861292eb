/**
  Shared vocabulary of the Erik cache model: failure-compatible wrappers,
  bytes, the fixed-size identifiers (SHA-256 hashes and key identifiers),
  time stamps and a few string predicates.
 */
module Base {

  /** The conventional Some/None datatype. */
  datatype Option<+T> = None | Some(value: T)

  /** A value or an error. */
  datatype Result<+T, +E> = Ok(value: T) | Err(error: E)

  /** An unsigned octet. */
  type byte = b: int | 0 <= b < 256

  /** Number of octets in a SHA-256 digest. */
  const HashLen: nat := 32

  /** Number of octets in an RPKI key identifier (a SHA-1 digest of the public key). */
  const KeyIdLen: nat := 20

  /** One more than the largest value a u32 can hold. */
  const U32Limit: nat := 0x1_0000_0000

  /** A SHA-256 digest, as used to key repository objects and partitions. */
  type Hash = s: seq<byte> | |s| == HashLen witness seq(32, _ => 0)

  /** An Authority Key Identifier (section 4.2.1.1 of RFC 5280), 20 octets in RPKI. */
  type KeyId = s: seq<byte> | |s| == KeyIdLen witness seq(20, _ => 0)

  /** A point in time; only its total order matters to the model. */
  type Time = int

  /** The SHA-256 function, left opaque: any deterministic map to 32 octets. */
  type Digest = seq<byte> -> Hash

  /** True when every character is in the 7-bit ASCII (IA5) range. */
  predicate IsAscii(s: string)
  {
    forall i :: 0 <= i < |s| ==> s[i] as int < 128
  }

  predicate StartsWith(s: string, prefix: string)
  {
    |prefix| <= |s| && s[..|prefix|] == prefix
  }

  predicate EndsWith(s: string, suffix: string)
  {
    |suffix| <= |s| && s[|s| - |suffix|..] == suffix
  }

  /** The elements of a sequence, as a set. */
  function Elems<T>(s: seq<T>): set<T>
  {
    set x | x in s
  }

  /** True when no element occurs twice. */
  predicate Distinct<T(==)>(s: seq<T>)
  {
    forall i, j :: 0 <= i < j < |s| ==> s[i] != s[j]
  }

  /** Some enumeration of a finite set, each element exactly once. The order is
      not specified: it stands for the iteration order of a hash set or map. */
  ghost function Enumerate<T>(s: set<T>): (r: seq<T>)
    ensures Elems(r) == s
    ensures Distinct(r)
    ensures |r| == |s|
    decreases |s|
  {
    if s == {} then []
    else
      var x :| x in s;
      var rest := Enumerate(s - {x});
      assert Elems([x] + rest) == {x} + Elems(rest) by {
        forall y ensures y in [x] + rest <==> y == x || y in rest {
        }
      }
      [x] + rest
  }

  /** Sequences holding the same multiset hold the same elements and have the same length. */
  lemma SameMultisetSameElems<T>(a: seq<T>, b: seq<T>)
    requires multiset(a) == multiset(b)
    ensures Elems(a) == Elems(b)
    ensures |a| == |b|
  {
    assert |a| == |multiset(a)| == |multiset(b)| == |b|;
    forall x ensures x in a <==> x in b {
      assert x in a <==> x in multiset(a);
      assert x in b <==> x in multiset(b);
    }
  }

  /** In a sequence without repetitions every element occurs once. */
  lemma {:induction false} DistinctMultiplicity<T>(a: seq<T>, x: T)
    requires Distinct(a)
    ensures multiset(a)[x] == if x in a then 1 else 0
  {
    if |a| > 0 {
      assert a == [a[0]] + a[1..];
      assert multiset(a) == multiset{a[0]} + multiset(a[1..]);
      assert Distinct(a[1..]) by {
        forall i, j | 0 <= i < j < |a[1..]| ensures a[1..][i] != a[1..][j] {
          assert a[1..][i] == a[i + 1] && a[1..][j] == a[j + 1];
        }
      }
      DistinctMultiplicity(a[1..], x);
      assert a[0] !in a[1..] by {
        forall i | 0 <= i < |a[1..]| ensures a[1..][i] != a[0] {
          assert a[1..][i] == a[i + 1];
        }
      }
    }
  }

  /** Two sequences without repetitions that hold the same elements hold the
      same multiset. */
  lemma DistinctSameElemsSameMultiset<T>(a: seq<T>, b: seq<T>)
    requires Distinct(a) && Distinct(b) && Elems(a) == Elems(b)
    ensures multiset(a) == multiset(b)
  {
    forall x ensures multiset(a)[x] == multiset(b)[x] {
      DistinctMultiplicity(a, x);
      DistinctMultiplicity(b, x);
      assert x in a <==> x in Elems(a);
      assert x in b <==> x in Elems(b);
    }
  }

  /** A set of integers drawn from `0 .. n - 1` has at most `n` elements. */
  lemma {:induction false} CardinalityBound(s: set<int>, n: nat)
    requires forall x :: x in s ==> 0 <= x < n
    ensures |s| <= n
  {
    if n > 0 {
      CardinalityBound(s - {n - 1}, n - 1);
      if n - 1 in s {
        assert |s| == |s - {n - 1}| + 1;
      } else {
        assert s == s - {n - 1};
      }
    } else {
      assert forall x :: x !in s;
    }
  }

  /** Looking up an enumeration of a map's keys yields exactly its values. */
  lemma EnumeratedValues<K, V>(m: map<K, V>, keys: seq<K>, vals: seq<V>)
    requires Elems(keys) == m.Keys && |vals| == |keys|
    requires forall i :: 0 <= i < |keys| ==> keys[i] in m && vals[i] == m[keys[i]]
    ensures Elems(vals) == m.Values
  {
    forall v | v in m.Values
      ensures v in vals
    {
      var k :| k in m && m[k] == v;
      assert k in Elems(keys);
      var i :| 0 <= i < |keys| && keys[i] == k;
      assert vals[i] == v;
    }
  }

  /** The keys of `m` that map to `v`. */
  function KeysWithValue<K, V(==)>(m: map<K, V>, v: V): set<K>
  {
    set k | k in m && m[k] == v
  }

  /** Looking up distinct keys in order yields each value as often as one of
      those keys maps to it. */
  lemma {:induction false} CountLookups<K, V>(m: map<K, V>, keys: seq<K>, vals: seq<V>, v: V)
    requires Distinct(keys) && |vals| == |keys|
    requires forall i :: 0 <= i < |keys| ==> keys[i] in m && vals[i] == m[keys[i]]
    ensures multiset(vals)[v] == |set k | k in keys && k in m && m[k] == v|
  {
    if |keys| > 0 {
      LookupTail(m, keys, vals);
      CountLookups(m, keys[1..], vals[1..], v);
      SplitKeySet(m, keys, v);
      assert vals == [vals[0]] + vals[1..];
    }
  }

  /** The tail of distinct looked-up keys is distinct, looked up the same
      way, and misses the head. */
  lemma LookupTail<K, V>(m: map<K, V>, keys: seq<K>, vals: seq<V>)
    requires |keys| > 0 && Distinct(keys) && |vals| == |keys|
    requires forall i :: 0 <= i < |keys| ==> keys[i] in m && vals[i] == m[keys[i]]
    ensures Distinct(keys[1..]) && keys[0] !in keys[1..]
    ensures forall i :: 0 <= i < |keys[1..]| ==> keys[1..][i] in m && vals[1..][i] == m[keys[1..][i]]
  {
    var rest := keys[1..];
    forall i, j | 0 <= i < j < |rest| ensures rest[i] != rest[j] {
      assert rest[i] == keys[i + 1] && rest[j] == keys[j + 1];
    }
    forall j | 0 <= j < |rest| ensures rest[j] != keys[0] {
      assert rest[j] == keys[j + 1];
    }
    forall i | 0 <= i < |rest| ensures rest[i] in m && vals[1..][i] == m[rest[i]] {
      assert rest[i] == keys[i + 1] && vals[1..][i] == vals[i + 1];
    }
  }

  /** The keys mapping to `v` are those of the tail, plus the head when it
      maps to `v`. */
  lemma SplitKeySet<K, V>(m: map<K, V>, keys: seq<K>, v: V)
    requires |keys| > 0 && keys[0] !in keys[1..] && keys[0] in m
    ensures |set k | k in keys && k in m && m[k] == v|
         == |set k | k in keys[1..] && k in m && m[k] == v| + (if m[keys[0]] == v then 1 else 0)
  {
    var s := set k | k in keys && k in m && m[k] == v;
    var sr := set k | k in keys[1..] && k in m && m[k] == v;
    assert keys == [keys[0]] + keys[1..];
    if m[keys[0]] == v {
      assert s == sr + {keys[0]};
    } else {
      assert s == sr;
    }
  }

  /** For an enumeration of a map's keys, the count is that of all keys
      mapping to the value. */
  lemma CountEnumeratedLookups<K, V>(m: map<K, V>, keys: seq<K>, vals: seq<V>)
    requires Distinct(keys) && Elems(keys) == m.Keys && |vals| == |keys|
    requires forall i :: 0 <= i < |keys| ==> keys[i] in m && vals[i] == m[keys[i]]
    ensures forall v :: multiset(vals)[v] == |KeysWithValue(m, v)|
  {
    forall v ensures multiset(vals)[v] == |KeysWithValue(m, v)| {
      CountLookups(m, keys, vals, v);
      assert (set k | k in keys && k in m && m[k] == v) == KeysWithValue(m, v) by {
        forall k ensures k in keys <==> k in m {
          assert k in keys <==> k in Elems(keys);
        }
      }
    }
  }
}
