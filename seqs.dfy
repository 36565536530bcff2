/** Sequence operations the table library provides to the core: unique(), sorting by a key, head(n). */
module Seqs {

  predicate Distinct<T(==,!new)>(s: seq<T>)
  {
    forall i, j :: 0 <= i < j < |s| ==> s[i] != s[j]
  }

  function ToSet<T(!new)>(s: seq<T>): set<T>
  {
    set x | x in s
  }

  /** The distinct elements of s, each at the place where it first appears. */
  function Unique<T(==,!new)>(s: seq<T>): (r: seq<T>)
    ensures Distinct(r)
    ensures forall x :: x in r <==> x in s
    decreases |s|
  {
    if s == [] then []
    else
      var u := Unique(s[..|s| - 1]);
      assert s == s[..|s| - 1] + [s[|s| - 1]];
      if s[|s| - 1] in u then u else u + [s[|s| - 1]]
  }

  lemma UniqueSnoc<T(!new)>(s: seq<T>, x: T)
    ensures Unique(s + [x]) == if x in Unique(s) then Unique(s) else Unique(s) + [x]
  {
    assert (s + [x])[..|s|] == s;
  }

  /** One more element of s after a and a prefix of s. */
  lemma PrefixSnoc<T>(a: seq<T>, s: seq<T>, i: nat)
    requires i < |s|
    ensures a + s[..i + 1] == (a + s[..i]) + [s[i]]
  {
    assert s[..i + 1] == s[..i] + [s[i]];
  }

  lemma {:induction false} UniqueOfDistinct<T(!new)>(s: seq<T>)
    requires Distinct(s)
    ensures Unique(s) == s
    decreases |s|
  {
    if s != [] {
      var p := s[..|s| - 1];
      UniqueOfDistinct(p);
      assert s == p + [s[|s| - 1]];
      assert s[|s| - 1] !in p;
    }
  }

  /** Folding further elements into an already de-duplicated prefix is de-duplicating the whole. */
  lemma {:induction false} UniqueOfUniquePrefix<T(!new)>(a: seq<T>, b: seq<T>)
    ensures Unique(Unique(a) + b) == Unique(a + b)
    decreases |b|
  {
    if b == [] {
      assert Unique(a) + b == Unique(a);
      assert a + b == a;
      UniqueOfDistinct(Unique(a));
    } else {
      var p, x := b[..|b| - 1], b[|b| - 1];
      assert b == p + [x];
      UniqueOfUniquePrefix(a, p);
      assert Unique(a) + b == (Unique(a) + p) + [x];
      assert a + b == (a + p) + [x];
      UniqueSnoc(Unique(a) + p, x);
      UniqueSnoc(a + p, x);
    }
  }

  lemma {:induction false} UniqueCardinality<T(!new)>(s: seq<T>)
    ensures |Unique(s)| == |ToSet(s)|
    decreases |s|
  {
    if s != [] {
      var p, x := s[..|s| - 1], s[|s| - 1];
      assert s == p + [x];
      UniqueCardinality(p);
      if x in p {
        assert ToSet(s) == ToSet(p);
      } else {
        assert ToSet(s) == ToSet(p) + {x};
        assert x !in ToSet(p);
      }
    }
  }

  /** Position of the first occurrence of x in s. */
  function FirstIndex<T(==,!new)>(s: seq<T>, x: T): (k: nat)
    requires x in s
    ensures k < |s| && s[k] == x && x !in s[..k]
  {
    if s[0] == x then 0 else 1 + FirstIndex(s[1..], x)
  }

  /** Position of the last occurrence of x in s. */
  function LastIndex<T(==,!new)>(s: seq<T>, x: T): (k: nat)
    requires x in s
    ensures k < |s| && s[k] == x && x !in s[k + 1..]
  {
    if s[|s| - 1] == x then |s| - 1
    else
      assert s == s[..|s| - 1] + [s[|s| - 1]];
      LastIndex(s[..|s| - 1], x)
  }

  /** The last occurrence after appending x: x's new position, or where it was before. */
  lemma LastIndexSnoc<T(!new)>(s: seq<T>, x: T, y: T)
    requires y in s + [x]
    ensures LastIndex(s + [x], y) == if x == y then |s| else LastIndex(s, y)
  {
    assert (s + [x])[..|s|] == s;
  }

  lemma FirstIndexUnique<T(!new)>(s: seq<T>, x: T, k: nat)
    requires k < |s| && s[k] == x && x !in s[..k]
    ensures FirstIndex(s, x) == k
  {
  }

  /** Unique keeps first appearances in order: its elements first occur in s at increasing positions. */
  lemma {:induction false} UniqueFirstSeenOrder<T(!new)>(s: seq<T>)
    ensures forall i, j :: 0 <= i < j < |Unique(s)| ==> FirstIndex(s, Unique(s)[i]) < FirstIndex(s, Unique(s)[j])
    decreases |s|
  {
    if s != [] {
      var p, x := s[..|s| - 1], s[|s| - 1];
      assert s == p + [x];
      UniqueFirstSeenOrder(p);
      var u := Unique(p);
      forall y | y in p
        ensures FirstIndex(s, y) == FirstIndex(p, y)
      {
        var k := FirstIndex(p, y);
        assert s[..k] == p[..k];
        FirstIndexUnique(s, y, k);
      }
      if x !in u {
        assert x !in s[..|p|];
        FirstIndexUnique(s, x, |p|);
      }
    }
  }

  predicate Ascending<T>(s: seq<T>, key: T -> real)
  {
    forall i, j :: 0 <= i < j < |s| ==> key(s[i]) <= key(s[j])
  }

  /** Inserts x before the first element whose key is not smaller than x's. */
  function Insert<T(==,!new)>(x: T, s: seq<T>, key: T -> real): (r: seq<T>)
    ensures multiset(r) == multiset(s) + multiset{x}
    ensures forall y :: y in r <==> y == x || y in s
  {
    if s == [] then [x]
    else if key(x) <= key(s[0]) then [x] + s
    else
      assert s == [s[0]] + s[1..];
      [s[0]] + Insert(x, s[1..], key)
  }

  /** Inserting into an ascending sequence keeps it ascending. */
  lemma {:induction false} InsertAscending<T(!new)>(x: T, s: seq<T>, key: T -> real)
    requires Ascending(s, key)
    ensures Ascending(Insert(x, s, key), key)
    decreases |s|
  {
    if s != [] && key(s[0]) < key(x) {
      var t := Insert(x, s[1..], key);
      InsertAscending(x, s[1..], key);
      var r := [s[0]] + t;
      assert Insert(x, s, key) == r;
      forall i, j | 0 <= i < j < |r|
        ensures key(r[i]) <= key(r[j])
      {
        if i == 0 {
          assert r[j] == t[j - 1] && t[j - 1] in t;
          if r[j] != x {
            var k :| 0 <= k < |s[1..]| && s[1..][k] == r[j];
            assert s[k + 1] == r[j];
          }
        } else {
          assert r[i] == t[i - 1] && r[j] == t[j - 1];
        }
      }
    }
  }

  /** Inserting a new element into a repeat-free sequence keeps it repeat-free. */
  lemma {:induction false} InsertDistinct<T(!new)>(x: T, s: seq<T>, key: T -> real)
    requires x !in s && Distinct(s)
    ensures Distinct(Insert(x, s, key))
    decreases |s|
  {
    if s != [] && key(s[0]) < key(x) {
      var t := Insert(x, s[1..], key);
      assert s == [s[0]] + s[1..];
      InsertDistinct(x, s[1..], key);
      assert s[0] !in t;
      assert forall k :: 0 <= k < |t| ==> t[k] in t;
      assert Insert(x, s, key) == [s[0]] + t;
    }
  }

  /** An ascending rearrangement of s by key; the order among equal keys is not promised by callers. */
  function SortBy<T(==,!new)>(s: seq<T>, key: T -> real): (r: seq<T>)
    ensures multiset(r) == multiset(s)
    ensures forall y :: y in r <==> y in s
    ensures Ascending(r, key)
    ensures Distinct(s) ==> Distinct(r)
  {
    if s == [] then []
    else
      assert s == [s[0]] + s[1..];
      var t := SortBy(s[1..], key);
      InsertAscending(s[0], t, key);
      if Distinct(s) then
        assert Distinct(s[1..]) && s[0] !in s[1..];
        InsertDistinct(s[0], t, key);
        Insert(s[0], t, key)
      else
        Insert(s[0], t, key)
  }

  /** What a prefix of an ascending sequence keeps: no element left out has a smaller key than one kept. */
  lemma PrefixOfAscending<T(!new)>(s: seq<T>, key: T -> real, k: nat)
    requires Ascending(s, key) && k <= |s|
    ensures forall t, u :: t in s && t !in s[..k] && u in s[..k] ==> key(u) <= key(t)
  {
    forall t, u | t in s && t !in s[..k] && u in s[..k] ensures key(u) <= key(t) {
      var a :| 0 <= a < |s| && s[a] == t;
      var b :| 0 <= b < k && s[..k][b] == u;
    }
  }

  /** head(n) of a pandas frame, which slices like Python's s[:n]: a negative n drops |n| elements from the end. */
  function Head<T>(s: seq<T>, n: int): (r: seq<T>)
    ensures n >= 0 ==> |r| == if n <= |s| then n else |s|
    ensures n < 0 ==> |r| == if |s| + n >= 0 then |s| + n else 0
    ensures r == s[..|r|]
  {
    if n >= 0 then (if n <= |s| then s[..n] else s)
    else if |s| + n >= 0 then s[..|s| + n] else []
  }

  /** head(n) of an ascending sequence: still ascending, still free of repeats, and no dropped element has a smaller key than a kept one. */
  lemma HeadOfAscending<T(!new)>(s: seq<T>, key: T -> real, n: int)
    requires Ascending(s, key)
    ensures Ascending(Head(s, n), key)
    ensures Distinct(s) ==> Distinct(Head(s, n))
    ensures forall t :: t in Head(s, n) ==> t in s
    ensures forall t, u :: t in s && t !in Head(s, n) && u in Head(s, n) ==> key(u) <= key(t)
  {
    var r := Head(s, n);
    PrefixOfAscending(s, key, |r|);
  }
}
