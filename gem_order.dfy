/**
 * The "largest first" order both full-board packers sort their gems into
 * (Assets/Scripts/Manager/BoardManager.cs:203-228 and
 * Assets/Scripts/BoardManager.cs:132-155): by `Width * Height` of the gem,
 * not increasing. The sorts there break ties arbitrarily (once even with a
 * random comparator result), so the model only asks for some permutation in
 * that order; an insertion sort shows that one always exists.
 */
module GemOrder {
  import opened Gems
  import opened Placement

  /** A gem's size as the comparators compute it. */
  function Size(gems: seq<GemRecord>, h: Handle): int
    requires h < |gems|
  {
    gems[h].width * gems[h].height
  }

  /** Every handle of `s` is an index into the gem table. */
  predicate Indexes(gems: seq<GemRecord>, s: seq<Handle>)
  {
    forall h | h in s :: h < |gems|
  }

  /** `a` may come before `b`: both are gems and `a` is at least as large. */
  predicate SizeOrdered(gems: seq<GemRecord>, a: Handle, b: Handle)
  {
    a < |gems| && b < |gems| && Size(gems, a) >= Size(gems, b)
  }

  /** Sizes do not increase along `s`. */
  predicate LargestFirst(gems: seq<GemRecord>, s: seq<Handle>)
  {
    forall i, j | 0 <= i < j < |s| :: SizeOrdered(gems, s[i], s[j])
  }

  /** The head of a largest-first list is at least as large as every element, and the tail is largest-first. */
  lemma LargestFirstHead(gems: seq<GemRecord>, s: seq<Handle>)
    requires |s| > 0 && Indexes(gems, s) && LargestFirst(gems, s)
    ensures forall x | x in s :: Size(gems, s[0]) >= Size(gems, x)
    ensures LargestFirst(gems, s[1..])
  {
    forall x | x in s ensures Size(gems, s[0]) >= Size(gems, x) {
      var k :| 0 <= k < |s| && s[k] == x;
      if k > 0 {
        assert SizeOrdered(gems, s[0], s[k]);
      }
    }
    forall i, j | 0 <= i < j < |s[1..]| ensures SizeOrdered(gems, s[1..][i], s[1..][j]) {
      assert s[1..][i] == s[i + 1] && s[1..][j] == s[j + 1];
      assert SizeOrdered(gems, s[i + 1], s[j + 1]);
    }
  }

  /** A gem at least as large as every element may go in front of a largest-first list. */
  lemma LargestFirstCons(gems: seq<GemRecord>, x: Handle, s: seq<Handle>)
    requires x < |gems| && Indexes(gems, s) && LargestFirst(gems, s)
    requires forall y | y in s :: Size(gems, x) >= Size(gems, y)
    ensures LargestFirst(gems, [x] + s)
  {
    var r := [x] + s;
    forall i, j | 0 <= i < j < |r| ensures SizeOrdered(gems, r[i], r[j]) {
      assert r[j] == s[j - 1] && r[j] in s;
      if i > 0 {
        assert r[i] == s[i - 1];
        assert SizeOrdered(gems, s[i - 1], s[j - 1]);
      }
    }
  }

  /** Inserts `h` in front of the first gem not larger than it. */
  function InsertBySize(gems: seq<GemRecord>, h: Handle, s: seq<Handle>): (r: seq<Handle>)
    requires h < |gems| && Indexes(gems, s) && LargestFirst(gems, s)
    ensures multiset(r) == multiset(s) + multiset{h}
    ensures forall x | x in r :: x in s || x == h
    ensures Indexes(gems, r) && LargestFirst(gems, r)
    decreases |s|
  {
    if |s| == 0 then [h]
    else
      assert s[0] in s;
      LargestFirstHead(gems, s);
      if Size(gems, h) >= Size(gems, s[0]) then
        LargestFirstCons(gems, h, s);
        [h] + s
      else
        assert s == [s[0]] + s[1..];
        var rest := InsertBySize(gems, h, s[1..]);
        assert s[0] in s;
        LargestFirstCons(gems, s[0], rest);
        [s[0]] + rest
  }

  /** An insertion sort into largest-first order: a witness that such a permutation exists. */
  function SortBySize(gems: seq<GemRecord>, s: seq<Handle>): (r: seq<Handle>)
    requires Indexes(gems, s)
    ensures multiset(r) == multiset(s)
    ensures forall x | x in r :: x in s
    ensures Indexes(gems, r) && LargestFirst(gems, r)
  {
    if |s| == 0 then []
    else
      assert s == [s[0]] + s[1..];
      assert s[0] in s && forall x | x in s[1..] :: x in s;
      InsertBySize(gems, s[0], SortBySize(gems, s[1..]))
  }

  /**
   * `new List<Gem>(gems)` sorted with the size comparator: some permutation
   * of the gems, largest first.
   */
  method SortLargestFirst(gems: seq<GemRecord>, s: seq<Handle>) returns (r: seq<Handle>)
    requires Indexes(gems, s)
    ensures multiset(r) == multiset(s) && LargestFirst(gems, r)
  {
    assert multiset(SortBySize(gems, s)) == multiset(s) && LargestFirst(gems, SortBySize(gems, s));
    r :| multiset(r) == multiset(s) && LargestFirst(gems, r);
  }

  /** Keys do not increase along `s`. */
  predicate KeyDescending<T>(s: seq<T>, key: T -> int)
  {
    forall i, j | 0 <= i < j < |s| :: key(s[i]) >= key(s[j])
  }

  /** An element whose key is at least every key of a key-descending list may go in front of it. */
  lemma KeyDescendingCons<T>(x: T, s: seq<T>, key: T -> int)
    requires KeyDescending(s, key)
    requires forall k | 0 <= k < |s| :: key(x) >= key(s[k])
    ensures KeyDescending([x] + s, key)
  {
    var r := [x] + s;
    forall i, j | 0 <= i < j < |r| ensures key(r[i]) >= key(r[j]) {
      assert r[j] == s[j - 1];
      if i > 0 {
        assert r[i] == s[i - 1];
      }
    }
  }

  /** Inserts `x` in front of the first element whose key is not larger. */
  function InsertByKey<T>(x: T, s: seq<T>, key: T -> int): (r: seq<T>)
    requires KeyDescending(s, key)
    ensures multiset(r) == multiset(s) + multiset{x}
    ensures KeyDescending(r, key)
    decreases |s|
  {
    if |s| == 0 then [x]
    else if key(x) >= key(s[0]) then
      assert forall k | 0 <= k < |s| :: key(s[0]) >= key(s[k]);
      KeyDescendingCons(x, s, key);
      [x] + s
    else
      assert s == [s[0]] + s[1..];
      var tail := s[1..];
      assert KeyDescending(tail, key) by {
        forall i, j | 0 <= i < j < |tail| ensures key(tail[i]) >= key(tail[j]) {
          assert tail[i] == s[i + 1] && tail[j] == s[j + 1];
        }
      }
      var rest := InsertByKey(x, tail, key);
      assert forall k | 0 <= k < |rest| :: key(s[0]) >= key(rest[k]) by {
        forall k | 0 <= k < |rest| ensures key(s[0]) >= key(rest[k]) {
          KeyOfInserted(x, tail, rest, key, k, key(s[0]));
        }
      }
      KeyDescendingCons(s[0], rest, key);
      [s[0]] + rest
  }

  /** Every element of `rest`, a permutation of `tail` plus `x`, has a key that `bound` exceeds or meets. */
  lemma KeyOfInserted<T>(x: T, tail: seq<T>, rest: seq<T>, key: T -> int, k: int, bound: int)
    requires multiset(rest) == multiset(tail) + multiset{x} && 0 <= k < |rest|
    requires bound >= key(x) && forall m | 0 <= m < |tail| :: bound >= key(tail[m])
    ensures bound >= key(rest[k])
  {
    assert rest[k] in multiset(rest);
    if rest[k] != x {
      assert rest[k] in multiset(tail);
      var m :| 0 <= m < |tail| && tail[m] == rest[k];
    }
  }

  /** An insertion sort by key, largest first: a witness that such a permutation exists. */
  function SortByKey<T>(s: seq<T>, key: T -> int): (r: seq<T>)
    ensures multiset(r) == multiset(s)
    ensures KeyDescending(r, key)
  {
    if |s| == 0 then []
    else
      assert s == [s[0]] + s[1..];
      InsertByKey(s[0], SortByKey(s[1..], key), key)
  }

  /**
   * List.Sort with a comparator that puts the larger key first but answers
   * "equal" as soon as either element has no key (`keyed` false). When every
   * element has a key, that is a consistent order and the result is sorted
   * by it; otherwise the comparator is not an order and the result is only
   * known to be some permutation.
   */
  method SortByKeyDescending<T(==)>(s: seq<T>, key: T -> int, keyed: T -> bool) returns (r: seq<T>)
    ensures multiset(r) == multiset(s)
    ensures (forall x | x in s :: keyed(x)) ==> KeyDescending(r, key)
  {
    assert multiset(SortByKey(s, key)) == multiset(s) && KeyDescending(SortByKey(s, key), key);
    r :| multiset(r) == multiset(s) && ((forall x | x in s :: keyed(x)) ==> KeyDescending(r, key));
  }

  /** Without duplicates, every element occurs once. */
  lemma {:induction false} NoDuplicatesOccurOnce<T>(s: seq<T>)
    requires NoDuplicates(s)
    ensures forall x | x in s :: multiset(s)[x] == 1
    decreases |s|
  {
    if |s| > 0 {
      var t := s[1..];
      assert s == [s[0]] + t;
      assert NoDuplicates(t) by {
        forall i, j | 0 <= i < j < |t| ensures t[i] != t[j] {
          assert t[i] == s[i + 1] && t[j] == s[j + 1];
        }
      }
      assert s[0] !in t by {
        forall k | 0 <= k < |t| ensures t[k] != s[0] {
          assert t[k] == s[k + 1];
        }
      }
      NoDuplicatesOccurOnce(t);
      forall x | x in s ensures multiset(s)[x] == 1 {
        assert multiset(s) == multiset{s[0]} + multiset(t);
        if x == s[0] {
          assert multiset(t)[x] == 0;
        } else {
          assert x in t;
        }
      }
    }
  }

  /** An element that occurs once is not at two positions. */
  lemma OnceIsNotRepeated<T>(s: seq<T>, i: int, j: int)
    requires 0 <= i < j < |s| && multiset(s)[s[i]] < 2
    ensures s[i] != s[j]
  {
    assert s == s[..i] + [s[i]] + s[i + 1..j] + [s[j]] + s[j + 1..];
    assert multiset(s) == multiset(s[..i]) + multiset{s[i]} + multiset(s[i + 1..j]) + multiset{s[j]} + multiset(s[j + 1..]);
  }

  /** A permutation of a list without duplicates has none either. */
  lemma NoDuplicatesPermutation<T>(a: seq<T>, b: seq<T>)
    requires multiset(a) == multiset(b) && NoDuplicates(a)
    ensures NoDuplicates(b)
  {
    NoDuplicatesOccurOnce(a);
    forall i, j | 0 <= i < j < |b| ensures b[i] != b[j] {
      assert b[i] in multiset(b);
      assert b[i] in a;
      OnceIsNotRepeated(b, i, j);
    }
  }
}
