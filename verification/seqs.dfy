/**
 Generic sequence operations that stand for the row-level parts of the SQL
 queries: `WHERE` (Filter), per-row projection or `UPDATE` (Map) and
 `ORDER BY` (SortBy), with the facts about them the rest of the model uses.
 */
module Seqs {

  /** The elements of `s` that satisfy `f`, in their original order. */
  function Filter<T(!new)>(f: T -> bool, s: seq<T>): (r: seq<T>)
    ensures |r| <= |s|
    ensures forall x :: x in r <==> x in s && f(x)
    decreases |s|
  {
    if |s| == 0 then []
    else (if f(s[0]) then [s[0]] else []) + Filter(f, s[1..])
  }

  /** `f` applied to every element of `s`, in order. */
  function Map<T, U>(f: T -> U, s: seq<T>): (r: seq<U>)
    ensures |r| == |s|
    ensures forall i :: 0 <= i < |s| ==> r[i] == f(s[i])
    decreases |s|
  {
    if |s| == 0 then [] else [f(s[0])] + Map(f, s[1..])
  }

  lemma {:induction false} FilterConcat<T(!new)>(f: T -> bool, a: seq<T>, b: seq<T>)
    ensures Filter(f, a + b) == Filter(f, a) + Filter(f, b)
    decreases |a|
  {
    if |a| == 0 {
      assert a + b == b;
    } else {
      assert (a + b)[1..] == a[1..] + b;
      FilterConcat(f, a[1..], b);
    }
  }

  lemma {:induction false} FilterAll<T(!new)>(f: T -> bool, s: seq<T>)
    requires forall x :: x in s ==> f(x)
    ensures Filter(f, s) == s
    decreases |s|
  {
    if |s| > 0 {
      FilterAll(f, s[1..]);
      assert [s[0]] + s[1..] == s;
    }
  }

  lemma FilterNone<T(!new)>(f: T -> bool, s: seq<T>)
    requires forall x :: x in s ==> !f(x)
    ensures Filter(f, s) == []
  {
  }

  /** Filtering by `f` after a weaker filter `g` is filtering by `f` alone. */
  lemma {:induction false} FilterSubsumed<T(!new)>(f: T -> bool, g: T -> bool, s: seq<T>)
    requires forall x :: f(x) ==> g(x)
    ensures Filter(f, Filter(g, s)) == Filter(f, s)
    decreases |s|
  {
    if |s| > 0 {
      FilterSubsumed(f, g, s[1..]);
      FilterConcat(f, if g(s[0]) then [s[0]] else [], Filter(g, s[1..]));
    }
  }

  /** The filter keeps every element exactly when every element satisfies `f`. */
  lemma {:induction false} FilterFullIffAll<T(!new)>(f: T -> bool, s: seq<T>)
    ensures |Filter(f, s)| == |s| <==> forall x :: x in s ==> f(x)
    decreases |s|
  {
    if |s| > 0 {
      FilterFullIffAll(f, s[1..]);
      assert forall x :: x in s ==> x == s[0] || x in s[1..];
    }
  }

  /** Filtering commutes with a map that does not change the filtered property. */
  lemma {:induction false} FilterMapCommute<T(!new)>(f: T -> bool, g: T -> T, s: seq<T>)
    requires forall x :: f(g(x)) == f(x)
    ensures Filter(f, Map(g, s)) == Map(g, Filter(f, s))
    decreases |s|
  {
    if |s| > 0 {
      FilterMapCommute(f, g, s[1..]);
      assert Map(g, s)[1..] == Map(g, s[1..]);
      calc {
        Filter(f, Map(g, s));
        (if f(g(s[0])) then [g(s[0])] else []) + Filter(f, Map(g, s[1..]));
        (if f(s[0]) then [g(s[0])] else []) + Map(g, Filter(f, s[1..]));
        { if f(s[0]) { assert Map(g, [s[0]] + Filter(f, s[1..]))[1..] == Map(g, Filter(f, s[1..])); } }
        Map(g, Filter(f, s));
      }
    }
  }

  /** Every ordered pair of positions of `s` is related by `R`. */
  ghost predicate Pairwise<T>(R: (T, T) -> bool, s: seq<T>) {
    forall i, j :: 0 <= i < j < |s| ==> R(s[i], s[j])
  }

  /** A filter keeps a subsequence, so a pairwise order survives it. */
  lemma {:induction false} FilterPairwise<T(!new)>(R: (T, T) -> bool, f: T -> bool, s: seq<T>)
    requires Pairwise(R, s)
    ensures Pairwise(R, Filter(f, s))
    decreases |s|
  {
    if |s| > 0 {
      var t := Filter(f, s[1..]);
      assert Pairwise(R, s[1..]) by {
        forall i, j | 0 <= i < j < |s[1..]| ensures R(s[1..][i], s[1..][j]) {
          assert s[1..][i] == s[i + 1] && s[1..][j] == s[j + 1];
        }
      }
      FilterPairwise(R, f, s[1..]);
      if f(s[0]) {
        var r := Filter(f, s);
        assert r == [s[0]] + t;
        forall i, j | 0 <= i < j < |r| ensures R(r[i], r[j]) {
          if i == 0 {
            assert r[j] == t[j - 1];
            assert t[j - 1] in s[1..];
            var m :| 0 <= m < |s[1..]| && s[1..][m] == t[j - 1];
            assert s[1..][m] == s[m + 1];
          } else {
            assert r[i] == t[i - 1] && r[j] == t[j - 1];
          }
        }
      }
    }
  }


  /** The keys of `s` strictly ascend along the sequence. */
  predicate AscendingBy<T>(key: T -> int, s: seq<T>) {
    forall i, j :: 0 <= i < j < |s| ==> key(s[i]) < key(s[j])
  }

  /** Dropping elements keeps the remaining keys ascending. */
  lemma FilterAscendingBy<T(!new)>(key: T -> int, f: T -> bool, s: seq<T>)
    requires AscendingBy(key, s)
    ensures AscendingBy(key, Filter(f, s))
  {
    var R := (a: T, b: T) => key(a) < key(b);
    assert Pairwise(R, s);
    FilterPairwise(R, f, s);
  }

  /** A sequence built by concatenation splits back into its two parts. */
  lemma SplitAt<T>(whole: seq<T>, front: seq<T>, back: seq<T>, n: nat)
    requires whole == front + back
    requires n == |front|
    ensures n <= |whole|
    ensures whole[..n] == front && whole[n..] == back
  {
  }

  /** `s` is in non-decreasing order of `key`. */
  predicate SortedBy<T>(key: T -> int, s: seq<T>) {
    forall i, j :: 0 <= i < j < |s| ==> key(s[i]) <= key(s[j])
  }

  /** Inserts `x` before the first element whose key is not smaller than its own. */
  function InsertBy<T>(key: T -> int, x: T, s: seq<T>): (r: seq<T>)
    ensures |r| == |s| + 1
    decreases |s|
  {
    if |s| == 0 then [x]
    else if key(x) <= key(s[0]) then [x] + s
    else [s[0]] + InsertBy(key, x, s[1..])
  }

  /** A lower bound on the keys of `x` and of `s` bounds the keys after the insertion. */
  lemma {:induction false} InsertByBound<T>(key: T -> int, x: T, s: seq<T>, b: int)
    requires b <= key(x)
    requires forall j :: 0 <= j < |s| ==> b <= key(s[j])
    ensures forall j :: 0 <= j < |InsertBy(key, x, s)| ==> b <= key(InsertBy(key, x, s)[j])
    decreases |s|
  {
    if |s| > 0 && key(x) > key(s[0]) {
      InsertByBound(key, x, s[1..], b);
      var r := InsertBy(key, x, s);
      forall j | 0 < j < |r| ensures b <= key(r[j]) {
        assert r[j] == InsertBy(key, x, s[1..])[j - 1];
      }
    }
  }

  /** Inserting into a sorted sequence keeps it sorted. */
  lemma {:induction false} InsertByOrdered<T>(key: T -> int, x: T, s: seq<T>)
    requires SortedBy(key, s)
    ensures SortedBy(key, InsertBy(key, x, s))
    decreases |s|
  {
    if |s| > 0 && key(x) > key(s[0]) {
      var rest := InsertBy(key, x, s[1..]);
      InsertByOrdered(key, x, s[1..]);
      InsertByBound(key, x, s[1..], key(s[0]));
      var r := InsertBy(key, x, s);
      assert r == [s[0]] + rest;
      forall i, j | 0 <= i < j < |r| ensures key(r[i]) <= key(r[j]) {
        assert r[j] == rest[j - 1];
        if i > 0 {
          assert r[i] == rest[i - 1];
        }
      }
    } else if |s| > 0 {
      var r := InsertBy(key, x, s);
      forall i, j | 0 <= i < j < |r| ensures key(r[i]) <= key(r[j]) {
        assert r[j] == s[j - 1];
        if i > 0 {
          assert r[i] == s[i - 1];
        } else if j > 1 {
          assert key(s[0]) <= key(s[j - 1]);
        }
      }
    }
  }

  /** Inserting adds exactly one occurrence of `x`. */
  lemma {:induction false} InsertByAdds<T>(key: T -> int, x: T, s: seq<T>)
    ensures multiset(InsertBy(key, x, s)) == multiset(s) + multiset{x}
    decreases |s|
  {
    if |s| > 0 && key(x) > key(s[0]) {
      InsertByAdds(key, x, s[1..]);
      assert s == [s[0]] + s[1..];
    }
  }

  /**
   Stable insertion sort by `key`: elements with equal keys keep their
   original relative order.
   */
  function SortBy<T>(key: T -> int, s: seq<T>): (r: seq<T>)
    ensures |r| == |s|
    decreases |s|
  {
    if |s| == 0 then []
    else InsertBy(key, s[0], SortBy(key, s[1..]))
  }

  /** The sort returns a permutation of its input in non-decreasing key order. */
  lemma SortBySorted<T>(key: T -> int, s: seq<T>)
    ensures SortedBy(key, SortBy(key, s))
    ensures multiset(SortBy(key, s)) == multiset(s)
  {
    SortByOrdered(key, s);
    SortByPermutes(key, s);
  }

  lemma {:induction false} SortByOrdered<T>(key: T -> int, s: seq<T>)
    ensures SortedBy(key, SortBy(key, s))
    decreases |s|
  {
    if |s| > 0 {
      SortByOrdered(key, s[1..]);
      InsertByOrdered(key, s[0], SortBy(key, s[1..]));
    }
  }

  lemma {:induction false} SortByPermutes<T>(key: T -> int, s: seq<T>)
    ensures multiset(SortBy(key, s)) == multiset(s)
    decreases |s|
  {
    if |s| > 0 {
      SortByPermutes(key, s[1..]);
      InsertByAdds(key, s[0], SortBy(key, s[1..]));
      assert s == [s[0]] + s[1..];
    }
  }
}
