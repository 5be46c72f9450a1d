// Sorting by descending confidence. The library calls the runtime's sorts
// (MemoryExtensions.Sort, Array.Sort, List.Sort, which are unstable, and
// OrderByDescending, which is stable); they are modelled by one stable
// insertion sort whose properties are proved here.

module Sorting {

  /** Non-increasing confidence along the sequence. */
  ghost predicate SortedDesc<T>(s: seq<T>, conf: T -> real)
  {
    forall i, j :: 0 <= i < j < |s| ==> conf(s[i]) >= conf(s[j])
  }

  /** Insert x after every element whose confidence is at least its own. */
  function Insert<T>(x: T, s: seq<T>, conf: T -> real): (r: seq<T>)
    ensures |r| == |s| + 1
    decreases |s|
  {
    if |s| == 0 then [x]
    else if conf(s[0]) >= conf(x) then [s[0]] + Insert(x, s[1..], conf)
    else [x] + s
  }

  /** Stable insertion sort by descending confidence. */
  function InsertionSort<T>(s: seq<T>, conf: T -> real): (r: seq<T>)
    ensures |r| == |s|
  {
    if |s| == 0 then [] else Insert(s[|s| - 1], InsertionSort(s[..|s| - 1], conf), conf)
  }

  lemma {:induction false} InsertPermutes<T>(x: T, s: seq<T>, conf: T -> real)
    ensures multiset(Insert(x, s, conf)) == multiset(s) + multiset{x}
    decreases |s|
  {
    if |s| > 0 && conf(s[0]) >= conf(x) {
      InsertPermutes(x, s[1..], conf);
      assert s == [s[0]] + s[1..];
    }
  }

  lemma {:induction false} InsertSorted<T>(x: T, s: seq<T>, conf: T -> real)
    requires SortedDesc(s, conf)
    ensures SortedDesc(Insert(x, s, conf), conf)
    decreases |s|
  {
    if |s| > 0 && conf(s[0]) >= conf(x) {
      var rest := Insert(x, s[1..], conf);
      InsertSorted(x, s[1..], conf);
      InsertPermutes(x, s[1..], conf);
      forall k | 0 <= k < |rest|
        ensures conf(s[0]) >= conf(rest[k])
      {
        assert rest[k] in multiset(rest);
        assert rest[k] == x || rest[k] in multiset(s[1..]);
        if rest[k] != x {
          var m :| 1 <= m < |s| && s[m] == rest[k] by {
            assert rest[k] in s[1..];
          }
        }
      }
    }
  }

  /** The insertion sort returns a permutation of its input in non-increasing confidence. */
  lemma {:induction false} InsertionSortCorrect<T>(s: seq<T>, conf: T -> real)
    ensures multiset(InsertionSort(s, conf)) == multiset(s)
    ensures SortedDesc(InsertionSort(s, conf), conf)
  {
    if |s| > 0 {
      var prefix := s[..|s| - 1];
      InsertionSortCorrect(prefix, conf);
      InsertPermutes(s[|s| - 1], InsertionSort(prefix, conf), conf);
      InsertSorted(s[|s| - 1], InsertionSort(prefix, conf), conf);
      assert s == prefix + [s[|s| - 1]];
    }
  }

  /** Entries of equal confidence appear in increasing key order. */
  ghost predicate TiesByKey<T>(s: seq<T>, conf: T -> real, key: T -> int)
  {
    forall a, b :: 0 <= a < b < |s| && conf(s[a]) == conf(s[b]) ==> key(s[a]) < key(s[b])
  }

  /** Every entry of the insertion result is the inserted one or an old one. */
  lemma {:induction false} InsertMembers<T>(x: T, s: seq<T>, conf: T -> real, k: nat)
    requires k < |Insert(x, s, conf)|
    ensures Insert(x, s, conf)[k] == x || exists m :: 0 <= m < |s| && s[m] == Insert(x, s, conf)[k]
    decreases |s|
  {
    if |s| > 0 && conf(s[0]) >= conf(x) {
      if k == 0 {
        assert s[0] == Insert(x, s, conf)[0];
      } else {
        InsertMembers(x, s[1..], conf, k - 1);
        if Insert(x, s, conf)[k] != x {
          var m :| 0 <= m < |s[1..]| && s[1..][m] == Insert(x, s[1..], conf)[k - 1];
          assert s[m + 1] == Insert(x, s, conf)[k];
        }
      }
    } else if |s| > 0 && k > 0 {
      assert s[k - 1] == Insert(x, s, conf)[k];
    }
  }

  /** Dropping the head keeps the order and the ties in key order. */
  lemma TailTies<T>(s: seq<T>, conf: T -> real, key: T -> int)
    requires |s| > 0 && SortedDesc(s, conf) && TiesByKey(s, conf, key)
    ensures SortedDesc(s[1..], conf) && TiesByKey(s[1..], conf, key)
  {
    forall a, b | 0 <= a < b < |s| - 1
      ensures conf(s[1..][a]) >= conf(s[1..][b])
      ensures conf(s[1..][a]) == conf(s[1..][b]) ==> key(s[1..][a]) < key(s[1..][b])
    {
      assert s[1..][a] == s[a + 1] && s[1..][b] == s[b + 1];
    }
  }

  /** The head of s precedes, in key order, every later entry of equal confidence after inserting x behind it. */
  lemma HeadTies<T>(x: T, s: seq<T>, conf: T -> real, key: T -> int, j: nat)
    requires |s| > 0 && TiesByKey(s, conf, key)
    requires forall i :: 0 <= i < |s| ==> key(s[i]) < key(x)
    requires j < |Insert(x, s[1..], conf)| && conf(s[0]) == conf(Insert(x, s[1..], conf)[j])
    ensures key(s[0]) < key(Insert(x, s[1..], conf)[j])
  {
    var e := Insert(x, s[1..], conf)[j];
    InsertMembers(x, s[1..], conf, j);
    if e != x {
      var m :| 0 <= m < |s[1..]| && s[1..][m] == e;
      assert s[m + 1] == e;
    }
  }

  /** Inserting an entry whose key exceeds every other keeps the ties in key order. */
  lemma {:induction false} InsertKeepsTies<T>(x: T, s: seq<T>, conf: T -> real, key: T -> int)
    requires SortedDesc(s, conf) && TiesByKey(s, conf, key)
    requires forall i :: 0 <= i < |s| ==> key(s[i]) < key(x)
    ensures TiesByKey(Insert(x, s, conf), conf, key)
    decreases |s|
  {
    if |s| > 0 && conf(s[0]) >= conf(x) {
      var rest := Insert(x, s[1..], conf);
      TailTies(s, conf, key);
      assert forall i :: 0 <= i < |s[1..]| ==> s[1..][i] == s[i + 1];
      InsertKeepsTies(x, s[1..], conf, key);
      var r := [s[0]] + rest;
      forall a, b | 0 <= a < b < |r| && conf(r[a]) == conf(r[b])
        ensures key(r[a]) < key(r[b])
      {
        if a == 0 {
          HeadTies(x, s, conf, key, b - 1);
        } else {
          assert r[a] == rest[a - 1] && r[b] == rest[b - 1];
        }
      }
      assert TiesByKey(r, conf, key);
    } else if |s| > 0 {
      var r := [x] + s;
      forall a, b | 0 <= a < b < |r| && conf(r[a]) == conf(r[b])
        ensures key(r[a]) < key(r[b])
      {
        if a == 0 {
          // x outranks every entry of s, so it ties with none of them
          assert false;
        } else {
          assert r[a] == s[a - 1] && r[b] == s[b - 1];
        }
      }
      assert TiesByKey(r, conf, key);
    }
  }

  /**
   * The insertion sort is stable: when the keys increase along the input,
   * entries of equal confidence keep that order.
   */
  lemma {:induction false} InsertionSortStable<T>(s: seq<T>, conf: T -> real, key: T -> int)
    requires forall a, b :: 0 <= a < b < |s| ==> key(s[a]) < key(s[b])
    ensures TiesByKey(InsertionSort(s, conf), conf, key)
  {
    if |s| > 0 {
      var prefix := s[..|s| - 1];
      var last := s[|s| - 1];
      var sorted := InsertionSort(prefix, conf);
      InsertionSortStable(prefix, conf, key);
      InsertionSortCorrect(prefix, conf);
      forall i | 0 <= i < |sorted|
        ensures key(sorted[i]) < key(last)
      {
        assert sorted[i] in multiset(prefix);
        var m :| 0 <= m < |prefix| && prefix[m] == sorted[i];
      }
      InsertKeepsTies(last, sorted, conf, key);
    }
  }

  /** The image of every entry, in order. */
  function Image<T, U>(f: T -> U, s: seq<T>): (r: seq<U>)
    ensures |r| == |s| && forall k :: 0 <= k < |s| ==> r[k] == f(s[k])
  {
    if |s| == 0 then [] else [f(s[0])] + Image(f, s[1..])
  }

  /** Sorting images by confidence is mapping the sequence sorted by its images' confidence. */
  lemma {:induction false} InsertImage<T, U>(x: T, s: seq<T>, f: T -> U, conf: U -> real, byImage: T -> real)
    requires forall y :: byImage(y) == conf(f(y))
    ensures Insert(f(x), Image(f, s), conf) == Image(f, Insert(x, s, byImage))
    decreases |s|
  {
    if |s| > 0 && conf(f(s[0])) >= conf(f(x)) {
      InsertImage(x, s[1..], f, conf, byImage);
      assert Image(f, s)[1..] == Image(f, s[1..]);
    }
  }

  lemma {:induction false} InsertionSortImage<T, U>(s: seq<T>, f: T -> U, conf: U -> real, byImage: T -> real)
    requires forall y :: byImage(y) == conf(f(y))
    ensures InsertionSort(Image(f, s), conf) == Image(f, InsertionSort(s, byImage))
  {
    if |s| > 0 {
      var prefix := s[..|s| - 1];
      InsertionSortImage(prefix, f, conf, byImage);
      assert Image(f, s)[..|s| - 1] == Image(f, prefix);
      InsertImage(s[|s| - 1], InsertionSort(prefix, byImage), f, conf, byImage);
    }
  }

  /**
   * Sorts an array in place by descending confidence. The contract leaves
   * the order of equal confidences open, as the runtime's unstable sorts do.
   */
  method SortDescending<T>(a: array<T>, conf: T -> real)
    modifies a
    ensures multiset(a[..]) == multiset(old(a[..]))
    ensures SortedDesc(a[..], conf)
  {
    var sorted := InsertionSort(a[..], conf);
    InsertionSortCorrect(a[..], conf);
    forall i | 0 <= i < a.Length {
      a[i] := sorted[i];
    }
    assert a[..] == sorted;
  }
}
