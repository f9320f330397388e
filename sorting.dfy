/**
 * Python's `sorted` on a list of strings: lexicographic order on code points,
 * realised here as an insertion sort on sequences.
 */
module Sorting {
  /** `a <= b` for Python strings: lexicographic, a proper prefix comes first. */
  predicate LexLe(a: string, b: string)
    decreases |a|
  {
    if |a| == 0 then true
    else if |b| == 0 then false
    else if a[0] != b[0] then a[0] < b[0]
    else LexLe(a[1..], b[1..])
  }

  lemma {:induction false} LexReflexive(a: string)
    ensures LexLe(a, a)
    decreases |a|
  {
    if |a| > 0 {
      LexReflexive(a[1..]);
    }
  }

  lemma {:induction false} LexTotal(a: string, b: string)
    ensures LexLe(a, b) || LexLe(b, a)
    decreases |a|
  {
    if |a| > 0 && |b| > 0 && a[0] == b[0] {
      LexTotal(a[1..], b[1..]);
    }
  }

  lemma {:induction false} LexTransitive(a: string, b: string, c: string)
    requires LexLe(a, b) && LexLe(b, c)
    ensures LexLe(a, c)
    decreases |a|
  {
    if |a| > 0 && |b| > 0 && |c| > 0 && a[0] == b[0] && b[0] == c[0] {
      LexTransitive(a[1..], b[1..], c[1..]);
    }
  }

  lemma {:induction false} LexAntisymmetric(a: string, b: string)
    requires LexLe(a, b) && LexLe(b, a)
    ensures a == b
    decreases |a|
  {
    if |a| > 0 {
      LexAntisymmetric(a[1..], b[1..]);
      assert a == [a[0]] + a[1..] && b == [b[0]] + b[1..];
    }
  }

  predicate SortedStrings(s: seq<string>)
  {
    forall i, j :: 0 <= i < j < |s| ==> LexLe(s[i], s[j])
  }

  /** Insert `x` in front of the first element it does not exceed. */
  function Insert(x: string, s: seq<string>): (t: seq<string>)
    ensures |t| == |s| + 1
    ensures multiset(t) == multiset(s) + multiset{x}
    decreases |s|
  {
    if |s| == 0 then [x]
    else if LexLe(x, s[0]) then [x] + s
    else
      var rest := Insert(x, s[1..]);
      assert s == [s[0]] + s[1..];
      [s[0]] + rest
  }

  lemma {:induction false} InsertSorted(x: string, s: seq<string>)
    requires SortedStrings(s)
    ensures SortedStrings(Insert(x, s))
    decreases |s|
  {
    if |s| > 0 {
      if LexLe(x, s[0]) {
        forall j | 0 < j < |s| + 1 ensures LexLe(x, ([x] + s)[j]) {
          if j > 1 {
            LexTransitive(x, s[0], s[j - 1]);
          }
        }
      } else {
        LexTotal(x, s[0]);
        InsertSorted(x, s[1..]);
        var t := Insert(x, s);
        var rest := Insert(x, s[1..]);
        assert t == [s[0]] + rest;
        forall j | 0 < j < |t| ensures LexLe(s[0], t[j]) {
          assert t[j] in multiset(rest);
          assert t[j] in multiset(s[1..]) + multiset{x};
          if t[j] != x {
            assert t[j] in s[1..];
            var k :| 0 <= k < |s[1..]| && s[1..][k] == t[j];
            assert s[k + 1] == t[j];
          }
        }
      }
    }
  }

  /** `sorted(files)` */
  function Sort(s: seq<string>): (t: seq<string>)
    ensures |t| == |s|
    decreases |s|
  {
    if |s| == 0 then [] else Insert(s[0], Sort(s[1..]))
  }

  /** The result is in order and is a permutation of the input. */
  lemma SortIsSortedPermutation(s: seq<string>)
    ensures SortedStrings(Sort(s))
    ensures multiset(Sort(s)) == multiset(s)
  {
    SortIsSorted(s);
    SortIsPermutation(s);
  }

  lemma {:induction false} SortIsSorted(s: seq<string>)
    ensures SortedStrings(Sort(s))
    decreases |s|
  {
    if |s| > 0 {
      SortIsSorted(s[1..]);
      InsertSorted(s[0], Sort(s[1..]));
    }
  }

  lemma {:induction false} SortIsPermutation(s: seq<string>)
    ensures multiset(Sort(s)) == multiset(s)
    decreases |s|
  {
    if |s| > 0 {
      SortIsPermutation(s[1..]);
      MultisetOfCons(s);
    }
  }

  lemma MultisetOfCons<T>(s: seq<T>)
    requires |s| > 0
    ensures multiset(s) == multiset(s[1..]) + multiset{s[0]}
  {
    assert s == [s[0]] + s[1..];
  }
}
