/**
  `sorted(...)` on a list of str: an insertion sort under Python's string
  order (Text.Le), proved to return a sorted permutation of its input, and
  proved to be the only such list.
*/
module Sorting {
  import opened Text

  /** Every element is at most every later one. */
  ghost predicate Sorted(s: seq<string>) {
    forall i, j :: 0 <= i < j < |s| ==> Le(s[i], s[j])
  }

  function Insert(x: string, s: seq<string>): (r: seq<string>)
    requires Sorted(s)
    ensures Sorted(r)
    ensures multiset(r) == multiset(s) + multiset{x}
  {
    if s == [] then [x]
    else if Le(x, s[0]) then
      assert forall j :: 0 <= j < |s| ==> Le(x, s[j]) by {
        forall j | 0 <= j < |s| ensures Le(x, s[j]) {
          if j > 0 { LeTransitive(x, s[0], s[j]); }
        }
      }
      [x] + s
    else
      var t := Insert(x, s[1..]);
      assert s == [s[0]] + s[1..];
      assert Le(s[0], x) by { LeTotal(x, s[0]); }
      assert forall j :: 0 <= j < |t| ==> Le(s[0], t[j]) by {
        forall j | 0 <= j < |t| ensures Le(s[0], t[j]) {
          assert t[j] in multiset(t);
          if t[j] != x {
            assert t[j] in multiset(s[1..]);
            var k :| 0 <= k < |s[1..]| && s[1..][k] == t[j];
            assert s[k + 1] == t[j];
          }
        }
      }
      [s[0]] + t
  }

  /** `sorted(s)` */
  function Sort(s: seq<string>): (r: seq<string>)
    ensures Sorted(r)
    ensures multiset(r) == multiset(s)
  {
    if s == [] then []
    else
      assert s == [s[0]] + s[1..];
      Insert(s[0], Sort(s[1..]))
  }

  /**
    A sorted permutation is unique: whatever list is sorted and has the same
    elements with the same multiplicities as `s` equals Sort(s).
  */
  lemma {:induction false} SortedUnique(a: seq<string>, b: seq<string>)
    requires Sorted(a) && Sorted(b)
    requires multiset(a) == multiset(b)
    ensures a == b
  {
    if a != [] {
      assert |b| == |multiset(b)| == |multiset(a)| == |a|;
      assert a[0] in multiset(b);
      var k :| 0 <= k < |b| && b[k] == a[0];
      assert b[0] in multiset(a);
      var m :| 0 <= m < |a| && a[m] == b[0];
      assert Le(b[0], a[0]) by { if k > 0 { assert Le(b[0], b[k]); } else { LeReflexive(a[0]); } }
      assert Le(a[0], b[0]) by { if m > 0 { assert Le(a[0], a[m]); } else { LeReflexive(a[0]); } }
      LeAntisymmetric(a[0], b[0]);
      DropFirst(a);
      DropFirst(b);
      SortedUnique(a[1..], b[1..]);
    }
  }

  /** Dropping the first element keeps a list sorted and takes one copy of that element out of its multiset. */
  lemma DropFirst(s: seq<string>)
    requires Sorted(s) && s != []
    ensures Sorted(s[1..])
    ensures multiset(s[1..]) == multiset(s) - multiset{s[0]}
  {
    assert s == [s[0]] + s[1..];
    forall i, j | 0 <= i < j < |s[1..]| ensures Le(s[1..][i], s[1..][j]) {
      assert s[1..][i] == s[i + 1] && s[1..][j] == s[j + 1];
    }
  }
}
