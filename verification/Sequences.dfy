/** What adding and dropping one element does to a sequence. */
module Sequences {
  // s' is s with x added somewhere.
  ghost predicate Added<T>(s: seq<T>, s': seq<T>, x: T) {
    exists i :: 0 <= i <= |s| && s' == s[..i] + [x] + s[i..]
  }

  // s' is s without its element x.
  ghost predicate Dropped<T>(s: seq<T>, s': seq<T>, x: T) {
    exists i :: 0 <= i < |s| && s[i] == x && s' == s[..i] + s[i + 1..]
  }

  lemma AddedBetween<T>(a: seq<T>, b: seq<T>, x: T)
    ensures Added(a + b, a + [x] + b, x)
  {
    assert (a + b)[..|a|] == a && (a + b)[|a|..] == b;
  }

  lemma DroppedBetween<T>(a: seq<T>, b: seq<T>, x: T)
    ensures Dropped(a + [x] + b, a + b, x)
  {
    var s := a + [x] + b;
    assert s[|a|] == x && s[..|a|] == a && s[|a| + 1..] == b;
  }

  // Each element comes before all that follow it.
  ghost predicate SortedBy<T>(s: seq<T>, before: (T, T) -> bool) {
    forall i, j :: 0 <= i < j < |s| ==> before(s[i], s[j])
  }

  lemma SortedConcat<T>(a: seq<T>, b: seq<T>, before: (T, T) -> bool)
    ensures SortedBy(a + b, before) <==>
      SortedBy(a, before) && SortedBy(b, before) && forall x, y :: x in a && y in b ==> before(x, y)
  {
    var s := a + b;
    if SortedBy(s, before) {
      forall i, j | 0 <= i < j < |a| ensures before(a[i], a[j]) { assert s[i] == a[i] && s[j] == a[j]; }
      forall i, j | 0 <= i < j < |b| ensures before(b[i], b[j]) {
        assert s[|a| + i] == b[i] && s[|a| + j] == b[j];
      }
      forall x, y | x in a && y in b ensures before(x, y) {
        var i :| 0 <= i < |a| && a[i] == x;
        var j :| 0 <= j < |b| && b[j] == y;
        assert s[i] == x && s[|a| + j] == y;
      }
    }
    if SortedBy(a, before) && SortedBy(b, before) && forall x, y :: x in a && y in b ==> before(x, y) {
      forall i, j | 0 <= i < j < |s| ensures before(s[i], s[j]) {
        if i < |a| <= j {
          assert a[i] in a && b[j - |a|] in b;
        }
      }
    }
  }

  lemma DroppedSorted<T>(s: seq<T>, s': seq<T>, x: T, before: (T, T) -> bool)
    requires Dropped(s, s', x) && SortedBy(s, before)
    ensures SortedBy(s', before)
  {
    var i :| 0 <= i < |s| && s[i] == x && s' == s[..i] + s[i + 1..];
    forall j, k | 0 <= j < k < |s'| ensures before(s'[j], s'[k]) {
      ShiftedAt(s, s', i, j);
      ShiftedAt(s, s', i, k);
    }
  }

  lemma ShiftedAt<T>(s: seq<T>, s': seq<T>, i: nat, j: nat)
    requires i < |s| && s' == s[..i] + s[i + 1..] && j < |s'|
    ensures s'[j] == s[if j < i then j else j + 1]
  {
  }
}
