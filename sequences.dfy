/** Sequences of IDs as the commands build them. `[...new Set(xs)]` keeps
    each value once, at the position where it first occurs; `Dedup` is that
    operation, and the lemmas below say what merging through a `Set` does to
    a list that is already duplicate-free. */
module Sequences {

  predicate NoDuplicates(s: seq<string>)
  {
    forall i, j :: 0 <= i < j < |s| ==> s[i] != s[j]
  }

  /** `[...new Set(s)]`: values are inserted left to right and a value
      already present is skipped. */
  function Dedup(s: seq<string>): (r: seq<string>)
    ensures NoDuplicates(r)
    ensures forall x :: x in r <==> x in s
    ensures |r| <= |s|
    decreases |s|
  {
    if s == [] then []
    else
      var init := s[..|s| - 1];
      assert s == init + [s[|s| - 1]];
      var d := Dedup(init);
      if s[|s| - 1] in d then d else d + [s[|s| - 1]]
  }

  /** The position of the first occurrence of `x` in `s`. */
  function FirstIndex(s: seq<string>, x: string): (i: nat)
    requires x in s
    ensures i < |s| && s[i] == x && x !in s[..i]
  {
    if s[0] == x then 0
    else
      var k := FirstIndex(s[1..], x);
      assert s[..k + 1] == [s[0]] + s[1..][..k];
      1 + k
  }

  lemma FirstIndexUnique(s: seq<string>, x: string, i: nat)
    requires i < |s| && s[i] == x && x !in s[..i]
    ensures FirstIndex(s, x) == i
  {
    var k := FirstIndex(s, x);
    assert forall j :: 0 <= j < i ==> s[..i][j] == s[j];
    assert forall j :: 0 <= j < k ==> s[..k][j] == s[j];
  }

  /** A value that occurs in a prefix has its first occurrence there. */
  lemma FirstIndexInPrefix(s: seq<string>, n: nat, x: string)
    requires n <= |s| && x in s[..n]
    ensures FirstIndex(s, x) == FirstIndex(s[..n], x)
  {
    var k := FirstIndex(s[..n], x);
    assert s[..k] == s[..n][..k];
    FirstIndexUnique(s, x, k);
  }

  /** `Dedup` lists the values in the order of their first occurrences. */
  lemma {:induction false} DedupFirstOccurrenceOrder(s: seq<string>)
    ensures forall i, j :: 0 <= i < j < |Dedup(s)| ==>
      FirstIndex(s, Dedup(s)[i]) < FirstIndex(s, Dedup(s)[j])
    decreases |s|
  {
    if s != [] {
      var n := |s| - 1;
      var init := s[..n];
      var d := Dedup(init);
      DedupFirstOccurrenceOrder(init);
      forall x | x in d ensures FirstIndex(s, x) == FirstIndex(init, x) {
        FirstIndexInPrefix(s, n, x);
      }
      if s[n] !in d {
        FirstIndexUnique(s, s[n], n);
        assert Dedup(s) == d + [s[n]];
        forall i, j | 0 <= i < j < |Dedup(s)|
          ensures FirstIndex(s, Dedup(s)[i]) < FirstIndex(s, Dedup(s)[j])
        {
          if j == |d| {
            assert Dedup(s)[i] == d[i];
            assert d[i] in d;
          } else {
            assert Dedup(s)[i] == d[i] && Dedup(s)[j] == d[j];
            assert d[i] in d && d[j] in d;
          }
        }
      } else {
        assert Dedup(s) == d;
        forall i, j | 0 <= i < j < |d|
          ensures FirstIndex(s, d[i]) < FirstIndex(s, d[j])
        {
          assert d[i] in d && d[j] in d;
        }
      }
    }
  }

  /** A list without duplicates passes through a `Set` unchanged. */
  lemma {:induction false} DedupOfNoDuplicates(s: seq<string>)
    requires NoDuplicates(s)
    ensures Dedup(s) == s
    decreases |s|
  {
    if s != [] {
      var init := s[..|s| - 1];
      assert NoDuplicates(init);
      DedupOfNoDuplicates(init);
      assert forall k :: 0 <= k < |init| ==> init[k] == s[k];
      assert s == init + [s[|s| - 1]];
    }
  }

  /** The elements of `b` that do not occur in `a`, in order. */
  function Without(b: seq<string>, a: seq<string>): (r: seq<string>)
    ensures forall x :: x in r <==> x in b && x !in a
    decreases |b|
  {
    if b == [] then []
    else
      var init := b[..|b| - 1];
      assert b == init + [b[|b| - 1]];
      var rest := Without(init, a);
      if b[|b| - 1] in a then rest else rest + [b[|b| - 1]]
  }

  lemma {:induction false} WithoutSameMembers(b: seq<string>, a: seq<string>, a': seq<string>)
    requires forall x :: x in a <==> x in a'
    ensures Without(b, a) == Without(b, a')
    decreases |b|
  {
    if b != [] {
      WithoutSameMembers(b[..|b| - 1], a, a');
    }
  }

  /** Adding one value at the end inserts it unless it is already there. */
  lemma DedupSnoc(s: seq<string>, y: string)
    ensures Dedup(s + [y]) == if y in Dedup(s) then Dedup(s) else Dedup(s) + [y]
  {
    assert (s + [y])[..|s + [y]| - 1] == s;
  }

  lemma WithoutSnoc(b: seq<string>, y: string, a: seq<string>)
    ensures Without(b + [y], a) == if y in a then Without(b, a) else Without(b, a) + [y]
  {
    assert (b + [y])[..|b + [y]| - 1] == b;
  }

  /** Merging `b` into `a` through a `Set` keeps `Dedup(a)` as it is and
      appends the values of `b` that are new, in first-occurrence order. */
  lemma {:induction false} DedupAppend(a: seq<string>, b: seq<string>)
    ensures Dedup(a + b) == Dedup(a) + Dedup(Without(b, a))
    decreases |b|
  {
    if b == [] {
      assert a + b == a;
    } else {
      var init := b[..|b| - 1];
      var y := b[|b| - 1];
      assert b == init + [y];
      DedupAppend(a, init);
      DedupAppendStep(a, init, y);
    }
  }

  lemma DedupAppendStep(a: seq<string>, init: seq<string>, y: string)
    requires Dedup(a + init) == Dedup(a) + Dedup(Without(init, a))
    ensures Dedup(a + (init + [y])) == Dedup(a) + Dedup(Without(init + [y], a))
  {
    assert a + (init + [y]) == (a + init) + [y];
    DedupSnoc(a + init, y);
    WithoutSnoc(init, y, a);
    if y in a {
      assert y in a + init;
    } else {
      AppendNewValue(Dedup(a), Without(init, a), y);
    }
  }

  lemma AppendNewValue(da: seq<string>, w: seq<string>, y: string)
    requires y !in da
    ensures (if y in da + Dedup(w) then da + Dedup(w) else (da + Dedup(w)) + [y]) == da + Dedup(w + [y])
  {
    var dw := Dedup(w);
    DedupSnoc(w, y);
    assert y in da + dw <==> y in dw;
    if y !in dw {
      assert (da + dw) + [y] == da + (dw + [y]);
    }
  }

  /** Passing a list through a `Set` before merging changes nothing. */
  lemma DedupMergeAbsorbs(a: seq<string>, b: seq<string>)
    ensures Dedup(Dedup(a) + b) == Dedup(a + b)
  {
    DedupAppend(Dedup(a), b);
    DedupAppend(a, b);
    DedupOfNoDuplicates(Dedup(a));
    WithoutSameMembers(b, Dedup(a), a);
  }

  /** Merging into a duplicate-free list leaves every existing entry at its
      position and only appends. */
  lemma MergeKeepsPositions(a: seq<string>, b: seq<string>)
    requires NoDuplicates(a)
    ensures Dedup(a + b) == a + Dedup(Without(b, a))
  {
    DedupAppend(a, b);
    DedupOfNoDuplicates(a);
  }

  /** The concatenation of the lists, first to last: the value of
      `acc = [...acc, ...l]` over all `l`. */
  function Flatten(ls: seq<seq<string>>): (r: seq<string>)
    ensures forall x :: x in r <==> exists i :: 0 <= i < |ls| && x in ls[i]
    decreases |ls|
  {
    if ls == [] then []
    else
      var init := ls[..|ls| - 1];
      assert forall i :: 0 <= i < |init| ==> init[i] == ls[i];
      Flatten(init) + ls[|ls| - 1]
  }

  /** The concatenation is empty exactly when every list is. */
  lemma FlattenEmpty(ls: seq<seq<string>>)
    ensures Flatten(ls) == [] <==> forall i :: 0 <= i < |ls| ==> ls[i] == []
  {
    forall i | 0 <= i < |ls| && ls[i] != [] ensures Flatten(ls) != [] {
      assert ls[i][0] in Flatten(ls);
    }
  }
}
