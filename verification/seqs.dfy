/** Sequence notions shared by the dictionary and filter models: distinctness,
    occurrence counting and duplicate removal in first-occurrence order. */
module Seqs {

  predicate Distinct<T(==)>(s: seq<T>) {
    forall i, j :: 0 <= i < j < |s| ==> s[i] != s[j]
  }

  /** Number of occurrences of `x` in `s`. */
  function Count<T(==)>(s: seq<T>, x: T): (n: nat)
    ensures n <= |s|
    ensures n == 0 <==> x !in s
  {
    if s == [] then 0 else (if s[0] == x then 1 else 0) + Count(s[1..], x)
  }

  /** A distinct sequence holds each element at most once. */
  lemma {:induction false} CountDistinct<T>(s: seq<T>, x: T)
    requires Distinct(s)
    ensures Count(s, x) <= 1
  {
    if s != [] {
      assert Distinct(s[1..]) by {
        forall i, j | 0 <= i < j < |s| - 1 ensures s[1..][i] != s[1..][j] {
          assert s[1..][i] == s[i + 1] && s[1..][j] == s[j + 1];
        }
      }
      CountDistinct(s[1..], x);
      if s[0] == x {
        assert x !in s[1..] by {
          forall i | 0 <= i < |s| - 1 ensures s[1..][i] != x {
            assert s[1..][i] == s[i + 1];
          }
        }
      }
    }
  }

  /** Position of the first occurrence of `x` in `s`. */
  function FirstIndex<T(==)>(s: seq<T>, x: T): (i: nat)
    requires x in s
    ensures i < |s| && s[i] == x && x !in s[..i]
  {
    if s[0] == x then 0
    else
      var i := 1 + FirstIndex(s[1..], x);
      assert s[..i] == [s[0]] + s[1..][..i - 1];
      i
  }

  /** `s` with every element after its first occurrence removed, the way a
      Python dict keeps its keys: in the order they were first inserted. */
  function Dedup<T(==)>(s: seq<T>): (r: seq<T>)
    ensures Distinct(r)
    ensures forall i :: 0 <= i < |r| ==> r[i] in s
    ensures forall i :: 0 <= i < |s| ==> s[i] in r
    ensures |r| <= |s|
  {
    if s == [] then []
    else
      var d := Dedup(s[..|s| - 1]);
      var x := s[|s| - 1];
      assert s == s[..|s| - 1] + [x];
      if x in d then d else d + [x]
  }

  /** The elements of `Dedup(s)` come in the order of their first occurrence in `s`. */
  lemma {:induction false} DedupOrder<T>(s: seq<T>)
    ensures forall i, j :: 0 <= i < j < |Dedup(s)| ==>
              FirstIndex(s, Dedup(s)[i]) < FirstIndex(s, Dedup(s)[j])
  {
    if s != [] {
      var init := s[..|s| - 1];
      DedupOrder(init);
      DedupOrderSnoc(init, s[|s| - 1]);
      assert s == init + [s[|s| - 1]];
    }
  }

  lemma DedupOrderSnoc<T>(init: seq<T>, x: T)
    requires forall i, j :: 0 <= i < j < |Dedup(init)| ==>
               FirstIndex(init, Dedup(init)[i]) < FirstIndex(init, Dedup(init)[j])
    ensures var s := init + [x];
      forall i, j :: 0 <= i < j < |Dedup(s)| ==> FirstIndex(s, Dedup(s)[i]) < FirstIndex(s, Dedup(s)[j])
  {
    var s := init + [x];
    var d := Dedup(init);
    var r := Dedup(s);
    assert s[..|s| - 1] == init;
    assert r == if x in d then d else d + [x];
    forall i, j | 0 <= i < j < |r| ensures FirstIndex(s, r[i]) < FirstIndex(s, r[j]) {
      assert r[i] == d[i] && r[i] in init;
      FirstIndexAppend(init, [x], r[i]);
      if j < |d| {
        assert r[j] == d[j] && r[j] in init;
        FirstIndexAppend(init, [x], r[j]);
      } else {
        assert r[j] == x && x !in init;
        FirstIndexLast(init, x);
      }
    }
  }

  lemma FirstIndexLast<T>(init: seq<T>, x: T)
    requires x !in init
    ensures x in init + [x] && FirstIndex(init + [x], x) == |init|
  {
    assert (init + [x])[|init|] == x;
    assert (init + [x])[..|init|] == init;
  }

  lemma {:induction false} FirstIndexAppend<T>(a: seq<T>, b: seq<T>, x: T)
    requires x in a
    ensures x in a + b && FirstIndex(a + b, x) == FirstIndex(a, x)
  {
    var i := FirstIndex(a, x);
    assert (a + b)[i] == x;
    assert (a + b)[..i] == a[..i];
  }

  /** Removing duplicates from a sequence without any changes nothing. */
  lemma {:induction false} DedupDistinct<T>(s: seq<T>)
    requires Distinct(s)
    ensures Dedup(s) == s
  {
    if s != [] {
      var init := s[..|s| - 1];
      assert Distinct(init) by {
        forall i, j | 0 <= i < j < |init| ensures init[i] != init[j] {
          assert init[i] == s[i] && init[j] == s[j];
        }
      }
      DedupDistinct(init);
      assert s[|s| - 1] !in init;
      assert init + [s[|s| - 1]] == s;
    }
  }
}
