/**
 * The set-like LINQ operators the library leans on, over sequences:
 * Except (distinct first occurrences that are not excluded) and Distinct.
 */
module Sequences {

  predicate NoDuplicates<X(==)>(s: seq<X>)
  {
    forall i, j :: 0 <= i < j < |s| ==> s[i] != s[j]
  }

  /** Position of the first occurrence of `x` in `s`. */
  function IndexOf<X(==)>(s: seq<X>, x: X): (i: nat)
    requires x in s
    ensures i < |s| && s[i] == x && x !in s[..i]
  {
    if s[0] == x then 0 else 1 + IndexOf(s[1..], x)
  }

  /** Extending a sequence does not move the first occurrence of an element already in it. */
  lemma IndexOfExtended<X>(s: seq<X>, t: seq<X>, x: X)
    requires x in s
    ensures IndexOf(s + t, x) == IndexOf(s, x)
  {
    var i := IndexOf(s, x);
    var k := IndexOf(s + t, x);
    assert (s + t)[i] == x;
    assert forall m :: 0 <= m < k ==> (s + t)[m] != x by {
      forall m | 0 <= m < k ensures (s + t)[m] != x {
        assert (s + t)[..k][m] == (s + t)[m];
      }
    }
    assert forall m :: 0 <= m < i ==> s[m] != x by {
      forall m | 0 <= m < i ensures s[m] != x {
        assert s[..i][m] == s[m];
      }
    }
  }

  /**
   * Enumerable.Except: the elements of `s` that are not in `excluded`, each
   * once, in the order of their first occurrence.
   */
  function Except<X(==)>(s: seq<X>, excluded: seq<X>): (r: seq<X>)
    ensures NoDuplicates(r)
    ensures forall i :: 0 <= i < |r| ==> r[i] in s && r[i] !in excluded
    ensures forall i :: 0 <= i < |s| && s[i] !in excluded ==> s[i] in r
    ensures |r| <= |s|
  {
    if s == [] then []
    else
      var init := Except(s[..|s| - 1], excluded);
      var last := s[|s| - 1];
      assert forall i :: 0 <= i < |s| - 1 ==> s[i] == s[..|s| - 1][i];
      if last in excluded || last in init then init else init + [last]
  }

  /** Every element of `r` occurs in `s`, and earlier in `r` means first occurring earlier in `s`. */
  predicate FirstOccurrenceOrder<X(==)>(r: seq<X>, s: seq<X>)
  {
    (forall k :: 0 <= k < |r| ==> r[k] in s)
    && forall i, j :: 0 <= i < j < |r| ==> IndexOf(s, r[i]) < IndexOf(s, r[j])
  }

  /** Except keeps the order of first occurrence. */
  lemma {:induction false} ExceptKeepsOrder<X>(s: seq<X>, excluded: seq<X>)
    ensures FirstOccurrenceOrder(Except(s, excluded), s)
  {
    if s != [] {
      var front := s[..|s| - 1];
      var last := s[|s| - 1];
      var init := Except(front, excluded);
      ExceptKeepsOrder(front, excluded);
      FrontLast(s);
      forall i | 0 <= i < |init|
        ensures init[i] in s && IndexOf(s, init[i]) == IndexOf(front, init[i])
      {
        IndexOfExtended(front, [last], init[i]);
      }
      if last !in excluded && last !in init {
        var r := init + [last];
        assert Except(s, excluded) == r;
        assert last !in front;
        assert IndexOf(s, last) == |s| - 1;
        forall i, j | 0 <= i < j < |r|
          ensures IndexOf(s, r[i]) < IndexOf(s, r[j])
        {
          assert r[i] == init[i];
          if j == |init| {
            assert IndexOf(front, init[i]) < |front|;
          } else {
            assert r[j] == init[j];
          }
        }
      } else {
        assert Except(s, excluded) == init;
      }
    }
  }

  /** Enumerable.Distinct: Except with nothing excluded. */
  function Distinct<X(==)>(s: seq<X>): (r: seq<X>)
    ensures NoDuplicates(r)
    ensures forall i :: 0 <= i < |s| ==> s[i] in r
    ensures forall i :: 0 <= i < |r| ==> r[i] in s
  {
    Except(s, [])
  }

  /** Except leaves a sequence alone exactly when it has no repeats and nothing in it is excluded. */
  lemma {:induction false} ExceptIsIdentity<X>(s: seq<X>, excluded: seq<X>)
    ensures Except(s, excluded) == s
        <==> NoDuplicates(s) && forall i :: 0 <= i < |s| ==> s[i] !in excluded
  {
    var r := Except(s, excluded);
    if NoDuplicates(s) && forall i :: 0 <= i < |s| ==> s[i] !in excluded {
      if s != [] {
        var init := s[..|s| - 1];
        assert NoDuplicates(init) && forall i :: 0 <= i < |init| ==> init[i] !in excluded by {
          assert forall i :: 0 <= i < |init| ==> init[i] == s[i];
        }
        ExceptIsIdentity(init, excluded);
        assert s[|s| - 1] !in init by {
          assert forall i :: 0 <= i < |init| ==> init[i] == s[i];
        }
        assert s == init + [s[|s| - 1]];
      }
    }
  }

  /** A non-empty sequence is its front followed by its last element. */
  lemma FrontLast<X>(s: seq<X>)
    requires s != []
    ensures s[..|s| - 1] + [s[|s| - 1]] == s
  {
  }

  /** Concatenation regroups freely. */
  lemma ConcatAssociative<X>(a: seq<X>, b: seq<X>, c: seq<X>)
    ensures a + (b + c) == (a + b) + c
  {
  }
}
