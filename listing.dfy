/**
 * A directory listing: the entry names of one directory in the order the
 * directory reads them back. A directory never lists a name twice.
 */
module Listing {

  /** No name is listed twice: the last entry is not among the earlier ones, and so on down. */
  predicate Distinct(s: seq<string>) {
    s == [] || (s[|s| - 1] !in s[..|s| - 1] && Distinct(s[..|s| - 1]))
  }

  /** The listing after the entry `x` is unlinked: every other entry stays, in order. */
  function Remove(s: seq<string>, x: string): (r: seq<string>)
    ensures forall y :: y in r <==> y in s && y != x
    ensures |r| <= |s|
  {
    if s == [] then []
    else
      var last := s[|s| - 1];
      assert s == s[..|s| - 1] + [last];
      Remove(s[..|s| - 1], x) + (if last == x then [] else [last])
  }

  /** The listing after a file named `x` is written: an existing entry is overwritten in place, a new one is added. */
  function Put(s: seq<string>, x: string): (r: seq<string>)
    ensures forall y :: y in r <==> y in s || y == x
    ensures x in s ==> r == s
  {
    if x in s then s else s + [x]
  }

  /** Pairwise reading of `Distinct`: two positions of a repeat-free listing hold different names. */
  lemma {:induction false} DistinctAt(s: seq<string>, i: nat, j: nat)
    requires Distinct(s) && i < j < |s|
    ensures s[i] != s[j]
  {
    var init := s[..|s| - 1];
    if j == |s| - 1 {
      assert s[i] == init[i];
    } else {
      DistinctAt(init, i, j);
    }
  }

  /** A listing whose positions all hold different names is repeat-free. */
  lemma {:induction false} DistinctFromPairs(s: seq<string>)
    requires forall i, j :: 0 <= i < j < |s| ==> s[i] != s[j]
    ensures Distinct(s)
  {
    if s != [] {
      var init := s[..|s| - 1];
      assert forall i, j :: 0 <= i < j < |init| ==> init[i] != init[j] by {
        forall i, j | 0 <= i < j < |init|
          ensures init[i] != init[j]
        {
          assert init[i] == s[i] && init[j] == s[j];
        }
      }
      DistinctFromPairs(init);
      forall k | 0 <= k < |init|
        ensures init[k] != s[|s| - 1]
      {
        assert init[k] == s[k];
      }
    }
  }

  /** Appending a name that is not yet listed keeps a listing repeat-free. */
  lemma DistinctSnoc(s: seq<string>, x: string)
    requires Distinct(s) && x !in s
    ensures Distinct(s + [x])
  {
    assert (s + [x])[..|s|] == s;
  }

  /** In a repeat-free listing an entry occurs neither before nor after its own position. */
  lemma {:induction false} DistinctSplit(s: seq<string>, i: nat)
    requires Distinct(s) && i < |s|
    ensures s[i] !in s[..i] && s[i] !in s[i + 1..]
  {
    var init := s[..|s| - 1];
    if i < |s| - 1 {
      DistinctSplit(init, i);
      assert s[..i] == init[..i];
      assert s[i + 1..] == init[i + 1..] + [s[|s| - 1]];
      assert s[i] == init[i];
    }
  }

  lemma {:induction false} RemoveAbsent(s: seq<string>, x: string)
    requires x !in s
    ensures Remove(s, x) == s
  {
    if s != [] {
      RemoveAbsent(s[..|s| - 1], x);
      assert s == s[..|s| - 1] + [s[|s| - 1]];
    }
  }

  /** Unlinking an entry of a listing cuts exactly that entry out of it. */
  lemma {:induction false} RemoveSplit(a: seq<string>, x: string, b: seq<string>)
    requires x !in a && x !in b
    ensures Remove(a + [x] + b, x) == a + b
  {
    var s := a + [x] + b;
    if b == [] {
      assert s[..|s| - 1] == a;
      RemoveAbsent(a, x);
    } else {
      var b' := b[..|b| - 1];
      assert s[..|s| - 1] == a + [x] + b';
      RemoveSplit(a, x, b');
      assert a + b == a + b' + [b[|b| - 1]];
    }
  }

  /** Unlinking keeps a listing free of repeats. */
  lemma {:induction false} RemoveDistinct(s: seq<string>, x: string)
    requires Distinct(s)
    ensures Distinct(Remove(s, x))
  {
    if s != [] {
      var init := s[..|s| - 1];
      RemoveDistinct(init, x);
      if s[|s| - 1] != x {
        DistinctSnoc(Remove(init, x), s[|s| - 1]);
      } else {
        assert Remove(init, x) + [] == Remove(init, x);
        assert Remove(s, x) == Remove(init, x);
      }
    }
  }

  /** Unlinking a listed entry shortens a repeat-free listing by exactly one. */
  lemma {:induction false} RemoveCount(s: seq<string>, x: string)
    requires Distinct(s) && x in s
    ensures |Remove(s, x)| == |s| - 1
  {
    var init := s[..|s| - 1];
    assert s == init + [s[|s| - 1]];
    if s[|s| - 1] == x {
      RemoveAbsent(init, x);
    } else {
      RemoveCount(init, x);
    }
  }

  /** Writing a file keeps a listing free of repeats. */
  lemma PutDistinct(s: seq<string>, x: string)
    requires Distinct(s)
    ensures Distinct(Put(s, x))
  {
    if x !in s {
      DistinctSnoc(s, x);
    }
  }
}
