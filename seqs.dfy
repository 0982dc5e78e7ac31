/** Sequence utilities: concatenation of a sequence of blocks (the shape of a
    walk that appends one block per iteration) and duplicate-freedom. */
module Seqs {

  /** All blocks of `ss`, one after another, in order. */
  function Concat<T>(ss: seq<seq<T>>): seq<T>
  {
    if |ss| == 0 then [] else Concat(ss[..|ss| - 1]) + ss[|ss| - 1]
  }

  lemma {:induction false} ConcatAppend<T>(a: seq<seq<T>>, b: seq<seq<T>>)
    ensures Concat(a + b) == Concat(a) + Concat(b)
    decreases |b|
  {
    if |b| == 0 {
      assert a + b == a;
    } else {
      var init := b[..|b| - 1];
      assert (a + b)[..|a + b| - 1] == a + init;
      assert (a + b)[|a + b| - 1] == b[|b| - 1];
      ConcatAppend(a, init);
      assert Concat(a + b) == Concat(a + init) + b[|b| - 1];
      assert Concat(b) == Concat(init) + b[|b| - 1];
    }
  }

  /** Concatenating one more block appends it. */
  lemma ConcatSnoc<T>(a: seq<seq<T>>, x: seq<T>)
    ensures Concat(a + [x]) == Concat(a) + x
  {
    assert (a + [x])[..|a|] == a;
  }

  /** The concatenation around one block. */
  lemma ConcatThree<T>(a: seq<seq<T>>, x: seq<T>, b: seq<seq<T>>)
    ensures Concat(a + [x] + b) == Concat(a) + x + Concat(b)
  {
    ConcatSnoc(a, x);
    ConcatAppend(a + [x], b);
  }

  /** Extending a prefix by one block appends that block. */
  lemma ConcatPrefixSnoc<T>(ss: seq<seq<T>>, i: nat)
    requires i < |ss|
    ensures Concat(ss[..i + 1]) == Concat(ss[..i]) + ss[i]
  {
    assert ss[..i + 1][..i] == ss[..i];
  }

  /** A sequence is its part before `i`, its `i`-th element and its part after `i`. */
  lemma SplitAt<T>(ss: seq<T>, i: nat)
    requires i < |ss|
    ensures ss == ss[..i] + [ss[i]] + ss[i + 1..]
  {
  }

  /** A non-empty sequence is its front followed by its last element. */
  lemma SplitLast<T>(s: seq<T>)
    requires |s| > 0
    ensures s == s[..|s| - 1] + [s[|s| - 1]]
  {
  }

  /** The head and tail of a concatenation whose first part is non-empty. */
  lemma TailAppend<T>(a: seq<T>, b: seq<T>)
    requires |a| > 0
    ensures (a + b)[0] == a[0]
    ensures (a + b)[1..] == a[1..] + b
  {
  }

  /** Where a block `[c] + q` sits when it follows `p`. */
  lemma BlockAt<T>(d: seq<T>, p: seq<T>, c: T, q: seq<T>, r: seq<T>)
    requires d == p + ([c] + q) + r
    ensures |p| + 1 + |q| <= |d|
    ensures d[|p|] == c
    ensures d[|p| + 1 .. |p| + 1 + |q|] == q
  {
    assert d[|p| + 1 .. |p| + 1 + |q|] == ([c] + q)[1..];
  }

  /** The concatenation is the blocks before `i`, block `i`, and the blocks after it. */
  lemma ConcatSplit<T>(ss: seq<seq<T>>, i: nat)
    requires i < |ss|
    ensures Concat(ss) == Concat(ss[..i]) + ss[i] + Concat(ss[i + 1..])
  {
    SplitAt(ss, i);
    ConcatThree(ss[..i], ss[i], ss[i + 1..]);
  }

  /** An element is in the concatenation exactly when it is in one of the blocks. */
  lemma {:induction false} ConcatMember<T>(ss: seq<seq<T>>, x: T)
    ensures x in Concat(ss) <==> exists i :: 0 <= i < |ss| && x in ss[i]
    decreases |ss|
  {
    if |ss| > 0 {
      var init := ss[..|ss| - 1];
      ConcatMember(init, x);
      if x in Concat(ss) && x !in ss[|ss| - 1] {
        var i :| 0 <= i < |init| && x in init[i];
        assert ss[i] == init[i];
      }
      if exists i :: 0 <= i < |ss| && x in ss[i] {
        var i :| 0 <= i < |ss| && x in ss[i];
        if i < |ss| - 1 {
          assert init[i] == ss[i];
        }
      }
    }
  }

  /** Every element of the concatenation comes from some block. */
  lemma ConcatCovers<T>(ss: seq<seq<T>>)
    ensures forall x :: x in Concat(ss) ==> exists i :: 0 <= i < |ss| && x in ss[i]
  {
    forall x | x in Concat(ss)
      ensures exists i :: 0 <= i < |ss| && x in ss[i]
    {
      ConcatMember(ss, x);
    }
  }

  /** No element occurs twice. */
  predicate Distinct<T(==)>(s: seq<T>)
  {
    forall i, j :: 0 <= i < j < |s| ==> s[i] != s[j]
  }

  lemma DistinctAppend<T>(a: seq<T>, b: seq<T>)
    requires Distinct(a) && Distinct(b)
    requires forall x :: x in a ==> x !in b
    ensures Distinct(a + b)
  {
    forall i, j | 0 <= i < j < |a + b|
      ensures (a + b)[i] != (a + b)[j]
    {
      if i < |a| && |a| <= j {
        assert (a + b)[i] in a;
        assert (a + b)[j] in b;
      }
    }
  }

  /** Concatenating duplicate-free, pairwise disjoint blocks gives a duplicate-free sequence. */
  lemma {:induction false} ConcatDistinct<T>(ss: seq<seq<T>>)
    requires forall i :: 0 <= i < |ss| ==> Distinct(ss[i])
    requires forall i, j, x :: 0 <= i < j < |ss| && x in ss[i] ==> x !in ss[j]
    ensures Distinct(Concat(ss))
    decreases |ss|
  {
    if |ss| > 0 {
      var init := ss[..|ss| - 1];
      var last := ss[|ss| - 1];
      ConcatDistinct(init);
      forall x | x in Concat(init)
        ensures x !in last
      {
        ConcatMember(init, x);
        var i :| 0 <= i < |init| && x in init[i];
        assert ss[i] == init[i];
      }
      DistinctAppend(Concat(init), last);
    }
  }
}
