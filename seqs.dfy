/**
 * Sequences without repetition, kept in order of first appearance: the order a
 * JavaScript `Set` (and the key list of a plain object) keeps its entries in.
 */
module Seqs {

  predicate Distinct<T(==)>(s: seq<T>)
  {
    forall i, j :: 0 <= i < j < |s| ==> s[i] != s[j]
  }

  /** The position of the first occurrence of `x`. */
  function FirstIndex<T(==)>(s: seq<T>, x: T): (k: nat)
    requires x in s
    ensures k < |s| && s[k] == x && x !in s[..k]
  {
    if s[0] == x then 0 else 1 + FirstIndex(s[1..], x)
  }

  /** The position of the last occurrence of `x`. */
  function LastIndex<T(==)>(s: seq<T>, x: T): (k: nat)
    requires x in s
    ensures k < |s| && s[k] == x && x !in s[k + 1..]
    decreases |s|
  {
    if s[|s| - 1] == x then |s| - 1 else LastIndex(s[..|s| - 1], x)
  }

  /** The sequences of a sequence laid end to end. */
  function Flatten<T>(ss: seq<seq<T>>): (r: seq<T>)
    decreases |ss|
  {
    if ss == [] then [] else Flatten(ss[..|ss| - 1]) + ss[|ss| - 1]
  }

  /** The elements of `s`, each once, in order of first appearance: what adding
   * the elements of `s` one by one to an insertion-ordered set leaves in it. */
  function Dedup<T(==,!new)>(s: seq<T>): (d: seq<T>)
    ensures Distinct(d)
    ensures forall x :: x in d <==> x in s
    decreases |s|
  {
    if s == [] then []
    else
      var d := Dedup(s[..|s| - 1]);
      assert s == s[..|s| - 1] + [s[|s| - 1]];
      if s[|s| - 1] in d then d else d + [s[|s| - 1]]
  }

  /** `s` without any occurrence of `x`, the rest in order. */
  function Remove<T(==,!new)>(s: seq<T>, x: T): (r: seq<T>)
    ensures x !in r
    ensures forall y :: y != x ==> (y in r <==> y in s)
    ensures x !in s ==> r == s
    decreases |s|
  {
    if s == [] then []
    else
      var init := s[..|s| - 1];
      assert s == init + [s[|s| - 1]];
      Remove(init, x) + (if s[|s| - 1] == x then [] else [s[|s| - 1]])
  }

  lemma RemoveSnoc<T(!new)>(s: seq<T>, x: T, y: T)
    ensures Remove(s + [y], x) == Remove(s, x) + (if y == x then [] else [y])
  {
    assert (s + [y])[..|s|] == s;
  }

  /** `Remove` on a prefix one element longer. */
  lemma RemovePrefixSnoc<T(!new)>(s: seq<T>, n: nat, x: T)
    requires 0 < n <= |s|
    ensures Remove(s[..n], x) == Remove(s[..n - 1], x) + (if s[n - 1] == x then [] else [s[n - 1]])
  {
    assert s[..n] == s[..n - 1] + [s[n - 1]];
    RemoveSnoc(s[..n - 1], x, s[n - 1]);
  }

  /** Appending an element keeps the first occurrence of everything already present. */
  lemma FirstIndexAppend<T>(p: seq<T>, x: T, y: T)
    requires y in p
    ensures FirstIndex(p + [x], y) == FirstIndex(p, y)
  {
    assert (p + [x])[FirstIndex(p, y)] == y;
  }

  /** Dedup lists its elements in the order in which they first appear in the input. */
  lemma {:induction false} DedupFirstSeenOrder<T(!new)>(s: seq<T>, i: nat, j: nat)
    requires i < j < |Dedup(s)|
    ensures FirstIndex(s, Dedup(s)[i]) < FirstIndex(s, Dedup(s)[j])
    decreases |s|
  {
    var p, x := s[..|s| - 1], s[|s| - 1];
    assert s == p + [x];
    var d := Dedup(p);
    var a, b := Dedup(s)[i], Dedup(s)[j];
    assert a in p by {
      if a == x { assert Dedup(s)[i] == d[i]; }
    }
    FirstIndexAppend(p, x, a);
    if j < |d| {
      assert Dedup(s)[i] == d[i] && Dedup(s)[j] == d[j];
      DedupFirstSeenOrder(p, i, j);
      FirstIndexAppend(p, x, b);
    } else {
      assert b == x && x !in p;
      assert FirstIndex(s, b) == |p| by {
        assert s[|p|] == x && x !in s[..|p|];
      }
    }
  }

  /** Adding one more element to an insertion-ordered set. */
  lemma DedupSnoc<T(!new)>(s: seq<T>, x: T)
    ensures Dedup(s + [x]) == if x in s then Dedup(s) else Dedup(s) + [x]
  {
    assert (s + [x])[..|s|] == s;
  }

  lemma FlattenSnoc<T>(ss: seq<seq<T>>, t: seq<T>)
    ensures Flatten(ss + [t]) == Flatten(ss) + t
  {
    assert (ss + [t])[..|ss|] == ss;
  }

  /** An element of a flattened sequence comes from one of its parts, and back. */
  lemma {:induction false} FlattenMember<T>(ss: seq<seq<T>>, x: T)
    ensures x in Flatten(ss) <==> exists i :: 0 <= i < |ss| && x in ss[i]
    decreases |ss|
  {
    if ss != [] {
      var init := ss[..|ss| - 1];
      FlattenMember(init, x);
      if x in Flatten(ss) && x !in ss[|ss| - 1] {
        var i :| 0 <= i < |init| && x in init[i];
        assert x in ss[i];
      }
      if exists i :: 0 <= i < |ss| && x in ss[i] {
        var i :| 0 <= i < |ss| && x in ss[i];
        if i < |ss| - 1 {
          assert x in init[i];
        }
      }
    }
  }

  /** A sequence without repetition is its own deduplication. */
  lemma {:induction false} DedupOfDistinct<T(!new)>(s: seq<T>)
    requires Distinct(s)
    ensures Dedup(s) == s
    decreases |s|
  {
    if s != [] {
      var init := s[..|s| - 1];
      DedupOfDistinct(init);
      assert s[|s| - 1] !in init;
      assert init + [s[|s| - 1]] == s;
    }
  }
}
