/** Finite sets of natural numbers: their ascending enumeration (the order
    in which an ordered map, Rust's `BTreeMap`, visits its keys), the set of
    a sequence's elements, and the sequences without repetitions. */
module SortedSets {

  /** `m` is the least element of `s`. */
  predicate IsLeast(s: set<nat>, m: nat) {
    m in s && forall x :: x in s ==> m <= x
  }

  /** Every non-empty finite set of naturals has a least element. */
  lemma {:induction false} HasMinimum(s: set<nat>)
    requires s != {}
    ensures exists m :: IsLeast(s, m)
    decreases s
  {
    var y :| y in s;
    var rest := s - {y};
    if rest == {} {
      assert IsLeast(s, y) by {
        forall x | x in s
          ensures y <= x
        {
          assert x !in rest;
        }
      }
    } else {
      HasMinimum(rest);
      var m :| IsLeast(rest, m);
      LeastOfSplit(s, rest, y, m);
    }
  }

  /** The least element of `s` is `y` or the least element of the rest. */
  lemma LeastOfSplit(s: set<nat>, rest: set<nat>, y: nat, m: nat)
    requires y in s && rest == s - {y} && IsLeast(rest, m)
    ensures IsLeast(s, if y < m then y else m)
  {
    var least := if y < m then y else m;
    forall x | x in s
      ensures least <= x
    {
      if x != y {
        assert x in rest;
      }
    }
  }

  /** The least element of a non-empty set. */
  function Minimum(s: set<nat>): (m: nat)
    requires s != {}
    ensures IsLeast(s, m)
  {
    HasMinimum(s);
    var m :| IsLeast(s, m);
    m
  }

  predicate StrictlyIncreasing(xs: seq<nat>) {
    forall i, j :: 0 <= i < j < |xs| ==> xs[i] < xs[j]
  }

  /** The elements of `s` in ascending order, each exactly once. */
  function Ascending(s: set<nat>): (r: seq<nat>)
    ensures |r| == |s|
    ensures forall x :: x in r <==> x in s
    ensures StrictlyIncreasing(r)
    decreases |s|
  {
    if s == {} then []
    else
      var m := Minimum(s);
      var rest := Ascending(s - {m});
      assert forall i :: 0 <= i < |rest| ==> m < rest[i] by {
        forall i | 0 <= i < |rest|
          ensures m < rest[i]
        {
          assert rest[i] in s - {m};
        }
      }
      [m] + rest
  }

  // ---------------------------------------------------------------------
  // Sequences without repetitions, and their sets
  // ---------------------------------------------------------------------

  predicate Distinct(ks: seq<nat>) {
    forall i, j :: 0 <= i < j < |ks| ==> ks[i] != ks[j]
  }

  lemma LastNotEarlier(ks: seq<nat>)
    requires Distinct(ks) && |ks| > 0
    ensures ks[|ks| - 1] !in ks[..|ks| - 1]
  {
  }

  /** Appending keeps a sequence distinct exactly when the new element is
      not already there. */
  lemma DistinctSnoc(pre: seq<nat>, x: nat)
    ensures Distinct(pre + [x]) <==> Distinct(pre) && x !in pre
  {
    var xs := pre + [x];
    assert forall i :: 0 <= i < |pre| ==> xs[i] == pre[i];
    if x in pre {
      var i :| 0 <= i < |pre| && pre[i] == x;
      assert xs[i] == xs[|pre|];
    }
  }

  /** The set of elements of a sequence. */
  function Members(xs: seq<nat>): (r: set<nat>)
    ensures forall x :: x in r <==> x in xs
  {
    set x | x in xs
  }

  /** Distinct elements of a sequence make a set of the same size, and only
      they do. */
  lemma {:induction false} MembersCardinality(xs: seq<nat>)
    ensures |Members(xs)| <= |xs|
    ensures |Members(xs)| == |xs| <==> Distinct(xs)
  {
    if |xs| > 0 {
      var pre, last := xs[..|xs| - 1], xs[|xs| - 1];
      MembersCardinality(pre);
      assert xs == pre + [last];
      DistinctSnoc(pre, last);
      var a := Members(pre);
      assert Members(xs) == a + {last};
      if last in pre {
        assert Members(xs) == a;
      } else {
        assert a * {last} == {};
        assert |a + {last}| == |a| + 1;
      }
    }
  }

  /** The naturals below `n`. */
  function Range(n: nat): (r: set<nat>)
    ensures forall v: int :: v in r <==> 0 <= v < n
    ensures |r| == n
  {
    if n == 0 then {}
    else
      var r := Range(n - 1);
      assert r * {n - 1} == {};
      r + {n - 1}
  }
}
