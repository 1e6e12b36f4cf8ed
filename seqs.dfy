/**
  The list comprehension `[x for x in s if p(x)]` and `list(filter(p, s))`,
  with the facts the catalog's views and searches are built on: it keeps
  exactly the elements that satisfy `p`, each as often as in `s`, in the
  order of `s`.
 */
module Seqs {

  function Filter<T>(s: seq<T>, p: T -> bool): seq<T>
  {
    if s == [] then []
    else Filter(s[..|s| - 1], p) + (if p(s[|s| - 1]) then [s[|s| - 1]] else [])
  }

  /** Filtering a list extended by one element extends the filtered list by that element when it is kept. */
  lemma FilterSnoc<T>(s: seq<T>, x: T, p: T -> bool)
    ensures Filter(s + [x], p) == Filter(s, p) + (if p(x) then [x] else [])
  {
    assert (s + [x])[..|s|] == s;
  }

  /** Filtering a three-element list, element by element. */
  lemma FilterThree<T>(x: T, y: T, z: T, p: T -> bool)
    ensures Filter([x, y, z], p) ==
      (if p(x) then [x] else []) + (if p(y) then [y] else []) + (if p(z) then [z] else [])
  {
    FilterSnoc([], x, p);
    FilterSnoc([x], y, p);
    FilterSnoc([x, y], z, p);
    assert [x] + [y] == [x, y] && [x, y] + [z] == [x, y, z];
  }

  lemma {:induction false} FilterConcat<T>(a: seq<T>, b: seq<T>, p: T -> bool)
    ensures Filter(a + b, p) == Filter(a, p) + Filter(b, p)
    decreases |b|
  {
    if b == [] {
      assert a + b == a;
    } else {
      var b' := b[..|b| - 1];
      assert a + b == (a + b') + [b[|b| - 1]];
      assert b == b' + [b[|b| - 1]];
      FilterConcat(a, b', p);
      FilterSnoc(a + b', b[|b| - 1], p);
      FilterSnoc(b', b[|b| - 1], p);
    }
  }

  /** An element is in the filtered list exactly when it is in `s` and satisfies `p`. */
  lemma {:induction false} FilterMembers<T>(s: seq<T>, p: T -> bool)
    ensures forall x :: x in Filter(s, p) ==> x in s && p(x)
    ensures forall x :: x in s && p(x) ==> x in Filter(s, p)
  {
    if s != [] {
      var s' := s[..|s| - 1];
      assert s == s' + [s[|s| - 1]];
      FilterMembers(s', p);
    }
  }

  /** Each element satisfying `p` is kept as many times as it occurs; the others are dropped. */
  lemma {:induction false} FilterCounts<T>(s: seq<T>, p: T -> bool)
    ensures forall x :: multiset(Filter(s, p))[x] == if p(x) then multiset(s)[x] else 0
  {
    if s != [] {
      var s' := s[..|s| - 1];
      assert s == s' + [s[|s| - 1]];
      assert multiset(s) == multiset(s') + multiset([s[|s| - 1]]);
      FilterCounts(s', p);
    }
  }

  /** Nothing is kept exactly when no element satisfies `p`. */
  lemma {:induction false} FilterEmpty<T>(s: seq<T>, p: T -> bool)
    ensures Filter(s, p) == [] <==> forall i :: 0 <= i < |s| ==> !p(s[i])
  {
    FilterMembers(s, p);
    if Filter(s, p) != [] {
      var x := Filter(s, p)[0];
      assert x in Filter(s, p);
      var i :| 0 <= i < |s| && s[i] == x;
      assert p(s[i]);
    }
    if Filter(s, p) == [] {
      forall i | 0 <= i < |s| ensures !p(s[i]) {
        assert s[i] in s;
      }
    }
  }

  /**
    The filtered list is the subsequence of `s` at the positions whose
    element satisfies `p`, taken in increasing order: this pins the
    result down completely.
   */
  lemma FilterPositions<T>(s: seq<T>, p: T -> bool) returns (pos: seq<nat>)
    ensures |pos| == |Filter(s, p)|
    ensures forall k :: 0 <= k < |pos| ==> pos[k] < |s| && Filter(s, p)[k] == s[pos[k]]
    ensures forall k, l :: 0 <= k < l < |pos| ==> pos[k] < pos[l]
    ensures forall i :: 0 <= i < |s| ==> (p(s[i]) <==> i in pos)
  {
    pos := Hits(s, p);
    HitsSelect(s, p);
    HitsIncreasing(s, p);
    HitsExact(s, p);
  }

  /** The positions of `s` whose element satisfies `p`, one per kept element. */
  function Hits<T>(s: seq<T>, p: T -> bool): (pos: seq<nat>)
    ensures |pos| == |Filter(s, p)|
    ensures forall k :: 0 <= k < |pos| ==> pos[k] < |s|
  {
    if s == [] then []
    else Hits(s[..|s| - 1], p) + (if p(s[|s| - 1]) then [|s| - 1] else [])
  }

  /** The k-th kept element is the element at the k-th position. */
  lemma {:induction false} HitsSelect<T>(s: seq<T>, p: T -> bool)
    ensures forall k :: 0 <= k < |Hits(s, p)| ==> Filter(s, p)[k] == s[Hits(s, p)[k]]
  {
    if s != [] {
      var s' := s[..|s| - 1];
      HitsSelect(s', p);
      forall k | 0 <= k < |Hits(s, p)|
        ensures Filter(s, p)[k] == s[Hits(s, p)[k]]
      {
        if k < |Hits(s', p)| {
          assert Hits(s, p)[k] == Hits(s', p)[k] && Filter(s, p)[k] == Filter(s', p)[k];
          assert s'[Hits(s', p)[k]] == s[Hits(s', p)[k]];
        }
      }
    }
  }

  /** The positions come in increasing order. */
  lemma {:induction false} HitsIncreasing<T>(s: seq<T>, p: T -> bool)
    ensures forall k, l :: 0 <= k < l < |Hits(s, p)| ==> Hits(s, p)[k] < Hits(s, p)[l]
  {
    if s != [] {
      HitsIncreasing(s[..|s| - 1], p);
    }
  }

  /** A position is listed exactly when its element satisfies `p`. */
  lemma {:induction false} HitsExact<T>(s: seq<T>, p: T -> bool)
    ensures forall i :: 0 <= i < |s| ==> (p(s[i]) <==> i in Hits(s, p))
  {
    if s != [] {
      var s' := s[..|s| - 1];
      HitsExact(s', p);
      forall i | 0 <= i < |s|
        ensures p(s[i]) <==> i in Hits(s, p)
      {
        if i < |s'| {
          assert s[i] == s'[i];
          assert i in Hits(s, p) <==> i in Hits(s', p);
        }
      }
    }
  }

  /** The filtered list is never longer than the list filtered. */
  lemma {:induction false} FilterLength<T>(s: seq<T>, p: T -> bool)
    ensures |Filter(s, p)| <= |s|
  {
    if s != [] {
      FilterLength(s[..|s| - 1], p);
    }
  }

  /** Two conditions that agree on every element of `s` filter it alike. */
  lemma {:induction false} FilterAgree<T>(s: seq<T>, p: T -> bool, q: T -> bool)
    requires forall i :: 0 <= i < |s| ==> p(s[i]) == q(s[i])
    ensures Filter(s, p) == Filter(s, q)
  {
    if s != [] {
      FilterAgree(s[..|s| - 1], p, q);
    }
  }
}
