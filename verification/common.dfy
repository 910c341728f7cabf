/** Failure-carrying wrappers and the list combinators the views are built from. */
module Common {

  datatype Option<+T> = None | Some(value: T)

  datatype Result<+T, +E> = Ok(value: T) | Err(error: E)

  /** `a` can be obtained from `b` by deleting elements, keeping the order of the rest. */
  predicate Subseq<T(==)>(a: seq<T>, b: seq<T>)
    decreases |b|
  {
    |a| == 0 || (|b| > 0 && ((a[0] == b[0] && Subseq(a[1..], b[1..])) || Subseq(a, b[1..])))
  }

  /** The elements of `s` that satisfy `p`, in their original order (`Array.prototype.filter`). */
  function Filter<T>(s: seq<T>, p: T -> bool): (r: seq<T>)
    ensures |r| <= |s|
    ensures forall i :: 0 <= i < |r| ==> p(r[i]) && r[i] in s
    ensures forall x :: x in s && p(x) ==> x in r
    decreases |s|
  {
    if |s| == 0 then [] else (if p(s[0]) then [s[0]] else []) + Filter(s[1..], p)
  }

  lemma {:induction false} FilterIsSubseq<T>(s: seq<T>, p: T -> bool)
    ensures Subseq(Filter(s, p), s)
    decreases |s|
  {
    if |s| > 0 {
      FilterIsSubseq(s[1..], p);
      var r := Filter(s, p);
      if p(s[0]) {
        assert r[0] == s[0] && r[1..] == Filter(s[1..], p);
      } else {
        assert r == Filter(s[1..], p);
      }
    }
  }

  /** Filtering by a predicate and by its negation splits `s` exactly. */
  lemma {:induction false} FilterSplit<T>(s: seq<T>, p: T -> bool, q: T -> bool)
    requires forall x :: q(x) == !p(x)
    ensures multiset(Filter(s, p)) + multiset(Filter(s, q)) == multiset(s)
    ensures |Filter(s, p)| + |Filter(s, q)| == |s|
    decreases |s|
  {
    if |s| > 0 {
      FilterSplit(s[1..], p, q);
      assert s == [s[0]] + s[1..];
    }
  }

  /** Three predicates of which exactly one holds for every element split `s` three ways. */
  lemma FilterSplit3<T>(s: seq<T>, p: T -> bool, q: T -> bool, r: T -> bool)
    requires forall x :: (p(x) && !q(x) && !r(x)) || (!p(x) && q(x) && !r(x)) || (!p(x) && !q(x) && r(x))
    ensures multiset(Filter(s, p)) + multiset(Filter(s, q)) + multiset(Filter(s, r)) == multiset(s)
    ensures |Filter(s, p)| + |Filter(s, q)| + |Filter(s, r)| == |s|
  {
    var none := (x: T) => false;
    forall i | 0 <= i < |s|
      ensures OneOfFour(s[i], p, q, r, none)
    {
    }
    FilterSplit4Bags(s, p, q, r, none);
    FilterDropsAll(s, none);
  }

  /** Exactly one of the four predicates holds of `x`. */
  predicate OneOfFour<T>(x: T, p: T -> bool, q: T -> bool, r: T -> bool, o: T -> bool) {
    || (p(x) && !q(x) && !r(x) && !o(x))
    || (!p(x) && q(x) && !r(x) && !o(x))
    || (!p(x) && !q(x) && r(x) && !o(x))
    || (!p(x) && !q(x) && !r(x) && o(x))
  }

  /** Four predicates of which exactly one holds for every element split `s` four ways. */
  lemma FilterSplit4<T>(s: seq<T>, p: T -> bool, q: T -> bool, r: T -> bool, o: T -> bool)
    requires forall i :: 0 <= i < |s| ==> OneOfFour(s[i], p, q, r, o)
    ensures multiset(Filter(s, p)) + multiset(Filter(s, q)) + multiset(Filter(s, r)) + multiset(Filter(s, o)) == multiset(s)
    ensures |Filter(s, p)| + |Filter(s, q)| + |Filter(s, r)| + |Filter(s, o)| == |s|
  {
    FilterSplit4Bags(s, p, q, r, o);
  }

  lemma {:induction false} FilterSplit4Bags<T>(s: seq<T>, p: T -> bool, q: T -> bool, r: T -> bool, o: T -> bool)
    requires forall i :: 0 <= i < |s| ==> OneOfFour(s[i], p, q, r, o)
    ensures multiset(Filter(s, p)) + multiset(Filter(s, q)) + multiset(Filter(s, r)) + multiset(Filter(s, o)) == multiset(s)
    decreases |s|
  {
    if |s| > 0 {
      var x, t := s[0], s[1..];
      var a, b, c, d := multiset(Filter(t, p)), multiset(Filter(t, q)), multiset(Filter(t, r)), multiset(Filter(t, o));
      assert a + b + c + d == multiset(t) by {
        assert forall i :: 0 <= i < |t| ==> t[i] == s[i + 1];
        FilterSplit4Bags(t, p, q, r, o);
      }
      assert multiset(s) == multiset{x} + multiset(t) by {
        assert s == [x] + t;
      }
      assert OneOfFour(x, p, q, r, o);
      FilterCons(s, p);
      FilterCons(s, q);
      FilterCons(s, r);
      FilterCons(s, o);
      AddToOneOfFour(x, a, b, c, d, p(x), q(x), r(x), o(x));
    }
  }

  /** Adding `x` to whichever one of four bags it belongs to adds it once to their sum. */
  lemma AddToOneOfFour<T>(x: T, a: multiset<T>, b: multiset<T>, c: multiset<T>, d: multiset<T>, pa: bool, pb: bool, pc: bool, pd: bool)
    requires (pa && !pb && !pc && !pd) || (!pa && pb && !pc && !pd) || (!pa && !pb && pc && !pd) || (!pa && !pb && !pc && pd)
    ensures (if pa then multiset{x} else multiset{}) + a + ((if pb then multiset{x} else multiset{}) + b)
          + ((if pc then multiset{x} else multiset{}) + c) + ((if pd then multiset{x} else multiset{}) + d)
         == multiset{x} + (a + b + c + d)
  {
  }

  /** One step of `Filter`, in the form the counting lemmas use. */
  lemma FilterCons<T>(s: seq<T>, p: T -> bool)
    requires |s| > 0
    ensures multiset(Filter(s, p)) == (if p(s[0]) then multiset{s[0]} else multiset{}) + multiset(Filter(s[1..], p))
    ensures |Filter(s, p)| == (if p(s[0]) then 1 else 0) + |Filter(s[1..], p)|
  {
  }

  /** Filtering by a stronger predicate keeps a subsequence of what the weaker one keeps. */
  lemma {:induction false} FilterMonotone<T>(s: seq<T>, p: T -> bool, q: T -> bool)
    requires forall x :: p(x) ==> q(x)
    ensures Subseq(Filter(s, p), Filter(s, q))
    decreases |s|
  {
    if |s| > 0 {
      FilterMonotone(s[1..], p, q);
      var a, b := Filter(s, p), Filter(s, q);
      if p(s[0]) {
        assert a[0] == b[0] && a[1..] == Filter(s[1..], p) && b[1..] == Filter(s[1..], q);
      } else if q(s[0]) {
        assert a == Filter(s[1..], p) && b[1..] == Filter(s[1..], q);
      } else {
        assert a == Filter(s[1..], p) && b == Filter(s[1..], q);
      }
    }
  }

  /** Predicates that agree on every element filter alike. */
  lemma {:induction false} FilterExt<T>(s: seq<T>, p: T -> bool, q: T -> bool)
    requires forall i :: 0 <= i < |s| ==> p(s[i]) == q(s[i])
    ensures Filter(s, p) == Filter(s, q)
    decreases |s|
  {
    if |s| > 0 {
      FilterExt(s[1..], p, q);
    }
  }

  /** A predicate that holds of every element keeps the whole sequence. */
  lemma {:induction false} FilterKeepsAll<T>(s: seq<T>, p: T -> bool)
    requires forall i :: 0 <= i < |s| ==> p(s[i])
    ensures Filter(s, p) == s
    decreases |s|
  {
    if |s| > 0 {
      FilterKeepsAll(s[1..], p);
      assert s == [s[0]] + s[1..];
    }
  }

  /** Filtering distributes over concatenation. */
  lemma {:induction false} FilterAppend<T>(a: seq<T>, b: seq<T>, p: T -> bool)
    ensures Filter(a + b, p) == Filter(a, p) + Filter(b, p)
    decreases |a|
  {
    if |a| > 0 {
      assert (a + b)[1..] == a[1..] + b;
      FilterAppend(a[1..], b, p);
    } else {
      assert a + b == b;
    }
  }

  /** Concatenation regroups freely. */
  lemma AppendAssoc<T>(a: seq<T>, b: seq<T>, c: seq<T>)
    ensures a + b + c == a + (b + c)
  {
  }

  /** Filtering by a weaker predicate first changes nothing about what a stronger one keeps. */
  lemma {:induction false} FilterNarrow<T>(s: seq<T>, p: T -> bool, q: T -> bool)
    requires forall x :: q(x) ==> p(x)
    ensures Filter(Filter(s, p), q) == Filter(s, q)
    decreases |s|
  {
    if |s| > 0 {
      FilterNarrow(s[1..], p, q);
      if p(s[0]) {
        var f := Filter(s, p);
        assert f[0] == s[0] && f[1..] == Filter(s[1..], p);
        assert Filter(f, q) == (if q(s[0]) then [s[0]] else []) + Filter(Filter(s[1..], p), q);
      } else {
        assert Filter(s, p) == Filter(s[1..], p);
        assert !q(s[0]);
      }
    }
  }

  /** A predicate that holds of no element keeps nothing. */
  lemma {:induction false} FilterDropsAll<T>(s: seq<T>, p: T -> bool)
    requires forall i :: 0 <= i < |s| ==> !p(s[i])
    ensures Filter(s, p) == []
    decreases |s|
  {
    if |s| > 0 {
      FilterDropsAll(s[1..], p);
    }
  }

  /** `Filter` with its two guarantees stated together: exactly the members satisfying `p`, in order. */
  function Select<T(==)>(s: seq<T>, p: T -> bool): (r: seq<T>)
    ensures forall x :: x in r ==> x in s && p(x)
    ensures forall x :: x in s && p(x) ==> x in r
    ensures Subseq(r, s)
  {
    FilterIsSubseq(s, p);
    Filter(s, p)
  }
}
