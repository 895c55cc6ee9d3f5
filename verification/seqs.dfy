/** Sequence operations shared by the auditor's components: JavaScript's
    `Array.prototype.filter`, de-duplication through a `Set`, and unions of
    per-element id sets. */
module Seqs {

  /** `a` is obtained from `b` by deleting elements, without reordering the rest. */
  ghost predicate IsSubseq<T>(a: seq<T>, b: seq<T>)
    decreases |b|
  {
    if |a| == 0 then true
    else if |b| == 0 then false
    else (a[0] == b[0] && IsSubseq(a[1..], b[1..])) || IsSubseq(a, b[1..])
  }

  lemma {:induction false} SubseqLength<T>(a: seq<T>, b: seq<T>)
    requires IsSubseq(a, b)
    ensures |a| <= |b|
    decreases |b|
  {
    if |a| > 0 {
      if a[0] == b[0] && IsSubseq(a[1..], b[1..]) {
        SubseqLength(a[1..], b[1..]);
      } else {
        SubseqLength(a, b[1..]);
      }
    }
  }

  ghost predicate NoDup<T>(s: seq<T>)
  {
    forall i, j :: 0 <= i < j < |s| ==> s[i] != s[j]
  }

  /** `xs.filter(p)`: the elements satisfying `p`, every occurrence of each, in order. */
  function Filter<T(!new)>(xs: seq<T>, p: T -> bool): (r: seq<T>)
    ensures |r| <= |xs|
    ensures forall x :: x in r <==> x in xs && p(x)
  {
    if |xs| == 0 then []
    else
      var rest := Filter(xs[1..], p);
      assert xs == [xs[0]] + xs[1..];
      if p(xs[0]) then [xs[0]] + rest else rest
  }

  /** The filter keeps the survivors in their original order. */
  lemma {:induction false} FilterIsSubseq<T(!new)>(xs: seq<T>, p: T -> bool)
    ensures IsSubseq(Filter(xs, p), xs)
  {
    if |xs| > 0 {
      FilterIsSubseq(xs[1..], p);
      var rest := Filter(xs[1..], p);
      if p(xs[0]) {
        assert ([xs[0]] + rest)[1..] == rest;
      }
    }
  }

  lemma {:induction false} FilterConcat<T(!new)>(a: seq<T>, b: seq<T>, p: T -> bool)
    ensures Filter(a + b, p) == Filter(a, p) + Filter(b, p)
  {
    if |a| > 0 {
      assert (a + b)[0] == a[0];
      assert (a + b)[1..] == a[1..] + b;
      FilterConcat(a[1..], b, p);
      if p(a[0]) {
        calc {
          Filter(a + b, p);
          [a[0]] + Filter(a[1..] + b, p);
          [a[0]] + (Filter(a[1..], p) + Filter(b, p));
          ([a[0]] + Filter(a[1..], p)) + Filter(b, p);
        }
      }
    } else {
      assert a + b == b;
    }
  }

  /** A filter that rejects nothing returns its input unchanged. */
  lemma {:induction false} FilterKeepsAll<T(!new)>(xs: seq<T>, p: T -> bool)
    requires forall i :: 0 <= i < |xs| ==> p(xs[i])
    ensures Filter(xs, p) == xs
  {
    if |xs| > 0 {
      FilterKeepsAll(xs[1..], p);
      assert p(xs[0]);
      assert xs == [xs[0]] + xs[1..];
    }
  }

  /** Two tests that agree on every element filter alike. */
  lemma {:induction false} FilterExt<T(!new)>(xs: seq<T>, p: T -> bool, q: T -> bool)
    requires forall i :: 0 <= i < |xs| ==> p(xs[i]) == q(xs[i])
    ensures Filter(xs, p) == Filter(xs, q)
  {
    if |xs| > 0 {
      FilterExt(xs[1..], p, q);
      assert p(xs[0]) == q(xs[0]);
    }
  }

  /** Filtering twice by the same test is filtering once. */
  lemma FilterIdempotent<T(!new)>(xs: seq<T>, p: T -> bool)
    ensures Filter(Filter(xs, p), p) == Filter(xs, p)
  {
    var r := Filter(xs, p);
    assert forall i :: 0 <= i < |r| ==> p(r[i]) by {
      forall i | 0 <= i < |r|
        ensures p(r[i])
      {
        assert r[i] in r;
      }
    }
    FilterKeepsAll(r, p);
  }

  /** Keeps the first occurrence of each element not already in `seen`: the
      iteration order of `new Set(xs)` when `seen` is empty. */
  function DedupFrom<T(==,!new)>(xs: seq<T>, seen: set<T>): (r: seq<T>)
    ensures forall x :: x in r <==> x in xs && x !in seen
  {
    if |xs| == 0 then []
    else if xs[0] in seen then DedupFrom(xs[1..], seen)
    else
      assert xs == [xs[0]] + xs[1..];
      [xs[0]] + DedupFrom(xs[1..], seen + {xs[0]})
  }

  lemma {:induction false} DedupFromNoDup<T(!new)>(xs: seq<T>, seen: set<T>)
    ensures NoDup(DedupFrom(xs, seen))
  {
    if |xs| > 0 && xs[0] !in seen {
      DedupFromNoDup(xs[1..], seen + {xs[0]});
      var rest := DedupFrom(xs[1..], seen + {xs[0]});
      assert xs[0] !in rest;
      forall i, j | 0 <= i < j < |[xs[0]] + rest|
        ensures ([xs[0]] + rest)[i] != ([xs[0]] + rest)[j]
      {
        assert ([xs[0]] + rest)[j] == rest[j - 1];
        if i > 0 {
          assert ([xs[0]] + rest)[i] == rest[i - 1];
        }
      }
    } else if |xs| > 0 {
      DedupFromNoDup(xs[1..], seen);
    }
  }

  /** `[...new Set(xs)]` */
  function Dedup<T(==,!new)>(xs: seq<T>): (r: seq<T>)
    ensures NoDup(r)
    ensures forall x :: x in r <==> x in xs
  {
    DedupFromNoDup(xs, {});
    DedupFrom(xs, {})
  }

  /** Appending one item to the input appends it to the output exactly when
      it is new; with `Dedup([]) == []` this fixes the result of every input:
      the first occurrences, in the order of the input. */
  lemma DedupSnoc<T(!new)>(xs: seq<T>, x: T)
    ensures Dedup(xs + [x]) == if x in xs then Dedup(xs) else Dedup(xs) + [x]
  {
    DedupFromSnoc(xs, x, {});
  }

  lemma {:induction false} DedupFromSnoc<T(!new)>(xs: seq<T>, x: T, seen: set<T>)
    ensures DedupFrom(xs + [x], seen) ==
      if x in xs || x in seen then DedupFrom(xs, seen) else DedupFrom(xs, seen) + [x]
  {
    if |xs| == 0 {
      assert xs + [x] == [x] && [x][1..] == [];
    } else {
      assert (xs + [x])[0] == xs[0] && (xs + [x])[1..] == xs[1..] + [x];
      assert x in xs <==> x == xs[0] || x in xs[1..];
      if xs[0] in seen {
        DedupFromSnoc(xs[1..], x, seen);
      } else {
        DedupFromSnoc(xs[1..], x, seen + {xs[0]});
      }
    }
  }

  /** De-duplicating a duplicate-free prefix that is disjoint from `seen` keeps
      that prefix verbatim and in place. */
  lemma {:induction false} DedupKeepsDistinctPrefix<T(!new)>(a: seq<T>, b: seq<T>, seen: set<T>)
    requires NoDup(a)
    requires forall i :: 0 <= i < |a| ==> a[i] !in seen
    ensures DedupFrom(a + b, seen) == a + DedupFrom(b, seen + Elems(a))
  {
    if |a| == 0 {
      assert a + b == b;
      assert seen + Elems(a) == seen;
    } else {
      var seen' := seen + {a[0]};
      DistinctTail(a, seen);
      DedupKeepsDistinctPrefix(a[1..], b, seen');
      HeadTailOfConcat(a, b);
      ElemsOfTail(a, seen);
      var rest := DedupFrom(b, seen + Elems(a));
      assert DedupFrom(a[1..] + b, seen') == a[1..] + rest;
      assert DedupFrom(a + b, seen) == [a[0]] + (a[1..] + rest);
      ConsTail(a, rest);
    }
  }

  lemma DistinctTail<T>(a: seq<T>, seen: set<T>)
    requires |a| > 0 && NoDup(a)
    requires forall i :: 0 <= i < |a| ==> a[i] !in seen
    ensures NoDup(a[1..])
    ensures forall i :: 0 <= i < |a[1..]| ==> a[1..][i] !in seen + {a[0]}
  {
    forall i | 0 <= i < |a[1..]|
      ensures a[1..][i] !in seen + {a[0]}
    {
      assert a[1..][i] == a[i + 1];
    }
    forall i, j | 0 <= i < j < |a[1..]|
      ensures a[1..][i] != a[1..][j]
    {
      assert a[1..][i] == a[i + 1] && a[1..][j] == a[j + 1];
    }
  }

  lemma ElemsOfTail<T>(a: seq<T>, seen: set<T>)
    requires |a| > 0
    ensures (seen + {a[0]}) + Elems(a[1..]) == seen + Elems(a)
  {
    assert a == [a[0]] + a[1..];
  }

  lemma HeadTailOfConcat<T>(a: seq<T>, b: seq<T>)
    requires |a| > 0
    ensures (a + b)[0] == a[0] && (a + b)[1..] == a[1..] + b
  {
  }

  lemma ConsTail<T>(a: seq<T>, rest: seq<T>)
    requires |a| > 0
    ensures [a[0]] + (a[1..] + rest) == a + rest
  {
    assert a == [a[0]] + a[1..];
  }

  /** De-duplicating a duplicate-free sequence changes nothing. */
  lemma DedupOfDistinct<T(!new)>(xs: seq<T>)
    requires NoDup(xs)
    ensures Dedup(xs) == xs
  {
    DedupKeepsDistinctPrefix(xs, [], {});
    assert xs + [] == xs;
  }

  /** The subsequence of a pair that holds the first element and not the second is the first alone. */
  lemma OnlyFirstOfPair<T>(r: seq<T>, x: T, y: T)
    requires IsSubseq(r, [x, y]) && x in r && y !in r
    ensures r == [x]
  {
    assert [x, y][1..] == [y] && [y][1..] == [];
    assert |r| > 0 && r[0] in r;
    assert r[0] != y;
    assert !IsSubseq(r, []);
    assert !IsSubseq(r, [y]);
    assert r[0] == x && IsSubseq(r[1..], [y]);
    var rest := r[1..];
    assert IsSubseq(rest, [y]);
    assert |rest| > 0 ==> !IsSubseq(rest, []);
    assert |rest| == 0;
    assert r == [r[0]] + r[1..];
  }

  /** A sequence is empty exactly when nothing is in it. */
  lemma EmptyIffNoMember<T>(s: seq<T>)
    ensures |s| == 0 <==> forall x :: x !in s
  {
    if |s| > 0 {
      assert s[0] in s;
    }
  }

  /** The set of elements of a sequence. */
  ghost function Elems<T>(s: seq<T>): set<T>
  {
    set x | x in s
  }

  /** The union of `f(x)` over the elements `x` of `xs`. */
  function UnionOver<T, U>(xs: seq<T>, f: T -> set<U>): set<U>
  {
    if |xs| == 0 then {} else f(xs[0]) + UnionOver(xs[1..], f)
  }

  /** `u` is in the union exactly when it is in `f(x)` for some element `x`. */
  lemma {:induction false} UnionOverMeaning<T, U>(xs: seq<T>, f: T -> set<U>, u: U)
    ensures u in UnionOver(xs, f) <==> exists x :: x in xs && u in f(x)
  {
    if |xs| > 0 {
      UnionOverMeaning(xs[1..], f, u);
      assert xs == [xs[0]] + xs[1..];
    }
  }

  lemma UnionOverSingle<T, U>(x: T, f: T -> set<U>)
    ensures UnionOver([x], f) == f(x)
  {
    assert [x][1..] == [];
  }

  lemma {:induction false} UnionOverAppend<T, U>(xs: seq<T>, x: T, f: T -> set<U>)
    ensures UnionOver(xs + [x], f) == UnionOver(xs, f) + f(x)
  {
    if |xs| > 0 {
      HeadTailOfConcat(xs, [x]);
      UnionOverAppend(xs[1..], x, f);
    } else {
      assert xs + [x] == [x];
    }
  }

  /** `xs.map(f)` */
  function Map<T, U>(xs: seq<T>, f: T -> U): (r: seq<U>)
    ensures |r| == |xs|
    ensures forall i :: 0 <= i < |xs| ==> r[i] == f(xs[i])
  {
    seq(|xs|, i requires 0 <= i < |xs| => f(xs[i]))
  }
}
