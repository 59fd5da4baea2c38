/** Filtering, sorting and paging sequences, as a database does with the rows of a table. */
module Sequences {
  import opened Wrappers

  function Kept<T(!new)>(xs: seq<T>, keep: T -> bool): (r: seq<T>)
    ensures forall x :: x in r <==> x in xs && keep(x)
    ensures |r| <= |xs|
  {
    if xs == [] then []
    else if keep(xs[0]) then [xs[0]] + Kept(xs[1..], keep)
    else Kept(xs[1..], keep)
  }

  function Map<T(!new), U(!new)>(xs: seq<T>, f: T -> U): (r: seq<U>)
    ensures |r| == |xs|
    ensures forall i :: 0 <= i < |xs| ==> r[i] == f(xs[i])
  {
    seq(|xs|, i requires 0 <= i < |xs| => f(xs[i]))
  }

  predicate Distinct<T(==, !new)>(xs: seq<T>) {
    forall i, j :: 0 <= i < j < |xs| ==> xs[i] != xs[j]
  }

  lemma {:induction false} KeptAppend<T(!new)>(xs: seq<T>, ys: seq<T>, keep: T -> bool)
    ensures Kept(xs + ys, keep) == Kept(xs, keep) + Kept(ys, keep)
  {
    if xs == [] {
      assert xs + ys == ys;
    } else {
      assert xs + ys == [xs[0]] + (xs[1..] + ys);
      KeptAppend(xs[1..], ys, keep);
    }
  }

  lemma {:induction false} KeptAll<T(!new)>(xs: seq<T>, keep: T -> bool)
    requires forall x :: x in xs ==> keep(x)
    ensures Kept(xs, keep) == xs
  {
    if xs != [] {
      KeptAll(xs[1..], keep);
    }
  }

  lemma {:induction false} KeptNone<T(!new)>(xs: seq<T>, keep: T -> bool)
    requires forall x :: x in xs ==> !keep(x)
    ensures Kept(xs, keep) == []
  {
    if xs != [] {
      KeptNone(xs[1..], keep);
    }
  }

  lemma {:induction false} KeptKept<T(!new)>(xs: seq<T>, p: T -> bool, q: T -> bool, both: T -> bool)
    requires forall x :: x in xs ==> (both(x) <==> p(x) && q(x))
    ensures Kept(Kept(xs, p), q) == Kept(xs, both)
  {
    if xs != [] {
      KeptKept(xs[1..], p, q, both);
    }
  }

  /** Keeping all but one takes that one out. */
  lemma {:induction false} KeptAllBut<T(!new)>(xs: seq<T>, keep: T -> bool, i: nat)
    requires i < |xs| && forall j :: 0 <= j < |xs| ==> (keep(xs[j]) <==> j != i)
    ensures Kept(xs, keep) == xs[..i] + xs[i + 1..]
  {
    if i == 0 {
      KeptAll(xs[1..], keep);
    } else {
      KeptAllBut(xs[1..], keep, i - 1);
      assert xs[..i] + xs[i + 1..] == [xs[0]] + (xs[1..][..i - 1] + xs[1..][i..]);
    }
  }

  lemma {:induction false} KeptSame<T(!new)>(xs: seq<T>, p: T -> bool, q: T -> bool)
    requires forall x :: x in xs ==> (p(x) <==> q(x))
    ensures Kept(xs, p) == Kept(xs, q)
  {
    if xs != [] {
      KeptSame(xs[1..], p, q);
    }
  }

  /** Filtering images is mapping the filtered. */
  lemma {:induction false} KeptMap<T(!new), U(!new)>(xs: seq<T>, f: T -> U, p: U -> bool, q: T -> bool)
    requires forall x :: x in xs ==> (q(x) <==> p(f(x)))
    ensures Kept(Map(xs, f), p) == Map(Kept(xs, q), f)
  {
    if xs == [] {
    } else {
      KeptMap(xs[1..], f, p, q);
      assert Map(xs, f) == [f(xs[0])] + Map(xs[1..], f) && Map(xs, f)[1..] == Map(xs[1..], f);
      if q(xs[0]) {
        MapAppend([xs[0]], Kept(xs[1..], q), f);
        assert Map([xs[0]], f) == [f(xs[0])];
      }
    }
  }

  lemma MapAppend<T(!new), U(!new)>(xs: seq<T>, ys: seq<T>, f: T -> U)
    ensures Map(xs + ys, f) == Map(xs, f) + Map(ys, f)
  {
  }

  // ---- sorting ----

  predicate Ordered<T(!new)>(xs: seq<T>, leq: (T, T) -> bool) {
    forall i, j :: 0 <= i < j < |xs| ==> leq(xs[i], xs[j])
  }

  /** Total and transitive; two elements may tie. */
  ghost predicate Preorder<T(!new)>(leq: (T, T) -> bool) {
    && (forall a, b :: leq(a, b) || leq(b, a))
    && (forall a, b, c :: leq(a, b) && leq(b, c) ==> leq(a, c))
  }

  function Insert<T(!new)>(x: T, xs: seq<T>, leq: (T, T) -> bool): (r: seq<T>)
    ensures multiset(r) == multiset{x} + multiset(xs)
    ensures |r| == |xs| + 1
  {
    if xs == [] || leq(x, xs[0]) then [x] + xs
    else
      assert xs == [xs[0]] + xs[1..];
      [xs[0]] + Insert(x, xs[1..], leq)
  }

  /** The stable sort: elements that tie keep their order. */
  function Sort<T(!new)>(xs: seq<T>, leq: (T, T) -> bool): (r: seq<T>)
    ensures multiset(r) == multiset(xs)
    ensures |r| == |xs|
  {
    if xs == [] then []
    else
      assert xs == [xs[0]] + xs[1..];
      Insert(xs[0], Sort(xs[1..], leq), leq)
  }

  lemma SortMember<T(!new)>(xs: seq<T>, leq: (T, T) -> bool)
    ensures forall x :: x in Sort(xs, leq) <==> x in xs
  {
    assert forall x :: x in Sort(xs, leq) <==> x in multiset(Sort(xs, leq));
    assert forall x :: x in xs <==> x in multiset(xs);
  }

  lemma {:induction false} InsertOrdered<T(!new)>(x: T, xs: seq<T>, leq: (T, T) -> bool)
    requires Preorder(leq) && Ordered(xs, leq)
    ensures Ordered(Insert(x, xs, leq), leq)
  {
    if xs != [] && !leq(x, xs[0]) {
      var rest := Insert(x, xs[1..], leq);
      InsertOrdered(x, xs[1..], leq);
      forall j | 0 <= j < |rest| ensures leq(xs[0], rest[j]) {
        assert rest[j] in multiset(rest);
        assert rest[j] == x || rest[j] in xs[1..];
      }
    }
  }

  lemma {:induction false} SortOrdered<T(!new)>(xs: seq<T>, leq: (T, T) -> bool)
    requires Preorder(leq)
    ensures Ordered(Sort(xs, leq), leq)
  {
    if xs != [] {
      SortOrdered(xs[1..], leq);
      InsertOrdered(xs[0], Sort(xs[1..], leq), leq);
    }
  }

  lemma {:induction false} SortIdentity<T(!new)>(xs: seq<T>, leq: (T, T) -> bool)
    requires Ordered(xs, leq)
    ensures Sort(xs, leq) == xs
  {
    if xs != [] {
      SortIdentity(xs[1..], leq);
    }
  }

  lemma SameHead<T(!new)>(xs: seq<T>, ys: seq<T>, leq: (T, T) -> bool)
    requires xs != [] && multiset(xs) == multiset(ys) && Ordered(xs, leq) && Ordered(ys, leq)
    requires forall a, b :: leq(a, b) && leq(b, a) ==> a == b
    ensures ys != [] && xs[0] == ys[0]
  {
    assert xs[0] in multiset(ys);
    assert ys[0] in multiset(xs);
    var i :| 0 <= i < |ys| && ys[i] == xs[0];
    var j :| 0 <= j < |xs| && xs[j] == ys[0];
  }

  /** An order without ties leaves a database no choice: one sequence alone is sorted. */
  lemma {:induction false} SortedIsUnique<T(!new)>(xs: seq<T>, ys: seq<T>, leq: (T, T) -> bool)
    requires multiset(xs) == multiset(ys) && Ordered(xs, leq) && Ordered(ys, leq)
    requires forall a, b :: leq(a, b) && leq(b, a) ==> a == b
    ensures xs == ys
  {
    assert |multiset(xs)| == |xs| && |multiset(ys)| == |ys|;
    if xs != [] {
      SameHead(xs, ys, leq);
      assert xs == [xs[0]] + xs[1..] && ys == [xs[0]] + ys[1..];
      assert multiset(xs[1..]) == multiset(xs) - multiset{xs[0]};
      assert multiset(ys[1..]) == multiset(ys) - multiset{xs[0]};
      SortedIsUnique(xs[1..], ys[1..], leq);
    }
  }

  lemma {:induction false} InsertFirst<T(!new)>(x: T, xs: seq<T>, leq: (T, T) -> bool)
    requires forall y :: y in xs ==> leq(x, y)
    ensures Insert(x, xs, leq) == [x] + xs
  {
  }

  lemma {:induction false} InsertKept<T(!new)>(x: T, xs: seq<T>, leq: (T, T) -> bool, keep: T -> bool)
    requires Preorder(leq) && Ordered(xs, leq)
    ensures Kept(Insert(x, xs, leq), keep) ==
            if keep(x) then Insert(x, Kept(xs, keep), leq) else Kept(xs, keep)
  {
    if xs == [] {
    } else if leq(x, xs[0]) {
      assert ([x] + xs)[1..] == xs;
      forall y | y in Kept(xs, keep) ensures leq(x, y) {
        var j :| 0 <= j < |xs| && xs[j] == y;
      }
      InsertFirst(x, Kept(xs, keep), leq);
    } else {
      var inserted := Insert(x, xs[1..], leq);
      InsertKept(x, xs[1..], leq, keep);
      assert ([xs[0]] + inserted)[1..] == inserted;
      assert ([xs[0]] + Kept(xs[1..], keep))[1..] == Kept(xs[1..], keep);
    }
  }

  /** A stable sort of the rows a filter keeps is what the filter keeps of the sorted rows. */
  lemma {:induction false} SortKept<T(!new)>(xs: seq<T>, leq: (T, T) -> bool, keep: T -> bool)
    requires Preorder(leq)
    ensures Kept(Sort(xs, leq), keep) == Sort(Kept(xs, keep), leq)
  {
    if xs != [] {
      SortKept(xs[1..], leq, keep);
      SortOrdered(xs[1..], leq);
      InsertKept(xs[0], Sort(xs[1..], leq), leq, keep);
      assert ([xs[0]] + Kept(xs[1..], keep))[1..] == Kept(xs[1..], keep);
    }
  }

  lemma MapCons<T(!new), U(!new)>(x: T, xs: seq<T>, f: T -> U)
    ensures Map([x] + xs, f) == [f(x)] + Map(xs, f)
  {
  }

  lemma {:induction false} InsertMap<T(!new), U(!new)>(x: T, xs: seq<T>, f: T -> U, below: (T, T) -> bool, leq: (U, U) -> bool)
    requires forall y :: y in xs ==> (below(x, y) <==> leq(f(x), f(y)))
    ensures Map(Insert(x, xs, below), f) == Insert(f(x), Map(xs, f), leq)
  {
    if xs == [] || below(x, xs[0]) {
      MapCons(x, xs, f);
    } else {
      InsertMap(x, xs[1..], f, below, leq);
      assert xs == [xs[0]] + xs[1..];
      MapCons(xs[0], xs[1..], f);
      MapCons(xs[0], Insert(x, xs[1..], below), f);
    }
  }

  /** Sorting images is mapping the sorted, if each element compares with the later ones as its image does. */
  lemma {:induction false} SortMap<T(!new), U(!new)>(xs: seq<T>, f: T -> U, below: (T, T) -> bool, leq: (U, U) -> bool)
    requires forall i, j :: 0 <= i < j < |xs| ==> (below(xs[i], xs[j]) <==> leq(f(xs[i]), f(xs[j])))
    ensures Map(Sort(xs, below), f) == Sort(Map(xs, f), leq)
  {
    if xs != [] {
      SortMap(xs[1..], f, below, leq);
      SortMember(xs[1..], below);
      assert Map(xs, f)[1..] == Map(xs[1..], f);
      forall y | y in Sort(xs[1..], below) ensures below(xs[0], y) <==> leq(f(xs[0]), f(y)) {
        var j :| 1 <= j < |xs| && xs[j] == y;
      }
      InsertMap(xs[0], Sort(xs[1..], below), f, below, leq);
    }
  }

  // ---- pages ----

  /** OFFSET skip LIMIT limit, where no limit keeps every row. */
  function Page<T(!new)>(xs: seq<T>, skip: nat, limit: Option<nat>): (r: seq<T>)
    ensures |r| <= |xs|
  {
    var rest := if skip <= |xs| then xs[skip..] else [];
    if limit.Some? && limit.value < |rest| then rest[..limit.value] else rest
  }

  function Sum(sizes: seq<nat>): nat {
    if sizes == [] then 0 else sizes[0] + Sum(sizes[1..])
  }

  /** A page is followed by the page that skips it too. */
  lemma PageSplit<T(!new)>(xs: seq<T>, skip: nat, a: nat, b: nat)
    ensures Page(xs, skip, Some(a)) + Page(xs, skip + a, Some(b)) == Page(xs, skip, Some(a + b))
  {
  }

  /** The pages of the given sizes, each skipping the rows of those before it. */
  function Pages<T(!new)>(xs: seq<T>, skip: nat, sizes: seq<nat>): (r: seq<T>)
    decreases sizes
  {
    if sizes == [] then []
    else Page(xs, skip, Some(sizes[0])) + Pages(xs, skip + sizes[0], sizes[1..])
  }

  lemma {:induction false} PagesConcatenate<T(!new)>(xs: seq<T>, skip: nat, sizes: seq<nat>)
    ensures Pages(xs, skip, sizes) == Page(xs, skip, Some(Sum(sizes)))
    decreases sizes
  {
    if sizes != [] {
      PagesConcatenate(xs, skip + sizes[0], sizes[1..]);
      PageSplit(xs, skip, sizes[0], Sum(sizes[1..]));
    }
  }
}
