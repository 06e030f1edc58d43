/**
  List building blocks the web script uses: keeping the elements that pass a
  test (a loop with `continue`, or a comprehension with `if`), and Python's
  stable `sorted(..., key=..., reverse=True)` on a string key.
 */
module Seqs {
  import opened Options
  import opened Text

  // ---------------------------------------------------------------------------
  // Keeping the elements that pass a test

  /** The elements of `xs` that satisfy `keep`, in their order. */
  function Select<T>(xs: seq<T>, keep: T -> bool): (r: seq<T>)
    ensures |r| <= |xs|
  {
    if |xs| == 0 then []
    else Select(xs[..|xs| - 1], keep) + (if keep(xs[|xs| - 1]) then [xs[|xs| - 1]] else [])
  }

  /** One more element of the loop: the prefix of length `i + 1` from the prefix of length `i`. */
  lemma SelectStep<T>(xs: seq<T>, i: nat, keep: T -> bool)
    requires i < |xs|
    ensures Select(xs[..i + 1], keep) == Select(xs[..i], keep) + (if keep(xs[i]) then [xs[i]] else [])
  {
    assert xs[..i + 1][..i] == xs[..i];
  }

  /** `a` is `b` with some elements left out, the rest in the same order. */
  predicate SubSeq<T(==)>(a: seq<T>, b: seq<T>)
    decreases |b|
  {
    if |a| == 0 then true
    else if |b| == 0 then false
    else if a[|a| - 1] == b[|b| - 1] then SubSeq(a[..|a| - 1], b[..|b| - 1])
    else SubSeq(a, b[..|b| - 1])
  }

  /** Exactly the elements that pass the test are kept. */
  lemma {:induction false} SelectMember<T>(xs: seq<T>, keep: T -> bool, x: T)
    ensures x in Select(xs, keep) <==> x in xs && keep(x)
  {
    if |xs| > 0 {
      var init := xs[..|xs| - 1];
      SelectMember(init, keep, x);
      assert xs == init + [xs[|xs| - 1]];
    }
  }

  /** The kept elements are an order-preserving subsequence of the input. */
  lemma {:induction false} SelectSubSeq<T>(xs: seq<T>, keep: T -> bool)
    ensures SubSeq(Select(xs, keep), xs)
  {
    if |xs| > 0 {
      var n := |xs| - 1;
      var init := xs[..n];
      var r := Select(xs, keep);
      SelectSubSeq(init, keep);
      if keep(xs[n]) {
        assert r[..|r| - 1] == Select(init, keep);
      } else {
        assert r == Select(init, keep);
        if |r| > 0 {
          SelectMember(init, keep, r[|r| - 1]);
          assert r[|r| - 1] != xs[n];
        }
      }
    }
  }

  /** When every element passes, the input comes back unchanged. */
  lemma {:induction false} SelectAll<T>(xs: seq<T>, keep: T -> bool)
    requires forall i :: 0 <= i < |xs| ==> keep(xs[i])
    ensures Select(xs, keep) == xs
  {
    if |xs| > 0 {
      var init := xs[..|xs| - 1];
      SelectAll(init, keep);
      assert xs == init + [xs[|xs| - 1]];
    }
  }

  /** When no element passes, nothing is kept. */
  lemma {:induction false} SelectNone<T>(xs: seq<T>, keep: T -> bool)
    requires forall i :: 0 <= i < |xs| ==> !keep(xs[i])
    ensures Select(xs, keep) == []
  {
    if |xs| > 0 {
      SelectNone(xs[..|xs| - 1], keep);
    }
  }

  /** Keeping from a concatenation keeps from each part. */
  lemma {:induction false} SelectConcat<T>(a: seq<T>, b: seq<T>, keep: T -> bool)
    ensures Select(a + b, keep) == Select(a, keep) + Select(b, keep)
  {
    if |b| == 0 {
      assert a + b == a;
    } else {
      var init := b[..|b| - 1];
      SelectConcat(a, init, keep);
      assert (a + b)[..|a + b| - 1] == a + init;
      assert (a + b)[|a + b| - 1] == b[|b| - 1];
    }
  }

  // ---------------------------------------------------------------------------
  // Appending what each element yields, if anything

  /** `for x in xs: if f(x) yields y: out.append(y)`. */
  function Gather<X, Y>(xs: seq<X>, f: X -> Option<Y>): (r: seq<Y>)
    ensures |r| <= |xs|
  {
    if |xs| == 0 then []
    else
      var y := f(xs[|xs| - 1]);
      Gather(xs[..|xs| - 1], f) + if y.Some? then [y.value] else []
  }

  lemma GatherStep<X, Y>(xs: seq<X>, i: nat, f: X -> Option<Y>)
    requires i < |xs|
    ensures f(xs[i]).None? ==> Gather(xs[..i + 1], f) == Gather(xs[..i], f)
    ensures f(xs[i]).Some? ==> Gather(xs[..i + 1], f) == Gather(xs[..i], f) + [f(xs[i]).value]
  {
    assert xs[..i + 1][..i] == xs[..i];
  }

  /** One more element at the end yields its value, if any, at the end. */
  lemma GatherSnoc<X, Y>(xs: seq<X>, x: X, f: X -> Option<Y>)
    ensures Gather(xs + [x], f) == Gather(xs, f) + if f(x).Some? then [f(x).value] else []
  {
    assert (xs + [x])[..|xs|] == xs;
  }

  /** Every element yielded is in the output, and nothing else is. */
  lemma {:induction false} GatherMember<X, Y>(xs: seq<X>, f: X -> Option<Y>, y: Y)
    ensures y in Gather(xs, f) <==> exists i :: 0 <= i < |xs| && f(xs[i]) == Some(y)
  {
    if |xs| > 0 {
      var init := xs[..|xs| - 1];
      GatherMember(init, f, y);
      assert forall i :: 0 <= i < |init| ==> init[i] == xs[i];
    }
  }

  /** The output follows the input: the part from `a + b` is the part from `a`, then that from `b`. */
  lemma {:induction false} GatherConcat<X, Y>(a: seq<X>, b: seq<X>, f: X -> Option<Y>)
    ensures Gather(a + b, f) == Gather(a, f) + Gather(b, f)
  {
    if |b| == 0 {
      assert a + b == a;
    } else {
      var init := b[..|b| - 1];
      GatherConcat(a, init, f);
      assert (a + b)[..|a + b| - 1] == a + init;
      assert (a + b)[|a + b| - 1] == b[|b| - 1];
    }
  }

  // ---------------------------------------------------------------------------
  // sorted(xs, key=key, reverse=True)

  /** Newest first: every key is at least the keys after it. */
  predicate Descending<T>(xs: seq<T>, key: T -> string) {
    forall i, j :: 0 <= i < j < |xs| ==> LessEq(key(xs[j]), key(xs[i]))
  }

  /**
    Put `x` after every element whose key is at least its own, so that among
    equal keys the earlier input stays in front (the stability of Python's sort).
   */
  function InsertDesc<T>(xs: seq<T>, x: T, key: T -> string): (r: seq<T>)
    ensures |r| == |xs| + 1
    ensures multiset(r) == multiset(xs) + multiset{x}
  {
    if |xs| == 0 then [x]
    else if LessEq(key(x), key(xs[0])) then
      var rest := InsertDesc(xs[1..], x, key);
      assert xs == [xs[0]] + xs[1..];
      [xs[0]] + rest
    else [x] + xs
  }

  lemma DescendingTail<T>(xs: seq<T>, key: T -> string)
    requires |xs| > 0 && Descending(xs, key)
    ensures Descending(xs[1..], key)
    ensures forall i :: 0 <= i < |xs[1..]| ==> LessEq(key(xs[1..][i]), key(xs[0]))
  {
    var tail := xs[1..];
    forall i, j | 0 <= i < j < |tail| ensures LessEq(key(tail[j]), key(tail[i])) {
      assert tail[i] == xs[i + 1] && tail[j] == xs[j + 1];
    }
    forall i | 0 <= i < |tail| ensures LessEq(key(tail[i]), key(xs[0])) {
      assert tail[i] == xs[i + 1];
    }
  }

  lemma DescendingCons<T>(h: T, t: seq<T>, key: T -> string)
    requires Descending(t, key)
    requires forall j :: 0 <= j < |t| ==> LessEq(key(t[j]), key(h))
    ensures Descending([h] + t, key)
  {
    var r := [h] + t;
    forall i, j | 0 <= i < j < |r| ensures LessEq(key(r[j]), key(r[i])) {
      if i == 0 {
        assert r[j] == t[j - 1];
      } else {
        assert r[i] == t[i - 1] && r[j] == t[j - 1];
      }
    }
  }

  /** A bound on every key, the inserted one included, bounds the keys of the result. */
  lemma InsertDescBounded<T>(xs: seq<T>, x: T, key: T -> string, top: string)
    requires forall i :: 0 <= i < |xs| ==> LessEq(key(xs[i]), top)
    requires LessEq(key(x), top)
    ensures forall j :: 0 <= j < |InsertDesc(xs, x, key)| ==> LessEq(key(InsertDesc(xs, x, key)[j]), top)
  {
    var r := InsertDesc(xs, x, key);
    forall j | 0 <= j < |r| ensures LessEq(key(r[j]), top) {
      assert r[j] in multiset(r);
      if r[j] != x {
        assert r[j] in multiset(xs);
        var t :| 0 <= t < |xs| && xs[t] == r[j];
      }
    }
  }

  lemma {:induction false} InsertDescKeepsOrder<T>(xs: seq<T>, x: T, key: T -> string)
    requires Descending(xs, key)
    ensures Descending(InsertDesc(xs, x, key), key)
  {
    if |xs| > 0 {
      if LessEq(key(x), key(xs[0])) {
        var tail := xs[1..];
        DescendingTail(xs, key);
        InsertDescKeepsOrder(tail, x, key);
        InsertDescBounded(tail, x, key, key(xs[0]));
        DescendingCons(xs[0], InsertDesc(tail, x, key), key);
      } else {
        LessEqTotal(key(x), key(xs[0]));
        forall j | 0 <= j < |xs| ensures LessEq(key(xs[j]), key(x)) {
          if j > 0 {
            LessEqTransitive(key(xs[j]), key(xs[0]), key(x));
          }
        }
        DescendingCons(x, xs, key);
      }
    }
  }

  /** Inserting an element whose key is at most every key appends it. */
  lemma {:induction false} InsertDescLast<T>(xs: seq<T>, x: T, key: T -> string)
    requires forall i :: 0 <= i < |xs| ==> LessEq(key(x), key(xs[i]))
    ensures InsertDesc(xs, x, key) == xs + [x]
  {
    if |xs| > 0 {
      InsertDescLast(xs[1..], x, key);
      assert xs == [xs[0]] + xs[1..];
    }
  }

  /** `sorted(xs, key=key, reverse=True)`: insertion in input order. */
  function SortDesc<T>(xs: seq<T>, key: T -> string): (r: seq<T>)
    ensures |r| == |xs|
    ensures multiset(r) == multiset(xs)
  {
    if |xs| == 0 then []
    else
      var n := |xs| - 1;
      assert xs == xs[..n] + [xs[n]];
      InsertDesc(SortDesc(xs[..n], key), xs[n], key)
  }

  /** Every element of the sorted list is an element of the input. */
  lemma SortDescOrigin<T>(xs: seq<T>, key: T -> string, p: nat) returns (i: nat)
    requires p < |SortDesc(xs, key)|
    ensures i < |xs| && SortDesc(xs, key)[p] == xs[i]
  {
    var r := SortDesc(xs, key);
    assert r[p] in multiset(r);
    i :| 0 <= i < |xs| && xs[i] == r[p];
  }

  /** The result is newest first. */
  lemma {:induction false} SortDescSorted<T>(xs: seq<T>, key: T -> string)
    ensures Descending(SortDesc(xs, key), key)
  {
    if |xs| > 0 {
      var n := |xs| - 1;
      SortDescSorted(xs[..n], key);
      InsertDescKeepsOrder(SortDesc(xs[..n], key), xs[n], key);
    }
  }

  /** Sorting what is already newest first changes nothing (no tie is reordered). */
  lemma {:induction false} SortDescOfDescending<T>(xs: seq<T>, key: T -> string)
    requires Descending(xs, key)
    ensures SortDesc(xs, key) == xs
  {
    if |xs| > 0 {
      var n := |xs| - 1;
      var init := xs[..n];
      assert Descending(init, key);
      SortDescOfDescending(init, key);
      InsertDescLast(init, xs[n], key);
      assert init + [xs[n]] == xs;
    }
  }

  /** Putting the head back in front of a split tail. */
  lemma ConsSplit<T>(ys: seq<T>, x: T, q: nat)
    requires 0 < |ys| && q <= |ys| - 1
    ensures [ys[0]] + (ys[1..][..q] + [x] + ys[1..][q..]) == ys[..q + 1] + [x] + ys[q + 1..]
  {
    assert ys[..q + 1] == [ys[0]] + ys[1..][..q];
    assert ys[q + 1..] == ys[1..][q..];
  }

  /** Where the insertion puts `x`: after the keys at least its own, before the smaller ones. */
  lemma {:induction false} InsertDescSplit<T>(ys: seq<T>, x: T, key: T -> string) returns (p: nat)
    requires Descending(ys, key)
    ensures p <= |ys| && InsertDesc(ys, x, key) == ys[..p] + [x] + ys[p..]
    ensures forall i :: p <= i < |ys| ==> key(ys[i]) != key(x)
  {
    if |ys| == 0 {
      p := 0;
    } else if LessEq(key(x), key(ys[0])) {
      var tail := ys[1..];
      DescendingTail(ys, key);
      var q := InsertDescSplit(tail, x, key);
      p := q + 1;
      ConsSplit(ys, x, q);
      forall i | p <= i < |ys| ensures key(ys[i]) != key(x) {
        assert ys[i] == tail[i - 1];
      }
    } else {
      p := 0;
      InsertDescFront(ys, x, key);
    }
  }

  /** An element with a key above the first goes in front, and no key equals its own. */
  lemma InsertDescFront<T>(ys: seq<T>, x: T, key: T -> string)
    requires |ys| > 0 && Descending(ys, key) && !LessEq(key(x), key(ys[0]))
    ensures InsertDesc(ys, x, key) == ys[..0] + [x] + ys[0..]
    ensures forall i :: 0 <= i < |ys| ==> key(ys[i]) != key(x)
  {
    forall i | 0 <= i < |ys| ensures key(ys[i]) != key(x) {
      if i > 0 {
        assert LessEq(key(ys[i]), key(ys[0]));
      }
    }
    assert ys[..0] == [] && ys[0..] == ys;
  }

  /** The test "has key `k`". */
  function HasKey<T, K(==)>(key: T -> K, k: K): T -> bool {
    x => key(x) == k
  }

  /** Dropping an empty middle or end part of `a + b + c`. */
  lemma Rejoin<T>(a: seq<T>, b: seq<T>, c: seq<T>, d: seq<T>)
    requires (b == [] && d == []) || (c == [] && b == d)
    ensures a + b + c == (a + c) + d
  {
  }

  /** Keeping from a one-element list. */
  lemma SelectOne<T>(x: T, keep: T -> bool)
    ensures Select([x], keep) == if keep(x) then [x] else []
  {
    assert [x][..0] == [];
  }

  /**
    Keeping from `front + [x] + back`, where nothing in `back` is kept when
    `x` itself is, is keeping from `front + back` and then `x`.
   */
  lemma SelectAround<T>(front: seq<T>, x: T, back: seq<T>, keep: T -> bool)
    requires keep(x) ==> Select(back, keep) == []
    ensures Select(front + [x] + back, keep) == Select(front + back, keep) + (if keep(x) then [x] else [])
  {
    SelectConcat(front + [x], back, keep);
    SelectConcat(front, [x], keep);
    SelectConcat(front, back, keep);
    SelectOne(x, keep);
    var sf, sb := Select(front, keep), Select(back, keep);
    if keep(x) {
      Rejoin(sf, [x], sb, [x]);
    } else {
      Rejoin(sf, [], sb, []);
    }
  }

  /** Inserting `x` into a newest-first list puts it after every element with its key. */
  lemma InsertDescStable<T>(ys: seq<T>, x: T, key: T -> string, k: string)
    requires Descending(ys, key)
    ensures Select(InsertDesc(ys, x, key), HasKey(key, k)) ==
      Select(ys, HasKey(key, k)) + (if key(x) == k then [x] else [])
  {
    var f := HasKey(key, k);
    var p := InsertDescSplit(ys, x, key);
    if f(x) {
      var back := ys[p..];
      forall i | 0 <= i < |back| ensures !f(back[i]) {
        assert back[i] == ys[p + i];
      }
      SelectNone(back, f);
    }
    assert ys == ys[..p] + ys[p..];
    SelectAround(ys[..p], x, ys[p..], f);
  }

  /**
    The sort is stable: the elements sharing any one key come out in the order
    they went in.
   */
  lemma {:induction false} SortDescStable<T>(xs: seq<T>, key: T -> string, k: string)
    ensures Select(SortDesc(xs, key), HasKey(key, k)) == Select(xs, HasKey(key, k))
  {
    if |xs| > 0 {
      var n := |xs| - 1;
      SortDescStable(xs[..n], key, k);
      SortDescSorted(xs[..n], key);
      InsertDescStable(SortDesc(xs[..n], key), xs[n], key, k);
    }
  }

  /** No two elements share a projection. */
  predicate DistinctBy<T, P(==)>(xs: seq<T>, proj: T -> P) {
    forall i, j :: 0 <= i < j < |xs| ==> proj(xs[i]) != proj(xs[j])
  }

  /** The element at position `k` after `x` is put at position `p`. */
  lemma InsertedAt<T>(ys: seq<T>, x: T, p: nat, k: nat)
    requires p <= |ys| && k <= |ys|
    ensures (ys[..p] + [x] + ys[p..])[k] == if k < p then ys[k] else if k == p then x else ys[k - 1]
  {
  }

  /** Putting in an element with a new projection keeps the projections distinct. */
  lemma DistinctByInsertAt<T, P>(ys: seq<T>, x: T, p: nat, proj: T -> P)
    requires p <= |ys| && DistinctBy(ys, proj)
    requires forall k :: 0 <= k < |ys| ==> proj(ys[k]) != proj(x)
    ensures DistinctBy(ys[..p] + [x] + ys[p..], proj)
  {
    var r := ys[..p] + [x] + ys[p..];
    forall i, j | 0 <= i < j < |r| ensures proj(r[i]) != proj(r[j]) {
      InsertedAt(ys, x, p, i);
      InsertedAt(ys, x, p, j);
    }
  }

  /** Inserting an element whose projection is new keeps the projections distinct. */
  lemma InsertDescDistinctBy<T, P>(ys: seq<T>, x: T, key: T -> string, proj: T -> P)
    requires Descending(ys, key) && DistinctBy(ys, proj)
    requires forall k :: 0 <= k < |ys| ==> proj(ys[k]) != proj(x)
    ensures DistinctBy(InsertDesc(ys, x, key), proj)
  {
    var p := InsertDescSplit(ys, x, key);
    DistinctByInsertAt(ys, x, p, proj);
  }

  /** Sorting neither drops nor repeats an element, so projections that were distinct stay distinct. */
  lemma {:induction false} SortDescDistinctBy<T, P>(xs: seq<T>, key: T -> string, proj: T -> P)
    requires DistinctBy(xs, proj)
    ensures DistinctBy(SortDesc(xs, key), proj)
  {
    if |xs| > 0 {
      var n := |xs| - 1;
      var init := xs[..n];
      var x := xs[n];
      assert DistinctBy(init, proj) by {
        forall i, j | 0 <= i < j < |init| ensures proj(init[i]) != proj(init[j]) {
          assert init[i] == xs[i] && init[j] == xs[j];
        }
      }
      SortDescDistinctBy(init, key, proj);
      SortDescSorted(init, key);
      var sorted := SortDesc(init, key);
      forall k | 0 <= k < |sorted| ensures proj(sorted[k]) != proj(x) {
        assert sorted[k] in multiset(init);
        var t :| 0 <= t < |init| && init[t] == sorted[k];
        assert xs[t] == sorted[k];
      }
      InsertDescDistinctBy(sorted, x, key, proj);
    }
  }
}
