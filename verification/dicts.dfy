/**
  Python's `dict` as the scripts use it: iteration follows the order in which
  keys were FIRST inserted, and assigning to a key that is already present
  replaces its value without moving it.
 */
module Dicts {
  import opened Options
  import opened Seqs

  datatype Dict<K, V> = Dict(keys: seq<K>, vals: map<K, V>)

  predicate Distinct<K(==)>(s: seq<K>) {
    forall i, j :: 0 <= i < j < |s| ==> s[i] != s[j]
  }

  /** The key list holds every key of the map exactly once. */
  predicate Valid<K, V>(d: Dict<K, V>) {
    && Distinct(d.keys)
    && (forall k :: k in d.vals ==> k in d.keys)
    && (forall i :: 0 <= i < |d.keys| ==> d.keys[i] in d.vals)
  }

  function Empty<K, V>(): (d: Dict<K, V>)
    ensures Valid(d) && d.keys == []
  {
    Dict([], map[])
  }

  /** `d[k] = v`. */
  function Put<K, V>(d: Dict<K, V>, k: K, v: V): (r: Dict<K, V>)
    requires Valid(d)
    ensures Valid(r)
  {
    if k in d.vals then Dict(d.keys, d.vals[k := v]) else Dict(d.keys + [k], d.vals[k := v])
  }

  /**
    The dict that `for x in xs: d[key] = value` builds from an empty one, where
    `entry(x)` is the assignment an element makes, or `None` when it makes none.
   */
  function Collect<X, K, V>(xs: seq<X>, entry: X -> Option<(K, V)>): (d: Dict<K, V>)
    ensures Valid(d)
  {
    if |xs| == 0 then Empty()
    else
      var d := Collect(xs[..|xs| - 1], entry);
      match entry(xs[|xs| - 1])
      case None => d
      case Some(kv) => Put(d, kv.0, kv.1)
  }

  /** One more assigning element at the end is one more `d[key] = value`. */
  lemma CollectSnoc<X, K, V>(xs: seq<X>, x: X, entry: X -> Option<(K, V)>, k: K, v: V)
    requires entry(x) == Some((k, v))
    ensures Collect(xs + [x], entry) == Put(Collect(xs, entry), k, v)
  {
    assert (xs + [x])[..|xs|] == xs;
  }

  /** A key no element assigns is not in the dict. */
  lemma CollectFresh<X, K, V>(xs: seq<X>, entry: X -> Option<(K, V)>, k: K)
    requires forall i :: 0 <= i < |xs| ==> entry(xs[i]).Some? && entry(xs[i]).value.0 != k
    ensures k !in Collect(xs, entry).vals
  {
    CollectMember(xs, entry, k);
  }

  /** Assigning a key the value it already has changes nothing. */
  lemma PutSame<K, V>(d: Dict<K, V>, k: K, v: V)
    requires Valid(d) && k in d.vals && d.vals[k] == v
    ensures Put(d, k, v) == d
  {
    assert d.vals[k := v] == d.vals;
  }

  /** A key is in the dict iff some element assigns it. */
  lemma {:induction false} CollectMember<X, K, V>(xs: seq<X>, entry: X -> Option<(K, V)>, k: K)
    ensures k in Collect(xs, entry).vals <==>
      exists i :: 0 <= i < |xs| && entry(xs[i]).Some? && entry(xs[i]).value.0 == k
  {
    if |xs| > 0 {
      var init := xs[..|xs| - 1];
      CollectMember(init, entry, k);
      assert forall i :: 0 <= i < |init| ==> init[i] == xs[i];
    }
  }

  /** Every stored value was assigned to its key by some element. */
  lemma {:induction false} CollectFrom<X, K, V>(xs: seq<X>, entry: X -> Option<(K, V)>, k: K)
    requires k in Collect(xs, entry).vals
    ensures exists i :: 0 <= i < |xs| && entry(xs[i]) == Some((k, Collect(xs, entry).vals[k]))
  {
    var init := xs[..|xs| - 1];
    var last := xs[|xs| - 1];
    if entry(last).Some? && entry(last).value.0 == k {
      assert entry(xs[|xs| - 1]) == Some((k, Collect(xs, entry).vals[k]));
    } else {
      CollectFrom(init, entry, k);
      var i :| 0 <= i < |init| && entry(init[i]) == Some((k, Collect(init, entry).vals[k]));
      assert init[i] == xs[i];
    }
  }

  /** The last assignment to a key wins. */
  lemma {:induction false} CollectLast<X, K, V>(xs: seq<X>, entry: X -> Option<(K, V)>, i: nat)
    requires i < |xs| && entry(xs[i]).Some?
    requires forall j :: i < j < |xs| && entry(xs[j]).Some? ==> entry(xs[j]).value.0 != entry(xs[i]).value.0
    ensures entry(xs[i]).value.0 in Collect(xs, entry).vals
    ensures Collect(xs, entry).vals[entry(xs[i]).value.0] == entry(xs[i]).value.1
  {
    if i < |xs| - 1 {
      var init := xs[..|xs| - 1];
      assert init[i] == xs[i];
      assert forall j :: i < j < |init| ==> init[j] == xs[j];
      CollectLast(init, entry, i);
    }
  }

  /** An element that assigns nothing can be dropped. */
  lemma {:induction false} CollectSkip<X, K, V>(a: seq<X>, x: X, b: seq<X>, entry: X -> Option<(K, V)>)
    requires entry(x).None?
    ensures Collect(a + [x] + b, entry) == Collect(a + b, entry)
  {
    if |b| == 0 {
      assert a + [x] + b == a + [x];
      assert (a + [x])[..|a|] == a;
      assert a + b == a;
    } else {
      var init := b[..|b| - 1];
      CollectSkip(a, x, init, entry);
      assert (a + [x] + b)[..|a + [x] + b| - 1] == a + [x] + init;
      assert (a + b)[..|a + b| - 1] == a + init;
      assert (a + [x] + b)[|a + [x] + b| - 1] == b[|b| - 1] == (a + b)[|a + b| - 1];
    }
  }

  /** When every element assigns a key of its own, the keys come in element order. */
  lemma {:induction false} CollectDistinct<X, K, V>(xs: seq<X>, entry: X -> Option<(K, V)>)
    requires forall i :: 0 <= i < |xs| ==> entry(xs[i]).Some?
    requires forall i, j :: 0 <= i < j < |xs| ==> entry(xs[i]).value.0 != entry(xs[j]).value.0
    ensures |Collect(xs, entry).keys| == |xs|
    ensures forall i :: 0 <= i < |xs| ==> Collect(xs, entry).keys[i] == entry(xs[i]).value.0
  {
    if |xs| > 0 {
      var n := |xs| - 1;
      var init := xs[..n];
      var k := entry(xs[n]).value.0;
      assert forall i :: 0 <= i < n ==> init[i] == xs[i];
      CollectDistinct(init, entry);
      CollectFresh(init, entry, k);
      assert xs == init + [xs[n]];
      CollectSnoc(init, xs[n], entry, k, entry(xs[n]).value.1);
    }
  }

  /** One more step of the loop: the prefix of length `i + 1` from the prefix of length `i`. */
  lemma CollectStep<X, K, V>(xs: seq<X>, i: nat, entry: X -> Option<(K, V)>)
    requires i < |xs|
    ensures Collect(xs[..i + 1], entry) ==
      match entry(xs[i])
      case None => Collect(xs[..i], entry)
      case Some(kv) => Put(Collect(xs[..i], entry), kv.0, kv.1)
  {
    assert xs[..i + 1][..i] == xs[..i];
  }

  // ---------------------------------------------------------------------------
  // defaultdict(list)

  /** `d[k].append(x)` on a `defaultdict(list)`: a missing key starts an empty list. */
  function Append<K, X>(d: Dict<K, seq<X>>, k: K, x: X): (r: Dict<K, seq<X>>)
    requires Valid(d)
    ensures Valid(r)
  {
    if k in d.vals then Dict(d.keys, d.vals[k := d.vals[k] + [x]]) else Dict(d.keys + [k], d.vals[k := [x]])
  }

  /** The dict that `for x in xs: d[key(x)].append(x)` builds from an empty one. */
  function GroupBy<X, K>(xs: seq<X>, key: X -> K): (d: Dict<K, seq<X>>)
    ensures Valid(d)
  {
    if |xs| == 0 then Empty()
    else Append(GroupBy(xs[..|xs| - 1], key), key(xs[|xs| - 1]), xs[|xs| - 1])
  }

  lemma GroupByStep<X, K>(xs: seq<X>, i: nat, key: X -> K)
    requires i < |xs|
    ensures GroupBy(xs[..i + 1], key) == Append(GroupBy(xs[..i], key), key(xs[i]), xs[i])
  {
    assert xs[..i + 1][..i] == xs[..i];
  }

  /**
    The groups are exactly the keys that occur, and each holds the elements
    with its key, in input order.
   */
  lemma {:induction false} GroupByGroups<X, K>(xs: seq<X>, key: X -> K, k: K)
    ensures k in GroupBy(xs, key).vals <==> exists i :: 0 <= i < |xs| && key(xs[i]) == k
    ensures k in GroupBy(xs, key).vals ==> GroupBy(xs, key).vals[k] == Select(xs, HasKey(key, k))
    ensures k !in GroupBy(xs, key).vals ==> Select(xs, HasKey(key, k)) == []
  {
    GroupByMember(xs, key, k);
    GroupBySelect(xs, key, k);
  }

  lemma {:induction false} GroupByMember<X, K>(xs: seq<X>, key: X -> K, k: K)
    ensures k in GroupBy(xs, key).vals <==> exists i :: 0 <= i < |xs| && key(xs[i]) == k
  {
    if |xs| > 0 {
      var n := |xs| - 1;
      var init := xs[..n];
      GroupByMember(init, key, k);
      assert forall i :: 0 <= i < |init| ==> init[i] == xs[i];
    }
  }

  lemma {:induction false} GroupBySelect<X, K>(xs: seq<X>, key: X -> K, k: K)
    ensures Select(xs, HasKey(key, k)) == if k in GroupBy(xs, key).vals then GroupBy(xs, key).vals[k] else []
  {
    if |xs| > 0 {
      GroupBySelect(xs[..|xs| - 1], key, k);
    }
  }

  /** No group is empty. */
  lemma GroupByNonEmpty<X, K>(xs: seq<X>, key: X -> K, k: K)
    requires k in GroupBy(xs, key).vals
    ensures |GroupBy(xs, key).vals[k]| >= 1
  {
    GroupByGroups(xs, key, k);
    var i :| 0 <= i < |xs| && key(xs[i]) == k;
    SelectMember(xs, HasKey(key, k), xs[i]);
  }
}
