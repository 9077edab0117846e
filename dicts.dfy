/**
 * Python's `dict` with string keys, as the transformer uses it: insertion-ordered
 * entries with distinct keys. Assigning to a present key keeps that key's position
 * and replaces its value; a new key goes last. `d.update(e)` and `dict(pairs)` are
 * such assignments done left to right.
 */
module Dicts {
  import opened Errors
  import opened Seqs

  /** The entries of a dict, in insertion order. */
  type Entries<V> = seq<(string, V)>

  function Keys<V>(d: Entries<V>): (ks: seq<string>)
    ensures |ks| == |d|
    ensures forall i :: 0 <= i < |d| ==> ks[i] == d[i].0
  {
    seq(|d|, i requires 0 <= i < |d| => d[i].0)
  }

  predicate Distinct(ks: seq<string>)
  {
    forall i, j :: 0 <= i < j < |ks| ==> ks[i] != ks[j]
  }

  /** Every Python dict has distinct keys. */
  predicate Valid<V>(d: Entries<V>)
  {
    Distinct(Keys(d))
  }

  /** `d.get(k)`: the value stored under `k`, if any. */
  function Get<V>(d: Entries<V>, k: string): (r: Option<V>)
    requires Valid(d)
    ensures r.Some? <==> k in Keys(d)
    ensures forall i :: 0 <= i < |d| && d[i].0 == k ==> r == Some(d[i].1)
  {
    if k in Keys(d) then Some(d[IndexOf(Keys(d), k)].1) else None
  }

  /** `d[k] = v` */
  function Put<V>(d: Entries<V>, k: string, v: V): (r: Entries<V>)
    requires Valid(d)
    ensures Valid(r)
    ensures Keys(r) == if k in Keys(d) then Keys(d) else Keys(d) + [k]
    ensures Get(r, k) == Some(v)
    ensures forall k' :: k' != k ==> Get(r, k') == Get(d, k')
  {
    if k in Keys(d) then
      var i := IndexOf(Keys(d), k);
      var r := d[i := (k, v)];
      assert Keys(r) == Keys(d);
      r
    else
      var r := d + [(k, v)];
      assert Keys(r) == Keys(d) + [k];
      r
  }

  /** `d[k] = v` brings in no entry other than `(k, v)`. */
  lemma PutEntries<V>(d: Entries<V>, k: string, v: V)
    requires Valid(d)
    ensures forall i :: 0 <= i < |Put(d, k, v)| ==> Put(d, k, v)[i] == (k, v) || Put(d, k, v)[i] in d
  {
  }

  /** `d.update(ps)`: the pairs put one after another, left to right. `dict(ps)` is `PutAll([], ps)`. */
  function PutAll<V>(d: Entries<V>, ps: seq<(string, V)>): (r: Entries<V>)
    requires Valid(d)
    ensures Valid(r)
    ensures forall k :: k in Keys(r) <==> k in Keys(d) || k in Keys(ps)
    decreases |ps|
  {
    if ps == [] then d
    else
      assert Keys(ps) == Keys(ps[..|ps| - 1]) + [ps[|ps| - 1].0];
      Put(PutAll(d, ps[..|ps| - 1]), ps[|ps| - 1].0, ps[|ps| - 1].1)
  }

  /** `ks` holds each member of `names` once, in the order of first occurrence in `names`. */
  ghost predicate FirstOccurrenceOrder(ks: seq<string>, names: seq<string>)
  {
    && Distinct(ks)
    && (forall k :: k in ks <==> k in names)
    && (forall i, j :: 0 <= i < j < |ks| ==> ks[i] in names && ks[j] in names && IndexOf(names, ks[i]) < IndexOf(names, ks[j]))
  }

  lemma KeysOfPrefix<V>(ps: seq<(string, V)>)
    requires ps != []
    ensures Keys(ps) == Keys(ps[..|ps| - 1]) + [ps[|ps| - 1].0]
  {
  }

  lemma IndexOfDistinct(ks: seq<string>, i: nat)
    requires Distinct(ks) && i < |ks|
    ensures IndexOf(ks, ks[i]) == i
  {
  }

  lemma IndexOfAppend(names: seq<string>, x: string, k: string)
    requires k in names
    ensures IndexOf(names + [x], k) == IndexOf(names, k)
  {
    var n := IndexOf(names, k);
    assert (names + [x])[n] == k;
  }

  /** After `d.update(ps)`, the last pair for a key decides its value; keys the pairs do not name keep theirs. */
  lemma PutAllLastWins<V>(d: Entries<V>, ps: seq<(string, V)>)
    requires Valid(d)
    ensures forall i :: 0 <= i < |ps| && (forall j :: i < j < |ps| ==> ps[j].0 != ps[i].0) ==>
              Get(PutAll(d, ps), ps[i].0) == Some(ps[i].1)
    ensures forall k :: k !in Keys(ps) ==> Get(PutAll(d, ps), k) == Get(d, k)
  {
    forall i | 0 <= i < |ps| && (forall j :: i < j < |ps| ==> ps[j].0 != ps[i].0)
      ensures Get(PutAll(d, ps), ps[i].0) == Some(ps[i].1)
    {
      LastPairWins(d, ps, i);
    }
    forall k | k !in Keys(ps) ensures Get(PutAll(d, ps), k) == Get(d, k) {
      UnnamedKeyKept(d, ps, k);
    }
  }

  lemma LastPairWins<V>(d: Entries<V>, ps: seq<(string, V)>, i: nat)
    requires Valid(d)
    requires i < |ps| && forall j :: i < j < |ps| ==> ps[j].0 != ps[i].0
    ensures Get(PutAll(d, ps), ps[i].0) == Some(ps[i].1)
  {
    var (k, v) := ps[i];
    var before, rest := ps[..i], ps[i + 1..];
    assert ps == (before + [(k, v)]) + rest;
    assert k !in Keys(rest) by {
      forall j | 0 <= j < |rest| ensures Keys(rest)[j] != k {
        assert rest[j] == ps[i + 1 + j];
      }
    }
    var mid := PutAll(d, before + [(k, v)]);
    PutAllSnoc(d, before, (k, v));
    PutGet(PutAll(d, before), k, v, k);
    PutAllAppend(d, before + [(k, v)], rest);
    UnnamedKeyKept(mid, rest, k);
  }

  /** Assigning to a present key replaces its entry in place. */
  lemma PutExisting<V>(d: Entries<V>, i: nat, v: V)
    requires Valid(d) && i < |d|
    ensures Put(d, d[i].0, v) == d[i := (d[i].0, v)]
  {
    IndexOfDistinct(Keys(d), i);
  }

  /** `Get` after `Put`, one key at a time. */
  lemma PutGet<V>(d: Entries<V>, k: string, v: V, k': string)
    requires Valid(d)
    ensures Get(Put(d, k, v), k') == if k' == k then Some(v) else Get(d, k')
  {
  }

  lemma {:induction false} UnnamedKeyKept<V>(d: Entries<V>, ps: seq<(string, V)>, k: string)
    requires Valid(d)
    requires k !in Keys(ps)
    ensures Get(PutAll(d, ps), k) == Get(d, k)
    decreases |ps|
  {
    if ps != [] {
      var n := |ps| - 1;
      var init := ps[..n];
      KeysOfPrefix(ps);
      UnnamedKeyKept(d, init, k);
      assert PutAll(d, ps) == Put(PutAll(d, init), ps[n].0, ps[n].1);
    }
  }

  /** After `d.update(ps)` the keys are those of `d`, in place, followed by the new keys of `ps` in first-occurrence order. */
  lemma {:induction false} PutAllKeyOrder<V>(d: Entries<V>, ps: seq<(string, V)>)
    requires Valid(d)
    ensures FirstOccurrenceOrder(Keys(PutAll(d, ps)), Keys(d) + Keys(ps))
    decreases |ps|
  {
    if ps == [] {
      assert Keys(d) + Keys(ps) == Keys(d);
      DistinctInOrder(Keys(d));
    } else {
      var n := |ps| - 1;
      var init := ps[..n];
      var x := ps[n].0;
      PutAllKeyOrder(d, init);
      KeysOfPrefix(ps);
      assert Keys(d) + Keys(ps) == (Keys(d) + Keys(init)) + [x];
      var before := Keys(PutAll(d, init));
      assert PutAll(d, ps) == Put(PutAll(d, init), x, ps[n].1);
      FirstOccurrenceSnoc(before, Keys(d) + Keys(init), x);
    }
  }

  /** Distinct keys are in their own first-occurrence order. */
  lemma DistinctInOrder(ks: seq<string>)
    requires Distinct(ks)
    ensures FirstOccurrenceOrder(ks, ks)
  {
    forall i, j | 0 <= i < j < |ks| ensures IndexOf(ks, ks[i]) < IndexOf(ks, ks[j]) {
      IndexOfDistinct(ks, i);
      IndexOfDistinct(ks, j);
    }
  }

  /** One more name: a new one goes last, a known one changes nothing. */
  lemma FirstOccurrenceSnoc(before: seq<string>, names: seq<string>, x: string)
    requires FirstOccurrenceOrder(before, names)
    ensures FirstOccurrenceOrder(if x in before then before else before + [x], names + [x])
  {
    if x in before {
      KnownNameSnoc(before, names, x);
    } else {
      NewNameSnoc(before, names, x);
    }
  }

  lemma KnownNameSnoc(before: seq<string>, names: seq<string>, x: string)
    requires FirstOccurrenceOrder(before, names) && x in before
    ensures FirstOccurrenceOrder(before, names + [x])
  {
    var all := names + [x];
    forall i, j | 0 <= i < j < |before|
      ensures before[i] in all && before[j] in all && IndexOf(all, before[i]) < IndexOf(all, before[j])
    {
      IndexOfAppend(names, x, before[i]);
      IndexOfAppend(names, x, before[j]);
    }
  }

  lemma NewNameSnoc(before: seq<string>, names: seq<string>, x: string)
    requires FirstOccurrenceOrder(before, names) && x !in before
    ensures FirstOccurrenceOrder(before + [x], names + [x])
  {
    var after, all := before + [x], names + [x];
    assert x !in names;
    assert IndexOf(all, x) == |names|;
    forall i, j | 0 <= i < j < |after| ensures after[i] != after[j] {
      assert after[i] == before[i];
    }
    forall i, j | 0 <= i < j < |after|
      ensures after[i] in all && after[j] in all && IndexOf(all, after[i]) < IndexOf(all, after[j])
    {
      assert after[i] == before[i];
      IndexOfAppend(names, x, before[i]);
      if j < |before| {
        assert after[j] == before[j];
        IndexOfAppend(names, x, before[j]);
      }
    }
  }

  /** `d.update(e)` for a dict `e`: keys of `e` take `e`'s values, every other key keeps its value. */
  lemma UpdateGet<V>(d: Entries<V>, e: Entries<V>, k: string)
    requires Valid(d) && Valid(e)
    ensures Get(PutAll(d, e), k) == if k in Keys(e) then Get(e, k) else Get(d, k)
  {
    PutAllLastWins(d, e);
    if k in Keys(e) {
      var i := IndexOf(Keys(e), k);
      assert forall j :: i < j < |e| ==> e[j].0 != e[i].0;
    }
  }

  lemma PutAllSnoc<V>(d: Entries<V>, ps: seq<(string, V)>, p: (string, V))
    requires Valid(d)
    ensures PutAll(d, ps + [p]) == Put(PutAll(d, ps), p.0, p.1)
  {
    assert (ps + [p])[..|ps|] == ps;
  }

  lemma {:induction false} PutAllAppend<V>(d: Entries<V>, a: seq<(string, V)>, b: seq<(string, V)>)
    requires Valid(d)
    ensures PutAll(PutAll(d, a), b) == PutAll(d, a + b)
    decreases |b|
  {
    if b == [] {
      assert a + b == a;
    } else {
      var n := |b| - 1;
      var init, p := b[..n], b[n];
      assert b == init + [p];
      assert a + b == (a + init) + [p];
      PutAllAppend(d, a, init);
      PutAllSnoc(PutAll(d, a), init, p);
      PutAllSnoc(d, a + init, p);
    }
  }

  /** `dict(ps)` of pairs whose keys are already distinct is those pairs, in the same order. */
  lemma {:induction false} PutAllDistinct<V>(ps: seq<(string, V)>)
    requires Valid(ps)
    ensures PutAll([], ps) == ps
    decreases |ps|
  {
    if ps != [] {
      var n := |ps| - 1;
      KeysOfPrefix(ps);
      assert Valid(ps[..n]) by {
        assert forall i :: 0 <= i < n ==> Keys(ps[..n])[i] == Keys(ps)[i];
      }
      PutAllDistinct(ps[..n]);
      assert ps[n].0 !in Keys(ps[..n]) by {
        assert forall i :: 0 <= i < n ==> Keys(ps)[i] != Keys(ps)[n];
      }
      assert ps[..n] + [ps[n]] == ps;
    }
  }

  /** `result = {}`, then `result.update(item)` for every item that is a dict, left to right. */
  function Merge<V>(items: seq<Option<Entries<V>>>): (r: Entries<V>)
    ensures Valid(r)
    decreases |items|
  {
    if items == [] then []
    else
      var acc := Merge(items[..|items| - 1]);
      match items[|items| - 1]
      case None => acc
      case Some(e) => PutAll(acc, e)
  }

  /** Every entry of every dict item, in order. */
  function Flatten<V>(items: seq<Option<Entries<V>>>): seq<(string, V)>
    decreases |items|
  {
    if items == [] then []
    else
      var init := Flatten(items[..|items| - 1]);
      match items[|items| - 1]
      case None => init
      case Some(e) => init + e
  }

  predicate AllValid<V>(items: seq<Option<Entries<V>>>)
  {
    forall i :: 0 <= i < |items| && items[i].Some? ==> Valid(items[i].value)
  }

  /** Merging is one update with all entries of all dict items, in order. */
  lemma {:induction false} MergeIsUpdate<V>(items: seq<Option<Entries<V>>>)
    ensures Merge(items) == PutAll([], Flatten(items))
    decreases |items|
  {
    if items != [] {
      var init := items[..|items| - 1];
      MergeIsUpdate(init);
      match items[|items| - 1]
      case None =>
      case Some(e) => PutAllAppend([], Flatten(init), e);
    }
  }

  /** The merged keys are the keys of the dict items, in first-occurrence order. */
  lemma MergeKeyOrder<V>(items: seq<Option<Entries<V>>>)
    ensures FirstOccurrenceOrder(Keys(Merge(items)), Keys(Flatten(items)))
  {
    MergeIsUpdate(items);
    PutAllKeyOrder([], Flatten(items));
    assert Keys<V>([]) + Keys(Flatten(items)) == Keys(Flatten(items));
  }

  /** A key is in the merged dict exactly when some dict item has it. */
  lemma {:induction false} MergeKeys<V>(items: seq<Option<Entries<V>>>, k: string)
    ensures k in Keys(Merge(items)) <==> exists i :: 0 <= i < |items| && items[i].Some? && k in Keys(items[i].value)
    decreases |items|
  {
    if items != [] {
      var n := |items| - 1;
      var init := items[..n];
      MergeKeys(init, k);
      assert forall i :: 0 <= i < n ==> items[i] == init[i];
      match items[n]
      case None =>
      case Some(e) =>
        PutAllKeyOrder(Merge(init), e);
    }
  }

  lemma MergeLast<V>(items: seq<Option<Entries<V>>>)
    requires items != []
    ensures items[|items| - 1].None? ==> Merge(items) == Merge(items[..|items| - 1])
    ensures items[|items| - 1].Some? ==> Merge(items) == PutAll(Merge(items[..|items| - 1]), items[|items| - 1].value)
  {
  }

  /** The value under a key comes from the last dict item that has that key. */
  lemma {:induction false} MergeLastWins<V>(items: seq<Option<Entries<V>>>, i: nat, k: string)
    requires AllValid(items)
    requires i < |items| && items[i].Some? && k in Keys(items[i].value)
    requires forall j :: i < j < |items| && items[j].Some? ==> k !in Keys(items[j].value)
    ensures Get(Merge(items), k) == Get(items[i].value, k)
    decreases |items|
  {
    var n := |items| - 1;
    if i < n {
      var init := items[..n];
      MergePrefixKeeps(items, i, k);
      MergeLastWins(init, i, k);
      MergeKeep(items, k);
      assert Get(Merge(items), k) == Get(Merge(init), k) == Get(init[i].value, k);
    } else {
      MergeSet(items, k);
    }
  }

  lemma MergePrefixKeeps<V>(items: seq<Option<Entries<V>>>, i: nat, k: string)
    requires AllValid(items)
    requires i < |items| - 1 && items[i].Some? && k in Keys(items[i].value)
    requires forall j :: i < j < |items| && items[j].Some? ==> k !in Keys(items[j].value)
    ensures var init := items[..|items| - 1];
            && AllValid(init) && init[i] == items[i]
            && (forall j :: i < j < |init| && init[j].Some? ==> k !in Keys(init[j].value))
            && (items[|items| - 1].Some? ==> Valid(items[|items| - 1].value) && k !in Keys(items[|items| - 1].value))
  {
    var init := items[..|items| - 1];
    assert forall j :: 0 <= j < |init| ==> init[j] == items[j];
  }

  /** A last item without `k` leaves `k` as it was. */
  lemma MergeKeep<V>(items: seq<Option<Entries<V>>>, k: string)
    requires items != []
    requires items[|items| - 1].Some? ==> Valid(items[|items| - 1].value) && k !in Keys(items[|items| - 1].value)
    ensures Get(Merge(items), k) == Get(Merge(items[..|items| - 1]), k)
  {
    MergeLast(items);
    if items[|items| - 1].Some? {
      UpdateGet(Merge(items[..|items| - 1]), items[|items| - 1].value, k);
    }
  }

  /** A last item with `k` decides it. */
  lemma MergeSet<V>(items: seq<Option<Entries<V>>>, k: string)
    requires items != []
    requires items[|items| - 1].Some? && Valid(items[|items| - 1].value) && k in Keys(items[|items| - 1].value)
    ensures Get(Merge(items), k) == Get(items[|items| - 1].value, k)
  {
    MergeLast(items);
    UpdateGet(Merge(items[..|items| - 1]), items[|items| - 1].value, k);
  }
}
