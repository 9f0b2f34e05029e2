/** PHP's `array_replace_recursive($base, $extra)`, the merge the request
    pipeline applies to its per-call default options and the client's extra
    options. Entries of `extra` are visited in order; for each key:
    - when the key holds an array in both, the two arrays are merged the same
      way, recursively;
    - otherwise the value from `extra` is stored under the key.
    Storing keeps an existing key in its place and appends a new one, so the
    result lists `base`'s keys first, then the keys only `extra` has. */
module ArrayReplace {
  import opened PhpValue

  /** The value stored under one key: `base` is what the key held before
      (if anything) and `extra` the replacing value. */
  function MergeValue(base: Option<Value>, extra: Value): Value
    decreases extra, if extra.Arr? then |extra.entries| + 1 else 0
  {
    if extra.Arr? && base.Some? && base.value.Arr? then
      Arr(ReplaceFrom(base.value.entries, extra, 0))
    else
      extra
  }

  /** The replacement loop from the `i`th entry of the array `extra` on. */
  function ReplaceFrom(base: seq<Entry>, extra: Value, i: nat): seq<Entry>
    requires extra.Arr? && i <= |extra.entries|
    decreases extra, |extra.entries| - i
  {
    if i == |extra.entries| then base
    else
      var e := extra.entries[i];
      ReplaceFrom(Put(base, e.key, MergeValue(Find(base, e.key), e.val)), extra, i + 1)
  }

  /** `array_replace_recursive($base, $extra)`: the result has exactly the
      keys of the two arrays. */
  function ArrayReplaceRecursive(base: seq<Entry>, extra: seq<Entry>): (r: seq<Entry>)
    ensures KeySet(r) == KeySet(base) + KeySet(extra)
  {
    ReplaceFromKeys(base, Arr(extra), 0);
    assert extra[0..] == extra;
    ReplaceFrom(base, Arr(extra), 0)
  }

  /** What one key holds after the merge, given what it held in `base` and
      in `extra`. */
  function Replaced(base: Option<Value>, extra: Option<Value>): Option<Value>
  {
    match extra
    case None => base
    case Some(x) => Some(MergeValue(base, x))
  }

  // ---------------------------------------------------------------------
  // Keys

  lemma {:induction false} ReplaceFromKeys(base: seq<Entry>, extra: Value, i: nat)
    requires extra.Arr? && i <= |extra.entries|
    ensures KeySet(ReplaceFrom(base, extra, i)) == KeySet(base) + KeySet(extra.entries[i..])
    decreases |extra.entries| - i
  {
    var xs := extra.entries;
    if i < |xs| {
      var e := xs[i];
      ReplaceFromKeys(Put(base, e.key, MergeValue(Find(base, e.key), e.val)), extra, i + 1);
      KeySetCons(xs[i..]);
      assert xs[i..][1..] == xs[i + 1..];
    } else {
      assert xs[i..] == [];
    }
  }

  /** `ks` without the keys in `seen`, in order. */
  function Unseen(ks: seq<Key>, seen: set<Key>): (r: seq<Key>)
    ensures forall k | k in r :: k in ks && k !in seen
  {
    if ks == [] then []
    else (if ks[0] in seen then [] else [ks[0]]) + Unseen(ks[1..], seen)
  }

  lemma {:induction false} UnseenSkips(ks: seq<Key>, seen: set<Key>, k: Key)
    requires k !in ks
    ensures Unseen(ks, seen + {k}) == Unseen(ks, seen)
  {
    if ks != [] {
      UnseenSkips(ks[1..], seen, k);
    }
  }

  lemma {:induction false} ReplaceFromOrder(base: seq<Entry>, extra: Value, i: nat)
    requires extra.Arr? && i <= |extra.entries| && DistinctKeys(extra.entries)
    ensures KeysOf(ReplaceFrom(base, extra, i)) == KeysOf(base) + Unseen(KeysOf(extra.entries[i..]), KeySet(base))
    decreases |extra.entries| - i
  {
    var xs := extra.entries;
    if i < |xs| {
      var e := xs[i];
      var v := MergeValue(Find(base, e.key), e.val);
      var base' := Put(base, e.key, v);
      ReplaceFromOrder(base', extra, i + 1);
      PutKeyOrder(base, e.key, v);
      KeysOfFrom(xs, i);
      DistinctFrom(xs, i);
      OrderStep(KeysOf(base), KeysOf(base'), KeySet(base), KeySet(base'), e.key, KeysOf(xs[i + 1..]));
    } else {
      assert xs[i..] == [];
    }
  }

  /** One step of the loop, on key sequences: storing `k` and then merging
      `rest` lists the keys as merging `[k] + rest` in one go. */
  lemma OrderStep(ks: seq<Key>, ks': seq<Key>, seen: set<Key>, seen': set<Key>, k: Key, rest: seq<Key>)
    requires ks' == if k in seen then ks else ks + [k]
    requires seen' == seen + {k}
    requires k !in rest
    ensures ks' + Unseen(rest, seen') == ks + Unseen([k] + rest, seen)
  {
    assert ([k] + rest)[1..] == rest;
    var u := Unseen(rest, seen);
    if k in seen {
      assert seen' == seen;
      assert Unseen([k] + rest, seen) == [] + u;
    } else {
      UnseenSkips(rest, seen, k);
      assert Unseen([k] + rest, seen) == [k] + u;
      SnocAssoc(ks, k, u);
    }
  }

  lemma SnocAssoc(ks: seq<Key>, k: Key, u: seq<Key>)
    ensures ks + [k] + u == ks + ([k] + u)
  {
  }

  lemma KeysOfFrom(xs: seq<Entry>, i: nat)
    requires i < |xs|
    ensures KeysOf(xs[i..]) == [xs[i].key] + KeysOf(xs[i + 1..])
  {
    assert xs[i..][1..] == xs[i + 1..];
  }

  lemma DistinctFrom(xs: seq<Entry>, i: nat)
    requires DistinctKeys(xs) && i < |xs|
    ensures xs[i].key !in KeysOf(xs[i + 1..])
    ensures xs[i].key !in KeySet(xs[i + 1..])
  {
    var rest := xs[i + 1..];
    forall j | 0 <= j < |rest| ensures KeysOf(rest)[j] != xs[i].key {
      KeysOfAt(rest, j);
      assert rest[j] == xs[i + 1 + j];
    }
    forall f | f in rest ensures f.key != xs[i].key {
      var j :| 0 <= j < |rest| && rest[j] == f;
      assert f == xs[i + 1 + j];
    }
  }

  /** Key order of the result: `base`'s keys as they were, then the keys
      that only `extra` has, in `extra`'s order. */
  lemma KeyOrder(base: seq<Entry>, extra: seq<Entry>)
    requires DistinctKeys(extra)
    ensures KeysOf(ArrayReplaceRecursive(base, extra)) == KeysOf(base) + Unseen(KeysOf(extra), KeySet(base))
  {
    ReplaceFromOrder(base, Arr(extra), 0);
    assert extra[0..] == extra;
  }

  lemma {:induction false} ReplaceFromDistinct(base: seq<Entry>, extra: Value, i: nat)
    requires extra.Arr? && i <= |extra.entries| && DistinctKeys(base)
    ensures DistinctKeys(ReplaceFrom(base, extra, i))
    decreases |extra.entries| - i
  {
    if i < |extra.entries| {
      var e := extra.entries[i];
      PutDistinct(base, e.key, MergeValue(Find(base, e.key), e.val));
      ReplaceFromDistinct(Put(base, e.key, MergeValue(Find(base, e.key), e.val)), extra, i + 1);
    }
  }

  /** Merging into an array with distinct keys gives an array with distinct
      keys, whatever the extras are. */
  lemma KeepsDistinct(base: seq<Entry>, extra: seq<Entry>)
    requires DistinctKeys(base)
    ensures DistinctKeys(ArrayReplaceRecursive(base, extra))
  {
    ReplaceFromDistinct(base, Arr(extra), 0);
  }

  // ---------------------------------------------------------------------
  // Values, key by key

  lemma {:induction false} ReplaceFromFind(base: seq<Entry>, extra: Value, i: nat, k: Key)
    requires extra.Arr? && i <= |extra.entries| && DistinctKeys(extra.entries)
    ensures Find(ReplaceFrom(base, extra, i), k) == Replaced(Find(base, k), Find(extra.entries[i..], k))
    decreases |extra.entries| - i
  {
    var xs := extra.entries;
    if i < |xs| {
      var e := xs[i];
      var v := MergeValue(Find(base, e.key), e.val);
      var base' := Put(base, e.key, v);
      ReplaceFromFind(base', extra, i + 1, k);
      assert xs[i..][1..] == xs[i + 1..];
      if k == e.key {
        DistinctFrom(xs, i);
      } else {
        PutOther(base, e.key, v, k);
      }
    } else {
      assert xs[i..] == [];
    }
  }

  /** The merge works key by key: key `k` of the result holds what
      `Replaced` gives for `k` in the two arrays. */
  lemma FindReplacedAt(base: seq<Entry>, extra: seq<Entry>, k: Key)
    requires DistinctKeys(extra)
    ensures Find(ArrayReplaceRecursive(base, extra), k) == Replaced(Find(base, k), Find(extra, k))
  {
    ReplaceFromFind(base, Arr(extra), 0, k);
    assert extra[0..] == extra;
  }

  /** The same, for every key at once. */
  lemma FindReplaced(base: seq<Entry>, extra: seq<Entry>)
    requires DistinctKeys(extra)
    ensures forall k :: Find(ArrayReplaceRecursive(base, extra), k) == Replaced(Find(base, k), Find(extra, k))
  {
    forall k ensures Find(ArrayReplaceRecursive(base, extra), k) == Replaced(Find(base, k), Find(extra, k)) {
      FindReplacedAt(base, extra, k);
    }
  }

  /** A key only `base` has keeps its value. */
  lemma BaseOnlyKeyKept(base: seq<Entry>, extra: seq<Entry>, k: Key)
    requires DistinctKeys(extra)
    requires k in KeySet(base) && k !in KeySet(extra)
    ensures Find(ArrayReplaceRecursive(base, extra), k) == Find(base, k)
  {
    FindReplacedAt(base, extra, k);
  }

  /** A key of `extra` takes `extra`'s value unless both values are arrays. */
  lemma ExtraValueWins(base: seq<Entry>, extra: seq<Entry>, k: Key, x: Value)
    requires DistinctKeys(extra)
    requires Find(extra, k) == Some(x)
    requires !(x.Arr? && Find(base, k).Some? && Find(base, k).value.Arr?)
    ensures Find(ArrayReplaceRecursive(base, extra), k) == Some(x)
  {
    FindReplacedAt(base, extra, k);
  }

  /** A key holding an array on both sides holds the merge of the two. */
  lemma NestedArraysMerged(base: seq<Entry>, extra: seq<Entry>, k: Key, b: seq<Entry>, x: seq<Entry>)
    requires DistinctKeys(extra)
    requires Find(base, k) == Some(Arr(b)) && Find(extra, k) == Some(Arr(x))
    ensures Find(ArrayReplaceRecursive(base, extra), k) == Some(Arr(ArrayReplaceRecursive(b, x)))
  {
    FindReplacedAt(base, extra, k);
  }

  // ---------------------------------------------------------------------
  // Special cases

  lemma {:induction false} ReplaceFromDisjoint(base: seq<Entry>, extra: Value, i: nat)
    requires extra.Arr? && i <= |extra.entries| && DistinctKeys(extra.entries)
    requires KeySet(base) !! KeySet(extra.entries[i..])
    ensures ReplaceFrom(base, extra, i) == base + extra.entries[i..]
    decreases |extra.entries| - i
  {
    var xs := extra.entries;
    if i < |xs| {
      var e := xs[i];
      DisjointStep(base, xs, i);
      assert Find(base, e.key) == None;
      assert MergeValue(None, e.val) == e.val;
      PutNewKey(base, e.key, e.val);
      assert ReplaceFrom(base, extra, i) == ReplaceFrom(base + [e], extra, i + 1);
      ReplaceFromDisjoint(base + [e], extra, i + 1);
      AppendStep(base, xs, i);
    } else {
      assert xs[i..] == [];
    }
  }

  lemma AppendStep(base: seq<Entry>, xs: seq<Entry>, i: nat)
    requires i < |xs|
    ensures base + [xs[i]] + xs[i + 1..] == base + xs[i..]
  {
    assert xs[i..] == [xs[i]] + xs[i + 1..];
  }

  lemma DisjointStep(base: seq<Entry>, xs: seq<Entry>, i: nat)
    requires DistinctKeys(xs) && i < |xs| && KeySet(base) !! KeySet(xs[i..])
    ensures xs[i].key !in KeySet(base)
    ensures KeySet(base + [xs[i]]) !! KeySet(xs[i + 1..])
  {
    KeySetCons(xs[i..]);
    assert xs[i..][1..] == xs[i + 1..];
    DistinctFrom(xs, i);
    assert KeySet(base + [xs[i]]) == KeySet(base) + {xs[i].key};
  }

  /** When no key is shared, the merge appends `extra` to `base`; in
      particular, merging into an empty array gives `extra` back. */
  lemma DisjointAppends(base: seq<Entry>, extra: seq<Entry>)
    requires DistinctKeys(extra) && KeySet(base) !! KeySet(extra)
    ensures ArrayReplaceRecursive(base, extra) == base + extra
  {
    assert extra[0..] == extra;
    ReplaceFromDisjoint(base, Arr(extra), 0);
  }

  /** Two one-entry arrays with the same key merge to one entry holding the
      merge of the two values. */
  lemma SameSingleKey(k: Key, b: Value, x: Value)
    ensures ArrayReplaceRecursive([Entry(k, b)], [Entry(k, x)]) == [Entry(k, MergeValue(Some(b), x))]
  {
    var v := MergeValue(Some(b), x);
    assert ReplaceFrom([Entry(k, b)], Arr([Entry(k, x)]), 0)
        == ReplaceFrom(Put([Entry(k, b)], k, v), Arr([Entry(k, x)]), 1);
  }

  // ---------------------------------------------------------------------
  // Idempotence

  /** `b` already holds everything `x` would write into it: every key of
      `x` is in `b`, where two arrays cover each other key by key and any
      other pair of values must be equal. */
  ghost predicate Covers(b: Value, x: Value)
    decreases x
  {
    if b.Arr? && x.Arr? then
      forall i | 0 <= i < |x.entries| ::
        && Find(b.entries, x.entries[i].key).Some?
        && Covers(Find(b.entries, x.entries[i].key).value, x.entries[i].val)
    else
      b == x
  }

  lemma {:induction false} MergeCovered(b: Value, x: Value)
    requires Covers(b, x)
    ensures MergeValue(Some(b), x) == b
    decreases x, if x.Arr? then |x.entries| + 1 else 0
  {
    if x.Arr? && b.Arr? {
      ReplaceFromCovered(b.entries, x, 0);
    }
  }

  lemma {:induction false} ReplaceFromCovered(base: seq<Entry>, extra: Value, i: nat)
    requires extra.Arr? && i <= |extra.entries|
    requires forall j | i <= j < |extra.entries| ::
      && Find(base, extra.entries[j].key).Some?
      && Covers(Find(base, extra.entries[j].key).value, extra.entries[j].val)
    ensures ReplaceFrom(base, extra, i) == base
    decreases extra, |extra.entries| - i
  {
    if i < |extra.entries| {
      var e := extra.entries[i];
      var b := Find(base, e.key).value;
      MergeCovered(b, e.val);
      PutSame(base, e.key, b);
      ReplaceFromCovered(base, extra, i + 1);
    }
  }

  /** Whatever `x` is merged into, the result covers `x`. */
  lemma {:induction false} MergeCovers(b: Option<Value>, x: Value)
    requires WellFormed(x)
    ensures Covers(MergeValue(b, x), x)
    decreases x
  {
    if x.Arr? {
      var xs := x.entries;
      var m := MergeValue(b, x);
      forall i | 0 <= i < |xs|
        ensures Find(m.entries, xs[i].key).Some?
        ensures Covers(Find(m.entries, xs[i].key).value, xs[i].val)
      {
        var e := xs[i];
        FindAt(xs, i);
        if b.Some? && b.value.Arr? {
          var bs := b.value.entries;
          assert m.entries == ArrayReplaceRecursive(bs, xs);
          FindReplaced(bs, xs);
          assert Find(m.entries, e.key) == Some(MergeValue(Find(bs, e.key), e.val));
          MergeCovers(Find(bs, e.key), e.val);
        } else {
          MergeCovers(None, e.val);
        }
      }
    }
  }

  /** Merging the same extra options a second time changes nothing. */
  lemma Idempotent(base: seq<Entry>, extra: seq<Entry>)
    requires WellFormed(Arr(extra))
    ensures ArrayReplaceRecursive(ArrayReplaceRecursive(base, extra), extra) == ArrayReplaceRecursive(base, extra)
  {
    var r := ArrayReplaceRecursive(base, extra);
    MergeCovers(Some(Arr(base)), Arr(extra));
    MergeCovered(Arr(r), Arr(extra));
  }

  /** An array merged with itself is itself. */
  lemma SelfMerge(a: seq<Entry>)
    requires WellFormed(Arr(a))
    ensures ArrayReplaceRecursive(a, a) == a
  {
    MergeCovers(None, Arr(a));
    MergeCovered(Arr(a), Arr(a));
  }
}
