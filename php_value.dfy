/** PHP values as the request pipeline sees them: scalars, `stdClass` objects and
    PHP arrays. A PHP array is an ordered map; it is modelled as an association
    list of entries in PHP's iteration order, with pairwise distinct keys. */
module PhpValue {

  datatype Option<+T> = None | Some(value: T)

  /** A PHP array key: an integer or a string. PHP stores an integer-like
      string key (such as "0") as the integer; that conversion is not modelled,
      and nothing here enforces it, so the model assumes every `StrKey` it is
      given is already non-integer-like. */
  datatype Key = IntKey(i: int) | StrKey(s: string)

  datatype Value =
    | Null
    | Bool(b: bool)
    | Int(i: int)
    | Str(s: string)
    /** a `stdClass` object (what `json_decode` returns for a JSON object);
        its properties are keyed by name */
    | Obj(props: seq<Entry>)
    /** a PHP array: a list is an array keyed 0, 1, 2, ... */
    | Arr(entries: seq<Entry>)

  datatype Entry = Entry(key: Key, val: Value)

  /** The keys of an array, in iteration order. */
  function KeysOf(es: seq<Entry>): (ks: seq<Key>)
    ensures |ks| == |es|
  {
    if es == [] then [] else [es[0].key] + KeysOf(es[1..])
  }

  lemma {:induction false} KeysOfAt(es: seq<Entry>, j: nat)
    requires j < |es|
    ensures KeysOf(es)[j] == es[j].key
  {
    if j > 0 {
      KeysOfAt(es[1..], j - 1);
    }
  }

  function KeySet(es: seq<Entry>): set<Key>
  {
    set e | e in es :: e.key
  }

  lemma KeySetCons(es: seq<Entry>)
    requires es != []
    ensures KeySet(es) == {es[0].key} + KeySet(es[1..])
  {
    assert es == [es[0]] + es[1..];
  }

  predicate DistinctKeys(es: seq<Entry>)
  {
    forall i, j | 0 <= i < j < |es| :: es[i].key != es[j].key
  }

  /** Every array inside `v`, at any depth, has distinct keys: true of every
      value PHP can build. */
  predicate WellFormed(v: Value)
  {
    match v
    case Arr(es) => DistinctKeys(es) && forall i | 0 <= i < |es| :: WellFormed(es[i].val)
    case Obj(ps) => DistinctKeys(ps) && forall i | 0 <= i < |ps| :: WellFormed(ps[i].val)
    case _ => true
  }

  /** `$a[$k]` when `isset`: the value stored under `k`, if any. */
  function Find(es: seq<Entry>, k: Key): (r: Option<Value>)
    ensures r.Some? <==> k in KeySet(es)
    ensures r.Some? ==> Entry(k, r.value) in es
  {
    if es == [] then None
    else if es[0].key == k then Some(es[0].val)
    else
      KeySetCons(es);
      Find(es[1..], k)
  }

  /** `$a[$k] = $v`: an existing key keeps its position and takes the new
      value; a new key is appended at the end. */
  function Put(es: seq<Entry>, k: Key, v: Value): (r: seq<Entry>)
    ensures Find(r, k) == Some(v)
    ensures KeySet(r) == KeySet(es) + {k}
  {
    if es == [] then [Entry(k, v)]
    else if es[0].key == k then
      var r := [Entry(k, v)] + es[1..];
      KeySetCons(es);
      KeySetCons(r);
      assert r[1..] == es[1..];
      r
    else
      var r := [es[0]] + Put(es[1..], k, v);
      KeySetCons(es);
      KeySetCons(r);
      assert r[1..] == Put(es[1..], k, v);
      r
  }

  /** Storing under one key leaves every other key's value alone. */
  lemma {:induction false} PutOther(es: seq<Entry>, k: Key, v: Value, k': Key)
    requires k' != k
    ensures Find(Put(es, k, v), k') == Find(es, k')
  {
    if es != [] && es[0].key != k {
      PutOther(es[1..], k, v, k');
      assert Put(es, k, v)[1..] == Put(es[1..], k, v);
    }
  }

  /** An existing key keeps its place among the keys; a new one goes last. */
  lemma {:induction false} PutKeyOrder(es: seq<Entry>, k: Key, v: Value)
    ensures KeysOf(Put(es, k, v)) == if k in KeySet(es) then KeysOf(es) else KeysOf(es) + [k]
  {
    if es == [] {
      assert KeysOf(Put(es, k, v)) == [k];
    } else {
      KeySetCons(es);
      ConsTail(es);
      KeysOfCons(es[0], es[1..]);
      if es[0].key == k {
        KeysOfCons(Entry(k, v), es[1..]);
      } else {
        PutKeyOrder(es[1..], k, v);
        KeysOfCons(es[0], Put(es[1..], k, v));
        if k !in KeySet(es) {
          ConsSnocKeys(es[0].key, KeysOf(es[1..]), k);
        }
      }
    }
  }

  lemma KeysOfCons(x: Entry, ys: seq<Entry>)
    ensures KeysOf([x] + ys) == [x.key] + KeysOf(ys)
  {
    assert ([x] + ys)[1..] == ys;
  }

  lemma ConsSnocKeys(a: Key, ks: seq<Key>, b: Key)
    ensures [a] + (ks + [b]) == [a] + ks + [b]
  {
  }

  /** Storing under a new key appends one entry. */
  lemma {:induction false} PutNewKey(es: seq<Entry>, k: Key, v: Value)
    requires k !in KeySet(es)
    ensures Put(es, k, v) == es + [Entry(k, v)]
  {
    if es != [] {
      KeySetCons(es);
      PutNewKey(es[1..], k, v);
      ConsSnoc(es, Entry(k, v));
    }
  }

  lemma ConsSnoc(es: seq<Entry>, e: Entry)
    requires es != []
    ensures [es[0]] + (es[1..] + [e]) == es + [e]
  {
    assert es == [es[0]] + es[1..];
  }

  /** Storing the value a key already holds changes nothing. */
  lemma {:induction false} PutSame(es: seq<Entry>, k: Key, v: Value)
    requires Find(es, k) == Some(v)
    ensures Put(es, k, v) == es
  {
    ConsTail(es);
    if es[0].key != k {
      PutSame(es[1..], k, v);
    }
  }

  lemma ConsTail(es: seq<Entry>)
    requires es != []
    ensures [es[0]] + es[1..] == es
  {
  }

  /** Storing into an array with distinct keys keeps the keys distinct. */
  lemma {:induction false} PutDistinct(es: seq<Entry>, k: Key, v: Value)
    requires DistinctKeys(es)
    ensures DistinctKeys(Put(es, k, v))
  {
    if es != [] {
      DistinctUncons(es);
      if es[0].key == k {
        DistinctCons(Entry(k, v), es[1..]);
      } else {
        PutDistinct(es[1..], k, v);
        DistinctCons(es[0], Put(es[1..], k, v));
      }
    }
  }

  lemma DistinctUncons(es: seq<Entry>)
    requires es != [] && DistinctKeys(es)
    ensures DistinctKeys(es[1..]) && es[0].key !in KeySet(es[1..])
  {
    forall e | e in es[1..] ensures e.key != es[0].key {
      var j :| 0 <= j < |es[1..]| && es[1..][j] == e;
      assert e == es[j + 1];
    }
  }

  lemma DistinctCons(x: Entry, ys: seq<Entry>)
    requires DistinctKeys(ys) && x.key !in KeySet(ys)
    ensures DistinctKeys([x] + ys)
  {
    var r := [x] + ys;
    forall i, j | 0 <= i < j < |r| ensures r[i].key != r[j].key {
      assert r[j] == ys[j - 1];
      if i > 0 {
        assert r[i] == ys[i - 1];
      } else {
        assert r[j] in ys;
      }
    }
  }

  /** Looking up the key of the `j`th entry of an array with distinct keys
      finds that entry's value. */
  lemma {:induction false} FindAt(es: seq<Entry>, j: nat)
    requires DistinctKeys(es) && j < |es|
    ensures Find(es, es[j].key) == Some(es[j].val)
  {
    if j > 0 {
      FindAt(es[1..], j - 1);
    }
  }

  /** A value stored in a well-formed array is well-formed. */
  lemma FoundWellFormed(es: seq<Entry>, k: Key)
    requires WellFormed(Arr(es)) && k in KeySet(es)
    ensures WellFormed(Find(es, k).value)
  {
    var j :| 0 <= j < |es| && es[j] == Entry(k, Find(es, k).value);
  }

  /** `$obj->name` for a property read: the property's value when `obj` is an
      object that has it, and `null` otherwise (PHP reads a missing property,
      or a property of a non-object, as `null` after a warning). */
  function Property(obj: Value, name: string): (r: Value)
    ensures obj.Obj? && StrKey(name) in KeySet(obj.props) ==> Entry(StrKey(name), r) in obj.props
    ensures !(obj.Obj? && StrKey(name) in KeySet(obj.props)) ==> r == Null
  {
    if obj.Obj? then
      match Find(obj.props, StrKey(name))
      case Some(v) => v
      case None => Null
    else Null
  }
}
