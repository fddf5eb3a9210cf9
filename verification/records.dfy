/** A DNS record as the updater holds it: a Python dictionary decoded from the
    provider's JSON, modelled as an association list of (key, value) pairs in
    insertion order. Every value is kept as its textual rendering. */
module Records {
  import opened Wrappers

  type Key = string
  type Value = string
  type Record = seq<(Key, Value)>

  /** The keys of a record, in insertion order. */
  function Keys(r: Record): (ks: seq<Key>)
    ensures |ks| == |r|
  {
    if |r| == 0 then [] else [r[0].0] + Keys(r[1..])
  }

  predicate HasKey(r: Record, k: Key) {
    |r| > 0 && (r[0].0 == k || HasKey(r[1..], k))
  }

  /** A dictionary never holds the same key twice. */
  predicate DistinctKeys(r: Record) {
    |r| == 0 || (!HasKey(r[1..], r[0].0) && DistinctKeys(r[1..]))
  }

  /** `record[k]`: the value stored under `k`, if any. */
  function Lookup(r: Record, k: Key): (v: Option<Value>)
    ensures v.Some? <==> HasKey(r, k)
  {
    if |r| == 0 then None
    else if r[0].0 == k then Some(r[0].1)
    else Lookup(r[1..], k)
  }

  /** `record[k] = v`: an existing key keeps its position and gets the new
      value, a new key is appended at the end. */
  function SetKey(r: Record, k: Key, v: Value): (r': Record)
    ensures HasKey(r, k) ==> |r'| == |r| && Keys(r') == Keys(r)
    ensures !HasKey(r, k) ==> r' == r + [(k, v)]
  {
    if |r| == 0 then [(k, v)]
    else if r[0].0 == k then [(k, v)] + r[1..]
    else [r[0]] + SetKey(r[1..], k, v)
  }

  /** After `record[k] = v` the key reads back as `v` and every other key
      reads back as before. */
  lemma {:induction false} SetKeyLookup(r: Record, k: Key, v: Value, k': Key)
    ensures Lookup(SetKey(r, k, v), k') == if k' == k then Some(v) else Lookup(r, k')
  {
    if |r| > 0 && r[0].0 != k {
      SetKeyLookup(r[1..], k, v, k');
    }
  }

  /** `record[k] = v` keeps the keys distinct. */
  lemma {:induction false} SetKeyDistinct(r: Record, k: Key, v: Value)
    requires DistinctKeys(r)
    ensures DistinctKeys(SetKey(r, k, v))
  {
    if |r| > 0 && r[0].0 != k {
      SetKeyDistinct(r[1..], k, v);
      SetKeyLookup(r[1..], k, v, r[0].0);
    }
  }

  /** A key that is present was stored in some pair of the record. */
  lemma {:induction false} LookupFound(r: Record, k: Key) returns (j: nat)
    requires HasKey(r, k)
    ensures j < |r| && r[j] == (k, Lookup(r, k).value)
  {
    if r[0].0 == k {
      j := 0;
    } else {
      var j' := LookupFound(r[1..], k);
      j := j' + 1;
    }
  }

  /** Appending a pair appends its key. */
  lemma {:induction false} KeysSnoc(r: Record, p: (Key, Value))
    ensures Keys(r + [p]) == Keys(r) + [p.0]
  {
    if |r| == 0 {
      assert r + [p] == [p];
    } else {
      assert (r + [p])[1..] == r[1..] + [p];
      KeysSnoc(r[1..], p);
    }
  }
}
