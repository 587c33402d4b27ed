/**
 * The loosely typed nested results the checks produce: JSON-like values
 * whose dicts keep Python's insertion order.  A dict is a sequence of
 * entries with distinct keys; assigning to a present key replaces its
 * value where it stands, assigning to a new key appends it.
 */
module Json {
  import opened Wrappers

  datatype Value =
    | Null
    | Bool(b: bool)
    | Int(i: int)
    | Str(s: string)
    | List(items: seq<Value>)
    | Dict(entries: seq<Entry>)

  datatype Entry = Entry(key: string, value: Value)

  /** The keys of a dict, in order. */
  function Keys(d: seq<Entry>): (r: seq<string>)
    ensures |r| == |d|
    ensures forall i :: 0 <= i < |d| ==> r[i] == d[i].key
  {
    if d == [] then [] else [d[0].key] + Keys(d[1..])
  }

  function KeySet(d: seq<Entry>): (r: set<string>)
    ensures forall i :: 0 <= i < |d| ==> d[i].key in r
  {
    if d == [] then {} else {d[0].key} + KeySet(d[1..])
  }

  /** A well-formed Python dict: no key twice. */
  predicate UniqueKeys(d: seq<Entry>) {
    d == [] || (d[0].key !in KeySet(d[1..]) && UniqueKeys(d[1..]))
  }

  /** `d.get(k)`. */
  function Lookup(d: seq<Entry>, k: string): (r: Option<Value>)
    ensures r.None? <==> k !in KeySet(d)
    ensures r.Some? ==> Entry(k, r.value) in d
  {
    if d == [] then None
    else if d[0].key == k then Some(d[0].value)
    else Lookup(d[1..], k)
  }

  /** `d[k] = v`. */
  function Put(d: seq<Entry>, k: string, v: Value): (r: seq<Entry>)
    ensures Lookup(r, k) == Some(v)
    ensures forall k' :: k' != k ==> Lookup(r, k') == Lookup(d, k')
    ensures KeySet(r) == KeySet(d) + {k}
  {
    if d == [] then [Entry(k, v)]
    else if d[0].key == k then [Entry(k, v)] + d[1..]
    else [d[0]] + Put(d[1..], k, v)
  }

  /** Assigning keeps the dict's shape: a present key stays where it is, a new key goes last, and no key is doubled. */
  lemma {:induction false} PutShape(d: seq<Entry>, k: string, v: Value)
    ensures k in KeySet(d) ==> |Put(d, k, v)| == |d|
    ensures k !in KeySet(d) ==> Put(d, k, v) == d + [Entry(k, v)]
    ensures UniqueKeys(d) ==> UniqueKeys(Put(d, k, v))
  {
    if d != [] && d[0].key != k {
      PutShape(d[1..], k, v);
    }
  }

  /** In a dict with distinct keys, the entry at a position is what a lookup of its key finds. */
  lemma {:induction false} LookupAt(d: seq<Entry>, i: nat)
    requires UniqueKeys(d) && i < |d|
    ensures Lookup(d, d[i].key) == Some(d[i].value)
  {
    if i > 0 {
      LookupAt(d[1..], i - 1);
    }
  }
}
