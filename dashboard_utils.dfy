/**
 * The dashboard's aggregation layer (repo_health_dashboard/utils/utils.py):
 * flattening nested per-repository results, aligning every repository on
 * the union of keys, and laying out the CSV report.
 */
module DashboardUtils {
  import opened Wrappers
  import opened Seqs
  import opened Text
  import opened Json

  // ---------------------------------------------------------------------
  // squash_dict
  // ---------------------------------------------------------------------

  /** No value of the dict is itself a dict. */
  predicate Flat(d: seq<Entry>) {
    forall e :: e in d ==> !e.value.Dict?
  }

  /** The entries of `flat`, each key prefixed with `prefix`. */
  function Prefixed(prefix: string, flat: seq<Entry>): (r: seq<Entry>)
    ensures |r| == |flat|
    ensures forall i :: 0 <= i < |flat| ==> r[i] == Entry(prefix + flat[i].key, flat[i].value)
  {
    if flat == [] then []
    else Prefixed(prefix, flat[..|flat| - 1]) + [Entry(prefix + flat[|flat| - 1].key, flat[|flat| - 1].value)]
  }

  /** Assigns the entries of `xs` into `out`, first to last. */
  function Build(out: seq<Entry>, xs: seq<Entry>): (r: seq<Entry>)
    ensures UniqueKeys(out) ==> UniqueKeys(r)
    ensures Flat(out) && Flat(xs) ==> Flat(r)
  {
    if xs == [] then out
    else
      var acc := Build(out, xs[..|xs| - 1]);
      var x := xs[|xs| - 1];
      PutShape(acc, x.key, x.value);
      PutEntries(acc, x.key, x.value);
      Put(acc, x.key, x.value)
  }

  /**
   * `squash_dict(input, delimiter)` continuing from the partly built `out`:
   * entries are visited in order; a dict value is squashed recursively
   * and its keys joined to the parent key, any other value (lists
   * included) is assigned under its own key.  The recursive call passes
   * no delimiter, so below the top level keys are joined with ".".
   */
  function SquashOnto(out: seq<Entry>, input: seq<Entry>, delimiter: string): (r: seq<Entry>)
    ensures UniqueKeys(out) ==> UniqueKeys(r)
    ensures Flat(out) ==> Flat(r)
    decreases input
  {
    if input == [] then out
    else
      var acc := SquashOnto(out, input[..|input| - 1], delimiter);
      var e := input[|input| - 1];
      match e.value
      case Dict(sub) =>
        var inner := SquashOnto([], sub, ".");
        Build(acc, Prefixed(e.key + delimiter, inner))
      case _ =>
        PutShape(acc, e.key, e.value);
        PutEntries(acc, e.key, e.value);
        Put(acc, e.key, e.value)
  }

  /** `squash_dict(input, delimiter)`: a one-level dict with distinct keys and no dict values. */
  function Squash(input: seq<Entry>, delimiter: string): (r: seq<Entry>)
    ensures UniqueKeys(r) && Flat(r)
  {
    SquashOnto([], input, delimiter)
  }

  /** Every entry of `Put(d, k, v)` is the new one or an entry of `d`. */
  lemma {:induction false} PutEntries(d: seq<Entry>, k: string, v: Value)
    ensures forall e :: e in Put(d, k, v) ==> e == Entry(k, v) || e in d
  {
    if d != [] && d[0].key != k {
      PutEntries(d[1..], k, v);
    }
  }

  // --- the meaning of squash_dict: last write wins over the leaf paths ---

  /**
   * Every leaf of `input` under its joined key, in visiting order: the
   * writes `squash_dict` performs, before collisions are resolved.
   */
  function LeafPaths(input: seq<Entry>, delimiter: string): (r: seq<Entry>)
    ensures Flat(r)
    decreases input
  {
    if input == [] then []
    else
      var e := input[|input| - 1];
      LeafPaths(input[..|input| - 1], delimiter) +
        match e.value
        case Dict(sub) => Prefixed(e.key + delimiter, LeafPaths(sub, "."))
        case _ => [e]
  }

  /** The value last written under `k` in `xs`. */
  function LastLookup(xs: seq<Entry>, k: string): (r: Option<Value>)
    ensures r.None? <==> k !in KeySet(xs)
  {
    if xs == [] then None
    else if xs[|xs| - 1].key == k then
      assert xs[|xs| - 1].key in KeySet(xs);
      Some(xs[|xs| - 1].value)
    else
      assert xs == xs[..|xs| - 1] + [xs[|xs| - 1]];
      KeySetSnoc(xs[..|xs| - 1], xs[|xs| - 1]);
      LastLookup(xs[..|xs| - 1], k)
  }

  function Override(a: Option<Value>, b: Option<Value>): Option<Value> {
    if a.Some? then a else b
  }

  lemma {:induction false} KeySetSnoc(d: seq<Entry>, x: Entry)
    ensures KeySet(d + [x]) == KeySet(d) + {x.key}
  {
    if d != [] {
      assert (d + [x])[1..] == d[1..] + [x];
      KeySetSnoc(d[1..], x);
    }
  }

  lemma {:induction false} LastLookupConcat(a: seq<Entry>, b: seq<Entry>, k: string)
    ensures LastLookup(a + b, k) == Override(LastLookup(b, k), LastLookup(a, k))
  {
    if b == [] {
      assert a + b == a;
    } else {
      assert (a + b)[..|a + b| - 1] == a + b[..|b| - 1];
      assert (a + b)[|a + b| - 1] == b[|b| - 1];
      LastLookupConcat(a, b[..|b| - 1], k);
    }
  }

  lemma {:induction false} LastLookupPrefixed(p: string, ys: seq<Entry>, k: string)
    ensures LastLookup(Prefixed(p, ys), k) ==
      if StartsWith(k, p) then LastLookup(ys, k[|p|..]) else None
  {
    if ys != [] {
      var y := ys[|ys| - 1];
      assert Prefixed(p, ys)[..|ys| - 1] == Prefixed(p, ys[..|ys| - 1]);
      LastLookupPrefixed(p, ys[..|ys| - 1], k);
      if p + y.key == k {
        assert k[|p|..] == y.key;
      } else if StartsWith(k, p) {
        assert k == p + k[|p|..];
      }
    }
  }

  lemma {:induction false} BuildLookup(out: seq<Entry>, xs: seq<Entry>, k: string)
    ensures Lookup(Build(out, xs), k) == Override(LastLookup(xs, k), Lookup(out, k))
  {
    if xs != [] {
      BuildLookup(out, xs[..|xs| - 1], k);
    }
  }

  /** In a dict with distinct keys the last write under a key is the only one. */
  lemma {:induction false} UniqueLastLookup(d: seq<Entry>, k: string)
    requires UniqueKeys(d)
    ensures LastLookup(d, k) == Lookup(d, k)
  {
    if d != [] {
      assert d == [d[0]] + d[1..];
      LastLookupConcat([d[0]], d[1..], k);
      UniqueLastLookup(d[1..], k);
    }
  }

  /**
   * What `squash_dict` continuing from `out` holds under each key: the
   * value last written under it by the leaf paths, or else what `out`
   * held.
   */
  lemma {:induction false} SquashOntoLookup(out: seq<Entry>, input: seq<Entry>, delimiter: string, k: string)
    ensures Lookup(SquashOnto(out, input, delimiter), k) ==
      Override(LastLookup(LeafPaths(input, delimiter), k), Lookup(out, k))
    decreases input
  {
    if input != [] {
      var e := input[|input| - 1];
      SquashOntoLookup(out, input[..|input| - 1], delimiter, k);
      if e.value.Dict? && StartsWith(k, e.key + delimiter) {
        SquashOntoLookup([], e.value.entries, ".", k[|e.key + delimiter|..]);
      }
      SquashOntoStep(out, input, delimiter, k);
    }
  }

  /** The inductive step of `SquashOntoLookup`: the last entry of `input`, given the claim before it and inside it. */
  lemma SquashOntoStep(out: seq<Entry>, input: seq<Entry>, delimiter: string, k: string)
    requires input != []
    requires Lookup(SquashOnto(out, input[..|input| - 1], delimiter), k) ==
      Override(LastLookup(LeafPaths(input[..|input| - 1], delimiter), k), Lookup(out, k))
    requires var e := input[|input| - 1];
      e.value.Dict? && StartsWith(k, e.key + delimiter) ==>
        Lookup(SquashOnto([], e.value.entries, "."), k[|e.key + delimiter|..]) ==
          Override(LastLookup(LeafPaths(e.value.entries, "."), k[|e.key + delimiter|..]), Lookup([], k[|e.key + delimiter|..]))
    ensures Lookup(SquashOnto(out, input, delimiter), k) ==
      Override(LastLookup(LeafPaths(input, delimiter), k), Lookup(out, k))
  {
    var pre := input[..|input| - 1];
    var e := input[|input| - 1];
    var acc := SquashOnto(out, pre, delimiter);
    match e.value
    case Dict(sub) =>
      var p := e.key + delimiter;
      SquashDictStep(out, acc, LeafPaths(pre, delimiter), p, SquashOnto([], sub, "."), LeafPaths(sub, "."), k);
      assert SquashOnto(out, input, delimiter) == Build(acc, Prefixed(p, SquashOnto([], sub, ".")));
      assert LeafPaths(input, delimiter) == LeafPaths(pre, delimiter) + Prefixed(p, LeafPaths(sub, "."));
    case _ =>
      SquashLeafStep(out, acc, LeafPaths(pre, delimiter), e, k);
      assert SquashOnto(out, input, delimiter) == Put(acc, e.key, e.value);
      assert LeafPaths(input, delimiter) == LeafPaths(pre, delimiter) + [e];
  }

  /** One leaf's step of `SquashOntoLookup`: assigning it is a last write over the dict built so far. */
  lemma SquashLeafStep(out: seq<Entry>, acc: seq<Entry>, preLeaves: seq<Entry>, e: Entry, k: string)
    requires Lookup(acc, k) == Override(LastLookup(preLeaves, k), Lookup(out, k))
    ensures Lookup(Put(acc, e.key, e.value), k) == Override(LastLookup(preLeaves + [e], k), Lookup(out, k))
  {
    LastLookupConcat(preLeaves, [e], k);
    assert [e][..0] == [];
  }

  /** One nested dict's step of `SquashOntoLookup`, given what holds before it and inside it. */
  lemma SquashDictStep(out: seq<Entry>, acc: seq<Entry>, preLeaves: seq<Entry>, p: string,
                       inner: seq<Entry>, subLeaves: seq<Entry>, k: string)
    requires Lookup(acc, k) == Override(LastLookup(preLeaves, k), Lookup(out, k))
    requires UniqueKeys(inner)
    requires StartsWith(k, p) ==> Lookup(inner, k[|p|..]) == Override(LastLookup(subLeaves, k[|p|..]), None)
    ensures Lookup(Build(acc, Prefixed(p, inner)), k) ==
      Override(LastLookup(preLeaves + Prefixed(p, subLeaves), k), Lookup(out, k))
  {
    LastLookupConcat(preLeaves, Prefixed(p, subLeaves), k);
    BuildLookup(acc, Prefixed(p, inner), k);
    LastLookupPrefixed(p, inner, k);
    LastLookupPrefixed(p, subLeaves, k);
    if StartsWith(k, p) {
      UniqueLastLookup(inner, k[|p|..]);
    }
  }

  /**
   * squash_dict as a dict: its keys are the joined keys of the leaves,
   * and under each key it holds the value written there last, so on a
   * collision the later entry wins.
   */
  lemma SquashLookup(input: seq<Entry>, delimiter: string, k: string)
    ensures Lookup(Squash(input, delimiter), k) == LastLookup(LeafPaths(input, delimiter), k)
  {
    SquashOntoLookup([], input, delimiter, k);
  }

  lemma {:induction false} UniqueKeysSnoc(d: seq<Entry>, x: Entry)
    ensures UniqueKeys(d + [x]) <==> UniqueKeys(d) && x.key !in KeySet(d)
  {
    if d != [] {
      assert (d + [x])[1..] == d[1..] + [x];
      UniqueKeysSnoc(d[1..], x);
      KeySetSnoc(d[1..], x);
    }
  }

  /** A one-level dict is left as it is, whatever the delimiter. */
  lemma {:induction false} SquashFlatIdentity(input: seq<Entry>, delimiter: string)
    requires Flat(input) && UniqueKeys(input)
    ensures Squash(input, delimiter) == input
  {
    if input != [] {
      var pre := input[..|input| - 1];
      var e := input[|input| - 1];
      assert input == pre + [e];
      UniqueKeysSnoc(pre, e);
      SquashFlatIdentity(pre, delimiter);
      PutShape(pre, e.key, e.value);
    }
  }

  /** Squashing a squashed dict changes nothing. */
  lemma SquashIdempotent(input: seq<Entry>, delimiter: string, delimiter': string)
    ensures Squash(Squash(input, delimiter), delimiter') == Squash(input, delimiter)
  {
    SquashFlatIdentity(Squash(input, delimiter), delimiter');
  }

  /** squash_dict folds over the entries, so it splits over a concatenation. */
  lemma {:induction false} SquashOntoConcat(out: seq<Entry>, a: seq<Entry>, b: seq<Entry>, delimiter: string)
    ensures SquashOnto(out, a + b, delimiter) == SquashOnto(SquashOnto(out, a, delimiter), b, delimiter)
  {
    if b == [] {
      assert a + b == a;
    } else {
      var pre := (a + b)[..|a + b| - 1];
      assert pre == a + b[..|b| - 1];
      assert (a + b)[|a + b| - 1] == b[|b| - 1];
      SquashOntoConcat(out, a, b[..|b| - 1], delimiter);
      assert SquashOnto(out, pre, delimiter) == SquashOnto(SquashOnto(out, a, delimiter), b[..|b| - 1], delimiter);
    }
  }

  /** A nested empty dict contributes nothing: its key vanishes from the output. */
  lemma EmptyDictVanishes(a: seq<Entry>, k: string, b: seq<Entry>, delimiter: string)
    ensures Squash(a + [Entry(k, Dict([]))] + b, delimiter) == Squash(a + b, delimiter)
  {
    SquashOntoConcat([], a + [Entry(k, Dict([]))], b, delimiter);
    SquashOntoConcat([], a, [Entry(k, Dict([]))], delimiter);
    assert (a + [Entry(k, Dict([]))])[..|a|] == a;
    SquashOntoConcat([], a, b, delimiter);
  }

  lemma SquashSingleLeaf(k: string, v: Value, delimiter: string)
    requires !v.Dict?
    ensures Squash([Entry(k, v)], delimiter) == [Entry(k, v)]
  {
    assert [Entry(k, v)][..0] == [];
    assert SquashOnto([], [], delimiter) == [];
    assert Put([], k, v) == [Entry(k, v)];
  }

  lemma SquashSingleDict(k: string, sub: seq<Entry>, delimiter: string)
    ensures Squash([Entry(k, Dict(sub))], delimiter) == Build([], Prefixed(k + delimiter, Squash(sub, ".")))
  {
    assert [Entry(k, Dict(sub))][..0] == [];
    assert SquashOnto([], [], delimiter) == [];
  }

  lemma BuildSingle(x: Entry)
    ensures Build([], [x]) == [x]
  {
    assert [x][..0] == [];
    assert Put([], x.key, x.value) == [x];
  }

  /** Only the top level is joined with the given delimiter; deeper levels use ".". */
  lemma DelimiterOnlyAtTop(k1: string, k2: string, k3: string, v: Value, delimiter: string)
    requires !v.Dict?
    ensures Squash([Entry(k1, Dict([Entry(k2, Dict([Entry(k3, v)]))]))], delimiter)
         == [Entry(k1 + delimiter + k2 + "." + k3, v)]
  {
    var leaf := [Entry(k3, v)];
    var mid := [Entry(k2, Dict(leaf))];
    var top := [Entry(k1, Dict(mid))];
    var midKey := k2 + "." + k3;
    var topKey := k1 + delimiter + k2 + "." + k3;
    assert k1 + delimiter + midKey == topKey;
    calc {
      Squash(mid, ".");
      { SquashSingleDict(k2, leaf, "."); }
      Build([], Prefixed(k2 + ".", Squash(leaf, ".")));
      { SquashSingleLeaf(k3, v, "."); }
      Build([], Prefixed(k2 + ".", leaf));
      { assert Prefixed(k2 + ".", leaf) == [Entry(midKey, v)]; }
      Build([], [Entry(midKey, v)]);
      { BuildSingle(Entry(midKey, v)); }
      [Entry(midKey, v)];
    }
    calc {
      Squash(top, delimiter);
      { SquashSingleDict(k1, mid, delimiter); }
      Build([], Prefixed(k1 + delimiter, Squash(mid, ".")));
      Build([], Prefixed(k1 + delimiter, [Entry(midKey, v)]));
      { assert Prefixed(k1 + delimiter, [Entry(midKey, v)]) == [Entry(topKey, v)]; }
      Build([], [Entry(topKey, v)]);
      { BuildSingle(Entry(topKey, v)); }
      [Entry(topKey, v)];
    }
  }

  /** A nested key and a literal dotted key collide; the one written later wins, in the earlier one's place. */
  lemma CollisionLastWriteWins()
    ensures Squash([Entry("a.b", Int(1)), Entry("a", Dict([Entry("b", Int(2))]))], ".")
         == [Entry("a.b", Int(2))]
  {
    var input := [Entry("a.b", Int(1)), Entry("a", Dict([Entry("b", Int(2))]))];
    assert input[..1] == [Entry("a.b", Int(1))];
    assert input[..1][..0] == [];
    assert SquashOnto([], [], ".") == [];
    assert Put([], "a.b", Int(1)) == [Entry("a.b", Int(1))];
    var first := SquashOnto([], input[..1], ".");
    assert first == [Entry("a.b", Int(1))];
    var inner := SquashOnto([], [Entry("b", Int(2))], ".");
    assert [Entry("b", Int(2))][..0] == [];
    assert Put([], "b", Int(2)) == [Entry("b", Int(2))];
    assert inner == [Entry("b", Int(2))];
    assert "a" + "." == "a.";
    assert "a." + "b" == "a.b";
    var joined := Prefixed("a.", inner);
    assert joined == [Entry("a.b", Int(2))];
    assert joined[..0] == [];
    assert Build(first, joined) == [Entry("a.b", Int(2))];
  }

  // ---------------------------------------------------------------------
  // get_superset_of_keys, standardize_metadata_by_repo
  // ---------------------------------------------------------------------

  /**
   * One repository's flattened results, keyed by the repository name.  The
   * order of the inner dict is not kept: after standardization it is the
   * iteration order of a set, which Python leaves unspecified.
   */
  datatype RepoMetadata = RepoMetadata(name: string, metadata: map<string, Value>)

  /** The union of the keys of every repository's results. */
  function SupersetOfKeys(repos: seq<RepoMetadata>): (keys: set<string>)
    ensures forall k :: k in keys <==> exists i :: 0 <= i < |repos| && k in repos[i].metadata
  {
    if repos == [] then {}
    else SupersetOfKeys(repos[..|repos| - 1]) + repos[|repos| - 1].metadata.Keys
  }

  /** `get_superset_of_keys(dicts)`: accumulates the key sets, one repository at a time. */
  method GetSupersetOfKeys(repos: seq<RepoMetadata>) returns (keys: set<string>)
    ensures keys == SupersetOfKeys(repos)
  {
    keys := {};
    for i := 0 to |repos|
      invariant keys == SupersetOfKeys(repos[..i])
    {
      assert repos[..i + 1][..i] == repos[..i];
      keys := keys + repos[i].metadata.Keys;
    }
    assert repos[..|repos|] == repos;
  }

  /** `{k: None for k in keys}`. */
  function Defaults(keys: set<string>): (m: map<string, Value>)
    ensures m.Keys == keys
  {
    map k | k in keys :: Null
  }

  /** `superset_output = defaults.copy(); superset_output.update(metadata)`. */
  function Fill(keys: set<string>, metadata: map<string, Value>): (m: map<string, Value>)
    ensures m.Keys == keys + metadata.Keys
    ensures forall k :: k in m ==> m[k] == if k in metadata then metadata[k] else Null
  {
    Defaults(keys) + metadata
  }

  /** Filling an already filled map against the same keys changes nothing. */
  lemma FillIdempotent(keys: set<string>, metadata: map<string, Value>)
    ensures Fill(keys, Fill(keys, metadata)) == Fill(keys, metadata)
  {
    var once := Fill(keys, metadata);
    var twice := Fill(keys, once);
    assert twice.Keys == once.Keys;
    forall k | k in once
      ensures twice[k] == once[k]
    {
    }
  }

  /**
   * `standardize_metadata_by_repo`: every repository keeps its name and
   * position and gets exactly the superset of keys, with its own values
   * where it has them and None elsewhere.
   */
  function Standardize(repos: seq<RepoMetadata>): (r: seq<RepoMetadata>)
    ensures |r| == |repos|
    ensures forall i :: 0 <= i < |r| ==>
      r[i].name == repos[i].name && r[i].metadata.Keys == SupersetOfKeys(repos)
    ensures forall i, k :: 0 <= i < |r| && k in r[i].metadata ==>
      r[i].metadata[k] == if k in repos[i].metadata then repos[i].metadata[k] else Null
    ensures forall i :: 0 <= i < |r| ==> r[i].metadata == Fill(SupersetOfKeys(repos), repos[i].metadata)
  {
    var keys := SupersetOfKeys(repos);
    seq(|repos|, i requires 0 <= i < |repos| => RepoMetadata(repos[i].name, Fill(keys, repos[i].metadata)))
  }

  /** `standardize_metadata_by_repo`, as the loop over the repositories it is. */
  method StandardizeMetadataByRepo(repos: seq<RepoMetadata>) returns (r: seq<RepoMetadata>)
    ensures r == Standardize(repos)
  {
    var supersetKeys := GetSupersetOfKeys(repos);
    var defaults := Defaults(supersetKeys);
    r := [];
    for i := 0 to |repos|
      invariant r == Standardize(repos)[..i]
    {
      var supersetOutput := defaults + repos[i].metadata;
      r := r + [RepoMetadata(repos[i].name, supersetOutput)];
    }
  }

  /** A key is in the superset exactly when some repository has it. */
  lemma {:induction false} SupersetMember(repos: seq<RepoMetadata>, k: string)
    ensures k in SupersetOfKeys(repos) <==> exists i :: 0 <= i < |repos| && k in repos[i].metadata
  {
    if repos != [] {
      var init := repos[..|repos| - 1];
      SupersetMember(init, k);
      if k in SupersetOfKeys(init) {
        var i :| 0 <= i < |init| && k in init[i].metadata;
        assert k in repos[i].metadata;
      }
      if exists i :: 0 <= i < |repos| && k in repos[i].metadata {
        var i :| 0 <= i < |repos| && k in repos[i].metadata;
        if i < |init| {
          assert k in init[i].metadata;
        }
      }
    }
  }

  /** Standardizing keeps the superset of keys. */
  lemma StandardizeKeepsKeys(repos: seq<RepoMetadata>)
    ensures SupersetOfKeys(Standardize(repos)) == SupersetOfKeys(repos)
  {
    var once := Standardize(repos);
    var keys := SupersetOfKeys(repos);
    forall k
      ensures k in SupersetOfKeys(once) <==> k in keys
    {
      SupersetMember(repos, k);
      SupersetMember(once, k);
      if k in keys {
        var i :| 0 <= i < |repos| && k in repos[i].metadata;
        assert k in once[i].metadata;
      }
    }
  }

  /** One standardized repository, standardized again against the same keys. */
  lemma RestandardizeOne(repos: seq<RepoMetadata>, i: nat)
    requires i < |repos|
    requires SupersetOfKeys(Standardize(repos)) == SupersetOfKeys(repos)
    ensures Standardize(Standardize(repos))[i] == Standardize(repos)[i]
  {
    var keys := SupersetOfKeys(repos);
    assert Standardize(repos)[i].metadata == Fill(keys, repos[i].metadata);
    assert Standardize(Standardize(repos))[i].metadata == Fill(keys, Standardize(repos)[i].metadata);
    FillIdempotent(keys, repos[i].metadata);
  }

  /** Standardizing a standardized set changes nothing. */
  lemma StandardizeIdempotent(repos: seq<RepoMetadata>)
    ensures Standardize(Standardize(repos)) == Standardize(repos)
  {
    StandardizeKeepsKeys(repos);
    forall i | 0 <= i < |repos|
      ensures Standardize(Standardize(repos))[i] == Standardize(repos)[i]
    {
      RestandardizeOne(repos, i);
    }
  }

  /** Every standardized repository has as many keys as the superset. */
  lemma StandardizeSameSize(repos: seq<RepoMetadata>, i: nat, j: nat)
    requires i < |repos| && j < |repos|
    ensures |Standardize(repos)[i].metadata| == |Standardize(repos)[j].metadata| == |SupersetOfKeys(repos)|
  {
    var r := Standardize(repos);
    assert r[i].metadata.Keys == r[j].metadata.Keys == SupersetOfKeys(repos);
  }

  // ---------------------------------------------------------------------
  // squash_and_standardize_metadata_by_repo
  // ---------------------------------------------------------------------

  /** A dict as a map from key to value (order forgotten). */
  function AsMap(d: seq<Entry>): (m: map<string, Value>)
    ensures m.Keys == KeySet(d)
    ensures forall k :: k in m ==> Lookup(d, k) == Some(m[k])
  {
    map k | k in KeySet(d) :: Lookup(d, k).value
  }

  predicate AllDicts(entries: seq<Entry>) {
    forall e :: e in entries ==> e.value.Dict?
  }

  /** Every repository's nested results replaced by their squashed form, in place. */
  function SquashEach(entries: seq<Entry>): (r: seq<Entry>)
    requires AllDicts(entries)
    ensures |r| == |entries| && AllDicts(r)
    ensures forall i :: 0 <= i < |r| ==> r[i].key == entries[i].key
  {
    seq(|entries|, i requires 0 <= i < |entries| =>
      Entry(entries[i].key, Dict(Squash(entries[i].value.entries, "."))))
  }

  /** The outer dict read as repositories with flat results. */
  function AsRepos(entries: seq<Entry>): (r: seq<RepoMetadata>)
    requires AllDicts(entries)
    ensures |r| == |entries|
  {
    seq(|entries|, i requires 0 <= i < |entries| =>
      RepoMetadata(entries[i].key, AsMap(entries[i].value.entries)))
  }

  /** The `metadata_by_repo` dict that `squash_and_standardize_metadata_by_repo` receives and rewrites. */
  class MetadataByRepo {
    /** repository name -> that repository's nested results, in insertion order */
    var entries: seq<Entry>

    constructor (entries: seq<Entry>)
      ensures this.entries == entries
    {
      this.entries := entries;
    }

    /**
     * `squash_and_standardize_metadata_by_repo`: overwrites every
     * repository's results with their squashed form (the caller sees the
     * change), then standardizes.
     */
    method SquashAndStandardize() returns (r: seq<RepoMetadata>)
      requires AllDicts(entries)
      modifies this
      ensures AllDicts(entries) && entries == SquashEach(old(entries))
      ensures r == Standardize(AsRepos(entries))
    {
      SquashEntries();
      r := StandardizeMetadataByRepo(AsRepos(entries));
    }

    /** The loop of `squash_and_standardize_metadata_by_repo` that squashes each repository's results in place. */
    method SquashEntries()
      requires AllDicts(entries)
      modifies this
      ensures AllDicts(entries) && entries == SquashEach(old(entries))
    {
      ghost var original := entries;
      ghost var squashed := SquashEach(original);
      for i := 0 to |entries|
        invariant |entries| == |original|
        invariant forall j :: 0 <= j < i ==> entries[j] == squashed[j]
        invariant forall j :: i <= j < |entries| ==> entries[j] == original[j]
      {
        var item := entries[i];
        assert item in original;
        entries := entries[i := Entry(item.key, Dict(Squash(item.value.entries, ".")))];
      }
      assert entries == squashed;
    }
  }

  // ---------------------------------------------------------------------
  // write_squashed_metadata_to_csv: columns, header and rows
  // ---------------------------------------------------------------------

  /** `configuration['check_order']` and `configuration['key_aliases']`. */
  datatype Configuration = Configuration(checkOrder: seq<string>, keyAliases: map<string, string>)

  /** Python's `a < b` on str: lexicographic by code point, a proper prefix first. */
  predicate Below(a: string, b: string) {
    b != [] && (a == [] || a[0] < b[0] || (a[0] == b[0] && Below(a[1..], b[1..])))
  }

  lemma {:induction false} BelowTransitive(a: string, b: string, c: string)
    requires Below(a, b) && Below(b, c)
    ensures Below(a, c)
  {
    if a != [] && a[0] == b[0] && b[0] == c[0] {
      BelowTransitive(a[1..], b[1..], c[1..]);
    }
  }

  lemma {:induction false} BelowTotal(a: string, b: string)
    ensures a == b || Below(a, b) || Below(b, a)
  {
    if a != [] && b != [] && a[0] == b[0] {
      BelowTotal(a[1..], b[1..]);
      if a[1..] == b[1..] {
        assert a == [a[0]] + a[1..] && b == [b[0]] + b[1..];
      }
    }
  }

  lemma {:induction false} BelowIrreflexive(a: string)
    ensures !Below(a, a)
  {
    if a != [] {
      BelowIrreflexive(a[1..]);
    }
  }

  predicate StrictlySorted(s: seq<string>) {
    forall i, j :: 0 <= i < j < |s| ==> Below(s[i], s[j])
  }

  /** The least key of a non-empty set. */
  method Minimum(keys: set<string>) returns (m: string)
    requires keys != {}
    ensures m in keys
    ensures forall k :: k in keys && k != m ==> Below(m, k)
  {
    m :| m in keys;
    var rest := keys - {m};
    while rest != {}
      invariant m in keys && m !in rest && rest <= keys
      invariant forall k :: k in keys - rest && k != m ==> Below(m, k)
      decreases |rest|
    {
      var x :| x in rest;
      if Below(x, m) {
        forall k | k in keys - rest && k != x
          ensures Below(x, k)
        {
          if k != m {
            BelowTransitive(x, m, k);
          }
        }
        m := x;
      } else {
        BelowTotal(x, m);
      }
      rest := rest - {x};
    }
  }

  /** Appending the least remaining key keeps the prefix sorted and below the rest. */
  lemma SortStep(r: seq<string>, rest: set<string>, m: string)
    requires StrictlySorted(r) && m in rest
    requires forall i, k :: 0 <= i < |r| && k in rest ==> Below(r[i], k)
    requires forall k :: k in rest && k != m ==> Below(m, k)
    ensures StrictlySorted(r + [m])
    ensures forall i, k :: 0 <= i < |r| + 1 && k in rest - {m} ==> Below((r + [m])[i], k)
  {
    var r' := r + [m];
    forall i, j | 0 <= i < j < |r'|
      ensures Below(r'[i], r'[j])
    {
      if j < |r| {
        assert r'[i] == r[i] && r'[j] == r[j];
      }
    }
    forall i, k | 0 <= i < |r'| && k in rest - {m}
      ensures Below(r'[i], k)
    {
      if i < |r| {
        assert r'[i] == r[i];
      }
    }
  }

  /** Moving `m` from the unsorted rest to the end of the sorted prefix keeps the partition of `keys`. */
  lemma MoveToSorted(r: seq<string>, rest: set<string>, keys: set<string>, m: string)
    requires Elems(r) + rest == keys && Elems(r) !! rest && m in rest
    ensures Elems(r + [m]) + (rest - {m}) == keys && Elems(r + [m]) !! rest - {m}
  {
    assert Elems(r + [m]) == Elems(r) + {m};
  }

  /** `sorted(keys)`: the keys in ascending order. */
  method SortedKeys(keys: set<string>) returns (r: seq<string>)
    ensures Elems(r) == keys
    ensures StrictlySorted(r)
  {
    r := [];
    var rest := keys;
    while rest != {}
      invariant Elems(r) + rest == keys && Elems(r) !! rest
      invariant StrictlySorted(r)
      invariant forall i, k :: 0 <= i < |r| && k in rest ==> Below(r[i], k)
      decreases |rest|
    {
      var m := Minimum(rest);
      SortStep(r, rest, m);
      MoveToSorted(r, rest, keys, m);
      r := r + [m];
      rest := rest - {m};
    }
  }

  /** The header label of a column: its alias when it has one. */
  function Alias(config: Configuration, key: string): string {
    if key in config.keyAliases then config.keyAliases[key] else key
  }

  /** `[item[k] for k in columns]`: raises KeyError at the first column the row lacks. */
  function Cells(metadata: map<string, Value>, columns: seq<string>): (r: Result<seq<Value>>)
    ensures r.Ok? <==> forall c :: c in columns ==> c in metadata
    ensures r.Ok? ==>
      (|r.value| == |columns| && forall i :: 0 <= i < |columns| ==> r.value[i] == metadata[columns[i]])
    ensures r.Err? ==>
      (exists i :: 0 <= i < |columns| && r.error == KeyError(columns[i]) &&
        columns[i] !in metadata && forall j :: 0 <= j < i ==> columns[j] in metadata)
  {
    if columns == [] then Ok([])
    else if columns[0] !in metadata then Err(KeyError(columns[0]))
    else
      match Cells(metadata, columns[1..])
      case Ok(rest) => Ok([metadata[columns[0]]] + rest)
      case Err(e) => Err(e)
  }

  /** One CSV row: the repository name, then its value in each column. */
  function Row(repo: RepoMetadata, columns: seq<string>): Result<seq<Value>> {
    match Cells(repo.metadata, columns)
    case Ok(cells) => Ok([Str(repo.name)] + cells)
    case Err(e) => Err(e)
  }

  /**
   * `write_squashed_metadata_to_csv` without the file: the columns are
   * `check_order` followed by the remaining superset keys in ascending
   * order; the header is "repo_name" and each column's alias or key; then
   * one row per repository in input order, until a repository lacks a
   * column, which raises KeyError after the earlier rows were written.
   */
  method WriteSquashedMetadataToCsv(repos: seq<RepoMetadata>, config: Configuration)
    returns (columns: seq<string>, header: seq<string>, written: seq<seq<Value>>, failure: Option<Error>)
    ensures |config.checkOrder| <= |columns| && columns[..|config.checkOrder|] == config.checkOrder
    ensures var rest := columns[|config.checkOrder|..];
      StrictlySorted(rest) && Elems(rest) == SupersetOfKeys(repos) - Elems(config.checkOrder)
    ensures |header| == |columns| + 1 && header[0] == "repo_name"
    ensures forall i :: 0 <= i < |columns| ==> header[i + 1] == Alias(config, columns[i])
    ensures |written| <= |repos|
    ensures forall i :: 0 <= i < |written| ==> Row(repos[i], columns) == Ok(written[i])
    ensures failure.None? <==> |written| == |repos|
    ensures failure.Some? ==> Row(repos[|written|], columns) == Err(failure.value)
  {
    columns := OrderedColumns(repos, config);
    header := Header(config, columns);
    written, failure := WriteRows(repos, columns);
  }

  /** The column order: `check_order`, then the other superset keys, sorted. */
  method OrderedColumns(repos: seq<RepoMetadata>, config: Configuration) returns (columns: seq<string>)
    ensures |config.checkOrder| <= |columns| && columns[..|config.checkOrder|] == config.checkOrder
    ensures var rest := columns[|config.checkOrder|..];
      StrictlySorted(rest) && Elems(rest) == SupersetOfKeys(repos) - Elems(config.checkOrder)
  {
    var supersetKeys := GetSupersetOfKeys(repos);
    for i := 0 to |config.checkOrder|
      invariant supersetKeys == SupersetOfKeys(repos) - Elems(config.checkOrder[..i])
    {
      assert Elems(config.checkOrder[..i + 1]) == Elems(config.checkOrder[..i]) + {config.checkOrder[i]};
      supersetKeys := supersetKeys - {config.checkOrder[i]};
    }
    assert config.checkOrder[..|config.checkOrder|] == config.checkOrder;
    var sorted := SortedKeys(supersetKeys);
    columns := config.checkOrder + sorted;
    assert columns[|config.checkOrder|..] == sorted;
  }

  /** The header row: "repo_name", then each column's alias, or the column itself without one. */
  method Header(config: Configuration, columns: seq<string>) returns (header: seq<string>)
    ensures |header| == |columns| + 1 && header[0] == "repo_name"
    ensures forall i :: 0 <= i < |columns| ==> header[i + 1] == Alias(config, columns[i])
  {
    var aliased: seq<string> := [];
    for i := 0 to |columns|
      invariant |aliased| == i
      invariant forall j :: 0 <= j < i ==> aliased[j] == Alias(config, columns[j])
    {
      if columns[i] in config.keyAliases {
        aliased := aliased + [config.keyAliases[columns[i]]];
      } else {
        aliased := aliased + [columns[i]];
      }
    }
    header := ["repo_name"] + aliased;
  }

  /** The rows, one per repository in order, stopping at the first KeyError. */
  method WriteRows(repos: seq<RepoMetadata>, columns: seq<string>) returns (written: seq<seq<Value>>, failure: Option<Error>)
    ensures |written| <= |repos|
    ensures forall i :: 0 <= i < |written| ==> Row(repos[i], columns) == Ok(written[i])
    ensures failure.None? <==> |written| == |repos|
    ensures failure.Some? ==> Row(repos[|written|], columns) == Err(failure.value)
  {
    written := [];
    failure := None;
    for i := 0 to |repos|
      invariant |written| == i
      invariant forall j :: 0 <= j < i ==> Row(repos[j], columns) == Ok(written[j])
    {
      var row := Row(repos[i], columns);
      if row.Err? {
        failure := Some(row.error);
        return;
      }
      written := written + [row.value];
    }
  }

  /**
   * On a standardized set whose `check_order` names only known keys, no
   * row can fail: every repository has every column.
   */
  lemma StandardizedRowsComplete(repos: seq<RepoMetadata>, config: Configuration, columns: seq<string>, i: nat)
    requires i < |repos|
    requires forall j :: 0 <= j < |repos| ==> repos[j].metadata.Keys == SupersetOfKeys(repos)
    requires Elems(columns) <= SupersetOfKeys(repos)
    ensures Row(repos[i], columns).Ok?
  {
    assert forall c :: c in columns ==> c in repos[i].metadata;
  }
}
