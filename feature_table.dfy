/**
 * The feature dictionary the parser fills: a Dictionary<string, Feature>
 * built with StringComparer.OrdinalIgnoreCase. Keys that differ only in
 * letter case are one key; the spelling stored is the one the key was first
 * added with, and enumeration follows insertion order.
 */
module FeatureTables {
  import opened Wrappers
  import opened Strings
  import opened Features

  /** keys: stored spellings in insertion order; entries: the features, by folded key. */
  datatype Table = Table(keys: seq<string>, entries: map<string, Feature>)

  const EmptyTable := Table([], map[])

  /** The dictionary invariant: one stored key per folded key, and one entry per stored key. */
  ghost predicate WellFormed(t: Table) {
    (forall i, j :: 0 <= i < j < |t.keys| ==> Fold(t.keys[i]) != Fold(t.keys[j]))
    && t.entries.Keys == FoldedKeys(t.keys)
  }

  /** The folded forms of the stored keys. */
  ghost function FoldedKeys(keys: seq<string>): set<string> {
    set i | 0 <= i < |keys| :: Fold(keys[i])
  }

  lemma FoldedKeysAppend(keys: seq<string>, key: string)
    ensures FoldedKeys(keys + [key]) == FoldedKeys(keys) + {Fold(key)}
  {
    var ks := keys + [key];
    forall k | k in FoldedKeys(ks) ensures k in FoldedKeys(keys) + {Fold(key)} {
      var i :| 0 <= i < |ks| && Fold(ks[i]) == k;
      if i < |keys| { assert ks[i] == keys[i]; }
    }
    forall k | k in FoldedKeys(keys) + {Fold(key)} ensures k in FoldedKeys(ks) {
      if k == Fold(key) {
        assert Fold(ks[|keys|]) == k;
      } else {
        var i :| 0 <= i < |keys| && Fold(keys[i]) == k;
        assert Fold(ks[i]) == k;
      }
    }
  }

  lemma FoldedKeysHas(keys: seq<string>, i: nat)
    requires i < |keys|
    ensures Fold(keys[i]) in FoldedKeys(keys)
  {
  }

  /** Dictionary.ContainsKey / TryGetValue success, case-insensitively. */
  predicate Contains(t: Table, key: string) {
    Fold(key) in t.entries
  }

  function Get(t: Table, key: string): Feature
    requires Contains(t, key)
  {
    t.entries[Fold(key)]
  }

  function Lookup(t: Table, key: string): (r: Option<Feature>)
    ensures r.Some? <==> Contains(t, key)
    ensures r.Some? ==> r.value == Get(t, key)
  {
    if Contains(t, key) then Some(Get(t, key)) else None
  }

  /** Dictionary.Add of a key not yet present: the key is stored after all earlier ones. */
  function Insert(t: Table, key: string, f: Feature): (u: Table)
    ensures u.keys == t.keys + [key] && Contains(u, key) && Get(u, key) == f
    ensures forall k :: Contains(t, k) && Fold(k) != Fold(key) ==> Contains(u, k) && Get(u, k) == Get(t, k)
    ensures forall k :: Contains(u, k) <==> Contains(t, k) || Fold(k) == Fold(key)
  {
    Table(t.keys + [key], t.entries[Fold(key) := f])
  }

  /** Adding a key that is not present keeps the dictionary invariant. */
  lemma InsertWellFormed(t: Table, key: string, f: Feature)
    requires WellFormed(t) && !Contains(t, key)
    ensures WellFormed(Insert(t, key, f))
  {
    FoldedKeysAppend(t.keys, key);
    forall i | 0 <= i < |t.keys| ensures Fold(t.keys[i]) != Fold(key) {
      FoldedKeysHas(t.keys, i);
    }
  }

  /** Storing a changed feature under a key: the stored spellings are untouched. */
  function Replace(t: Table, key: string, f: Feature): (u: Table)
    ensures u.keys == t.keys && Contains(u, key) && Get(u, key) == f
    ensures forall k :: Contains(u, k) <==> Contains(t, k) || Fold(k) == Fold(key)
    ensures forall k :: Contains(t, k) && Fold(k) != Fold(key) ==> Get(u, k) == Get(t, k)
  {
    Table(t.keys, t.entries[Fold(key) := f])
  }

  /** Replacing under a key already present keeps the dictionary invariant: no key is added, moved or removed. */
  lemma ReplaceWellFormed(t: Table, key: string, f: Feature)
    requires WellFormed(t) && Contains(t, key)
    ensures WellFormed(Replace(t, key, f))
  {
  }

  /** Keys are compared case-insensitively: spellings with the same fold find the same feature. */
  lemma LookupIgnoresCase(t: Table, a: string, b: string)
    requires Fold(a) == Fold(b)
    ensures Lookup(t, a) == Lookup(t, b)
  {
  }

  /** The imperative dictionary the parser mutates in place. */
  class FeatureDictionary {
    var keys: seq<string>
    var entries: map<string, Feature>

    function Value(): Table
      reads this
    {
      Table(keys, entries)
    }

    ghost predicate Valid()
      reads this
    {
      WellFormed(Value())
    }

    constructor ()
      ensures Valid() && Value() == EmptyTable
    {
      keys := [];
      entries := map[];
    }

    function ContainsKey(key: string): (b: bool)
      reads this
      ensures b <==> Contains(Value(), key)
    {
      Fold(key) in entries
    }

    /** The indexer getter: the feature stored under key. */
    function Item(key: string): (f: Feature)
      reads this
      requires ContainsKey(key)
      ensures f == Get(Value(), key)
    {
      entries[Fold(key)]
    }

    method Add(key: string, f: Feature)
      requires Valid() && !ContainsKey(key)
      modifies this
      ensures Valid() && Value() == Insert(old(Value()), key, f)
    {
      InsertWellFormed(Value(), key, f);
      keys := keys + [key];
      entries := entries[Fold(key) := f];
    }

    /** The indexer setter on a present key, which is how an in-place change of a stored Feature shows. */
    method SetItem(key: string, f: Feature)
      requires Valid() && ContainsKey(key)
      modifies this
      ensures Valid() && Value() == Replace(old(Value()), key, f)
    {
      ReplaceWellFormed(Value(), key, f);
      entries := entries[Fold(key) := f];
    }
  }
}
