/**
 * The `{abbreviation: score}` dictionaries of the program. Python's `dict`
 * keeps its keys in insertion order, so a dictionary is the sequence of its
 * keys in that order together with the map from key to score.
 */
module Dicts {
  import opened Outcomes

  datatype OrderedMap = OrderedMap(keys: seq<string>, values: map<string, int>)

  /** The keys are distinct and are exactly the keys of the map. */
  predicate Valid(d: OrderedMap) {
    && (forall a, b :: 0 <= a < b < |d.keys| ==> d.keys[a] != d.keys[b])
    && (forall k :: k in d.values ==> k in d.keys)
    && (forall a :: 0 <= a < |d.keys| ==> d.keys[a] in d.values)
  }

  /** A dictionary from abbreviation to score, in insertion order. */
  type Dict = d: OrderedMap | Valid(d) witness OrderedMap([], map[])

  /** A key is listed in the order exactly when it is stored. */
  lemma KeysListed(d: Dict)
    ensures forall k :: k in d.keys <==> k in Keys(d)
  {
    forall k | k in d.keys ensures k in Keys(d) {
      var a :| 0 <= a < |d.keys| && d.keys[a] == k;
    }
  }

  /** `{}`. */
  const Empty: Dict := OrderedMap([], map[])

  /** `d.keys()` as a set. */
  function Keys(d: Dict): set<string> {
    d.values.Keys
  }

  /** `k in d` together with `d[k]`: the stored value, if the key is present. */
  function Lookup(d: Dict, k: string): (r: Option<int>)
    ensures r.Some? <==> k in Keys(d)
    ensures r.Some? ==> r.value == d.values[k]
  {
    if k in d.values then Some(d.values[k]) else None
  }

  /**
   * `d[k] = v`: an existing key keeps its position and takes the new score, a
   * new key goes to the end.
   */
  function Put(d: Dict, k: string, v: int): (r: Dict)
    ensures Keys(r) == Keys(d) + {k}
    ensures r.values == d.values[k := v]
    ensures r.keys == if k in Keys(d) then d.keys else d.keys + [k]
  {
    if k in d.values then OrderedMap(d.keys, d.values[k := v])
    else OrderedMap(d.keys + [k], d.values[k := v])
  }

  /** A sequence of (key, value) entries, as `items()` lists them or as candidates arrive. */
  type Entries = seq<(string, int)>

  /** The keys occurring in a sequence of entries. */
  function EntryKeys(cs: Entries): set<string> {
    set i | 0 <= i < |cs| :: cs[i].0
  }
}
