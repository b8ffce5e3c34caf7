/**
 * `find_duplicates`, `remove_duplicates` and `find_and_remove_duplicates`:
 * every abbreviation that two or more names share is struck out of every
 * name's dictionary.
 */
module Deduplicator {
  import opened Dicts
  import opened AbbreviationGenerator

  /** The number of records whose dictionary has the key `k`. */
  function Owners(all: seq<NameRecord>, k: string): nat {
    if all == [] then 0
    else Owners(all[..|all| - 1], k) + (if k in Keys(all[|all| - 1].abbreviations) then 1 else 0)
  }

  /** The abbreviations that are keys of more than one record's dictionary. */
  function Duplicates(all: seq<NameRecord>): set<string> {
    set t, k | 0 <= t < |all| && k in Keys(all[t].abbreviations) && Owners(all, k) > 1 :: k
  }

  /** The count kept for `k` by `instances`, 0 when the key is absent. */
  function Tally(instances: map<string, nat>, k: string): nat {
    if k in instances then instances[k] else 0
  }

  /** A key with an owner is a key of some record, and conversely. */
  lemma {:induction false} OwnersPositive(all: seq<NameRecord>, k: string)
    ensures Owners(all, k) > 0 <==> exists t :: 0 <= t < |all| && k in Keys(all[t].abbreviations)
  {
    if all != [] {
      var p := all[..|all| - 1];
      OwnersPositive(p, k);
      assert forall t :: 0 <= t < |p| ==> p[t] == all[t];
    }
  }

  /** Two different records holding the key make it owned more than once. */
  lemma {:induction false} OwnersOfTwo(all: seq<NameRecord>, k: string, t1: nat, t2: nat)
    requires t1 < t2 < |all|
    requires k in Keys(all[t1].abbreviations) && k in Keys(all[t2].abbreviations)
    ensures Owners(all, k) > 1
  {
    var p := all[..|all| - 1];
    assert p[t1] == all[t1];
    if t2 < |all| - 1 {
      assert p[t2] == all[t2];
      OwnersOfTwo(p, k, t1, t2);
    } else {
      OwnersPositive(p, k);
    }
  }

  /** A key owned more than once is held by two different records. */
  lemma {:induction false} TwoOfOwners(all: seq<NameRecord>, k: string)
    requires Owners(all, k) > 1
    ensures exists t1, t2 :: 0 <= t1 < t2 < |all| && k in Keys(all[t1].abbreviations) && k in Keys(all[t2].abbreviations)
  {
    var p := all[..|all| - 1];
    if Owners(p, k) > 1 {
      TwoOfOwners(p, k);
      var t1, t2 :| 0 <= t1 < t2 < |p| && k in Keys(p[t1].abbreviations) && k in Keys(p[t2].abbreviations);
      assert p[t1] == all[t1] && p[t2] == all[t2];
    } else {
      OwnersPositive(p, k);
      var t1 :| 0 <= t1 < |p| && k in Keys(p[t1].abbreviations);
      assert p[t1] == all[t1];
      assert k in Keys(all[|all| - 1].abbreviations);
    }
  }

  /** The duplicates are exactly the keys held by two different records. */
  lemma DuplicatesSpec(all: seq<NameRecord>, k: string)
    ensures k in Duplicates(all) <==>
      exists t1, t2 :: 0 <= t1 < |all| && 0 <= t2 < |all| && t1 != t2
        && k in Keys(all[t1].abbreviations) && k in Keys(all[t2].abbreviations)
  {
    if Owners(all, k) > 1 {
      TwoOfOwners(all, k);
    }
    if exists t1, t2 :: 0 <= t1 < |all| && 0 <= t2 < |all| && t1 != t2
        && k in Keys(all[t1].abbreviations) && k in Keys(all[t2].abbreviations) {
      var t1, t2 :| 0 <= t1 < |all| && 0 <= t2 < |all| && t1 != t2
        && k in Keys(all[t1].abbreviations) && k in Keys(all[t2].abbreviations);
      if t1 < t2 {
        OwnersOfTwo(all, k, t1, t2);
      } else {
        OwnersOfTwo(all, k, t2, t1);
      }
    }
  }

  /**
   * `find_duplicates`: count, for every abbreviation, the dictionaries that
   * hold it, and return those counted more than once.
   */
  method FindDuplicates(all: seq<NameRecord>) returns (duplicates: set<string>)
    ensures duplicates == Duplicates(all)
  {
    var instances: map<string, nat> := map[];
    var t := 0;
    while t < |all|
      invariant 0 <= t <= |all|
      invariant forall k :: Tally(instances, k) == Owners(all[..t], k)
    {
      instances := CountKeys(instances, all[t].abbreviations);
      assert all[..t + 1][..t] == all[..t];
      t := t + 1;
    }
    assert all[..t] == all;
    duplicates := set k | k in instances && instances[k] > 1;
    forall k | k in Duplicates(all) ensures k in duplicates {
      assert Tally(instances, k) == Owners(all, k);
    }
    forall k | k in duplicates ensures k in Duplicates(all) {
      assert Tally(instances, k) == Owners(all, k);
      OwnersPositive(all, k);
    }
  }

  /** The inner loop of `find_duplicates`: one more count for every key of `d`. */
  method CountKeys(instances: map<string, nat>, d: Dict) returns (counts: map<string, nat>)
    ensures forall k :: Tally(counts, k) == Tally(instances, k) + (if k in Keys(d) then 1 else 0)
  {
    counts := instances;
    var u := 0;
    while u < |d.keys|
      invariant 0 <= u <= |d.keys|
      invariant forall k :: Tally(counts, k) == Tally(instances, k) + (if k in d.keys[..u] then 1 else 0)
    {
      var abbreviation := d.keys[u];
      assert d.keys[..u + 1] == d.keys[..u] + [abbreviation];
      assert abbreviation !in d.keys[..u];
      counts := counts[abbreviation := if abbreviation !in counts then 1 else counts[abbreviation] + 1];
      u := u + 1;
    }
    assert d.keys[..u] == d.keys;
  }

  /** The keys `ks` without those in `removed`, in their order. */
  function Without(ks: seq<string>, removed: set<string>): (r: seq<string>)
    ensures forall x :: x in r <==> x in ks && x !in removed
    ensures (forall a, b :: 0 <= a < b < |ks| ==> ks[a] != ks[b]) ==>
      forall a, b :: 0 <= a < b < |r| ==> r[a] != r[b]
  {
    if ks == [] then []
    else
      var p := Without(ks[..|ks| - 1], removed);
      assert forall x :: x in ks <==> x in ks[..|ks| - 1] || x == ks[|ks| - 1] by {
        assert ks == ks[..|ks| - 1] + [ks[|ks| - 1]];
      }
      if ks[|ks| - 1] in removed then p else p + [ks[|ks| - 1]]
  }

  /**
   * Striking keys out keeps the others in their order: the kept keys of a
   * prefix of `ks` are a prefix of the kept keys of `ks`.
   */
  lemma {:induction false} WithoutOrder(ks: seq<string>, removed: set<string>)
    ensures forall i :: 0 <= i <= |ks| ==> Without(ks[..i], removed) <= Without(ks, removed)
  {
    if ks != [] {
      var p := ks[..|ks| - 1];
      WithoutOrder(p, removed);
      forall i | 0 <= i <= |ks| ensures Without(ks[..i], removed) <= Without(ks, removed) {
        if i < |ks| {
          assert ks[..i] == p[..i];
        } else {
          assert ks[..i] == ks;
        }
      }
    }
  }

  /**
   * The dictionary comprehension of `remove_duplicates`: `d` without the keys
   * in `removed`, the rest in their order and with their scores.
   */
  function Restrict(d: Dict, removed: set<string>): (r: Dict)
    ensures r.keys == Without(d.keys, removed)
    ensures Keys(r) == Keys(d) - removed
    ensures forall k :: k in Keys(r) ==> r.values[k] == d.values[k]
  {
    var ks := Without(d.keys, removed);
    var m := map k | k in d.values && k !in removed :: d.values[k];
    assert forall k :: k in m ==> k in ks;
    forall a | 0 <= a < |ks| ensures ks[a] in m {
      assert ks[a] in d.keys;
      var i :| 0 <= i < |d.keys| && d.keys[i] == ks[a];
    }
    OrderedMap(ks, m)
  }

  /** `remove_duplicates`: every record with the keys in `duplicates` struck out. */
  function RemoveDuplicates(all: seq<NameRecord>, duplicates: set<string>): (r: seq<NameRecord>)
    ensures |r| == |all|
    ensures forall t :: 0 <= t < |all| ==> r[t].name == all[t].name
    ensures forall t :: 0 <= t < |all| ==> Keys(r[t].abbreviations) == Keys(all[t].abbreviations) - duplicates
    ensures forall t :: 0 <= t < |all| ==>
      r[t].abbreviations.keys == Without(all[t].abbreviations.keys, duplicates)
    ensures forall t, k :: 0 <= t < |all| && k in Keys(r[t].abbreviations) ==>
      k in Keys(all[t].abbreviations) && r[t].abbreviations.values[k] == all[t].abbreviations.values[k]
  {
    seq(|all|, t requires 0 <= t < |all| => NameRecord(all[t].name, Restrict(all[t].abbreviations, duplicates)))
  }

  /** What `find_and_remove_duplicates` returns. */
  function Deduplicated(all: seq<NameRecord>): seq<NameRecord> {
    RemoveDuplicates(all, Duplicates(all))
  }

  /** `find_and_remove_duplicates`. */
  method FindAndRemoveDuplicates(all: seq<NameRecord>) returns (r: seq<NameRecord>)
    ensures r == Deduplicated(all)
  {
    var duplicates := FindDuplicates(all);
    r := RemoveDuplicates(all, duplicates);
  }

  /**
   * Deduplication keeps the records, their names and their order, keeps a
   * key of a record with its score exactly when no other record has that
   * key, keeps the kept keys in their order, and so leaves no key shared by
   * two records.
   */
  lemma DeduplicatedSpec(all: seq<NameRecord>)
    ensures |Deduplicated(all)| == |all|
    ensures forall t :: 0 <= t < |all| ==> Deduplicated(all)[t].name == all[t].name
    ensures forall t, k :: 0 <= t < |all| && k in Keys(Deduplicated(all)[t].abbreviations) ==>
      k in Keys(all[t].abbreviations)
      && Deduplicated(all)[t].abbreviations.values[k] == all[t].abbreviations.values[k]
    ensures forall t :: 0 <= t < |all| ==>
      Deduplicated(all)[t].abbreviations.keys == Without(all[t].abbreviations.keys, Duplicates(all))
    ensures forall t, k :: 0 <= t < |all| && k in Keys(all[t].abbreviations) ==>
      (k in Keys(Deduplicated(all)[t].abbreviations) <==>
        forall t' :: 0 <= t' < |all| && t' != t ==> k !in Keys(all[t'].abbreviations))
    ensures forall t1, t2 :: 0 <= t1 < |all| && 0 <= t2 < |all| && t1 != t2 ==>
      Keys(Deduplicated(all)[t1].abbreviations) !! Keys(Deduplicated(all)[t2].abbreviations)
  {
    forall k { DuplicatesSpec(all, k); }
  }
}
