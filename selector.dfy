/**
 * `choose_best_abbreviations_inner` and `choose_best_abbreviations`: for
 * every name, all abbreviations tied for the lowest score, in dictionary
 * order.
 */
module BestSelector {
  import opened Outcomes
  import opened Dicts
  import opened AbbreviationGenerator

  /** The score of `k` in `d`; only ever asked of stored keys. */
  function Score(d: Dict, k: string): int {
    if k in d.values then d.values[k] else 0
  }

  /** The lowest score of the keys `ks`. */
  function Lowest(d: Dict, ks: seq<string>): (r: int)
    requires ks != []
    ensures forall x :: x in ks ==> r <= Score(d, x)
    ensures exists x :: x in ks && Score(d, x) == r
  {
    var p := ks[..|ks| - 1];
    var s := Score(d, ks[|ks| - 1]);
    assert ks == p + [ks[|ks| - 1]];
    if p == [] then s
    else
      var m := Lowest(d, p);
      if s < m then s else m
  }

  /** The keys of `ks` whose score is `m`, in the order of `ks`. */
  function WithScore(d: Dict, ks: seq<string>, m: int): (r: seq<string>)
    ensures forall x :: x in r <==> x in ks && Score(d, x) == m
    ensures (forall a, b :: 0 <= a < b < |ks| ==> ks[a] != ks[b]) ==>
      forall a, b :: 0 <= a < b < |r| ==> r[a] != r[b]
  {
    if ks == [] then []
    else
      var p := ks[..|ks| - 1];
      var last := ks[|ks| - 1];
      assert ks == p + [last];
      if Score(d, last) == m then WithScore(d, p, m) + [last] else WithScore(d, p, m)
  }

  /** One more key lowers the minimum exactly when its score is below it. */
  lemma LowestSnoc(d: Dict, ks: seq<string>, x: string)
    requires ks != []
    ensures Lowest(d, ks + [x]) == if Score(d, x) < Lowest(d, ks) then Score(d, x) else Lowest(d, ks)
  {
    assert (ks + [x])[..|ks|] == ks;
  }

  /** One more key joins the keys with score `m` exactly when it scores `m`. */
  lemma WithScoreSnoc(d: Dict, ks: seq<string>, x: string, m: int)
    ensures WithScore(d, ks + [x], m) == if Score(d, x) == m then WithScore(d, ks, m) + [x] else WithScore(d, ks, m)
  {
    assert (ks + [x])[..|ks|] == ks;
  }

  /** No key of `ks` scores `m` when `m` is below their lowest score. */
  lemma WithScoreBelow(d: Dict, ks: seq<string>, m: int)
    requires ks != []
    requires m < Lowest(d, ks)
    ensures WithScore(d, ks, m) == []
  {
  }

  /**
   * `WithScore` keeps the order of `ks`: the keys it picks from a prefix of
   * `ks` come first, in the same order.
   */
  lemma {:induction false} WithScoreOrder(d: Dict, ks: seq<string>, m: int)
    ensures forall i :: 0 <= i <= |ks| ==> WithScore(d, ks[..i], m) <= WithScore(d, ks, m)
  {
    if ks != [] {
      var p := ks[..|ks| - 1];
      WithScoreOrder(d, p, m);
      forall i | 0 <= i <= |ks| ensures WithScore(d, ks[..i], m) <= WithScore(d, ks, m) {
        if i < |ks| {
          assert ks[..i] == p[..i];
        } else {
          assert ks[..i] == ks;
        }
      }
    }
  }

  /** The keys of `d` tied for the lowest score, in dictionary order. */
  function Best(d: Dict): seq<string> {
    if d.keys == [] then [] else WithScore(d, d.keys, Lowest(d, d.keys))
  }

  /** Exactly the empty dictionary has no winners. */
  lemma BestEmpty(d: Dict)
    ensures Best(d) == [] <==> Keys(d) == {}
  {
    KeysListed(d);
    if d.keys != [] {
      var m := Lowest(d, d.keys);
      var x :| x in d.keys && Score(d, x) == m;
      assert x in Best(d);
    } else {
      assert Keys(d) == {};
    }
  }

  /** The winners are exactly the keys whose score no other key undercuts. */
  lemma BestMinimal(d: Dict)
    ensures forall k :: k in Best(d) <==>
      k in Keys(d) && forall k' :: k' in Keys(d) ==> d.values[k] <= d.values[k']
  {
    KeysListed(d);
    if d.keys != [] {
      var m := Lowest(d, d.keys);
      forall k | k in Keys(d) && (forall k' :: k' in Keys(d) ==> d.values[k] <= d.values[k'])
        ensures k in Best(d)
      {
        var x :| x in d.keys && Score(d, x) == m;
        assert d.values[k] <= d.values[x];
      }
    }
  }

  /**
   * Every winner appears once, and the winners keep dictionary order: those
   * among the first `i` keys come first.
   */
  lemma BestOrder(d: Dict)
    ensures forall a, b :: 0 <= a < b < |Best(d)| ==> Best(d)[a] != Best(d)[b]
    ensures d.keys != [] ==> forall i :: 0 <= i <= |d.keys| ==>
      WithScore(d, d.keys[..i], Lowest(d, d.keys)) <= Best(d)
  {
    if d.keys != [] {
      WithScoreOrder(d, d.keys, Lowest(d, d.keys));
    }
  }

  /**
   * `choose_best_abbreviations_inner`: a running minimum, where `None` stands
   * for the initial `float('inf')`; a lower score restarts the winners, an
   * equal one joins them.
   */
  method ChooseBestAbbreviationsInner(d: Dict) returns (best: seq<string>)
    ensures best == Best(d)
  {
    var minScore: Option<int> := None;
    best := [];
    ghost var visited: seq<string> := [];
    for u := 0 to |d.keys|
      invariant visited == d.keys[..u]
      invariant u == 0 ==> minScore == None && best == []
      invariant u > 0 ==> minScore == Some(Lowest(d, visited)) && best == WithScore(d, visited, Lowest(d, visited))
    {
      var abbreviation := d.keys[u];
      var score := d.values[abbreviation];
      assert score == Score(d, abbreviation);
      WithScoreSnoc(d, visited, abbreviation, score);
      if u > 0 {
        LowestSnoc(d, visited, abbreviation);
      }
      if minScore.None? || score < minScore.value {
        if u > 0 {
          WithScoreBelow(d, visited, score);
        }
        best := [abbreviation];
        minScore := Some(score);
      } else if score == minScore.value {
        best := best + [abbreviation];
      }
      PrefixSnoc(d.keys, u);
      visited := visited + [abbreviation];
    }
    assert visited == d.keys;
  }

  /** A prefix one longer is the prefix followed by the next element. */
  lemma PrefixSnoc(s: seq<string>, u: nat)
    requires u < |s|
    ensures s[..u + 1] == s[..u] + [s[u]]
  {
  }

  /** `choose_best_abbreviations`: each name with its winners. */
  function ChooseBestAbbreviations(filtered: seq<NameRecord>): (r: seq<(string, seq<string>)>)
    ensures |r| == |filtered|
    ensures forall t :: 0 <= t < |filtered| ==> r[t] == (filtered[t].name, Best(filtered[t].abbreviations))
  {
    seq(|filtered|, t requires 0 <= t < |filtered| => (filtered[t].name, Best(filtered[t].abbreviations)))
  }
}
