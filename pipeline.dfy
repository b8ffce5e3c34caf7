/**
 * The computation of `main`, on the letter table and the name lines already
 * read: abbreviate every name, strike out the shared abbreviations, and keep
 * the cheapest remaining ones of every name.
 */
module Pipeline {
  import opened Outcomes
  import opened Dicts
  import opened LetterScorer
  import opened AbbreviationGenerator
  import opened Deduplicator
  import opened BestSelector

  /** Each name line with its chosen abbreviations, or the letter missing from the table. */
  function BestAbbreviations(lines: seq<string>, values: LetterValues): Result<seq<(string, seq<string>)>, char> {
    match AllAbbreviations(lines, values)
    case Failure(c) => Failure(c)
    case Success(all) => Success(ChooseBestAbbreviations(Deduplicated(all)))
  }

  /** `k` is an abbreviation of record `t` and of no other record. */
  predicate Unique(all: seq<NameRecord>, t: int, k: string)
    requires 0 <= t < |all|
  {
    && k in Keys(all[t].abbreviations)
    && forall t' :: 0 <= t' < |all| && t' != t ==> k !in Keys(all[t'].abbreviations)
  }

  /**
   * `k` is an abbreviation of record `t` that no other record shares and that
   * scores no more than any other such abbreviation of the record.
   */
  ghost predicate Winner(all: seq<NameRecord>, t: int, k: string)
    requires 0 <= t < |all|
  {
    && Unique(all, t, k)
    && forall k' :: Unique(all, t, k') ==> all[t].abbreviations.values[k] <= all[t].abbreviations.values[k']
  }

  /** After deduplication, the winners picked for a record are exactly its winners. */
  lemma BestOfDeduplicated(all: seq<NameRecord>, t: int)
    requires 0 <= t < |all|
    ensures forall k :: k in Best(Deduplicated(all)[t].abbreviations) <==> Winner(all, t, k)
  {
    DeduplicatedSpec(all);
    BestMinimal(Deduplicated(all)[t].abbreviations);
  }

  /**
   * Picking the keys with score `m` out of the keys left by striking out
   * `removed` is striking out, in one pass, the keys in `removed` and those
   * whose score is not `m`.
   */
  lemma {:induction false} WithScoreOfWithout(d: Dict, ks: seq<string>, removed: set<string>, m: int, dropped: set<string>)
    requires forall k :: k in ks ==> (k in dropped <==> k in removed || Score(d, k) != m)
    ensures WithScore(d, Without(ks, removed), m) == Without(ks, dropped)
  {
    if ks != [] {
      var p := ks[..|ks| - 1];
      var x := ks[|ks| - 1];
      assert forall k :: k in p ==> k in ks;
      WithScoreOfWithout(d, p, removed, m, dropped);
      if x !in removed {
        WithScoreSnoc(d, Without(p, removed), x, m);
      }
    }
  }

  /**
   * After deduplication, the winners picked for a record come in the order
   * of the record's dictionary: they are its keys with every non-winner
   * struck out.
   */
  lemma BestOrderOfDeduplicated(all: seq<NameRecord>, t: int)
    requires 0 <= t < |all|
    ensures Best(Deduplicated(all)[t].abbreviations)
      == Without(all[t].abbreviations.keys, set k | k in Keys(all[t].abbreviations) && !Winner(all, t, k))
  {
    var d := all[t].abbreviations;
    var e := Deduplicated(all)[t].abbreviations;
    var dropped := set k | k in Keys(d) && !Winner(all, t, k);
    var m := if e.keys == [] then 0 else Lowest(e, e.keys);
    assert e.keys == Without(d.keys, Duplicates(all));
    assert Best(e) == WithScore(e, e.keys, m);
    BestOfDeduplicated(all, t);
    forall k | k in d.keys ensures k in dropped <==> k in Duplicates(all) || Score(e, k) != m {
      KeysListed(d);
    }
    WithScoreOfWithout(e, d.keys, Duplicates(all), m, dropped);
  }

  /**
   * The whole computation: it fails exactly when some line does, with the
   * error of the first failing line; otherwise every line gets, in order, the
   * abbreviations of its own that no other line has and that score lowest
   * among those.
   */
  lemma BestAbbreviationsSpec(lines: seq<string>, values: LetterValues)
    ensures var r := BestAbbreviations(lines, values);
      r.Success? <==> forall t :: 0 <= t < |lines| ==> Abbreviations(lines[t], values).Success?
    ensures var r := BestAbbreviations(lines, values);
      r.Failure? ==> exists t :: (0 <= t < |lines|
        && Abbreviations(lines[t], values) == Failure(r.error)
        && forall t' :: 0 <= t' < t ==> Abbreviations(lines[t'], values).Success?)
    ensures var r := BestAbbreviations(lines, values);
      r.Success? ==> |r.value| == |lines| && forall t :: 0 <= t < |lines| ==> r.value[t].0 == lines[t]
    ensures var r := BestAbbreviations(lines, values);
      r.Success? ==> var all := AllAbbreviations(lines, values).value;
        forall t, k :: 0 <= t < |lines| ==>
          (all[t].abbreviations == Abbreviations(lines[t], values).value
          && (k in r.value[t].1 <==> Winner(all, t, k)))
  {
    AllAbbreviationsSpec(lines, values);
    var a := AllAbbreviations(lines, values);
    if a.Success? {
      var all := a.value;
      DeduplicatedSpec(all);
      forall t | 0 <= t < |lines| {
        BestOfDeduplicated(all, t);
      }
    }
  }

  /** Every line's chosen abbreviations come in the order of the line's own dictionary. */
  lemma BestAbbreviationsOrder(lines: seq<string>, values: LetterValues)
    ensures var r := BestAbbreviations(lines, values);
      r.Success? ==> var all := AllAbbreviations(lines, values).value;
        && |r.value| == |all|
        && forall t :: 0 <= t < |all| ==>
          r.value[t].1 == Without(all[t].abbreviations.keys, set k | k in Keys(all[t].abbreviations) && !Winner(all, t, k))
  {
    var a := AllAbbreviations(lines, values);
    if a.Success? {
      forall t | 0 <= t < |a.value| {
        BestOrderOfDeduplicated(a.value, t);
      }
    }
  }
}
