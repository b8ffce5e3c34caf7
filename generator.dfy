/**
 * `create_abbreviations` and `create_all_abbreviations`: every three-letter
 * candidate of a name, each with the lowest score that produces it.
 */
module AbbreviationGenerator {
  import opened Chars
  import opened Outcomes
  import opened Dicts
  import opened NameNormalizer
  import opened LetterScorer

  /** One input line with its `{abbreviation: score}` dictionary. */
  datatype NameRecord = NameRecord(name: string, abbreviations: Dict)

  /**
   * The update of one candidate: store the score when the abbreviation is new
   * or the score is lower than the stored one, so the stored score is the
   * smaller of the two.
   */
  function KeepMin(d: Dict, k: string, v: int): (r: Dict)
    ensures Keys(r) == Keys(d) + {k}
    ensures r.values[k] == if k in Keys(d) && d.values[k] <= v then d.values[k] else v
    ensures forall k' :: k' in Keys(d) && k' != k ==> r.values[k'] == d.values[k']
    ensures r.keys == if k in Keys(d) then d.keys else d.keys + [k]
  {
    var stored := Lookup(d, k);
    if stored.None? || v < stored.value then Put(d, k, v) else d
  }

  /** The dictionary left by offering the candidates `cs` one after another. */
  function MinDict(cs: Entries): Dict {
    if cs == [] then Empty else KeepMin(MinDict(cs[..|cs| - 1]), cs[|cs| - 1].0, cs[|cs| - 1].1)
  }

  /**
   * The keys of `cs` in the order of their first occurrence, each once: an
   * independent description of the order in which the loop inserts keys.
   */
  function FirstOccurrences(cs: Entries): (ks: seq<string>)
    ensures forall a, b :: 0 <= a < b < |ks| ==> ks[a] != ks[b]
    ensures forall a :: 0 <= a < |ks| ==> ks[a] in EntryKeys(cs)
    ensures forall x :: x in EntryKeys(cs) ==> x in ks
  {
    if cs == [] then []
    else
      var p := cs[..|cs| - 1];
      var k := cs[|cs| - 1].0;
      assert forall x :: x in EntryKeys(cs) <==> x in EntryKeys(p) || x == k by {
        forall x | x in EntryKeys(p) ensures x in EntryKeys(cs) {
          var t :| 0 <= t < |p| && p[t].0 == x;
          assert cs[t] == p[t];
        }
        forall x | x in EntryKeys(cs) && x != k ensures x in EntryKeys(p) {
          var t :| 0 <= t < |cs| && cs[t].0 == x;
          assert p[t] == cs[t];
        }
      }
      if k in EntryKeys(p) then FirstOccurrences(p) else FirstOccurrences(p) + [k]
  }

  /**
   * Listing a prefix of the candidates lists a prefix of the keys: a key
   * first met earlier is listed earlier.
   */
  lemma {:induction false} FirstOccurrencesOrder(cs: Entries)
    ensures forall i :: 0 <= i <= |cs| ==> FirstOccurrences(cs[..i]) <= FirstOccurrences(cs)
  {
    if cs != [] {
      var p := cs[..|cs| - 1];
      FirstOccurrencesOrder(p);
      forall i | 0 <= i <= |cs| ensures FirstOccurrences(cs[..i]) <= FirstOccurrences(cs) {
        if i < |cs| {
          assert cs[..i] == p[..i];
        } else {
          assert cs[..i] == cs;
        }
      }
    }
  }

  /** Offering one more candidate is one more update of the dictionary. */
  lemma MinDictAppend(cs: Entries, c: (string, int))
    ensures MinDict(cs + [c]) == KeepMin(MinDict(cs), c.0, c.1)
  {
    assert (cs + [c])[..|cs|] == cs;
  }

  /** The keys of a sequence extended by one entry. */
  lemma EntryKeysSnoc(cs: Entries)
    requires cs != []
    ensures EntryKeys(cs) == EntryKeys(cs[..|cs| - 1]) + {cs[|cs| - 1].0}
  {
    var p := cs[..|cs| - 1];
    forall x | x in EntryKeys(cs) ensures x in EntryKeys(p) + {cs[|cs| - 1].0} {
      var a :| 0 <= a < |cs| && cs[a].0 == x;
      if a < |cs| - 1 { assert p[a] == cs[a]; }
    }
    forall x | x in EntryKeys(p) ensures x in EntryKeys(cs) {
      var a :| 0 <= a < |p| && p[a].0 == x;
      assert cs[a] == p[a];
    }
  }

  /** The loop's dictionary holds exactly the offered abbreviations, and no more entries than candidates. */
  lemma {:induction false} MinDictKeys(cs: Entries)
    ensures Keys(MinDict(cs)) == EntryKeys(cs)
    ensures |MinDict(cs).keys| <= |cs|
  {
    if cs != [] {
      MinDictKeys(cs[..|cs| - 1]);
      EntryKeysSnoc(cs);
    }
  }

  /** Each stored score is at most every score offered for its abbreviation. */
  lemma {:induction false} MinDictLowest(cs: Entries)
    ensures Keys(MinDict(cs)) == EntryKeys(cs)
    ensures forall t :: 0 <= t < |cs| ==> MinDict(cs).values[cs[t].0] <= cs[t].1
  {
    MinDictKeys(cs);
    if cs != [] {
      var p := cs[..|cs| - 1];
      MinDictLowest(p);
      forall t | 0 <= t < |cs|
        ensures MinDict(cs).values[cs[t].0] <= cs[t].1
      {
        if t < |cs| - 1 {
          assert cs[t] == p[t];
        }
      }
    }
  }

  /** Each stored score was offered for its abbreviation by some candidate. */
  lemma {:induction false} MinDictAttained(cs: Entries)
    ensures forall k :: k in Keys(MinDict(cs)) ==>
      exists t :: 0 <= t < |cs| && cs[t] == (k, MinDict(cs).values[k])
  {
    if cs != [] {
      var p := cs[..|cs| - 1];
      var c := cs[|cs| - 1];
      MinDictAttained(p);
      var d := MinDict(p);
      var r := MinDict(cs);
      forall k | k in Keys(r)
        ensures exists t :: 0 <= t < |cs| && cs[t] == (k, r.values[k])
      {
        if k == c.0 && r.values[k] == c.1 {
          assert cs[|cs| - 1] == (k, r.values[k]);
        } else {
          assert k in Keys(d) && r.values[k] == d.values[k];
          var t :| 0 <= t < |p| && p[t] == (k, d.values[k]);
          assert cs[t] == p[t];
        }
      }
    }
  }

  /** The dictionary lists the candidates' keys in the order of their first occurrence. */
  lemma {:induction false} MinDictOrder(cs: Entries)
    ensures MinDict(cs).keys == FirstOccurrences(cs)
  {
    if cs != [] {
      var p := cs[..|cs| - 1];
      MinDictOrder(p);
      MinDictKeys(p);
    }
  }

  /** An admissible index pair: `1 <= i < j <= n - 1`. */
  predicate ValidPair(n: nat, p: (nat, nat)) {
    1 <= p.0 < p.1 < n
  }

  /** The pairs `(i, j)` of one pass of the inner loop, `j` from `i + 1` to `n - 1`. */
  function Row(n: nat, i: nat): (r: seq<(nat, nat)>)
    ensures |r| == if i + 1 < n then n - i - 1 else 0
    ensures forall k :: 0 <= k < |r| ==> r[k] == (i, i + 1 + k)
  {
    seq(if i + 1 < n then n - i - 1 else 0, k => (i, i + 1 + k))
  }

  /** The pairs visited before the outer loop reaches `i`, in loop order. */
  function PairsBefore(n: nat, i: nat): (r: seq<(nat, nat)>)
    ensures forall t :: 0 <= t < |r| ==> 1 <= r[t].0 < i && r[t].0 < r[t].1 < n
  {
    if i <= 1 then [] else PairsBefore(n, i - 1) + Row(n, i - 1)
  }

  /** All pairs the two loops visit, `i` from 1 to `n - 2`. */
  function Pairs(n: nat): (r: seq<(nat, nat)>)
    ensures forall t :: 0 <= t < |r| ==> ValidPair(n, r[t])
  {
    PairsBefore(n, if n >= 2 then n - 1 else 1)
  }

  /** Every admissible pair with `i` below the bound is visited, and the count is the triangular number. */
  lemma {:induction false} PairsBeforeComplete(n: nat, i: nat)
    requires 1 <= i <= if n >= 2 then n - 1 else 1
    ensures forall a: nat, b: nat :: 1 <= a < i && a < b < n ==> (a, b) in PairsBefore(n, i)
    ensures 2 * |PairsBefore(n, i)| == (i - 1) * (2 * n - 2 - i)
  {
    if i > 1 {
      PairsBeforeComplete(n, i - 1);
      var prev := PairsBefore(n, i - 1);
      var row := Row(n, i - 1);
      assert PairsBefore(n, i) == prev + row;
      forall a: nat, b: nat | 1 <= a < i && a < b < n
        ensures (a, b) in PairsBefore(n, i)
      {
        if a == i - 1 {
          assert row[b - i] == (a, b);
        } else {
          assert (a, b) in prev;
        }
      }
      calc {
        2 * |PairsBefore(n, i)|;
        2 * |prev| + 2 * |row|;
        (i - 2) * (2 * n - 1 - i) + 2 * (n - i);
        { assert (i - 2) * (2 * n - 1 - i) == (i - 1) * (2 * n - 1 - i) - (2 * n - 1 - i); }
        (i - 1) * (2 * n - 1 - i) - (2 * n - 1 - i) + 2 * (n - i);
        (i - 1) * (2 * n - 1 - i) - (i - 1);
        { assert (i - 1) * (2 * n - 1 - i) == (i - 1) * (2 * n - 2 - i) + (i - 1); }
        (i - 1) * (2 * n - 2 - i);
      }
    }
  }

  /** The loops visit exactly the admissible pairs, `C(n - 1, 2)` of them. */
  lemma PairsSpec(n: nat)
    ensures forall a: nat, b: nat :: (a, b) in Pairs(n) <==> ValidPair(n, (a, b))
    ensures n >= 1 ==> 2 * |Pairs(n)| == (n - 1) * (n - 2)
    ensures n <= 2 ==> Pairs(n) == []
  {
    if n >= 2 {
      PairsBeforeComplete(n, n - 1);
      assert 2 * |Pairs(n)| == (n - 2) * (2 * n - 2 - (n - 1));
      assert 2 * n - 2 - (n - 1) == n - 1;
    }
  }

  /** `f"{name[0]}{name[i]}{name[j]}".upper()`. */
  function Abbr(name: string, i: nat, j: nat): string
    requires i < |name| && j < |name|
  {
    UpperString([name[0], name[i], name[j]])
  }

  /** The (abbreviation, score) candidates for the pairs `ps`, in loop order. */
  function Candidates(name: string, scores: seq<int>, ps: seq<(nat, nat)>): (cs: Entries)
    requires |scores| == |name|
    requires forall t :: 0 <= t < |ps| ==> 1 <= ps[t].0 < ps[t].1 < |name|
    ensures |cs| == |ps|
    ensures forall t :: 0 <= t < |ps| ==>
      cs[t] == (Abbr(name, ps[t].0, ps[t].1), scores[ps[t].0] + scores[ps[t].1])
  {
    seq(|ps|, t requires 0 <= t < |ps| => (Abbr(name, ps[t].0, ps[t].1), 0 + scores[ps[t].0] + scores[ps[t].1]))
  }

  /** The dictionary the loops build for a normalised name with its scores. */
  function CandidateDict(name: string, scores: seq<int>): Dict
    requires |scores| == |name|
  {
    MinDict(Candidates(name, scores, Pairs(|name|)))
  }

  /** An abbreviation of a letters-only name is three upper-case letters led by its first letter. */
  lemma AbbrShape(name: string, i: nat, j: nat)
    requires forall t :: 0 <= t < |name| ==> IsLetter(name[t])
    requires 1 <= i < j < |name|
    ensures var k := Abbr(name, i, j);
      |k| == 3 && k[0] == Upper(name[0]) && IsUpper(k[0]) && IsUpper(k[1]) && IsUpper(k[2])
  {
    assert IsLetter(name[0]) && IsLetter(name[i]) && IsLetter(name[j]);
  }

  /**
   * Shape of the keys: three upper-case letters starting with the name's first
   * letter upper-cased; none for a name shorter than three; at most
   * `C(n - 1, 2)` of them.
   */
  lemma CandidateDictShape(name: string, scores: seq<int>)
    requires |scores| == |name|
    requires forall i :: 0 <= i < |name| ==> IsLetter(name[i])
    ensures var d := CandidateDict(name, scores);
      && (|name| < 3 ==> d == Empty)
      && 2 * |d.keys| <= (|name| - 1) * (|name| - 2)
      && forall k :: k in Keys(d) ==>
           |name| >= 3 && |k| == 3 && k[0] == Upper(name[0])
           && IsUpper(k[0]) && IsUpper(k[1]) && IsUpper(k[2])
  {
    var ps := Pairs(|name|);
    var cs := Candidates(name, scores, ps);
    var d := MinDict(cs);
    PairsSpec(|name|);
    MinDictKeys(cs);
    forall k | k in Keys(d)
      ensures |name| >= 3 && |k| == 3 && k[0] == Upper(name[0])
      ensures IsUpper(k[0]) && IsUpper(k[1]) && IsUpper(k[2])
    {
      var t :| 0 <= t < |cs| && cs[t].0 == k;
      assert ValidPair(|name|, ps[t]);
      AbbrShape(name, ps[t].0, ps[t].1);
    }
  }

  /** Every admissible pair contributes its candidate. */
  lemma CandidateOfPair(name: string, scores: seq<int>, i: nat, j: nat)
    requires |scores| == |name|
    requires 1 <= i < j < |name|
    ensures (Abbr(name, i, j), scores[i] + scores[j]) in Candidates(name, scores, Pairs(|name|))
  {
    var ps := Pairs(|name|);
    PairsSpec(|name|);
    assert ValidPair(|name|, (i, j));
    var t :| 0 <= t < |ps| && ps[t] == (i, j);
    assert Candidates(name, scores, ps)[t] == (Abbr(name, i, j), scores[i] + scores[j]);
  }

  /** Every candidate comes from an admissible pair. */
  lemma PairOfCandidate(name: string, scores: seq<int>, c: (string, int))
    requires |scores| == |name|
    requires c in Candidates(name, scores, Pairs(|name|))
    ensures exists i: nat, j: nat :: 1 <= i < j < |name| && c == (Abbr(name, i, j), scores[i] + scores[j])
  {
    var ps := Pairs(|name|);
    var cs := Candidates(name, scores, ps);
    var t :| 0 <= t < |cs| && cs[t] == c;
    assert ValidPair(|name|, ps[t]);
    var i, j := ps[t].0, ps[t].1;
    assert c == (Abbr(name, i, j), scores[i] + scores[j]);
  }

  /** Each pair `1 <= i < j <= n - 1` yields a key whose stored score is at most `scores[i] + scores[j]`. */
  lemma CandidateDictLowest(name: string, scores: seq<int>)
    requires |scores| == |name|
    ensures var d := CandidateDict(name, scores);
      forall i: nat, j: nat :: 1 <= i < j < |name| ==>
        Abbr(name, i, j) in Keys(d) && d.values[Abbr(name, i, j)] <= scores[i] + scores[j]
  {
    var cs := Candidates(name, scores, Pairs(|name|));
    var d := MinDict(cs);
    MinDictLowest(cs);
    forall i: nat, j: nat | 1 <= i < j < |name|
      ensures Abbr(name, i, j) in Keys(d) && d.values[Abbr(name, i, j)] <= scores[i] + scores[j]
    {
      CandidateOfPair(name, scores, i, j);
      var t :| 0 <= t < |cs| && cs[t] == (Abbr(name, i, j), scores[i] + scores[j]);
    }
  }

  /** Each stored score is `scores[i] + scores[j]` for some pair `(i, j)` yielding the key. */
  lemma CandidateDictAttained(name: string, scores: seq<int>)
    requires |scores| == |name|
    ensures var d := CandidateDict(name, scores);
      forall k :: k in Keys(d) ==>
        exists i: nat, j: nat :: 1 <= i < j < |name| && Abbr(name, i, j) == k
          && d.values[k] == scores[i] + scores[j]
  {
    var cs := Candidates(name, scores, Pairs(|name|));
    var d := MinDict(cs);
    MinDictAttained(cs);
    forall k | k in Keys(d)
      ensures exists i: nat, j: nat :: (1 <= i < j < |name| && Abbr(name, i, j) == k
        && d.values[k] == scores[i] + scores[j])
    {
      var t :| 0 <= t < |cs| && cs[t] == (k, d.values[k]);
      PairOfCandidate(name, scores, cs[t]);
      var i: nat, j: nat :| 1 <= i < j < |name| && cs[t] == (Abbr(name, i, j), scores[i] + scores[j]);
      assert Abbr(name, i, j) == k && d.values[k] == scores[i] + scores[j];
    }
  }

  /** What `create_abbreviations` returns for a raw name, or the letter missing from the table. */
  function Abbreviations(raw: string, values: LetterValues): Result<Dict, char> {
    var name := ReformatName(raw);
    match Scores(name, values)
    case Failure(c) => Failure(c)
    case Success(s) => Success(CandidateDict(name, s))
  }

  /**
   * The keys `create_abbreviations` produces for a raw name: three upper-case
   * letters led by the first letter of its normal form, none when that form
   * is shorter than three letters, at most `C(n - 1, 2)` of them.
   */
  lemma AbbreviationsShape(raw: string, values: LetterValues)
    requires Abbreviations(raw, values).Success?
    ensures
      var name := ReformatName(raw);
      var n := |name|;
      var d := Abbreviations(raw, values).value;
      && (n < 3 ==> d == Empty)
      && 2 * |d.keys| <= (n - 1) * (n - 2)
      && (forall k :: k in Keys(d) ==>
            n >= 3 && |k| == 3 && k[0] == Upper(name[0])
            && IsUpper(k[0]) && IsUpper(k[1]) && IsUpper(k[2]))
  {
    var name := ReformatName(raw);
    ReformatNameSpec(raw);
    CandidateDictShape(name, Scores(name, values).value);
  }

  /**
   * The scores `create_abbreviations` stores for a raw name: for each key,
   * the lowest `scores[i] + scores[j]` over the pairs of its normal form that
   * produce it.
   */
  lemma AbbreviationsScores(raw: string, values: LetterValues)
    requires Abbreviations(raw, values).Success?
    ensures
      var name := ReformatName(raw);
      var n := |name|;
      var s := Scores(name, values).value;
      var d := Abbreviations(raw, values).value;
      && |s| == n
      && (forall i: nat, j: nat :: 1 <= i < j < n ==>
            Abbr(name, i, j) in Keys(d) && d.values[Abbr(name, i, j)] <= s[i] + s[j])
      && (forall k :: k in Keys(d) ==>
            exists i: nat, j: nat :: 1 <= i < j < n && Abbr(name, i, j) == k && d.values[k] == s[i] + s[j])
  {
    var name := ReformatName(raw);
    var s := Scores(name, values).value;
    ScoresSpec(name, values);
    CandidateDictLowest(name, s);
    CandidateDictAttained(name, s);
  }

  /** The candidates of two runs of pairs, one after the other. */
  lemma CandidatesAppend(name: string, scores: seq<int>, ps: seq<(nat, nat)>, qs: seq<(nat, nat)>)
    requires |scores| == |name|
    requires forall t :: 0 <= t < |ps| ==> 1 <= ps[t].0 < ps[t].1 < |name|
    requires forall t :: 0 <= t < |qs| ==> 1 <= qs[t].0 < qs[t].1 < |name|
    ensures Candidates(name, scores, ps + qs)
      == Candidates(name, scores, ps) + Candidates(name, scores, qs)
  {
    var rs := ps + qs;
    assert forall t :: 0 <= t < |ps| ==> rs[t] == ps[t];
    assert forall t :: 0 <= t < |qs| ==> rs[|ps| + t] == qs[t];
  }

  /** The candidates of the pairs `(i, i + 1)` to `(i, j - 1)`, in loop order. */
  function RowCandidates(name: string, scores: seq<int>, i: nat, j: nat): Entries
    requires |scores| == |name|
    requires 1 <= i < j <= |name|
    decreases j
  {
    if j == i + 1 then []
    else RowCandidates(name, scores, i, j - 1) + [(Abbr(name, i, j - 1), 0 + scores[i] + scores[j - 1])]
  }

  /** A whole row of candidates is the candidates of the row's pairs. */
  lemma {:induction false} RowCandidatesComplete(name: string, scores: seq<int>, i: nat, j: nat)
    requires |scores| == |name|
    requires 1 <= i < j <= |name|
    ensures RowCandidates(name, scores, i, j) == Candidates(name, scores, Row(|name|, i)[..j - i - 1])
    decreases j
  {
    var row := Row(|name|, i);
    if j == i + 1 {
      assert row[..0] == [];
    } else {
      RowCandidatesComplete(name, scores, i, j - 1);
      assert row[..j - i - 1] == row[..j - i - 2] + [(i, j - 1)];
      CandidatesAppend(name, scores, row[..j - i - 2], [(i, j - 1)]);
    }
  }
  /** One turn of the outer loop visits the whole row `i`. */
  lemma OuterStep(name: string, scores: seq<int>, i: nat)
    requires |scores| == |name|
    requires 1 <= i < |name| - 1
    ensures Candidates(name, scores, PairsBefore(|name|, i + 1))
      == Candidates(name, scores, PairsBefore(|name|, i)) + RowCandidates(name, scores, i, |name|)
  {
    var row := Row(|name|, i);
    RowCandidatesComplete(name, scores, i, |name|);
    assert row[..|name| - i - 1] == row;
    CandidatesAppend(name, scores, PairsBefore(|name|, i), row);
  }

  /** The candidates visited so far, extended by the candidate of `(i, j)`. */
  lemma RowCandidatesSnoc(name: string, scores: seq<int>, i: nat, j: nat, before: Entries,
                          abbreviation: string, score: int)
    requires |scores| == |name|
    requires 1 <= i < j < |name|
    requires abbreviation == UpperString([name[0], name[i], name[j]])
    requires score == 0 + scores[i] + scores[j]
    ensures (before + RowCandidates(name, scores, i, j)) + [(abbreviation, score)]
      == before + RowCandidates(name, scores, i, j + 1)
  {
    var row := RowCandidates(name, scores, i, j);
    assert abbreviation == Abbr(name, i, j);
    assert RowCandidates(name, scores, i, j + 1) == row + [(abbreviation, score)];
    assert (before + row) + [(abbreviation, score)] == before + (row + [(abbreviation, score)]);
  }

  /**
   * The inner loop of `create_abbreviations` for one `i`: offers the
   * candidates of the pairs `(i, j)`, `j` from `i + 1` to `n - 1`, to the
   * dictionary `start` of the candidates `before`.
   */
  method OfferRow(name: string, scores: seq<int>, i: nat, start: Dict, ghost before: Entries) returns (abbreviations: Dict)
    requires |scores| == |name|
    requires 1 <= i < |name| - 1
    requires start == MinDict(before)
    ensures abbreviations == MinDict(before + RowCandidates(name, scores, i, |name|))
  {
    var n := |name|;
    abbreviations := start;
    ghost var visited := before;
    var j: nat := i + 1;
    while j < n
      invariant i + 1 <= j <= n
      invariant abbreviations == MinDict(visited)
      invariant visited == before + RowCandidates(name, scores, i, j)
    {
      var abbreviation := UpperString([name[0], name[i], name[j]]);
      var score := 0 + scores[i] + scores[j];
      MinDictAppend(visited, (abbreviation, score));
      var stored := Lookup(abbreviations, abbreviation);
      if stored.None? || score < stored.value {
        abbreviations := Put(abbreviations, abbreviation, score);
      }
      RowCandidatesSnoc(name, scores, i, j, before, abbreviation, score);
      visited := visited + [(abbreviation, score)];
      j := j + 1;
    }
    assert j == |name|;
  }

  /** `create_abbreviations`: scores the normalised name, then visits every pair in two nested loops. */
  method CreateAbbreviations(raw: string, values: LetterValues) returns (r: Result<Dict, char>)
    ensures r == Abbreviations(raw, values)
  {
    var name := ReformatName(raw);
    var result := CalculateScoresInWord(name, values);
    if result.Failure? {
      return Failure(result.error);
    }
    var scores := result.value;
    var n := |name|;
    var abbreviations: Dict := Empty;
    ghost var visited: Entries := [];
    var i: nat := 1;
    while i < n - 1
      invariant 1 <= i <= if n >= 2 then n - 1 else 1
      invariant abbreviations == MinDict(visited)
      invariant visited == Candidates(name, scores, PairsBefore(n, i))
    {
      abbreviations := OfferRow(name, scores, i, abbreviations, visited);
      OuterStep(name, scores, i);
      visited := visited + RowCandidates(name, scores, i, n);
      i := i + 1;
    }
    assert PairsBefore(n, i) == Pairs(n);
    r := Success(abbreviations);
  }

  /**
   * The list comprehension of `create_all_abbreviations` with the per-line
   * function `create`: one record per line, in order, keyed by the line
   * itself; the first line whose `create` fails stops the whole list.
   */
  function Records(lines: seq<string>, create: string -> Result<Dict, char>): (r: Result<seq<NameRecord>, char>)
    ensures r.Success? ==> |r.value| == |lines|
  {
    if lines == [] then Success([])
    else
      match create(lines[0])
      case Failure(c) => Failure(c)
      case Success(d) =>
        match Records(lines[1..], create)
        case Failure(c) => Failure(c)
        case Success(rest) => Success([NameRecord(lines[0], d)] + rest)
  }

  /** The list succeeds exactly when every line does, and then holds each line's record, in order. */
  lemma {:induction false} RecordsSuccess(lines: seq<string>, create: string -> Result<Dict, char>)
    ensures Records(lines, create).Success? <==> forall t :: 0 <= t < |lines| ==> create(lines[t]).Success?
    ensures Records(lines, create).Success? ==> forall t :: 0 <= t < |lines| ==>
      Records(lines, create).value[t] == NameRecord(lines[t], create(lines[t]).value)
  {
    if lines != [] {
      var tail := lines[1..];
      RecordsSuccess(tail, create);
      assert forall t :: 1 <= t < |lines| ==> tail[t - 1] == lines[t];
    }
  }

  /** A failing list reports the error of its first failing line. */
  lemma {:induction false} RecordsFailure(lines: seq<string>, create: string -> Result<Dict, char>)
    requires Records(lines, create).Failure?
    ensures exists t :: (0 <= t < |lines|
      && create(lines[t]) == Failure(Records(lines, create).error)
      && forall t' :: 0 <= t' < t ==> create(lines[t']).Success?)
  {
    var tail := lines[1..];
    if create(lines[0]).Success? {
      RecordsFailure(tail, create);
      var t0 :| 0 <= t0 < |tail| && create(tail[t0]) == Failure(Records(tail, create).error)
        && forall t' :: 0 <= t' < t0 ==> create(tail[t']).Success?;
      assert forall t :: 1 <= t < |lines| ==> tail[t - 1] == lines[t];
      assert create(lines[t0 + 1]) == Failure(Records(lines, create).error);
    }
  }

  /** `create_all_abbreviations` on lines already read. */
  function AllAbbreviations(lines: seq<string>, values: LetterValues): Result<seq<NameRecord>, char> {
    Records(lines, raw => Abbreviations(raw, values))
  }

  /**
   * The batch succeeds exactly when every line does, and then holds each
   * line's `create_abbreviations` result, in order; otherwise it reports the
   * error of the first failing line.
   */
  lemma AllAbbreviationsSpec(lines: seq<string>, values: LetterValues)
    ensures var r := AllAbbreviations(lines, values);
      r.Success? <==> forall t :: 0 <= t < |lines| ==> Abbreviations(lines[t], values).Success?
    ensures var r := AllAbbreviations(lines, values);
      r.Success? ==> |r.value| == |lines| && forall t :: 0 <= t < |lines| ==>
        r.value[t] == NameRecord(lines[t], Abbreviations(lines[t], values).value)
    ensures var r := AllAbbreviations(lines, values);
      r.Failure? ==> exists t :: (0 <= t < |lines|
        && Abbreviations(lines[t], values) == Failure(r.error)
        && forall t' :: 0 <= t' < t ==> Abbreviations(lines[t'], values).Success?)
  {
    var create := raw => Abbreviations(raw, values);
    RecordsSuccess(lines, create);
    if Records(lines, create).Failure? {
      RecordsFailure(lines, create);
    }
  }
}
