/**
 * `is_last_letter` and `calculate_scores_in_word`: one forward pass over a
 * CamelCase name that gives every position a score.
 */
module LetterScorer {
  import opened Chars
  import opened Outcomes

  /** The letter-value table: an upper-case letter to its base score. */
  type LetterValues = map<char, int>

  /** `is_last_letter`: position `i` ends the whole name or precedes a capital. */
  predicate IsLastLetter(name: string, i: nat)
    requires i < |name|
  {
    i == |name| - 1 || IsUpper(name[i + 1])
  }

  /**
   * The value of `char_word_pos` when the loop reaches position `i`: reset to
   * zero after a last letter, incremented otherwise.
   */
  function WordPos(name: string, i: nat): nat
    requires i < |name|
  {
    if i == 0 then 0
    else if IsLastLetter(name, i - 1) then 0
    else WordPos(name, i - 1) + 1
  }

  function Min(a: int, b: int): int {
    if a < b then a else b
  }

  /** The interior case: the score needs a lookup in the letter-value table. */
  predicate NeedsLookup(name: string, i: nat)
    requires i < |name|
  {
    WordPos(name, i) != 0 && !IsLastLetter(name, i)
  }

  /** The table lookup at position `i` fails (a `KeyError` in the source). */
  predicate Missing(name: string, values: LetterValues, i: nat)
    requires i < |name|
  {
    NeedsLookup(name, i) && Upper(name[i]) !in values
  }

  /** The score the loop body gives position `i`, or the key it fails to find. */
  function ScoreAt(name: string, values: LetterValues, i: nat): Result<int, char>
    requires i < |name|
  {
    var pos := WordPos(name, i);
    if pos == 0 then Success(0)
    else if IsLastLetter(name, i) then Success(if Upper(name[i]) != 'E' then 5 else 20)
    else if Upper(name[i]) in values then Success(values[Upper(name[i])] + Min(pos, 3))
    else Failure(Upper(name[i]))
  }

  /** The scores of the first `k` positions, or the first missing key among them. */
  function ScoresPrefix(name: string, values: LetterValues, k: nat): (r: Result<seq<int>, char>)
    requires k <= |name|
    ensures r.Success? ==> |r.value| == k
  {
    if k == 0 then Success([])
    else
      match ScoresPrefix(name, values, k - 1)
      case Failure(c) => Failure(c)
      case Success(s) =>
        match ScoreAt(name, values, k - 1)
        case Failure(c) => Failure(c)
        case Success(v) => Success(s + [v])
  }

  /** What `calculate_scores_in_word` returns, or the key its lookup fails on. */
  function Scores(name: string, values: LetterValues): Result<seq<int>, char> {
    ScoresPrefix(name, values, |name|)
  }

  /** Once a prefix fails, every longer prefix fails with the same key. */
  lemma {:induction false} FailurePersists(name: string, values: LetterValues, k: nat, k': nat)
    requires k <= k' <= |name|
    requires ScoresPrefix(name, values, k).Failure?
    ensures ScoresPrefix(name, values, k') == ScoresPrefix(name, values, k)
  {
    if k' > k {
      FailurePersists(name, values, k, k' - 1);
    }
  }

  /**
   * A prefix succeeds exactly when no lookup in it misses; then it holds one
   * score per position, each the one the loop body gives; otherwise it fails
   * with the key of the first missing lookup.
   */
  lemma {:induction false} ScoresPrefixSpec(name: string, values: LetterValues, k: nat)
    requires k <= |name|
    ensures ScoresPrefix(name, values, k).Success? <==> forall i :: 0 <= i < k ==> !Missing(name, values, i)
    ensures ScoresPrefix(name, values, k).Success? ==>
      forall i :: 0 <= i < k ==> ScoreAt(name, values, i) == Success(ScoresPrefix(name, values, k).value[i])
    ensures ScoresPrefix(name, values, k).Failure? ==>
      exists i :: 0 <= i < k && Missing(name, values, i)
        && ScoresPrefix(name, values, k).error == Upper(name[i])
        && forall i' :: 0 <= i' < i ==> !Missing(name, values, i')
  {
    if k > 0 {
      ScoresPrefixSpec(name, values, k - 1);
      var prev := ScoresPrefix(name, values, k - 1);
      if prev.Success? {
        var s := prev.value;
        if ScoreAt(name, values, k - 1).Success? {
          var r := s + [ScoreAt(name, values, k - 1).value];
          assert ScoresPrefix(name, values, k).value == r;
          forall i | 0 <= i < k
            ensures ScoreAt(name, values, i) == Success(r[i])
          {
            if i < k - 1 { assert r[i] == s[i]; }
          }
        } else {
          assert Missing(name, values, k - 1);
        }
      }
    }
  }

  /**
   * `calculate_scores_in_word` assigns every position: on success the list has
   * the input's length, position 0 scores 0, and each position follows the rule
   * of the loop body; the lookup happens exactly in the interior case, with a
   * position bonus between 1 and 3; failure names the first letter missing
   * from the table.
   */
  lemma ScoresSpec(name: string, values: LetterValues)
    ensures Scores(name, values).Success? <==> forall i :: 0 <= i < |name| ==> !Missing(name, values, i)
    ensures Scores(name, values).Success? ==>
      var s := Scores(name, values).value;
      && |s| == |name|
      && (|name| > 0 ==> s[0] == 0)
      && forall i :: 0 <= i < |name| ==>
        && (WordPos(name, i) == 0 ==> s[i] == 0)
        && (WordPos(name, i) != 0 && IsLastLetter(name, i) ==>
              s[i] == if Upper(name[i]) == 'E' then 20 else 5)
        && (NeedsLookup(name, i) ==>
              && 1 <= Min(WordPos(name, i), 3) <= 3
              && Upper(name[i]) in values
              && s[i] == values[Upper(name[i])] + Min(WordPos(name, i), 3))
    ensures Scores(name, values).Failure? ==>
      exists i :: 0 <= i < |name| && Missing(name, values, i)
        && Scores(name, values).error == Upper(name[i])
        && forall i' :: 0 <= i' < i ==> !Missing(name, values, i')
  {
    ScoresPrefixSpec(name, values, |name|);
    if Scores(name, values).Success? {
      var s := Scores(name, values).value;
      forall i | 0 <= i < |name|
        ensures NeedsLookup(name, i) ==> Upper(name[i]) in values
      {
        assert !Missing(name, values, i);
      }
    }
  }

  /**
   * With a table of non-negative values every score is non-negative, so the
   * `-1` placeholder never survives.
   */
  lemma ScoresNonNegative(name: string, values: LetterValues)
    requires forall c :: c in values ==> values[c] >= 0
    requires Scores(name, values).Success?
    ensures forall i :: 0 <= i < |name| ==> Scores(name, values).value[i] >= 0
  {
    ScoresPrefixSpec(name, values, |name|);
  }

  /**
   * `char_word_pos` is the offset from the start of the current CamelCase
   * word: position `i - WordPos` is the start of the name or a capital, and no
   * capital comes after it up to `i`.
   */
  lemma {:induction false} WordPosIsOffset(name: string, i: nat)
    requires i < |name|
    ensures WordPos(name, i) <= i
    ensures i - WordPos(name, i) == 0 || IsUpper(name[i - WordPos(name, i)])
    ensures forall k :: i - WordPos(name, i) < k <= i ==> !IsUpper(name[k])
  {
    if i > 0 && !IsLastLetter(name, i - 1) {
      WordPosIsOffset(name, i - 1);
    }
  }

  /** `calculate_scores_in_word`: fills a list of `-1` placeholders in one pass. */
  method CalculateScoresInWord(name: string, values: LetterValues) returns (r: Result<seq<int>, char>)
    ensures r == Scores(name, values)
  {
    var scores := new int[|name|](_ => -1);
    var charWordPos: nat := 0;
    for i := 0 to |name|
      invariant ScoresPrefix(name, values, i).Success?
      invariant scores[..i] == ScoresPrefix(name, values, i).value
      invariant i < |name| ==> charWordPos == WordPos(name, i)
    {
      if charWordPos == 0 {
        scores[i] := 0;
      } else if IsLastLetter(name, i) {
        scores[i] := if Upper(name[i]) != 'E' then 5 else 20;
      } else {
        var bonus := Min(charWordPos, 3);
        var key := Upper(name[i]);
        if key !in values {
          FailurePersists(name, values, i + 1, |name|);
          return Failure(key);
        }
        scores[i] := values[key] + bonus;
      }
      assert scores[..i + 1] == scores[..i] + [scores[i]];
      charWordPos := if IsLastLetter(name, i) then 0 else charWordPos + 1;
    }
    assert scores[..] == scores[..|name|];
    r := Success(scores[..]);
  }
}
