/**
 * `reformat_name`: the chain of substitutions that turns a raw name line into
 * the CamelCase form the scorer works on.
 */
module NameNormalizer {
  import opened Chars

  /**
   * `s` with every occurrence of `c` deleted: `re.sub("'+", "", name)` with
   * `c` the apostrophe, and `re.sub(" ", "", name)` with `c` the space.
   */
  function Delete(s: string, c: char): (r: string)
    ensures |r| <= |s|
    ensures forall i :: 0 <= i < |r| ==> r[i] != c
  {
    if s == [] then []
    else if s[0] == c then Delete(s[1..], c)
    else [s[0]] + Delete(s[1..], c)
  }

  /**
   * `re.sub("[^a-zA-Z]+", " ", name)`: every maximal run of non-letters becomes
   * one space. `inRun` holds when the previous character was a non-letter of
   * the current run, whose space has already been written.
   */
  function CollapseNonLetters(s: string, inRun: bool): (r: string)
    ensures |r| <= |s|
    ensures forall i :: 0 <= i < |r| ==> IsLetter(r[i]) || r[i] == ' '
  {
    if s == [] then []
    else if IsLetter(s[0]) then [s[0]] + CollapseNonLetters(s[1..], false)
    else if inRun then CollapseNonLetters(s[1..], true)
    else [' '] + CollapseNonLetters(s[1..], true)
  }

  /**
   * `str.title` on a string of letters and spaces: a letter that follows a
   * cased character is lowered, any other letter is raised; `prevCased` tells
   * whether the character before `s` was cased.
   */
  function Title(s: string, prevCased: bool): (r: string)
    ensures |r| == |s|
  {
    if s == [] then []
    else if IsLetter(s[0]) then
      [if prevCased then Lower(s[0]) else Upper(s[0])] + Title(s[1..], true)
    else [s[0]] + Title(s[1..], false)
  }

  /** `reformat_name`: the four substitutions in their source order. */
  function ReformatName(name: string): string {
    Delete(Title(CollapseNonLetters(Delete(name, '\''), false), false), ' ')
  }

  /**
   * Reference definition of the normal form, in one pass over the
   * apostrophe-free text: each letter is upper-cased when it starts a run of
   * letters and lower-cased otherwise; everything else is dropped.
   * `afterLetter` holds when the previous character was a letter.
   */
  function CamelCase(t: string, afterLetter: bool): (r: string)
  {
    if t == [] then []
    else if IsLetter(t[0]) then
      [if afterLetter then Lower(t[0]) else Upper(t[0])] + CamelCase(t[1..], true)
    else CamelCase(t[1..], false)
  }

  /** Number of ASCII letters in `t`. */
  function LetterCount(t: string): (n: nat)
    ensures n <= |t|
  {
    if t == [] then 0 else (if IsLetter(t[0]) then 1 else 0) + LetterCount(t[1..])
  }

  /** The reference form keeps one character per letter, and only letters. */
  lemma {:induction false} CamelCaseShape(t: string, afterLetter: bool)
    ensures |CamelCase(t, afterLetter)| == LetterCount(t)
    ensures forall i :: 0 <= i < |CamelCase(t, afterLetter)| ==> IsLetter(CamelCase(t, afterLetter)[i])
  {
    if t != [] {
      CamelCaseShape(t[1..], true);
      CamelCaseShape(t[1..], false);
    }
  }

  /** The three later substitutions together compute the reference form. */
  lemma {:induction false} PipelineIsCamelCase(t: string, inRun: bool, prevCased: bool)
    requires inRun ==> !prevCased
    ensures Delete(Title(CollapseNonLetters(t, inRun), prevCased), ' ') == CamelCase(t, prevCased)
  {
    if t != [] {
      var rest := t[1..];
      if IsLetter(t[0]) {
        var x := CollapseNonLetters(rest, false);
        var c := if prevCased then Lower(t[0]) else Upper(t[0]);
        assert CollapseNonLetters(t, inRun) == [t[0]] + x;
        assert ([t[0]] + x)[1..] == x;
        assert Title([t[0]] + x, prevCased) == [c] + Title(x, true);
        assert ([c] + Title(x, true))[1..] == Title(x, true);
        PipelineIsCamelCase(rest, false, true);
      } else if inRun {
        PipelineIsCamelCase(rest, true, false);
      } else {
        var x := CollapseNonLetters(rest, true);
        assert CollapseNonLetters(t, inRun) == [' '] + x;
        assert ([' '] + x)[1..] == x;
        assert Title([' '] + x, prevCased) == [' '] + Title(x, false);
        assert ([' '] + Title(x, false))[1..] == Title(x, false);
        PipelineIsCamelCase(rest, true, false);
      }
    }
  }

  /**
   * `reformat_name` equals the reference form of the apostrophe-free input: an
   * upper-case letter exactly where a run of letters starts, lower case
   * elsewhere, nothing but letters, and no longer than the input.
   */
  lemma ReformatNameSpec(name: string)
    ensures ReformatName(name) == CamelCase(Delete(name, '\''), false)
    ensures |ReformatName(name)| == LetterCount(Delete(name, '\'')) <= |name|
    ensures forall i :: 0 <= i < |ReformatName(name)| ==> IsLetter(ReformatName(name)[i])
  {
    PipelineIsCamelCase(Delete(name, '\''), false, false);
    CamelCaseShape(Delete(name, '\''), false);
  }

  /** On a string of letters only, the reference form raises the first letter and lowers the rest. */
  lemma {:induction false} CamelCaseOfLetters(t: string, afterLetter: bool)
    requires forall i :: 0 <= i < |t| ==> IsLetter(t[i])
    ensures |CamelCase(t, afterLetter)| == |t|
    ensures forall i :: 0 <= i < |t| ==>
      CamelCase(t, afterLetter)[i] == if i == 0 && !afterLetter then Upper(t[i]) else Lower(t[i])
  {
    if t != [] {
      CamelCaseOfLetters(t[1..], true);
      var r := CamelCase(t, afterLetter);
      assert r == [if afterLetter then Lower(t[0]) else Upper(t[0])] + CamelCase(t[1..], true);
      forall i | 1 <= i < |t|
        ensures r[i] == Lower(t[i])
      {
        assert r[i] == CamelCase(t[1..], true)[i - 1];
      }
    }
  }

  /**
   * Interior capitals are lost: a letters-only name comes back with only its
   * first letter raised (so "McDonald" becomes "Mcdonald").
   */
  lemma ReformatLettersOnly(name: string)
    requires forall i :: 0 <= i < |name| ==> IsLetter(name[i])
    ensures |ReformatName(name)| == |name|
    ensures forall i :: 0 <= i < |name| ==>
      ReformatName(name)[i] == if i == 0 then Upper(name[i]) else Lower(name[i])
  {
    DeleteAbsent(name, '\'');
    PipelineIsCamelCase(name, false, false);
    CamelCaseOfLetters(name, false);
  }

  /** Deleting a character that does not occur leaves the string as it is. */
  lemma {:induction false} DeleteAbsent(s: string, c: char)
    requires forall i :: 0 <= i < |s| ==> s[i] != c
    ensures Delete(s, c) == s
  {
    if s != [] {
      DeleteAbsent(s[1..], c);
      assert s == [s[0]] + s[1..];
    }
  }

  /** Whether the character before the text still to be read was a letter, after reading `a`. */
  function AfterLetter(a: string, afterLetter: bool): bool {
    if a == [] then afterLetter else IsLetter(a[|a| - 1])
  }

  /** The reference form of a concatenation is the concatenation of the reference forms. */
  lemma {:induction false} CamelCaseAppend(a: string, b: string, afterLetter: bool)
    ensures CamelCase(a + b, afterLetter) == CamelCase(a, afterLetter) + CamelCase(b, AfterLetter(a, afterLetter))
  {
    if a == [] {
      assert a + b == b;
    } else {
      assert (a + b)[0] == a[0];
      assert (a + b)[1..] == a[1..] + b;
      CamelCaseAppend(a[1..], b, IsLetter(a[0]));
      assert AfterLetter(a[1..], IsLetter(a[0])) == AfterLetter(a, afterLetter) by {
        if a[1..] != [] { assert a[1..][|a[1..]| - 1] == a[|a| - 1]; }
      }
      var c := if afterLetter then Lower(a[0]) else Upper(a[0]);
      if IsLetter(a[0]) {
        assert CamelCase(a + b, afterLetter) == [c] + CamelCase(a[1..] + b, true);
        assert CamelCase(a, afterLetter) == [c] + CamelCase(a[1..], true);
      } else {
        assert CamelCase(a + b, afterLetter) == CamelCase(a[1..] + b, false);
        assert CamelCase(a, afterLetter) == CamelCase(a[1..], false);
      }
    }
  }

  /**
   * Every letter of the apostrophe-free text survives, at the position given
   * by the letters before it, upper-cased exactly when it starts a run of
   * letters and lower-cased otherwise.
   */
  lemma ReformatCapitals(name: string, i: nat)
    requires i < |Delete(name, '\'')| && IsLetter(Delete(name, '\'')[i])
    ensures var t := Delete(name, '\'');
      var r := ReformatName(name);
      && LetterCount(t[..i]) < |r|
      && r[LetterCount(t[..i])] == if i == 0 || !IsLetter(t[i - 1]) then Upper(t[i]) else Lower(t[i])
  {
    var t := Delete(name, '\'');
    var a, b := t[..i], t[i..];
    assert t == a + b;
    ReformatNameSpec(name);
    CamelCaseAppend(a, b, false);
    CamelCaseShape(a, false);
    var x := AfterLetter(a, false);
    assert x == (i > 0 && IsLetter(t[i - 1])) by {
      if i > 0 { assert a[|a| - 1] == t[i - 1]; }
    }
    assert b[0] == t[i];
    assert CamelCase(b, x)[0] == if x then Lower(t[i]) else Upper(t[i]);
  }

  /**
   * Normalising is not idempotent: for two words of letters joined by a
   * space, the first pass raises the capital of the second word and a second
   * pass lowers it again (so "o brien" gives "OBrien", then "Obrien").
   */
  lemma ReformatNotIdempotent(w1: string, w2: string)
    requires |w1| > 0 && |w2| > 0
    requires forall i :: 0 <= i < |w1| ==> IsLetter(w1[i])
    requires forall i :: 0 <= i < |w2| ==> IsLetter(w2[i])
    ensures var r := ReformatName(w1 + " " + w2);
      && |r| == |w1| + |w2| && IsUpper(r[|w1|])
      && |ReformatName(r)| == |r| && IsLower(ReformatName(r)[|w1|])
  {
    var t := w1 + " " + w2;
    assert forall i :: 0 <= i < |t| ==> t[i] != '\'' by {
      forall i | 0 <= i < |t| ensures t[i] != '\'' {
        if i < |w1| { assert t[i] == w1[i]; }
        else if i > |w1| { assert t[i] == w2[i - |w1| - 1]; }
      }
    }
    DeleteAbsent(t, '\'');
    ReformatNameSpec(t);
    assert t == w1 + ([' '] + w2);
    CamelCaseAppend(w1, [' '] + w2, false);
    assert ([' '] + w2)[1..] == w2;
    CamelCaseOfLetters(w1, false);
    CamelCaseOfLetters(w2, false);
    var r := ReformatName(t);
    assert r == CamelCase(w1, false) + CamelCase(w2, false);
    assert r[|w1|] == CamelCase(w2, false)[0] == Upper(w2[0]);
    ReformatNameSpec(t);
    ReformatLettersOnly(r);
  }

  /** Deleting a character distributes over concatenation. */
  lemma {:induction false} DeleteAppend(a: string, b: string, c: char)
    ensures Delete(a + b, c) == Delete(a, c) + Delete(b, c)
  {
    if a == [] {
      assert a + b == b;
    } else {
      assert (a + b)[0] == a[0];
      assert (a + b)[1..] == a[1..] + b;
      DeleteAppend(a[1..], b, c);
    }
  }

  /**
   * Apostrophes are removed before title-casing, so the letter after one
   * does not start a new word: two words of letters joined by an apostrophe
   * come back as one word with only its first letter raised ("o'brien"
   * becomes "Obrien").
   */
  lemma ReformatApostrophe(w1: string, w2: string)
    requires |w1| > 0 && |w2| > 0
    requires forall i :: 0 <= i < |w1| ==> IsLetter(w1[i])
    requires forall i :: 0 <= i < |w2| ==> IsLetter(w2[i])
    ensures var r := ReformatName(w1 + "'" + w2);
      && |r| == |w1| + |w2| && r[0] == Upper(w1[0]) && r[|w1|] == Lower(w2[0])
  {
    var t := w1 + "'" + w2;
    var w := w1 + w2;
    DeleteAppend(w1 + "'", w2, '\'');
    DeleteAppend(w1, "'", '\'');
    assert Delete("'", '\'') == "";
    DeleteAbsent(w1, '\'');
    DeleteAbsent(w2, '\'');
    assert Delete(t, '\'') == w;
    ReformatNameSpec(t);
    assert forall i :: 0 <= i < |w| ==> IsLetter(w[i]) by {
      forall i | 0 <= i < |w| ensures IsLetter(w[i]) {
        if i < |w1| { assert w[i] == w1[i]; } else { assert w[i] == w2[i - |w1|]; }
      }
    }
    CamelCaseOfLetters(w, false);
    assert w[0] == w1[0] && w[|w1|] == w2[0];
  }
}
