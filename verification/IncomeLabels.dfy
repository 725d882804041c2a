/**
 Blocking of free-text income labels (app/core/intake_policy.py). `value.strip().lower()`
 is a parameter `fold`; all that is asked of it is to leave normalized text alone.
 */
module IncomeLabels {
  import opened Common

  predicate Alnum(c: char) {
    'a' <= c <= 'z' || '0' <= c <= '9'
  }

  // ------------------------------------------------------------------- the code

  function SkipSeparators(s: string): (rest: string)
    ensures |rest| <= |s| && (s != "" && !Alnum(s[0]) ==> |rest| < |s|)
    ensures rest != "" ==> Alnum(rest[0])
  {
    if s == "" || Alnum(s[0]) then s else SkipSeparators(s[1..])
  }

  /** re.sub("[^a-z0-9]+", "_", s) */
  function CollapseRuns(s: string): string
    decreases |s|
  {
    if s == "" then ""
    else if Alnum(s[0]) then [s[0]] + CollapseRuns(s[1..])
    else "_" + CollapseRuns(SkipSeparators(s))
  }

  function StripLeft(s: string): string {
    if s != "" && s[0] == '_' then StripLeft(s[1..]) else s
  }

  function StripRight(s: string): string {
    if s != "" && s[|s| - 1] == '_' then StripRight(s[..|s| - 1]) else s
  }

  function Normalize(fold: string -> string, value: string): string {
    StripRight(StripLeft(CollapseRuns(fold(value))))
  }

  predicate Matches(normalized: string, blocked: string) {
    normalized == blocked || blocked + "_" <= normalized
  }

  /** check_free_text_income_type: is the label refused? */
  predicate Refused(fold: string -> string, blocklist: set<string>, value: Option<string>) {
    match value
    case None => false
    case Some(text) => text != "" && exists blocked :: blocked in blocklist && Matches(Normalize(fold, text), blocked)
  }

  // ------------------------------------------------------------------- words

  predicate IsWord(s: string) {
    s != "" && forall i :: 0 <= i < |s| ==> Alnum(s[i])
  }

  function WordLength(s: string): (n: nat)
    ensures n <= |s|
    ensures forall i :: 0 <= i < n ==> Alnum(s[i])
    ensures n < |s| ==> !Alnum(s[n])
    ensures s != "" && Alnum(s[0]) ==> n > 0
  {
    if s == "" || !Alnum(s[0]) then 0 else 1 + WordLength(s[1..])
  }

  /** The maximal runs of letters and digits, in order. */
  function Words(s: string): seq<string>
    decreases |s|
  {
    var t := SkipSeparators(s);
    if t == "" then [] else [t[..WordLength(t)]] + Words(t[WordLength(t)..])
  }

  /** Words joined by single underscores. */
  function Join(words: seq<string>): string {
    if words == [] then ""
    else if |words| == 1 then words[0]
    else words[0] + "_" + Join(words[1..])
  }

  ghost predicate AllWords(words: seq<string>) {
    forall i :: 0 <= i < |words| ==> IsWord(words[i])
  }

  lemma {:induction false} WordsAreWords(s: string)
    ensures AllWords(Words(s))
    decreases |s|
  {
    var t := SkipSeparators(s);
    if t != "" {
      WordsAreWords(t[WordLength(t)..]);
    }
  }

  /** The words hold exactly the lower-case letters and digits of the label. */
  lemma {:induction false} WordsHoldLettersAndDigits(s: string, c: char)
    ensures (exists i :: 0 <= i < |Words(s)| && c in Words(s)[i])
       <==> c in s && ('a' <= c <= 'z' || '0' <= c <= '9')
    decreases |s|
  {
    var t := SkipSeparators(s);
    SkippedAreSeparators(s, c);
    if t != "" {
      var n := WordLength(t);
      var word, rest := t[..n], t[n..];
      assert t == word + rest;
      WordsHoldLettersAndDigits(rest, c);
      assert Words(s) == [word] + Words(rest);
      if c in word {
        assert Words(s)[0] == word;
      }
      if exists i :: 0 <= i < |Words(rest)| && c in Words(rest)[i] {
        var i :| 0 <= i < |Words(rest)| && c in Words(rest)[i];
        assert Words(s)[i + 1] == Words(rest)[i];
      }
    }
  }

  lemma {:induction false} SkippedAreSeparators(s: string, c: char)
    ensures Alnum(c) ==> (c in SkipSeparators(s) <==> c in s)
    ensures c in SkipSeparators(s) ==> c in s
  {
    if s != "" && !Alnum(s[0]) {
      SkippedAreSeparators(s[1..], c);
      assert s == [s[0]] + s[1..];
    }
  }

  // ------------------------------------------------------------------- joining and splitting

  lemma {:induction false} WordLengthIs(word: string, rest: string)
    requires forall i :: 0 <= i < |word| ==> Alnum(word[i])
    requires rest != "" ==> !Alnum(rest[0])
    ensures WordLength(word + rest) == |word|
  {
    if word == "" {
      assert word + rest == rest;
    } else {
      assert (word + rest)[1..] == word[1..] + rest;
      WordLengthIs(word[1..], rest);
    }
  }

  lemma FirstWord(word: string, rest: string)
    requires IsWord(word) && (rest != "" ==> !Alnum(rest[0]))
    ensures Words(word + rest) == [word] + Words(rest)
  {
    WordLengthIs(word, rest);
    assert (word + rest)[0] == word[0];
    assert (word + rest)[..|word|] == word && (word + rest)[|word|..] == rest;
  }

  lemma SeparatorBetween(rest: string)
    ensures Words("_" + rest) == Words(rest)
  {
  }

  lemma FirstOfMany(word: string, tail: string)
    requires IsWord(word)
    ensures Words(word + ("_" + tail)) == [word] + Words(tail)
  {
    FirstWord(word, "_" + tail);
    SeparatorBetween(tail);
  }

  lemma Reassociate(a: string, b: string, c: string)
    ensures a + "_" + b == a + ("_" + b)
    ensures (a + "_" + b) + "_" + c == a + ("_" + (b + "_" + c))
  {
  }

  lemma OneMoreWord(word: string, joined: string, rest: string)
    requires IsWord(word)
    ensures Words((word + "_" + joined) + "_" + rest) == [word] + Words(joined + "_" + rest)
  {
    Reassociate(word, joined, rest);
    FirstOfMany(word, joined + "_" + rest);
  }

  lemma {:induction false} JoinThenRest(words: seq<string>, rest: string)
    requires words != [] && AllWords(words)
    ensures Words(Join(words) + "_" + rest) == words + Words(rest)
  {
    if |words| == 1 {
      Reassociate(words[0], rest, "");
      FirstOfMany(words[0], rest);
      assert words == [words[0]];
    } else {
      JoinThenRest(words[1..], rest);
      OneMoreWord(words[0], Join(words[1..]), rest);
      Regroup(words[0], words[1..], Words(rest));
      assert words == [words[0]] + words[1..];
    }
  }

  lemma Regroup(word: string, words: seq<string>, more: seq<string>)
    ensures [word] + (words + more) == ([word] + words) + more
  {
  }

  /** Splitting undoes joining. */
  lemma {:induction false} WordsOfJoin(words: seq<string>)
    requires AllWords(words)
    ensures Words(Join(words)) == words
  {
    if |words| == 1 {
      FirstWord(words[0], "");
      assert words[0] + "" == words[0];
    } else if |words| > 1 {
      var tail := Join(words[1..]);
      assert Join(words) == words[0] + ("_" + tail);
      FirstOfMany(words[0], tail);
      WordsOfJoin(words[1..]);
    }
  }

  lemma {:induction false} JoinConcat(a: seq<string>, b: seq<string>)
    requires a != [] && b != []
    ensures Join(a + b) == Join(a) + "_" + Join(b)
  {
    if |a| == 1 {
      assert (a + b)[1..] == b;
    } else {
      assert (a + b)[1..] == a[1..] + b;
      JoinConcat(a[1..], b);
      assert Join(a + b) == a[0] + "_" + Join(a[1..] + b);
      assert a[0] + "_" + (Join(a[1..]) + "_" + Join(b)) == (a[0] + "_" + Join(a[1..])) + "_" + Join(b);
    }
  }

  // ------------------------------------------------------------------- what normalization computes

  lemma {:induction false} CollapseWord(word: string, rest: string)
    requires forall i :: 0 <= i < |word| ==> Alnum(word[i])
    ensures CollapseRuns(word + rest) == word + CollapseRuns(rest)
  {
    if word == "" {
      assert word + rest == rest;
      assert word + CollapseRuns(rest) == CollapseRuns(rest);
    } else {
      assert (word + rest)[1..] == word[1..] + rest;
      CollapseWord(word[1..], rest);
      assert [word[0]] + (word[1..] + CollapseRuns(rest)) == word + CollapseRuns(rest);
    }
  }

  lemma {:induction false} StripRightConcat(a: string, b: string)
    requires StripRight(b) != ""
    ensures StripRight(a + b) == a + StripRight(b)
  {
    assert b != "";
    if b[|b| - 1] == '_' {
      assert (a + b)[..|a + b| - 1] == a + b[..|b| - 1];
      StripRightConcat(a, b[..|b| - 1]);
    }
  }

  lemma TrimWordAndTail(word: string, tail: string)
    requires IsWord(word) && (tail == "" || StripRight(tail) != "")
    ensures StripRight(word + ("_" + tail)) == if tail == "" then word else word + "_" + StripRight(tail)
  {
    if tail == "" {
      assert word + ("_" + tail) == word + "_";
      assert (word + "_")[..|word|] == word;
    } else {
      StripRightConcat("_", tail);
      StripRightConcat(word, "_" + tail);
      Reassociate(word, StripRight(tail), "");
    }
  }

  // From a word onwards, collapsing and trimming the right end gives the joined words.
  lemma {:induction false} TrimmedIsJoined(t: string)
    requires t != "" ==> Alnum(t[0])
    ensures StripRight(CollapseRuns(t)) == Join(Words(t))
    ensures t != "" ==> StripRight(CollapseRuns(t)) != ""
    decreases |t|
  {
    if t != "" {
      var n := WordLength(t);
      var word, rest := t[..n], t[n..];
      assert t == word + rest;
      CollapseWord(word, rest);
      FirstWord(word, rest);
      if rest == "" {
        assert word + "" == word;
      } else {
        var next := SkipSeparators(rest);
        TrimmedIsJoined(next);
        SkipIsInvisible(rest);
        TrimWordAndTail(word, CollapseRuns(next));
      }
    }
  }

  lemma SkipIsInvisible(s: string)
    ensures Words(SkipSeparators(s)) == Words(s)
  {
  }

  lemma NothingToStripLeft(t: string)
    requires t != "" ==> Alnum(t[0])
    ensures StripLeft(CollapseRuns(t)) == CollapseRuns(t)
  {
  }

  lemma StripLeftOnce(s: string)
    ensures StripLeft("_" + s) == StripLeft(s)
  {
  }

  /** Normalizing keeps exactly the words, joined by single underscores. */
  lemma NormalizeJoinsWords(fold: string -> string, value: string)
    ensures Normalize(fold, value) == Join(Words(fold(value)))
    ensures AllWords(Words(fold(value)))
  {
    var s := fold(value);
    var t := SkipSeparators(s);
    WordsAreWords(s);
    SkipIsInvisible(s);
    TrimmedIsJoined(t);
    NothingToStripLeft(t);
    if s != t {
      assert CollapseRuns(s) == "_" + CollapseRuns(t);
      StripLeftOnce(CollapseRuns(t));
    }
  }

  // ------------------------------------------------------------------- main results

  predicate Normal(s: string) {
    forall i :: 0 <= i < |s| ==> Alnum(s[i]) || s[i] == '_'
  }

  /** Stripping and lower-casing leave text over [a-z0-9_] as it is. */
  ghost predicate FixesNormalText(fold: string -> string) {
    forall s {:trigger fold(s)} :: Normal(s) ==> fold(s) == s
  }

  lemma {:induction false} JoinIsNormal(words: seq<string>)
    requires AllWords(words)
    ensures Normal(Join(words))
  {
    if |words| > 1 {
      JoinIsNormal(words[1..]);
    }
  }

  lemma NormalizeIsIdempotent(fold: string -> string, value: string)
    requires FixesNormalText(fold)
    ensures Normalize(fold, Normalize(fold, value)) == Normalize(fold, value)
  {
    NormalizeJoinsWords(fold, value);
    var n := Normalize(fold, value);
    JoinIsNormal(Words(fold(value)));
    NormalizeJoinsWords(fold, n);
    WordsOfJoin(Words(fold(value)));
  }

  /** A blocklist entry in normalized form. */
  ghost predicate Canonical(blocked: string) {
    blocked != "" && Join(Words(blocked)) == blocked
  }

  lemma MatchesIsWordPrefix(words: seq<string>, blocked: string)
    requires AllWords(words) && Canonical(blocked)
    ensures Matches(Join(words), blocked) <==> Words(blocked) <= words
  {
    var bs := Words(blocked);
    WordsAreWords(blocked);
    WordsOfJoin(words);
    if blocked + "_" <= Join(words) {
      var rest := Join(words)[|blocked| + 1..];
      assert Join(words) == blocked + "_" + rest;
      JoinThenRest(bs, rest);
    }
    if bs <= words {
      var tail := words[|bs|..];
      assert words == bs + tail;
      if tail != [] {
        JoinConcat(bs, tail);
      } else {
        assert words == bs;
      }
    }
  }

  /** A label is refused exactly when the words of some blocked entry are a prefix of its words. */
  lemma RefusedIffWordPrefix(fold: string -> string, blocklist: set<string>, text: string)
    requires text != "" && forall blocked :: blocked in blocklist ==> Canonical(blocked)
    ensures Refused(fold, blocklist, Some(text))
       <==> exists blocked :: blocked in blocklist && Words(blocked) <= Words(fold(text))
  {
    NormalizeJoinsWords(fold, text);
    forall blocked | blocked in blocklist
      ensures Matches(Normalize(fold, text), blocked) <==> Words(blocked) <= Words(fold(text))
    {
      MatchesIsWordPrefix(Words(fold(text)), blocked);
    }
  }

  /** No label and the empty label are never refused. */
  lemma NothingToRefuse(fold: string -> string, blocklist: set<string>)
    ensures !Refused(fold, blocklist, None) && !Refused(fold, blocklist, Some(""))
  {
  }

  lemma JoinedWordsAreCanonical(words: seq<string>)
    requires words != [] && AllWords(words)
    ensures Canonical(Join(words)) && Words(Join(words)) == words
  {
    WordsOfJoin(words);
  }

  /** The configured default entries are in normalized form. */
  lemma {:induction false} SingleWordEntriesAreCanonical()
    ensures Canonical("student") && Canonical("ei")
  {
    JoinedWordsAreCanonical(["student"]);
    JoinedWordsAreCanonical(["ei"]);
  }

  lemma EmploymentInsuranceIsCanonical()
    ensures Canonical("employment_insurance")
  {
    var a, b := "employment", "insurance";
    JoinedWordsAreCanonical([a, b]);
    assert Join([a, b]) == a + "_" + b by {
      assert [a, b][1..] == [b];
    }
    assert a + "_" + b == "employment_insurance";
  }
}
