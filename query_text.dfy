/** Query-text preprocessing `_preprocess_query` (sparse.py:251-267): the
    question marks that would act as the engine's one-character wildcard are
    deleted. The regular-expression classes `\w` and `\s` are parameters. */
module QueryText {

  /** A match of `(\w)\?([\s"]|$)` starting at position j of s. */
  predicate MatchAt(s: string, j: nat, isWord: char -> bool, isSpace: char -> bool)
    requires j + 1 < |s|
  {
    isWord(s[j]) && s[j + 1] == '?' &&
    ((j + 2 < |s| && (isSpace(s[j + 2]) || s[j + 2] == '"')) ||
     j + 2 == |s| ||
     (j + 3 == |s| && s[j + 2] == '\n'))
  }

  /** No position of s starts a match. */
  predicate NoMatch(s: string, isWord: char -> bool, isSpace: char -> bool) {
    forall j :: 0 <= j < |s| - 1 ==> !MatchAt(s, j, isWord, isSpace)
  }

  /** `re.sub(r'(\w)\?([\s\"]|$)', r'\1\2', s)`: a left-to-right scan for
      non-overlapping matches. The alternative `[\s"]` is tried before `$`, and
      `$` also matches just before a final newline; after a match the scan
      resumes where the match ended. */
  function Strip(s: string, isWord: char -> bool, isSpace: char -> bool): string
    decreases |s|
  {
    if |s| < 2 then s
    else if isWord(s[0]) && s[1] == '?' && |s| >= 3 && (isSpace(s[2]) || s[2] == '"') then
      [s[0], s[2]] + Strip(s[3..], isWord, isSpace)
    else if isWord(s[0]) && s[1] == '?' && (|s| == 2 || (|s| == 3 && s[2] == '\n')) then
      [s[0]] + Strip(s[2..], isWord, isSpace)
    else
      [s[0]] + Strip(s[1..], isWord, isSpace)
  }

  /** The query with one final `?` dropped, as `_preprocess_query` does first. */
  function Trimmed(q: string): string {
    if |q| > 0 && q[|q| - 1] == '?' then q[..|q| - 1] else q
  }

  /** `_preprocess_query`: drop one final `?`, then strip the `?` after words. */
  function Preprocess(q: string, isWord: char -> bool, isSpace: char -> bool): string {
    Strip(Trimmed(q), isWord, isSpace)
  }

  /** What Python's `\w` and `\s` satisfy: `?` is neither, `"` is no word
      character, a newline is white space, and no white space is a word character. */
  predicate PythonLikeClasses(isWord: char -> bool, isSpace: char -> bool) {
    !isWord('?') && !isWord('"') && !isSpace('?') && isSpace('\n') &&
    forall c :: isSpace(c) ==> !isWord(c)
  }

  /** s from position i on, with the characters at the positions in D deleted. */
  function KeepFrom(s: string, D: set<nat>, i: nat): string
    requires i <= |s|
    decreases |s| - i
  {
    if i == |s| then [] else (if i in D then [] else [s[i]]) + KeepFrom(s, D, i + 1)
  }

  /** s with the characters at the positions in D deleted. */
  function Delete(s: string, D: set<nat>): string {
    KeepFrom(s, D, 0)
  }

  /** The positions of s whose `?` the substitution deletes while it scans
      s[j..]: the `?` of each match, which follows a word character and is
      followed by white space, a quote, the end, or a final newline. */
  function StripDeletedFrom(s: string, j: nat, isWord: char -> bool, isSpace: char -> bool): (D: set<nat>)
    requires j <= |s|
    ensures forall d :: d in D ==> j < d < |s| && MatchAt(s, d - 1, isWord, isSpace)
    decreases |s| - j
  {
    if |s| - j < 2 then {}
    else if isWord(s[j]) && s[j + 1] == '?' && |s| - j >= 3 && (isSpace(s[j + 2]) || s[j + 2] == '"') then
      {j + 1} + StripDeletedFrom(s, j + 3, isWord, isSpace)
    else if isWord(s[j]) && s[j + 1] == '?' && (|s| - j == 2 || (|s| - j == 3 && s[j + 2] == '\n')) then
      {j + 1} + StripDeletedFrom(s, j + 2, isWord, isSpace)
    else
      StripDeletedFrom(s, j + 1, isWord, isSpace)
  }

  /** The positions of a query that `_preprocess_query` deletes: a final `?`,
      and the `?` of each match of the substitution in what remains. */
  function PreprocessDeleted(q: string, isWord: char -> bool, isSpace: char -> bool): (D: set<nat>)
    ensures forall d :: d in D ==>
              d < |q| && q[d] == '?' &&
              (d == |q| - 1 || (0 < d < |Trimmed(q)| && MatchAt(Trimmed(q), d - 1, isWord, isSpace)))
  {
    if |q| > 0 && q[|q| - 1] == '?' then StripDeletedFrom(q[..|q| - 1], 0, isWord, isSpace) + {|q| - 1}
    else StripDeletedFrom(q, 0, isWord, isSpace)
  }

  lemma {:induction false} KeepFromAgree(s: string, D1: set<nat>, D2: set<nat>, i: nat)
    requires i <= |s|
    requires forall k :: i <= k < |s| ==> (k in D1 <==> k in D2)
    ensures KeepFrom(s, D1, i) == KeepFrom(s, D2, i)
    decreases |s| - i
  {
    if i < |s| {
      KeepFromAgree(s, D1, D2, i + 1);
    }
  }

  lemma {:induction false} KeepFromNothing(s: string, D: set<nat>, i: nat)
    requires i <= |s|
    requires forall k :: i <= k < |s| ==> k !in D
    ensures KeepFrom(s, D, i) == s[i..]
    decreases |s| - i
  {
    if i < |s| {
      KeepFromNothing(s, D, i + 1);
      assert s[i..] == [s[i]] + s[i + 1..];
    }
  }

  /** Deleting the last position is the same as dropping the last character. */
  lemma {:induction false} KeepFromDropLast(s: string, D: set<nat>, i: nat)
    requires 0 < |s| && i < |s| && |s| - 1 in D
    ensures KeepFrom(s, D, i) == KeepFrom(s[..|s| - 1], D, i)
    decreases |s| - i
  {
    if i < |s| - 1 {
      KeepFromDropLast(s, D, i + 1);
    }
  }

  /** One step of the scan: the match at j deletes position j + 1 and the scan
      resumes at k; what follows k is deleted as D names. */
  lemma {:induction false} KeepFromAfterMatch(s: string, D: set<nat>, j: nat, k: nat)
    requires j + 2 <= k <= j + 3 && k <= |s|
    requires j !in D && j + 1 in D && (k == j + 3 ==> j + 2 !in D)
    ensures KeepFrom(s, D, j) == [s[j]] + s[j + 2..k] + KeepFrom(s, D, k)
  {
    assert KeepFrom(s, D, j) == [s[j]] + KeepFrom(s, D, j + 1);
    assert KeepFrom(s, D, j + 1) == KeepFrom(s, D, j + 2);
    if k == j + 3 {
      assert KeepFrom(s, D, j + 2) == [s[j + 2]] + KeepFrom(s, D, j + 3);
      assert s[j + 2..k] == [s[j + 2]];
    } else {
      assert s[j + 2..k] == [];
    }
  }

  /** The scan of s[j..] at a match whose `?` is followed by white space or a quote. */
  lemma StripAtSpaceMatch(s: string, j: nat, isWord: char -> bool, isSpace: char -> bool)
    requires j + 3 <= |s| && isWord(s[j]) && s[j + 1] == '?' && (isSpace(s[j + 2]) || s[j + 2] == '"')
    ensures Strip(s[j..], isWord, isSpace) == [s[j]] + s[j + 2..j + 3] + Strip(s[j + 3..], isWord, isSpace)
  {
    var t := s[j..];
    assert t[3..] == s[j + 3..];
    assert s[j + 2..j + 3] == [t[2]];
  }

  /** The scan of s[j..] at a match at the end of the text. */
  lemma StripAtEndMatch(s: string, j: nat, isWord: char -> bool, isSpace: char -> bool)
    requires j + 2 <= |s| && isWord(s[j]) && s[j + 1] == '?'
    requires !(|s| - j >= 3 && (isSpace(s[j + 2]) || s[j + 2] == '"'))
    requires |s| - j == 2 || (|s| - j == 3 && s[j + 2] == '\n')
    ensures Strip(s[j..], isWord, isSpace) == [s[j]] + s[j + 2..j + 2] + Strip(s[j + 2..], isWord, isSpace)
  {
    var t := s[j..];
    assert t[2..] == s[j + 2..];
    assert s[j + 2..j + 2] == [];
  }

  /** The scan of s[j..] at a position that starts no match. */
  lemma StripAtNoMatch(s: string, j: nat, isWord: char -> bool, isSpace: char -> bool)
    requires j + 2 <= |s|
    requires !(isWord(s[j]) && s[j + 1] == '?' && |s| - j >= 3 && (isSpace(s[j + 2]) || s[j + 2] == '"'))
    requires !(isWord(s[j]) && s[j + 1] == '?' && (|s| - j == 2 || (|s| - j == 3 && s[j + 2] == '\n')))
    ensures Strip(s[j..], isWord, isSpace) == [s[j]] + Strip(s[j + 1..], isWord, isSpace)
  {
    var t := s[j..];
    assert t[1..] == s[j + 1..];
  }

  /** The substitution on s[j..] deletes exactly the positions StripDeletedFrom names. */
  lemma {:induction false} StripIsDeletionFrom(s: string, j: nat, isWord: char -> bool, isSpace: char -> bool)
    requires j <= |s|
    ensures Strip(s[j..], isWord, isSpace) == KeepFrom(s, StripDeletedFrom(s, j, isWord, isSpace), j)
    decreases |s| - j
  {
    var D := StripDeletedFrom(s, j, isWord, isSpace);
    if |s| - j < 2 {
      KeepFromNothing(s, D, j);
    } else if isWord(s[j]) && s[j + 1] == '?' && |s| - j >= 3 && (isSpace(s[j + 2]) || s[j + 2] == '"') {
      StripAtSpaceMatch(s, j, isWord, isSpace);
      StripIsDeletionFrom(s, j + 3, isWord, isSpace);
      KeepFromAgree(s, D, StripDeletedFrom(s, j + 3, isWord, isSpace), j + 3);
      KeepFromAfterMatch(s, D, j, j + 3);
    } else if isWord(s[j]) && s[j + 1] == '?' && (|s| - j == 2 || (|s| - j == 3 && s[j + 2] == '\n')) {
      StripAtEndMatch(s, j, isWord, isSpace);
      StripIsDeletionFrom(s, j + 2, isWord, isSpace);
      KeepFromAgree(s, D, StripDeletedFrom(s, j + 2, isWord, isSpace), j + 2);
      KeepFromAfterMatch(s, D, j, j + 2);
    } else {
      StripAtNoMatch(s, j, isWord, isSpace);
      StripIsDeletionFrom(s, j + 1, isWord, isSpace);
    }
  }

  /** The substitution only deletes characters, and each one it deletes is a
      `?` that follows a word character. */
  lemma StripDeletesOnlyQuestionMarks(s: string, isWord: char -> bool, isSpace: char -> bool)
    ensures Strip(s, isWord, isSpace) == Delete(s, StripDeletedFrom(s, 0, isWord, isSpace))
  {
    StripIsDeletionFrom(s, 0, isWord, isSpace);
    assert s[0..] == s;
  }

  /** Preprocessing only deletes characters: a final `?`, and otherwise only
      `?` characters that follow a word character. */
  lemma PreprocessDeletesOnlyQuestionMarks(q: string, isWord: char -> bool, isSpace: char -> bool)
    ensures Preprocess(q, isWord, isSpace) == Delete(q, PreprocessDeleted(q, isWord, isSpace))
  {
    var D := PreprocessDeleted(q, isWord, isSpace);
    if |q| > 0 && q[|q| - 1] == '?' {
      var t := q[..|q| - 1];
      StripDeletesOnlyQuestionMarks(t, isWord, isSpace);
      KeepFromDropLast(q, D, 0);
      KeepFromAgree(t, D, StripDeletedFrom(t, 0, isWord, isSpace), 0);
    } else {
      StripDeletesOnlyQuestionMarks(q, isWord, isSpace);
    }
  }

  /** A `?` (indeed any character) that does not follow a word character is
      kept, wherever it stands, unless it is the final character of the query. */
  lemma PreprocessKeepsQuestionMarkAfterNonWord(q: string, p: nat, isWord: char -> bool, isSpace: char -> bool)
    requires p < |q| - 1 && (p == 0 || !isWord(q[p - 1]))
    ensures Preprocess(q, isWord, isSpace) == Delete(q, PreprocessDeleted(q, isWord, isSpace))
    ensures p !in PreprocessDeleted(q, isWord, isSpace)
  {
    PreprocessDeletesOnlyQuestionMarks(q, isWord, isSpace);
  }

  /** With Python's character classes matches cannot overlap, so the scan of
      s[j..] deletes the `?` of every match that starts at or after j. */
  lemma {:induction false} StripDeletesEveryMatch(s: string, j: nat, isWord: char -> bool, isSpace: char -> bool)
    requires j <= |s| && PythonLikeClasses(isWord, isSpace)
    ensures forall i :: j <= i < |s| - 1 && MatchAt(s, i, isWord, isSpace) ==> i + 1 in StripDeletedFrom(s, j, isWord, isSpace)
    decreases |s| - j
  {
    if |s| - j < 2 {
    } else if isWord(s[j]) && s[j + 1] == '?' && |s| - j >= 3 && (isSpace(s[j + 2]) || s[j + 2] == '"') {
      StripDeletesEveryMatch(s, j + 3, isWord, isSpace);
      assert !isWord(s[j + 2]);
    } else if isWord(s[j]) && s[j + 1] == '?' && (|s| - j == 2 || (|s| - j == 3 && s[j + 2] == '\n')) {
      StripDeletesEveryMatch(s, j + 2, isWord, isSpace);
    } else {
      StripDeletesEveryMatch(s, j + 1, isWord, isSpace);
      assert !MatchAt(s, j, isWord, isSpace);
    }
  }

  /** With Python's character classes, preprocessing deletes a position
      exactly when it is the query's final `?` or the `?` of a match of the
      substitution in the query with that `?` dropped. */
  lemma PreprocessDeletesExactlyTheMatches(q: string, d: nat, isWord: char -> bool, isSpace: char -> bool)
    requires PythonLikeClasses(isWord, isSpace)
    ensures d in PreprocessDeleted(q, isWord, isSpace) <==>
              (d == |q| - 1 && q[d] == '?') ||
              (0 < d < |Trimmed(q)| && MatchAt(Trimmed(q), d - 1, isWord, isSpace))
  {
    StripDeletesEveryMatch(Trimmed(q), 0, isWord, isSpace);
  }

  /** A `?` between two word characters, the engine's one-character wildcard
      as in `te?t`, is never deleted. */
  lemma PreprocessKeepsWildcardInsideTerm(q: string, p: nat, isWord: char -> bool, isSpace: char -> bool)
    requires PythonLikeClasses(isWord, isSpace)
    requires p + 1 < |q| && isWord(q[p + 1])
    ensures Preprocess(q, isWord, isSpace) == Delete(q, PreprocessDeleted(q, isWord, isSpace))
    ensures p !in PreprocessDeleted(q, isWord, isSpace)
  {
    PreprocessDeletesOnlyQuestionMarks(q, isWord, isSpace);
  }

  lemma NoMatchOfSuffix(s: string, k: nat, isWord: char -> bool, isSpace: char -> bool)
    requires k <= |s| && NoMatch(s, isWord, isSpace)
    ensures NoMatch(s[k..], isWord, isSpace)
  {
    forall j | 0 <= j < |s[k..]| - 1
      ensures !MatchAt(s[k..], j, isWord, isSpace)
    {
      assert !MatchAt(s, j + k, isWord, isSpace);
    }
  }

  /** A text in which no position starts a match is left as it is. */
  lemma {:induction false} StripWithoutMatchIsIdentity(s: string, isWord: char -> bool, isSpace: char -> bool)
    requires NoMatch(s, isWord, isSpace)
    ensures Strip(s, isWord, isSpace) == s
    decreases |s|
  {
    if |s| >= 2 {
      assert !MatchAt(s, 0, isWord, isSpace);
      NoMatchOfSuffix(s, 1, isWord, isSpace);
      StripWithoutMatchIsIdentity(s[1..], isWord, isSpace);
      assert s == [s[0]] + s[1..];
    }
  }

  /** A query with no `?` at all is returned unchanged. */
  lemma PreprocessWithoutQuestionMark(q: string, isWord: char -> bool, isSpace: char -> bool)
    requires '?' !in q
    ensures Preprocess(q, isWord, isSpace) == q
  {
    assert q != [] ==> q[|q| - 1] in q;
    StripWithoutMatchIsIdentity(q, isWord, isSpace);
  }

  /** A question and the same text without its final question mark are one query. */
  lemma QuestionIsSameQueryAsStatement(q: string, isWord: char -> bool, isSpace: char -> bool)
    requires q == [] || q[|q| - 1] != '?'
    ensures Preprocess(q + "?", isWord, isSpace) == Preprocess(q, isWord, isSpace)
  {
    assert (q + "?")[..|q + "?"| - 1] == q;
  }

  lemma {:induction false} StripKeepsFirstCharacter(s: string, isWord: char -> bool, isSpace: char -> bool)
    ensures |Strip(s, isWord, isSpace)| == 0 <==> s == []
    ensures s != [] ==> Strip(s, isWord, isSpace)[0] == s[0]
    ensures |Strip(s, isWord, isSpace)| <= |s|
    decreases |s|
  {
    if |s| >= 2 {
      if isWord(s[0]) && s[1] == '?' && |s| >= 3 && (isSpace(s[2]) || s[2] == '"') {
        StripKeepsFirstCharacter(s[3..], isWord, isSpace);
      } else if isWord(s[0]) && s[1] == '?' && (|s| == 2 || (|s| == 3 && s[2] == '\n')) {
        StripKeepsFirstCharacter(s[2..], isWord, isSpace);
      } else {
        StripKeepsFirstCharacter(s[1..], isWord, isSpace);
      }
    }
  }

  lemma NoMatchOfPrefixed(p: string, r: string, isWord: char -> bool, isSpace: char -> bool)
    requires NoMatch(r, isWord, isSpace)
    requires forall j :: 0 <= j < |p| && j + 1 < |p + r| ==> !MatchAt(p + r, j, isWord, isSpace)
    ensures NoMatch(p + r, isWord, isSpace)
  {
    forall j | |p| <= j < |p + r| - 1
      ensures !MatchAt(p + r, j, isWord, isSpace)
    {
      assert !MatchAt(r, j - |p|, isWord, isSpace);
    }
  }

  /** After stripping, no word character is followed by a `?` that the
      substitution would delete: the `?` it leaves are all ones it must keep. */
  lemma {:induction false} StripLeavesNoMatch(s: string, isWord: char -> bool, isSpace: char -> bool)
    requires PythonLikeClasses(isWord, isSpace)
    ensures NoMatch(Strip(s, isWord, isSpace), isWord, isSpace)
    decreases |s|
  {
    var r := Strip(s, isWord, isSpace);
    if |s| < 2 {
    } else if isWord(s[0]) && s[1] == '?' && |s| >= 3 && (isSpace(s[2]) || s[2] == '"') {
      var rest := Strip(s[3..], isWord, isSpace);
      StripLeavesNoMatch(s[3..], isWord, isSpace);
      assert !isWord(s[2]);
      NoMatchOfPrefixed([s[0], s[2]], rest, isWord, isSpace);
    } else if isWord(s[0]) && s[1] == '?' && (|s| == 2 || (|s| == 3 && s[2] == '\n')) {
      var rest := Strip(s[2..], isWord, isSpace);
      StripLeavesNoMatch(s[2..], isWord, isSpace);
      // a newline is white space, so only the end of the text can end this match
      assert |s| == 2;
      NoMatchOfPrefixed([s[0]], rest, isWord, isSpace);
    } else {
      var rest := Strip(s[1..], isWord, isSpace);
      StripLeavesNoMatch(s[1..], isWord, isSpace);
      StripKeepsFirstCharacter(s[1..], isWord, isSpace);
      if isWord(s[0]) && s[1] == '?' {
        // s[1] == '?' is no word character, so the scan passes it unchanged
        assert rest == ['?'] + Strip(s[2..], isWord, isSpace);
        StripKeepsFirstCharacter(s[2..], isWord, isSpace);
        assert |s| > 2;
        assert r[2] == s[2];
        assert !(isSpace(s[2]) || s[2] == '"');
        assert s[2] != '\n';
        assert !MatchAt(r, 0, isWord, isSpace);
      }
      NoMatchOfPrefixed([s[0]], rest, isWord, isSpace);
    }
  }

  /** Stripping is idempotent: a second pass of the substitution changes nothing. */
  lemma StripIdempotent(s: string, isWord: char -> bool, isSpace: char -> bool)
    requires PythonLikeClasses(isWord, isSpace)
    ensures Strip(Strip(s, isWord, isSpace), isWord, isSpace) == Strip(s, isWord, isSpace)
  {
    StripLeavesNoMatch(s, isWord, isSpace);
    StripWithoutMatchIsIdentity(Strip(s, isWord, isSpace), isWord, isSpace);
  }

  /** The preprocessed query contains no word character followed by a `?` and
      then white space, a quote or the end. */
  lemma PreprocessLeavesNoWordQuestionMark(q: string, isWord: char -> bool, isSpace: char -> bool)
    requires PythonLikeClasses(isWord, isSpace)
    ensures NoMatch(Preprocess(q, isWord, isSpace), isWord, isSpace)
  {
    StripLeavesNoMatch(Trimmed(q), isWord, isSpace);
  }
}
