/** How a typed answer is judged, the same in `test` and in `play`: the line
    the user typed is trimmed by `makeQuestion`, then lower-cased and trimmed
    again; the stored answer is only lower-cased.  The two must then be equal
    as strings. */
module Answers {
  import opened Text

  /** `makeQuestion`: the promise resolves with the typed line, trimmed. */
  function Asked(line: string): (answer: string)
    ensures Trimmed(answer)
    ensures answer == [] <==> AllSpace(line)
  {
    Trim(line)
  }

  /** The comparison `answer.toLowerCase().trim() === quiz.answer.toLowerCase()`
      applied to what `makeQuestion` resolved with. */
  predicate Matches(answer: string, stored: string)
  {
    Trim(Lower(answer)) == Lower(stored)
  }

  /** Whether the typed `line` is accepted for a quiz whose answer is `stored`. */
  predicate IsCorrect(line: string, stored: string)
  {
    Matches(Asked(line), stored)
  }

  /** The verdict in plain terms: the typed line, trimmed and lower-cased,
      equals the stored answer lower-cased. */
  lemma IsCorrectMeaning(line: string, stored: string)
    ensures IsCorrect(line, stored) <==> Lower(Trim(line)) == Lower(stored)
  {
    TrimIdempotent(line);
    LowerTrimCommute(Trim(line));
    TrimIdempotent(Trim(line));
  }

  /** White space typed around the answer never changes the verdict. */
  lemma IsCorrectIgnoresPadding(p1: string, line: string, p2: string, stored: string)
    requires AllSpace(p1) && AllSpace(p2)
    ensures IsCorrect(p1 + line + p2, stored) <==> IsCorrect(line, stored)
  {
    TrimIgnoresPadding(p1, line, p2);
  }

  /** Nor does the case of the letters typed. */
  lemma IsCorrectIgnoresCase(line: string, stored: string)
    ensures IsCorrect(Lower(line), stored) <==> IsCorrect(line, stored)
  {
    IsCorrectMeaning(line, stored);
    IsCorrectMeaning(Lower(line), stored);
    LowerTrimCommute(line);
    LowerIdempotent(Trim(line));
  }

  /** Case in the stored answer does not matter either. */
  lemma IsCorrectIgnoresStoredCase(line: string, stored: string)
    ensures IsCorrect(line, Lower(stored)) <==> IsCorrect(line, stored)
  {
    LowerIdempotent(stored);
  }

  /** White space around the stored answer is NOT ignored: a stored answer
      that starts or ends with white space can never be matched, whatever is
      typed. */
  lemma PaddedStoredAnswerNeverMatches(line: string, stored: string)
    requires !Trimmed(stored)
    ensures !IsCorrect(line, stored)
  {
    IsCorrectMeaning(line, stored);
    LowerKeepsSpaces(stored);
    LowerKeepsSpaces(Trim(line));
  }

  /** Typing the stored answer back is accepted exactly when the stored answer
      carries no surrounding white space. */
  lemma EchoAccepted(stored: string)
    ensures IsCorrect(stored, stored) <==> Trimmed(stored)
  {
    IsCorrectMeaning(stored, stored);
    if Trimmed(stored) {
      TrimOfTrimmed(stored);
    } else {
      PaddedStoredAnswerNeverMatches(stored, stored);
    }
  }

  /** Relation to the rule that trims both sides (`lower(trim(line)) ==
      lower(trim(stored))`): every answer accepted here is accepted by that
      rule, and the two agree whenever the stored answer is trimmed. */
  lemma IsCorrectVersusTrimBoth(line: string, stored: string)
    ensures IsCorrect(line, stored) ==> Lower(Trim(line)) == Lower(Trim(stored))
    ensures Trimmed(stored) ==>
      (IsCorrect(line, stored) <==> Lower(Trim(line)) == Lower(Trim(stored)))
  {
    IsCorrectMeaning(line, stored);
    if Trimmed(stored) {
      TrimOfTrimmed(stored);
    } else {
      PaddedStoredAnswerNeverMatches(line, stored);
    }
  }
}
