/**
 Scoring one submission: after collapsing the whitespace of the extracted
 text, a non-empty question counts as completed when its stripped form occurs
 in the text, and as missing otherwise. Empty questions count as neither.
 */
module Scoring {
  import opened Text
  import opened Records

  /** The score of one submission and the questions it is missing, in order. */
  datatype Grade = Grade(score: nat, missing: seq<string>)

  /** `q` counts as completed against the normalised text `norm`. */
  predicate IsCompleted(norm: string, q: string) {
    |q| > 0 && Contains(norm, Strip(q))
  }

  /** `q` is reported missing against the normalised text `norm`. */
  predicate IsMissing(norm: string, q: string) {
    |q| > 0 && !Contains(norm, Strip(q))
  }

  /** The completed questions of `qs`, in order and with repetitions. */
  function Completed(norm: string, qs: seq<string>): seq<string>
  {
    if qs == [] then []
    else (if IsCompleted(norm, qs[0]) then [qs[0]] else []) + Completed(norm, qs[1..])
  }

  /** The missing questions of `qs`, in order and with repetitions. */
  function Missing(norm: string, qs: seq<string>): seq<string>
  {
    if qs == [] then []
    else (if IsMissing(norm, qs[0]) then [qs[0]] else []) + Missing(norm, qs[1..])
  }

  /** The questions of `qs` that are not the empty string. */
  function NonEmpty(qs: seq<string>): seq<string>
  {
    if qs == [] then []
    else (if |qs[0]| > 0 then [qs[0]] else []) + NonEmpty(qs[1..])
  }

  // ---------------------------------------------------------------------------
  // The three filters
  // ---------------------------------------------------------------------------

  /** The filters distribute over concatenation of question lists. */
  lemma FiltersConcat(norm: string, a: seq<string>, b: seq<string>)
    ensures Completed(norm, a + b) == Completed(norm, a) + Completed(norm, b)
    ensures Missing(norm, a + b) == Missing(norm, a) + Missing(norm, b)
    ensures NonEmpty(a + b) == NonEmpty(a) + NonEmpty(b)
  {
    CompletedConcat(norm, a, b);
    MissingConcat(norm, a, b);
    NonEmptyConcat(a, b);
  }

  lemma {:induction false} CompletedConcat(norm: string, a: seq<string>, b: seq<string>)
    ensures Completed(norm, a + b) == Completed(norm, a) + Completed(norm, b)
  {
    if a == [] {
      assert a + b == b;
    } else {
      var q, rest := a[0], a[1..];
      assert a == [q] + rest;
      assert a + b == [q] + (rest + b);
      CompletedConcat(norm, rest, b);
      CompletedCons(norm, q, rest);
      CompletedCons(norm, q, rest + b);
      SeqAssoc(if IsCompleted(norm, q) then [q] else [], Completed(norm, rest), Completed(norm, b));
    }
  }

  lemma CompletedCons(norm: string, q: string, rest: seq<string>)
    ensures Completed(norm, [q] + rest) == (if IsCompleted(norm, q) then [q] else []) + Completed(norm, rest)
  {
    assert ([q] + rest)[1..] == rest;
  }

  lemma {:induction false} MissingConcat(norm: string, a: seq<string>, b: seq<string>)
    ensures Missing(norm, a + b) == Missing(norm, a) + Missing(norm, b)
  {
    if a == [] {
      assert a + b == b;
    } else {
      var q, rest := a[0], a[1..];
      assert a == [q] + rest;
      assert a + b == [q] + (rest + b);
      MissingConcat(norm, rest, b);
      MissingCons(norm, q, rest);
      MissingCons(norm, q, rest + b);
      SeqAssoc(if IsMissing(norm, q) then [q] else [], Missing(norm, rest), Missing(norm, b));
    }
  }

  lemma MissingCons(norm: string, q: string, rest: seq<string>)
    ensures Missing(norm, [q] + rest) == (if IsMissing(norm, q) then [q] else []) + Missing(norm, rest)
  {
    assert ([q] + rest)[1..] == rest;
  }

  lemma {:induction false} NonEmptyConcat(a: seq<string>, b: seq<string>)
    ensures NonEmpty(a + b) == NonEmpty(a) + NonEmpty(b)
  {
    if a == [] {
      assert a + b == b;
    } else {
      assert (a + b)[0] == a[0];
      assert (a + b)[1..] == a[1..] + b;
      NonEmptyConcat(a[1..], b);
    }
  }

  lemma NonEmptyCons(q: string, rest: seq<string>)
    ensures NonEmpty([q] + rest) == (if |q| > 0 then [q] else []) + NonEmpty(rest)
  {
    assert ([q] + rest)[1..] == rest;
  }

  /** Each question lands in exactly one of the completed and missing lists,
      unless it is empty, in which case it lands in neither. */
  lemma {:induction false} FiltersPartition(norm: string, qs: seq<string>)
    ensures multiset(Completed(norm, qs)) + multiset(Missing(norm, qs)) == multiset(NonEmpty(qs))
  {
    if qs != [] {
      var q, rest := qs[0], qs[1..];
      assert qs == [q] + rest;
      FiltersPartition(norm, rest);
      CompletedCons(norm, q, rest);
      MissingCons(norm, q, rest);
      NonEmptyCons(q, rest);
      PartitionStep(q, IsCompleted(norm, q), IsMissing(norm, q),
                    Completed(norm, rest), Missing(norm, rest), NonEmpty(rest));
    }
  }

  /** One question more: it joins the completed list or the missing list
      exactly when it is non-empty. */
  lemma PartitionStep(q: string, done: bool, missed: bool,
                      c: seq<string>, m: seq<string>, n: seq<string>)
    requires (done || missed) <==> |q| > 0
    requires !(done && missed)
    requires multiset(c) + multiset(m) == multiset(n)
    ensures multiset((if done then [q] else []) + c) + multiset((if missed then [q] else []) + m)
         == multiset((if |q| > 0 then [q] else []) + n)
  {
  }

  /** Counting the partition: the completed and missing lists together are as
      long as the list of non-empty questions. */
  lemma {:induction false} FiltersCount(norm: string, qs: seq<string>)
    ensures |Completed(norm, qs)| + |Missing(norm, qs)| == |NonEmpty(qs)|
  {
    FiltersPartition(norm, qs);
    assert |multiset(Completed(norm, qs)) + multiset(Missing(norm, qs))| == |multiset(NonEmpty(qs))|;
  }

  /** Membership in the missing list. */
  lemma {:induction false} MissingIff(norm: string, qs: seq<string>, q: string)
    ensures q in Missing(norm, qs) <==> q in qs && IsMissing(norm, q)
  {
    if qs != [] {
      var head, rest := qs[0], qs[1..];
      assert qs == [head] + rest;
      MissingIff(norm, rest, q);
      MissingCons(norm, head, rest);
    }
  }

  /** Membership in the completed list. */
  lemma {:induction false} CompletedIff(norm: string, qs: seq<string>, q: string)
    ensures q in Completed(norm, qs) <==> q in qs && IsCompleted(norm, q)
  {
    if qs != [] {
      var head, rest := qs[0], qs[1..];
      assert qs == [head] + rest;
      CompletedIff(norm, rest, q);
      CompletedCons(norm, head, rest);
    }
  }

  /** The missing questions keep the order of the question list. */
  lemma {:induction false} MissingIsSubsequence(norm: string, qs: seq<string>)
    ensures IsSubsequence(Missing(norm, qs), qs)
  {
    if qs != [] {
      MissingIsSubsequence(norm, qs[1..]);
      var rest := Missing(norm, qs[1..]);
      if IsMissing(norm, qs[0]) {
        assert Missing(norm, qs) == [qs[0]] + rest;
        assert ([qs[0]] + rest)[1..] == rest;
      } else {
        assert Missing(norm, qs) == rest;
        assert qs == [qs[0]] + qs[1..];
        SubsequenceCons(qs[0], rest, qs[1..]);
      }
    }
  }

  // ---------------------------------------------------------------------------
  // The scoring loop
  // ---------------------------------------------------------------------------

  /** The state of the scoring loop after it has visited every question of
      `qs` in turn: a completed question adds one point, a missing one is
      appended to the missing list, an empty one is skipped. */
  function Tally(norm: string, qs: seq<string>): (g: Grade)
    ensures g.score == |Completed(norm, qs)|
    ensures g.missing == Missing(norm, qs)
    decreases |qs|
  {
    if qs == [] then Grade(0, [])
    else
      var init, q := qs[..|qs| - 1], qs[|qs| - 1];
      var g := Tally(norm, init);
      assert qs == init + [q];
      FiltersConcat(norm, init, [q]);
      if |q| > 0 && Contains(norm, Strip(q)) then Grade(g.score + 1, g.missing)
      else if |q| > 0 then Grade(g.score, g.missing + [q])
      else g
  }

  /** Scores the extracted `text` of one submission against `questions`: the
      score is the number of completed questions and the missing list holds
      the missing ones, both judged against the whitespace-collapsed text. */
  function ScoreText(text: string, questions: seq<string>): (g: Grade)
    ensures g.score == |Completed(Normalise(text), questions)|
    ensures g.missing == Missing(Normalise(text), questions)
  {
    Tally(Normalise(text), questions)
  }

  /** Whatever the text, the score and the number of missing questions add up
      to the number of non-empty questions. */
  lemma ScoreCountsNonEmpty(questions: seq<string>)
    ensures forall text :: ScoreText(text, questions).score + |ScoreText(text, questions).missing| == |NonEmpty(questions)|
  {
    forall text
      ensures ScoreText(text, questions).score + |ScoreText(text, questions).missing| == |NonEmpty(questions)|
    {
      FiltersCount(Normalise(text), questions);
    }
  }

  /** Every non-empty question is either counted or listed as missing; a
      question is listed exactly when it is non-empty and its stripped form
      does not occur in the collapsed text; the list keeps question order. */
  lemma ScoreAccountsForEveryQuestion(text: string, questions: seq<string>)
    ensures var g := ScoreText(text, questions);
      g.score + |g.missing| == |NonEmpty(questions)|
    ensures forall q :: q in ScoreText(text, questions).missing <==> q in questions && IsMissing(Normalise(text), q)
    ensures IsSubsequence(ScoreText(text, questions).missing, questions)
  {
    var norm := Normalise(text);
    FiltersCount(norm, questions);
    MissingIsSubsequence(norm, questions);
    forall q ensures q in Missing(norm, questions) <==> q in questions && IsMissing(norm, q) {
      MissingIff(norm, questions, q);
    }
  }

  // ---------------------------------------------------------------------------
  // Properties of scoring
  // ---------------------------------------------------------------------------

  /** Scoring a concatenated question list adds the scores and concatenates the
      missing lists; duplicate questions are counted independently. */
  lemma ScoreConcat(text: string, a: seq<string>, b: seq<string>)
    ensures ScoreText(text, a + b).score == ScoreText(text, a).score + ScoreText(text, b).score
    ensures ScoreText(text, a + b).missing == ScoreText(text, a).missing + ScoreText(text, b).missing
  {
    FiltersConcat(Normalise(text), a, b);
  }

  /** Empty questions are never counted and never reported missing. */
  lemma EmptyQuestionIgnored(text: string, questions: seq<string>)
    ensures "" !in ScoreText(text, questions).missing
    ensures "" !in Completed(Normalise(text), questions)
  {
    CompletedIff(Normalise(text), questions, "");
  }

  /** Scoring a single question. */
  lemma ScoreSingle(text: string, q: string)
    ensures ScoreText(text, [q]) ==
      if IsCompleted(Normalise(text), q) then Grade(1, [])
      else if IsMissing(Normalise(text), q) then Grade(0, [q])
      else Grade(0, [])
  {
    assert [q][1..] == [];
  }

  /** Against an empty text layer, questions with visible characters all
      score nothing, and every one of them is listed missing. */
  lemma EmptyTextScoresZero(questions: seq<string>)
    requires forall q | q in questions :: !AllWs(q)
    ensures ScoreText("", questions) == Grade(0, questions)
  {
    EmptyTextFilters(Normalise(""), questions);
  }

  lemma {:induction false} EmptyTextFilters(norm: string, qs: seq<string>)
    requires norm == Normalise("")
    requires forall q | q in qs :: !AllWs(q)
    ensures Completed(norm, qs) == [] && Missing(norm, qs) == qs
  {
    if qs != [] {
      var q, rest := qs[0], qs[1..];
      assert qs == [q] + rest;
      EmptyTextFilters(norm, rest);
      EmptyTextMissing(q);
      CompletedCons(norm, q, rest);
      MissingCons(norm, q, rest);
    }
  }

  /** Two questions, the first found and the second not. */
  lemma ScoreFoundThenMissing(text: string, a: string, b: string)
    requires IsCompleted(Normalise(text), a) && IsMissing(Normalise(text), b)
    ensures ScoreText(text, [a, b]) == Grade(1, [b])
  {
    var norm := Normalise(text);
    assert Completed(norm, [a, b]) == [a] by {
      CompletedPair(norm, a, b);
    }
    assert Missing(norm, [a, b]) == [b] by {
      MissingPair(norm, a, b);
    }
  }

  /** A list of empty questions scores zero with nothing missing. */
  lemma {:induction false} EmptyQuestionsScoreNothing(text: string, questions: seq<string>)
    requires forall i :: 0 <= i < |questions| ==> questions[i] == ""
    ensures ScoreText(text, questions) == Grade(0, [])
  {
    assert NonEmpty(questions) == [] by {
      EmptyFiltersVanish(questions);
    }
    ScoreAccountsForEveryQuestion(text, questions);
  }

  lemma {:induction false} EmptyFiltersVanish(questions: seq<string>)
    requires forall i :: 0 <= i < |questions| ==> questions[i] == ""
    ensures NonEmpty(questions) == []
  {
    if questions != [] {
      EmptyFiltersVanish(questions[1..]);
    }
  }

  /** A question made only of whitespace strips to the empty string, which
      occurs in every text, so it is always counted as completed. */
  lemma WhitespaceQuestionCounts(text: string, q: string)
    requires |q| > 0 && AllWs(q)
    ensures IsCompleted(Normalise(text), q)
  {
    ContainsEmpty(Normalise(text));
  }

  /** Against an empty text, a question is missing exactly when it holds a
      non-whitespace character. */
  lemma EmptyTextMissing(q: string)
    ensures IsMissing(Normalise(""), q) <==> !AllWs(q)
  {
    assert Normalise("") == "";
    if AllWs(q) {
      ContainsEmpty("");
    } else {
      assert |Strip(q)| > 0;
      assert q != [];
    }
  }

  /** Scoring an already normalised text gives the same result: the score
      depends only on the whitespace-collapsed text. */
  lemma ScoreOfNormalisedText(text: string, questions: seq<string>)
    ensures ScoreText(Normalise(text), questions) == ScoreText(text, questions)
  {
    NormaliseIdempotent(text);
  }

  /** A question whose stripped form is written with single spaces and occurs
      verbatim in the raw text is counted, however the text around it is
      spaced. */
  lemma VerbatimQuestionCounts(text: string, q: string)
    requires |q| > 0 && IsNormal(Strip(q)) && Contains(text, Strip(q))
    ensures IsCompleted(Normalise(text), q)
  {
    if Strip(q) == [] {
      ContainsEmpty(Normalise(text));
    } else {
      NormalisePreservesContains(text, Strip(q));
    }
  }

  /** A question whose stripped form holds a whitespace character other than a
      single plain space can never occur in the collapsed text, so it is
      always reported missing. */
  lemma IrregularQuestionNeverCounts(text: string, q: string)
    requires !IsSpaced(Strip(q))
    ensures IsMissing(Normalise(text), q)
  {
    assert |q| > 0 by {
      assert AllWs([]);
    }
    assert !Contains(Normalise(text), Strip(q)) by {
      if Contains(Normalise(text), Strip(q)) {
        InfixOfNormalIsSpaced(Normalise(text), Strip(q));
      }
    }
  }

  /** Two questions that both occur score two and miss nothing. */
  lemma ScoreBothFound(text: string, a: string, b: string)
    requires IsCompleted(Normalise(text), a) && IsCompleted(Normalise(text), b)
    ensures ScoreText(text, [a, b]) == Grade(2, [])
  {
    var norm := Normalise(text);
    assert |Completed(norm, [a, b])| == 2 by {
      CompletedPair(norm, a, b);
    }
    assert Missing(norm, [a, b]) == [] by {
      MissingPair(norm, a, b);
    }
  }

  lemma CompletedPair(norm: string, a: string, b: string)
    ensures Completed(norm, [a, b]) ==
      (if IsCompleted(norm, a) then [a] else []) + (if IsCompleted(norm, b) then [b] else [])
  {
    assert [a, b] == [a] + [b];
    CompletedCons(norm, a, [b]);
    assert [b] == [b] + [];
    CompletedCons(norm, b, []);
  }

  lemma MissingPair(norm: string, a: string, b: string)
    ensures Missing(norm, [a, b]) ==
      (if IsMissing(norm, a) then [a] else []) + (if IsMissing(norm, b) then [b] else [])
  {
    assert [a, b] == [a] + [b];
    MissingCons(norm, a, [b]);
    assert [b] == [b] + [];
    MissingCons(norm, b, []);
  }

  /** Two questions written out in a sentence, each with single inner spaces
      and no surrounding whitespace, both count. */
  lemma BothQuestionsFound(before: string, q0: string, middle: string, q1: string, after: string)
    requires q0 != [] && !IsWs(q0[0]) && !IsWs(q0[|q0| - 1]) && IsNormal(q0)
    requires q1 != [] && !IsWs(q1[0]) && !IsWs(q1[|q1| - 1]) && IsNormal(q1)
    ensures ScoreText(before + q0 + middle + q1 + after, [q0, q1]) == Grade(2, [])
  {
    var text := before + q0 + middle + q1 + after;
    assert text == before + q0 + (middle + q1 + after);
    assert text == (before + q0 + middle) + q1 + after;
    QuestionFoundIn(before, q0, middle + q1 + after);
    QuestionFoundIn(before + q0 + middle, q1, after);
    ScoreBothFound(text, q0, q1);
  }

  /** A question with single inner spaces and no surrounding whitespace counts
      wherever it is written in the text. */
  lemma QuestionFoundIn(before: string, q: string, after: string)
    requires q != [] && !IsWs(q[0]) && !IsWs(q[|q| - 1]) && IsNormal(q)
    ensures IsCompleted(Normalise(before + q + after), q)
  {
    StripTrimmed(q);
    ContainsMiddle(before, q, after);
    VerbatimQuestionCounts(before + q + after, q);
  }
}
