/**
 * Concrete gradings: the behaviour the engine is documented to have on
 * small quizzes, derived from the general lemmas.
 */
module Scenarios {
  import opened Text
  import opened Matching
  import opened Grading

  /** A string whose characters lower-case one by one to `t` lower-cases to `t`. */
  lemma LowerCaseTo(s: string, t: string)
    requires |s| == |t| && forall k :: 0 <= k < |s| ==> ToLower(s[k]) == t[k]
    ensures LowerCase(s) == t
  {
  }

  /** A trimmed string normalises to its character-wise lower-case form. */
  lemma NormalizeTrimmed(s: string, t: string)
    requires Trimmed(s) && |s| == |t| && forall k :: 0 <= k < |s| ==> ToLower(s[k]) == t[k]
    ensures Normalize(s) == t
  {
    TrimOfTrimmed(s);
    LowerCaseTo(s, t);
  }

  /** "Paris" normalises to "paris". */
  lemma NormalizeParis()
    ensures Normalize("Paris") == "paris"
  {
    NormalizeTrimmed("Paris", "paris");
  }

  /** " paris " normalises to "paris". */
  lemma NormalizePaddedParis()
    ensures Normalize(" paris ") == "paris"
  {
    hide Normalize;
    hide Trim;
    hide LowerCase;
    var padded := " " + "paris" + " ";
    assert padded == " paris ";
    NormalizeTrimmed("paris", "paris");
    NormalizeIgnoresPadding(" ", "paris", " ");
  }

  /** Multiple choice ignores case and surrounding whitespace. */
  lemma MultipleChoicePaddedLowerCase()
    ensures CompareAnswers(" paris ", "Paris", MultipleChoice)
  {
    NormalizeParis();
    NormalizePaddedParis();
  }

  /** Multiple choice does not fold accents: "parís" is not "Paris". */
  lemma MultipleChoiceAccent()
    ensures !CompareAnswers("parís", "Paris", MultipleChoice)
  {
    hide Normalize;
    hide CompareAnswers;
    NormalizeParis();
    NormalizeTrimmed("parís", "parís");
    assert "parís"[3] != "paris"[3];
  }

  const Expected: string := "mitochondria produces energy"
  const ExpectedWords: seq<string> := ["mitochondria", "produces", "energy"]

  /** The expected answer normalises to itself. */
  lemma ExpectedNormal()
    ensures Normalize(Expected) == Expected
  {
    hide Normalize;
    NormalizeTrimmed(Expected, Expected);
  }

  /** The expected answer splits into three words. */
  lemma ExpectedSplit()
    ensures Split(Expected) == ExpectedWords
  {
    hide Split;
    var seps := [" ", " "];
    assert Join(ExpectedWords, seps) == Expected;
    SplitJoin(ExpectedWords, seps);
  }

  const Student2: string := "the " + "mitochondria" + " makes " + "energy" + " for the cell"
  const Student3: string := "mitochondria" + " " + "produces" + " cellular " + "energy"

  /** "the mitochondria makes energy for the cell" contains "mitochondria" and "energy". */
  lemma Student2Contains()
    ensures Contains(Student2, "mitochondria") && Contains(Student2, "energy")
  {
    hide Contains;
    ContainsLastPart("the ", "mitochondria");
    ContainsExtended("the " + "mitochondria", "mitochondria", " makes ");
    ContainsExtended("the " + "mitochondria" + " makes ", "mitochondria", "energy");
    ContainsExtended("the " + "mitochondria" + " makes " + "energy", "mitochondria", " for the cell");
    ContainsLastPart("the " + "mitochondria" + " makes ", "energy");
    ContainsExtended("the " + "mitochondria" + " makes " + "energy", "energy", " for the cell");
  }

  /** "mitochondria produces cellular energy" contains all three expected words. */
  lemma Student3Contains()
    ensures Contains(Student3, "mitochondria") && Contains(Student3, "produces") && Contains(Student3, "energy")
  {
    hide Contains;
    ContainsLastPart("", "mitochondria");
    assert "" + "mitochondria" == "mitochondria";
    ContainsExtended("mitochondria", "mitochondria", " ");
    ContainsExtended("mitochondria" + " ", "mitochondria", "produces");
    ContainsExtended("mitochondria" + " " + "produces", "mitochondria", " cellular ");
    ContainsExtended("mitochondria" + " " + "produces" + " cellular ", "mitochondria", "energy");
    ContainsLastPart("mitochondria" + " ", "produces");
    ContainsExtended("mitochondria" + " " + "produces", "produces", " cellular ");
    ContainsExtended("mitochondria" + " " + "produces" + " cellular ", "produces", "energy");
    ContainsLastPart("mitochondria" + " " + "produces" + " cellular ", "energy");
  }

  /** Only "mitochondria" and "energy" of the expected words occur in Student2. */
  lemma Student2Matches()
    ensures MatchedWords(ExpectedWords, Student2) == ["mitochondria", "energy"]
  {
    hide Contains;
    Student2Contains();
    Student2LacksProduces();
    var rest := ["produces", "energy"];
    assert ExpectedWords[1..] == rest && rest[1..] == ["energy"] && ["energy"][1..] == [];
    MatchedWordsCons(ExpectedWords, Student2);
    MatchedWordsCons(rest, Student2);
    MatchedWordsCons(["energy"], Student2);
  }

  /** There is no "p" in Student2, so "produces" does not occur in it. */
  lemma Student2LacksProduces()
    ensures !Contains(Student2, "produces")
  {
    hide Contains;
    ContainsNeedsEveryChar(Student2, "produces", 0);
  }

  /** Two of three words found (about 67%) is below the 70% threshold. */
  lemma ShortAnswerTwoOfThree()
    ensures !CompareAnswers(Student2, Expected, ShortAnswer)
  {
    hide Normalize;
    hide Split;
    hide Contains;
    hide MatchedWords;
    NormalizeTrimmed(Student2, Student2);
    ExpectedNormal();
    ExpectedSplit();
    Student2Matches();
    assert |Student2| != |Expected|;
  }

  /** All three words found is correct, whatever else the answer says. */
  lemma ShortAnswerThreeOfThree()
    ensures CompareAnswers(Student3, Expected, ShortAnswer)
  {
    hide Normalize;
    hide Split;
    hide Contains;
    hide CompareAnswers;
    NormalizeTrimmed(Student3, Student3);
    ExpectedNormal();
    ExpectedSplit();
    Student3Contains();
    ShortAnswerAllWordsFound(Student3, Expected);
  }

  const Q1: Question := Question("q1", "Pick B", MultipleChoice, Some(["A", "B"]), "B", "B is right")

  /** With two responses for the same question, the later one is graded. */
  lemma DuplicateResponsesLastWins()
    ensures var f := Grade([Q1], [Response("q1", "A"), Response("q1", "B")]).feedback[0];
      f.studentAnswer == "B" && f.isCorrect
  {
    hide Normalize;
    hide CompareAnswers;
    var responses := [Response("q1", "A"), Response("q1", "B")];
    assert IsLastResponseFor(responses, "q1", 1);
    GradeUsesLastResponse([Q1], responses, 0, 1);
    GradeFeedbackShape([Q1], responses, 0);
  }

  /** An unanswered multiple-choice question is graded against "" and is wrong. */
  lemma MissingAnswerIsWrong()
    ensures var r := Grade([Q1], []);
      r.feedback[0].studentAnswer == "" && !r.feedback[0].isCorrect && r.score == Percent(0)
  {
    hide Normalize;
    hide CompareAnswers;
    GradeMissingResponse([Q1], [], 0);
    NormalizeTrimmed("B", "b");
    NormalizeTrimmed("", "");
    assert "b" != "";
    GradeScoreExtremes([Q1], []);
  }

  /** A quiz with no questions has the score NaN. */
  lemma NoQuestionsNaN()
    ensures Grade([], []).score == NaN && Grade([], []).feedback == []
  {
    hide CompareAnswers;
    GradeScoreRange([], []);
  }
}
