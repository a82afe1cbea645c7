/**
 * The answer-matching policy of the grading engine (`compareAnswers`):
 * strict equality of normal forms for multiple-choice questions, and for
 * every other question an exact match or a 70% word-overlap rule.
 */
module Matching {
  import opened Text

  /** The `type` of a quiz question. */
  datatype QType = MultipleChoice | ShortAnswer

  /** `correctWords.filter(word => student.includes(word))`: no more words than
      were given, each of them occurring in the student's answer. */
  function MatchedWords(words: seq<string>, student: string): (matched: seq<string>)
    ensures |matched| <= |words|
    ensures forall k :: 0 <= k < |matched| ==> Contains(student, matched[k])
  {
    if words == [] then []
    else
      (if Contains(student, words[0]) then [words[0]] else []) + MatchedWords(words[1..], student)
  }

  /** The filter keeps exactly the words of the expected answer that occur in
      the student's answer, each as often as it appears, and no others. */
  lemma {:induction false} MatchedWordsMultiset(words: seq<string>, student: string)
    ensures forall w :: multiset(MatchedWords(words, student))[w] == if Contains(student, w) then multiset(words)[w] else 0
  {
    if words != [] {
      assert words == [words[0]] + words[1..];
      MatchedWordsMultiset(words[1..], student);
    }
  }

  /** `matched / total >= 0.7`, in exact arithmetic: every word matched
      passes, and no word matched out of at least one fails. */
  predicate MeetsThreshold(matched: nat, total: nat)
    ensures matched >= total ==> MeetsThreshold(matched, total)
    ensures matched == 0 && total > 0 ==> !MeetsThreshold(matched, total)
  {
    10 * matched >= 7 * total
  }

  /** `compareAnswers(studentAnswer, correctAnswer, type)`. */
  function CompareAnswers(studentAnswer: string, correctAnswer: string, qtype: QType): (verdict: bool)
    ensures Normalize(studentAnswer) == Normalize(correctAnswer) ==> verdict
    ensures qtype == MultipleChoice ==> (verdict <==> Normalize(studentAnswer) == Normalize(correctAnswer))
  {
    if qtype == MultipleChoice then
      Normalize(studentAnswer) == Normalize(correctAnswer)
    else
      var student := Normalize(studentAnswer);
      var expected := Normalize(correctAnswer);
      if student == expected then true
      else
        var words := Split(expected);
        MeetsThreshold(|MatchedWords(words, student)|, |words|)
  }

  /** The integer threshold is the ratio `matched / total >= 0.7`. */
  lemma ThresholdIsSeventyPercent(matched: nat, total: nat)
    requires total > 0
    ensures MeetsThreshold(matched, total) <==> (matched as real) / (total as real) >= 0.7
  {
    var m, t := matched as real, total as real;
    var ratio := m / t;
    assert ratio * t == m;
    if ratio >= 0.7 {
      assert (ratio - 0.7) * t >= 0.0;
      assert 10.0 * m >= 7.0 * t;
    } else {
      assert (0.7 - ratio) * t > 0.0;
      assert 10.0 * m < 7.0 * t;
    }
  }

  /** The positions of the expected words that occur in the student's answer. */
  ghost function FoundPositions(words: seq<string>, student: string): set<nat> {
    set k: nat | k < |words| && Contains(student, words[k])
  }

  /** One step of the filter: the first word, if the answer contains it,
      followed by the filtered rest. */
  lemma MatchedWordsCons(words: seq<string>, student: string)
    requires words != []
    ensures MatchedWords(words, student)
      == (if Contains(student, words[0]) then [words[0]] else []) + MatchedWords(words[1..], student)
  {
    hide Contains;
  }

  /** The filter distributes over concatenation of the word list. */
  lemma {:induction false} MatchedWordsAppend(a: seq<string>, b: seq<string>, student: string)
    ensures MatchedWords(a + b, student) == MatchedWords(a, student) + MatchedWords(b, student)
  {
    hide Contains;
    hide MatchedWords;
    if a == [] {
      assert a + b == b;
      assert |MatchedWords(a, student)| == 0;
    } else {
      var head := if Contains(student, a[0]) then [a[0]] else [];
      var rest, tail := MatchedWords(a[1..], student), MatchedWords(b, student);
      assert MatchedWords(a + b, student) == head + MatchedWords(a[1..] + b, student) by {
        assert (a + b)[0] == a[0];
        assert (a + b)[1..] == a[1..] + b;
        MatchedWordsCons(a + b, student);
      }
      assert MatchedWords(a, student) == head + rest by {
        MatchedWordsCons(a, student);
      }
      MatchedWordsAppend(a[1..], b, student);
      assert head + (rest + tail) == (head + rest) + tail;
    }
  }

  /** A single word is kept exactly when the answer contains it. */
  lemma MatchedWordsSingle(w: string, student: string)
    ensures |MatchedWords([w], student)| == if Contains(student, w) then 1 else 0
  {
    hide Contains;
    assert [w][1..] == [];
  }

  /** The filter keeps one word per position whose word occurs in the answer. */
  lemma {:induction false} MatchedWordsCountsPositions(words: seq<string>, student: string)
    ensures |MatchedWords(words, student)| == |FoundPositions(words, student)|
  {
    hide Contains;
    hide MatchedWords;
    if words == [] {
      MatchedWordsAppend([], [], student);
      assert FoundPositions(words, student) == {};
    } else {
      var n := |words| - 1;
      var init := words[..n];
      assert words == init + [words[n]];
      MatchedWordsAppend(init, [words[n]], student);
      MatchedWordsSingle(words[n], student);
      MatchedWordsCountsPositions(init, student);
      if Contains(student, words[n]) {
        assert FoundPositions(words, student) == FoundPositions(init, student) + {n};
      } else {
        assert FoundPositions(words, student) == FoundPositions(init, student);
      }
    }
  }

  /** The short-answer rule in full: correct exactly when the normal forms are
      equal or at least 70% of the expected answer's word positions hold a word
      that occurs in the student's normal form. */
  lemma ShortAnswerSeventyPercent(studentAnswer: string, correctAnswer: string)
    ensures var student, words := Normalize(studentAnswer), Split(Normalize(correctAnswer));
      CompareAnswers(studentAnswer, correctAnswer, ShortAnswer) <==>
        student == Normalize(correctAnswer)
        || (|FoundPositions(words, student)| as real) / (|words| as real) >= 0.7
  {
    var student, words := Normalize(studentAnswer), Split(Normalize(correctAnswer));
    MatchedWordsCountsPositions(words, student);
    ThresholdIsSeventyPercent(|MatchedWords(words, student)|, |words|);
  }

  /** How many words match depends only on the multiset of words, not on their order. */
  lemma MatchedCountIgnoresOrder(a: seq<string>, b: seq<string>, student: string)
    requires multiset(a) == multiset(b)
    ensures |MatchedWords(a, student)| == |MatchedWords(b, student)|
  {
    var ma, mb := MatchedWords(a, student), MatchedWords(b, student);
    MatchedWordsMultiset(a, student);
    MatchedWordsMultiset(b, student);
    assert multiset(ma) == multiset(mb);
    assert |multiset(ma)| == |ma| && |multiset(mb)| == |mb|;
  }

  /** Every word matches exactly when the count of matches is the number of words. */
  lemma AllWordsMatched(words: seq<string>, student: string)
    ensures |MatchedWords(words, student)| == |words| <==> forall k :: 0 <= k < |words| ==> Contains(student, words[k])
  {
    var m := MatchedWords(words, student);
    MatchedWordsMultiset(words, student);
    if forall k :: 0 <= k < |words| ==> Contains(student, words[k]) {
      forall w ensures multiset(m)[w] == multiset(words)[w] {
        if w in words {
          var k :| 0 <= k < |words| && words[k] == w;
        }
      }
      assert multiset(m) == multiset(words);
      assert |multiset(m)| == |m|;
    } else {
      var k :| 0 <= k < |words| && !Contains(student, words[k]);
      var w := words[k];
      assert w in multiset(words);
      assert multiset(m)[w] == 0;
      assert multiset(m) <= multiset(words);
      assert multiset(m) != multiset(words);
      MultisetStrictlySmaller(m, words);
    }
  }

  /** A sub-multiset that misses something has fewer elements. */
  lemma MultisetStrictlySmaller(m: seq<string>, words: seq<string>)
    requires multiset(m) <= multiset(words) && multiset(m) != multiset(words)
    ensures |m| < |words|
  {
    var extra := multiset(words) - multiset(m);
    assert multiset(words) == multiset(m) + extra;
    assert extra != multiset{};
    assert |multiset(words)| == |multiset(m)| + |extra|;
    assert |multiset(m)| == |m| && |multiset(words)| == |words|;
  }

  /** No word matches exactly when the count of matches is zero. */
  lemma NoWordMatched(words: seq<string>, student: string)
    ensures |MatchedWords(words, student)| == 0 <==> forall k :: 0 <= k < |words| ==> !Contains(student, words[k])
  {
    var m := MatchedWords(words, student);
    MatchedWordsMultiset(words, student);
    if exists k :: 0 <= k < |words| && Contains(student, words[k]) {
      var k :| 0 <= k < |words| && Contains(student, words[k]);
      assert words[k] in multiset(words);
      assert words[k] in multiset(m);
    } else {
      forall w ensures multiset(m)[w] == 0 {
        if w in words {
          var k :| 0 <= k < |words| && words[k] == w;
        }
      }
      assert multiset(m) == multiset{};
    }
  }

  /** Short answer: an answer whose normal form contains every word of the
      expected answer's normal form is correct, whatever else it says. */
  lemma ShortAnswerAllWordsFound(studentAnswer: string, correctAnswer: string)
    requires forall k :: 0 <= k < |Split(Normalize(correctAnswer))| ==>
      Contains(Normalize(studentAnswer), Split(Normalize(correctAnswer))[k])
    ensures CompareAnswers(studentAnswer, correctAnswer, ShortAnswer)
  {
    AllWordsMatched(Split(Normalize(correctAnswer)), Normalize(studentAnswer));
  }

  /** Short answer: an answer that contains the whole expected answer (after
      normalising both) is correct; there is no notion of negation, so
      "not photosynthesis" passes against "photosynthesis". */
  lemma ShortAnswerContainingExpected(studentAnswer: string, correctAnswer: string)
    requires Contains(Normalize(studentAnswer), Normalize(correctAnswer))
    ensures CompareAnswers(studentAnswer, correctAnswer, ShortAnswer)
  {
    var expected := Normalize(correctAnswer);
    var words := Split(expected);
    forall k | 0 <= k < |words| ensures Contains(Normalize(studentAnswer), words[k]) {
      SplitWordsOccur(expected, k);
      ContainsTransitive(Normalize(studentAnswer), expected, words[k]);
    }
    ShortAnswerAllWordsFound(studentAnswer, correctAnswer);
  }

  /** Short answer: when no word of the expected answer occurs in the student's
      answer, only an exact match is correct. */
  lemma ShortAnswerNoWordFound(studentAnswer: string, correctAnswer: string)
    requires forall k :: 0 <= k < |Split(Normalize(correctAnswer))| ==>
      !Contains(Normalize(studentAnswer), Split(Normalize(correctAnswer))[k])
    ensures CompareAnswers(studentAnswer, correctAnswer, ShortAnswer) <==> Normalize(studentAnswer) == Normalize(correctAnswer)
  {
    NoWordMatched(Split(Normalize(correctAnswer)), Normalize(studentAnswer));
  }

  /** Short answer: an expected answer that is empty or all whitespace
      normalises to "", splits into the single word "", which every string
      contains, so every answer is marked correct. */
  lemma ShortAnswerBlankExpected(studentAnswer: string, correctAnswer: string)
    requires AllSpace(correctAnswer)
    ensures CompareAnswers(studentAnswer, correctAnswer, ShortAnswer)
  {
    TrimAllSpace(correctAnswer);
    assert Normalize(correctAnswer) == [];
    assert Split([]) == [[]];
    assert OccursAt(Normalize(studentAnswer), [], 0);
    ShortAnswerAllWordsFound(studentAnswer, correctAnswer);
  }

  /** The multiple-choice rule is the stricter one: what it accepts, the
      short-answer rule accepts too. */
  lemma MultipleChoiceStricter(studentAnswer: string, correctAnswer: string)
    requires CompareAnswers(studentAnswer, correctAnswer, MultipleChoice)
    ensures CompareAnswers(studentAnswer, correctAnswer, ShortAnswer)
  {
  }

  /** The verdict ignores whitespace around either answer. */
  lemma VerdictIgnoresPadding(p: string, s: string, q: string, p': string, c: string, q': string, qtype: QType)
    requires AllSpace(p) && AllSpace(q) && AllSpace(p') && AllSpace(q')
    ensures CompareAnswers(p + s + q, p' + c + q', qtype) == CompareAnswers(s, c, qtype)
  {
    NormalizeIgnoresPadding(p, s, q);
    NormalizeIgnoresPadding(p', c, q');
  }

  /** The verdict ignores letter case in either answer. */
  lemma VerdictIgnoresCase(s: string, s': string, c: string, c': string, qtype: QType)
    requires LowerCase(s) == LowerCase(s') && LowerCase(c) == LowerCase(c')
    ensures CompareAnswers(s, c, qtype) == CompareAnswers(s', c', qtype)
  {
    NormalizeIgnoresCase(s, s');
    NormalizeIgnoresCase(c, c');
  }

  /** Normalising an answer first changes nothing. */
  lemma VerdictOnNormalForms(s: string, c: string, qtype: QType)
    ensures CompareAnswers(Normalize(s), Normalize(c), qtype) == CompareAnswers(s, c, qtype)
  {
    NormalizeIdempotent(s);
    NormalizeIdempotent(c);
  }
}
