/**
 * The cryptography assessment's five questions, as the quiz engine receives
 * them (ids and answer key; the wording is display text), and what the
 * engine makes of one way of answering them.
 */
module QuizFixture {
  import opened QuizEngine

  /** A question with the four options `<id>-a` to `<id>-d`, of which `correct` is the right one. */
  function Q(id: string, correct: string): Question {
    Question(id, [Choice(id + "-a"), Choice(id + "-b"), Choice(id + "-c"), Choice(id + "-d")], correct)
  }

  const CryptoQuestions: seq<Question> := [
    Q("crypto-q1", "crypto-q1-b"),
    Q("crypto-q2", "crypto-q2-c"),
    Q("crypto-q3", "crypto-q3-b"),
    Q("crypto-q4", "crypto-q4-b"),
    Q("crypto-q5", "crypto-q5-c")
  ]

  /** Every question has four distinct, non-empty option ids, the correct one among them, and the question ids differ. */
  lemma CryptoQuestionsWellFormed()
    ensures WellFormed(CryptoQuestions)
  {
    forall i | 0 <= i < |CryptoQuestions| ensures WellFormedQuestion(CryptoQuestions[i]) {
      var question := CryptoQuestions[i];
      QWellFormed(question.id, question.correct);
    }
    forall i, j | 0 <= i < j < |CryptoQuestions| ensures CryptoQuestions[i].id != CryptoQuestions[j].id {
      assert CryptoQuestions[i].id[8] != CryptoQuestions[j].id[8];
    }
  }

  /** A question built by `Q` is well formed when its answer is one of its options. */
  lemma QWellFormed(id: string, correct: string)
    requires correct == id + "-b" || correct == id + "-c"
    ensures WellFormedQuestion(Q(id, correct))
  {
    var question := Q(id, correct);
    var n := |id| + 1;
    assert question.options[0].id[n] == 'a';
    assert question.options[1].id[n] == 'b';
    assert question.options[2].id[n] == 'c';
    assert question.options[3].id[n] == 'd';
    if correct == id + "-b" {
      assert question.options[1].id == correct;
    } else {
      assert question.options[2].id == correct;
    }
  }

  /** The answers b, a, b, a, c: three right out of five, 60 percent, the middle tier. */
  const Answers: seq<string> := ["crypto-q1-b", "crypto-q2-a", "crypto-q3-b", "crypto-q4-a", "crypto-q5-c"]

  lemma ThreeOfFive()
    ensures Run(CryptoQuestions, Init, Script(Answers)).completed
    ensures Run(CryptoQuestions, Init, Script(Answers)).score == 3
    ensures Percent(3, 5) == 60 && Assessment(Percent(3, 5)) == Good
  {
    CryptoQuestionsWellFormed();
    AnswersAreOptions();
    AnswersMatch();
    FullRun(CryptoQuestions, Answers);
    ThreeOfFivePercent();
  }

  lemma ThreeOfFivePercent()
    ensures Percent(3, 5) == 60 && Assessment(Percent(3, 5)) == Good
  {
  }

  lemma AnswersAreOptions()
    ensures OptionsOf(CryptoQuestions, 0, Answers)
  {
    forall j | 0 <= j < 5 ensures HasOption(CryptoQuestions[0 + j], Answers[j]) {
      var question := CryptoQuestions[j];
      if j == 0 || j == 2 {
        assert question.options[1].id == Answers[j];
      } else if j == 1 || j == 3 {
        assert question.options[0].id == Answers[j];
      } else {
        assert question.options[2].id == Answers[j];
      }
    }
  }

  lemma AnswersMatch()
    ensures MatchCount(CryptoQuestions, Answers, 5) == 3
  {
    assert Answers[0] == CryptoQuestions[0].correct;
    assert Answers[1] != CryptoQuestions[1].correct by {
      assert Answers[1][10] != CryptoQuestions[1].correct[10];
    }
    assert Answers[2] == CryptoQuestions[2].correct;
    assert Answers[3] != CryptoQuestions[3].correct by {
      assert Answers[3][10] != CryptoQuestions[3].correct[10];
    }
    assert Answers[4] == CryptoQuestions[4].correct;
  }
}
