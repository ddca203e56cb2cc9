/** Grading one submission: each answer is looked up by question id, correct
    ones earn the question's points (and twice that in XP), then a single
    tier badge and an independent speed badge add bonus XP. */
module Scoring {
  import opened Common
  import opened QuestionBank

  /** One submitted answer. Repeated ids are not merged. */
  datatype Answer = Answer(questionId: int, selectedOption: int)

  /** The question an answer names, when that question exists and the
      selected option is its key. */
  predicate IsCorrect(bank: seq<Question>, a: Answer) {
    Find(bank, a.questionId).Some? && Find(bank, a.questionId).value.correctAnswer == a.selectedOption
  }

  /** The points a single answer earns: those of the question it names when
      it is correct; nothing for a wrong option or an id missing from the bank. */
  function Credit(bank: seq<Question>, a: Answer): int {
    if IsCorrect(bank, a) then Find(bank, a.questionId).value.points else 0
  }

  /** Reference grading: the sum of the credits of all answers. */
  function RawScore(bank: seq<Question>, answers: seq<Answer>): (s: int)
    ensures NonNegativePoints(bank) ==> s >= 0
  {
    if |answers| == 0 then 0
    else RawScore(bank, answers[..|answers| - 1]) + Credit(bank, answers[|answers| - 1])
  }

  /** Reference grading: the number of correct answers, repeats included. */
  function CorrectCount(bank: seq<Question>, answers: seq<Answer>): (n: int)
    ensures 0 <= n <= |answers|
  {
    if |answers| == 0 then 0
    else CorrectCount(bank, answers[..|answers| - 1]) + (if IsCorrect(bank, answers[|answers| - 1]) then 1 else 0)
  }

  /** The scoring loop of the submit route: walk the answers once, adding
      the question's points, one correct answer and twice the points in XP
      for every answer whose option is the key of the question it names. */
  method ScoreAnswers(bank: seq<Question>, answers: seq<Answer>)
    returns (totalScore: int, correctCount: int, xpEarned: int)
    ensures totalScore == RawScore(bank, answers)
    ensures correctCount == CorrectCount(bank, answers)
    ensures xpEarned == 2 * totalScore
  {
    totalScore, correctCount, xpEarned := 0, 0, 0;
    for i := 0 to |answers|
      invariant totalScore == RawScore(bank, answers[..i])
      invariant correctCount == CorrectCount(bank, answers[..i])
      invariant xpEarned == 2 * totalScore
    {
      var answer := answers[i];
      var question := Find(bank, answer.questionId);
      if question.Some? && question.value.correctAnswer == answer.selectedOption {
        totalScore := totalScore + question.value.points;
        correctCount := correctCount + 1;
        xpEarned := xpEarned + question.value.points * 2;
      }
      assert answers[..i + 1][..i] == answers[..i];
    }
    assert answers[..|answers|] == answers;
  }

  /** Grading is additive over concatenation of submissions. */
  lemma {:induction false} GradingAppend(bank: seq<Question>, xs: seq<Answer>, ys: seq<Answer>)
    ensures RawScore(bank, xs + ys) == RawScore(bank, xs) + RawScore(bank, ys)
    ensures CorrectCount(bank, xs + ys) == CorrectCount(bank, xs) + CorrectCount(bank, ys)
  {
    if |ys| == 0 {
      assert xs + ys == xs;
    } else {
      var ys' := ys[..|ys| - 1];
      GradingAppend(bank, xs, ys');
      assert (xs + ys)[..|xs + ys| - 1] == xs + ys';
      assert (xs + ys)[|xs + ys| - 1] == ys[|ys| - 1];
    }
  }

  /** Answers are not deduplicated: submitting the same sheet twice counts
      every correct answer twice. */
  lemma DuplicatesCountTwice(bank: seq<Question>, answers: seq<Answer>)
    ensures RawScore(bank, answers + answers) == 2 * RawScore(bank, answers)
    ensures CorrectCount(bank, answers + answers) == 2 * CorrectCount(bank, answers)
  {
    GradingAppend(bank, answers, answers);
  }

  /** The answers whose question id exists in the bank. */
  function Known(bank: seq<Question>, answers: seq<Answer>): (r: seq<Answer>)
    ensures forall a :: a in r <==> a in answers && Find(bank, a.questionId).Some?
  {
    if |answers| == 0 then []
    else
      var init := answers[..|answers| - 1];
      var a := answers[|answers| - 1];
      assert answers == init + [a];
      var k := Known(bank, init);
      if Find(bank, a.questionId).Some? then k + [a] else k
  }

  /** Unknown question ids are skipped: dropping them changes nothing. */
  lemma {:induction false} UnknownIdsIgnored(bank: seq<Question>, answers: seq<Answer>)
    ensures RawScore(bank, Known(bank, answers)) == RawScore(bank, answers)
    ensures CorrectCount(bank, Known(bank, answers)) == CorrectCount(bank, answers)
  {
    if |answers| > 0 {
      var init := answers[..|answers| - 1];
      var a := answers[|answers| - 1];
      UnknownIdsIgnored(bank, init);
      if Find(bank, a.questionId).Some? {
        var k := Known(bank, init);
        assert (k + [a])[..|k + [a]| - 1] == k;
      }
    }
  }

  /** No two answers name the same question. */
  predicate DistinctQuestionIds(answers: seq<Answer>) {
    forall i, j :: 0 <= i < j < |answers| ==> answers[i].questionId != answers[j].questionId
  }

  /** Does answer `a` correctly answer question `q`? */
  predicate Hits(q: Question, a: Answer) {
    a.questionId == q.id && a.selectedOption == q.correctAnswer
  }

  /** The points and the count `q` alone contributes to a submission. */
  function HitPoints(q: Question, answers: seq<Answer>): int {
    if |answers| == 0 then 0
    else HitPoints(q, answers[..|answers| - 1]) + (if Hits(q, answers[|answers| - 1]) then q.points else 0)
  }

  function HitCount(q: Question, answers: seq<Answer>): int {
    if |answers| == 0 then 0
    else HitCount(q, answers[..|answers| - 1]) + (if Hits(q, answers[|answers| - 1]) then 1 else 0)
  }

  /** A question no answer names contributes nothing. */
  lemma {:induction false} HitsAbsent(q: Question, answers: seq<Answer>)
    requires forall i :: 0 <= i < |answers| ==> answers[i].questionId != q.id
    ensures HitPoints(q, answers) == 0 && HitCount(q, answers) == 0
  {
    if |answers| > 0 {
      HitsAbsent(q, answers[..|answers| - 1]);
    }
  }

  /** With distinct ids a question is credited at most once. */
  lemma {:induction false} HitsAtMostOnce(q: Question, answers: seq<Answer>)
    requires DistinctQuestionIds(answers)
    requires q.points >= 0
    ensures 0 <= HitPoints(q, answers) <= q.points
    ensures 0 <= HitCount(q, answers) <= 1
  {
    if |answers| > 0 {
      var init := answers[..|answers| - 1];
      var a := answers[|answers| - 1];
      if a.questionId == q.id {
        HitsAbsent(q, init);
      } else {
        HitsAtMostOnce(q, init);
      }
    }
  }

  /** Against an empty bank nothing is correct. */
  lemma {:induction false} GradingEmptyBank(answers: seq<Answer>)
    ensures RawScore([], answers) == 0 && CorrectCount([], answers) == 0
  {
    if |answers| > 0 {
      GradingEmptyBank(answers[..|answers| - 1]);
    }
  }

  /** Grading against a bank with unique ids splits into what its first
      question contributes plus the grading against the rest. */
  lemma {:induction false} GradingSplit(bank: seq<Question>, answers: seq<Answer>)
    requires UniqueIds(bank)
    requires |bank| > 0
    ensures RawScore(bank, answers) == HitPoints(bank[0], answers) + RawScore(bank[1..], answers)
    ensures CorrectCount(bank, answers) == HitCount(bank[0], answers) + CorrectCount(bank[1..], answers)
  {
    if |answers| > 0 {
      var init := answers[..|answers| - 1];
      var a := answers[|answers| - 1];
      var q, rest := bank[0], bank[1..];
      GradingSplit(bank, init);
      if a.questionId == q.id {
        forall k | 0 <= k < |rest|
          ensures rest[k].id != a.questionId
        {
          assert rest[k] == bank[k + 1];
        }
        assert Find(rest, a.questionId).None?;
        assert Find(bank, a.questionId) == Some(q);
      } else {
        assert Find(bank, a.questionId) == Find(rest, a.questionId);
      }
    }
  }

  /** If no question id is answered twice, the raw score cannot exceed the
      sum of the bank's points and the correct count cannot exceed the
      number of questions. */
  lemma {:induction false} GradingBounded(bank: seq<Question>, answers: seq<Answer>)
    requires UniqueIds(bank)
    requires NonNegativePoints(bank)
    requires DistinctQuestionIds(answers)
    ensures RawScore(bank, answers) <= PointsSum(bank)
    ensures CorrectCount(bank, answers) <= |bank|
  {
    if |bank| == 0 {
      GradingEmptyBank(answers);
    } else {
      GradingSplit(bank, answers);
      HitsAtMostOnce(bank[0], answers);
      GradingBounded(bank[1..], answers);
    }
  }

  /** A question answered correctly by exactly one of several answers with
      distinct ids is credited once, in full. */
  lemma {:induction false} HitsOnce(q: Question, answers: seq<Answer>, i: int)
    requires DistinctQuestionIds(answers)
    requires 0 <= i < |answers| && Hits(q, answers[i])
    ensures HitPoints(q, answers) == q.points && HitCount(q, answers) == 1
  {
    var init := answers[..|answers| - 1];
    if i == |answers| - 1 {
      HitsAbsent(q, init);
    } else {
      assert answers[|answers| - 1].questionId != answers[i].questionId;
      HitsOnce(q, init, i);
    }
  }

  /** The bound of `GradingBounded` is reached: a sheet with distinct ids
      that answers every question correctly earns every point. */
  lemma {:induction false} GradingReachesMax(bank: seq<Question>, answers: seq<Answer>)
    requires UniqueIds(bank)
    requires DistinctQuestionIds(answers)
    requires forall k :: 0 <= k < |bank| ==> exists i :: 0 <= i < |answers| && Hits(bank[k], answers[i])
    ensures RawScore(bank, answers) == PointsSum(bank)
    ensures CorrectCount(bank, answers) == |bank|
  {
    if |bank| == 0 {
      GradingEmptyBank(answers);
    } else {
      GradingSplit(bank, answers);
      var i :| 0 <= i < |answers| && Hits(bank[0], answers[i]);
      HitsOnce(bank[0], answers, i);
      var rest := bank[1..];
      forall k | 0 <= k < |rest|
        ensures exists i :: 0 <= i < |answers| && Hits(rest[k], answers[i])
      {
        assert rest[k] == bank[k + 1];
      }
      GradingReachesMax(rest, answers);
    }
  }

  /** The answer sheet that picks the key of every question, in bank order. */
  function PerfectSheet(bank: seq<Question>): seq<Answer> {
    seq(|bank|, i requires 0 <= i < |bank| => Answer(bank[i].id, bank[i].correctAnswer))
  }

  lemma PerfectSheetScoresAll(bank: seq<Question>)
    requires UniqueIds(bank)
    ensures RawScore(bank, PerfectSheet(bank)) == PointsSum(bank)
    ensures CorrectCount(bank, PerfectSheet(bank)) == |bank|
  {
    var sheet := PerfectSheet(bank);
    forall k | 0 <= k < |bank|
      ensures exists i :: 0 <= i < |sheet| && Hits(bank[k], sheet[i])
    {
      assert Hits(bank[k], sheet[k]);
    }
    GradingReachesMax(bank, sheet);
  }

  /** For the shipped bank: at most 115 points and 10 correct answers, as
      long as every question is answered at most once. */
  lemma BankScoreBounded(answers: seq<Answer>)
    requires DistinctQuestionIds(answers)
    ensures 0 <= RawScore(Bank, answers) <= 115
    ensures 0 <= CorrectCount(Bank, answers) <= 10
  {
    BankUniqueIds();
    BankWellFormed();
    BankMaxScore();
    BankLayout();
    GradingBounded(Bank, answers);
  }

  // ----- badges -----

  /** The four mutually exclusive performance tiers, best first. */
  datatype Tier = PerfectScore | Expert | Scholar | Enthusiast | NoTier

  const SpeedDemon := "Speed Demon"
  const SpeedBonus := 30
  /** Elapsed seconds strictly below this earn the speed badge. */
  const SpeedLimit := 120

  /** The first matching rung of the ladder: all questions correct, then at
      least 8, 6 and 4 correct answers. */
  function TierOf(correct: int, total: int): (t: Tier)
    ensures t == PerfectScore <==> correct == total
    ensures correct != total ==> (t == NoTier <==> correct < 4)
  {
    if correct == total then PerfectScore
    else if correct >= 8 then Expert
    else if correct >= 6 then Scholar
    else if correct >= 4 then Enthusiast
    else NoTier
  }

  function TierBadge(t: Tier): (r: seq<string>)
    ensures |r| == if t == NoTier then 0 else 1
    ensures forall b :: b in r ==> IsTierBadge(b)
  {
    match t
    case PerfectScore => ["Perfect Score"]
    case Expert => ["IEEE Expert"]
    case Scholar => ["IEEE Scholar"]
    case Enthusiast => ["IEEE Enthusiast"]
    case NoTier => []
  }

  function TierBonus(t: Tier): (b: int)
    ensures 0 <= b <= 100
    ensures b == 0 <==> t == NoTier
  {
    match t
    case PerfectScore => 100
    case Expert => 50
    case Scholar => 25
    case Enthusiast => 10
    case NoTier => 0
  }

  predicate IsTierBadge(b: string) {
    b in {"Perfect Score", "IEEE Expert", "IEEE Scholar", "IEEE Enthusiast"}
  }

  /** `timeSpent && timeSpent < 120`: present, non-zero and below the limit. */
  predicate EarnsSpeedDemon(timeSpent: Option<int>) {
    timeSpent.Some? && timeSpent.value != 0 && timeSpent.value < SpeedLimit
  }

  /** The outcome of grading one submission. */
  datatype Attempt = Attempt(
    score: int,
    correctAnswers: int,
    totalQuestions: int,
    xpEarned: int,
    earnedBadges: seq<string>)

  /** Grades a submission against `bank` and awards badges and XP. */
  function Evaluate(bank: seq<Question>, answers: seq<Answer>, timeSpent: Option<int>): (r: Attempt)
    ensures r.score == RawScore(bank, answers)
    ensures r.correctAnswers == CorrectCount(bank, answers) <= |answers|
    ensures r.totalQuestions == |bank|
    ensures r.xpEarned == 2 * r.score + TierBonus(TierOf(r.correctAnswers, |bank|))
                          + (if EarnsSpeedDemon(timeSpent) then SpeedBonus else 0)
    ensures SpeedDemon in r.earnedBadges <==> EarnsSpeedDemon(timeSpent)
    ensures EarnsSpeedDemon(timeSpent) ==> r.earnedBadges[|r.earnedBadges| - 1] == SpeedDemon
    ensures "Perfect Score" in r.earnedBadges <==> r.correctAnswers == |bank|
    ensures NonNegativePoints(bank) ==> r.score >= 0 && r.xpEarned >= 0
  {
    var score := RawScore(bank, answers);
    var tier := TierOf(CorrectCount(bank, answers), |bank|);
    var speed := if EarnsSpeedDemon(timeSpent) then [SpeedDemon] else [];
    Attempt(
      score,
      CorrectCount(bank, answers),
      |bank|,
      2 * score + TierBonus(tier) + (if EarnsSpeedDemon(timeSpent) then SpeedBonus else 0),
      TierBadge(tier) + speed)
  }

  /** An attempt's badges are the tier badge, if any, followed by the speed
      badge, if earned, and nothing else; so no badge is listed twice and at
      most one of the four tier badges is earned. */
  lemma EvaluateBadges(bank: seq<Question>, answers: seq<Answer>, timeSpent: Option<int>)
    ensures Evaluate(bank, answers, timeSpent).earnedBadges ==
              TierBadge(TierOf(CorrectCount(bank, answers), |bank|))
              + (if EarnsSpeedDemon(timeSpent) then [SpeedDemon] else [])
    ensures var b := Evaluate(bank, answers, timeSpent).earnedBadges;
            && NoDuplicates(b)
            && forall i, j :: 0 <= i < j < |b| ==> !(IsTierBadge(b[i]) && IsTierBadge(b[j]))
  {
  }

  /** The badge-awarding code of the submit route, run after the scoring
      loop; it produces the same outcome as the reference grading. */
  method Grade(bank: seq<Question>, answers: seq<Answer>, timeSpent: Option<int>)
    returns (attempt: Attempt)
    ensures attempt == Evaluate(bank, answers, timeSpent)
  {
    var totalScore, correctCount, xpEarned := ScoreAnswers(bank, answers);
    var earnedBadges: seq<string> := [];
    if correctCount == |bank| {
      earnedBadges := earnedBadges + ["Perfect Score"];
      xpEarned := xpEarned + 100;
    } else if correctCount >= 8 {
      earnedBadges := earnedBadges + ["IEEE Expert"];
      xpEarned := xpEarned + 50;
    } else if correctCount >= 6 {
      earnedBadges := earnedBadges + ["IEEE Scholar"];
      xpEarned := xpEarned + 25;
    } else if correctCount >= 4 {
      earnedBadges := earnedBadges + ["IEEE Enthusiast"];
      xpEarned := xpEarned + 10;
    }
    if timeSpent.Some? && timeSpent.value != 0 && timeSpent.value < 120 {
      earnedBadges := earnedBadges + [SpeedDemon];
      xpEarned := xpEarned + 30;
    }
    attempt := Attempt(totalScore, correctCount, |bank|, xpEarned, earnedBadges);
  }

  /** Below the total, more correct answers never earn a smaller tier bonus. */
  lemma TierMonotone(c1: int, c2: int, total: int)
    requires 0 <= c1 <= c2 <= total
    ensures TierBonus(TierOf(c1, total)) <= TierBonus(TierOf(c2, total))
  {
  }

  /** The tier and the speed badge are decided independently: changing the
      elapsed time never changes the score or the tier badge, and changing
      the answers never changes whether the speed badge is earned. */
  lemma SpeedIndependentOfTier(bank: seq<Question>, a1: seq<Answer>, a2: seq<Answer>,
                               t1: Option<int>, t2: Option<int>)
    ensures Evaluate(bank, a1, t1).score == Evaluate(bank, a1, t2).score
    ensures TierBadge(TierOf(Evaluate(bank, a1, t1).correctAnswers, |bank|))
            <= Evaluate(bank, a1, t1).earnedBadges
    ensures (SpeedDemon in Evaluate(bank, a1, t1).earnedBadges) ==
            (SpeedDemon in Evaluate(bank, a2, t1).earnedBadges)
  {
  }

  /** Eleven copies of one correct answer: the correct count overshoots the
      bank size, so the top tier's equality test fails and the submission
      earns "IEEE Expert" instead of "Perfect Score". */
  lemma RepeatedAnswerMissesPerfect()
    ensures var r := Evaluate(Bank, seq(11, _ => Answer(1, 0)), None);
            r.correctAnswers == 11 && r.score == 110 && r.earnedBadges == ["IEEE Expert"]
  {
    var answers := seq(11, _ => Answer(1, 0));
    BankLayout();
    BankUniqueIds();
    FindAt(Bank, 0);
    RepeatedMarks(answers, 11);
  }

  lemma {:induction false} RepeatedMarks(answers: seq<Answer>, n: nat)
    requires |answers| == n
    requires forall i :: 0 <= i < n ==> answers[i] == Answer(1, 0)
    requires Find(Bank, 1) == Some(Bank[0])
    ensures RawScore(Bank, answers) == 10 * n && CorrectCount(Bank, answers) == n
  {
    if n > 0 {
      RepeatedMarks(answers[..n - 1], n - 1);
    }
  }

  /** The perfect sheet earns the top tier and every point; whether it also
      earns the speed badge depends on the time alone. */
  lemma PerfectSheetOutcome(bank: seq<Question>, timeSpent: Option<int>)
    requires UniqueIds(bank)
    ensures Evaluate(bank, PerfectSheet(bank), timeSpent).score == PointsSum(bank)
    ensures Evaluate(bank, PerfectSheet(bank), timeSpent).correctAnswers == |bank|
    ensures Evaluate(bank, PerfectSheet(bank), timeSpent).earnedBadges ==
              if EarnsSpeedDemon(timeSpent) then ["Perfect Score", SpeedDemon] else ["Perfect Score"]
    ensures Evaluate(bank, PerfectSheet(bank), timeSpent).xpEarned ==
              2 * PointsSum(bank) + 100 + (if EarnsSpeedDemon(timeSpent) then SpeedBonus else 0)
  {
    PerfectSheetScoresAll(bank);
  }

  /** The right answer to question `k` earns that question's points. */
  lemma RightAnswerCredit(bank: seq<Question>, k: int)
    requires UniqueIds(bank)
    requires 0 <= k < |bank|
    ensures IsCorrect(bank, Answer(bank[k].id, bank[k].correctAnswer))
    ensures Credit(bank, Answer(bank[k].id, bank[k].correctAnswer)) == bank[k].points
  {
    FindAt(bank, k);
  }

  lemma MulSucc(n: int, p: int)
    ensures (n + 1) * p == n * p + p
  {
  }

  /** Right answers to the first questions of the bank, in bank order,
      over questions worth `p` points each, earn `p` points apiece. */
  lemma {:induction false} RightAnswersInOrder(bank: seq<Question>, answers: seq<Answer>, p: int)
    requires UniqueIds(bank)
    requires |answers| <= |bank|
    requires forall k :: 0 <= k < |answers| ==>
               answers[k] == Answer(bank[k].id, bank[k].correctAnswer) && bank[k].points == p
    ensures RawScore(bank, answers) == |answers| * p
    ensures CorrectCount(bank, answers) == |answers|
  {
    if |answers| > 0 {
      var n := |answers| - 1;
      RightAnswersInOrder(bank, answers[..n], p);
      RightAnswerCredit(bank, n);
      MulSucc(n, p);
    }
  }

  /** A first attempt with every answer right in 90 seconds: 115 points, both
      badges, and 2 * 115 + 100 + 30 XP. */
  lemma PerfectRunInNinetySeconds()
    ensures var r := Evaluate(Bank, PerfectSheet(Bank), Some(90));
            && r.score == 115 && r.correctAnswers == 10
            && r.earnedBadges == ["Perfect Score", SpeedDemon]
            && r.xpEarned == 360
  {
    var t := Some(90);
    assert EarnsSpeedDemon(t);
    BankUniqueIds();
    BankMaxScore();
    PerfectSheetOutcome(Bank, t);
  }

  /** The first five questions (10 points each) answered right in 300
      seconds: the Enthusiast tier only, and 2 * 50 + 10 XP. */
  lemma FiveRightInFiveMinutes()
    ensures Evaluate(Bank, PerfectSheet(Bank)[..5], Some(300)).score == 50
    ensures Evaluate(Bank, PerfectSheet(Bank)[..5], Some(300)).correctAnswers == 5
    ensures Evaluate(Bank, PerfectSheet(Bank)[..5], Some(300)).earnedBadges == ["IEEE Enthusiast"]
    ensures Evaluate(Bank, PerfectSheet(Bank)[..5], Some(300)).xpEarned == 110
  {
    BankUniqueIds();
    BankPoints();
    var sheet := PerfectSheet(Bank)[..5];
    RightAnswersInOrder(Bank, sheet, 10);
    assert TierOf(CorrectCount(Bank, sheet), |Bank|) == Enthusiast;
    assert !EarnsSpeedDemon(Some(300));
  }
}
