/** The fixed quiz: ten multiple-choice questions, the by-id lookup the
    scorer uses, and the projection handed to clients, which leaves out the
    index of the correct option. */
module QuestionBank {
  import opened Common

  datatype Question = Question(
    id: int,
    question: string,
    options: seq<string>,
    correctAnswer: int,
    points: int)

  /** What a client receives for one question: everything but the key. */
  datatype PublicQuestion = PublicQuestion(
    id: int,
    question: string,
    options: seq<string>,
    points: int)

  /** The question bank, in declaration order. */
  const Bank: seq<Question> := [
    Question(1, "What does IEEE stand for?",
      ["Institute of Electrical and Electronics Engineers", "International Electrical Engineers",
       "Institute of Electronic Engineers", "International Electronics Engineers"], 0, 10),
    Question(2, "When was IEEE founded?",
      ["1963", "1884", "1950", "1975"], 0, 10),
    Question(3, "What is the IEEE motto?",
      ["Advancing Technology for Humanity", "Engineering the Future",
       "Innovation Through Technology", "Technology for All"], 0, 10),
    Question(4, "How many IEEE members are there worldwide approximately?",
      ["200,000", "300,000", "400,000", "500,000"], 2, 10),
    Question(5, "What is IEEE's most cited publication?",
      ["IEEE Spectrum", "IEEE Transactions", "IEEE Computer", "IEEE Communications"], 1, 10),
    Question(6, "In how many countries does IEEE operate?",
      ["150+", "160+", "170+", "180+"], 2, 10),
    Question(7, "What does IEEE Day celebrate?",
      ["First IEEE meeting", "First telegraph message", "IEEE founding", "First electrical patent"], 1, 10),
    Question(8, "Which IEEE standard defines Ethernet?",
      ["802.3", "802.11", "802.15", "802.16"], 0, 15),
    Question(9, "What is IEEE's vision?",
      ["Engineering Excellence", "Global Technology Leadership",
       "IEEE will be essential to the global technical community", "Innovation for Tomorrow"], 2, 15),
    Question(10, "Which programming language was developed by IEEE member?",
      ["Java", "Python", "C++", "JavaScript"], 2, 15)
  ]

  /** The index of the correct option of question `k + 1`. */
  const AnswerKey: seq<int> := [0, 0, 0, 2, 1, 2, 1, 0, 2, 2]

  /** Four options, a key that indexes one of them, and a positive value. */
  predicate WellFormed(q: Question) {
    |q.options| == 4 && 0 <= q.correctAnswer < 4 && q.points > 0
  }

  predicate UniqueIds(bank: seq<Question>) {
    forall i, j :: 0 <= i < j < |bank| ==> bank[i].id != bank[j].id
  }

  predicate NonNegativePoints(bank: seq<Question>) {
    forall i :: 0 <= i < |bank| ==> bank[i].points >= 0
  }

  /** The sum of the points of every question: the best possible raw score. */
  function PointsSum(bank: seq<Question>): int {
    if |bank| == 0 then 0 else bank[0].points + PointsSum(bank[1..])
  }

  /** The first question carrying `id`, as `Array.prototype.find` returns it. */
  function Find(bank: seq<Question>, id: int): (r: Option<Question>)
    ensures r.Some? ==> r.value in bank && r.value.id == id
    ensures r.None? <==> forall k :: 0 <= k < |bank| ==> bank[k].id != id
  {
    if |bank| == 0 then None
    else if bank[0].id == id then Some(bank[0])
    else
      var r := Find(bank[1..], id);
      assert forall k :: 1 <= k < |bank| ==> bank[k] == bank[1..][k - 1];
      r
  }

  /** The first question carrying an id is the one found under it. */
  lemma {:induction false} FindFirst(bank: seq<Question>, k: int)
    requires 0 <= k < |bank|
    requires forall j :: 0 <= j < k ==> bank[j].id != bank[k].id
    ensures Find(bank, bank[k].id) == Some(bank[k])
  {
    if k > 0 {
      FindFirst(bank[1..], k - 1);
    }
  }

  /** In a bank with unique ids, the question at position `k` is the one
      found under its own id. */
  lemma FindAt(bank: seq<Question>, k: int)
    requires UniqueIds(bank)
    requires 0 <= k < |bank|
    ensures Find(bank, bank[k].id) == Some(bank[k])
  {
    FindFirst(bank, k);
  }

  /** Drops the correct-answer index. */
  function Strip(q: Question): PublicQuestion {
    PublicQuestion(q.id, q.question, q.options, q.points)
  }

  /** `order` lists every position of an `n`-element sequence once: the
      effect of sorting the bank with a random comparator. */
  predicate IsShuffle(order: seq<int>, n: int) {
    && |order| == n
    && (forall i :: 0 <= i < n ==> 0 <= order[i] < n)
    && (forall i, j :: 0 <= i < j < n ==> order[i] != order[j])
  }

  /** The questions handed to a client: the bank in shuffled order, each
      question stripped of its key. */
  function Distribute(bank: seq<Question>, order: seq<int>): (r: seq<PublicQuestion>)
    requires IsShuffle(order, |bank|)
    ensures |r| == |bank|
    ensures forall i :: 0 <= i < |r| ==> r[i] == Strip(bank[order[i]])
    ensures forall k :: 0 <= k < |bank| ==> Strip(bank[k]) in r
    ensures UniqueIds(bank) ==> forall i, j :: 0 <= i < j < |r| ==> r[i].id != r[j].id
  {
    var r := seq(|bank|, i requires 0 <= i < |bank| => Strip(bank[order[i]]));
    StrippedAllPresent(bank, order, r);
    r
  }

  lemma StrippedAllPresent(bank: seq<Question>, order: seq<int>, r: seq<PublicQuestion>)
    requires IsShuffle(order, |bank|)
    requires |r| == |bank|
    requires forall i :: 0 <= i < |r| ==> r[i] == Strip(bank[order[i]])
    ensures forall k :: 0 <= k < |bank| ==> Strip(bank[k]) in r
  {
    ShuffleCovers(order, |bank|);
    forall k | 0 <= k < |bank|
      ensures Strip(bank[k]) in r
    {
      assert k in Image(order, |bank|);
      var i :| 0 <= i < |order| && order[i] == k;
      assert r[i] == Strip(bank[k]);
    }
  }

  /** Every distributed question is the stripped form of the bank question
      stored under its id, so a client's answer by id is graded against the
      very question it was shown. */
  lemma DistributedMatchBank(bank: seq<Question>, order: seq<int>)
    requires UniqueIds(bank)
    requires IsShuffle(order, |bank|)
    ensures forall p :: p in Distribute(bank, order) ==>
              Find(bank, p.id).Some? && Strip(Find(bank, p.id).value) == p
  {
    var r := Distribute(bank, order);
    forall p | p in r
      ensures Find(bank, p.id).Some? && Strip(Find(bank, p.id).value) == p
    {
      var i :| 0 <= i < |r| && r[i] == p;
      FindAt(bank, order[i]);
    }
  }

  /** The bank with every key removed, in bank order. */
  function StripAll(bank: seq<Question>): seq<PublicQuestion> {
    seq(|bank|, k requires 0 <= k < |bank| => Strip(bank[k]))
  }

  /** With unique ids the distributed list is a permutation of the stripped
      bank: nothing is lost, repeated or added. */
  lemma DistributePermutes(bank: seq<Question>, order: seq<int>)
    requires UniqueIds(bank)
    requires IsShuffle(order, |bank|)
    ensures multiset(Distribute(bank, order)) == multiset(StripAll(bank))
  {
    var r, all := Distribute(bank, order), StripAll(bank);
    forall x
      ensures x in r <==> x in all
    {
      if x in r {
        var i :| 0 <= i < |r| && r[i] == x;
        assert x == all[order[i]];
      }
      if x in all {
        var k :| 0 <= k < |all| && all[k] == x;
        assert Strip(bank[k]) in r;
      }
    }
    SameDistinctMembers(r, all);
  }

  /** The positions named by the first `m` entries of `order`. */
  function Image(order: seq<int>, m: int): set<int>
    requires 0 <= m <= |order|
  {
    set i | 0 <= i < m :: order[i]
  }

  /** The indices `0 .. n - 1`. */
  function Below(n: nat): (r: set<int>)
    ensures |r| == n
    ensures forall k :: k in r <==> 0 <= k < n
  {
    if n == 0 then {} else Below(n - 1) + {n - 1}
  }

  lemma {:induction false} ImageCard(order: seq<int>, m: int)
    requires 0 <= m <= |order|
    requires forall i, j :: 0 <= i < j < |order| ==> order[i] != order[j]
    ensures |Image(order, m)| == m
  {
    if m > 0 {
      ImageCard(order, m - 1);
      assert Image(order, m) == Image(order, m - 1) + {order[m - 1]};
      assert order[m - 1] !in Image(order, m - 1);
    }
  }

  /** Pigeonhole: an injective index sequence of length `n` into `[0, n)`
      hits every index. */
  lemma ShuffleCovers(order: seq<int>, n: int)
    requires IsShuffle(order, n)
    ensures forall k :: 0 <= k < n ==> k in Image(order, n)
  {
    var img := Image(order, n);
    ImageCard(order, n);
    assert img <= Below(n);
    forall k | 0 <= k < n
      ensures k in img
    {
      if k !in img {
        assert img <= Below(n) - {k};
        assert |Below(n) - {k}| == n - 1;
        SubsetCard(img, Below(n) - {k});
        assert false;
      }
    }
  }

  lemma SubsetCard(a: set<int>, b: set<int>)
    requires a <= b
    ensures |a| <= |b|
  {
    assert b == a + (b - a);
    assert a * (b - a) == {};
  }

  /** Question `k + 1` sits at position `k`, and its key is `AnswerKey[k]`. */
  lemma BankLayout()
    ensures |Bank| == 10
    ensures forall k :: 0 <= k < |Bank| ==> Bank[k].id == k + 1 && Bank[k].correctAnswer == AnswerKey[k]
  {
  }

  /** The first seven questions are worth 10 points, the last three 15. */
  lemma BankPoints()
    ensures forall k :: 0 <= k < 7 ==> Bank[k].points == 10
    ensures forall k :: 7 <= k < 10 ==> Bank[k].points == 15
  {
  }

  lemma BankUniqueIds()
    ensures UniqueIds(Bank)
  {
    BankLayout();
  }

  /** Every question has four options, an in-range key and positive points. */
  lemma BankWellFormed()
    ensures forall k :: 0 <= k < |Bank| ==> WellFormed(Bank[k])
    ensures NonNegativePoints(Bank)
  {
  }

  /** Seven questions are worth 10 and three worth 15: 115 points in all. */
  lemma BankMaxScore()
    ensures PointsSum(Bank) == 115
  {
    assert Bank[7..] == [Bank[7], Bank[8], Bank[9]];
  }
}
