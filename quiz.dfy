/** The quiz runner (`quiz`): for every question, in the order the trivia
    service returned them, the choices are shuffled and shown, every player
    answers in list order, and the score table records 1 for an answer equal
    to the correct one up to letter case and 0 otherwise.

    The console is replaced by parameters: `answers[q][p]` is the line player
    `p` types for question `q`, and `draws[q]` are the random numbers
    `random.shuffle` consumes for question `q`. HTML entities are taken to be
    decoded already. */
module Quiz {
  import opened Text
  import opened Scores

  /** One record of the service's `results` list, after `html.unescape`. */
  datatype Question = Question(text: string, correct: string, incorrect: seq<string>)

  /** The point for one answer: `answer.upper() == correct_answer.upper()`. */
  function Point(answer: string, correct: string): (p: nat)
    ensures p <= 1
    ensures p == 1 <==> EqualIgnoringCase(answer, correct)
  {
    UpperEqualIff(answer, correct);
    if Upper(answer) == Upper(correct) then 1 else 0
  }

  /** Answers differing from the correct one only in letter case score; any
      other text does not. */
  lemma PointExamples()
    ensures Point("paris", "Paris") == 1 && Point("PARIS", "Paris") == 1
    ensures Point("Pariisi", "Paris") == 0 && Point("0", "42") == 0
  {
    assert EqualIgnoringCase("paris", "Paris") by { assert SameIgnoringCase('p', 'P'); }
    assert EqualIgnoringCase("PARIS", "Paris");
  }

  /** `random.shuffle(a)`: the Fisher-Yates pass from the last position down
      to the second, where the `k`-th swap partner is `draws[k]` reduced below
      `i + 1` (standing for `randbelow(i + 1)`). Whatever the draws, the
      result is a permutation of the input. */
  method Shuffle(a: array<string>, draws: seq<nat>)
    requires a.Length <= |draws| + 1
    modifies a
    ensures multiset(a[..]) == old(multiset(a[..]))
  {
    var i := a.Length - 1;
    while i > 0
      invariant -1 <= i < a.Length
      invariant a.Length > 0 ==> i >= 0
      invariant multiset(a[..]) == old(multiset(a[..]))
    {
      var j := draws[a.Length - 1 - i] % (i + 1);
      var t := a[i];
      a[i] := a[j];
      a[j] := t;
      i := i - 1;
    }
  }

  /** The choices shown for a question: the incorrect answers with the
      correct one appended, shuffled in place. */
  method PresentChoices(q: Question, draws: seq<nat>) returns (choices: seq<string>)
    requires |q.incorrect| <= |draws|
    ensures multiset(choices) == multiset(q.incorrect + [q.correct])
    ensures |choices| == |q.incorrect| + 1
    ensures q.correct in choices
  {
    var pool := q.incorrect + [q.correct];
    var a := new string[|pool|](i requires 0 <= i < |pool| => pool[i]);
    assert a[..] == pool;
    Shuffle(a, draws);
    choices := a[..];
    assert q.correct in multiset(pool);
    assert |multiset(choices)| == |multiset(pool)|;
  }

  /** Player `p`'s point map after the first `n` questions: keys "1".."n" in
      order, and for each question the point its answer earns. */
  predicate Recorded(m: PointMap, n: nat, questions: seq<Question>, answers: seq<seq<string>>, p: nat)
    requires n <= |questions| && n <= |answers|
    requires forall r :: 0 <= r < n ==> p < |answers[r]|
  {
    && Keys(m) == QuestionKeys(n)
    && forall r :: 0 <= r < n ==> m[r].1 == Point(answers[r][p], questions[r].correct)
  }

  /** Answering question `n + 1` extends a recorded map by one key. */
  lemma RecordedStep(m: PointMap, n: nat, questions: seq<Question>, answers: seq<seq<string>>, p: nat)
    requires n < |questions| && n < |answers|
    requires forall r :: 0 <= r <= n ==> p < |answers[r]|
    requires Recorded(m, n, questions, answers, p)
    ensures Recorded(Put(m, NatToString(n + 1), Point(answers[n][p], questions[n].correct)),
                     n + 1, questions, answers, p)
  {
    QuestionKeysFresh(n);
    PutFresh(m, NatToString(n + 1), Point(answers[n][p], questions[n].correct));
    var m' := Put(m, NatToString(n + 1), Point(answers[n][p], questions[n].correct));
    assert m' == m + [(NatToString(n + 1), Point(answers[n][p], questions[n].correct))];
    assert Keys(m') == Keys(m) + [NatToString(n + 1)];
    assert QuestionKeys(n) + [NatToString(n + 1)] == QuestionKeys(n + 1);
  }

  /** One round of the quiz: each player in list order answers question
      `q`, and the point is stored under `key`, the question number
      `str(q + 1)`, in that player's map. */
  method AskPlayers(score: ScoreTable, players: seq<string>, questions: seq<Question>,
                    answers: seq<seq<string>>, q: nat, key: string)
    returns (score': ScoreTable)
    requires key == NatToString(q + 1)
    requires Distinct(players) && Keys(score) == players
    requires q < |questions| == |answers|
    requires forall r :: 0 <= r < |answers| ==> |answers[r]| == |players|
    requires forall p :: 0 <= p < |players| ==> Recorded(score[p].1, q, questions, answers, p)
    ensures Keys(score') == players
    ensures forall p :: 0 <= p < |players| ==> Recorded(score'[p].1, q + 1, questions, answers, p)
  {
    score' := score;
    for p := 0 to |players|
      invariant Keys(score') == players
      invariant forall p' :: 0 <= p' < p ==> Recorded(score'[p'].1, q + 1, questions, answers, p')
      invariant forall p' :: p <= p' < |players| ==> Recorded(score'[p'].1, q, questions, answers, p')
    {
      var player := players[p];
      var points := Point(answers[q][p], questions[q].correct);
      IndexOfDistinct(score', p);
      var entry := Get(score', player);
      assert entry == score'[p].1;
      var updated := Put(entry, key, points);
      RecordedStep(entry, q, questions, answers, p);
      ghost var before := score';
      score' := Put(score', player, updated);
      assert score' == before[p := (player, updated)];
    }
  }

  /** The empty score table: one empty point map per player, entered in
      list order. */
  method NewScoreTable(players: seq<string>) returns (score: ScoreTable)
    requires Distinct(players)
    ensures Keys(score) == players
    ensures forall p :: 0 <= p < |score| ==> score[p].1 == []
  {
    score := [];
    for i := 0 to |players|
      invariant Keys(score) == players[..i]
      invariant forall p :: 0 <= p < i ==> score[p].1 == []
    {
      assert players[i] !in players[..i];
      PutFresh(score, players[i], []);
      score := Put(score, players[i], []);
    }
    assert players[..|players|] == players;
  }

  /** A table in which every player's answers to all questions are recorded
      has the same keys "1".."n" for everyone, points that are 1 exactly for
      the answers equal to the correct one up to case, and totals of at most n. */
  lemma RecordedTable(score: ScoreTable, players: seq<string>, questions: seq<Question>,
                      answers: seq<seq<string>>)
    requires |answers| == |questions|
    requires forall q :: 0 <= q < |answers| ==> |answers[q]| == |players|
    requires Keys(score) == players
    requires forall p :: 0 <= p < |players| ==> Recorded(score[p].1, |questions|, questions, answers, p)
    ensures forall p :: 0 <= p < |score| ==> Keys(score[p].1) == QuestionKeys(|questions|)
    ensures forall p :: 0 <= p < |score| ==> |score[p].1| == |questions|
    ensures forall p, q :: 0 <= p < |score| && 0 <= q < |questions| ==>
      score[p].1[q].1 == if EqualIgnoringCase(answers[q][p], questions[q].correct) then 1 else 0
    ensures Uniform(score)
    ensures forall p :: 0 <= p < |score| ==> Total(score[p].1) <= |questions|
  {
    forall p | 0 <= p < |score| ensures Total(score[p].1) <= |questions| {
      TotalAtMostCount(score[p].1);
    }
  }

  /** `quiz(response, player_list)`: returns the score table and, for each
      question, the list of choices shown. */
  method RunQuiz(questions: seq<Question>, players: seq<string>,
                 answers: seq<seq<string>>, draws: seq<seq<nat>>)
    returns (score: ScoreTable, shown: seq<seq<string>>)
    requires Distinct(players)
    requires |answers| == |questions|
    requires forall q :: 0 <= q < |answers| ==> |answers[q]| == |players|
    requires |draws| == |questions|
    requires forall q :: 0 <= q < |questions| ==> |questions[q].incorrect| <= |draws[q]|
    ensures Keys(score) == players
    ensures forall p :: 0 <= p < |score| ==> Keys(score[p].1) == QuestionKeys(|questions|)
    ensures forall p :: 0 <= p < |score| ==> |score[p].1| == |questions|
    ensures forall p, q :: 0 <= p < |score| && 0 <= q < |questions| ==>
      score[p].1[q].1 == if EqualIgnoringCase(answers[q][p], questions[q].correct) then 1 else 0
    ensures Uniform(score)
    ensures forall p :: 0 <= p < |score| ==> Total(score[p].1) <= |questions|
    ensures |shown| == |questions|
    ensures forall q :: 0 <= q < |questions| ==>
      && multiset(shown[q]) == multiset(questions[q].incorrect + [questions[q].correct])
      && questions[q].correct in shown[q]
  {
    score := NewScoreTable(players);

    shown := [];
    var questionNumber := 1;
    for q := 0 to |questions|
      invariant questionNumber == q + 1
      invariant Keys(score) == players
      invariant forall p :: 0 <= p < |players| ==> Recorded(score[p].1, q, questions, answers, p)
      invariant |shown| == q
      invariant forall r :: 0 <= r < q ==>
        && multiset(shown[r]) == multiset(questions[r].incorrect + [questions[r].correct])
        && questions[r].correct in shown[r]
    {
      var item := questions[q];
      var choices := PresentChoices(item, draws[q]);
      shown := shown + [choices];
      score := AskPlayers(score, players, questions, answers, q, NatToString(questionNumber));
      questionNumber := questionNumber + 1;
    }
    RecordedTable(score, players, questions, answers);
  }
}
