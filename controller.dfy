/**
 * The match controller: it takes the next match from the bracket, scales the quiz to the
 * round, runs either the human's answer loop or a CPU simulation, and reports the winner
 * back to the bracket.
 */
module Controller {
  import opened Wrappers
  import opened Roster
  import opened Bracket
  import opened Outcome
  import opened Sampler

  // ---------------------------------------------------------------------------
  // Round scaling and who is playing

  /** The difficulty of round `r`'s questions: one level per round, capped at 3. */
  function DifficultyLevel(r: nat): (d: nat)
    ensures 1 <= d <= 3
    ensures d <= r + 1 && (d == 3 || d == r + 1)
  {
    if 3 <= r + 1 then 3 else r + 1
  }

  /** The number of questions in round `r`: 3, 5, 7, ... */
  function QuestionCount(r: nat): (n: nat)
    ensures n % 2 == 1 && n >= 3
    ensures n > 2 * r
  {
    3 + r * 2
  }

  /** A slot is the human entrant when it shows the human's name; a stand-in never does. */
  predicate IsHuman(s: Slot)
    ensures IsHuman(s) ==> s.Real?
  {
    SlotName(s) == HUMAN
  }

  predicate IsHumanMatch(m: Match) {
    IsHuman(m.a) || IsHuman(m.b)
  }

  // ---------------------------------------------------------------------------
  // The human's match

  /** The human's side wins when it qualifies; otherwise the other side does. */
  function HumanWinner(a: Slot, b: Slot, correct: nat, total: nat): (w: Slot)
    requires total > 0 && (IsHuman(a) || IsHuman(b))
    ensures w == a || w == b
    ensures Qualifies(correct, total) ==> IsHuman(w)
    ensures !Qualifies(correct, total) && !(IsHuman(a) && IsHuman(b)) ==> !IsHuman(w)
  {
    var human := if IsHuman(a) then a else b;
    var other := if IsHuman(a) then b else a;
    if Qualifies(correct, total) then human else other
  }

  /** How many of the answers given so far pick the right choice of their question. */
  function Score(questions: seq<Question>, answers: seq<nat>): (c: nat)
    requires |answers| <= |questions|
    ensures c <= |answers|
    decreases |answers|
  {
    if answers == [] then 0
    else
      var k := |answers| - 1;
      Score(questions, answers[..k]) + (if answers[k] == questions[k].answer then 1 else 0)
  }

  /** The answer loop of one human match: the sampled questions, the position of the match,
      its two sides, and the counters `idx` (answers given) and `correct` (answers right). */
  class HumanQuiz {
    const questions: seq<Question>
    const at: Position
    const a: Slot
    const b: Slot
    var idx: nat
    var correct: nat
    ghost var answers: seq<nat>

    ghost predicate Valid()
      reads this
    {
      && |questions| > 0
      && (IsHuman(a) || IsHuman(b))
      && |answers| == idx <= |questions|
      && correct == Score(questions, answers)
    }

    constructor (questions: seq<Question>, at: Position, m: Match)
      requires |questions| > 0 && IsHumanMatch(m)
      ensures Valid()
      ensures this.questions == questions && this.at == at && a == m.a && b == m.b
      ensures idx == 0 && correct == 0 && answers == []
    {
      this.questions := questions;
      this.at := at;
      a := m.a;
      b := m.b;
      idx := 0;
      correct := 0;
      answers := [];
    }

    /** The human picks `choice` for the current question. After the last question the
        verdict is the winner of the match. */
    method Answer(choice: nat) returns (verdict: Option<Slot>)
      requires Valid() && idx < |questions|
      modifies this
      ensures Valid()
      ensures answers == old(answers) + [choice] && idx == old(idx) + 1
      ensures correct == old(correct) + (if choice == questions[old(idx)].answer then 1 else 0)
      ensures verdict.Some? <==> idx == |questions|
      ensures verdict.Some? ==> verdict.value == HumanWinner(a, b, correct, |questions|)
    {
      var ok := choice == questions[idx].answer;
      if ok {
        correct := correct + 1;
      }
      idx := idx + 1;
      answers := answers + [choice];
      assert answers[..|answers| - 1] == old(answers);
      if idx < |questions| {
        verdict := None;
      } else {
        verdict := Some(HumanWinner(a, b, correct, |questions|));
      }
    }
  }

  /** The answer counters as the click handler keeps them. */
  datatype Tally = Tally(answered: nat, correct: nat)

  /** One click on an answer button as the handler is written: the handler does not check
      that a question is still open, and the last question's buttons stay on screen after the
      verdict, so every further click yields another verdict for the same match. */
  function ClickAsWritten(t: Tally, ok: bool, total: nat): (r: (Tally, Option<bool>))
    requires total > 0
    ensures r.0.answered == t.answered + 1 && r.0.correct <= t.correct + 1
    ensures r.1.Some? <==> r.0.answered >= total
  {
    var t' := Tally(t.answered + 1, t.correct + if ok then 1 else 0);
    (t', if t'.answered < total then None else Some(Qualifies(t'.correct, total)))
  }

  /** Three questions answered right, right, wrong: 2 of 3 (67 %) eliminates the human. One
      more click on the right answer of the last question, still on screen, gives 3 right of 3
      and a second verdict that qualifies the human. */
  lemma StaleClickFlipsVerdict()
    ensures ClickAsWritten(Tally(0, 0), true, 3) == (Tally(1, 1), None)
    ensures ClickAsWritten(Tally(1, 1), true, 3) == (Tally(2, 2), None)
    ensures ClickAsWritten(Tally(2, 2), false, 3) == (Tally(3, 2), Some(false))
    ensures ClickAsWritten(Tally(3, 2), true, 3) == (Tally(4, 3), Some(true))
  {
  }

  // ---------------------------------------------------------------------------
  // The CPU match

  /** The number of right answers in `n` simulated questions; each hit is a random draw. */
  method BinomialSim(n: nat) returns (correct: nat)
    ensures correct <= n
  {
    correct := 0;
    var i := 0;
    while i < n
      invariant 0 <= i <= n && correct <= i
    {
      var hit: bool := *;
      if hit {
        correct := correct + 1;
      }
      i := i + 1;
    }
  }

  // ---------------------------------------------------------------------------
  // The tournament

  /** What one call of `RunNextMatch` did. */
  datatype Step =
    | Finished(champion: Option<Slot>)   // no match left; the champion, if any
    | HumanTurn(at: Position)            // the human's match has started
    | Stalled(at: Position)              // the human's match found no question to ask
    | CpuPlayed(at: Position, winner: Slot)

  /** The state of a running tournament: its players, its bracket and the question pool. */
  class Tournament {
    const players: seq<Player>
    var bracket: Bracket
    const pool: seq<Question>

    ghost predicate Valid()
      reads this
    {
      Consistent(bracket, players)
    }

    /** Generates `n` players and builds their bracket. */
    constructor (n: nat, pool: seq<Question>)
      requires IsPow2(n)
      ensures Valid() && Initial(bracket, players) && this.pool == pool
      ensures |players| == n && forall i :: 0 <= i < n ==> (players[i].name == HUMAN <==> i == 0)
    {
      var ps := GeneratePlayers(n);
      var b := BuildBracket(ps);
      InitialIsConsistent(b, ps);
      players := ps;
      bracket := b;
      this.pool := pool;
    }

    /** Writes `w` as the winner of match `m` of round `r` and into its slot of the next round. */
    method FinishMatch(r: nat, m: nat, w: Slot)
      requires r < |bracket| && m < |bracket[r]|
      requires r + 1 < |bracket| ==> m / 2 < |bracket[r + 1]|
      modifies this`bracket
      ensures bracket == RecordWinner(old(bracket), r, m, w)
    {
      bracket := bracket[r := bracket[r][m := bracket[r][m].(winner := Some(w))]];
      var nextRound := r + 1;
      if nextRound < |bracket| {
        var idxNext := m / 2;
        var nextMatch := bracket[nextRound][idxNext];
        if m % 2 == 0 {
          nextMatch := nextMatch.(a := w);
        } else {
          nextMatch := nextMatch.(b := w);
        }
        bracket := bracket[nextRound := bracket[nextRound][idxNext := nextMatch]];
      }
    }

    /** Plays the next match: reports the champion when none is left, starts the human's
        quiz when the human is in it, and otherwise simulates it and records its winner. */
    method RunNextMatch() returns (step: Step, quiz: HumanQuiz?)
      requires Valid()
      modifies this`bracket
      ensures Valid()
      ensures !step.CpuPlayed? ==> bracket == old(bracket)
      ensures step.Finished? ==> AllDecided(bracket) && step.champion == FindChampion(bracket)
      ensures step.Finished? && |players| > 1 ==>
                exists j :: 0 <= j < |players| && step.champion == Some(Real(players[j]))
      ensures step.HumanTurn? || step.Stalled? ==>
                IsNext(bracket, step.at) && IsHumanMatch(bracket[step.at.round][step.at.index])
      ensures step.Stalled? ==>
                |ChosenPool(pool, DifficultyLevel(step.at.round), QuestionCount(step.at.round))| == 0
      ensures step.HumanTurn? <==> quiz != null
      ensures step.HumanTurn? ==>
                var r := step.at.round;
                var chosen := ChosenPool(pool, DifficultyLevel(r), QuestionCount(r));
                && |quiz.questions| == Min(QuestionCount(r), |chosen|)
                && multiset(quiz.questions) <= multiset(chosen)
      ensures step.HumanTurn? ==>
                && fresh(quiz) && quiz.Valid() && quiz.idx == 0 && quiz.at == step.at
                && quiz.a == bracket[step.at.round][step.at.index].a
                && quiz.b == bracket[step.at.round][step.at.index].b
      ensures step.CpuPlayed? ==>
                && IsNext(old(bracket), step.at)
                && var m := old(bracket)[step.at.round][step.at.index];
                && !IsHumanMatch(m) && (step.winner == m.a || step.winner == m.b)
                && bracket == RecordWinner(old(bracket), step.at.round, step.at.index, step.winner)
                && DecidedCount(bracket) == DecidedCount(old(bracket)) + 1
    {
      var next := FindNextMatch(bracket);
      if next.None? {
        if |bracket| > 0 {
          ChampionWonEveryRound(bracket, players);
        }
        return Finished(FindChampion(bracket)), null;
      }
      var p := next.value;
      var m := bracket[p.round][p.index];
      var level := DifficultyLevel(p.round);
      var count := QuestionCount(p.round);
      var qs := SampleQuestions(pool, level, count);
      if IsHumanMatch(m) {
        if |qs| == 0 {
          return Stalled(p), null;
        }
        quiz := new HumanQuiz(qs, p, m);
        return HumanTurn(p), quiz;
      }
      var correctA := BinomialSim(count);
      var correctB := BinomialSim(count);
      var w := CpuWinner(m.a, m.b, correctA, correctB, count);
      RecordWinnerKeepsConsistent(bracket, players, p, w);
      RecordWinnerAddsOneResult(bracket, p.round, p.index, w);
      FinishMatch(p.round, p.index, w);
      return CpuPlayed(p, w), null;
    }

    /** Passes the human's answer to the running quiz; after the last question records the
        verdict in the bracket. */
    method SubmitAnswer(quiz: HumanQuiz, choice: nat) returns (verdict: Option<Slot>)
      requires Valid() && quiz.Valid() && quiz.idx < |quiz.questions|
      requires IsNext(bracket, quiz.at)
      requires quiz.a == bracket[quiz.at.round][quiz.at.index].a
      requires quiz.b == bracket[quiz.at.round][quiz.at.index].b
      modifies this`bracket, quiz
      ensures Valid() && quiz.Valid()
      ensures quiz.idx == old(quiz.idx) + 1 && quiz.answers == old(quiz.answers) + [choice]
      ensures verdict.None? ==> bracket == old(bracket) && quiz.idx < |quiz.questions|
      ensures verdict.Some? ==>
                && quiz.idx == |quiz.questions|
                && verdict.value == HumanWinner(quiz.a, quiz.b, quiz.correct, |quiz.questions|)
                && bracket == RecordWinner(old(bracket), quiz.at.round, quiz.at.index, verdict.value)
                && DecidedCount(bracket) == DecidedCount(old(bracket)) + 1
    {
      verdict := quiz.Answer(choice);
      if verdict.Some? {
        var p := quiz.at;
        RecordWinnerKeepsConsistent(bracket, players, p, verdict.value);
        RecordWinnerAddsOneResult(bracket, p.round, p.index, verdict.value);
        FinishMatch(p.round, p.index, verdict.value);
      }
    }
  }
}
