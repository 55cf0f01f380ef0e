# Quiz tournament: bracket engine and match rules

A model of a single-elimination quiz tournament. Players are paired into a bracket. The
human entrant (always player 0, named `Toi`) answers trivia questions, and matches between
CPU players are simulated. Winners advance round by round until one champion is left.

The model covers the tournament's logic in `app.js`:

- the **bracket engine** (`bracket.dfy`, module `Bracket`): building the rounds, finding the
  next match, recording a winner and moving it into the next round, and the champion;
- the **outcome evaluator** (`outcome.dfy`, module `Outcome`): the strict 69 % threshold and
  the CPU-versus-CPU winner rule;
- the **question sampler** (`sampler.dfy`, module `Sampler`): filter, widen once, shuffle with
  Fisher–Yates, take `n`;
- the **match controller** (`controller.dfy`, module `Controller`): round scaling, human
  detection, the human's answer loop as a class with the counters `idx` and `correct`, the
  counting loop of the binomial simulation, and a `Tournament` class that holds the players
  and the bracket and runs matches one at a time;
- the **roster** (`roster.dfy`, module `Roster`): the generated players.

The bracket is a `seq<seq<Match>>` field of `Tournament`, and the methods reassign it.
A match slot is a datatype: `Slot = Real(Player) | Placeholder(round, index)`. The
stand-in objects `{id: "winner-r<round>-<i>", name: "Winner <i>"}` become `Placeholder`
values. The invariant `Bracket.Consistent` says four things:

- the bracket has its shape;
- round 0 holds the players in order;
- every later slot holds either the winner of the match that feeds it or that match's
  stand-in;
- every decided match was won by one of its two real players.

This invariant holds on the bracket as built. Recording the winner of the next match keeps
it. From it the model proves the following:

- the next match never involves a stand-in;
- the tournament is over exactly when the final has a winner;
- it is over after exactly `n - 1` results;
- the champion is a real player who won a match in every round.

Randomness is a nondeterministic choice. This covers the Fisher–Yates index `j`, each
simulated answer, and (implicitly) the player skills.

## Model

| member | source | states |
|---|---|---|
| `Roster.GeneratePlayers` | app.js:45-58 | `n` players with ids `0..n-1`; player 0 is named `Toi`, every other player keeps the base name plus ` #i`, and exactly player 0 carries the human's name |
| `Roster.Decimal` | app.js:51 | the `${i}` suffix is a non-empty string of decimal digits, one digit exactly when `i < 10`, and read back as a number it is `i` |
| `Roster.DecimalInjective` | app.js:51 | two different numbers never print the same suffix, so the ` #i` names of different players differ |
| `Bracket.BuildBracket` | app.js:61-75 | for `2^k` players: `k` rounds, round `r` with `n / 2^(r+1)` matches, round 0 match `i` is `(players[2i], players[2i+1])`, later rounds pair the stand-ins `Placeholder(r, 2i)`, `Placeholder(r, 2i+1)`, and no match has a winner |
| `Bracket.PairUp` | app.js:66-69 | for an even number of entrants, match `i` pairs entrant `2i` with entrant `2i+1`, has no winner, and there are half as many matches as entrants |
| `Bracket.InitialIsConsistent` | app.js:61-75 | the bracket as built satisfies the tournament invariant |
| `Bracket.ShapedSizes` | app.js:61-75 | in any bracket of the tournament, round `r` still has `n / 2^(r+1)` matches |
| `Bracket.MatchCountOfShaped` | app.js:61-75 | a bracket of `n` players holds `n - 1` matches |
| `Bracket.FindNextMatch` | app.js:142-151 | the result is the first undecided match in round-then-index order (every earlier match has a winner); `None` exactly when every match of every round has a winner |
| `Bracket.NextMatchIsPlayable` | app.js:142-151 | the match the scan returns has two real players in its slots: no stand-in is ever played |
| `Bracket.RecordWinner` | app.js:212-225 | sets the match's winner; when a next round exists, writes the winner into slot `a` (even index) or `b` (odd index) of match `m / 2` there; no other match changes, and nothing moves on from the last round |
| `Controller.Tournament.FinishMatch` | app.js:212-225 | the bracket after the call is `RecordWinner` of the bracket before it; the players are a constant of the tournament |
| `Bracket.RecordWinnerKeepsConsistent` | app.js:212-225 | recording one of the two players as winner of the next match keeps the invariant, and the next round's target match exists |
| `Bracket.RecordWinnerAddsOneResult` | app.js:212-213 | recording the winner of an undecided match adds exactly one result |
| `Bracket.FeedersDecided` | app.js:218-225 | a decided match of a later round was fed by two decided matches and its winner is one of theirs |
| `Bracket.CompleteIffFinalDecided` | app.js:114-121 | the scan finds nothing left exactly when the final has a winner |
| `Bracket.CompleteAfterAllResults` | app.js:114-121 | at most `n - 1` results are ever recorded, and the tournament is over exactly when there are `n - 1` |
| `Bracket.FindChampion` | app.js:231-236 | `None` when there is no last round or it is empty; otherwise the final's winner, or its slot `a` while it has none |
| `Bracket.ChampionWonEveryRound` | app.js:231-236 | once every match is decided, the champion is the final's winner, one of the players, and it won a match in every round |
| `Outcome.Qualifies` | app.js:176-177 | the strict threshold `100 * correct > 69 * total`: a perfect score always qualifies, a score of 60 % or less never does |
| `Outcome.QualifiesIsRatioAboveThreshold` | app.js:176-177 | over exact rationals, the integer test holds exactly when `correct / total > 0.69` |
| `Outcome.SharedDenominatorCompare` | app.js:198-204 | over exact rationals, `correctA / n >= correctB / n` holds exactly when `correctA >= correctB` |
| `Outcome.CpuWinner` | app.js:198-204 | the four threshold branches reduce to "a wins exactly when its percentage is at least b's", so ties go to `a` |
| `Sampler.Filter` | app.js:244-246 | the result is no longer than the pool and every question in it meets the criterion |
| `Sampler.FilterKeepsAccepted` | app.js:244-246 | each question occurs in the filtered list as often as in the pool if it meets the criterion, and not at all otherwise |
| `Sampler.SampleQuestions` | app.js:243-254 | returns as many questions as the smaller of `n` and the chosen pool's size, from the chosen pool: the exact-difficulty filter when it has at least `n` questions, otherwise the `difficulty <= d + 1` filter; the result is a sub-multiset of that pool, and all of it when `n` covers the pool |
| `Sampler.SampleHasNoRepeats` | app.js:243-254 | from a pool without duplicates the sample has no duplicates, and each question has the chosen difficulty (exact, or at most `d + 1` after widening) |
| `Controller.DifficultyLevel` | app.js:131 | `min(3, r + 1)` lies in `1..3` |
| `Controller.QuestionCount` | app.js:132 | `3 + 2r` is odd and at least 3 |
| `Controller.IsHuman` | app.js:135 | a slot is the human's when it shows the name `Toi`; a stand-in never does |
| `Controller.HumanWinner` | app.js:176-184 | the winner is one of the two sides; the human's side when the score is strictly above 69 %, the other side otherwise |
| `Controller.Score` | app.js:168-170 | the number of right answers never exceeds the number of answers given |
| `Controller.HumanQuiz.constructor` | app.js:153-156 | a quiz starts with no answer given and no answer right |
| `Controller.HumanQuiz.Answer` | app.js:167-185 | each answer adds one to `idx` and adds one to `correct` exactly when it is right; `correct` never exceeds `idx` and `idx` never exceeds the number of questions; the verdict comes exactly after the last answer and is the human-match winner rule |
| `Controller.ClickAsWritten` | app.js:167-177 | the click handler as written: every click once all questions are answered produces another verdict |
| `Controller.StaleClickFlipsVerdict` | app.js:167-184 | 2 right of 3 eliminates the human, and one more click on the still-visible right answer gives a second, qualifying verdict |
| `Controller.BinomialSim` | app.js:256-262 | the simulated number of right answers lies in `0..n` |
| `Controller.Tournament.constructor` | app.js:35-38 | the tournament starts with `n` players, only player 0 human, and the bracket as built, which satisfies the invariant |
| `Controller.Tournament.RunNextMatch` | app.js:110-139 | keeps the invariant. With no match left it reports the champion, a real player when there are at least two players. Otherwise it takes the next match. With the human in it, the bracket is unchanged; the match stalls only when the round's chosen pool (difficulty `min(3, r+1)`, `3 + 2r` questions) is empty, and otherwise the quiz asks `min(3 + 2r, pool size)` questions drawn from that chosen pool. Without the human, the winner is one of the two sides, is recorded as `RecordWinner` describes, and adds one result |
| `Controller.Tournament.SubmitAnswer` | app.js:167-185 | passes one answer to the quiz; after the last answer the verdict is recorded in the bracket, the invariant holds and one result is added |

## Left out

- The page itself: rendering the bracket and the champion, the history log, the progress
  text, showing and hiding elements, scrolling and button wiring (app.js:11-22, 77-103, 238-241).
- Loading `questions.json` and its one-question fallback pool (app.js:24-33). The pool is a
  parameter of `Tournament`.
- The 600 ms pause before a CPU result is recorded (app.js:207-209). `RunNextMatch` records it at once.
- Player skills, `randBetween`, the chance `skill * (1 - (d - 1) * 0.12)` and the comparison
  `Math.random() < p` (app.js:52, 57, 194-197, 259, 264-266). These are floating point and
  random, so each simulated answer is a free choice. Only the bound on the count is kept.
- `Controller.BinomialSim`: states only the bound `0 <= correct <= n`, not the distribution,
  because the draws are nondeterministic.
- `Sampler.SampleQuestions`: states that the shuffle permutes the pool, not that every
  permutation is equally likely, because each draw `j` in `0..i` is nondeterministic.
- The summary strings with `Math.round` percentages (app.js:181-183, 206, 214).
- Player counts that are not a power of two. The source then pairs a player with
  `undefined` (app.js:68), so `BuildBracket` requires a power of two. One player is allowed:
  there are no rounds and no champion, as in the source.
- `Bracket.FindChampion`: the last fallback `|| finalMatch.b` (app.js:235) is not modelled.
  It is reachable only when slot `a` is undefined, which a power-of-two bracket never has.
- IEEE floating point: `pct > 0.69` is `100 * correct > 69 * total` on integers, and
  `pctA >= pctB` is `correctA >= correctB`. Both are proved equal to the comparisons over
  exact rationals (`Outcome.QualifiesIsRatioAboveThreshold`, `Outcome.SharedDenominatorCompare`).
  Rounding in the double-precision division is not modelled.
- An empty sample in the human flow makes `showQuestion(undefined)` throw (app.js:159). The
  match then stays open. `RunNextMatch` reports this as `Stalled` and leaves the bracket unchanged.
- `startTournament`'s default of 8 players for an unreadable count (app.js:36) is input
  parsing. The constructor takes `n`.
- `Controller.HumanQuiz.Answer` requires an open question (`idx < |questions|`). The source
  does not check this (see Findings); the requirement models the evident intent.

## Findings

| source | as written | input that shows it | evidently intended | confidence | as-written member | corrected member |
|---|---|---|---|---|---|---|
| app.js:167-184 | the answer handler has no check that a question is still open. The last question's buttons stay on screen after the verdict, because only `showQuestion` clears them. Every further click raises `correct` and `idx` past `qs.length` and calls `finishMatch` again for the same match | 3 questions answered right, right, wrong: 2/3 = 67 %, human eliminated; one more click on the right answer gives 3/3 and the human is recorded as winner, also in the next round's slot | a match takes exactly `qs.length` answers and one verdict | high (not executed) | `Controller.ClickAsWritten`, `Controller.StaleClickFlipsVerdict` | `Controller.HumanQuiz.Answer` |
