/**
 * The bracket engine of a single-elimination tournament: building the rounds from the
 * player list, finding the next match to play, recording a winner and moving it into
 * the next round, and reading off the champion.
 */
module Bracket {
  import opened Wrappers
  import opened Roster

  /** A match slot: a real player, or the stand-in for the winner of an earlier match.
      `Placeholder(r, i)` is entrant `i` of round `r` (so it waits for match `i` of round `r - 1`). */
  datatype Slot = Real(player: Player) | Placeholder(round: nat, index: nat)

  datatype Match = Match(a: Slot, b: Slot, winner: Option<Slot>)

  /** Round by round, match by match. */
  type Bracket = seq<seq<Match>>

  datatype Position = Position(round: nat, index: nat)

  /** The name a slot shows: the player's, or "Winner i" for a stand-in. */
  function SlotName(s: Slot): string {
    match s
    case Real(p) => p.name
    case Placeholder(_, i) => "Winner " + Decimal(i)
  }

  // ---------------------------------------------------------------------------
  // Powers of two

  function Pow2(k: nat): (p: nat)
    ensures p >= 1
  {
    if k == 0 then 1 else 2 * Pow2(k - 1)
  }

  predicate IsPow2(n: nat)
    decreases n
  {
    n == 1 || (n >= 2 && n % 2 == 0 && IsPow2(n / 2))
  }

  /** The exponent of a power of two. */
  function Log2(n: nat): (k: nat)
    requires IsPow2(n)
    ensures Pow2(k) == n
    decreases n
  {
    if n == 1 then 0 else 1 + Log2(n / 2)
  }

  // ---------------------------------------------------------------------------
  // Shape and initial contents

  /** Round 0 has `n / 2` matches, each round half the previous one, the last round one match;
      with a single player there are no rounds at all. */
  ghost predicate Shaped(b: Bracket, n: nat) {
    && (|b| == 0 ==> n == 1)
    && (|b| > 0 ==> n == 2 * |b[0]| && |b[|b| - 1]| == 1)
    && (forall r :: 0 < r < |b| ==> |b[r - 1]| == 2 * |b[r]|)
  }

  /** Entrant `i` of round `r` as the bracket is built: a player in round 0, a stand-in later. */
  function Entrant(players: seq<Player>, r: nat, i: nat): Slot
    requires r == 0 ==> i < |players|
  {
    if r == 0 then Real(players[i]) else Placeholder(r, i)
  }

  /** The bracket as built: consecutive entrants paired, no winner anywhere. */
  ghost predicate Initial(b: Bracket, players: seq<Player>) {
    && Shaped(b, |players|)
    && forall r, i :: 0 <= r < |b| && 0 <= i < |b[r]| ==>
         b[r][i] == Match(Entrant(players, r, 2 * i), Entrant(players, r, 2 * i + 1), None)
  }

  lemma {:induction false} HalvePow2(x: nat, k: nat)
    requires x % 2 == 0
    ensures (x / 2) * Pow2(k + 1) == x * Pow2(k)
  {
    calc {
      (x / 2) * Pow2(k + 1);
      (x / 2) * (2 * Pow2(k));
      { assert (x / 2) * (2 * Pow2(k)) == ((x / 2) * 2) * Pow2(k); }
      ((x / 2) * 2) * Pow2(k);
      x * Pow2(k);
    }
  }

  /** The stand-ins for the `count` winners of round `r - 1`. */
  function Placeholders(r: nat, count: nat): (s: seq<Slot>)
    ensures |s| == count && forall j :: 0 <= j < count ==> s[j] == Placeholder(r, j)
  {
    seq(count, j requires 0 <= j < count => Placeholder(r, j))
  }

  /** The loop state of `BuildBracket`: the rounds built so far and the entrants of the next. */
  ghost predicate BuiltSoFar(rounds: Bracket, entrants: seq<Slot>, players: seq<Player>) {
    && |entrants| * Pow2(|rounds|) == |players|
    && (|rounds| == 0 ==> |entrants| == |players|)
    && (forall i :: 0 <= i < |entrants| ==> entrants[i] == Entrant(players, |rounds|, i))
    && (|rounds| > 0 ==> |players| == 2 * |rounds[0]| && |rounds[|rounds| - 1]| == |entrants|)
    && (forall r :: 0 < r < |rounds| ==> |rounds[r - 1]| == 2 * |rounds[r]|)
    && (forall r :: 0 <= r < |rounds| ==> |rounds[r]| * Pow2(r + 1) == |players|)
    && (forall r, i :: 0 <= r < |rounds| && 0 <= i < |rounds[r]| ==>
          rounds[r][i] == Match(Entrant(players, r, 2 * i), Entrant(players, r, 2 * i + 1), None))
  }

  /** One pass of the outer loop: the paired entrants become a round, and stand-ins for its
      winners become the next entrants. */
  lemma BuildStep(rounds: Bracket, entrants: seq<Slot>, players: seq<Player>, matches: seq<Match>)
    requires BuiltSoFar(rounds, entrants, players) && IsPow2(|entrants|) && |entrants| > 1
    requires 2 * |matches| == |entrants|
    requires forall j :: 0 <= j < |matches| ==> matches[j] == Match(entrants[2 * j], entrants[2 * j + 1], None)
    ensures IsPow2(|matches|)
    ensures BuiltSoFar(rounds + [matches], Placeholders(|rounds| + 1, |matches|), players)
  {
    BuildStepSizes(rounds, entrants, players, matches);
    BuildStepContents(rounds, entrants, players, matches);
  }

  lemma BuildStepSizes(rounds: Bracket, entrants: seq<Slot>, players: seq<Player>, matches: seq<Match>)
    requires BuiltSoFar(rounds, entrants, players) && IsPow2(|entrants|) && |entrants| > 1
    requires 2 * |matches| == |entrants|
    ensures IsPow2(|matches|)
    ensures |matches| * Pow2(|rounds| + 1) == |players|
    ensures |players| == 2 * |(rounds + [matches])[0]|
    ensures forall r :: 0 < r < |rounds| + 1 ==> |(rounds + [matches])[r - 1]| == 2 * |(rounds + [matches])[r]|
    ensures forall r :: 0 <= r < |rounds| + 1 ==> |(rounds + [matches])[r]| * Pow2(r + 1) == |players|
  {
    HalvePow2(|entrants|, |rounds|);
  }

  lemma BuildStepContents(rounds: Bracket, entrants: seq<Slot>, players: seq<Player>, matches: seq<Match>)
    requires BuiltSoFar(rounds, entrants, players) && |entrants| > 1
    requires 2 * |matches| == |entrants|
    requires forall j :: 0 <= j < |matches| ==> matches[j] == Match(entrants[2 * j], entrants[2 * j + 1], None)
    ensures forall r, i :: 0 <= r < |rounds| + 1 && 0 <= i < |(rounds + [matches])[r]| ==>
              (r == 0 ==> 2 * i + 1 < |players|) &&
              (rounds + [matches])[r][i] == Match(Entrant(players, r, 2 * i), Entrant(players, r, 2 * i + 1), None)
  {
    var rounds' := rounds + [matches];
    forall r, i | 0 <= r < |rounds'| && 0 <= i < |rounds'[r]|
      ensures (r == 0 ==> 2 * i + 1 < |players|) &&
              rounds'[r][i] == Match(Entrant(players, r, 2 * i), Entrant(players, r, 2 * i + 1), None)
    {
      if r < |rounds| {
        assert rounds'[r] == rounds[r];
      }
    }
  }

  /** Pairs consecutive entrants into matches, round after round, until one entrant is left;
      every round after the first is filled with stand-ins for the previous round's winners. */
  method BuildBracket(players: seq<Player>) returns (rounds: Bracket)
    requires IsPow2(|players|)
    ensures Initial(rounds, players)
    ensures |rounds| == Log2(|players|) && Pow2(|rounds|) == |players|
    ensures forall r :: 0 <= r < |rounds| ==> |rounds[r]| * Pow2(r + 1) == |players|
  {
    var entrants: seq<Slot> := seq(|players|, i requires 0 <= i < |players| => Real(players[i]));
    rounds := [];
    BuildStart(players, entrants);
    while |entrants| > 1
      invariant IsPow2(|entrants|)
      invariant BuiltSoFar(rounds, entrants, players)
      decreases |entrants|
    {
      var matches := PairUp(entrants);
      BuildStep(rounds, entrants, players, matches);
      rounds := rounds + [matches];
      entrants := Placeholders(|rounds|, |matches|);
    }
    BuildDone(rounds, entrants, players);
  }

  /** The inner loop of the build: entrants `2i` and `2i+1` meet in match `i`. */
  method PairUp(entrants: seq<Slot>) returns (matches: seq<Match>)
    requires |entrants| % 2 == 0
    ensures 2 * |matches| == |entrants|
    ensures forall j :: 0 <= j < |matches| ==> matches[j] == Match(entrants[2 * j], entrants[2 * j + 1], None)
  {
    matches := [];
    var i := 0;
    while i < |entrants|
      invariant 0 <= i <= |entrants| && i % 2 == 0
      invariant 2 * |matches| == i
      invariant forall j :: 0 <= j < |matches| ==> matches[j] == Match(entrants[2 * j], entrants[2 * j + 1], None)
    {
      matches := matches + [Match(entrants[i], entrants[i + 1], None)];
      i := i + 2;
    }
  }

  lemma BuildStart(players: seq<Player>, entrants: seq<Slot>)
    requires |entrants| == |players| && forall i :: 0 <= i < |players| ==> entrants[i] == Real(players[i])
    ensures BuiltSoFar([], entrants, players)
  {
  }

  /** When one entrant is left, the rounds built are the whole bracket. */
  lemma BuildDone(rounds: Bracket, entrants: seq<Slot>, players: seq<Player>)
    requires BuiltSoFar(rounds, entrants, players) && IsPow2(|entrants|) && |entrants| <= 1
    requires IsPow2(|players|)
    ensures Initial(rounds, players)
    ensures |rounds| == Log2(|players|) && Pow2(|rounds|) == |players|
    ensures forall r :: 0 <= r < |rounds| ==> |rounds[r]| * Pow2(r + 1) == |players|
  {
    assert |entrants| == 1;
    assert Pow2(Log2(|players|)) == Pow2(|rounds|);
    Pow2Injective(Log2(|players|), |rounds|);
  }

  lemma {:induction false} Pow2Injective(j: nat, k: nat)
    requires Pow2(j) == Pow2(k)
    ensures j == k
  {
    if j > 0 && k > 0 {
      Pow2Injective(j - 1, k - 1);
    }
  }

  // ---------------------------------------------------------------------------
  // Scheduling

  predicate Decided(m: Match) {
    m.winner.Some?
  }

  predicate ValidPos(b: Bracket, p: Position) {
    p.round < |b| && p.index < |b[p.round]|
  }

  /** Row-major order: earlier round first, then lower match index. */
  predicate Before(r: nat, i: nat, p: Position) {
    r < p.round || (r == p.round && i < p.index)
  }

  ghost predicate AllDecided(b: Bracket) {
    forall r, i :: 0 <= r < |b| && 0 <= i < |b[r]| ==> Decided(b[r][i])
  }

  /** `p` is the first undecided match in row-major order. */
  ghost predicate IsNext(b: Bracket, p: Position) {
    && ValidPos(b, p)
    && !Decided(b[p.round][p.index])
    && forall r, i :: 0 <= r < |b| && 0 <= i < |b[r]| && Before(r, i, p) ==> Decided(b[r][i])
  }

  /** Scans rounds in order, and matches within a round in order, for the first match
      without a winner; `None` when every match has one. */
  method FindNextMatch(b: Bracket) returns (next: Option<Position>)
    ensures next.None? <==> AllDecided(b)
    ensures next.Some? ==> IsNext(b, next.value)
  {
    var r := 0;
    while r < |b|
      invariant 0 <= r <= |b|
      invariant forall r', i :: 0 <= r' < r && 0 <= i < |b[r']| ==> Decided(b[r'][i])
    {
      var m := 0;
      while m < |b[r]|
        invariant 0 <= m <= |b[r]|
        invariant forall i :: 0 <= i < m ==> Decided(b[r][i])
      {
        if !Decided(b[r][m]) {
          return Some(Position(r, m));
        }
        m := m + 1;
      }
      r := r + 1;
    }
    return None;
  }

  // ---------------------------------------------------------------------------
  // Recording a result

  /** What a slot of round `r` holds, given the match `m` that feeds it: that match's winner
      once there is one, the stand-in until then. */
  function Feed(m: Match, r: nat, i: nat): Slot {
    if m.winner.Some? then m.winner.value else Placeholder(r, i)
  }

  /** Writes `w` as the winner of match `m` of round `r` and, unless `r` is the last round,
      into slot `a` (even `m`) or `b` (odd `m`) of match `m / 2` of the next round. */
  function RecordWinner(b: Bracket, r: nat, m: nat, w: Slot): (b': Bracket)
    requires r < |b| && m < |b[r]|
    requires r + 1 < |b| ==> m / 2 < |b[r + 1]|
    ensures |b'| == |b|
    ensures forall k :: 0 <= k < |b| ==> |b'[k]| == |b[k]|
    ensures b'[r][m] == b[r][m].(winner := Some(w))
    ensures r + 1 < |b| && m % 2 == 0 ==> b'[r + 1][m / 2] == b[r + 1][m / 2].(a := w)
    ensures r + 1 < |b| && m % 2 == 1 ==> b'[r + 1][m / 2] == b[r + 1][m / 2].(b := w)
    ensures forall k, j :: 0 <= k < |b| && 0 <= j < |b[k]| && !(k == r && j == m) && !(k == r + 1 && j == m / 2) ==>
              b'[k][j] == b[k][j]
  {
    var decided := b[r := b[r][m := b[r][m].(winner := Some(w))]];
    if r + 1 < |b| then
      var next := decided[r + 1][m / 2];
      decided[r + 1 := decided[r + 1][m / 2 := if m % 2 == 0 then next.(a := w) else next.(b := w)]]
    else
      decided
  }

  // ---------------------------------------------------------------------------
  // The champion

  /** The final's winner, falling back to its slot `a`; `None` when there is no final. */
  function FindChampion(b: Bracket): (c: Option<Slot>)
    ensures c.None? <==> |b| == 0 || |b[|b| - 1]| == 0
    ensures c.Some? && Decided(b[|b| - 1][0]) ==> c == b[|b| - 1][0].winner
    ensures c.Some? && !Decided(b[|b| - 1][0]) ==> c == Some(b[|b| - 1][0].a)
  {
    if |b| == 0 || |b[|b| - 1]| == 0 then None
    else
      var final := b[|b| - 1][0];
      if final.winner.Some? then final.winner else Some(final.a)
  }

  // ---------------------------------------------------------------------------
  // The bracket invariant

  /** Both slots of match `i` of round `r` hold what the two matches below it feed them. */
  predicate SlotsFed(b: Bracket, r: nat, i: nat) {
    && 0 < r < |b| && i < |b[r]| && 2 * i + 1 < |b[r - 1]|
    && b[r][i].a == Feed(b[r - 1][2 * i], r, 2 * i)
    && b[r][i].b == Feed(b[r - 1][2 * i + 1], r, 2 * i + 1)
  }

  /** A decided match was played between two real players and one of them won. */
  predicate WellDecided(m: Match) {
    Decided(m) ==> m.a.Real? && m.b.Real? && (m.winner.value == m.a || m.winner.value == m.b)
  }

  /** The state every bracket of a running tournament is in: its shape, round 0 holding the
      players in order, every later slot fed by the match below it, and every result legal. */
  ghost predicate Consistent(b: Bracket, players: seq<Player>) {
    && Shaped(b, |players|)
    && (|b| > 0 ==> forall i :: 0 <= i < |b[0]| ==>
          b[0][i].a == Real(players[2 * i]) && b[0][i].b == Real(players[2 * i + 1]))
    && (forall r, i :: 0 < r < |b| && 0 <= i < |b[r]| ==> SlotsFed(b, r, i))
    && (forall r, i :: 0 <= r < |b| && 0 <= i < |b[r]| ==> WellDecided(b[r][i]))
  }

  lemma InitialIsConsistent(b: Bracket, players: seq<Player>)
    requires Initial(b, players)
    ensures Consistent(b, players)
  {
  }

  /** Shape in terms of powers of two: `k` rounds for `2^k` players, round `r` with
      `n / 2^(r+1)` matches. */
  lemma {:induction false} ShapedSizes(b: Bracket, n: nat, r: nat)
    requires Shaped(b, n) && r < |b|
    ensures |b[r]| * Pow2(r + 1) == n
  {
    if r > 0 {
      ShapedSizes(b, n, r - 1);
      assert |b[r - 1]| == 2 * |b[r]|;
      assert |b[r]| * Pow2(r + 1) == |b[r]| * (2 * Pow2(r)) == (2 * |b[r]|) * Pow2(r);
    }
  }

  /** The next match to play is between two real players: stand-ins have all been replaced. */
  lemma NextMatchIsPlayable(b: Bracket, players: seq<Player>, p: Position)
    requires Consistent(b, players) && IsNext(b, p)
    ensures b[p.round][p.index].a.Real? && b[p.round][p.index].b.Real?
  {
    var r, i := p.round, p.index;
    if r > 0 {
      assert SlotsFed(b, r, i);
      assert Before(r - 1, 2 * i, p) && Before(r - 1, 2 * i + 1, p);
      assert WellDecided(b[r - 1][2 * i]) && WellDecided(b[r - 1][2 * i + 1]);
    }
  }

  /** Recording a winner of the next match, one of its two players, keeps the bracket consistent. */
  lemma RecordWinnerKeepsConsistent(b: Bracket, players: seq<Player>, p: Position, w: Slot)
    requires Consistent(b, players) && IsNext(b, p)
    requires w == b[p.round][p.index].a || w == b[p.round][p.index].b
    ensures p.round + 1 < |b| ==> p.index / 2 < |b[p.round + 1]|
    ensures Consistent(RecordWinner(b, p.round, p.index, w), players)
  {
    var r, m := p.round, p.index;
    NextTargetOpen(b, players, p);
    var b': Bracket := RecordWinner(b, r, m, w);
    forall k, j | 0 < k < |b'| && 0 <= j < |b'[k]|
      ensures SlotsFed(b', k, j)
    {
      assert SlotsFed(b, k, j);
      RecordWinnerKeepsFed(b, r, m, w, k, j);
    }
    forall k, j | 0 <= k < |b'| && 0 <= j < |b'[k]|
      ensures WellDecided(b'[k][j])
    {
      assert WellDecided(b[k][j]);
      RecordWinnerKeepsWellDecided(b, r, m, w, k, j);
    }
  }

  /** The match of the next round that the next match feeds exists and is still open, and
      the next match itself is between two real players. */
  lemma NextTargetOpen(b: Bracket, players: seq<Player>, p: Position)
    requires Consistent(b, players) && IsNext(b, p)
    ensures b[p.round][p.index].a.Real? && b[p.round][p.index].b.Real?
    ensures p.round + 1 < |b| ==> p.index / 2 < |b[p.round + 1]| && !Decided(b[p.round + 1][p.index / 2])
  {
    var r, m := p.round, p.index;
    NextMatchIsPlayable(b, players, p);
    if r + 1 < |b| {
      assert |b[r]| == 2 * |b[r + 1]|;
      var j := m / 2;
      assert SlotsFed(b, r + 1, j);
      assert m == 2 * j || m == 2 * j + 1;
      assert WellDecided(b[r + 1][j]);
    }
  }

  /** Recording a winner keeps the slots of match `j` of round `k` fed by the matches below it. */
  lemma RecordWinnerKeepsFed(b: Bracket, r: nat, m: nat, w: Slot, k: nat, j: nat)
    requires r < |b| && m < |b[r]| && (r + 1 < |b| ==> m / 2 < |b[r + 1]|)
    requires !Decided(b[r][m]) && (r + 1 < |b| ==> !Decided(b[r + 1][m / 2]))
    requires SlotsFed(b, k, j)
    ensures SlotsFed(RecordWinner(b, r, m, w), k, j)
  {
    var b': Bracket := RecordWinner(b, r, m, w);
    assert b'[k - 1][2 * j].winner == (if k - 1 == r && 2 * j == m then Some(w) else b[k - 1][2 * j].winner);
    assert b'[k - 1][2 * j + 1].winner == (if k - 1 == r && 2 * j + 1 == m then Some(w) else b[k - 1][2 * j + 1].winner);
  }

  /** Recording one of the two real players of an open match as its winner keeps every
      result legal. */
  lemma RecordWinnerKeepsWellDecided(b: Bracket, r: nat, m: nat, w: Slot, k: nat, j: nat)
    requires r < |b| && m < |b[r]| && (r + 1 < |b| ==> m / 2 < |b[r + 1]|)
    requires b[r][m].a.Real? && b[r][m].b.Real? && (w == b[r][m].a || w == b[r][m].b)
    requires r + 1 < |b| ==> !Decided(b[r + 1][m / 2])
    requires k < |b| && j < |b[k]| && WellDecided(b[k][j])
    ensures WellDecided(RecordWinner(b, r, m, w)[k][j])
  {
  }

  /** A decided match in a later round was fed by two decided matches, and its winner
      is the winner of one of them. */
  lemma FeedersDecided(b: Bracket, players: seq<Player>, r: nat, i: nat)
    requires Consistent(b, players) && 0 < r < |b| && i < |b[r]| && Decided(b[r][i])
    ensures 2 * i + 1 < |b[r - 1]|
    ensures Decided(b[r - 1][2 * i]) && Decided(b[r - 1][2 * i + 1])
    ensures b[r][i].winner == b[r - 1][2 * i].winner || b[r][i].winner == b[r - 1][2 * i + 1].winner
  {
    assert SlotsFed(b, r, i);
    assert WellDecided(b[r][i]);
  }

  /** Once the final is decided, every match below it is decided too. */
  lemma {:induction false} DecidedBelowFinal(b: Bracket, players: seq<Player>, r: nat, i: nat)
    requires Consistent(b, players) && r < |b| && i < |b[r]| && Decided(b[|b| - 1][0])
    ensures Decided(b[r][i])
    decreases |b| - r
  {
    if r == |b| - 1 {
      assert i == 0;
    } else {
      assert |b[r]| == 2 * |b[r + 1]|;
      DecidedBelowFinal(b, players, r + 1, i / 2);
      FeedersDecided(b, players, r + 1, i / 2);
    }
  }

  /** The tournament is over exactly when its final has a winner. */
  lemma CompleteIffFinalDecided(b: Bracket, players: seq<Player>)
    requires Consistent(b, players) && |b| > 0
    ensures AllDecided(b) <==> Decided(b[|b| - 1][0])
  {
    if Decided(b[|b| - 1][0]) {
      forall r, i | 0 <= r < |b| && 0 <= i < |b[r]|
        ensures Decided(b[r][i])
      {
        DecidedBelowFinal(b, players, r, i);
      }
    }
  }

  /** Player `s` won some match of round `r`. */
  ghost predicate WonInRound(b: Bracket, r: nat, s: Slot)
    requires r < |b|
  {
    exists i :: 0 <= i < |b[r]| && b[r][i].winner == Some(s)
  }

  /** The winner of a match also won a match in every earlier round. */
  lemma {:induction false} WinnerTrace(b: Bracket, players: seq<Player>, r: nat, i: nat)
    requires Consistent(b, players) && r < |b| && i < |b[r]| && Decided(b[r][i])
    ensures forall k :: 0 <= k <= r ==> WonInRound(b, k, b[r][i].winner.value)
    ensures exists j :: 0 <= j < |players| && b[r][i].winner == Some(Real(players[j]))
  {
    var s := b[r][i].winner.value;
    if r == 0 {
      assert WonInRound(b, 0, s);
      assert WellDecided(b[0][i]);
      assert s == Real(players[2 * i]) || s == Real(players[2 * i + 1]);
    } else {
      FeedersDecided(b, players, r, i);
      var j := if b[r][i].winner == b[r - 1][2 * i].winner then 2 * i else 2 * i + 1;
      WinnerTrace(b, players, r - 1, j);
      assert WonInRound(b, r, s);
    }
  }

  /** When every match is decided, the champion is the final's winner: a real player of the
      tournament who won a match in every round. */
  lemma ChampionWonEveryRound(b: Bracket, players: seq<Player>)
    requires Consistent(b, players) && AllDecided(b) && |b| > 0
    ensures FindChampion(b) == b[|b| - 1][0].winner
    ensures forall r :: 0 <= r < |b| ==> WonInRound(b, r, FindChampion(b).value)
    ensures exists j :: 0 <= j < |players| && FindChampion(b) == Some(Real(players[j]))
  {
    assert Decided(b[|b| - 1][0]);
    WinnerTrace(b, players, |b| - 1, 0);
  }

  // ---------------------------------------------------------------------------
  // Counting matches and results

  function MatchCount(b: Bracket): nat {
    if |b| == 0 then 0 else |b[0]| + MatchCount(b[1..])
  }

  /** A tournament of `n` players has `n - 1` matches. */
  lemma {:induction false} MatchCountOfShaped(b: Bracket, n: nat)
    requires Shaped(b, n)
    ensures MatchCount(b) == n - 1
  {
    if |b| > 0 {
      var rest := b[1..];
      assert Shaped(rest, |b[0]|) by {
        forall r | 0 < r < |rest|
          ensures |rest[r - 1]| == 2 * |rest[r]|
        {
          assert rest[r - 1] == b[r] && rest[r] == b[r + 1];
        }
        if |rest| > 0 {
          assert |b[0]| == 2 * |b[1]|;
        }
      }
      MatchCountOfShaped(rest, |b[0]|);
    }
  }

  function DecidedInRound(row: seq<Match>): nat {
    if row == [] then 0 else (if Decided(row[0]) then 1 else 0) + DecidedInRound(row[1..])
  }

  /** The number of results recorded so far. */
  function DecidedCount(b: Bracket): nat {
    if b == [] then 0 else DecidedInRound(b[0]) + DecidedCount(b[1..])
  }

  lemma {:induction false} DecidedInRoundUpdate(row: seq<Match>, m: nat, x: Match)
    requires m < |row|
    ensures DecidedInRound(row[m := x]) + (if Decided(row[m]) then 1 else 0)
         == DecidedInRound(row) + (if Decided(x) then 1 else 0)
  {
    if m == 0 {
      assert row[m := x][1..] == row[1..];
    } else {
      assert row[m := x][1..] == row[1..][m - 1 := x];
      DecidedInRoundUpdate(row[1..], m - 1, x);
    }
  }

  lemma {:induction false} DecidedCountUpdate(b: Bracket, k: nat, row: seq<Match>)
    requires k < |b|
    ensures DecidedCount(b[k := row]) + DecidedInRound(b[k]) == DecidedCount(b) + DecidedInRound(row)
  {
    if k == 0 {
      assert b[k := row][1..] == b[1..];
    } else {
      assert b[k := row][1..] == b[1..][k - 1 := row];
      DecidedCountUpdate(b[1..], k - 1, row);
    }
  }

  /** Recording the winner of an undecided match adds exactly one result. */
  lemma RecordWinnerAddsOneResult(b: Bracket, r: nat, m: nat, w: Slot)
    requires r < |b| && m < |b[r]| && !Decided(b[r][m])
    requires r + 1 < |b| ==> m / 2 < |b[r + 1]|
    ensures DecidedCount(RecordWinner(b, r, m, w)) == DecidedCount(b) + 1
  {
    var row := b[r][m := b[r][m].(winner := Some(w))];
    var b1: Bracket := b[r := row];
    DecidedInRoundUpdate(b[r], m, b[r][m].(winner := Some(w)));
    DecidedCountUpdate(b, r, row);
    if r + 1 < |b| {
      var next: Match := b1[r + 1][m / 2];
      var next' := if m % 2 == 0 then next.(a := w) else next.(b := w);
      DecidedInRoundUpdate(b1[r + 1], m / 2, next');
      DecidedCountUpdate(b1, r + 1, b1[r + 1][m / 2 := next']);
    }
  }

  lemma {:induction false} DecidedInRoundFull(row: seq<Match>)
    ensures DecidedInRound(row) <= |row|
    ensures DecidedInRound(row) == |row| <==> forall i :: 0 <= i < |row| ==> Decided(row[i])
  {
    if row != [] {
      DecidedInRoundFull(row[1..]);
      if forall i :: 0 <= i < |row| ==> Decided(row[i]) {
        assert forall i :: 0 <= i < |row[1..]| ==> Decided(row[1..][i]) by {
          forall i | 0 <= i < |row[1..]|
            ensures Decided(row[1..][i])
          {
            assert row[1..][i] == row[i + 1];
          }
        }
      }
    }
  }

  /** Never more results than matches, and as many exactly when every match is decided. */
  lemma {:induction false} DecidedCountFull(b: Bracket)
    ensures DecidedCount(b) <= MatchCount(b)
    ensures DecidedCount(b) == MatchCount(b) <==> AllDecided(b)
  {
    if b != [] {
      DecidedInRoundFull(b[0]);
      DecidedCountFull(b[1..]);
      if AllDecided(b) {
        assert AllDecided(b[1..]) by {
          forall r, i | 0 <= r < |b[1..]| && 0 <= i < |b[1..][r]|
            ensures Decided(b[1..][r][i])
          {
            assert b[1..][r] == b[r + 1];
          }
        }
      }
      if DecidedCount(b) == MatchCount(b) {
        forall r, i | 0 <= r < |b| && 0 <= i < |b[r]|
          ensures Decided(b[r][i])
        {
          if r > 0 {
            assert b[1..][r - 1] == b[r];
          }
        }
      }
    }
  }

  /** A tournament of `n` players is over exactly when `n - 1` results have been recorded. */
  lemma CompleteAfterAllResults(b: Bracket, players: seq<Player>)
    requires Consistent(b, players)
    ensures DecidedCount(b) <= |players| - 1
    ensures AllDecided(b) <==> DecidedCount(b) == |players| - 1
  {
    MatchCountOfShaped(b, |players|);
    DecidedCountFull(b);
  }
}
