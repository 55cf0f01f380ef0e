/** The players of a tournament: their ids, their display names and the human entrant. */
module Roster {

  /** A competitor. The CPU skill (a random float) is not part of the model. */
  datatype Player = Player(id: nat, name: string)

  /** The name that marks the human entrant. */
  const HUMAN: string := "Toi"

  /** The sixteen base names, reused cyclically. */
  const BASE_NAMES: seq<string> := [
    "Toi", "A.Kova", "B.Rossi", "C.Smith", "D.NadalFan", "E.Muller", "F.Ito", "G.Perez",
    "H.Lee", "I.Kim", "J.Ochoa", "K.Popov", "L.Garcia", "M.Santos", "N.Harris", "O.Zhou"
  ]

  predicate IsDigit(c: char) {
    '0' <= c <= '9'
  }

  /** The value of a digit character. */
  function DigitValue(c: char): nat
    requires IsDigit(c)
  {
    (c as int - '0' as int) as nat
  }

  /** The number a string of decimal digits denotes. */
  function DigitsValue(s: string): nat
    requires forall k :: 0 <= k < |s| ==> IsDigit(s[k])
  {
    if s == [] then 0 else 10 * DigitsValue(s[..|s| - 1]) + DigitValue(s[|s| - 1])
  }

  /** The decimal notation of `n`, as a template literal prints it: it reads back as `n`. */
  function Decimal(n: nat): (s: string)
    ensures |s| >= 1
    ensures forall k :: 0 <= k < |s| ==> IsDigit(s[k])
    ensures n < 10 <==> |s| == 1
    ensures DigitsValue(s) == n
  {
    if n < 10 then ["0123456789"[n]] else Decimal(n / 10) + ["0123456789"[n % 10]]
  }

  /** Different numbers have different decimal notations, so the ` #i` suffixes differ. */
  lemma DecimalInjective(m: nat, n: nat)
    requires Decimal(m) == Decimal(n)
    ensures m == n
  {
    assert DigitsValue(Decimal(m)) == m;
  }

  /** The name player `i` is given before player 0 is renamed. */
  function DefaultName(i: nat): string {
    BASE_NAMES[i % |BASE_NAMES|] + (if i == 0 then "" else " #" + Decimal(i))
  }

  /** Creates `n` players with ids `0..n-1`; player 0 is then renamed to the human's name. */
  method GeneratePlayers(n: nat) returns (players: seq<Player>)
    requires n >= 1
    ensures |players| == n
    ensures forall i :: 0 <= i < n ==> players[i].id == i
    ensures players[0].name == HUMAN
    ensures forall i :: 0 < i < n ==> players[i].name == DefaultName(i)
    ensures forall i :: 0 <= i < n ==> (players[i].name == HUMAN <==> i == 0)
  {
    players := [];
    var i := 0;
    while i < n
      invariant 0 <= i <= n
      invariant |players| == i
      invariant forall k :: 0 <= k < i ==> players[k] == Player(k, DefaultName(k))
    {
      players := players + [Player(i, DefaultName(i))];
      i := i + 1;
    }
    players := players[0 := players[0].(name := HUMAN)];
    forall k | 0 < k < n
      ensures players[k].name != HUMAN
    {
      assert |players[k].name| >= |BASE_NAMES[k % |BASE_NAMES|]| + 3;
    }
  }
}
