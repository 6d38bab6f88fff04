/**
 * Day 2 of src/advent.rs: rock-paper-scissors rounds, the outcome table
 * and the score of each round (`two1`).
 */
module AdventRps {
  import opened Wrappers
  import opened RustStr
  import opened RustSlice

  datatype Move = Rock | Paper | Scissors

  datatype Outcome = Win | Lose | Draw

  /** `From<&Move> for u64`. */
  function MoveScore(m: Move): (r: nat)
    ensures 1 <= r <= 3
  {
    match m
    case Rock => 1
    case Paper => 2
    case Scissors => 3
  }

  /** Different moves score differently. */
  lemma MoveScoreInjective(a: Move, b: Move)
    ensures MoveScore(a) == MoveScore(b) <==> a == b
  {
  }

  /** `From<Outcome> for u64`. */
  function OutcomeScore(o: Outcome): (r: nat)
    ensures r == 0 || r == 3 || r == 6
    ensures (r == 6 <==> o == Win) && (r == 0 <==> o == Lose)
  {
    match o
    case Lose => 0
    case Draw => 3
    case Win => 6
  }

  /** `From<&str> for Move`; the panic on any other string is None. */
  function ParseMove(s: string): Option<Move> {
    if s == "A" || s == "X" then Some(Rock)
    else if s == "B" || s == "Y" then Some(Paper)
    else if s == "C" || s == "Z" then Some(Scissors)
    else None
  }

  /** The opponent's letter for a move. */
  function OpponentCode(m: Move): string {
    match m
    case Rock => "A"
    case Paper => "B"
    case Scissors => "C"
  }

  /** The player's letter for a move. */
  function PlayerCode(m: Move): string {
    match m
    case Rock => "X"
    case Paper => "Y"
    case Scissors => "Z"
  }

  /** Both letters of a move parse back to it, and no other string parses. */
  lemma ParseMoveCodes(s: string)
    ensures forall m :: ParseMove(OpponentCode(m)) == Some(m) && ParseMove(PlayerCode(m)) == Some(m)
    ensures ParseMove(s).Some? <==> exists m :: s == OpponentCode(m) || s == PlayerCode(m)
  {
    if ParseMove(s).Some? {
      var m := ParseMove(s).value;
      assert s == OpponentCode(m) || s == PlayerCode(m);
    }
  }

  /** `player_outcome`: the result of the round for the player. */
  function PlayerOutcome(player: Move, opp: Move): Outcome {
    match (player, opp)
    case (Rock, Rock) => Draw
    case (Rock, Paper) => Lose
    case (Rock, Scissors) => Win
    case (Paper, Rock) => Win
    case (Paper, Paper) => Draw
    case (Paper, Scissors) => Lose
    case (Scissors, Rock) => Lose
    case (Scissors, Paper) => Win
    case (Scissors, Scissors) => Draw
  }

  /** A draw exactly when both play the same move. */
  lemma DrawIffSameMove(player: Move, opp: Move)
    ensures PlayerOutcome(player, opp) == Draw <==> player == opp
  {
  }

  /** One side wins exactly when the other loses. */
  lemma WinIffOtherLoses(player: Move, opp: Move)
    ensures PlayerOutcome(player, opp) == Win <==> PlayerOutcome(opp, player) == Lose
    ensures PlayerOutcome(player, opp) == Lose <==> PlayerOutcome(opp, player) == Win
  {
  }

  /**
   * The table agrees with the cyclic rule: each move beats the one before
   * it in the order rock, paper, scissors.
   */
  lemma OutcomeIsCyclic(player: Move, opp: Move)
    ensures PlayerOutcome(player, opp) ==
      var d := (MoveScore(player) - MoveScore(opp)) % 3;
      if d == 0 then Draw else if d == 1 then Win else Lose
  {
  }

  /** The score of one round: the opponent's move first, the player's last. */
  function RoundScore(round: seq<Move>): (r: nat)
    requires |round| >= 1
    ensures 1 <= r <= 9
    ensures r == MoveScore(round[|round| - 1]) + OutcomeScore(PlayerOutcome(round[|round| - 1], round[0]))
  {
    var opp := round[0];
    var player := round[|round| - 1];
    MoveScore(player) + OutcomeScore(PlayerOutcome(player, opp))
  }

  /** A round's score tells which move the player chose and how the round ended. */
  lemma RoundScoreDecodes(round: seq<Move>, other: seq<Move>)
    requires |round| >= 1 && |other| >= 1
    requires RoundScore(round) == RoundScore(other)
    ensures round[|round| - 1] == other[|other| - 1]
    ensures PlayerOutcome(round[|round| - 1], round[0]) == PlayerOutcome(other[|other| - 1], other[0])
  {
    var p, q := round[|round| - 1], other[|other| - 1];
    var o, u := PlayerOutcome(p, round[0]), PlayerOutcome(q, other[0]);
    assert OutcomeScore(o) - OutcomeScore(u) == MoveScore(q) - MoveScore(p);
    MoveScoreInjective(p, q);
  }

  /** `compute_round_scores`: an empty round would panic on `unwrap`. */
  function ComputeRoundScores(rounds: seq<seq<Move>>): (r: seq<nat>)
    requires forall i :: 0 <= i < |rounds| ==> |rounds[i]| >= 1
    ensures |r| == |rounds|
    ensures forall i :: 0 <= i < |rounds| ==> r[i] == RoundScore(rounds[i]) && 1 <= r[i] <= 9
  {
    seq(|rounds|, i requires 0 <= i < |rounds| => RoundScore(rounds[i]))
  }

  /** The moves of one line; a string that is not a move would panic. */
  function ParseRound(line: string): (r: Option<seq<Move>>)
    ensures r.Some? ==> |r.value| == |Split(line, ' ')|
  {
    ParseMoves(Split(line, ' '))
  }

  function ParseMoves(words: seq<string>): (r: Option<seq<Move>>)
    ensures r.Some? ==> |r.value| == |words|
    ensures r.Some? ==> forall i :: 0 <= i < |words| ==> ParseMove(words[i]) == Some(r.value[i])
    ensures r.None? ==> exists i :: 0 <= i < |words| && ParseMove(words[i]).None?
  {
    if |words| == 0 then Some([])
    else
      var m :- ParseMove(words[0]);
      var rest :- ParseMoves(words[1..]);
      Some([m] + rest)
  }

  /** The rounds of the whole input, one per line. */
  function ParseRounds(lines: seq<string>): (r: Option<seq<seq<Move>>>)
    ensures r.Some? ==> |r.value| == |lines|
    ensures r.Some? ==> forall i :: 0 <= i < |lines| ==> |r.value[i]| >= 1
  {
    if |lines| == 0 then Some([])
    else
      var round :- ParseRound(lines[0]);
      var rest :- ParseRounds(lines[1..]);
      Some([round] + rest)
  }

  /** `two1` with the file's text as input: the total of all round scores. */
  function TwoOne(input: string): Option<nat> {
    var rounds :- ParseRounds(Split(Trim(input), '\n'));
    Some(Sum(ComputeRoundScores(rounds)))
  }

  /** Between one and nine points per round. */
  lemma {:induction false} SumOfScores(scores: seq<nat>)
    requires forall i :: 0 <= i < |scores| ==> 1 <= scores[i] <= 9
    ensures |scores| <= Sum(scores) <= 9 * |scores|
    decreases |scores|
  {
    if |scores| > 0 {
      SumOfScores(scores[1..]);
    }
  }

  /** The total of `two1` lies between one and nine points per line. */
  lemma TwoOneBounds(input: string)
    ensures TwoOne(input).Some? ==>
      var n := |Split(Trim(input), '\n')|; n <= TwoOne(input).value <= 9 * n
  {
    var rounds := ParseRounds(Split(Trim(input), '\n'));
    if rounds.Some? {
      SumOfScores(ComputeRoundScores(rounds.value));
    }
  }
}
