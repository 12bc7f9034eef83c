/** Who won: one game from its final scores and the seating, and the tournament
    from the winners of its games. */
module Verdict {
  import opened ScoreParser

  /** The two competitors of a tournament. */
  datatype Player = MyPlayer | RandomPlayer

  /** The other competitor. */
  function Opponent(p: Player): (q: Player)
    ensures q != p
  {
    match p
    case MyPlayer => RandomPlayer
    case RandomPlayer => MyPlayer
  }

  /** The result of a game or of a tournament: a winner, or a draw. */
  datatype Outcome = Win(winner: Player) | Draw

  /** Who plays black and who plays white in one game. */
  datatype Seats = Seats(black: Player, white: Player)

  /** The seating of the two games of a tournament: the random player opens with
      black, then the colours are swapped. */
  const Assignments: seq<Seats> := [Seats(RandomPlayer, MyPlayer), Seats(MyPlayer, RandomPlayer)]

  /** The same game with the colours changed over. */
  function SwapSeats(seats: Seats): (t: Seats)
    ensures t.black == seats.white && t.white == seats.black
  {
    Seats(seats.white, seats.black)
  }

  /** The same final board read with the colours changed over. */
  function SwapScores(s: ScorePair): (t: ScorePair)
    ensures t.black == s.white && t.white == s.black
  {
    ScorePair(s.white, s.black)
  }

  /** The other competitor's win; a draw stays a draw. */
  function Flip(o: Outcome): (f: Outcome)
    ensures f.Draw? <==> o.Draw?
    ensures o.Win? ==> f.winner != o.winner
  {
    match o
    case Win(p) => Win(Opponent(p))
    case Draw => Draw
  }

  /** The verdict of one game: the colour with the strictly higher final score wins,
      equal scores are a draw. The winner is always one of the two seated players. */
  function GameOutcome(s: ScorePair, seats: Seats): (o: Outcome)
    ensures o.Draw? <==> s.black == s.white
    ensures o.Win? ==> o.winner == seats.black || o.winner == seats.white
  {
    if s.white > s.black then Win(seats.white)
    else if s.black > s.white then Win(seats.black)
    else Draw
  }

  /** With two different players seated, white wins exactly when its score is higher,
      and black wins exactly when its score is higher. */
  lemma GameOutcomeIff(s: ScorePair, seats: Seats)
    requires seats.black != seats.white
    ensures GameOutcome(s, seats) == Win(seats.white) <==> s.white > s.black
    ensures GameOutcome(s, seats) == Win(seats.black) <==> s.black > s.white
    ensures GameOutcome(s, seats) == Draw <==> s.black == s.white
  {
  }

  /** Swapping the two scores hands the game to the other colour. */
  lemma SwapScoresSwapsWinner(s: ScorePair, seats: Seats)
    requires seats.white == Opponent(seats.black)
    ensures GameOutcome(SwapScores(s), seats) == Flip(GameOutcome(s, seats))
  {
  }

  /** The colours are a label only: the same scores with players and scores both
      swapped give the same verdict. */
  lemma SwapBoth(s: ScorePair, seats: Seats)
    ensures GameOutcome(SwapScores(s), SwapSeats(seats)) == GameOutcome(s, seats)
  {
  }

  /** The role swap of the two-game tournament: each game seats both players, and
      each player plays black in one game and white in the other. */
  lemma RoleSwap()
    ensures |Assignments| == 2
    ensures Assignments[0].white == Opponent(Assignments[0].black)
    ensures Assignments[1] == SwapSeats(Assignments[0])
    ensures {Assignments[0].black, Assignments[1].black} == {MyPlayer, RandomPlayer}
    ensures {Assignments[0].white, Assignments[1].white} == {MyPlayer, RandomPlayer}
  {
  }

  /** The number of occurrences of `o` in `rs`. */
  function Count(rs: seq<Outcome>, o: Outcome): (c: nat)
    ensures c == multiset(rs)[o]
    ensures c <= |rs|
  {
    if rs == [] then 0
    else
      assert rs == [rs[0]] + rs[1..];
      (if rs[0] == o then 1 else 0) + Count(rs[1..], o)
  }

  /** The tournament verdict: the player with strictly more game wins wins the
      tournament; equal numbers of wins (draws counting for nobody) give a draw. */
  function TournamentWinner(rs: seq<Outcome>): (w: Outcome)
    ensures w == Win(MyPlayer) <==> multiset(rs)[Win(MyPlayer)] > multiset(rs)[Win(RandomPlayer)]
    ensures w == Win(RandomPlayer) <==> multiset(rs)[Win(RandomPlayer)] > multiset(rs)[Win(MyPlayer)]
    ensures w == Draw <==> multiset(rs)[Win(MyPlayer)] == multiset(rs)[Win(RandomPlayer)]
  {
    var mine, theirs := Count(rs, Win(MyPlayer)), Count(rs, Win(RandomPlayer));
    if mine > theirs then Win(MyPlayer)
    else if theirs > mine then Win(RandomPlayer)
    else Draw
  }

  /** The verdict depends on how many games each player won, not on their order. */
  lemma WinnerIgnoresOrder(rs: seq<Outcome>, rs': seq<Outcome>)
    requires multiset(rs) == multiset(rs')
    ensures TournamentWinner(rs) == TournamentWinner(rs')
  {
  }

  /** Drawn games count for nobody: adding a draw never changes the verdict. */
  lemma DrawsDoNotCount(rs: seq<Outcome>)
    ensures TournamentWinner(rs + [Draw]) == TournamentWinner(rs)
  {
    assert multiset(rs + [Draw]) == multiset(rs) + multiset{Draw};
  }

  /** The verdict of a two-game tournament in closed form: a player who wins both
      games, or wins one and draws the other, wins; one win each, or two draws, is a
      draw. */
  lemma TwoGameVerdict(a: Outcome, b: Outcome)
    ensures TournamentWinner([a, b]) ==
      if a == b then a
      else if a.Draw? then b
      else if b.Draw? then a
      else Draw
  {
    var m := multiset([a, b]);
    assert m == multiset{a} + multiset{b};
    var mine, theirs := Win(MyPlayer), Win(RandomPlayer);
    assert m[mine] == (if a == mine then 1 else 0) + (if b == mine then 1 else 0);
    assert m[theirs] == (if a == theirs then 1 else 0) + (if b == theirs then 1 else 0);
    if a.Win? && a.winner == MyPlayer {
      assert a == mine;
    } else if a.Win? {
      assert a == theirs;
    }
    if b.Win? && b.winner == MyPlayer {
      assert b == mine;
    } else if b.Win? {
      assert b == theirs;
    }
  }

  /** Worked verdicts: two wins, one win each, two draws, a win and a draw. */
  lemma VerdictExamples()
    ensures TournamentWinner([Win(MyPlayer), Win(MyPlayer)]) == Win(MyPlayer)
    ensures TournamentWinner([Win(MyPlayer), Win(RandomPlayer)]) == Draw
    ensures TournamentWinner([Draw, Draw]) == Draw
    ensures TournamentWinner([Win(MyPlayer), Draw]) == Win(MyPlayer)
  {
    TwoGameVerdict(Win(MyPlayer), Win(MyPlayer));
    TwoGameVerdict(Win(MyPlayer), Win(RandomPlayer));
    TwoGameVerdict(Draw, Draw);
    TwoGameVerdict(Win(MyPlayer), Draw);
  }

  /** The role swap makes the two-game format fair: if both games end with the same
      black and white scores, each player won with the same colour once (or both
      games were drawn), so the tournament is a draw. */
  lemma SameScoresDraw(s: ScorePair)
    ensures TournamentWinner([GameOutcome(s, Assignments[0]), GameOutcome(s, Assignments[1])]) == Draw
  {
    TwoGameVerdict(GameOutcome(s, Assignments[0]), GameOutcome(s, Assignments[1]));
  }

  /** My player takes the tournament when it wins both games: the first with the
      white pieces, the second with the black pieces. */
  lemma SweepWins(s0: ScorePair, s1: ScorePair)
    requires s0.white > s0.black && s1.black > s1.white
    ensures TournamentWinner([GameOutcome(s0, Assignments[0]), GameOutcome(s1, Assignments[1])]) == Win(MyPlayer)
  {
    TwoGameVerdict(Win(MyPlayer), Win(MyPlayer));
  }
}
