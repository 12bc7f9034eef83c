/** One tournament invocation: split the transcript into its two games, read the
    final scores of each, judge each game under its seating and the tournament
    from the games. */
module Tournament {
  import opened Results
  import opened Text
  import opened Segmenter
  import opened ScoreParser
  import opened Verdict

  /** What a successful tournament run reports: the verdict of each game in order,
      and the tournament verdict. */
  datatype RunResult = RunResult(games: seq<Outcome>, winner: Outcome)

  /** Judges the games in order, game `i` from its parsed scores under seating `i`.
      The first game whose scores could not be read aborts the run with its error. */
  function JudgeGames(parsed: seq<Result<ScorePair>>, seats: seq<Seats>): (r: Result<seq<Outcome>>)
    requires |parsed| <= |seats|
    ensures r.Success? <==> forall i :: 0 <= i < |parsed| ==> parsed[i].Success?
    ensures r.Failure? ==>
      exists i :: 0 <= i < |parsed| && parsed[i].Failure? && r.error == parsed[i].error &&
        forall j :: 0 <= j < i ==> parsed[j].Success?
    ensures r.Success? ==> |r.value| == |parsed|
    ensures r.Success? ==>
      forall i :: 0 <= i < |parsed| ==> r.value[i] == GameOutcome(parsed[i].value, seats[i])
  {
    if parsed == [] then Success([])
    else
      match parsed[0]
      case Failure(e) => Failure(e)
      case Success(s) =>
        match JudgeGames(parsed[1..], seats[1..])
        case Failure(e) =>
          assert forall i :: 1 <= i < |parsed| ==> parsed[i] == parsed[1..][i - 1];
          Failure(e)
        case Success(rest) => Success([GameOutcome(s, seats[0])] + rest)
  }

  /** A whole tournament run on the transcript `out`. A transcript without exactly
      two termination markers is rejected with the number of markers found; a game
      without both scores is rejected next; otherwise game `i` is judged from the
      last scores reported before its marker under seating `i`, and the tournament
      from the two game verdicts. */
  function RunTournament(out: string): (r: Result<RunResult>)
    ensures r.Failure? && r.error.UnexpectedGameCount? <==> !ExactlyTwo(out, Marker)
    ensures r.Failure? && r.error.UnexpectedGameCount? ==>
      r.error.found == |Occurrences(out, Marker)| && r.error.found != ExpectedGames
    ensures r.Failure? && !r.error.UnexpectedGameCount? ==> r.error == ScoreNotFound
    ensures r.Success? <==>
      && ExactlyTwo(out, Marker)
      && ParseScores(SplitGames(out).value[0]).Success?
      && ParseScores(SplitGames(out).value[1]).Success?
    ensures r.Success? ==>
      && |r.value.games| == ExpectedGames
      && r.value.games[0] == GameOutcome(ParseScores(SplitGames(out).value[0]).value, Assignments[0])
      && r.value.games[1] == GameOutcome(ParseScores(SplitGames(out).value[1]).value, Assignments[1])
      && r.value.winner == TournamentWinner(r.value.games)
  {
    var blocks :- SplitGames(out);
    JudgeBlocks(blocks)
  }

  /** The judging half of a run, on the two game segments in order. */
  function JudgeBlocks(blocks: seq<string>): (r: Result<RunResult>)
    requires |blocks| == ExpectedGames
    ensures r.Success? <==> ParseScores(blocks[0]).Success? && ParseScores(blocks[1]).Success?
    ensures r.Failure? ==> r.error == ScoreNotFound
    ensures r.Success? ==>
      && r.value.games == [GameOutcome(ParseScores(blocks[0]).value, Assignments[0]),
                           GameOutcome(ParseScores(blocks[1]).value, Assignments[1])]
      && r.value.winner == TournamentWinner(r.value.games)
  {
    var parsed := [ParseScores(blocks[0]), ParseScores(blocks[1])];
    match JudgeGames(parsed, Assignments)
    case Failure(e) => Failure(e)
    case Success(games) =>
      assert games == [games[0], games[1]];
      Success(RunResult(games, TournamentWinner(games)))
  }

  /** A final score report uses neither the marker's first character nor any
      character of the marker at its start. */
  lemma ReportAvoidsMarker(s: ScorePair)
    ensures Marker[0] !in Report(s)
    ensures Report(s)[0] !in Marker
  {
    var rb, rw := Render(s.black), Render(s.white);
    NotInDigits('I', rb);
    NotInDigits('I', rw);
    assert Report(s) == BlackKey + " " + rb + "\n" + WhiteKey + " " + rw + "\n";
    assert Report(s)[0] == 'B';
  }

  /** A game log free of the marker stays free of it once its final report is
      appended. */
  lemma GameFree(log: string, s: ScorePair)
    requires !Contains(log, Marker)
    ensures !Contains(log + Report(s), Marker)
  {
    ReportAvoidsMarker(s);
    AbsentFirst(Report(s), Marker);
    JoinFree(log, Report(s), Marker);
  }

  /** A run whose transcript splits into two games with readable scores is judged
      from those scores. */
  lemma RunOfGames(out: string, g0: string, g1: string, s0: ScorePair, s1: ScorePair)
    requires SplitGames(out) == Success([g0, g1])
    requires ParseScores(g0) == Success(s0) && ParseScores(g1) == Success(s1)
    ensures var games := [GameOutcome(s0, Assignments[0]), GameOutcome(s1, Assignments[1])];
      RunTournament(out) == Success(RunResult(games, TournamentWinner(games)))
  {
    var r := JudgeBlocks([g0, g1]);
    assert [g0, g1][0] == g0 && [g0, g1][1] == g1;
    assert r.Success?;
  }

  /** The transcript of `RunOfReports` regrouped into game, marker, game, marker,
      trailer, the shape `SplitJoin` expects. */
  lemma Regroup(l0: string, r0: string, m: string, l1: string, r1: string, tail: string)
    ensures l0 + r0 + m + l1 + r1 + m + tail == (l0 + r0) + m + (l1 + r1) + m + tail
  {
  }

  /** End to end: two games, each a marker-free log closed by its final score report
      and the marker, followed by marker-free trailing output, are judged from
      exactly the reported scores under the two seatings. */
  lemma RunOfReports(log0: string, log1: string, tail: string, s0: ScorePair, s1: ScorePair)
    requires !Contains(log0, Marker) && !Contains(log1, Marker) && !Contains(tail, Marker)
    ensures var games := [GameOutcome(s0, Assignments[0]), GameOutcome(s1, Assignments[1])];
      RunTournament(log0 + Report(s0) + Marker + log1 + Report(s1) + Marker + tail)
        == Success(RunResult(games, TournamentWinner(games)))
  {
    var g0, g1 := log0 + Report(s0), log1 + Report(s1);
    GameFree(log0, s0);
    GameFree(log1, s1);
    SplitJoin(g0, g1, tail);
    ParseReport(log0, s0);
    ParseReport(log1, s1);
    Regroup(log0, Report(s0), Marker, log1, Report(s1), tail);
    RunOfGames(g0 + Marker + g1 + Marker + tail, g0, g1, s0, s1);
  }
}
