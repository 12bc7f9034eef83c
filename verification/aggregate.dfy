/** The aggregate over repeated tournament runs: how many games and how many
    tournaments each player won, and how many were drawn. */
module Aggregate {
  import opened Results
  import opened Text
  import opened ScoreParser
  import opened Segmenter
  import opened Verdict
  import opened Tournament

  /** One counter per result key of the runner: my player, the random player and
      draws. */
  datatype Tally = Tally(my: nat, random: nat, draws: nat)

  const Zero: Tally := Tally(0, 0, 0)

  /** The counter kept for outcome `o`. */
  function Get(t: Tally, o: Outcome): nat {
    match o
    case Win(MyPlayer) => t.my
    case Win(RandomPlayer) => t.random
    case Draw => t.draws
  }

  /** The sum of the three counters. */
  function Total(t: Tally): nat {
    t.my + t.random + t.draws
  }

  /** A tally is nothing but its three counters. */
  lemma TallyExt(t: Tally, u: Tally)
    requires forall k: Outcome :: Get(t, k) == Get(u, k)
    ensures t == u
  {
    assert Get(t, Win(MyPlayer)) == Get(u, Win(MyPlayer));
    assert Get(t, Win(RandomPlayer)) == Get(u, Win(RandomPlayer));
    assert Get(t, Draw) == Get(u, Draw);
  }

  /** Adds one to the counter of `o` and to no other. */
  function Bump(t: Tally, o: Outcome): (u: Tally)
    ensures Get(u, o) == Get(t, o) + 1
    ensures forall k: Outcome :: k != o ==> Get(u, k) == Get(t, k)
    ensures Total(u) == Total(t) + 1
  {
    match o
    case Win(MyPlayer) => t.(my := t.my + 1)
    case Win(RandomPlayer) => t.(random := t.random + 1)
    case Draw => t.(draws := t.draws + 1)
  }

  /** The per-game loop of the tally: every verdict in `rs` adds one to its own
      counter, so each counter rises by the number of times its outcome occurs. */
  function AddGames(t: Tally, rs: seq<Outcome>): (u: Tally)
    ensures forall k: Outcome :: Get(u, k) == Get(t, k) + multiset(rs)[k]
    ensures Total(u) == Total(t) + |rs|
    decreases |rs|
  {
    if rs == [] then t
    else
      assert rs == [rs[0]] + rs[1..];
      AddGames(Bump(t, rs[0]), rs[1..])
  }

  /** The two tallies the runner keeps: game verdicts and tournament verdicts. */
  datatype Totals = Totals(games: Tally, tournaments: Tally)

  const NoRuns: Totals := Totals(Zero, Zero)

  /** Records one run: each game verdict once in the game tally, the tournament
      verdict once in the tournament tally; every other counter is left alone. */
  function Record(tt: Totals, rr: RunResult): (u: Totals)
    ensures forall k: Outcome :: Get(u.games, k) == Get(tt.games, k) + multiset(rr.games)[k]
    ensures Get(u.tournaments, rr.winner) == Get(tt.tournaments, rr.winner) + 1
    ensures forall k: Outcome :: k != rr.winner ==> Get(u.tournaments, k) == Get(tt.tournaments, k)
    ensures Total(u.games) == Total(tt.games) + |rr.games|
    ensures Total(u.tournaments) == Total(tt.tournaments) + 1
  {
    Totals(AddGames(tt.games, rr.games), Bump(tt.tournaments, rr.winner))
  }

  /** Recording two runs in either order gives the same totals. */
  lemma RecordCommutes(tt: Totals, a: RunResult, b: RunResult)
    ensures Record(Record(tt, a), b) == Record(Record(tt, b), a)
  {
    var ab, ba := Record(Record(tt, a), b), Record(Record(tt, b), a);
    TallyExt(ab.games, ba.games);
    forall k: Outcome
      ensures Get(ab.tournaments, k) == Get(ba.tournaments, k)
    {
      if k == a.winner {
        assert Get(Record(tt, a).tournaments, k) == Get(tt.tournaments, k) + 1;
      }
    }
    TallyExt(ab.tournaments, ba.tournaments);
  }

  /** The loop of the runner over repeated runs, `runs[i]` being what run `i`
      returned. The first failed run aborts the loop with its error and no summary;
      when every run succeeds, each contributes its games and its tournament. */
  function RunAll(tt: Totals, runs: seq<Result<RunResult>>): (r: Result<Totals>)
    ensures r.Success? <==> forall i :: 0 <= i < |runs| ==> runs[i].Success?
    ensures r.Failure? ==>
      exists i :: 0 <= i < |runs| && runs[i].Failure? && r.error == runs[i].error &&
        forall j :: 0 <= j < i ==> runs[j].Success?
    ensures r.Success? ==> Total(r.value.tournaments) == Total(tt.tournaments) + |runs|
    ensures r.Success? ==> forall k: Outcome ::
      Get(r.value.games, k) == Get(tt.games, k) + multiset(GameVerdicts(runs))[k]
    ensures r.Success? ==> forall k: Outcome ::
      Get(r.value.tournaments, k) == Get(tt.tournaments, k) + multiset(Winners(runs))[k]
    decreases |runs|
  {
    if runs == [] then Success(tt)
    else
      match runs[0]
      case Failure(e) => Failure(e)
      case Success(rr) =>
        var r := RunAll(Record(tt, rr), runs[1..]);
        StepOutcome(tt, rr, runs, r);
        CountStep(tt, rr, runs, r);
        r
  }

  /** Success, first error and tournament total of the loop carry over one
      successful run in front. */
  lemma StepOutcome(tt: Totals, rr: RunResult, runs: seq<Result<RunResult>>, r: Result<Totals>)
    requires |runs| > 0 && runs[0] == Success(rr)
    requires r.Success? <==> forall i :: 0 <= i < |runs[1..]| ==> runs[1..][i].Success?
    requires r.Failure? ==>
      exists i :: 0 <= i < |runs[1..]| && runs[1..][i].Failure? && r.error == runs[1..][i].error &&
        forall j :: 0 <= j < i ==> runs[1..][j].Success?
    requires r.Success? ==> Total(r.value.tournaments) == Total(Record(tt, rr).tournaments) + |runs[1..]|
    ensures r.Success? <==> forall i :: 0 <= i < |runs| ==> runs[i].Success?
    ensures r.Failure? ==>
      exists i :: 0 <= i < |runs| && runs[i].Failure? && r.error == runs[i].error &&
        forall j :: 0 <= j < i ==> runs[j].Success?
    ensures r.Success? ==> Total(r.value.tournaments) == Total(tt.tournaments) + |runs|
  {
    assert forall i :: 1 <= i < |runs| ==> runs[i] == runs[1..][i - 1];
    if r.Failure? {
      var i :| 0 <= i < |runs[1..]| && runs[1..][i].Failure? && r.error == runs[1..][i].error &&
        forall j :: 0 <= j < i ==> runs[1..][j].Success?;
      assert runs[i + 1].Failure? && r.error == runs[i + 1].error;
    }
  }

  /** The per-key counts of the loop carry over one successful run in front. */
  lemma CountStep(tt: Totals, rr: RunResult, runs: seq<Result<RunResult>>, r: Result<Totals>)
    requires |runs| > 0 && runs[0] == Success(rr)
    requires r.Success? ==> forall k: Outcome ::
      Get(r.value.games, k) == Get(Record(tt, rr).games, k) + multiset(GameVerdicts(runs[1..]))[k]
    requires r.Success? ==> forall k: Outcome ::
      Get(r.value.tournaments, k) == Get(Record(tt, rr).tournaments, k) + multiset(Winners(runs[1..]))[k]
    ensures r.Success? ==> forall k: Outcome ::
      Get(r.value.games, k) == Get(tt.games, k) + multiset(GameVerdicts(runs))[k]
    ensures r.Success? ==> forall k: Outcome ::
      Get(r.value.tournaments, k) == Get(tt.tournaments, k) + multiset(Winners(runs))[k]
  {
    assert GameVerdicts(runs) == rr.games + GameVerdicts(runs[1..]);
    assert Winners(runs) == [rr.winner] + Winners(runs[1..]);
  }

  /** The game verdicts of the successful runs of `runs`, run after run. */
  function GameVerdicts(runs: seq<Result<RunResult>>): seq<Outcome> {
    if runs == [] then []
    else (if runs[0].Success? then runs[0].value.games else []) + GameVerdicts(runs[1..])
  }

  /** The tournament verdicts of the successful runs of `runs`, in order. */
  function Winners(runs: seq<Result<RunResult>>): seq<Outcome> {
    if runs == [] then []
    else (if runs[0].Success? then [runs[0].value.winner] else []) + Winners(runs[1..])
  }

  /** Every run of `runs` succeeded with two games. */
  predicate AllTwoGames(runs: seq<Result<RunResult>>) {
    forall i :: 0 <= i < |runs| ==> runs[i].Success? && |runs[i].value.games| == ExpectedGames
  }

  /** When every run produced two games, the game tally grows by two per run. */
  lemma {:induction false} GamesPerRun(tt: Totals, runs: seq<Result<RunResult>>)
    requires AllTwoGames(runs)
    ensures RunAll(tt, runs).Success?
    ensures Total(RunAll(tt, runs).value.games) == Total(tt.games) + 2 * |runs|
    decreases |runs|
  {
    if runs != [] {
      assert AllTwoGames(runs[1..]) by {
        forall i | 0 <= i < |runs| - 1
          ensures runs[1..][i].Success? && |runs[1..][i].value.games| == ExpectedGames
        {
          assert runs[1..][i] == runs[i + 1];
        }
      }
      GamesPerRun(Record(tt, runs[0].value), runs[1..]);
    }
  }

  /** Every run of `runs` succeeded. */
  predicate AllSucceed(runs: seq<Result<RunResult>>) {
    forall i :: 0 <= i < |runs| ==> runs[i].Success?
  }

  /** One successful run in front is recorded first. */
  lemma RunAllCons(tt: Totals, rr: RunResult, rest: seq<Result<RunResult>>)
    ensures RunAll(tt, [Success(rr)] + rest) == RunAll(Record(tt, rr), rest)
  {
    assert ([Success(rr)] + rest)[1..] == rest;
  }

  /** The runs after a successful first run are all successful. */
  lemma SucceedTail(runs: seq<Result<RunResult>>)
    requires |runs| > 0 && AllSucceed(runs)
    ensures AllSucceed(runs[1..])
  {
    forall i | 0 <= i < |runs| - 1
      ensures runs[1..][i].Success?
    {
      assert runs[1..][i] == runs[i + 1];
    }
  }

  /** Removing element `j` of `s`, for `j` past the head, keeps the head in front. */
  lemma RemoveAfterHead<T>(s: seq<T>, j: nat)
    requires 0 < j < |s|
    ensures s[1..][j - 1] == s[j]
    ensures s[..j] + s[j + 1..] == [s[0]] + (s[1..][..j - 1] + s[1..][j..])
  {
  }

  /** Removing element `j` of `s` takes one copy of it out of the multiset. */
  lemma RemoveAt<T>(s: seq<T>, j: nat)
    requires j < |s|
    ensures multiset(s) == multiset{s[j]} + multiset(s[..j] + s[j + 1..])
  {
    assert s == s[..j] + [s[j]] + s[j + 1..];
  }

  /** Pulling run `j` to the front does not change the totals. */
  lemma {:induction false} MoveToFront(tt: Totals, runs: seq<Result<RunResult>>, j: nat)
    requires j < |runs| && AllSucceed(runs)
    ensures RunAll(tt, runs) == RunAll(tt, [runs[j]] + (runs[..j] + runs[j + 1..]))
    decreases j
  {
    if j == 0 {
      assert runs[..0] + runs[1..] == runs[1..];
      assert [runs[0]] + runs[1..] == runs;
    } else {
      var a, b := runs[0].value, runs[j].value;
      var tail := runs[1..];
      var tailRest := tail[..j - 1] + tail[j..];
      RemoveAfterHead(runs, j);
      SucceedTail(runs);
      assert [runs[0]] + tail == runs;
      RunAllCons(tt, a, tail);
      MoveToFront(Record(tt, a), tail, j - 1);
      RunAllCons(Record(tt, a), b, tailRest);
      RecordCommutes(tt, a, b);
      RunAllCons(Record(tt, b), a, tailRest);
      RunAllCons(tt, b, [runs[0]] + tailRest);
    }
  }

  /** Taking the same element out of two permutations of each other leaves
      permutations of each other. */
  lemma PermutationRemove<T>(s: seq<T>, s': seq<T>, j: nat)
    requires multiset(s) == multiset(s') && |s| > 0 && j < |s'| && s'[j] == s[0]
    ensures multiset(s[1..]) == multiset(s'[..j] + s'[j + 1..])
  {
    RemoveAt(s', j);
    RemoveAt(s, 0);
    assert s[..0] + s[1..] == s[1..];
    var a, b := multiset(s[1..]), multiset(s'[..j] + s'[j + 1..]);
    forall y
      ensures a[y] == b[y]
    {
      assert (multiset{s[0]} + a)[y] == (multiset{s[0]} + b)[y];
    }
  }

  /** A permutation of successful runs is made of successful runs. */
  lemma SucceedPermutation(runs: seq<Result<RunResult>>, runs': seq<Result<RunResult>>)
    requires multiset(runs) == multiset(runs') && AllSucceed(runs)
    ensures AllSucceed(runs')
  {
    forall i | 0 <= i < |runs'|
      ensures runs'[i].Success?
    {
      assert runs'[i] in multiset(runs);
    }
  }

  /** The totals do not depend on the order of the runs. */
  lemma {:induction false} RunOrderIrrelevant(tt: Totals, runs: seq<Result<RunResult>>, runs': seq<Result<RunResult>>)
    requires multiset(runs) == multiset(runs') && AllSucceed(runs)
    ensures RunAll(tt, runs') == RunAll(tt, runs)
    decreases |runs|
  {
    if runs == [] {
      assert |runs'| == |multiset(runs')|;
    } else {
      var x := runs[0];
      assert x in multiset(runs');
      var j :| 0 <= j < |runs'| && runs'[j] == x;
      var rest' := runs'[..j] + runs'[j + 1..];
      PermutationRemove(runs, runs', j);
      SucceedPermutation(runs, runs');
      SucceedTail(runs);
      MoveToFront(tt, runs', j);
      RunOrderIrrelevant(Record(tt, x.value), runs[1..], rest');
      RunAllCons(tt, x.value, rest');
      RunAllCons(tt, x.value, runs[1..]);
      HeadTail(runs);
    }
  }

  /** A non-empty sequence is its head followed by its tail. */
  lemma HeadTail<T>(s: seq<T>)
    requires |s| > 0
    ensures [s[0]] + s[1..] == s
  {
  }

  /** What each transcript of `outs` yields as a tournament run, in order. */
  function Runs(outs: seq<string>): (runs: seq<Result<RunResult>>)
    ensures |runs| == |outs|
  {
    if outs == [] then [] else [RunTournament(outs[0])] + Runs(outs[1..])
  }

  /** Run `i` of the loop is the tournament run of transcript `i`. */
  lemma {:induction false} RunsAt(outs: seq<string>, i: nat)
    requires i < |outs|
    ensures Runs(outs)[i] == RunTournament(outs[i])
    decreases |outs|
  {
    if i > 0 {
      RunsAt(outs[1..], i - 1);
    }
  }

  /** Every successful run in the loop judged two games. */
  lemma RunsTwoGames(outs: seq<string>, i: nat)
    requires i < |outs|
    ensures Runs(outs)[i].Success? ==> |Runs(outs)[i].value.games| == ExpectedGames
  {
    RunsAt(outs, i);
  }

  /** The runs of a transcript followed by more transcripts. */
  lemma RunsCons(o: string, outs: seq<string>, run: Result<RunResult>)
    requires RunTournament(o) == run
    ensures Runs([o] + outs) == [run] + Runs(outs)
  {
    assert ([o] + outs)[1..] == outs;
  }

  /** The runner's main loop over the transcripts `outs`, one per run, from empty
      tallies. It succeeds exactly when every run does; then every run has added
      two games and one tournament to the totals. */
  function Summarise(outs: seq<string>): (r: Result<Totals>)
    ensures r.Success? <==> AllSucceed(Runs(outs))
    ensures r.Success? ==> Total(r.value.tournaments) == |outs|
    ensures r.Success? ==> Total(r.value.games) == 2 * |outs|
    ensures r.Success? ==> forall k: Outcome ::
      Get(r.value.games, k) == multiset(GameVerdicts(Runs(outs)))[k]
    ensures r.Success? ==> forall k: Outcome ::
      Get(r.value.tournaments, k) == multiset(Winners(Runs(outs)))[k]
  {
    SummaryGames(outs);
    var r := RunAll(NoRuns, Runs(outs));
    SummaryCounts(Runs(outs), r);
    r
  }

  /** The loop from empty tallies counts each verdict of the runs once. */
  lemma SummaryCounts(runs: seq<Result<RunResult>>, r: Result<Totals>)
    requires r == RunAll(NoRuns, runs)
    ensures r.Success? ==> forall k: Outcome :: Get(r.value.games, k) == multiset(GameVerdicts(runs))[k]
    ensures r.Success? ==> forall k: Outcome :: Get(r.value.tournaments, k) == multiset(Winners(runs))[k]
  {
    if r.Success? {
      FromZero(runs, r.value);
    }
  }

  /** Counts taken from empty tallies are the counts of the verdicts alone. */
  lemma FromZero(runs: seq<Result<RunResult>>, u: Totals)
    requires forall k: Outcome ::
      Get(u.games, k) == Get(NoRuns.games, k) + multiset(GameVerdicts(runs))[k]
    requires forall k: Outcome ::
      Get(u.tournaments, k) == Get(NoRuns.tournaments, k) + multiset(Winners(runs))[k]
    ensures forall k: Outcome :: Get(u.games, k) == multiset(GameVerdicts(runs))[k]
    ensures forall k: Outcome :: Get(u.tournaments, k) == multiset(Winners(runs))[k]
  {
    forall k: Outcome
      ensures Get(NoRuns.games, k) == 0 && Get(NoRuns.tournaments, k) == 0
    {
    }
  }

  /** Every successful run of a transcript judged two games. */
  lemma SummaryGames(outs: seq<string>)
    ensures RunAll(NoRuns, Runs(outs)).Success? ==>
      Total(RunAll(NoRuns, Runs(outs)).value.games) == 2 * |outs|
  {
    RunsTwoGamesAll(outs);
    TwoGamesEach(Runs(outs));
  }

  /** `RunsTwoGames` for every run of the loop at once. */
  lemma RunsTwoGamesAll(outs: seq<string>)
    ensures forall i :: 0 <= i < |Runs(outs)| ==>
      Runs(outs)[i].Success? ==> |Runs(outs)[i].value.games| == ExpectedGames
  {
    forall i | 0 <= i < |Runs(outs)|
      ensures Runs(outs)[i].Success? ==> |Runs(outs)[i].value.games| == ExpectedGames
    {
      RunsTwoGames(outs, i);
    }
  }

  /** From empty tallies, successful runs of two games each tally two games per run. */
  lemma TwoGamesEach(runs: seq<Result<RunResult>>)
    requires forall i :: 0 <= i < |runs| ==> runs[i].Success? ==> |runs[i].value.games| == ExpectedGames
    ensures RunAll(NoRuns, runs).Success? ==> Total(RunAll(NoRuns, runs).value.games) == 2 * |runs|
  {
    if RunAll(NoRuns, runs).Success? {
      GamesPerRun(NoRuns, runs);
    }
  }

  /** The loop over transcripts succeeds exactly when every transcript is a
      successful tournament run. */
  lemma SummariseSucceeds(outs: seq<string>)
    ensures Summarise(outs).Success? <==> forall i :: 0 <= i < |outs| ==> RunTournament(outs[i]).Success?
  {
    forall i | 0 <= i < |outs|
      ensures Runs(outs)[i] == RunTournament(outs[i])
    {
      RunsAt(outs, i);
    }
  }

  /** The sample transcript as two empty logs, the two reports and an empty
      trailer, the shape `RunOfReports` expects. */
  lemma DropEmptyLogs(r0: string, m: string, r1: string)
    ensures "" + r0 + m + "" + r1 + m + "" == r0 + m + r1 + m
  {
  }

  /** A transcript of two bare score reports in which white wins the first game and
      black the second is a clean sweep for my player. */
  lemma SweepRun(s0: ScorePair, s1: ScorePair)
    requires s0.white > s0.black && s1.black > s1.white
    ensures RunTournament(Report(s0) + Marker + Report(s1) + Marker)
      == Success(RunResult([Win(MyPlayer), Win(MyPlayer)], Win(MyPlayer)))
  {
    AbsentFirst("", Marker);
    RunOfReports("", "", "", s0, s1);
    DropEmptyLogs(Report(s0), Marker, Report(s1));
    TwoGameVerdict(Win(MyPlayer), Win(MyPlayer));
  }

  /** Recording a clean sweep for my player adds two game wins and one tournament
      win to my player's counters. */
  lemma RecordSweep(tt: Totals, rr: RunResult)
    requires rr == RunResult([Win(MyPlayer), Win(MyPlayer)], Win(MyPlayer))
    ensures Record(tt, rr) ==
      Totals(tt.games.(my := tt.games.my + 2), tt.tournaments.(my := tt.tournaments.my + 1))
  {
    var u := Record(tt, rr);
    var m := multiset(rr.games);
    assert m == multiset{Win(MyPlayer), Win(MyPlayer)};
    assert m[Win(MyPlayer)] == 2 && m[Win(RandomPlayer)] == 0 && m[Draw] == 0;
    TallyExt(u.games, tt.games.(my := tt.games.my + 2));
    TallyExt(u.tournaments, tt.tournaments.(my := tt.tournaments.my + 1));
  }

  /** Recording three clean sweeps for my player adds six game wins and three
      tournament wins to my player's counters. */
  lemma ThreeSweepRecords(tt: Totals, rr: RunResult)
    requires rr == RunResult([Win(MyPlayer), Win(MyPlayer)], Win(MyPlayer))
    ensures Record(Record(Record(tt, rr), rr), rr)
      == Totals(tt.games.(my := tt.games.my + 6), tt.tournaments.(my := tt.tournaments.my + 3))
  {
    var t1 := Record(tt, rr);
    var t2 := Record(t1, rr);
    RecordSweep(tt, rr);
    RecordSweep(t1, rr);
    RecordSweep(t2, rr);
  }

  /** Three successful runs are recorded one after another. */
  lemma ThreeRuns(tt: Totals, a: RunResult, b: RunResult, c: RunResult)
    ensures RunAll(tt, [Success(a), Success(b), Success(c)])
      == Success(Record(Record(Record(tt, a), b), c))
  {
    assert [Success(a), Success(b), Success(c)] == [Success(a)] + ([Success(b)] + ([Success(c)] + []));
    RunAllCons(tt, a, [Success(b)] + ([Success(c)] + []));
    RunAllCons(Record(tt, a), b, [Success(c)] + []);
    RunAllCons(Record(Record(tt, a), b), c, []);
  }

  /** The run loop over three clean sweeps for my player. */
  lemma ThreeSweepRuns(tt: Totals, run: Result<RunResult>)
    requires run == Success(RunResult([Win(MyPlayer), Win(MyPlayer)], Win(MyPlayer)))
    ensures RunAll(tt, [run, run, run])
      == Success(Totals(tt.games.(my := tt.games.my + 6), tt.tournaments.(my := tt.tournaments.my + 3)))
  {
    var rr := run.value;
    ThreeRuns(tt, rr, rr, rr);
    ThreeSweepRecords(tt, rr);
  }

  /** The runs of three copies of a transcript are three copies of its run. */
  lemma RunsOfThree(t: string, run: Result<RunResult>)
    requires RunTournament(t) == run
    ensures Runs([t, t, t]) == [run, run, run]
  {
    var none: seq<string> := [];
    RunsCons(t, none, run);
    RunsCons(t, [t] + none, run);
    RunsCons(t, [t] + ([t] + none), run);
    ConsThree(t);
    ConsThree(run);
  }

  /** Three copies of a value, written the way `Runs` builds them one run at a time. */
  lemma ConsThree<T>(x: T)
    ensures [x, x, x] == [x] + ([x] + ([x] + []))
  {
  }

  /** Six game wins and three tournament wins for my player, added to empty tallies,
      are the tallies 6/0/0 and 3/0/0. */
  lemma SixAndThree()
    ensures Totals(NoRuns.games.(my := NoRuns.games.my + 6), NoRuns.tournaments.(my := NoRuns.tournaments.my + 3))
      == Totals(Tally(6, 0, 0), Tally(3, 0, 0))
  {
  }

  /** The run loop over three clean sweeps for my player, from empty tallies. */
  lemma SweepTotals(run: Result<RunResult>)
    requires run == Success(RunResult([Win(MyPlayer), Win(MyPlayer)], Win(MyPlayer)))
    ensures RunAll(NoRuns, [run, run, run]) == Success(Totals(Tally(6, 0, 0), Tally(3, 0, 0)))
  {
    ThreeSweepRuns(NoRuns, run);
    SixAndThree();
  }

  /** The summary of `outs` is the run loop over their runs. */
  lemma SummariseVia(outs: seq<string>, runs: seq<Result<RunResult>>, u: Result<Totals>)
    requires Runs(outs) == runs && RunAll(NoRuns, runs) == u
    ensures Summarise(outs) == u
  {
  }

  /** Three runs that are each a clean sweep for my player: six game wins and three
      tournament wins for my player, nothing for the random player, no draws. */
  lemma ThreeSweeps(t: string)
    requires RunTournament(t) == Success(RunResult([Win(MyPlayer), Win(MyPlayer)], Win(MyPlayer)))
    ensures Summarise([t, t, t]) == Success(Totals(Tally(6, 0, 0), Tally(3, 0, 0)))
  {
    var run := RunTournament(t);
    RunsOfThree(t, run);
    SweepTotals(run);
    SummariseVia([t, t, t], [run, run, run], Success(Totals(Tally(6, 0, 0), Tally(3, 0, 0))));
  }

  /** A transcript in which my player wins both games: 28 to 36 for white in the
      first game, 40 to 24 for black in the second. */
  function SampleTranscript(): string {
    Report(ScorePair(28, 36)) + Marker + Report(ScorePair(40, 24)) + Marker
  }

  /** The sample tournament is a clean sweep for my player. */
  lemma SampleRun()
    ensures RunTournament(SampleTranscript())
      == Success(RunResult([Win(MyPlayer), Win(MyPlayer)], Win(MyPlayer)))
  {
    SweepRun(ScorePair(28, 36), ScorePair(40, 24));
  }

  /** Three runs of the sample tournament. */
  lemma SampleSummary()
    ensures Summarise([SampleTranscript(), SampleTranscript(), SampleTranscript()])
      == Success(Totals(Tally(6, 0, 0), Tally(3, 0, 0)))
  {
    SampleRun();
    ThreeSweeps(SampleTranscript());
  }
}
