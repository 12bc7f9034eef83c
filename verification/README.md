# Othello tournament runner: the verdict core

`tournament_runner.py` plays a two-game Othello tournament between `my_player`
and `random_player` by running the game engine and capturing its combined output
(the transcript). It then decides who won:

1. It cuts the transcript at the engine's termination line
   `INFO: Game has terminated!`. There must be exactly two such lines.
   Game 1 is the text before the first line and game 2 is the text between the two.
2. In each game it reads the last `Black Score: <n>` and the last
   `White Score: <n>` report.
3. It judges each game under its seating. In game 1 the random player plays black
   and my player white; in game 2 the colours are swapped. The higher score wins
   and equal scores are a draw.
4. It judges the tournament. Whoever won more games wins it, and equal game wins
   make a draw.
5. Over repeated runs it tallies game verdicts and tournament verdicts for
   my player, the random player and draws.

This project models those steps as pure functions over the transcript text and
proves what they promise. The modules follow the steps:

- `Results`: the error cases, `UnexpectedGameCount(found)` for a wrong number of
  termination lines and `ScoreNotFound` for a game without both scores. It also
  holds a `Result` type carrying them.
- `Text`: literal search the way `re.finditer` does it, and the ASCII `\s` and `\d`
  character classes. It also has the greedy runs `\s*` and `\d+`, decimal numerals,
  and printing a number.
- `Segmenter`: the marker count and the cutting loop (`SplitGames`).
- `ScoreParser`: `re.findall` over `Black Score:\s*(\d+)` and `White Score:\s*(\d+)`,
  and `ParseScores`.
- `Verdict`: players, seatings, the per-game verdict and the tournament verdict.
- `Tournament`: one whole run (`RunTournament`).
- `Aggregate`: the tallies and the loop over repeated runs (`Summarise`).

The engine's output is an input to the model. Each run's transcript is a
parameter, so the loop over `n` runs becomes a function of `n` transcripts.

## Model

| member | source | states |
|---|---|---|
| Text.FindAll | tournament_runner.py:31 | Every reported position starts an occurrence of the marker, at or after the start. The positions are increasing and at least one marker length apart (non-overlapping). |
| Text.FindAllComplete | tournament_runner.py:31 | For a pattern whose first character does not recur in it, the scan misses no occurrence: a position is reported exactly when the pattern occurs there. |
| Text.SpanSpaces | tournament_runner.py:9-10 | The greedy `\s*` run: every character it covers is whitespace, and the next character is not. |
| Text.SpanDigits | tournament_runner.py:9-10 | The greedy `\d+` run: every character it covers is a digit, and the next character is not. |
| Text.CountOccurrences | tournament_runner.py:31-32 | For the marker, the number of positions the scan reports equals the number of positions at which the marker occurs. |
| Segmenter.CountTwo | tournament_runner.py:31-32 | The scan finds exactly two markers if and only if the marker occurs at exactly two positions of the transcript. Then those two are its only occurrences. |
| Segmenter.Cut | tournament_runner.py:35-39 | The cutting loop yields one block per boundary. Block `i` is the text from the end of boundary `i-1` (or from the start) up to boundary `i`. |
| Segmenter.CutShape | tournament_runner.py:35-39 | With two markers the loop's two blocks are marker-free. Block, marker, block, marker is a prefix of the transcript, and no marker follows that prefix. |
| Segmenter.SplitGames | tournament_runner.py:29-39 | Succeeds if and only if the transcript has exactly two markers. Otherwise it fails reporting the number of positions at which the marker occurs, which is not 2. On success there are two marker-free games; the games with their markers form a prefix of the transcript; the rest holds no marker. |
| Segmenter.SplitJoin | tournament_runner.py:29-39 | Inverse of gluing: two marker-free games and a marker-free trailer, joined by the marker, split back into exactly those two games. |
| ScoreParser.ScanSpec | tournament_runner.py:9-13 | The scan is empty if and only if no position starts a match. Otherwise its last value is the value of the last match in the text. |
| ScoreParser.ParseScores | tournament_runner.py:8-13 | Fails with `ScoreNotFound` if and only if one of the two labels has no match. Otherwise black and white are the values of the last match of each label. |
| ScoreParser.LastScoreUnique | tournament_runner.py:13 | The last match is unique, so the contract of `ParseScores` determines its result. |
| ScoreParser.FindLastScore | tournament_runner.py:9-13 | A single left-to-right pass that keeps only the latest match finds a score if and only if the label matches somewhere. What it finds is the last match. |
| ScoreParser.AppendQuietText | tournament_runner.py:8-13 | Appending text that reports no score leaves the parsed scores unchanged, provided the text cannot continue a match. |
| ScoreParser.LaterReportWins | tournament_runner.py:9-13 | A later text in which both labels match decides the result, whatever was logged before it. |
| ScoreParser.ParseReport | tournament_runner.py:8-13 | Round trip: a game log ending in a printed report of its final scores parses to exactly those scores. |
| Verdict.Opponent | tournament_runner.py:42-45 | The other competitor is never the same one. |
| Verdict.GameOutcome | tournament_runner.py:51-56 | Draw if and only if the scores are equal. A winner is always one of the two seated players. |
| Verdict.GameOutcomeIff | tournament_runner.py:51-56 | With different players seated: white wins if and only if white scored more, black wins if and only if black scored more, and a draw if and only if the scores are equal. |
| Verdict.SwapScoresSwapsWinner | tournament_runner.py:51-56 | Swapping the two scores gives the game to the other player. A draw stays a draw. |
| Verdict.SwapBoth | tournament_runner.py:51-56 | Swapping both the seats and the scores leaves the verdict unchanged. |
| Verdict.RoleSwap | tournament_runner.py:42-45 | Two games. Each seats both players, game 2 swaps the colours of game 1, and each player plays black once and white once. |
| Verdict.Count | tournament_runner.py:59-60 | `list.count`: the number of occurrences, equal to the multiplicity in the multiset of verdicts. |
| Verdict.TournamentWinner | tournament_runner.py:58-66 | A player wins if and only if they won strictly more games than the other. A draw happens if and only if game wins are equal; drawn games count for nobody. |
| Verdict.WinnerIgnoresOrder | tournament_runner.py:58-66 | The verdict depends only on the multiset of game verdicts. |
| Verdict.DrawsDoNotCount | tournament_runner.py:58-66 | Adding a drawn game never changes the verdict. |
| Verdict.TwoGameVerdict | tournament_runner.py:58-66 | Closed form for two games. Two equal verdicts give that verdict; a win and a draw give the win; one win each gives a draw. |
| Verdict.VerdictExamples | tournament_runner.py:58-66 | [my, my] gives my; [my, random] gives a draw; [draw, draw] gives a draw; [my, draw] gives my. |
| Verdict.SameScoresDraw | tournament_runner.py:42-66 | If both games end with the same black and white scores, the role swap makes the tournament a draw. |
| Verdict.SweepWins | tournament_runner.py:42-66 | If white wins game 1 and black wins game 2, my player wins both and takes the tournament. |
| Tournament.JudgeGames | tournament_runner.py:47-56 | Succeeds if and only if every game's scores were read. Otherwise it fails with the error of the first unreadable game. Verdict `i` is game `i` judged under seating `i`. |
| Tournament.JudgeBlocks | tournament_runner.py:47-66 | Two blocks succeed if and only if both parse. The games are judged under the two seatings and the tournament from the two verdicts. |
| Tournament.RunTournament | tournament_runner.py:29-68 | A transcript without exactly two markers fails reporting how many marker occurrences it holds, and only such a transcript fails that way. A game without scores fails with `ScoreNotFound`. Success holds if and only if there are two markers and both games parse. Then game `i` is judged from its last scores under seating `i`. |
| Tournament.GameFree | tournament_runner.py:29-39 | Appending a score report to a marker-free log creates no marker. |
| Tournament.RunOfReports | tournament_runner.py:16-68 | End to end: two games, each closed by its score report and the marker, are judged from exactly the reported scores under the two seatings. |
| Aggregate.Bump | tournament_runner.py:91-92 | Adds one to the named counter and leaves the other two alone. |
| Aggregate.AddGames | tournament_runner.py:90-91 | Each counter grows by the number of games with its verdict; the total grows by the number of games. |
| Aggregate.Record | tournament_runner.py:89-92 | One run adds each game verdict to the game tally and the tournament verdict to the tournament tally. Every other counter is unchanged. |
| Aggregate.RecordCommutes | tournament_runner.py:89-92 | Recording two runs in either order gives the same totals. |
| Aggregate.RunAll | tournament_runner.py:84-92 | The loop over runs succeeds if and only if every run does. The first failed run aborts it with its error. On success each game counter grows by the number of games with that verdict over all runs, each tournament counter by the number of runs with that winner, and the tournament total by one per run. |
| Aggregate.GamesPerRun | tournament_runner.py:89-92 | When every run judged two games, the game tally grows by exactly 2 per run. |
| Aggregate.RunOrderIrrelevant | tournament_runner.py:84-92 | The totals do not depend on the order of successful runs (any permutation gives the same totals). |
| Aggregate.RunsAt | tournament_runner.py:84-87 | Run `i` of the loop is the tournament run of transcript `i`. |
| Aggregate.Summarise | tournament_runner.py:81-92 | From zero tallies the loop succeeds if and only if every run succeeds. Then each printed counter (my player, random player, draws) equals the number of games, respectively tournaments, with that verdict over all runs. The tournament tally totals the number of runs, and the game tally twice that. |
| Aggregate.SummariseSucceeds | tournament_runner.py:84-92 | The summary exists if and only if every transcript is a successful tournament. |
| Aggregate.SweepRun | tournament_runner.py:16-68 | A transcript of two bare reports, white ahead in game 1 and black ahead in game 2, is a clean sweep for my player. |
| Aggregate.ThreeSweeps | tournament_runner.py:81-92 | Three clean sweeps give game wins 6/0/0 and tournament wins 3/0/0. |
| Aggregate.SampleRun | tournament_runner.py:16-68 | Game 1 at black 28, white 36 and game 2 at black 40, white 24: my player wins both games and the tournament. |
| Aggregate.SampleSummary | tournament_runner.py:71-92 | Three runs of that transcript tally game wins 6/0/0 and tournament wins 3/0/0 (my player / random player / draws). |

## Left out

- Running the engine (`subprocess.run`, lines 18-24) and echoing its output are left out. The transcript of each run is a parameter instead.
- Printing is left out: the per-run summary, the aggregate summary and the "Total runs" line (lines 85-86, 95-109). The model returns the two tallies that the summary prints.
- Command-line parsing (lines 72-79) is left out. A number of runs of zero or less makes the loop run zero times; that is `Summarise([])`, which leaves the zero tallies.
- Exception text is left out: the messages of lines 12 and 33-34, including the last 200 characters of the block. Only the error kind is kept, plus the marker count found.
- After an exception the program stops with a traceback and prints no summary. This is modelled as a failed result, with the exit status and traceback left out.
- `\s` and `\d` cover only ASCII. Python's text patterns also match Unicode whitespace and Unicode decimal digits, and `int` reads the latter; the model does not.
- The code's `\s*` admits any whitespace, including newlines, between a label and its digits; the model follows the code.
- ScoreParser.AppendQuietText: this is weaker than "appending text without score lines keeps the result". The appended text must also not start with a character that continues a match at the end of the earlier text (whitespace, a digit, or a later character of a label). Without that condition, appending digits after `Black Score: 1` changes the score.
- Tournament.JudgeBlocks reads both games' scores before judging either, whereas the source parses and judges game by game. Judging cannot fail, so the result and the first error are the same.
- Text.FindAll models `re.finditer` for a literal pattern only. That is enough because the marker holds no regular-expression metacharacter.
- ScoreParser.ParseScores: does not model the limit of 4300 digits that CPython 3.11 and later apply when `int` converts a numeral (line 13). There the runner raises `ValueError` when the final numeral is longer, while the model returns its value. An Othello score never exceeds 64, so such a numeral never comes from a real game.
- Verdict.Count is stated for the outcome type of the model. The source counts the strings `"my_player"` and `"random_player"` in a list that also holds `"draw"`, and the model maps those one to one onto `Win(MyPlayer)`, `Win(RandomPlayer)` and `Draw`.
