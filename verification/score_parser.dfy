/** Recovering the final scores of one game from its log text: every match of
    `Black Score:\s*(\d+)` and of `White Score:\s*(\d+)` is found, left to right,
    and the last match of each label is the game's final score. */
module ScoreParser {
  import opened Results
  import opened Text

  const BlackKey: string := "Black Score:"
  const WhiteKey: string := "White Score:"

  /** The final scores of one game: black (the first mover) and white. */
  datatype ScorePair = ScorePair(black: nat, white: nat)

  /** A label the scan can use: its first character never recurs in it and is
      neither whitespace nor a digit, so no match can start inside another. */
  predicate ScoreLabel(key: string) {
    Unbordered(key) && !IsSpace(key[0]) && !IsDigit(key[0])
  }

  /** Both score labels are usable by the scan. */
  lemma LabelsWellFormed()
    ensures ScoreLabel(BlackKey) && ScoreLabel(WhiteKey)
  {
  }

  /** The outcome of one attempt of the pattern at a fixed position: no match, or
      a match whose digits read `value` and which spans `len` characters. */
  datatype Attempt = Miss | Hit(value: nat, len: nat)

  /** What must follow the label: the longest run of whitespace, then the
      longest run of digits, which must not be empty. The length counts both runs. */
  function NumberAfter(rest: string): (a: Attempt)
    ensures a.Hit? ==> 0 < a.len <= |rest|
    ensures a.Hit? ==> forall j :: 0 <= j < a.len ==> IsSpace(rest[j]) || IsDigit(rest[j])
  {
    var w := SpanSpaces(rest);
    var d := SpanDigits(rest[w..]);
    if d == 0 then Miss
    else
      assert forall j :: w <= j < w + d ==> rest[j] == rest[w..][..d][j - w];
      Hit(DecimalValue(rest[w..][..d]), w + d)
  }

  /** One attempt of `key\s*(\d+)` anchored at the start of `s`. */
  function MatchHere(s: string, key: string): (a: Attempt)
    requires |key| > 0
    ensures a.Hit? ==> |key| < a.len <= |s| && key <= s
    ensures a.Hit? ==> forall j :: |key| <= j < a.len ==> IsSpace(s[j]) || IsDigit(s[j])
  {
    if key <= s then
      var rest := s[|key|..];
      match NumberAfter(rest)
      case Miss => Miss
      case Hit(v, n) =>
        assert forall j :: |key| <= j < |key| + n ==> s[j] == rest[j - |key|];
        Hit(v, |key| + n)
    else Miss
  }

  /** The attempt at index `i` of `s`. */
  function ScoreAt(s: string, key: string, i: nat): Attempt
    requires |key| > 0 && i <= |s|
  {
    MatchHere(s[i..], key)
  }

  /** No position of `s` starts a match for `key`. */
  ghost predicate NoScore(s: string, key: string)
    requires |key| > 0
  {
    forall i :: 0 <= i <= |s| ==> ScoreAt(s, key, i).Miss?
  }

  /** Some position of `s` starts a match for `key` reading `v`, and no later
      position starts one: `v` is the value of the last match. */
  ghost predicate LastScoreIs(s: string, key: string, v: nat)
    requires |key| > 0
  {
    exists i :: 0 <= i <= |s| && ScoreAt(s, key, i) .Hit? && ScoreAt(s, key, i).value == v &&
      forall j :: i < j <= |s| ==> ScoreAt(s, key, j).Miss?
  }

  /** The values of all matches for `key` in `s`, left to right, the way
      `re.findall` collects them: after a match the search resumes at its end,
      otherwise one character further on. */
  function Scan(s: string, key: string): seq<nat>
    requires |key| > 0
    decreases |s|
  {
    match MatchHere(s, key)
    case Hit(v, n) => [v] + Scan(s[n..], key)
    case Miss => if s == [] then [] else Scan(s[1..], key)
  }

  /** A suffix of a suffix is a suffix of the whole text. */
  lemma SuffixOfSuffix(s: string, n: nat, i: nat)
    requires n + i <= |s|
    ensures s[n..][i..] == s[n + i..]
  {
  }

  /** The attempts in a suffix are the attempts of the whole text, shifted. */
  lemma ShiftAt(s: string, key: string, n: nat)
    requires |key| > 0 && n <= |s|
    ensures forall j :: 0 <= j <= |s| - n ==> ScoreAt(s, key, n + j) == ScoreAt(s[n..], key, j)
  {
    forall j | 0 <= j <= |s| - n
      ensures ScoreAt(s, key, n + j) == ScoreAt(s[n..], key, j)
    {
      SuffixOfSuffix(s, n, j);
    }
  }

  /** No match starts strictly inside a match: its label's first character does
      not recur in the label, and the rest of a match is whitespace and digits. */
  lemma NoHitInside(s: string, key: string, j: nat)
    requires ScoreLabel(key) && MatchHere(s, key).Hit? && 0 < j < MatchHere(s, key).len
    ensures ScoreAt(s, key, j).Miss?
  {
    if j < |key| {
      assert s[j] == key[j] == key[1..][j - 1];
    }
    assert s[j] != key[0];
    assert s[j..][0] == s[j];
  }

  /** A last match of a suffix is a last match of the whole text. */
  lemma LastShift(s: string, key: string, n: nat, v: nat)
    requires |key| > 0 && n <= |s| && LastScoreIs(s[n..], key, v)
    ensures LastScoreIs(s, key, v)
  {
    var r := s[n..];
    var i :| 0 <= i <= |r| && ScoreAt(r, key, i).Hit? && ScoreAt(r, key, i).value == v &&
      forall j :: i < j <= |r| ==> ScoreAt(r, key, j).Miss?;
    ShiftAt(s, key, n);
    assert ScoreAt(s, key, n + i) == ScoreAt(r, key, i);
    forall j | n + i < j <= |s|
      ensures ScoreAt(s, key, j).Miss?
    {
      assert ScoreAt(s, key, j) == ScoreAt(r, key, j - n);
    }
  }

  /** No match in the suffix from `n` means no match at positions `n` onwards. */
  lemma MissFrom(s: string, key: string, n: nat)
    requires |key| > 0 && n <= |s| && NoScore(s[n..], key)
    ensures forall j :: n <= j <= |s| ==> ScoreAt(s, key, j).Miss?
  {
    ShiftAt(s, key, n);
    forall j | n <= j <= |s|
      ensures ScoreAt(s, key, j).Miss?
    {
      assert ScoreAt(s, key, j) == ScoreAt(s[n..], key, j - n);
    }
  }

  /** A text has no match when its first `n` positions start none and its
      suffix from `n` has none. */
  lemma NoScoreShift(s: string, key: string, n: nat)
    requires |key| > 0 && n <= |s| && NoScore(s[n..], key)
    requires forall j :: 0 <= j < n ==> ScoreAt(s, key, j).Miss?
    ensures NoScore(s, key)
  {
    MissFrom(s, key, n);
  }

  /** A match at the start followed by a match-free remainder is the last match. */
  lemma HitIsLast(s: string, key: string)
    requires ScoreLabel(key) && MatchHere(s, key).Hit?
    requires NoScore(s[MatchHere(s, key).len..], key)
    ensures LastScoreIs(s, key, MatchHere(s, key).value)
  {
    var n := MatchHere(s, key).len;
    forall j | 0 < j < n
      ensures ScoreAt(s, key, j).Miss?
    {
      NoHitInside(s, key, j);
    }
    MissFrom(s, key, n);
    assert ScoreAt(s, key, 0).Hit?;
  }

  /** A match at the start: whatever the rest reports (`ws`, the scan of the rest),
      the text has a match, and its last one is the last of the rest if there is
      one and the match at the start otherwise. */
  lemma ScanStepHit(s: string, key: string, v: nat, n: nat, ws: seq<nat>)
    requires ScoreLabel(key) && MatchHere(s, key) == Hit(v, n)
    requires ws == [] <==> NoScore(s[n..], key)
    requires ws != [] ==> LastScoreIs(s[n..], key, ws[|ws| - 1])
    ensures !NoScore(s, key)
    ensures LastScoreIs(s, key, if ws == [] then v else ws[|ws| - 1])
  {
    assert ScoreAt(s, key, 0).Hit?;
    if ws == [] {
      HitIsLast(s, key);
    } else {
      LastShift(s, key, n, ws[|ws| - 1]);
    }
  }

  /** No match at the start: the text has the matches of the rest (`vs`, the scan
      of the rest). */
  lemma ScanStepMiss(s: string, key: string, vs: seq<nat>)
    requires ScoreLabel(key) && MatchHere(s, key).Miss? && s != []
    requires vs == [] <==> NoScore(s[1..], key)
    requires vs != [] ==> LastScoreIs(s[1..], key, vs[|vs| - 1])
    ensures vs == [] <==> NoScore(s, key)
    ensures vs != [] ==> LastScoreIs(s, key, vs[|vs| - 1])
  {
    assert ScoreAt(s, key, 0).Miss?;
    if vs == [] {
      NoScoreShift(s, key, 1);
    } else {
      LastShift(s, key, 1, vs[|vs| - 1]);
    }
  }

  /** The last element of a sequence built by prepending one value. */
  lemma LastOfCons(v: nat, ws: seq<nat>, vs: seq<nat>)
    requires vs == [v] + ws
    ensures vs != [] && vs[|vs| - 1] == if ws == [] then v else ws[|ws| - 1]
  {
  }

  /** The scan reports nothing exactly when no position starts a match, and
      otherwise its last value is the value of the last match in the text. */
  lemma {:induction false} ScanSpec(s: string, key: string)
    requires ScoreLabel(key)
    ensures Scan(s, key) == [] <==> NoScore(s, key)
    ensures Scan(s, key) != [] ==> LastScoreIs(s, key, Scan(s, key)[|Scan(s, key)| - 1])
    decreases |s|
  {
    var a := MatchHere(s, key);
    if a.Hit? {
      ScanSpec(s[a.len..], key);
      ScanSpecHit(s, key, a.value, a.len);
    } else if s == [] {
      EmptyNoScore(s, key);
    } else {
      ScanSpec(s[1..], key);
      ScanSpecMiss(s, key);
    }
  }

  /** The empty text has no match and the scan reports nothing. */
  lemma EmptyNoScore(s: string, key: string)
    requires |key| > 0 && s == []
    ensures Scan(s, key) == [] && NoScore(s, key)
  {
    assert ScoreAt(s, key, 0).Miss?;
  }

  /** The promise of the scan carries over a match at the start. */
  lemma ScanSpecHit(s: string, key: string, v: nat, n: nat)
    requires ScoreLabel(key) && MatchHere(s, key) == Hit(v, n)
    requires Scan(s[n..], key) == [] <==> NoScore(s[n..], key)
    requires Scan(s[n..], key) != [] ==> LastScoreIs(s[n..], key, Scan(s[n..], key)[|Scan(s[n..], key)| - 1])
    ensures Scan(s, key) == [] <==> NoScore(s, key)
    ensures Scan(s, key) != [] ==> LastScoreIs(s, key, Scan(s, key)[|Scan(s, key)| - 1])
  {
    var ws := Scan(s[n..], key);
    ScanHit(s, key, v, n);
    LastOfCons(v, ws, Scan(s, key));
    ScanStepHit(s, key, v, n, ws);
  }

  /** The promise of the scan carries over a position without a match. */
  lemma ScanSpecMiss(s: string, key: string)
    requires ScoreLabel(key) && MatchHere(s, key).Miss? && s != []
    requires Scan(s[1..], key) == [] <==> NoScore(s[1..], key)
    requires Scan(s[1..], key) != [] ==> LastScoreIs(s[1..], key, Scan(s[1..], key)[|Scan(s[1..], key)| - 1])
    ensures Scan(s, key) == [] <==> NoScore(s, key)
    ensures Scan(s, key) != [] ==> LastScoreIs(s, key, Scan(s, key)[|Scan(s, key)| - 1])
  {
    ScanMiss(s, key);
    ScanStepMiss(s, key, Scan(s[1..], key));
  }

  /** The final scores of one game: the value of the last `Black Score:` match
      and of the last `White Score:` match. The game fails with `ScoreNotFound`
      exactly when one of the two labels has no match at all. */
  function ParseScores(block: string): (r: Result<ScorePair>)
    ensures r.Failure? <==> NoScore(block, BlackKey) || NoScore(block, WhiteKey)
    ensures r.Failure? ==> r.error == ScoreNotFound
    ensures r.Success? ==>
      && LastScoreIs(block, BlackKey, r.value.black)
      && LastScoreIs(block, WhiteKey, r.value.white)
  {
    var b := Scan(block, BlackKey);
    var w := Scan(block, WhiteKey);
    LabelsWellFormed();
    ScanSpec(block, BlackKey);
    ScanSpec(block, WhiteKey);
    if b == [] || w == [] then Failure(ScoreNotFound)
    else Success(ScorePair(b[|b| - 1], w[|w| - 1]))
  }

  /** The last match is unique, so the contract of `ParseScores` fixes its result. */
  lemma LastScoreUnique(s: string, key: string, v: nat, v': nat)
    requires |key| > 0 && LastScoreIs(s, key, v) && LastScoreIs(s, key, v')
    ensures v == v'
  {
    var i :| 0 <= i <= |s| && ScoreAt(s, key, i).Hit? && ScoreAt(s, key, i).value == v &&
      forall j :: i < j <= |s| ==> ScoreAt(s, key, j).Miss?;
    var i' :| 0 <= i' <= |s| && ScoreAt(s, key, i').Hit? && ScoreAt(s, key, i').value == v' &&
      forall j :: i' < j <= |s| ==> ScoreAt(s, key, j).Miss?;
    assert i == i';
  }

  /** One step of the scan. */
  lemma ScanHit(t: string, key: string, v: nat, n: nat)
    requires |key| > 0 && MatchHere(t, key) == Hit(v, n)
    ensures Scan(t, key) == [v] + Scan(t[n..], key)
  {
  }

  /** One step of the scan past a position without a match. */
  lemma ScanMiss(t: string, key: string)
    requires |key| > 0 && MatchHere(t, key).Miss? && t != []
    ensures Scan(t, key) == Scan(t[1..], key)
  {
  }

  /** Positions strictly inside a match found at index `i` start no match. */
  lemma HitSkips(s: string, key: string, i: nat)
    requires ScoreLabel(key) && i <= |s| && ScoreAt(s, key, i).Hit?
    ensures forall j :: i < j < i + ScoreAt(s, key, i).len ==> ScoreAt(s, key, j).Miss?
  {
    var t := s[i..];
    forall j | i < j < i + ScoreAt(s, key, i).len
      ensures ScoreAt(s, key, j).Miss?
    {
      NoHitInside(t, key, j - i);
      SuffixOfSuffix(s, i, j - i);
    }
  }

  /** A run of positions without a match grows by one position without a match. */
  lemma MissExtends(s: string, key: string, lo: nat, i: nat)
    requires |key| > 0 && lo <= i < |s|
    requires forall j :: lo <= j < i ==> ScoreAt(s, key, j).Miss?
    requires MatchHere(s[i..], key).Miss?
    ensures forall j :: lo <= j < i + 1 ==> ScoreAt(s, key, j).Miss?
  {
  }

  /** The explicit left-to-right reduction behind `ParseScores`: one pass over the
      text that remembers only the value of the most recent match. */
  method FindLastScore(s: string, key: string) returns (found: bool, v: nat)
    requires ScoreLabel(key)
    ensures found <==> !NoScore(s, key)
    ensures found ==> LastScoreIs(s, key, v)
  {
    found, v := false, 0;
    var i := 0;
    ghost var last := 0;
    while i < |s|
      invariant i <= |s|
      invariant !found ==> forall j :: 0 <= j < i ==> ScoreAt(s, key, j).Miss?
      invariant found ==> last < i && ScoreAt(s, key, last).Hit? && ScoreAt(s, key, last).value == v
      invariant found ==> forall j :: last < j < i ==> ScoreAt(s, key, j).Miss?
      decreases |s| - i
    {
      var a := MatchHere(s[i..], key);
      if a.Hit? {
        assert a == ScoreAt(s, key, i);
        HitSkips(s, key, i);
        found, v, last := true, a.value, i;
        i := i + a.len;
      } else {
        MissExtends(s, key, if found then last + 1 else 0, i);
        i := i + 1;
      }
    }
    assert ScoreAt(s, key, |s|).Miss?;
  }

  /** `y` cannot continue a match for `key` that starts before it: its first
      character is not whitespace, not a digit and not a non-initial character of
      the label. */
  predicate Separated(y: string, key: string)
    requires |key| > 0
  {
    |y| > 0 ==> !IsSpace(y[0]) && !IsDigit(y[0]) && y[0] !in key[1..]
  }

  /** Text starting with neither whitespace nor a digit does not change what
      follows a label. */
  lemma NumberAfterAppend(r: string, y: string)
    requires |y| > 0 ==> !IsSpace(y[0]) && !IsDigit(y[0])
    ensures NumberAfter(r + y) == NumberAfter(r)
  {
    SpanSpacesAppend(r, y);
    var w := SpanSpaces(r);
    assert (r + y)[w..] == r[w..] + y;
    SpanDigitsAppend(r[w..], y);
    var d := SpanDigits(r[w..]);
    assert (r + y)[w..][..d] == r[w..][..d];
  }

  /** A label that does not fit in `x` cannot be completed by separated text. */
  lemma LabelNotCompleted(x: string, y: string, key: string)
    requires |key| > 0 && |x| > 0 && Separated(y, key) && !(key <= x)
    ensures !(key <= x + y)
  {
    var t := x + y;
    if |key| <= |x| {
      assert t[..|key|] == x[..|key|];
    } else if |key| <= |t| {
      assert t[|x|] == y[0];
      assert key[|x|] == key[1..][|x| - 1];
      assert key[|x|] != t[..|key|][|x|];
    }
  }

  /** The attempt at the start of a non-empty text is unchanged by appending
      separated text. */
  lemma MatchHereAppend(x: string, y: string, key: string)
    requires |key| > 0 && |x| > 0 && Separated(y, key)
    ensures MatchHere(x + y, key) == MatchHere(x, key)
  {
    var t := x + y;
    if key <= x {
      assert t[..|key|] == x[..|key|];
      assert t[|key|..] == x[|key|..] + y;
      NumberAfterAppend(x[|key|..], y);
    } else {
      LabelNotCompleted(x, y, key);
    }
  }

  /** A suffix of `x + y` that starts inside `x`. Kept separate so the scan
      proofs can use it without unfolding the slices themselves. */
  lemma TailOfAppend(x: string, y: string, n: nat)
    requires n <= |x|
    ensures (x + y)[n..] == x[n..] + y
  {
  }

  /** Associativity of prepending one value to a concatenation; used to line up
      the scan of `x + y` with the scan of `x` followed by that of `y`. */
  lemma ConsAssoc(v: nat, a: seq<nat>, b: seq<nat>)
    ensures [v] + (a + b) == ([v] + a) + b
  {
  }

  /** One step of `ScanAppend` when the attempt at the start of both texts
      is the same hit. */
  lemma ScanAppendHit(x: string, y: string, key: string, v: nat, n: nat)
    requires |key| > 0 && n <= |x|
    requires MatchHere(x, key) == Hit(v, n) && MatchHere(x + y, key) == Hit(v, n)
    requires Scan(x[n..] + y, key) == Scan(x[n..], key) + Scan(y, key)
    ensures Scan(x + y, key) == Scan(x, key) + Scan(y, key)
  {
    TailOfAppend(x, y, n);
    ScanHit(x + y, key, v, n);
    ScanHit(x, key, v, n);
    ConsAssoc(v, Scan(x[n..], key), Scan(y, key));
  }

  /** One step of `ScanAppend` when neither text starts with a match. */
  lemma ScanAppendMiss(x: string, y: string, key: string)
    requires |key| > 0 && |x| > 0
    requires MatchHere(x, key).Miss? && MatchHere(x + y, key).Miss?
    requires Scan(x[1..] + y, key) == Scan(x[1..], key) + Scan(y, key)
    ensures Scan(x + y, key) == Scan(x, key) + Scan(y, key)
  {
    TailOfAppend(x, y, 1);
    ScanMiss(x + y, key);
    ScanMiss(x, key);
  }

  /** Appending separated text never merges with or cuts into the matches before
      it: the matches of the whole are those of the parts, in order. */
  lemma {:induction false} ScanAppend(x: string, y: string, key: string)
    requires |key| > 0 && Separated(y, key)
    ensures Scan(x + y, key) == Scan(x, key) + Scan(y, key)
    decreases |x|
  {
    if x == [] {
      assert x + y == y;
    } else {
      MatchHereAppend(x, y, key);
      var a := MatchHere(x, key);
      if a.Hit? {
        ScanAppend(x[a.len..], y, key);
        ScanAppendHit(x, y, key, a.value, a.len);
      } else {
        ScanAppend(x[1..], y, key);
        ScanAppendMiss(x, y, key);
      }
    }
  }

  /** Separated from both labels. */
  predicate SeparatedFromLabels(y: string) {
    Separated(y, BlackKey) && Separated(y, WhiteKey)
  }

  /** Appending separated text that reports no score leaves the result unchanged. */
  lemma AppendQuietText(x: string, y: string)
    requires SeparatedFromLabels(y) && NoScore(y, BlackKey) && NoScore(y, WhiteKey)
    ensures ParseScores(x + y) == ParseScores(x)
  {
    LabelsWellFormed();
    ScanSpec(y, BlackKey);
    ScanSpec(y, WhiteKey);
    ScanAppend(x, y, BlackKey);
    ScanAppend(x, y, WhiteKey);
    assert Scan(x + y, BlackKey) == Scan(x, BlackKey);
    assert Scan(x + y, WhiteKey) == Scan(x, WhiteKey);
  }

  /** A later text that reports both scores decides the result, whatever was
      logged before it: the last report wins. */
  lemma LaterReportWins(x: string, y: string)
    requires ParseScores(y).Success?
    ensures ParseScores(x + y) == ParseScores(y)
  {
    var p := ParseScores(y).value;
    assert (x + y)[|x|..] == y;
    LastShift(x + y, BlackKey, |x|, p.black);
    LastShift(x + y, WhiteKey, |x|, p.white);
    LastFound(x + y, BlackKey, p.black);
    LastFound(x + y, WhiteKey, p.white);
    var q := ParseScores(x + y).value;
    LastScoreUnique(x + y, BlackKey, q.black, p.black);
    LastScoreUnique(x + y, WhiteKey, q.white, p.white);
  }

  /** A text with a last match has a match. */
  lemma LastFound(s: string, key: string, v: nat)
    requires |key| > 0 && LastScoreIs(s, key, v)
    ensures !NoScore(s, key)
  {
    var i :| 0 <= i <= |s| && ScoreAt(s, key, i).Hit? && ScoreAt(s, key, i).value == v &&
      forall j :: i < j <= |s| ==> ScoreAt(s, key, j).Miss?;
  }

  /** A score line as the engine prints it: label, one space, numeral, newline. */
  function ScoreLine(key: string, v: nat): string {
    key + " " + Render(v) + "\n"
  }

  /** The final score report of a game: the black line, then the white line. */
  function Report(s: ScorePair): string {
    ScoreLine(BlackKey, s.black) + ScoreLine(WhiteKey, s.white)
  }

  /** A text in which the label's first character never appears has no match. */
  lemma AbsentLabel(t: string, key: string)
    requires |key| > 0 && key[0] !in t
    ensures NoScore(t, key)
  {
    forall i | 0 <= i <= |t|
      ensures ScoreAt(t, key, i).Miss?
    {
      if i < |t| {
        assert t[i..][0] == t[i];
      }
    }
  }

  /** A score line is read back as its own value. */
  lemma ScanOwnLine(key: string, v: nat)
    requires ScoreLabel(key)
    ensures Scan(ScoreLine(key, v), key) == [v]
  {
    var t := ScoreLine(key, v);
    var r := Render(v);
    assert t[..|key|] == key;
    var rest := t[|key|..];
    assert rest == [' '] + r + "\n";
    SpanSpacesIs(rest, 1);
    assert rest[1..] == r + "\n";
    assert (r + "\n")[..|r|] == r;
    SpanDigitsIs(rest[1..], |r|);
    assert MatchHere(t, key) == Hit(v, |key| + 1 + |r|);
    ScanHit(t, key, v, |key| + 1 + |r|);
    assert t[|key| + 1 + |r|..] == "\n";
    AbsentLabel("\n", key);
    ScanSpec("\n", key);
  }

  /** A score line for the other label holds no match for this one. */
  lemma ScanOtherLine(key: string, other: string, v: nat)
    requires ScoreLabel(key) && key[0] !in other
    ensures Scan(ScoreLine(other, v), key) == []
  {
    NotInDigits(key[0], Render(v));
    AbsentLabel(ScoreLine(other, v), key);
    ScanSpec(ScoreLine(other, v), key);
  }

  /** The lines of a report are separated from both labels. */
  lemma LinesSeparated(v: nat)
    ensures SeparatedFromLabels(ScoreLine(BlackKey, v))
    ensures SeparatedFromLabels(ScoreLine(WhiteKey, v))
  {
    assert ScoreLine(BlackKey, v)[0] == 'B';
    assert ScoreLine(WhiteKey, v)[0] == 'W';
  }

  /** Round trip: whatever a game logged first, a final report of its scores is
      parsed back to exactly those scores. */
  lemma ParseReport(log: string, s: ScorePair)
    ensures ParseScores(log + Report(s)) == Success(s)
  {
    var lb, lw := ScoreLine(BlackKey, s.black), ScoreLine(WhiteKey, s.white);
    LabelsWellFormed();
    LinesSeparated(s.black);
    LinesSeparated(s.white);
    ScanOwnLine(BlackKey, s.black);
    ScanOwnLine(WhiteKey, s.white);
    ScanOtherLine(BlackKey, WhiteKey, s.white);
    ScanOtherLine(WhiteKey, BlackKey, s.black);
    ScanAppend(lb, lw, BlackKey);
    ScanAppend(lb, lw, WhiteKey);
    assert Report(s)[0] == 'B';
    ScanAppend(log, Report(s), BlackKey);
    ScanAppend(log, Report(s), WhiteKey);
  }
}
