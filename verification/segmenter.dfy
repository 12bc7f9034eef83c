/** Cutting the combined output of one tournament invocation into its games:
    every occurrence of the termination marker closes one game. */
module Segmenter {
  import opened Results
  import opened Text

  /** The line the engine prints when a game is over. It holds no regular-expression
      metacharacter, so the runner's `re.finditer` search for it is a literal search. */
  const Marker: string := "INFO: Game has terminated!"

  /** A tournament is exactly two games. */
  const ExpectedGames: nat := 2

  /** The marker's first character does not recur in it. */
  lemma MarkerUnbordered()
    ensures Unbordered(Marker)
  {
  }

  /** Exactly two positions of `out` start `pat`. */
  ghost predicate ExactlyTwo(out: string, pat: string) {
    exists p0: nat, p1: nat ::
      && p0 < p1
      && MatchesAt(out, pat, p0)
      && MatchesAt(out, pat, p1)
      && forall k: nat :: MatchesAt(out, pat, k) ==> k == p0 || k == p1
  }

  /** Boundaries that can drive the cutting loop: ordered, at least `m` apart,
      starting at or after `prev` and ending inside `s`. */
  ghost predicate Chain(s: string, ps: seq<nat>, prev: nat, m: nat) {
    && prev <= |s|
    && (|ps| > 0 ==> prev <= ps[0])
    && (forall k :: 0 <= k < |ps| ==> ps[k] + m <= |s|)
    && (forall i, j :: 0 <= i < j < |ps| ==> ps[i] + m <= ps[j])
  }

  /** Where block `i` starts: at `prev` for the first block, otherwise at the end
      of boundary `i - 1`. */
  function BlockStart(ps: seq<nat>, prev: nat, m: nat, i: nat): nat
    requires i < |ps|
  {
    if i == 0 then prev else ps[i - 1] + m
  }

  /** The cutting loop over the boundaries `ps` of width `m`: block `i` runs from
      the end of boundary `i - 1` (or from `prev`) to the start of boundary `i`, and
      text after the last boundary is dropped. */
  function Cut(s: string, ps: seq<nat>, prev: nat, m: nat): (blocks: seq<string>)
    requires Chain(s, ps, prev, m)
    ensures |blocks| == |ps|
    ensures forall i :: 0 <= i < |ps| ==>
      BlockStart(ps, prev, m, i) <= ps[i] && blocks[i] == s[BlockStart(ps, prev, m, i)..ps[i]]
  {
    if ps == [] then []
    else
      ChainTail(s, ps, prev, m);
      var rest := Cut(s, ps[1..], ps[0] + m, m);
      var blocks := [s[prev..ps[0]]] + rest;
      CutStep(s, ps, prev, m, rest, blocks);
      blocks
  }

  /** The first block in front of the blocks of the remaining boundaries. */
  lemma CutStep(s: string, ps: seq<nat>, prev: nat, m: nat, rest: seq<string>, blocks: seq<string>)
    requires |ps| == |rest| + 1 && prev <= ps[0]
    requires forall k :: 0 <= k < |ps| ==> ps[k] <= |s|
    requires forall i {:trigger rest[i]} :: 0 <= i < |rest| ==>
      BlockStart(ps[1..], ps[0] + m, m, i) <= ps[1..][i] &&
      rest[i] == s[BlockStart(ps[1..], ps[0] + m, m, i)..ps[1..][i]]
    requires blocks == [s[prev..ps[0]]] + rest
    ensures forall i {:trigger blocks[i]} :: 0 <= i < |ps| ==>
      BlockStart(ps, prev, m, i) <= ps[i] && blocks[i] == s[BlockStart(ps, prev, m, i)..ps[i]]
  {
    forall i | 0 <= i < |ps|
      ensures BlockStart(ps, prev, m, i) <= ps[i] && blocks[i] == s[BlockStart(ps, prev, m, i)..ps[i]]
    {
      if i > 0 {
        assert ps[1..][i - 1] == ps[i];
        assert BlockStart(ps[1..], ps[0] + m, m, i - 1) == BlockStart(ps, prev, m, i);
        assert blocks[i] == rest[i - 1];
      }
    }
  }

  /** The boundaries after the first drive the rest of the loop. */
  lemma ChainTail(s: string, ps: seq<nat>, prev: nat, m: nat)
    requires Chain(s, ps, prev, m) && |ps| > 0
    ensures Chain(s, ps[1..], ps[0] + m, m)
  {
    var tl := ps[1..];
    assert forall k :: 0 <= k < |tl| ==> tl[k] == ps[k + 1];
    if |tl| > 0 {
      assert ps[0] + m <= ps[1];
    }
  }

  /** Every occurrence of an unbordered pattern is among the scanned positions. */
  lemma AllFound(out: string, pat: string)
    requires Unbordered(pat)
    ensures forall k: nat :: MatchesAt(out, pat, k) ==> k in FindAll(out, pat, 0)
  {
    forall k: nat | MatchesAt(out, pat, k)
      ensures k in FindAll(out, pat, 0)
    {
      FindAllComplete(out, pat, 0, k);
    }
  }

  /** A two-element sequence holds only its two elements. */
  lemma InTwo<T>(s: seq<T>, x: T)
    requires |s| == 2 && x in s
    ensures x == s[0] || x == s[1]
  {
  }

  /** When the scan reports two positions, no other position starts the pattern. */
  lemma OnlyScanned(out: string, pat: string)
    requires Unbordered(pat) && |FindAll(out, pat, 0)| == 2
    ensures forall k: nat :: MatchesAt(out, pat, k) ==>
      k == FindAll(out, pat, 0)[0] || k == FindAll(out, pat, 0)[1]
  {
    forall k: nat | MatchesAt(out, pat, k)
      ensures k == FindAll(out, pat, 0)[0] || k == FindAll(out, pat, 0)[1]
    {
      FindAllComplete(out, pat, 0, k);
      InTwo(FindAll(out, pat, 0), k);
    }
  }

  /** Two ordered occurrences that are the only ones witness `ExactlyTwo`. */
  lemma TwoWitness(out: string, pat: string, p0: nat, p1: nat)
    requires p0 < p1 && MatchesAt(out, pat, p0) && MatchesAt(out, pat, p1)
    requires forall k: nat :: MatchesAt(out, pat, k) ==> k == p0 || k == p1
    ensures ExactlyTwo(out, pat)
  {
  }

  /** When the scan reports two positions, the pattern occurs exactly there. */
  lemma CountTwoSound(out: string, pat: string)
    requires Unbordered(pat) && |FindAll(out, pat, 0)| == 2
    ensures ExactlyTwo(out, pat)
    ensures FindAll(out, pat, 0)[0] < FindAll(out, pat, 0)[1]
    ensures MatchesAt(out, pat, FindAll(out, pat, 0)[0]) && MatchesAt(out, pat, FindAll(out, pat, 0)[1])
    ensures forall k: nat :: MatchesAt(out, pat, k) ==>
      k == FindAll(out, pat, 0)[0] || k == FindAll(out, pat, 0)[1]
  {
    var ps := FindAll(out, pat, 0);
    OnlyScanned(out, pat);
    assert ps[0] < ps[1];
    TwoWitness(out, pat, ps[0], ps[1]);
  }

  /** When the pattern occurs exactly at `p0` and `p1`, the scan reports both and
      nothing else. */
  lemma OnlyAt(out: string, pat: string, p0: nat, p1: nat)
    requires Unbordered(pat) && MatchesAt(out, pat, p0) && MatchesAt(out, pat, p1)
    requires forall k: nat :: MatchesAt(out, pat, k) ==> k == p0 || k == p1
    ensures p0 in FindAll(out, pat, 0) && p1 in FindAll(out, pat, 0)
    ensures forall i :: 0 <= i < |FindAll(out, pat, 0)| ==>
      FindAll(out, pat, 0)[i] == p0 || FindAll(out, pat, 0)[i] == p1
  {
    AllFound(out, pat);
  }

  /** When the pattern occurs at exactly two positions, the scan reports two. */
  lemma CountTwoComplete(out: string, pat: string)
    requires Unbordered(pat) && ExactlyTwo(out, pat)
    ensures |FindAll(out, pat, 0)| == 2
  {
    var p0: nat, p1: nat :|
      && p0 < p1
      && MatchesAt(out, pat, p0)
      && MatchesAt(out, pat, p1)
      && forall k: nat :: MatchesAt(out, pat, k) ==> k == p0 || k == p1;
    OnlyAt(out, pat, p0, p1);
    TwoValues(FindAll(out, pat, 0), p0, p1);
  }

  /** The marker scan reports two positions exactly when the pattern occurs at
      exactly two positions, and then those are the only ones. */
  lemma CountTwo(out: string, pat: string)
    requires Unbordered(pat)
    ensures |FindAll(out, pat, 0)| == 2 <==> ExactlyTwo(out, pat)
    ensures |FindAll(out, pat, 0)| == 2 ==>
      forall k: nat :: MatchesAt(out, pat, k) ==>
        k == FindAll(out, pat, 0)[0] || k == FindAll(out, pat, 0)[1]
  {
    if |FindAll(out, pat, 0)| == 2 {
      CountTwoSound(out, pat);
    }
    if ExactlyTwo(out, pat) {
      CountTwoComplete(out, pat);
    }
  }

  /** Element `i` of `ps`, or 0 past its end. */
  function ElemOr(ps: seq<nat>, i: nat): nat {
    if i < |ps| then ps[i] else 0
  }

  /** A strictly increasing sequence holding two distinct values and nothing else
      has exactly two elements. */
  lemma TwoValues(ps: seq<nat>, a: nat, b: nat)
    requires a != b && a in ps && b in ps
    requires forall i :: 0 <= i < |ps| ==> ps[i] == a || ps[i] == b
    requires forall i, j :: 0 <= i < j < |ps| ==> ps[i] < ps[j]
    ensures |ps| == 2
  {
    // Naming the first three elements lets the solver see that a third element
    // would be a third distinct value; `ElemOr` keeps the terms well defined.
    ghost var firstThree := [ElemOr(ps, 0), ElemOr(ps, 1), ElemOr(ps, 2)];
  }

  /** A slice that lies between two consecutive occurrences (or before the first,
      or after the last) holds no occurrence of its own. */
  lemma GapFree(out: string, pat: string, lo: nat, hi: nat, p0: nat, p1: nat)
    requires |pat| > 0 && lo <= hi <= |out|
    requires forall k: nat :: MatchesAt(out, pat, k) ==> k == p0 || k == p1
    requires (p0 < lo || hi <= p0) && (p1 < lo || hi <= p1)
    ensures !Contains(out[lo..hi], pat)
  {
    if Contains(out[lo..hi], pat) {
      var j: nat :| j <= hi - lo && MatchesAt(out[lo..hi], pat, j);
      SliceMatch(out, pat, lo, hi, j);
      assert false;
    }
  }

  /** The shape of a successful split: each block is free of the pattern, the
      blocks with the pattern put back form a prefix of the text, and no further
      occurrence follows that prefix. */
  lemma TwoBlocks(out: string, pat: string, p0: nat, p1: nat)
    requires Unbordered(pat)
    requires p0 < p1 && MatchesAt(out, pat, p0) && MatchesAt(out, pat, p1)
    requires forall k: nat :: MatchesAt(out, pat, k) ==> k == p0 || k == p1
    ensures p0 + |pat| <= p1
    ensures !Contains(out[0..p0], pat)
    ensures !Contains(out[p0 + |pat|..p1], pat)
    ensures out[0..p0] + pat + out[p0 + |pat|..p1] + pat == out[0..p1 + |pat|]
    ensures !Contains(out[p1 + |pat|..], pat)
  {
    var m := |pat|;
    if p1 < p0 + m {
      NoMatchInside(out, pat, p0, p1);
      assert false;
    }
    GapFree(out, pat, 0, p0, p0, p1);
    GapFree(out, pat, p0 + m, p1, p0, p1);
    GapFree(out, pat, p1 + m, |out|, p0, p1);
    assert out[p1 + m..] == out[p1 + m..|out|];
    Rebuild(out, pat, p0, p1);
  }

  /** The blocks before and between two occurrences, with the occurrences put
      back, are the text up to the end of the second occurrence. */
  lemma Rebuild(out: string, pat: string, p0: nat, p1: nat)
    requires p0 + |pat| <= p1 && MatchesAt(out, pat, p0) && MatchesAt(out, pat, p1)
    ensures out[0..p0] + pat + out[p0 + |pat|..p1] + pat == out[0..p1 + |pat|]
  {
    var m := |pat|;
    SliceSplit(out, 0, p0, p0 + m);
    SliceSplit(out, 0, p0 + m, p1);
    SliceSplit(out, 0, p1, p1 + m);
  }

  /** Cutting at two boundaries yields the text before the first and the text
      between the two. */
  lemma CutTwo(s: string, ps: seq<nat>, m: nat, p0: nat, p1: nat)
    requires |ps| == 2 && Chain(s, ps, 0, m) && ps[0] == p0 && ps[1] == p1
    ensures p0 + m <= p1 <= |s|
    ensures Cut(s, ps, 0, m) == [s[0..p0], s[p0 + m..p1]]
  {
    var segs := Cut(s, ps, 0, m);
    assert BlockStart(ps, 0, m, 0) == 0 && BlockStart(ps, 0, m, 1) == ps[0] + m;
  }

  /** The two blocks the cutting loop yields from two scanned occurrences have
      the shape a successful split promises. */
  lemma CutShape(out: string, pat: string)
    requires Unbordered(pat) && |FindAll(out, pat, 0)| == 2
    ensures Chain(out, FindAll(out, pat, 0), 0, |pat|)
    ensures var segs := Cut(out, FindAll(out, pat, 0), 0, |pat|);
      && |segs| == 2
      && !Contains(segs[0], pat)
      && !Contains(segs[1], pat)
      && segs[0] + pat + segs[1] + pat <= out
      && !Contains(out[|segs[0] + pat + segs[1] + pat|..], pat)
  {
    ScanChain(out, pat);
    CountTwoSound(out, pat);
    CutShapeAt(out, pat, FindAll(out, pat, 0));
  }

  /** `CutShape` for any two boundaries that are the only occurrences. */
  lemma CutShapeAt(out: string, pat: string, ps: seq<nat>)
    requires Unbordered(pat) && |ps| == 2 && Chain(out, ps, 0, |pat|)
    requires ps[0] < ps[1] && MatchesAt(out, pat, ps[0]) && MatchesAt(out, pat, ps[1])
    requires forall k: nat :: MatchesAt(out, pat, k) ==> k == ps[0] || k == ps[1]
    ensures var segs := Cut(out, ps, 0, |pat|);
      && |segs| == 2
      && !Contains(segs[0], pat)
      && !Contains(segs[1], pat)
      && segs[0] + pat + segs[1] + pat <= out
      && !Contains(out[|segs[0] + pat + segs[1] + pat|..], pat)
  {
    var p0, p1 := ps[0], ps[1];
    assert p1 + |pat| <= |out|;
    TwoBlocks(out, pat, p0, p1);
    CutTwo(out, ps, |pat|, p0, p1);
    BlockShape(out, pat, Cut(out, ps, 0, |pat|), p0, p1);
  }

  /** The scanned positions can drive the cutting loop. */
  lemma ScanChain(out: string, pat: string)
    requires |pat| > 0
    ensures Chain(out, FindAll(out, pat, 0), 0, |pat|)
  {
  }

  /** The blocks before and between two occurrences, described by their slices. */
  lemma BlockShape(out: string, pat: string, segs: seq<string>, p0: nat, p1: nat)
    requires p0 + |pat| <= p1 && p1 + |pat| <= |out|
    requires segs == [out[0..p0], out[p0 + |pat|..p1]]
    requires !Contains(out[0..p0], pat) && !Contains(out[p0 + |pat|..p1], pat)
    requires out[0..p0] + pat + out[p0 + |pat|..p1] + pat == out[0..p1 + |pat|]
    requires !Contains(out[p1 + |pat|..], pat)
    ensures |segs| == 2
    ensures !Contains(segs[0], pat) && !Contains(segs[1], pat)
    ensures segs[0] + pat + segs[1] + pat <= out
    ensures !Contains(out[|segs[0] + pat + segs[1] + pat|..], pat)
  {
    PrefixOf(out, segs[0] + pat + segs[1] + pat, p1 + |pat|);
  }

  /** A slice from the start is a prefix of the same length. */
  lemma PrefixOf<T>(s: seq<T>, p: seq<T>, n: nat)
    requires n <= |s| && p == s[0..n]
    ensures p <= s && |p| == n
  {
  }

  /** The game-segmentation step of a tournament run: the transcript must hold
      exactly two termination markers, and otherwise the run fails reporting how
      many it holds; the two games are the text before the first marker and the
      text between the markers. On success neither game contains the
      marker, both games with their markers put back are a prefix of the transcript,
      and no marker follows that prefix. */
  function SplitGames(out: string): (r: Result<seq<string>>)
    ensures r.Success? <==> ExactlyTwo(out, Marker)
    ensures r.Failure? ==> r.error == UnexpectedGameCount(|Occurrences(out, Marker)|)
    ensures r.Failure? ==> r.error.found != ExpectedGames
    ensures r.Success? ==>
      && |r.value| == ExpectedGames
      && !Contains(r.value[0], Marker)
      && !Contains(r.value[1], Marker)
      && r.value[0] + Marker + r.value[1] + Marker <= out
      && !Contains(out[|r.value[0] + Marker + r.value[1] + Marker|..], Marker)
  {
    var ps := FindAll(out, Marker, 0);
    MarkerUnbordered();
    CountTwo(out, Marker);
    CountOccurrences(out, Marker);
    if |ps| != ExpectedGames then Failure(UnexpectedGameCount(|ps|))
    else
      CutShape(out, Marker);
      Success(Cut(out, ps, 0, |Marker|))
  }

  /** Where an occurrence of an unbordered `pat` can sit in `a + pat + b`: wholly
      inside `a`, exactly at the separating copy, or wholly inside `b`. */
  lemma MatchAround(a: string, pat: string, b: string, k: nat)
    requires Unbordered(pat) && MatchesAt(a + pat + b, pat, k)
    ensures || (k + |pat| <= |a| && MatchesAt(a, pat, k))
            || k == |a|
            || (k >= |a| + |pat| && MatchesAt(b, pat, k - |a| - |pat|))
  {
    var m := |pat|;
    var t := a + pat + b;
    assert t[|a|..|a| + m] == pat;
    assert MatchesAt(t, pat, |a|);
    if k < |a| && |a| < k + m {
      NoMatchInside(t, pat, k, |a|);
      assert false;
    } else if |a| < k < |a| + m {
      NoMatchInside(t, pat, |a|, k);
      assert false;
    } else if k + m <= |a| {
      assert t[k..k + m] == a[k..k + m];
    } else if k >= |a| + m {
      var j := k - |a| - m;
      assert t[k..k + m] == b[j..j + m];
    }
  }

  /** The glued copy of the pattern is an occurrence. */
  lemma GluedAt(a: string, pat: string, b: string)
    ensures MatchesAt(a + pat + b, pat, |a|)
  {
    assert (a + pat + b)[|a|..|a| + |pat|] == pat;
  }

  /** Regrouping of a five-part concatenation. It is stated on its own, because
      proving sequence associativity inside a larger proof costs the solver far more. */
  lemma Regroup5<T>(a: seq<T>, b: seq<T>, c: seq<T>, d: seq<T>, e: seq<T>)
    ensures a + b + c + d + e == a + b + (c + d + e)
  {
  }

  /** In two pattern-free blocks and a pattern-free trailer glued with the pattern,
      an occurrence sits at one of the two glue points. */
  lemma OnlyGlued(g0: string, g1: string, tail: string, pat: string, k: nat)
    requires Unbordered(pat)
    requires !Contains(g0, pat) && !Contains(g1, pat) && !Contains(tail, pat)
    requires MatchesAt(g0 + pat + g1 + pat + tail, pat, k)
    ensures k == |g0| || k == |g0| + |pat| + |g1|
  {
    var rest := g1 + pat + tail;
    Regroup5(g0, pat, g1, pat, tail);
    MatchAround(g0, pat, rest, k);
    if k >= |g0| + |pat| {
      MatchAround(g1, pat, tail, k - |g0| - |pat|);
    }
  }

  /** Gluing two pattern-free blocks and a pattern-free trailer with the pattern
      gives a text in which the pattern occurs exactly at the two glue points. */
  lemma GluedOccurrences(g0: string, g1: string, tail: string, pat: string)
    requires Unbordered(pat)
    requires !Contains(g0, pat) && !Contains(g1, pat) && !Contains(tail, pat)
    ensures var out := g0 + pat + g1 + pat + tail;
      && MatchesAt(out, pat, |g0|)
      && MatchesAt(out, pat, |g0| + |pat| + |g1|)
      && forall k: nat :: MatchesAt(out, pat, k) ==> k == |g0| || k == |g0| + |pat| + |g1|
  {
    Regroup5(g0, pat, g1, pat, tail);
    GluedAt(g0, pat, g1 + pat + tail);
    GluedAt(g0 + pat + g1, pat, tail);
    forall k: nat | MatchesAt(g0 + pat + g1 + pat + tail, pat, k)
      ensures k == |g0| || k == |g0| + |pat| + |g1|
    {
      OnlyGlued(g0, g1, tail, pat, k);
    }
  }

  /** A transcript in which the marker occurs exactly at `p0` and `p1` splits into
      the text before `p0` and the text between the two markers. */
  lemma SplitAtTwo(out: string, p0: nat, p1: nat)
    requires p0 < p1 && MatchesAt(out, Marker, p0) && MatchesAt(out, Marker, p1)
    requires forall k: nat :: MatchesAt(out, Marker, k) ==> k == p0 || k == p1
    ensures p0 + |Marker| <= p1
    ensures SplitGames(out) == Success([out[0..p0], out[p0 + |Marker|..p1]])
  {
    MarkerUnbordered();
    ScanFindsTwo(out, Marker, p0, p1);
    NoOverlap(out, Marker, p0, p1);
    ScanChain(out, Marker);
    CutTwo(out, [p0, p1], |Marker|, p0, p1);
  }

  /** Two occurrences of an unbordered pattern do not overlap. */
  lemma NoOverlap(out: string, pat: string, p0: nat, p1: nat)
    requires Unbordered(pat) && p0 < p1 && MatchesAt(out, pat, p0) && MatchesAt(out, pat, p1)
    ensures p0 + |pat| <= p1
  {
    if p1 < p0 + |pat| {
      NoMatchInside(out, pat, p0, p1);
      assert false;
    }
  }

  /** When the pattern occurs exactly at `p0` and `p1`, the scan reports exactly
      those two positions. */
  lemma ScanFindsTwo(out: string, pat: string, p0: nat, p1: nat)
    requires Unbordered(pat) && p0 < p1 && MatchesAt(out, pat, p0) && MatchesAt(out, pat, p1)
    requires forall k: nat :: MatchesAt(out, pat, k) ==> k == p0 || k == p1
    ensures FindAll(out, pat, 0) == [p0, p1]
  {
    var ps := FindAll(out, pat, 0);
    OnlyAt(out, pat, p0, p1);
    TwoValues(ps, p0, p1);
    assert ps[0] < ps[1];
  }

  /** The pieces of `a + pat + b + rest` at their own positions. */
  lemma GluedSlices(a: string, pat: string, b: string, rest: string)
    ensures var out := a + pat + b + rest;
      && out[0..|a|] == a
      && out[|a| + |pat|..|a| + |pat| + |b|] == b
  {
  }

  /** Associativity of concatenation, stated on its own for the same reason as
      `Regroup5`. */
  lemma AppendAssoc<T>(a: seq<T>, b: seq<T>, c: seq<T>)
    ensures a + b + c == a + (b + c)
  {
  }

  /** Splitting is the inverse of joining: two marker-free games and a marker-free
      trailer, glued with the marker, split back into exactly those two games. */
  lemma SplitJoin(g0: string, g1: string, tail: string)
    requires !Contains(g0, Marker) && !Contains(g1, Marker) && !Contains(tail, Marker)
    ensures SplitGames(g0 + Marker + g1 + Marker + tail) == Success([g0, g1])
  {
    MarkerUnbordered();
    GluedOccurrences(g0, g1, tail, Marker);
    SplitAtTwo(g0 + Marker + g1 + Marker + tail, |g0|, |g0| + |Marker| + |g1|);
    var rest := Marker + tail;
    AppendAssoc(g0 + Marker + g1, Marker, tail);
    GluedSlices(g0, Marker, g1, rest);
  }
}
