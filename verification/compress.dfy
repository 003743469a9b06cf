/** `compressHandRange`: turning a list of hand codes into range tokens such as
    "AKs-AJs" (src/utils/handRangeUtils.ts). */
module Compress {
  import opened Js
  import opened Seqs
  import opened HandCodes

  // ---------------------------------------------------------------------------
  // Sorting

  /** The sort comparator, read as "a goes strictly before b": a higher first rank,
      or the same first rank and a higher second rank. Non-ranks count as -1. */
  predicate Precedes(a: string, b: string) {
    || RankAt(a, 0) > RankAt(b, 0)
    || (RankAt(a, 0) == RankAt(b, 0) && RankAt(a, 1) > RankAt(b, 1))
  }

  /** Descending by (first rank, second rank): no code strictly precedes the one
      before it. */
  ghost predicate SortedDesc(s: seq<string>) {
    forall i, j :: 0 <= i < j < |s| && j == i + 1 ==> !Precedes(s[j], s[i])
  }

  /** The comparator is a strict weak order: irreflexive and transitive. */
  lemma PrecedesTransitive(a: string, b: string, c: string)
    requires Precedes(a, b) && Precedes(b, c)
    ensures Precedes(a, c) && !Precedes(b, a)
  {
  }

  /** Inserts `x` before the first element it strictly precedes, after every
      element it does not. */
  function Insert(x: string, s: seq<string>): seq<string> {
    if s == [] then [x]
    else if Precedes(x, s[0]) then [x] + s
    else [s[0]] + Insert(x, s[1..])
  }

  lemma {:induction false} InsertPermutes(x: string, s: seq<string>)
    ensures multiset(Insert(x, s)) == multiset(s) + multiset{x}
    decreases |s|
  {
    if s != [] && !Precedes(x, s[0]) {
      InsertPermutes(x, s[1..]);
      assert s == [s[0]] + s[1..];
    }
  }

  lemma {:induction false} InsertSorted(x: string, s: seq<string>)
    requires SortedDesc(s)
    ensures SortedDesc(Insert(x, s))
    ensures |s| > 0 ==> Insert(x, s)[0] == x || Insert(x, s)[0] == s[0]
    decreases |s|
  {
    if s != [] && !Precedes(x, s[0]) {
      var t := Insert(x, s[1..]);
      InsertSorted(x, s[1..]);
      var r := [s[0]] + t;
      assert r[1] == t[0];
      if |s| > 1 {
        assert t[0] == x || t[0] == s[1];
      }
      forall i, j | 0 <= i < j < |r| && j == i + 1 ensures !Precedes(r[j], r[i]) {
        if i > 0 {
          assert r[j] == t[j - 1] && r[i] == t[i - 1];
        }
      }
    }
  }

  /** The comparator sort, as an insertion sort: codes already in order stay where
      they are, tied codes included (`TiedCodesKeepOrder`). */
  function SortHands(s: seq<string>): seq<string> {
    if s == [] then [] else Insert(s[|s| - 1], SortHands(s[..|s| - 1]))
  }

  /** The sort permutes its input into descending order. */
  lemma {:induction false} SortHandsSorts(s: seq<string>)
    ensures multiset(SortHands(s)) == multiset(s)
    ensures SortedDesc(SortHands(s))
    decreases |s|
  {
    if s != [] {
      var p := s[..|s| - 1];
      assert s == p + [s[|s| - 1]];
      SortHandsSorts(p);
      InsertSorted(s[|s| - 1], SortHands(p));
      InsertPermutes(s[|s| - 1], SortHands(p));
    }
  }

  /** The sorted list the scan works on: the distinct codes, sorted descending. It
      is a sorted permutation of the deduplicated input. */
  lemma SortedDistinct(hands: seq<string>)
    ensures var s := SortHands(Dedup(hands));
      && SortedDesc(s)
      && multiset(s) == multiset(Dedup(hands))
      && NoDup(s)
      && Elems(s) == Elems(hands)
      && |s| == |Elems(hands)|
  {
    var d := Dedup(hands);
    var s := SortHands(d);
    SortHandsSorts(d);
    DedupSpec(hands);
    assert |s| == |multiset(s)| == |multiset(d)| == |d|;
    forall y ensures y in s <==> y in d {
      assert y in s <==> y in multiset(s);
      assert y in d <==> y in multiset(d);
    }
    assert Elems(s) == Elems(d);
    NoDupCard(d);
    if !NoDup(s) {
      var i, j :| 0 <= i < j < |s| && s[i] == s[j];
      ElemsDropOne(s, i, j);
      CardElems(s[..i] + s[i + 1..]);
      assert false;
    }
  }

  /** Removing one of two equal entries keeps the same set of elements. */
  lemma ElemsDropOne(s: seq<string>, i: nat, j: nat)
    requires i < j < |s| && s[i] == s[j]
    ensures Elems(s[..i] + s[i + 1..]) == Elems(s)
    ensures |s[..i] + s[i + 1..]| == |s| - 1
  {
    var t := s[..i] + s[i + 1..];
    forall y | y in s ensures y in t {
      var k :| 0 <= k < |s| && s[k] == y;
      if k < i {
        assert t[k] == y;
      } else if k == i {
        assert t[j - 1] == y;
      } else {
        assert t[k - 1] == y;
      }
    }
  }

  // ---------------------------------------------------------------------------
  // Runs

  /** The scan's test for extending the current run with `current` after `prev`:
      `current` is truthy (non-empty), has the same first character, and its
      second rank is exactly one below that of `prev`. */
  predicate Continues(prev: string, current: string) {
    && current != ""
    && At(current, 0) == At(prev, 0)
    && RankAt(current, 1) == RankAt(prev, 1) - 1
  }

  function Last<T>(s: seq<T>): T
    requires |s| > 0
  {
    s[|s| - 1]
  }

  /** One step of the scan on the runs so far: `x` joins the last run when it
      continues from that run's last code, otherwise it opens a new run. */
  function Step(c: seq<seq<string>>, x: string): seq<seq<string>>
  {
    if |c| > 0 && |Last(c)| > 0 && Continues(Last(Last(c)), x) then c[..|c| - 1] + [Last(c) + [x]]
    else c + [[x]]
  }

  /** The runs the scan closes, defined one code at a time. */
  function Chains(s: seq<string>): seq<seq<string>>
  {
    if s == [] then [] else Step(Chains(s[..|s| - 1]), Last(s))
  }

  lemma StepFlatten(c: seq<seq<string>>, x: string)
    ensures Flatten(Step(c, x)) == Flatten(c) + [x]
    ensures |Step(c, x)| <= |c| + 1
  {
    if |c| > 0 && |Last(c)| > 0 && Continues(Last(Last(c)), x) {
      var front := c[..|c| - 1];
      assert c == front + [Last(c)];
      assert (front + [Last(c) + [x]])[..|front|] == front;
      assert Flatten(c) == Flatten(front) + Last(c);
    } else {
      assert (c + [[x]])[..|c|] == c;
    }
  }

  /** The runs cover `s` in order, and there are never more runs than codes. */
  lemma {:induction false} ChainsFlatten(s: seq<string>)
    ensures Flatten(Chains(s)) == s
    ensures |Chains(s)| <= |s|
    decreases |s|
  {
    if s != [] {
      var p := s[..|s| - 1];
      ChainsFlatten(p);
      assert Chains(s) == Step(Chains(p), Last(s));
      StepFlatten(Chains(p), Last(s));
      assert s == p + [Last(s)];
    }
  }

  /** A run: non-empty, each code continuing from the one before it. */
  ghost predicate IsRun(run: seq<string>) {
    |run| > 0 && forall i, j :: 0 <= i < j < |run| && j == i + 1 ==> Continues(run[i], run[j])
  }

  /** A partition into runs none of which could have been extended by the next one. */
  ghost predicate MaximalRuns(runs: seq<seq<string>>) {
    && (forall k :: 0 <= k < |runs| ==> IsRun(runs[k]))
    && (forall i, j :: 0 <= i < j < |runs| && j == i + 1 ==> !Continues(Last(runs[i]), runs[j][0]))
  }

  lemma StepMaximal(c: seq<seq<string>>, x: string)
    requires MaximalRuns(c)
    ensures MaximalRuns(Step(c, x))
  {
    var r := Step(c, x);
    if |c| > 0 && |Last(c)| > 0 && Continues(Last(Last(c)), x) {
      var l := Last(c) + [x];
      assert IsRun(l);
      forall k | 0 <= k < |r| ensures IsRun(r[k]) {
        if k < |c| - 1 { assert r[k] == c[k]; }
      }
      forall i, j | 0 <= i < j < |r| && j == i + 1 ensures !Continues(Last(r[i]), r[j][0]) {
        assert r[i] == c[i];
        assert r[j][0] == c[j][0];
      }
    } else {
      forall k | 0 <= k < |r| ensures IsRun(r[k]) {
        if k < |c| { assert r[k] == c[k]; }
      }
      forall i, j | 0 <= i < j < |r| && j == i + 1 ensures !Continues(Last(r[i]), r[j][0]) {
        assert r[i] == c[i];
        if j < |c| { assert r[j] == c[j]; }
      }
    }
  }

  /** What the scan produces is a partition of the sorted list into maximal runs. */
  lemma {:induction false} ChainsAreMaximalRuns(s: seq<string>)
    ensures MaximalRuns(Chains(s))
    decreases |s|
  {
    if s != [] {
      ChainsAreMaximalRuns(s[..|s| - 1]);
      StepMaximal(Chains(s[..|s| - 1]), Last(s));
    }
  }

  lemma MaximalDropLast(runs: seq<seq<string>>)
    requires MaximalRuns(runs) && |runs| > 0
    ensures MaximalRuns(runs[..|runs| - 1])
  {
    var front := runs[..|runs| - 1];
    forall k | 0 <= k < |front| ensures IsRun(front[k]) {
      assert front[k] == runs[k];
    }
    forall i, j | 0 <= i < j < |front| && j == i + 1 ensures !Continues(Last(front[i]), front[j][0]) {
      assert front[i] == runs[i] && front[j] == runs[j];
    }
  }

  lemma MaximalTrimLast(runs: seq<seq<string>>)
    requires MaximalRuns(runs) && |runs| > 0 && |Last(runs)| > 1
    ensures MaximalRuns(runs[..|runs| - 1] + [Last(runs)[..|Last(runs)| - 1]])
  {
    var last := Last(runs);
    var last' := last[..|last| - 1];
    var runs' := runs[..|runs| - 1] + [last'];
    assert IsRun(last') by {
      forall i, j | 0 <= i < j < |last'| && j == i + 1 ensures Continues(last'[i], last'[j]) {
        assert last'[i] == last[i] && last'[j] == last[j];
      }
    }
    forall k | 0 <= k < |runs'| ensures IsRun(runs'[k]) {
      if k < |runs| - 1 { assert runs'[k] == runs[k]; }
    }
    forall i, j | 0 <= i < j < |runs'| && j == i + 1 ensures !Continues(Last(runs'[i]), runs'[j][0]) {
      assert runs'[i] == runs[i];
      assert runs'[j][0] == runs[j][0];
    }
  }

  /** The maximal-run partition is unique: any partition of `s` into maximal runs is
      the one the scan produces. */
  lemma {:induction false} ChainsUnique(s: seq<string>, runs: seq<seq<string>>)
    requires MaximalRuns(runs) && Flatten(runs) == s
    ensures runs == Chains(s)
    decreases |s|
  {
    if runs != [] {
      var front := runs[..|runs| - 1];
      var last := Last(runs);
      assert s == Flatten(front) + last;
      var x := Last(last);
      var p := s[..|s| - 1];
      assert Last(s) == x;
      if |last| == 1 {
        assert last == [x];
        assert p == Flatten(front);
        MaximalDropLast(runs);
        ChainsUnique(p, front);
        assert Step(front, x) == runs;
      } else {
        var last' := last[..|last| - 1];
        var runs' := front + [last'];
        assert last == last' + [x];
        assert runs'[..|front|] == front;
        assert p == Flatten(runs');
        MaximalTrimLast(runs);
        ChainsUnique(p, runs');
        assert Continues(Last(last'), x);
        assert runs'[..|runs'| - 1] == front;
        assert Step(runs', x) == runs;
      }
    }
  }

  // ---------------------------------------------------------------------------
  // Tokens

  /** The token of a run: its only code when it starts and ends on the same code,
      otherwise its first and last codes joined by a dash. */
  function Token(run: seq<string>): string {
    if run == [] then "" else
    var start := run[0];
    var prev := run[|run| - 1];
    if start == prev then start else start + "-" + prev
  }

  function Tokens(runs: seq<seq<string>>): (r: seq<string>)
    ensures |r| == |runs|
  {
    seq(|runs|, k requires 0 <= k < |runs| => Token(runs[k]))
  }

  lemma TokensSnoc(runs: seq<seq<string>>, run: seq<string>)
    ensures Tokens(runs + [run]) == Tokens(runs) + [Token(run)]
  {
  }

  /** The runs of a prefix one code longer: one more scan step. */
  lemma ChainsSnoc(s: seq<string>, i: nat)
    requires i < |s|
    ensures Chains(s[..i + 1]) == Step(Chains(s[..i]), s[i])
  {
    assert s[..i + 1][..i] == s[..i];
  }

  /** The scan's step when the next code continues the open run `s[st..i]`. */
  lemma ScanExtend(s: seq<string>, closed: seq<seq<string>>, st: nat, i: nat)
    requires st < i < |s|
    requires Chains(s[..i]) == closed + [s[st..i]]
    requires Continues(s[i - 1], s[i])
    ensures Chains(s[..i + 1]) == closed + [s[st..i + 1]]
  {
    ChainsSnoc(s, i);
    StepOpen(closed, s[st..i], s[i]);
    assert s[st..i + 1] == s[st..i] + [s[i]];
  }

  /** The scan's step when the next code does not continue the open run `s[st..i]`:
      the open run is closed and the code opens a new one. */
  lemma ScanClose(s: seq<string>, closed: seq<seq<string>>, st: nat, i: nat)
    requires st < i < |s|
    requires Chains(s[..i]) == closed + [s[st..i]]
    requires !Continues(s[i - 1], s[i])
    ensures Chains(s[..i + 1]) == (closed + [s[st..i]]) + [s[i..i + 1]]
  {
    ChainsSnoc(s, i);
    StepOpen(closed, s[st..i], s[i]);
    assert s[i..i + 1] == [s[i]];
  }

  /** The scan step on closed runs followed by the open run. */
  lemma StepOpen(closed: seq<seq<string>>, open: seq<string>, x: string)
    requires |open| > 0
    ensures Continues(Last(open), x) ==> Step(closed + [open], x) == closed + [open + [x]]
    ensures !Continues(Last(open), x) ==> Step(closed + [open], x) == closed + [open] + [[x]]
  {
    assert (closed + [open])[..|closed|] == closed;
  }

  /** Along a run the first character stays and the second rank drops by one per step. */
  lemma {:induction false} RunShape(run: seq<string>, k: nat)
    requires IsRun(run) && k < |run|
    ensures At(run[k], 0) == At(run[0], 0)
    ensures RankAt(run[k], 1) == RankAt(run[0], 1) - k
  {
    if k > 0 {
      RunShape(run, k - 1);
    }
  }

  /** A run of one code is emitted as that code, a longer run always as "start-end"
      (its two ends always differ). */
  lemma RunToken(run: seq<string>)
    requires IsRun(run)
    ensures |run| == 1 ==> Token(run) == run[0]
    ensures |run| > 1 ==> Token(run) == run[0] + "-" + run[|run| - 1]
  {
    if |run| > 1 {
      RunShape(run, |run| - 1);
    }
  }

  /** The tokens `compressHandRange` returns, as a function of its input. */
  function Compressed(hands: seq<string>): seq<string> {
    Tokens(Chains(SortHands(Dedup(hands))))
  }

  /** There are never more tokens than distinct codes, and there is at least one
      token when there is at least one code. */
  lemma CompressedCount(hands: seq<string>)
    ensures |Compressed(hands)| <= |Elems(hands)|
    ensures |hands| > 0 ==> |SortHands(Dedup(hands))| > 0
    ensures |hands| > 0 ==> |Compressed(hands)| > 0
  {
    var s := SortHands(Dedup(hands));
    SortedDistinct(hands);
    ChainsFlatten(s);
    if |hands| > 0 {
      assert hands[0] in Elems(hands);
      assert |Chains(s)| > 0;
    }
  }

  /** `compressHandRange(hands)`: deduplicate, sort, then scan once. */
  method CompressHandRange(hands: seq<string>) returns (compressed: seq<string>)
    ensures hands == [] ==> compressed == []
    ensures compressed == Compressed(hands)
    ensures |compressed| <= |Elems(hands)|
  {
    CompressedCount(hands);
    if |hands| == 0 {
      return [];
    }
    var sorted := SortHands(Dedup(hands));
    compressed := Scan(sorted);
  }

  /** The scan over the sorted codes: extend the current run while the next code
      continues it, and close it (emitting its token) otherwise. */
  method Scan(sorted: seq<string>) returns (compressed: seq<string>)
    requires |sorted| > 0
    ensures compressed == Tokens(Chains(sorted))
  {
    compressed := [];
    var start := sorted[0];
    var prev := start;
    ghost var st := 0;
    ghost var closed: seq<seq<string>> := [];
    assert sorted[..1][..0] == [];
    assert sorted[0..1] == [sorted[0]];
    assert Chains(sorted[..1]) == [[sorted[0]]];
    var i := 1;
    while i <= |sorted|
      invariant 1 <= i <= |sorted| + 1
      invariant compressed == Tokens(closed)
      invariant i <= |sorted| ==>
        && 0 <= st < i
        && start == sorted[st]
        && prev == sorted[i - 1]
        && Chains(sorted[..i]) == closed + [sorted[st..i]]
      invariant i == |sorted| + 1 ==> Chains(sorted) == closed
    {
      var current: Option<string> := if i < |sorted| then Some(sorted[i]) else None;
      ghost var open := sorted[st..i];
      if current.Some? && Continues(prev, current.value) {
        ScanExtend(sorted, closed, st, i);
        prev := current.value;
      } else {
        TokensSnoc(closed, open);
        compressed := compressed + [if start == prev then start else start + "-" + prev];
        if current.Some? {
          ScanClose(sorted, closed, st, i);
          start := current.value;
          prev := current.value;
          st := i;
        } else {
          assert sorted[..i] == sorted;
        }
        closed := closed + [open];
      }
      i := i + 1;
    }
  }

  // ---------------------------------------------------------------------------
  // Expansion

  /** Reads one token back, for codes of `2 + |suffix|` characters: a code stands for
      itself, "start-end" for every code from start down to end along the second rank. */
  function ExpandToken(t: string, suffix: string): seq<string> {
    var n := 2 + |suffix|;
    if |t| == 2 * n + 1 && t[n] == '-' then
      var start := t[..n];
      var end := t[n + 1..];
      var hi := RankAt(start, 1);
      var lo := RankAt(end, 1);
      if 0 <= lo <= hi then
        seq(hi - lo + 1, k requires 0 <= k <= hi - lo => [start[0], RankOrder[hi - k]] + suffix)
      else [t]
    else [t]
  }

  function ExpandAll(tokens: seq<string>, suffix: string): seq<string> {
    if tokens == [] then []
    else ExpandAll(tokens[..|tokens| - 1], suffix) + ExpandToken(tokens[|tokens| - 1], suffix)
  }

  /** The codes from second rank `hi` down to `lo`, with `start`'s first character
      and the given suffix. */
  function RangeCodes(start: string, hi: int, lo: int, suffix: string): (r: seq<string>)
    requires |start| > 0 && 0 <= lo <= hi < |RankOrder|
    ensures |r| == hi - lo + 1
  {
    seq(hi - lo + 1, k requires 0 <= k <= hi - lo => [start[0], RankOrder[hi - k]] + suffix)
  }

  lemma ExpandSpan(a: string, b: string, suffix: string)
    requires |a| == |b| == 2 + |suffix|
    requires 0 <= RankAt(b, 1) <= RankAt(a, 1)
    ensures ExpandToken(a + "-" + b, suffix) == RangeCodes(a, RankAt(a, 1), RankAt(b, 1), suffix)
  {
    var t := a + "-" + b;
    var n := 2 + |suffix|;
    assert t[..n] == a && t[n] == '-' && t[n + 1..] == b;
  }

  /** A run of well-formed codes is exactly the codes between its two ends. */
  lemma RunCodes(run: seq<string>, suffix: string)
    requires IsRun(run)
    requires forall k :: 0 <= k < |run| ==> WellFormed(run[k], suffix)
    ensures 0 <= RankAt(Last(run), 1) <= RankAt(run[0], 1)
    ensures run == RangeCodes(run[0], RankAt(run[0], 1), RankAt(Last(run), 1), suffix)
  {
    var hi := RankAt(run[0], 1);
    RunShape(run, |run| - 1);
    RankIndexOfNonRank(At(Last(run), 1));
    var e := RangeCodes(run[0], hi, RankAt(Last(run), 1), suffix);
    forall k | 0 <= k < |run| ensures e[k] == run[k] {
      RunCodeAt(run, suffix, k);
    }
  }

  lemma RunCodeAt(run: seq<string>, suffix: string, k: nat)
    requires IsRun(run) && k < |run|
    requires WellFormed(run[0], suffix) && WellFormed(run[k], suffix)
    ensures 0 <= RankAt(run[0], 1) - k < |RankOrder|
    ensures run[k] == [run[0][0], RankOrder[RankAt(run[0], 1) - k]] + suffix
  {
    RunShape(run, k);
    var h := run[k];
    RankIndexOfNonRank(At(h, 1));
    assert h == [h[0], h[1]] + h[2..];
  }

  /** A run of well-formed codes sharing one suffix is read back from its token. */
  lemma RunRoundTrip(run: seq<string>, suffix: string)
    requires IsRun(run)
    requires forall k :: 0 <= k < |run| ==> WellFormed(run[k], suffix)
    ensures ExpandToken(Token(run), suffix) == run
  {
    RunToken(run);
    if |run| > 1 {
      RunCodes(run, suffix);
      ExpandSpan(run[0], Last(run), suffix);
    }
  }

  /** Every code of every run is well formed with the given suffix. */
  ghost predicate RunsWellFormed(runs: seq<seq<string>>, suffix: string) {
    forall k, j :: 0 <= k < |runs| && 0 <= j < |runs[k]| ==> WellFormed(runs[k][j], suffix)
  }

  lemma {:induction false} ExpandTokens(runs: seq<seq<string>>, suffix: string)
    requires forall k :: 0 <= k < |runs| ==> |runs[k]| > 0 && IsRun(runs[k])
    requires RunsWellFormed(runs, suffix)
    ensures ExpandAll(Tokens(runs), suffix) == Flatten(runs)
    decreases |runs|
  {
    if runs != [] {
      var front := runs[..|runs| - 1];
      assert RunsWellFormed(front, suffix) by {
        forall k, j | 0 <= k < |front| && 0 <= j < |front[k]| ensures WellFormed(front[k][j], suffix) {
          assert front[k] == runs[k];
        }
      }
      ExpandTokens(front, suffix);
      var t := Tokens(runs);
      var last := runs[|runs| - 1];
      assert t[..|runs| - 1] == Tokens(front) && t[|runs| - 1] == Token(last);
      assert ExpandAll(t, suffix) == ExpandAll(Tokens(front), suffix) + ExpandToken(Token(last), suffix);
      assert Flatten(runs) == Flatten(front) + last;
      RunRoundTrip(last, suffix);
    }
  }

  /** Every code of every run is one of the inputs. */
  lemma RunsFromInputs(hands: seq<string>, suffix: string)
    requires forall i :: 0 <= i < |hands| ==> WellFormed(hands[i], suffix)
    ensures RunsWellFormed(Chains(SortHands(Dedup(hands))), suffix)
  {
    var s := SortHands(Dedup(hands));
    SortedDistinct(hands);
    ChainsFlatten(s);
    var runs := Chains(s);
    forall k, j | 0 <= k < |runs| && 0 <= j < |runs[k]| ensures WellFormed(runs[k][j], suffix) {
      FlattenMember(runs, k, j);
      assert runs[k][j] in Elems(s);
    }
  }

  /** Round trip: when every input is a well-formed code with one common suffix,
      expanding the tokens gives back the distinct inputs, each once, sorted. */
  lemma CompressRoundTrip(hands: seq<string>, suffix: string)
    requires forall i :: 0 <= i < |hands| ==> WellFormed(hands[i], suffix)
    ensures ExpandAll(Compressed(hands), suffix) == SortHands(Dedup(hands))
    ensures Elems(ExpandAll(Compressed(hands), suffix)) == Elems(hands)
    ensures NoDup(ExpandAll(Compressed(hands), suffix))
  {
    var s := SortHands(Dedup(hands));
    var runs := Chains(s);
    ChainsAreMaximalRuns(s);
    ChainsFlatten(s);
    RunsFromInputs(hands, suffix);
    ExpandTokens(runs, suffix);
    SortedDistinct(hands);
  }

  lemma {:induction false} FlattenMember(runs: seq<seq<string>>, k: nat, j: nat)
    requires k < |runs| && j < |runs[k]|
    ensures runs[k][j] in Flatten(runs)
    decreases |runs|
  {
    var front := runs[..|runs| - 1];
    if k < |runs| - 1 {
      FlattenMember(front, k, j);
      assert runs[k] == front[k];
    }
  }

  // ---------------------------------------------------------------------------
  // Examples and quirks

  /** No code strictly precedes any code listed before it. */
  ghost predicate InOrder(s: seq<string>) {
    forall i, j :: 0 <= i < j < |s| ==> !Precedes(s[j], s[i])
  }

  /** A code that precedes none of `s` goes to the end. */
  lemma {:induction false} InsertAfterAll(x: string, s: seq<string>)
    requires forall k :: 0 <= k < |s| ==> !Precedes(x, s[k])
    ensures Insert(x, s) == s + [x]
    decreases |s|
  {
    if s != [] {
      InsertAfterAll(x, s[1..]);
      assert s == [s[0]] + s[1..];
    }
  }

  /** The sort leaves a list already in order unchanged, ties included. */
  lemma {:induction false} SortHandsOfInOrder(s: seq<string>)
    requires InOrder(s)
    ensures SortHands(s) == s
    decreases |s|
  {
    if s != [] {
      var p := s[..|s| - 1];
      assert InOrder(p);
      SortHandsOfInOrder(p);
      InsertAfterAll(s[|s| - 1], p);
      assert s == p + [s[|s| - 1]];
    }
  }

  /** A list that is one run is scanned into that single run. */
  lemma {:induction false} ChainsOfRun(s: seq<string>)
    requires IsRun(s)
    ensures Chains(s) == [s]
    decreases |s|
  {
    var p := s[..|s| - 1];
    if |s| == 1 {
      assert p == [] && s == [s[0]];
      assert Chains(p) == [];
    } else {
      assert IsRun(p);
      ChainsOfRun(p);
      assert Continues(s[|s| - 2], s[|s| - 1]);
      assert s == p + [s[|s| - 1]];
    }
  }

  /** Distinct codes that are already in order and form one run compress to
      that run's single token. */
  lemma CompressOneRun(s: seq<string>)
    requires NoDup(s) && InOrder(s) && IsRun(s)
    ensures Compressed(s) == [Token(s)]
  {
    DedupOfNoDup(s);
    SortHandsOfInOrder(s);
    ChainsOfRun(s);
  }

  /** Worked example: three suited codes with consecutive second ranks collapse
      into one token; a lone pair stays as it is; no codes give no tokens. */
  lemma CompressExamples()
    ensures Compressed(["AKs", "AQs", "AJs"]) == ["AKs-AJs"]
    ensures Compressed(["77"]) == ["77"]
    ensures Compressed([]) == []
  {
    ThreeSuitedDistinct();
    ThreeSuitedRun();
    CompressOneRun(["AKs", "AQs", "AJs"]);
    CompressOneRun(["77"]);
  }

  lemma ThreeSuitedDistinct()
    ensures NoDup(["AKs", "AQs", "AJs"])
    ensures Token(["AKs", "AQs", "AJs"]) == "AKs-AJs"
  {
  }

  lemma ThreeSuitedRun()
    ensures InOrder(["AKs", "AQs", "AJs"]) && IsRun(["AKs", "AQs", "AJs"])
  {
  }

  /** Mixed suffixes share a run, since the scan looks only at ranks: this is why the
      round trip needs one common suffix. */
  lemma MixedSuffixesShareRun()
    ensures Compressed(["AKs", "AQo"]) == ["AKs-AQo"]
  {
    MixedFacts();
    CompressOneRun(["AKs", "AQo"]);
  }

  /** A second character that is not a rank counts as -1, one below the rank 2, so
      "Ax" continues a run ending in "A2s". */
  lemma NonRankContinuesRun()
    ensures Compressed(["A2s", "Ax"]) == ["A2s-Ax"]
  {
    assert RankAt("Ax", 1) == -1 && RankAt("A2s", 1) == 0;
    assert NoDup(["A2s", "Ax"]) && InOrder(["A2s", "Ax"]) && IsRun(["A2s", "Ax"]);
    CompressOneRun(["A2s", "Ax"]);
    assert Token(["A2s", "Ax"]) == "A2s-Ax";
  }

  /** Codes with equal ranks are tied, and the sort keeps tied codes in their
      input order, whichever order that is. */
  lemma TiedCodesKeepOrder()
    ensures SortHands(["AKo", "AKs"]) == ["AKo", "AKs"]
    ensures SortHands(["AKs", "AKo"]) == ["AKs", "AKo"]
  {
    assert !Precedes("AKo", "AKs") && !Precedes("AKs", "AKo");
    SortHandsOfInOrder(["AKo", "AKs"]);
    SortHandsOfInOrder(["AKs", "AKo"]);
  }

  lemma MixedFacts()
    ensures NoDup(["AKs", "AQo"]) && InOrder(["AKs", "AQo"]) && IsRun(["AKs", "AQo"])
    ensures Token(["AKs", "AQo"]) == "AKs-AQo"
  {
  }
}
