/** The 13x13 hand chart (src/components/HandRangeChart.tsx): the grid of hand codes,
    the selected hands (a `Set`, kept as a duplicate-free sequence in insertion
    order), and the handlers that change the selection. */
module HandRangeChart {
  import opened Js
  import opened Seqs
  import opened HandCodes
  import opened PlayerStore
  import opened Categorize

  /** `ranks`: ace first, deuce last. */
  const ChartRanks: string := "AKQJT98765432"

  /** The chart lists the ranks highest first: row or column `i` is the rank whose
      value is `12 - i`. */
  lemma ChartRanksReversed(i: nat)
    requires i < 13
    ensures ChartRanks[i] == RankOrder[12 - i]
    ensures RankIndex(Some(ChartRanks[i])) == 12 - i
  {
    RankIndexOfRank(12 - i);
  }

  /** The cell in row `i`, column `j`: on and above the diagonal the row's rank, the
      column's rank and `s`; below it the column's rank, the row's rank and `o`. */
  function GridCode(i: nat, j: nat): (h: string)
    requires i < 13 && j < 13
    ensures |h| == 3 && IsRank(h[0]) && IsRank(h[1])
    ensures h[2] == (if i <= j then 's' else 'o')
  {
    if i <= j then [ChartRanks[i], ChartRanks[j], 's'] else [ChartRanks[j], ChartRanks[i], 'o']
  }

  /** The cells in the order they are rendered, row by row. */
  function Grid(): (g: seq<string>)
    ensures |g| == 169
    ensures forall i, j :: 0 <= i < 13 && 0 <= j < 13 ==> g[13 * i + j] == GridCode(i, j)
  {
    var g := seq(169, n requires 0 <= n < 169 => GridCode(n / 13, n % 13));
    forall i, j | 0 <= i < 13 && 0 <= j < 13 ensures g[13 * i + j] == GridCode(i, j) {
      CellIndex(i, j);
    }
    g
  }

  /** Cell `n` of the row-by-row rendering is in row `n / 13`, column `n % 13`. */
  lemma CellIndex(i: nat, j: nat)
    requires i < 13 && j < 13
    ensures 13 * i + j < 169 && (13 * i + j) / 13 == i && (13 * i + j) % 13 == j
  {
  }

  /** Diagonal cells repeat their rank (and still carry `s`); every other cell puts
      the higher rank first, suited above the diagonal, offsuit below. */
  lemma GridCodeShape(i: nat, j: nat)
    requires i < 13 && j < 13
    ensures var h := GridCode(i, j);
      && (i == j ==> h[0] == h[1] && h[2] == 's')
      && (i != j ==> RankIndex(Some(h[0])) > RankIndex(Some(h[1])))
  {
    ChartRanksReversed(i);
    ChartRanksReversed(j);
  }

  /** Two cells with the same code are the same cell. */
  lemma GridCodeInjective(i: nat, j: nat, k: nat, l: nat)
    requires i < 13 && j < 13 && k < 13 && l < 13
    requires GridCode(i, j) == GridCode(k, l)
    ensures i == k && j == l
  {
    ChartRanksReversed(i);
    ChartRanksReversed(j);
    ChartRanksReversed(k);
    ChartRanksReversed(l);
  }

  /** All 169 codes of the chart are distinct. */
  lemma GridDistinct()
    ensures NoDup(Grid())
  {
    var g := Grid();
    forall a, b | 0 <= a < b < |g| ensures g[a] != g[b] {
      if g[a] == g[b] {
        assert a == (a / 13) * 13 + a % 13 && b == (b / 13) * 13 + b % 13;
        GridCodeInjective(a / 13, a % 13, b / 13, b % 13);
      }
    }
  }

  /** Some cells, as they appear in the chart. */
  lemma GridExamples()
    ensures GridCode(0, 0) == "AAs" && GridCode(0, 1) == "AKs" && GridCode(1, 0) == "AKo"
    ensures GridCode(12, 12) == "22s" && GridCode(12, 11) == "32o"
  {
  }

  // ---------------------------------------------------------------------------
  // The selection

  /** `set.delete(h)`: the other hands, in their order. */
  function Delete(sel: seq<string>, h: string): (r: seq<string>)
    ensures h !in r
    ensures forall x :: x != h ==> (x in r <==> x in sel)
  {
    if sel == [] then []
    else
      var front := Delete(sel[..|sel| - 1], h);
      var last := sel[|sel| - 1];
      assert forall x :: x in sel <==> x in sel[..|sel| - 1] || x == last;
      if last == h then front else front + [last]
  }

  lemma {:induction false} DeleteAbsent(sel: seq<string>, h: string)
    requires h !in sel
    ensures Delete(sel, h) == sel
    decreases |sel|
  {
    if sel != [] {
      DeleteAbsent(sel[..|sel| - 1], h);
      assert sel == sel[..|sel| - 1] + [sel[|sel| - 1]];
    }
  }

  lemma {:induction false} DeleteKeepsNoDup(sel: seq<string>, h: string)
    requires NoDup(sel)
    ensures NoDup(Delete(sel, h))
    decreases |sel|
  {
    if sel != [] {
      var p := sel[..|sel| - 1];
      assert NoDup(p);
      DeleteKeepsNoDup(p, h);
      assert sel[|sel| - 1] !in p;
    }
  }

  /** `toggleHand(h)`: delete `h` when it is selected, add it at the end otherwise. */
  function ToggleHand(sel: seq<string>, h: string): (r: seq<string>)
    ensures h in r <==> h !in sel
    ensures forall x :: x != h ==> (x in r <==> x in sel)
  {
    if h in sel then Delete(sel, h) else sel + [h]
  }

  /** Toggling keeps the selection free of duplicates; toggling twice gives the
      same set back, and the same sequence when the hand was not selected (a
      selected hand comes back at the end). */
  lemma ToggleTwice(sel: seq<string>, h: string)
    requires NoDup(sel)
    ensures NoDup(ToggleHand(sel, h))
    ensures Elems(ToggleHand(ToggleHand(sel, h), h)) == Elems(sel)
    ensures h !in sel ==> ToggleHand(ToggleHand(sel, h), h) == sel
  {
    if h in sel {
      DeleteKeepsNoDup(sel, h);
    } else {
      DeleteAbsent(sel, h);
      DeleteLast(sel, h);
    }
  }

  lemma DeleteLast(sel: seq<string>, h: string)
    requires h !in sel
    ensures Delete(sel + [h], h) == sel
  {
    assert (sel + [h])[..|sel|] == sel;
    DeleteAbsent(sel, h);
  }

  /** An entry at `k` is the first one for the pair from `i` on. */
  predicate FirstFrom(es: seq<RangeEntry>, action: string, position: string, i: nat, k: nat) {
    i <= k < |es| && HasKey(es[k], action, position)
    && forall j :: i <= j < k ==> !HasKey(es[j], action, position)
  }

  /** `existingRanges.find(...)` from position `i` on. */
  function FindFrom(es: seq<RangeEntry>, action: string, position: string, i: nat): Option<RangeEntry>
    decreases |es| - i
  {
    if i >= |es| then None
    else if HasKey(es[i], action, position) then Some(es[i])
    else FindFrom(es, action, position, i + 1)
  }

  lemma {:induction false} FindFromSpec(es: seq<RangeEntry>, action: string, position: string, i: nat)
    ensures FindFrom(es, action, position, i).None? <==> forall j :: i <= j < |es| ==> !HasKey(es[j], action, position)
    ensures FindFrom(es, action, position, i).Some? ==>
      exists k: nat :: FirstFrom(es, action, position, i, k) && FindFrom(es, action, position, i).value == es[k]
    decreases |es| - i
  {
    if i < |es| {
      if HasKey(es[i], action, position) {
        assert FirstFrom(es, action, position, i, i);
      } else {
        FindFromSpec(es, action, position, i + 1);
        if FindFrom(es, action, position, i).Some? {
          var k: nat :| FirstFrom(es, action, position, i + 1, k) && FindFrom(es, action, position, i + 1).value == es[k];
          assert FirstFrom(es, action, position, i, k);
        }
      }
    }
  }

  /** `existingRanges.find(...)`: the first entry for the pair, or nothing when no
      entry is for it. */
  function FindRange(es: seq<RangeEntry>, action: string, position: string): (r: Option<RangeEntry>)
    ensures r.None? <==> forall j :: 0 <= j < |es| ==> !HasKey(es[j], action, position)
    ensures r.Some? ==> exists k: nat :: FirstFrom(es, action, position, 0, k) && r.value == es[k]
  {
    FindFromSpec(es, action, position, 0);
    FindFrom(es, action, position, 0)
  }

  /** The hands of the found range as a set in insertion order, or the empty set
      when no range was found. */
  function HandsOf(r: Option<RangeEntry>): seq<string> {
    match r
    case Some(e) => Dedup(e.hands)
    case None => []
  }

  /** The effect run when the action, the position or the ranges change: with an
      action and a position selected, the selection becomes the hands of the first
      range for that pair, or nothing; otherwise it stays as it is. */
  function LoadSelection(sel: seq<string>, action: Option<string>, position: Option<string>, existing: seq<RangeEntry>): (r: seq<string>)
    ensures !(Truthy(action) && Truthy(position)) ==> r == sel
    ensures Truthy(action) && Truthy(position) ==> NoDup(r)
    ensures Truthy(action) && Truthy(position) ==>
      ((forall j :: 0 <= j < |existing| ==> !HasKey(existing[j], action.value, position.value)) ==> r == [])
    ensures Truthy(action) && Truthy(position) ==>
      forall k: nat :: FirstFrom(existing, action.value, position.value, 0, k) ==> Elems(r) == Elems(existing[k].hands)
    ensures Truthy(action) && Truthy(position) ==>
      forall k: nat :: FirstFrom(existing, action.value, position.value, 0, k) ==> r == Dedup(existing[k].hands)
  {
    if Truthy(action) && Truthy(position) then
      var found := FindRange(existing, action.value, position.value);
      DedupSpec(if found.Some? then found.value.hands else []);
      FirstFromUnique(existing, action.value, position.value);
      HandsOf(found)
    else sel
  }

  /** There is at most one first entry for a pair. */
  lemma FirstFromUnique(es: seq<RangeEntry>, action: string, position: string)
    ensures forall k: nat, k': nat :: FirstFrom(es, action, position, 0, k) && FirstFrom(es, action, position, 0, k') ==> k == k'
  {
  }

  /** A handler of the chart, or the effect. */
  datatype ChartEvent =
    | Load(action: Option<string>, position: Option<string>, existing: seq<RangeEntry>)
    | Toggle(hand: string)
    | Reset
    | Submit

  /** What a handler does: the new selection, and the hands it reports through
      `onHandSelection`, if it reports any. */
  datatype ChartStep = ChartStep(selection: seq<string>, reported: Option<seq<string>>)

  /** Reset empties the selection and reports `[]`; submit reports the selection as
      an array in insertion order and keeps it; a toggle flips one hand; the effect
      leaves the selection alone until both an action and a position are chosen. */
  function Step(sel: seq<string>, e: ChartEvent): (r: ChartStep)
    ensures e.Reset? ==> r == ChartStep([], Some([]))
    ensures e.Submit? ==> r.selection == sel && r.reported == Some(sel)
    ensures (e.Load? || e.Toggle?) ==> r.reported.None?
    ensures e.Toggle? ==> (e.hand in r.selection <==> e.hand !in sel)
    ensures e.Toggle? ==> forall x :: x != e.hand ==> (x in r.selection <==> x in sel)
    ensures e.Load? && !(Truthy(e.action) && Truthy(e.position)) ==> r.selection == sel
  {
    match e
    case Load(a, p, existing) => ChartStep(LoadSelection(sel, a, p, existing), None)
    case Toggle(h) => ChartStep(ToggleHand(sel, h), None)
    case Reset => ChartStep([], Some([]))
    case Submit => ChartStep(sel, Some(sel))
  }

  /** Every handler keeps the selection free of duplicates. */
  lemma StepKeepsNoDup(sel: seq<string>, e: ChartEvent)
    requires NoDup(sel)
    ensures NoDup(Step(sel, e).selection)
  {
    if e.Toggle? {
      ToggleTwice(sel, e.hand);
    }
  }

  /** The selection after the handlers, starting from the empty set, and
      everything reported on the way. */
  function RunChart(es: seq<ChartEvent>): (ChartStep, seq<seq<string>>) {
    if es == [] then (ChartStep([], None), [])
    else
      var (st, reports) := RunChart(es[..|es| - 1]);
      var next := Step(st.selection, es[|es| - 1]);
      (next, if next.reported.Some? then reports + [next.reported.value] else reports)
  }

  /** Whatever the user does, the chart never reports a hand twice. */
  lemma {:induction false} ReportsHaveNoDuplicates(es: seq<ChartEvent>)
    ensures NoDup(RunChart(es).0.selection)
    ensures forall i :: 0 <= i < |RunChart(es).1| ==> NoDup(RunChart(es).1[i])
    decreases |es|
  {
    if es != [] {
      var p := es[..|es| - 1];
      ReportsHaveNoDuplicates(p);
      StepKeepsNoDup(RunChart(p).0.selection, es[|es| - 1]);
    }
  }

  /** A chart cell goes to the bucket its shape names: diagonal cells, for all their
      `s`, are pairs. */
  lemma GridCodeCategory(i: nat, j: nat)
    requires i < 13 && j < 13
    ensures var h := GridCode(i, j);
      Place(Str(h)) == if i == j then ToPairs(h[..2]) else if i < j then ToSuited(h[..2]) else ToOffsuit(h[..2])
  {
    var h := GridCode(i, j);
    GridCodeShape(i, j);
    assert h[..|h| - 1] == h[..2];
  }
}
