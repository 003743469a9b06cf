/** The player form (src/components/PlayerAction.tsx): the name, the memo, the
    selected action and position, the working list of hand ranges and the message
    line, with the handlers that change them and the saves they trigger. */
module PlayerAction {
  import opened Js
  import opened Seqs
  import opened PlayerStore
  import App
  import HandRangeChart

  datatype Form = Form(
    name: string,
    memo: string,
    action: Option<string>,
    position: Option<string>,
    ranges: seq<RangeEntry>,
    message: string)

  /** The message shown when the name is missing ("please enter the player name"). */
  const NameRequired: string := "プレイヤー名を入力してください"

  /** The message shown after a save ("the data has been saved"). */
  const Saved: string := "データが保存されました"

  /** A call of `onMemoUpdate(seat, playerName, memo, handRanges)`. */
  datatype MemoCall = MemoCall(seat: int, name: string, memo: string, ranges: seq<RangeEntry>)

  /** The form after a handler, and the save it triggered, if any. */
  datatype Outcome = Outcome(form: Form, call: Option<MemoCall>)

  /** The text of the last memo, or the empty string when there is no memo. */
  function LastMemoText(memos: seq<Memo>): (t: string)
    ensures memos == [] ==> t == ""
  {
    if memos == [] then "" else memos[|memos| - 1].text
  }

  /** After a memo is appended, it is the one preloaded. */
  lemma LastMemoTextOfAppend(memos: seq<Memo>, m: Memo)
    ensures LastMemoText(memos + [m]) == m.text
  {
  }

  /** The form once mounted for `editing` and its effect has run: the record's name,
      ranges and last memo text, or an empty form for a new player. */
  function Preload(editing: Option<Player>): (f: Form)
    ensures f.action.None? && f.position.None? && f.message == ""
    ensures editing.None? ==> f.name == "" && f.memo == "" && f.ranges == []
    ensures editing.Some? ==> f.name == editing.value.name && f.ranges == editing.value.actions
    ensures editing.Some? && editing.value.memos == [] ==> f.memo == ""
  {
    match editing
    case None => Form("", "", None, None, [], "")
    case Some(p) => Form(p.name, LastMemoText(p.memos), None, None, p.actions, "")
  }

  /** `handleRegisteredPlayerSelect(player)`: take over a registered player's name,
      ranges and last memo text. */
  function RegisteredPlayerSelect(f: Form, p: Player): (r: Form)
    ensures r.name == p.name && r.ranges == p.actions
    ensures r.memo == LastMemoText(p.memos)
    ensures r.action == f.action && r.position == f.position && r.message == f.message
  {
    f.(name := p.name, ranges := p.actions, memo := LastMemoText(p.memos))
  }

  /** Reopening a player after a save shows the memo just saved. */
  lemma PreloadAfterSave(ps: Players, seat: int, name: string, memo: string, ranges: seq<RangeEntry>)
    ensures var st := App.MemoUpdate(App.AppState(ps, {}, App.GameTracker, None), Some(seat), name, memo, ranges);
      Preload(GetPlayerBySeat(st.players, seat)) == Form(name, memo, None, None, ranges, "")
  {
    var st := App.MemoUpdate(App.AppState(ps, {}, App.GameTracker, None), Some(seat), name, memo, ranges);
    var memos := st.players[seat].memos;
    assert memos == memos[..|memos| - 1] + [Memo(memo, ranges)];
  }

  /** `handleActionSelect(action)`: the position is always cleared. */
  function SelectAction(f: Form, action: string): (r: Form)
    ensures r.action == Some(action) && r.position.None?
    ensures r.name == f.name && r.memo == f.memo && r.ranges == f.ranges && r.message == f.message
  {
    f.(action := Some(action), position := None)
  }

  /** Choosing an action forgets any position chosen before, so the chart loads
      nothing until a position is chosen again; choosing the position then keeps
      the action. */
  lemma SelectActionResetsPosition(f: Form, action: string, position: string, sel: seq<string>, es: seq<RangeEntry>)
    ensures SelectAction(SelectPosition(f, position), action) == SelectAction(f, action)
    ensures var r := SelectAction(f, action);
      HandRangeChart.LoadSelection(sel, r.action, r.position, es) == sel
    ensures SelectPosition(SelectAction(f, action), position).action == Some(action)
  {
  }

  /** `handlePositionSelect(position)`. */
  function SelectPosition(f: Form, position: string): (r: Form)
    ensures r.position == Some(position)
    ensures r.name == f.name && r.memo == f.memo && r.action == f.action && r.ranges == f.ranges && r.message == f.message
  {
    f.(position := Some(position))
  }

  /** The ranges that are not for the pair, in order: the `filter` in
      `handleHandSelection`. */
  function RemoveKey(es: seq<RangeEntry>, action: string, position: string): seq<RangeEntry> {
    if es == [] then []
    else
      var front := RemoveKey(es[..|es| - 1], action, position);
      var last := es[|es| - 1];
      if HasKey(last, action, position) then front else front + [last]
  }

  /** Filtering keeps exactly the entries for other pairs, and distributes over
      concatenation, so it keeps their relative order. */
  lemma {:induction false} RemoveKeySpec(es: seq<RangeEntry>, action: string, position: string)
    ensures forall e :: e in RemoveKey(es, action, position) <==> e in es && !HasKey(e, action, position)
    ensures |RemoveKey(es, action, position)| == |es| - CountKey(es, action, position)
    ensures CountKey(RemoveKey(es, action, position), action, position) == 0
    decreases |es|
  {
    if es != [] {
      var p := es[..|es| - 1];
      RemoveKeySpec(p, action, position);
      assert es == p + [es[|es| - 1]];
      var front := RemoveKey(p, action, position);
      if !HasKey(es[|es| - 1], action, position) {
        assert (front + [es[|es| - 1]])[..|front|] == front;
      }
    }
  }

  lemma {:induction false} RemoveKeyConcat(a: seq<RangeEntry>, b: seq<RangeEntry>, action: string, position: string)
    ensures RemoveKey(a + b, action, position) == RemoveKey(a, action, position) + RemoveKey(b, action, position)
    decreases |b|
  {
    if b == [] {
      assert a + b == a;
    } else {
      var b' := b[..|b| - 1];
      RemoveKeyConcat(a, b', action, position);
      assert (a + b)[..|a + b| - 1] == a + b';
      var last := b[|b| - 1];
      if !HasKey(last, action, position) {
        assert RemoveKey(b, action, position) == RemoveKey(b', action, position) + [last];
      }
    }
  }

  /** Filtering out one pair leaves the count of every other pair as it was. */
  lemma {:induction false} RemoveKeyOtherCount(es: seq<RangeEntry>, action: string, position: string, action': string, position': string)
    requires action' != action || position' != position
    ensures CountKey(RemoveKey(es, action, position), action', position') == CountKey(es, action', position')
    decreases |es|
  {
    if es != [] {
      var p := es[..|es| - 1];
      var last := es[|es| - 1];
      RemoveKeyOtherCount(p, action, position, action', position');
      if !HasKey(last, action, position) {
        CountSnoc(RemoveKey(p, action, position), last, action', position');
      }
    }
  }

  /** The list after a selection: the other pairs' entries, then the new one. */
  function ReplaceRange(es: seq<RangeEntry>, action: string, position: string, hands: seq<string>): seq<RangeEntry> {
    RemoveKey(es, action, position) + [RangeEntry(action, position, hands)]
  }

  /** After a replacement the pair has exactly one entry, the last one, carrying the
      new hands and nothing of the old; the other entries keep their order; the
      length drops by the number of old entries for the pair and grows by one. */
  lemma ReplaceRangeSpec(es: seq<RangeEntry>, action: string, position: string, hands: seq<string>)
    ensures var r := ReplaceRange(es, action, position, hands);
      && CountKey(r, action, position) == 1
      && r[|r| - 1] == RangeEntry(action, position, hands)
      && r[..|r| - 1] == RemoveKey(es, action, position)
      && |r| == |es| - CountKey(es, action, position) + 1
      && forall e :: e in r && !HasKey(e, action, position) <==> e in es && !HasKey(e, action, position)
  {
    var r := ReplaceRange(es, action, position, hands);
    RemoveKeySpec(es, action, position);
    assert r[..|r| - 1] == RemoveKey(es, action, position);
  }

  /** A replacement leaves the count of every other pair as it was. */
  lemma ReplaceRangeOtherCount(es: seq<RangeEntry>, action: string, position: string, hands: seq<string>, action': string, position': string)
    requires action' != action || position' != position
    ensures CountKey(ReplaceRange(es, action, position, hands), action', position') == CountKey(es, action', position')
  {
    RemoveKeyOtherCount(es, action, position, action', position');
    CountSnoc(RemoveKey(es, action, position), RangeEntry(action, position, hands), action', position');
  }

  /** A replacement keeps every pair down to at most one entry. */
  lemma ReplaceRangeKeepsKeysUnique(es: seq<RangeEntry>, action: string, position: string, hands: seq<string>)
    requires KeysUnique(es)
    ensures KeysUnique(ReplaceRange(es, action, position, hands))
  {
    forall action', position' ensures CountKey(ReplaceRange(es, action, position, hands), action', position') <= 1 {
      if action' == action && position' == position {
        ReplaceRangeSpec(es, action, position, hands);
      } else {
        ReplaceRangeOtherCount(es, action, position, hands, action', position');
      }
    }
  }

  /** Replacing twice with the same hands is replacing once. */
  lemma ReplaceRangeIdempotent(es: seq<RangeEntry>, action: string, position: string, hands: seq<string>)
    ensures ReplaceRange(ReplaceRange(es, action, position, hands), action, position, hands) == ReplaceRange(es, action, position, hands)
  {
    var rest := RemoveKey(es, action, position);
    var e := RangeEntry(action, position, hands);
    RemoveKeyConcat(rest, [e], action, position);
    RemoveKeySpec(es, action, position);
    RemoveKeyOfClean(rest, action, position);
    assert RemoveKey([e], action, position) == [] by {
      assert [e][..0] == [];
    }
  }

  lemma {:induction false} RemoveKeyOfClean(es: seq<RangeEntry>, action: string, position: string)
    requires CountKey(es, action, position) == 0
    ensures RemoveKey(es, action, position) == es
    decreases |es|
  {
    if es != [] {
      RemoveKeyOfClean(es[..|es| - 1], action, position);
      assert es == es[..|es| - 1] + [es[|es| - 1]];
    }
  }

  /** The chart, reopened on the pair, shows the hands just chosen. */
  lemma ReplaceThenLoad(es: seq<RangeEntry>, action: string, position: string, hands: seq<string>, sel: seq<string>)
    requires action != "" && position != ""
    ensures var r := ReplaceRange(es, action, position, hands);
      Elems(HandRangeChart.LoadSelection(sel, Some(action), Some(position), r)) == Elems(hands)
  {
    var r := ReplaceRange(es, action, position, hands);
    ReplaceRangeSpec(es, action, position, hands);
    RemoveKeySpec(es, action, position);
    var k := |r| - 1;
    forall j | 0 <= j < k ensures !HasKey(r[j], action, position) {
      assert r[j] in RemoveKey(es, action, position);
    }
    assert HandRangeChart.FirstFrom(r, action, position, 0, k);
  }

  /** `handleHandSelection(hands)`: with an action, a position and a seat, the pair's
      entries are replaced by one with the new hands, and the new list is saved at
      once with the current name and memo; otherwise nothing happens. */
  function HandSelection(f: Form, seat: Option<int>, hands: seq<string>): (r: Outcome)
    ensures !(Truthy(f.action) && Truthy(f.position) && seat.Some?) ==> r == Outcome(f, None)
    ensures Truthy(f.action) && Truthy(f.position) && seat.Some? ==>
      && r.form == f.(ranges := ReplaceRange(f.ranges, f.action.value, f.position.value, hands))
      && r.call == Some(MemoCall(seat.value, f.name, f.memo, r.form.ranges))
  {
    if Truthy(f.action) && Truthy(f.position) && seat.Some? then
      var newRanges := ReplaceRange(f.ranges, f.action.value, f.position.value, hands);
      Outcome(f.(ranges := newRanges), Some(MemoCall(seat.value, f.name, f.memo, newRanges)))
    else Outcome(f, None)
  }

  /** `handleSubmit()`: a name that is empty after `trim` sets the error message and
      saves nothing; otherwise, with a seat, the form is saved as it is and the
      confirmation is shown. */
  function HandleSubmit(f: Form, seat: Option<int>): (r: Outcome)
    ensures IsBlank(f.name) ==> r == Outcome(f.(message := NameRequired), None)
    ensures !IsBlank(f.name) && seat.Some? ==> r == Outcome(f.(message := Saved), Some(MemoCall(seat.value, f.name, f.memo, f.ranges)))
    ensures !IsBlank(f.name) && seat.None? ==> r == Outcome(f, None)
  {
    TrimEmptyIffBlank(f.name);
    if Trim(f.name) == "" then Outcome(f.(message := NameRequired), None)
    else if seat.Some? then Outcome(f.(message := Saved), Some(MemoCall(seat.value, f.name, f.memo, f.ranges)))
    else Outcome(f, None)
  }

  /** A save as `App` performs it. */
  function Deliver(st: App.AppState, call: Option<MemoCall>): App.AppState {
    match call
    case None => st
    case Some(c) => App.MemoUpdate(st, Some(c.seat), c.name, c.memo, c.ranges)
  }

  /** A blank name never reaches the store. */
  lemma BlankNameNotSaved(st: App.AppState, f: Form, seat: Option<int>)
    requires IsBlank(f.name)
    ensures Deliver(st, HandleSubmit(f, seat).call) == st
  {
  }

  /** Choosing hands in the chart and saving them: the stored record keeps exactly
      one entry for the pair, with the chosen hands; when the form's list had at
      most one entry per pair, so does the stored one; and the memo log only grows. */
  lemma HandSelectionStored(st: App.AppState, f: Form, seat: int, hands: seq<string>)
    requires Truthy(f.action) && Truthy(f.position)
    ensures var st' := Deliver(st, HandSelection(f, Some(seat), hands).call);
      && seat in st'.players
      && CountKey(st'.players[seat].actions, f.action.value, f.position.value) == 1
      && RangeEntry(f.action.value, f.position.value, hands) in st'.players[seat].actions
      && (KeysUnique(f.ranges) ==> KeysUnique(st'.players[seat].actions))
      && App.MemosOf(st, seat) <= App.MemosOf(st', seat)
  {
    ReplaceRangeSpec(f.ranges, f.action.value, f.position.value, hands);
    if KeysUnique(f.ranges) {
      ReplaceRangeKeepsKeysUnique(f.ranges, f.action.value, f.position.value, hands);
    }
    var r := ReplaceRange(f.ranges, f.action.value, f.position.value, hands);
    assert r[|r| - 1] in r;
  }
}
