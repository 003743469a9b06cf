/** The application state and its handlers (src/App.tsx): the player store, the
    set of occupied seats, the current screen and the selected seat. */
module App {
  import opened Js
  import opened PlayerStore

  datatype Screen = GameTracker | PlayerActionScreen

  datatype AppState = AppState(players: Players, occupied: set<int>, screen: Screen, selected: Option<int>)

  /** The state on start-up, before anything is loaded. */
  const Initial := AppState(map[], {}, GameTracker, None)

  /** `handlePlayerSelect(seat)`: select the seat, open its action screen and mark
      it occupied; the store is not touched. */
  function PlayerSelect(st: AppState, seat: int): (r: AppState)
    ensures r.occupied == st.occupied + {seat}
    ensures r.selected == Some(seat) && r.screen == PlayerActionScreen
    ensures r.players == st.players
  {
    st.(selected := Some(seat), screen := PlayerActionScreen, occupied := st.occupied + {seat})
  }

  /** Selecting a seat twice is selecting it once. */
  lemma PlayerSelectIdempotent(st: AppState, seat: int)
    ensures PlayerSelect(PlayerSelect(st, seat), seat) == PlayerSelect(st, seat)
  {
  }

  /** `handleVacateSeat(seat)`: only that seat leaves the occupied set. */
  function VacateSeat(st: AppState, seat: int): (r: AppState)
    ensures r.occupied == st.occupied - {seat}
    ensures r.players == st.players && r.screen == st.screen && r.selected == st.selected
  {
    st.(occupied := st.occupied - {seat})
  }

  /** Vacating a seat that selecting made occupied gives the occupied set back. */
  lemma VacateUndoesSelect(st: AppState, seat: int)
    requires seat !in st.occupied
    ensures VacateSeat(PlayerSelect(st, seat), seat).occupied == st.occupied
  {
  }

  /** `handleBack()`: back to the table with nothing selected. */
  function Back(st: AppState): (r: AppState)
    ensures r.screen == GameTracker && r.selected == None
    ensures r.players == st.players && r.occupied == st.occupied
  {
    st.(screen := GameTracker, selected := None)
  }

  /** `handleEditRange(seat)`: like selecting, but the occupied set is left alone. */
  function EditRange(st: AppState, seat: int): (r: AppState)
    ensures r.selected == Some(seat) && r.screen == PlayerActionScreen
    ensures r.players == st.players && r.occupied == st.occupied
  {
    st.(selected := Some(seat), screen := PlayerActionScreen)
  }

  /** Editing a range differs from selecting the seat only in the occupied set. */
  lemma EditRangeVersusSelect(st: AppState, seat: int)
    ensures EditRange(st, seat) == PlayerSelect(st, seat).(occupied := st.occupied)
    ensures seat in st.occupied ==> EditRange(st, seat) == PlayerSelect(st, seat)
  {
  }

  /** The transform `handleActionUpdate` gives `updatePlayer`. */
  function AppendAction(e: RangeEntry): Player -> Player {
    (p: Player) => p.(actions := p.actions + [e])
  }

  /** `handleActionUpdate(seat, action, position, hands)`: the entry is appended to
      the seat's actions, even when an entry with the same action and position is
      already there; name and memos stay, and so does every other seat. */
  function ActionUpdate(st: AppState, seat: int, action: string, position: string, hands: seq<string>): (r: AppState)
    ensures r.players.Keys == st.players.Keys + {seat}
    ensures var before := Current(st.players, seat).actions;
      var after := r.players[seat].actions;
      |after| == |before| + 1 && after[..|before|] == before && after[|before|] == RangeEntry(action, position, hands)
    ensures r.players[seat].name == Current(st.players, seat).name
    ensures r.players[seat].memos == Current(st.players, seat).memos
    ensures forall s :: s in st.players && s != seat ==> s in r.players && r.players[s] == st.players[s]
    ensures r.occupied == st.occupied && r.screen == st.screen && r.selected == st.selected
  {
    var e := RangeEntry(action, position, hands);
    var r := st.(players := UpdatePlayer(st.players, seat, AppendAction(e)));
    assert r.players[seat].actions == Current(st.players, seat).actions + [e];
    r
  }

  /** Appending never replaces: the entries for the key become one more. */
  lemma ActionUpdateAddsDuplicate(st: AppState, seat: int, action: string, position: string, hands: seq<string>)
    ensures var r := ActionUpdate(st, seat, action, position, hands);
      CountKey(r.players[seat].actions, action, position)
        == CountKey(Current(st.players, seat).actions, action, position) + 1
  {
    var before := Current(st.players, seat).actions;
    var after := ActionUpdate(st, seat, action, position, hands).players[seat].actions;
    assert after[..|after| - 1] == before;
  }

  /** The transform `handleMemoUpdate` gives `updatePlayer`. */
  function SaveMemo(name: string, memo: string, ranges: seq<RangeEntry>): Player -> Player {
    (p: Player) => Player(name, ranges, p.memos + [Memo(memo, ranges)])
  }

  /** `handleMemoUpdate(seat, name, memo, ranges)`: nothing happens without a seat;
      otherwise the record takes the name and, wholesale, the ranges, and one memo
      carrying the text and the ranges is appended to its memos. */
  function MemoUpdate(st: AppState, seat: Option<int>, name: string, memo: string, ranges: seq<RangeEntry>): (r: AppState)
    ensures seat.None? ==> r == st
    ensures seat.Some? ==> r.players.Keys == st.players.Keys + {seat.value}
    ensures seat.Some? ==>
      && seat.value in r.players
      && r.players[seat.value].name == name
      && r.players[seat.value].actions == ranges
      && var before := Current(st.players, seat.value).memos;
         var after := r.players[seat.value].memos;
         |after| == |before| + 1 && after[..|before|] == before && after[|before|] == Memo(memo, ranges)
    ensures seat.Some? ==> forall s :: s in st.players && s != seat.value ==> s in r.players && r.players[s] == st.players[s]
    ensures r.occupied == st.occupied && r.screen == st.screen && r.selected == st.selected
  {
    match seat
    case None => st
    case Some(s) =>
      var r := st.(players := UpdatePlayer(st.players, s, SaveMemo(name, memo, ranges)));
      assert r.players[s].memos == Current(st.players, s).memos + [Memo(memo, ranges)];
      r
  }

  /** `handleDeletePlayer(seat)`: the record is removed and the seat vacated. */
  function DeletePlayer(st: AppState, seat: int): (r: AppState)
    ensures r.players.Keys == st.players.Keys - {seat}
    ensures forall s :: s in r.players ==> r.players[s] == st.players[s]
    ensures r.occupied == st.occupied - {seat}
    ensures r.screen == st.screen && r.selected == st.selected
  {
    VacateSeat(st.(players := RemovePlayer(st.players, seat)), seat)
  }

  /** A handler call, as the user interface triggers them. */
  datatype Event =
    | SelectSeat(seat: int)
    | Vacate(seat: int)
    | GoBack
    | Edit(seat: int)
    | AddAction(seat: int, action: string, position: string, hands: seq<string>)
    | UpdateMemo(target: Option<int>, name: string, memo: string, ranges: seq<RangeEntry>)
    | Delete(seat: int)

  function Apply(st: AppState, e: Event): AppState {
    match e
    case SelectSeat(s) => PlayerSelect(st, s)
    case Vacate(s) => VacateSeat(st, s)
    case GoBack => Back(st)
    case Edit(s) => EditRange(st, s)
    case AddAction(s, a, p, h) => ActionUpdate(st, s, a, p, h)
    case UpdateMemo(t, n, m, r) => MemoUpdate(st, t, n, m, r)
    case Delete(s) => DeletePlayer(st, s)
  }

  /** The handlers applied one after another. */
  function Run(st: AppState, es: seq<Event>): AppState {
    if es == [] then st else Apply(Run(st, es[..|es| - 1]), es[|es| - 1])
  }

  /** The memos of a seat: its record's, or none. */
  function MemosOf(st: AppState, seat: int): seq<Memo> {
    Current(st.players, seat).memos
  }

  /** One handler call never rewrites a seat's memos unless it deletes the seat:
      the old memo log is a prefix of the new one. */
  lemma ApplyKeepsMemos(st: AppState, e: Event, seat: int)
    requires e != Delete(seat)
    ensures MemosOf(st, seat) <= MemosOf(Apply(st, e), seat)
  {
    match e
    case AddAction(s, a, p, h) =>
    case UpdateMemo(t, n, m, r) =>
    case Delete(s) =>
      assert s != seat;
    case _ =>
  }

  /** The memo log is append-only: as long as the seat is not deleted, whatever
      handlers run, the memos it had stay in place, in order, at its front. */
  lemma {:induction false} MemoLogAppendOnly(st: AppState, es: seq<Event>, seat: int)
    requires forall i :: 0 <= i < |es| ==> es[i] != Delete(seat)
    ensures MemosOf(st, seat) <= MemosOf(Run(st, es), seat)
    decreases |es|
  {
    if es != [] {
      var p := es[..|es| - 1];
      assert forall i :: 0 <= i < |p| ==> p[i] == es[i];
      MemoLogAppendOnly(st, p, seat);
      ApplyKeepsMemos(Run(st, p), es[|es| - 1], seat);
    }
  }

  /** Deleting a seat drops its memos: the only way the log can shrink. */
  lemma DeleteDropsMemos(st: AppState, seat: int)
    ensures MemosOf(DeletePlayer(st, seat), seat) == []
  {
  }
}
