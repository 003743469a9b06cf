/** The player store (src/hooks/usePlayerManagement.ts): a finite map from seat
    number to the record of the player sitting there. */
module PlayerStore {
  import opened Js

  /** One hand range: the hands chosen for an (action, position) pair. */
  datatype RangeEntry = RangeEntry(action: string, position: string, hands: seq<string>)

  /** One saved memo, with the ranges as they were when it was saved. */
  datatype Memo = Memo(text: string, handRanges: seq<RangeEntry>)

  /** An entry is for the (action, position) pair. */
  predicate HasKey(e: RangeEntry, action: string, position: string) {
    e.action == action && e.position == position
  }

  /** The number of entries for an (action, position) pair. */
  function CountKey(es: seq<RangeEntry>, action: string, position: string): nat {
    if es == [] then 0
    else CountKey(es[..|es| - 1], action, position) + (if HasKey(es[|es| - 1], action, position) then 1 else 0)
  }

  /** Appending an entry adds one to its own pair's count and nothing to any other's. */
  lemma CountSnoc(es: seq<RangeEntry>, e: RangeEntry, action: string, position: string)
    ensures CountKey(es + [e], action, position) == CountKey(es, action, position) + (if HasKey(e, action, position) then 1 else 0)
  {
    assert (es + [e])[..|es|] == es;
  }

  /** Every (action, position) pair has at most one entry. */
  ghost predicate KeysUnique(es: seq<RangeEntry>) {
    forall action, position :: CountKey(es, action, position) <= 1
  }

  /** A stored record. */
  datatype Player = Player(name: string, actions: seq<RangeEntry>, memos: seq<Memo>)

  /** The record `updatePlayer` starts from when the seat has none. */
  const EmptyPlayer := Player("", [], [])

  /** A record as handed to `addPlayer`, for instance when it comes back from
      storage: any field may be missing. */
  datatype PlayerData = PlayerData(name: Option<string>, actions: Option<seq<RangeEntry>>, memos: Option<seq<Memo>>)

  type Players = map<int, Player>

  /** The complete data of a record. */
  function DataOf(p: Player): PlayerData {
    PlayerData(Some(p.name), Some(p.actions), Some(p.memos))
  }

  /** Each missing field falls back to its empty value. An array is always truthy,
      and an empty name falling back to the empty name is the same name, so each
      default only replaces a missing field. */
  function Defaulted(d: PlayerData): (p: Player)
    ensures d.name.Some? ==> p.name == d.name.value
    ensures d.actions.Some? ==> p.actions == d.actions.value
    ensures d.memos.Some? ==> p.memos == d.memos.value
    ensures d.name.None? ==> p.name == ""
    ensures d.actions.None? ==> p.actions == []
    ensures d.memos.None? ==> p.memos == []
    ensures d.name.None? && d.actions.None? && d.memos.None? ==> p == EmptyPlayer
  {
    Player(d.name.GetOr(""), d.actions.GetOr([]), d.memos.GetOr([]))
  }

  /** Complete data is stored as it is. */
  lemma DefaultedOfComplete(p: Player)
    ensures Defaulted(DataOf(p)) == p
  {
  }

  /** `addPlayer(seat, data)`: the seat gets the defaulted record, whatever it held
      before; every other seat keeps its record, and no seat is added or lost. */
  function AddPlayer(ps: Players, seat: int, d: PlayerData): (r: Players)
    ensures r.Keys == ps.Keys + {seat}
    ensures r[seat] == Defaulted(d)
    ensures forall s :: s in ps && s != seat ==> r[s] == ps[s]
  {
    ps[seat := Defaulted(d)]
  }

  /** Adding twice with the same arguments is adding once. */
  lemma AddPlayerIdempotent(ps: Players, seat: int, d: PlayerData)
    ensures AddPlayer(AddPlayer(ps, seat, d), seat, d) == AddPlayer(ps, seat, d)
  {
  }

  /** The last of two adds to one seat wins. */
  lemma AddPlayerOverwrites(ps: Players, seat: int, d1: PlayerData, d2: PlayerData)
    ensures AddPlayer(AddPlayer(ps, seat, d1), seat, d2) == AddPlayer(ps, seat, d2)
  {
  }

  /** The seat's stored record, or the empty record when it has none; a stored
      record is an object, hence never replaced by the fallback. */
  function Current(ps: Players, seat: int): (p: Player)
    ensures seat in ps ==> p == ps[seat]
    ensures seat !in ps ==> p == EmptyPlayer
  {
    if seat in ps then ps[seat] else EmptyPlayer
  }

  /** `updatePlayer(seat, f)`: the seat gets `f` of its record, or of the empty
      record when it has none; every other seat keeps its record. */
  function UpdatePlayer(ps: Players, seat: int, f: Player -> Player): (r: Players)
    ensures r.Keys == ps.Keys + {seat}
    ensures seat in ps ==> r[seat] == f(ps[seat])
    ensures seat !in ps ==> r[seat] == f(EmptyPlayer)
    ensures forall s :: s in ps && s != seat ==> r[s] == ps[s]
  {
    ps[seat := f(Current(ps, seat))]
  }

  /** Updating is adding the transformed record. */
  lemma UpdateIsAdd(ps: Players, seat: int, f: Player -> Player)
    ensures UpdatePlayer(ps, seat, f) == AddPlayer(ps, seat, DataOf(f(Current(ps, seat))))
  {
  }

  /** Updating a stored record with the identity changes nothing. */
  lemma UpdateIdentity(ps: Players, seat: int)
    requires seat in ps
    ensures UpdatePlayer(ps, seat, p => p) == ps
  {
  }

  /** `removePlayer(seat)`: exactly that seat loses its record. */
  function RemovePlayer(ps: Players, seat: int): (r: Players)
    ensures r.Keys == ps.Keys - {seat}
    ensures forall s :: s in r ==> r[s] == ps[s]
  {
    ps - {seat}
  }

  /** Removing an absent seat is a no-op. */
  lemma RemoveAbsent(ps: Players, seat: int)
    requires seat !in ps
    ensures RemovePlayer(ps, seat) == ps
  {
  }

  /** Removing undoes adding to a seat that had no record. */
  lemma RemoveUndoesAdd(ps: Players, seat: int, d: PlayerData)
    requires seat !in ps
    ensures RemovePlayer(AddPlayer(ps, seat, d), seat) == ps
  {
  }

  /** `getPlayerBySeat(seat)`: the stored record, or `null`. */
  function GetPlayerBySeat(ps: Players, seat: int): (r: Option<Player>)
    ensures r.Some? <==> seat in ps
    ensures r.Some? ==> r.value == ps[seat]
  {
    if seat in ps then Some(ps[seat]) else None
  }

  /** Reading back what was just added, and nothing after a removal. */
  lemma GetAfterAddAndRemove(ps: Players, seat: int, d: PlayerData)
    ensures GetPlayerBySeat(AddPlayer(ps, seat, d), seat) == Some(Defaulted(d))
    ensures GetPlayerBySeat(RemovePlayer(ps, seat), seat) == None
  {
  }

  /** `getAllPlayers()`: the records whose name is not empty after `trim`. */
  function GetAllPlayers(ps: Players): (r: Players)
    ensures r.Keys <= ps.Keys
    ensures forall s :: s in r ==> r[s] == ps[s]
    ensures forall s :: s in ps ==> (s in r <==> !IsBlank(ps[s].name))
  {
    var r := map s | s in ps && Trim(ps[s].name) != "" :: ps[s];
    assert forall s :: s in ps ==> (Trim(ps[s].name) == "" <==> IsBlank(ps[s].name)) by {
      forall s | s in ps ensures Trim(ps[s].name) == "" <==> IsBlank(ps[s].name) {
        TrimEmptyIffBlank(ps[s].name);
      }
    }
    r
  }

  /** Filtering twice is filtering once, and a record added with a non-blank name
      is listed. */
  lemma GetAllPlayersFacts(ps: Players, seat: int, d: PlayerData)
    ensures GetAllPlayers(GetAllPlayers(ps)) == GetAllPlayers(ps)
    ensures d.name.Some? && !IsBlank(d.name.value) ==>
      seat in GetAllPlayers(AddPlayer(ps, seat, d)) && GetAllPlayers(AddPlayer(ps, seat, d))[seat] == Defaulted(d)
    ensures d.name.None? ==> seat !in GetAllPlayers(AddPlayer(ps, seat, d))
  {
    var a := AddPlayer(ps, seat, d);
    assert seat in a;
    assert d.name.None? ==> IsBlank(a[seat].name);
  }

  /** A name of spaces and tabs is blank, so its record is not listed. */
  lemma BlankNameNotListed()
    ensures GetAllPlayers(map[1 := Player(" \t", [], [])]) == map[]
  {
    var ps := map[1 := Player(" \t", [], [])];
    assert IsBlank(ps[1].name) by {
      assert IsWhitespace(ps[1].name[0]) && IsWhitespace(ps[1].name[1]);
    }
  }
}
