# Poker player tracker: hand ranges and player records in Dafny

This project models the core of a poker table tracker. The tracker keeps one
record per occupied seat. A record holds the player's name, the hand ranges the
player was seen to play, and a log of memos. The model covers five parts:

- **Hand-range utilities** (`Categorize`, `Compress`, `FormatRanges`):
  - `categorizeHands` sorts hand codes into pairs, suited and offsuit buckets.
  - `compressHandRange` deduplicates and sorts hand codes, then collapses runs
    such as `AKs, AQs, AJs` into tokens such as `AKs-AJs`.
  - `formatRanges` groups the saved ranges by `action position` and renders
    one block per group.
- **Player store** (`PlayerStore`): the seat-to-record map with `addPlayer`,
  `updatePlayer`, `removePlayer`, `getPlayerBySeat` and `getAllPlayers`.
- **Application state** (`App`): the occupied seats, the current screen and the
  selected seat, with the handlers the user interface calls. `Run` applies a
  sequence of handler calls.
- **Player form** (`PlayerAction`): the form's fields, the preload from an
  edited record, range replacement when hands are chosen, and the submit
  check.
- **Hand range chart** (`HandRangeChart`): the 13×13 grid of codes, the
  selection as an insertion-ordered set, toggling, loading the stored range for
  an action and position, reset and submit.

Host-language behaviour is modelled in `Js` and `Seqs`:

- A JavaScript `Set` is a sequence without duplicates, kept in insertion order.
- Indexing a string (`s[i]`) gives `undefined` past the end, modelled as `None` by `Js.At`.
- `indexOf` gives -1 for a missing element.
- Truthiness is modelled for optional strings.
- `String.prototype.trim` uses the ECMAScript whitespace set.

The ranks `AKQJT98765432` and the rank lookup are in `HandCodes`.

The two ways of storing a range treat an existing (action, position) pair
differently:

- `handleActionUpdate` in `App.tsx` (lines 81-92) appends an entry even when the
  pair already has one. `App.ActionUpdate` models that append, and
  `App.ActionUpdateAddsDuplicate` shows that the count for the pair grows by one.
- The form never calls that handler. It saves through `handleMemoUpdate`, after
  `handleHandSelection` has replaced the pair's entries (`PlayerAction.ReplaceRange`).
  - `PlayerAction.ReplaceRangeSpec` proves the chosen pair ends with exactly one entry.
  - `PlayerAction.ReplaceRangeOtherCount` proves every other pair keeps its count.
  - `PlayerAction.ReplaceRangeKeepsKeysUnique` proves that a list with at most one
    entry per pair (`PlayerStore.KeysUnique`) keeps that property.
  - `PlayerAction.HandSelectionStored` carries these facts to the stored record.

Other quirks of the code are modelled as they are:
- A diagonal chart cell such as `AAs` is categorised as a pair, so `AA` and
  `AAs` in one group show the pair twice (`FormatRanges.PairShownTwice`).
- Codes with different suffixes can share one compressed run
  (`Compress.MixedSuffixesShareRun`).
- A non-rank character counts as rank -1 in the sort and in the run test.

## Model

| member | source | states |
|---|---|---|
| Categorize.CategorizeMembership | 241107_PPM_1.7/src/utils/handRangeUtils.ts:55-73 | a code is in the pairs, suited or offsuit bucket exactly when some input is placed there with that code, in both directions |
| Categorize.BucketMembership | 241107_PPM_1.7/src/utils/handRangeUtils.ts:60-71 | membership in any one bucket holds exactly when some input is placed in that bucket with that code |
| Categorize.CategorizeSize | 241107_PPM_1.7/src/utils/handRangeUtils.ts:60-71 | each input adds at most one code, and exactly one when no input is skipped |
| Categorize.CategorizeAppend | 241107_PPM_1.7/src/utils/handRangeUtils.ts:60-71 | categorising a concatenation concatenates each bucket, so every bucket keeps the inputs' order |
| Categorize.CategorizeOne | 241107_PPM_1.7/src/utils/handRangeUtils.ts:60-71 | a single input lands only in the bucket its placement names |
| Categorize.PushBucket | 241107_PPM_1.7/src/utils/handRangeUtils.ts:64-68 | a push grows exactly the bucket it names, by exactly its code |
| Categorize.PairCheckedBeforeSuffix | 241107_PPM_1.7/src/utils/handRangeUtils.ts:63-68 | the pair test comes before the suffix test: "AAs" becomes the pair "AA", the empty string is a pair, and a one-character code is skipped |
| Categorize.CategorizeExample | 241107_PPM_1.7/src/utils/handRangeUtils.ts:55-73 | "AA", "AKs" and "AKo" give one pair "AA", one suited "AK" and one offsuit "AK" |
| Compress.TiedCodesKeepOrder | 241107_PPM_1.7/src/utils/handRangeUtils.ts:79-85 | "AKo" and "AKs" are tied under the comparator, and the sort keeps them in input order, either way round |
| Compress.SortHandsSorts | 241107_PPM_1.7/src/utils/handRangeUtils.ts:79-85 | the sort is a permutation of its input into descending (first rank, second rank) order |
| Compress.SortedDistinct | 241107_PPM_1.7/src/utils/handRangeUtils.ts:78-85 | the list the scan reads is sorted, free of duplicates, and holds exactly the distinct inputs |
| Compress.ChainsAreMaximalRuns | 241107_PPM_1.7/src/utils/handRangeUtils.ts:87-100 | the scan cuts the sorted list into runs that cannot be merged: each code continues its predecessor in the run, and no run's first code continues the previous run |
| Compress.ChainsFlatten | 241107_PPM_1.7/src/utils/handRangeUtils.ts:87-100 | the runs, concatenated, give back the sorted list: no code is lost, repeated or moved |
| Compress.ChainsUnique | 241107_PPM_1.7/src/utils/handRangeUtils.ts:87-100 | any partition of the list into maximal runs is the scan's partition |
| Compress.Scan | 241107_PPM_1.7/src/utils/handRangeUtils.ts:87-102 | the imperative loop emits one token per maximal run, in order |
| Compress.RunToken | 241107_PPM_1.7/src/utils/handRangeUtils.ts:96 | a one-code run is emitted as that code, and a longer run as "start-end" with two different ends |
| Compress.CompressHandRange | 241107_PPM_1.7/src/utils/handRangeUtils.ts:75-103 | no input gives no tokens, and there are never more tokens than distinct codes |
| Compress.CompressedCount | 241107_PPM_1.7/src/utils/handRangeUtils.ts:75-103 | the number of tokens is at most the number of distinct codes, and a non-empty input gives at least one token |
| Compress.CompressRoundTrip | 241107_PPM_1.7/src/utils/handRangeUtils.ts:75-103 | for well-formed codes with one common suffix, expanding the tokens gives back the distinct inputs, each once, in sorted order |
| Compress.RunRoundTrip | 241107_PPM_1.7/src/utils/handRangeUtils.ts:96 | expanding the token of one run gives back exactly that run |
| Compress.CompressOneRun | 241107_PPM_1.7/src/utils/handRangeUtils.ts:75-103 | distinct, ordered codes that form one run compress to that run's single token |
| Compress.CompressExamples | 241107_PPM_1.7/src/utils/handRangeUtils.ts:75-103 | "AKs", "AQs" and "AJs" compress to "AKs-AJs"; a lone pair stays itself; no codes give no tokens |
| Compress.NonRankContinuesRun | 241107_PPM_1.7/src/utils/handRangeUtils.ts:93 | a second character that is not a rank counts as -1, one below the rank 2, so "A2s" and "Ax" compress to "A2s-Ax" |
| HandCodes.RankIndex | 241107_PPM_1.7/src/utils/handRangeUtils.ts:81-84 | the value is -1 or an index into the rank order |
| HandCodes.RankIndexOfNonRank | 241107_PPM_1.7/src/utils/handRangeUtils.ts:81-84 | the value is non-negative exactly for a rank character, and then it is that character's position in the rank order |
| Compress.MixedSuffixesShareRun | 241107_PPM_1.7/src/utils/handRangeUtils.ts:93 | the run test looks only at ranks, so "AKs" and "AQo" share the run "AKs-AQo" |
| FormatRanges.ValidEntriesMembership | 241107_PPM_1.7/src/utils/handRangeUtils.ts:8-15 | the filter keeps exactly the entries that have an action, a position and an array of hands |
| FormatRanges.ValidEntriesEmpty | 241107_PPM_1.7/src/utils/handRangeUtils.ts:8-19 | nothing survives the filter exactly when no entry has the right shape |
| FormatRanges.StringHandsMembership | 241107_PPM_1.7/src/utils/handRangeUtils.ts:27-31 | only string hands reach a group, and all of them do |
| FormatRanges.GroupAllSpec | 241107_PPM_1.7/src/utils/handRangeUtils.ts:22-33 | the group keys are the distinct "action position" keys in order of first occurrence, and each group holds the distinct string hands of all entries with its key, in order of first occurrence |
| FormatRanges.HandsForMembership | 241107_PPM_1.7/src/utils/handRangeUtils.ts:22-33 | a hand is listed under a key exactly when some well-shaped entry with that key lists it as a string |
| FormatRanges.LinesSpec | 241107_PPM_1.7/src/utils/handRangeUtils.ts:38-50 | the fallback line appears, alone, exactly when all buckets are empty; each non-empty bucket gets exactly one line with its codes; lines come in the order pairs, suited, offsuit |
| FormatRanges.FormatRanges | 241107_PPM_1.7/src/utils/handRangeUtils.ts:1-53 | the text 'No ranges defined' comes back exactly when the argument is not an array or no entry has the right shape; otherwise there is at least one block |
| FormatRanges.FormatRangesBlocks | 241107_PPM_1.7/src/utils/handRangeUtils.ts:22-52 | there is one block per distinct key, in order of first occurrence, and each block categorises the distinct string hands of all entries with its key |
| FormatRanges.HeadingsInFirstOccurrenceOrder | 241107_PPM_1.7/src/utils/handRangeUtils.ts:22-36 | block headings appear in the order of each key's first occurrence among the entries |
| FormatRanges.PairShownTwice | 241107_PPM_1.7/src/utils/handRangeUtils.ts:38-45 | deduplication happens before categorising, so "AA" and "AAs" show the pair "AA" twice on one line |
| FormatRanges.FormatExample | 241107_PPM_1.7/src/utils/handRangeUtils.ts:1-53 | two entries with one key make one block; a malformed entry is dropped and a non-string hand is skipped |
| PlayerStore.Defaulted | 241107_PPM_1.7/src/hooks/usePlayerManagement.ts:10-14 | each present field is kept, and each missing field gets its empty default |
| PlayerStore.AddPlayer | 241107_PPM_1.7/src/hooks/usePlayerManagement.ts:7-16 | the seat gets the defaulted record whatever it held before; every other seat keeps its record; no seat is lost |
| PlayerStore.AddPlayerIdempotent | 241107_PPM_1.7/src/hooks/usePlayerManagement.ts:7-16 | adding the same data twice is adding it once |
| PlayerStore.AddPlayerOverwrites | 241107_PPM_1.7/src/hooks/usePlayerManagement.ts:7-16 | the last of two adds to one seat wins |
| PlayerStore.Current | 241107_PPM_1.7/src/hooks/usePlayerManagement.ts:21 | the record `updatePlayer` transforms is the stored one when the seat has one, and the empty record otherwise |
| PlayerStore.UpdatePlayer | 241107_PPM_1.7/src/hooks/usePlayerManagement.ts:18-23 | the seat gets the transform of its record, or of the empty record when it has none; every other seat is unchanged |
| PlayerStore.UpdateIsAdd | 241107_PPM_1.7/src/hooks/usePlayerManagement.ts:7-23 | an update equals adding the transformed current record |
| PlayerStore.UpdateIdentity | 241107_PPM_1.7/src/hooks/usePlayerManagement.ts:18-23 | updating a stored record with the identity changes nothing |
| PlayerStore.RemovePlayer | 241107_PPM_1.7/src/hooks/usePlayerManagement.ts:25-31 | exactly that seat loses its record, and every other record is kept |
| PlayerStore.RemoveUndoesAdd | 241107_PPM_1.7/src/hooks/usePlayerManagement.ts:7-31 | removing a seat undoes adding to it when it had no record |
| PlayerStore.RemoveAbsent | 241107_PPM_1.7/src/hooks/usePlayerManagement.ts:25-31 | removing an empty seat changes nothing |
| PlayerStore.GetPlayerBySeat | 241107_PPM_1.7/src/hooks/usePlayerManagement.ts:33-35 | a record comes back exactly when the seat has one, and it is the stored record |
| PlayerStore.GetAfterAddAndRemove | 241107_PPM_1.7/src/hooks/usePlayerManagement.ts:7-35 | reading a seat gives back what was just added to it, and nothing after a removal |
| PlayerStore.GetAllPlayers | 241107_PPM_1.7/src/hooks/usePlayerManagement.ts:37-41 | the listed records are the stored ones whose name is not blank, in both directions, and each is unchanged |
| PlayerStore.GetAllPlayersFacts | 241107_PPM_1.7/src/hooks/usePlayerManagement.ts:37-41 | filtering is idempotent; a record added with a non-blank name is listed; a record added without a name is not |
| PlayerStore.BlankNameNotListed | 241107_PPM_1.7/src/hooks/usePlayerManagement.ts:39 | a name made of a space and a tab is blank after trim, so the record is not listed |
| App.PlayerSelect | 241107_PPM_1.7/src/App.tsx:51-60 | the seat becomes selected and occupied, the action screen opens, and the store is untouched |
| App.PlayerSelectIdempotent | 241107_PPM_1.7/src/App.tsx:51-60 | selecting a seat twice is selecting it once |
| App.VacateSeat | 241107_PPM_1.7/src/App.tsx:62-69 | only that seat leaves the occupied set, and nothing else changes |
| App.VacateUndoesSelect | 241107_PPM_1.7/src/App.tsx:51-69 | vacating a seat that selecting just occupied restores the occupied set |
| App.Back | 241107_PPM_1.7/src/App.tsx:71-74 | back to the table screen with nothing selected; store and seats unchanged |
| App.EditRange | 241107_PPM_1.7/src/App.tsx:76-79 | the seat becomes selected and the action screen opens; the store and the occupied seats are untouched |
| App.EditRangeVersusSelect | 241107_PPM_1.7/src/App.tsx:51-79 | editing a range is selecting the seat without marking it occupied |
| App.ActionUpdate | 241107_PPM_1.7/src/App.tsx:81-92 | the seats are the old ones plus this seat; exactly one entry is appended to the seat's actions and the old ones are kept in place; name, memos and every other seat are unchanged |
| App.ActionUpdateAddsDuplicate | 241107_PPM_1.7/src/App.tsx:87-90 | the count of entries for the (action, position) pair grows by one, even when the pair already had an entry |
| App.MemoUpdate | 241107_PPM_1.7/src/App.tsx:94-111 | without a seat nothing changes; otherwise the seats are the old ones plus this seat, the record takes the name and the ranges, and exactly one memo carrying the text and the ranges is appended; other seats are unchanged |
| App.DeletePlayer | 241107_PPM_1.7/src/App.tsx:113-117 | the seat's record is removed, the seat is vacated, and everything else is kept |
| App.ApplyKeepsMemos | 241107_PPM_1.7/src/App.tsx:51-117 | every handler except deleting the seat keeps the seat's memo log as a prefix of the new one |
| App.MemoLogAppendOnly | 241107_PPM_1.7/src/App.tsx:94-111 | whatever handlers run, the memo log only grows at the end while the seat is not deleted |
| App.DeleteDropsMemos | 241107_PPM_1.7/src/App.tsx:113-117 | deleting a seat empties its memo log |
| PlayerAction.Preload | 241107_PPM_1.7/src/components/PlayerAction.tsx:26-40 | a new player gets an empty form; an edited player's name and ranges are taken over; action, position and message start empty |
| PlayerAction.LastMemoText | 241107_PPM_1.7/src/components/PlayerAction.tsx:38 | a record without memos preloads the empty memo text |
| PlayerAction.LastMemoTextOfAppend | 241107_PPM_1.7/src/components/PlayerAction.tsx:38 | the memo text preloaded is that of the last memo |
| PlayerAction.PreloadAfterSave | 241107_PPM_1.7/src/components/PlayerAction.tsx:34-40 | reopening a player after a save shows the name, memo and ranges just saved |
| PlayerAction.RegisteredPlayerSelect | 241107_PPM_1.7/src/components/PlayerAction.tsx:80-85 | a registered player's name and ranges are taken over, and the memo becomes the text of the player's last memo; action, position and message are kept |
| PlayerAction.SelectAction | 241107_PPM_1.7/src/components/PlayerAction.tsx:42-45 | choosing an action always clears the position, and the other fields are kept |
| PlayerAction.SelectActionResetsPosition | 241107_PPM_1.7/src/components/PlayerAction.tsx:42-49 | choosing an action undoes an earlier position choice, so the chart loads nothing until a position is chosen again; choosing the position then keeps the action |
| PlayerAction.SelectPosition | 241107_PPM_1.7/src/components/PlayerAction.tsx:47-49 | choosing a position changes only the position |
| PlayerAction.RemoveKeySpec | 241107_PPM_1.7/src/components/PlayerAction.tsx:53-55 | the filter keeps exactly the entries for other pairs, drops as many entries as the pair had, and leaves none for the pair |
| PlayerAction.RemoveKeyConcat | 241107_PPM_1.7/src/components/PlayerAction.tsx:53-55 | the filter distributes over concatenation, so the kept entries stay in order |
| PlayerAction.RemoveKeyOtherCount | 241107_PPM_1.7/src/components/PlayerAction.tsx:53-55 | filtering out one pair leaves every other pair's count unchanged |
| PlayerAction.ReplaceRangeSpec | 241107_PPM_1.7/src/components/PlayerAction.tsx:53-56 | after a replacement the pair has exactly one entry, the last, with the new hands; the other entries keep their order; the length is the old one minus the pair's entries plus one |
| PlayerAction.ReplaceRangeIdempotent | 241107_PPM_1.7/src/components/PlayerAction.tsx:53-56 | replacing twice with the same hands is replacing once |
| PlayerAction.ReplaceRangeOtherCount | 241107_PPM_1.7/src/components/PlayerAction.tsx:53-56 | a replacement leaves every other pair's count unchanged |
| PlayerAction.ReplaceRangeKeepsKeysUnique | 241107_PPM_1.7/src/components/PlayerAction.tsx:53-56 | a list with at most one entry per pair keeps that property after a replacement |
| PlayerStore.CountSnoc | 241107_PPM_1.7/src/components/PlayerAction.tsx:56 | appending an entry adds one to its own pair's count and nothing to any other pair's |
| PlayerAction.ReplaceThenLoad | 241107_PPM_1.7/src/components/PlayerAction.tsx:53-57 | the chart reopened on the pair after a replacement shows exactly the hands just chosen |
| PlayerAction.HandSelection | 241107_PPM_1.7/src/components/PlayerAction.tsx:51-64 | with an action, a position and a seat, the pair's entries are replaced and the new list is saved at once with the current name and memo; otherwise nothing happens |
| PlayerAction.HandleSubmit | 241107_PPM_1.7/src/components/PlayerAction.tsx:66-78 | a blank name sets the name-required message and saves nothing; otherwise, with a seat, the form is saved and the confirmation is shown; without a seat nothing happens |
| PlayerAction.BlankNameNotSaved | 241107_PPM_1.7/src/components/PlayerAction.tsx:67-70 | submitting a blank name leaves the application state unchanged |
| PlayerAction.HandSelectionStored | 241107_PPM_1.7/src/components/PlayerAction.tsx:51-64 | after choosing hands, the stored record has exactly one entry for the pair, with those hands; it has at most one entry per pair whenever the form's list had; its memo log has only grown |
| HandRangeChart.ChartRanksReversed | 241107_PPM_1.7/src/components/HandRangeChart.tsx:21 | the chart lists the ranks from highest to lowest |
| HandRangeChart.Grid | 241107_PPM_1.7/src/components/HandRangeChart.tsx:71-73 | the chart has 169 cells, rendered row by row: cell 13·i + j holds the code of row i, column j |
| HandRangeChart.GridCode | 241107_PPM_1.7/src/components/HandRangeChart.tsx:71-73 | every cell is two ranks and a suffix: "s" on and above the diagonal, "o" below it |
| HandRangeChart.GridCodeShape | 241107_PPM_1.7/src/components/HandRangeChart.tsx:71-73 | diagonal cells repeat their rank; every other cell puts the higher rank first |
| HandRangeChart.GridDistinct | 241107_PPM_1.7/src/components/HandRangeChart.tsx:71-73 | the 169 cells carry 169 distinct codes |
| HandRangeChart.GridExamples | 241107_PPM_1.7/src/components/HandRangeChart.tsx:71-73 | the corner and neighbour cells read "AAs", "AKs", "AKo", "22s" and "32o" |
| HandRangeChart.GridCodeCategory | 241107_PPM_1.7/src/components/HandRangeChart.tsx:71-73 | a diagonal cell is categorised as a pair; every other cell goes to the bucket its suffix names |
| HandRangeChart.Delete | 241107_PPM_1.7/src/components/HandRangeChart.tsx:36 | the hand leaves the set and every other hand stays |
| HandRangeChart.ToggleHand | 241107_PPM_1.7/src/components/HandRangeChart.tsx:32-42 | the toggled hand's membership flips, and every other hand's is kept |
| HandRangeChart.ToggleTwice | 241107_PPM_1.7/src/components/HandRangeChart.tsx:32-42 | toggling keeps the set duplicate-free; toggling twice restores the set, and restores the sequence when the hand was not selected |
| HandRangeChart.FindRange | 241107_PPM_1.7/src/components/HandRangeChart.tsx:25-27 | nothing is found exactly when no entry is for the pair; otherwise the first entry for the pair is found |
| HandRangeChart.LoadSelection | 241107_PPM_1.7/src/components/HandRangeChart.tsx:23-30 | without an action and a position the selection stays; with them it becomes the distinct hands of the first entry for the pair, deduplicated in their stored order, or empty when there is none |
| HandRangeChart.FirstFromUnique | 241107_PPM_1.7/src/components/HandRangeChart.tsx:25-27 | there is only one first entry for a pair |
| HandRangeChart.Step | 241107_PPM_1.7/src/components/HandRangeChart.tsx:23-108 | the effect (lines 23-30), `toggleHand` (32-42), submit (44-47) and reset (105-108): reset empties the selection and reports nothing chosen; submit reports the selection in insertion order and keeps it; a toggle flips the one hand's membership; the effect keeps the selection until an action and a position are both chosen; load and toggle report nothing |
| HandRangeChart.StepKeepsNoDup | 241107_PPM_1.7/src/components/HandRangeChart.tsx:23-47 | every chart handler keeps the selection free of duplicates |
| HandRangeChart.ReportsHaveNoDuplicates | 241107_PPM_1.7/src/components/HandRangeChart.tsx:44-47 | whatever the user does, every list the chart reports is free of duplicates |

## Left out

- Persistence is not modelled. That covers `loadFromLocalStorage`, `saveToLocalStorage` and the load effect in `App.tsx` (lines 27-49). The store module and the types module are not part of this model.
- React state batching is not modelled. Each handler is a pure step on the state. `getAllPlayers` reading a stale snapshot only affects what is saved to storage, which is left out.
- Markup is not modelled. That covers `dangerouslySetInnerHTML`, the HTML tags inside `formatRanges`' output, `getHandStyle`, styling and animation. `FormatRanges` returns lines and blocks; the HTML string around them is left out.
- The `setTimeout` that clears the saved message after 1.5 seconds is not modelled, because it depends on a clock.
- `TableLayout`, `PlayerManagementModal`, `useTheme` and `GameTracker` are outside the core and are not part of this model.
- `showRegisteredPlayers` and the list of registered players are display toggles and are not modelled.
- `compressHandRange` is modelled on a list of strings. The code's guards for a non-array argument and non-string elements, and the comparator's `typeof` branch, are left out.
- `PlayerAction`'s `onActionUpdate` prop is never called by the form, so only `App.ActionUpdate` models it.
- Strings are sequences of Unicode scalar values, while JavaScript indexes strings by UTF-16 code units. For codes with characters outside the Basic Multilingual Plane the model's indexing differs from the code's: `Categorize.Place` sees a pair in two equal astral characters, where the code compares two surrogate halves and skips the code. Hand codes made of ASCII ranks and suffixes are not affected.
- Range entries have two models. `PlayerStore.RangeEntry` is the stored, well-typed entry with a string position; the `null` position that the `onActionUpdate` prop type allows is not modelled, because that prop is never called. `FormatRanges` works on raw entries, including malformed ones, as they may come back from storage. The two types are not connected by a conversion.
- The occupied seats are modelled as a set. The order in which `Array.from` lists them only affects storage, which is left out.
- `Compress.ExpandToken` and `Compress.Chains` are reference definitions used to state properties. The code has no expansion step.
- Compress.CompressHandRange: states the token count and the agreement with the scan. The round trip needs well-formed codes with one common suffix and is stated separately in `Compress.CompressRoundTrip`. With mixed suffixes a run can mix codes, as `Compress.MixedSuffixesShareRun` shows.
- PlayerAction.LastMemoText: its own contract covers only the empty log; the text for a non-empty log is stated by `PlayerAction.LastMemoTextOfAppend`.
- PlayerAction.Preload: for an edited record with memos, the memo field is stated by `PlayerAction.LastMemoTextOfAppend` and `PlayerAction.PreloadAfterSave`. Its own contract covers only the empty log.
