/** `formatRanges`: the summary of a player's hand ranges, one block per
    (action, position) group (src/utils/handRangeUtils.ts). The HTML markup is not
    modelled; a block is its heading and its lines. */
module FormatRanges {
  import opened Js
  import opened Seqs
  import opened Categorize

  // ---------------------------------------------------------------------------
  // Input as it may come back from storage

  /** An object property that may be missing (`'p' in obj` is false). */
  datatype Field<T> = Absent | Present(value: T)

  /** The `hands` property: an array of loosely typed values, or something else. */
  datatype HandsValue = HandArray(items: seq<Value>) | NotHandArray

  /** One element of the ranges array: a falsy value or a non-object, or an object
      with possibly missing properties. */
  datatype RawEntry = NonObject | Obj(action: Field<Value>, position: Field<Value>, hands: Field<HandsValue>)

  /** The argument: `null`, `undefined` or another non-array, or an array. */
  datatype RawRanges = NotRangeArray | RangeArray(entries: seq<RawEntry>)

  /** An entry that passed the shape filter. */
  datatype Range = Range(action: Value, position: Value, hands: seq<Value>)

  /** The shape filter on one entry: an object having `action`, `position` and `hands`,
      with `hands` an array. */
  function Validate(e: RawEntry): Option<Range> {
    match e
    case Obj(Present(a), Present(p), Present(HandArray(hs))) => Some(Range(a, p, hs))
    case _ => None
  }

  /** `actions.filter(...)`: the entries that pass, in order. */
  function ValidEntries(es: seq<RawEntry>): seq<Range> {
    if es == [] then []
    else
      var front := ValidEntries(es[..|es| - 1]);
      match Validate(es[|es| - 1])
      case Some(r) => front + [r]
      case None => front
  }

  /** The filter keeps exactly the entries of the right shape. */
  lemma {:induction false} ValidEntriesMembership(es: seq<RawEntry>, r: Range)
    ensures r in ValidEntries(es) <==> exists i :: 0 <= i < |es| && Validate(es[i]) == Some(r)
    decreases |es|
  {
    if es != [] {
      var p := es[..|es| - 1];
      ValidEntriesMembership(p, r);
      if exists i :: 0 <= i < |es| && Validate(es[i]) == Some(r) {
        var i :| 0 <= i < |es| && Validate(es[i]) == Some(r);
        if i < |p| { assert p[i] == es[i]; }
      }
      if exists i :: 0 <= i < |p| && Validate(p[i]) == Some(r) {
        var i :| 0 <= i < |p| && Validate(p[i]) == Some(r);
        assert es[i] == p[i];
      }
    }
  }

  /** Nothing survives the filter exactly when no entry has the right shape. */
  lemma {:induction false} ValidEntriesEmpty(es: seq<RawEntry>)
    ensures ValidEntries(es) == [] <==> forall i :: 0 <= i < |es| ==> Validate(es[i]).None?
    decreases |es|
  {
    if es != [] {
      var p := es[..|es| - 1];
      ValidEntriesEmpty(p);
      if forall i :: 0 <= i < |es| ==> Validate(es[i]).None? {
        assert forall i :: 0 <= i < |p| ==> Validate(p[i]).None? by {
          forall i | 0 <= i < |p| ensures Validate(p[i]).None? {
            assert p[i] == es[i];
          }
        }
      } else if Validate(es[|es| - 1]).None? {
        var i :| 0 <= i < |es| && Validate(es[i]).Some?;
        assert p[i] == es[i];
      }
    }
  }

  // ---------------------------------------------------------------------------
  // Grouping

  /** The group key `${action} ${position}`. */
  function Key(r: Range): string {
    ToText(r.action) + " " + ToText(r.position)
  }

  /** The string hands of an entry, in order; any other value is skipped. */
  function StringHands(hs: seq<Value>): seq<string> {
    if hs == [] then []
    else StringHands(hs[..|hs| - 1]) + (if hs[|hs| - 1].Str? then [hs[|hs| - 1].s] else [])
  }

  lemma {:induction false} StringHandsMembership(hs: seq<Value>, h: string)
    ensures h in StringHands(hs) <==> Str(h) in hs
    decreases |hs|
  {
    if hs != [] {
      var p := hs[..|hs| - 1];
      StringHandsMembership(p, h);
      assert hs == p + [hs[|hs| - 1]];
    }
  }

  /** One group of the accumulator: its key and its `Set` of hands, kept as a
      sequence in insertion order. */
  datatype Group = Group(key: string, hands: seq<string>)

  function Keys(gs: seq<Group>): (r: seq<string>)
    ensures |r| == |gs|
  {
    seq(|gs|, i requires 0 <= i < |gs| => gs[i].key)
  }

  /** The position of the group with `key`, or -1: the `acc[key]` lookup. */
  function FindKey(gs: seq<Group>, key: string): (r: int)
    ensures -1 <= r < |gs|
    ensures r >= 0 ==> gs[r].key == key
    ensures r < 0 <==> key !in Keys(gs)
  {
    var r := IndexOf(Keys(gs), key);
    assert r >= 0 ==> Keys(gs)[r] == gs[r].key;
    r
  }

  /** The `reduce` callback: create the group's set when the key is new, then add
      the entry's string hands to it. */
  function AddEntry(gs: seq<Group>, r: Range): seq<Group> {
    var key := Key(r);
    var k := FindKey(gs, key);
    if k < 0 then gs + [Group(key, AddAll([], StringHands(r.hands)))]
    else gs[k := Group(key, AddAll(gs[k].hands, StringHands(r.hands)))]
  }

  /** `validActions.reduce(...)`, with `Object.entries` order: keys always contain a
      space, so they are never array indices and come back in insertion order. */
  function GroupAll(rs: seq<Range>): seq<Group> {
    if rs == [] then [] else AddEntry(GroupAll(rs[..|rs| - 1]), rs[|rs| - 1])
  }

  // Reference definitions: what each group should hold, computed directly.

  /** The keys of the entries, in order, with repetitions. */
  function KeysIn(rs: seq<Range>): (r: seq<string>)
    ensures |r| == |rs|
  {
    seq(|rs|, i requires 0 <= i < |rs| => Key(rs[i]))
  }

  /** All string hands of the entries with `key`, in order, with repetitions. */
  function HandsFor(rs: seq<Range>, key: string): seq<string> {
    if rs == [] then []
    else
      HandsFor(rs[..|rs| - 1], key)
      + (if Key(rs[|rs| - 1]) == key then StringHands(rs[|rs| - 1].hands) else [])
  }

  /** A group holds the distinct string hands of the entries with its key. */
  predicate GroupMatches(rs: seq<Range>, g: Group) {
    g.hands == Dedup(HandsFor(rs, g.key))
  }

  lemma {:induction false} HandsForAbsentKey(rs: seq<Range>, key: string)
    requires key !in KeysIn(rs)
    ensures HandsFor(rs, key) == []
    decreases |rs|
  {
    if rs != [] {
      var p := rs[..|rs| - 1];
      assert KeysIn(p) == KeysIn(rs)[..|rs| - 1];
      HandsForAbsentKey(p, key);
      assert Key(rs[|rs| - 1]) == KeysIn(rs)[|rs| - 1];
    }
  }

  /** The grouping agrees with the reference: the group keys are the distinct entry
      keys in order of first occurrence, and every group holds the distinct string
      hands of all entries with its key, in order of first occurrence. */
  lemma {:induction false} GroupAllSpec(rs: seq<Range>)
    ensures Keys(GroupAll(rs)) == Dedup(KeysIn(rs))
    ensures forall i :: 0 <= i < |GroupAll(rs)| ==> GroupMatches(rs, GroupAll(rs)[i])
    decreases |rs|
  {
    if rs != [] {
      var p := rs[..|rs| - 1];
      var r := rs[|rs| - 1];
      assert rs == p + [r];
      GroupAllSpec(p);
      var g := GroupAll(p);
      KeysStep(p, r, g);
      forall i | 0 <= i < |AddEntry(g, r)| ensures GroupMatches(rs, AddEntry(g, r)[i]) {
        HandsStep(p, r, g, i);
      }
    }
  }

  lemma KeysInSnoc(p: seq<Range>, r: Range)
    ensures KeysIn(p + [r]) == KeysIn(p) + [Key(r)]
  {
  }

  lemma HandsForSnoc(p: seq<Range>, r: Range, key: string)
    ensures HandsFor(p + [r], key) == HandsFor(p, key) + (if Key(r) == key then StringHands(r.hands) else [])
  {
    assert (p + [r])[..|p|] == p;
  }

  lemma KeysUpdate(g: seq<Group>, k: nat, hands: seq<string>)
    requires k < |g|
    ensures Keys(g[k := Group(g[k].key, hands)]) == Keys(g)
  {
  }

  /** The new entry's key joins the keys unless it is already there. */
  lemma KeysStep(p: seq<Range>, r: Range, g: seq<Group>)
    requires Keys(g) == Dedup(KeysIn(p))
    ensures Keys(AddEntry(g, r)) == Dedup(KeysIn(p + [r]))
  {
    var key := Key(r);
    var k := FindKey(g, key);
    KeysInSnoc(p, r);
    var ks := KeysIn(p) + [key];
    assert ks[..|ks| - 1] == KeysIn(p);
    assert Dedup(ks) == if key in Dedup(KeysIn(p)) then Dedup(KeysIn(p)) else Dedup(KeysIn(p)) + [key];
    if k < 0 {
      assert Keys(g + [Group(key, AddAll([], StringHands(r.hands)))]) == Keys(g) + [key];
    } else {
      assert key in Keys(g) by { assert Keys(g)[k] == key; }
      KeysUpdate(g, k, AddAll(g[k].hands, StringHands(r.hands)));
    }
  }

  /** Each group after the step holds what the reference says. */
  lemma HandsStep(p: seq<Range>, r: Range, g: seq<Group>, i: nat)
    requires Keys(g) == Dedup(KeysIn(p))
    requires forall j :: 0 <= j < |g| ==> GroupMatches(p, g[j])
    requires i < |AddEntry(g, r)|
    ensures GroupMatches(p + [r], AddEntry(g, r)[i])
  {
    var k := FindKey(g, Key(r));
    if k < 0 && i == |g| {
      HandsStepNew(p, r, g);
    } else if k >= 0 && i == k {
      HandsStepMerged(p, r, g, k);
    } else {
      HandsStepOther(p, r, g, i);
    }
  }

  /** A new key: its group holds the entry's distinct string hands. */
  lemma HandsStepNew(p: seq<Range>, r: Range, g: seq<Group>)
    requires Keys(g) == Dedup(KeysIn(p))
    requires FindKey(g, Key(r)) < 0
    ensures GroupMatches(p + [r], Group(Key(r), AddAll([], StringHands(r.hands))))
  {
    var key := Key(r);
    HandsForSnoc(p, r, key);
    DedupSpec(KeysIn(p));
    assert key !in Keys(g);
    assert key !in Elems(KeysIn(p));
    HandsForAbsentKey(p, key);
    assert HandsFor(p + [r], key) == StringHands(r.hands);
  }

  /** A known key: the entry's string hands are added to its group. */
  lemma HandsStepMerged(p: seq<Range>, r: Range, g: seq<Group>, k: nat)
    requires k < |g| && g[k].key == Key(r)
    requires GroupMatches(p, g[k])
    ensures GroupMatches(p + [r], Group(Key(r), AddAll(g[k].hands, StringHands(r.hands))))
  {
    HandsForSnoc(p, r, Key(r));
    AddAllConcat([], HandsFor(p, Key(r)), StringHands(r.hands));
  }

  /** Every other group is left as it is. */
  lemma HandsStepOther(p: seq<Range>, r: Range, g: seq<Group>, i: nat)
    requires Keys(g) == Dedup(KeysIn(p))
    requires i < |g| && GroupMatches(p, g[i])
    requires var k := FindKey(g, Key(r)); k < 0 || i != k
    ensures GroupMatches(p + [r], g[i])
  {
    var key := Key(r);
    var k := FindKey(g, key);
    assert g[i].key != key by {
      DedupSpec(KeysIn(p));
      assert Keys(g)[i] == g[i].key;
      if k >= 0 {
        assert Keys(g)[k] == key;
      }
    }
    HandsForSnoc(p, r, g[i].key);
    assert HandsFor(p + [r], g[i].key) == HandsFor(p, g[i].key) + [];
    assert HandsFor(p, g[i].key) + [] == HandsFor(p, g[i].key);
  }

  // ---------------------------------------------------------------------------
  // Output

  /** One line of a block: a non-empty category with its codes, or the fallback. */
  datatype Line = CategoryLine(kind: Kind, codes: seq<string>) | NoHandsSelected

  /** Position of a category among the lines: pairs, then suited, then offsuit. */
  function KindRank(k: Kind): nat {
    match k
    case PairKind => 0
    case SuitedKind => 1
    case OffsuitKind => 2
  }

  function Label(k: Kind): string {
    match k
    case PairKind => "Pairs"
    case SuitedKind => "Suited"
    case OffsuitKind => "Offsuit"
  }

  /** The text of a line, without its markup. */
  function LineText(l: Line): string {
    match l
    case CategoryLine(k, codes) => Label(k) + ": " + Join(codes, ", ")
    case NoHandsSelected => "No hands selected"
  }

  /** The array given to `categorizeHands`, built from the group's `Set`. */
  function AsValues(hands: seq<string>): (r: seq<Value>)
    ensures |r| == |hands|
  {
    seq(|hands|, i requires 0 <= i < |hands| => Str(hands[i]))
  }

  function LineIfAny(k: Kind, codes: seq<string>): seq<Line> {
    if |codes| > 0 then [CategoryLine(k, codes)] else []
  }

  /** The lines for the three buckets: a line per non-empty bucket, or the
      fallback when all three are empty. */
  function Lines(b: Buckets): seq<Line> {
    var cats := LineIfAny(PairKind, b.pairs) + LineIfAny(SuitedKind, b.suited) + LineIfAny(OffsuitKind, b.offsuit);
    if cats == [] then [NoHandsSelected] else cats
  }

  /** The body of one block. */
  function BlockLines(hands: seq<string>): seq<Line> {
    Lines(CategorizeHands(AsValues(hands)))
  }

  /** The fallback line appears, alone, exactly when every bucket is empty; each
      non-empty bucket gets exactly one line, carrying its codes; the lines come in
      the order pairs, suited, offsuit. */
  lemma LinesSpec(b: Buckets)
    ensures Lines(b) == [NoHandsSelected] <==> b.Size() == 0
    ensures forall k: Kind :: CategoryLine(k, Bucket(b, k)) in Lines(b) <==> Bucket(b, k) != []
    ensures forall i :: 0 <= i < |Lines(b)| && Lines(b)[i].CategoryLine? ==>
      Lines(b)[i].codes == Bucket(b, Lines(b)[i].kind) != []
    ensures forall i, j :: 0 <= i < j < |Lines(b)| ==>
      Lines(b)[i].CategoryLine? && Lines(b)[j].CategoryLine? && KindRank(Lines(b)[i].kind) < KindRank(Lines(b)[j].kind)
  {
    var c1 := LineIfAny(PairKind, b.pairs);
    var c2 := LineIfAny(SuitedKind, b.suited);
    var c3 := LineIfAny(OffsuitKind, b.offsuit);
    var cats := c1 + c2 + c3;
    assert Lines(b) == if cats == [] then [NoHandsSelected] else cats;
    if cats != [] {
      assert cats[0].CategoryLine?;
    }
  }

  /** One block: the group's key as heading, then its lines. */
  datatype Block = Block(heading: string, lines: seq<Line>)

  /** The result: the fixed text 'No ranges defined', or the blocks in order. */
  datatype Summary = NoRangesDefined | Blocks(blocks: seq<Block>)

  function BlockOf(g: Group): Block {
    Block(g.key, BlockLines(g.hands))
  }

  /** `formatRanges(actions)`. It gives 'No ranges defined' exactly when the
      argument is not an array or no entry has the right shape; otherwise there is
      at least one block. */
  function FormatRanges(raw: RawRanges): (r: Summary)
    ensures r.NoRangesDefined? <==>
      raw.NotRangeArray? || forall i :: 0 <= i < |raw.entries| ==> Validate(raw.entries[i]).None?
    ensures r.Blocks? ==> |r.blocks| > 0
  {
    match raw
    case NotRangeArray => NoRangesDefined
    case RangeArray(es) =>
      var valid := ValidEntries(es);
      ValidEntriesEmpty(es);
      if valid == [] then NoRangesDefined
      else
        var gs := GroupAll(valid);
        GroupAllSpec(valid);
        DedupSpec(KeysIn(valid));
        assert valid[0] == valid[0] && KeysIn(valid)[0] in Elems(KeysIn(valid));
        Blocks(seq(|gs|, i requires 0 <= i < |gs| => BlockOf(gs[i])))
  }

  /** The blocks agree with the reference: the headings are the distinct keys of
      the well-shaped entries in order of first occurrence, and each block lists the
      distinct string hands of all entries with its key. */
  lemma FormatRangesBlocks(es: seq<RawEntry>)
    requires ValidEntries(es) != []
    ensures var valid := ValidEntries(es);
      var r := FormatRanges(RangeArray(es));
      && r.Blocks?
      && |r.blocks| == |Dedup(KeysIn(valid))|
      && (forall i :: 0 <= i < |r.blocks| ==>
            && r.blocks[i].heading == Dedup(KeysIn(valid))[i]
            && r.blocks[i].lines == BlockLines(Dedup(HandsFor(valid, r.blocks[i].heading))))
  {
    var valid := ValidEntries(es);
    GroupAllSpec(valid);
    var gs := GroupAll(valid);
    forall i | 0 <= i < |gs| ensures gs[i].key == Dedup(KeysIn(valid))[i] {
      assert Keys(gs)[i] == gs[i].key;
    }
  }

  /** Headings come in order of each key's first occurrence among the entries. */
  lemma HeadingsInFirstOccurrenceOrder(es: seq<RawEntry>)
    requires ValidEntries(es) != []
    ensures var r := FormatRanges(RangeArray(es));
      && r.Blocks?
      && forall i, j :: 0 <= i < j < |r.blocks| ==>
           OccursBefore(KeysIn(ValidEntries(es)), r.blocks[i].heading, r.blocks[j].heading)
  {
    FormatRangesBlocks(es);
    DedupFirstOccurrenceOrder(KeysIn(ValidEntries(es)));
  }

  /** A hand shows up under a heading exactly when some well-shaped entry with that
      key lists it as a string. */
  lemma {:induction false} HandsForMembership(rs: seq<Range>, key: string, h: string)
    ensures h in HandsFor(rs, key) <==> exists i :: 0 <= i < |rs| && Key(rs[i]) == key && Str(h) in rs[i].hands
    decreases |rs|
  {
    if rs != [] {
      var p := rs[..|rs| - 1];
      var last := rs[|rs| - 1];
      HandsForMembership(p, key, h);
      StringHandsMembership(last.hands, h);
      if exists i :: 0 <= i < |rs| && Key(rs[i]) == key && Str(h) in rs[i].hands {
        var i :| 0 <= i < |rs| && Key(rs[i]) == key && Str(h) in rs[i].hands;
        if i < |p| { assert p[i] == rs[i]; }
      }
      if exists i :: 0 <= i < |p| && Key(p[i]) == key && Str(h) in p[i].hands {
        var i :| 0 <= i < |p| && Key(p[i]) == key && Str(h) in p[i].hands;
        assert rs[i] == p[i];
      }
    }
  }

  // ---------------------------------------------------------------------------
  // Examples and quirks

  lemma ValidEntriesSnoc(es: seq<RawEntry>, e: RawEntry)
    ensures ValidEntries(es + [e]) == ValidEntries(es) + (if Validate(e).Some? then [Validate(e).value] else [])
  {
    assert (es + [e])[..|es|] == es;
  }

  lemma GroupAllSnoc(rs: seq<Range>, r: Range)
    ensures GroupAll(rs + [r]) == AddEntry(GroupAll(rs), r)
  {
    assert (rs + [r])[..|rs|] == rs;
  }

  /** Deduplication happens before categorising, so a diagonal chart code and the
      bare pair both survive the set and show up as the same pair twice. */
  lemma PairShownTwice()
    ensures BlockLines(["AA", "AAs"]) == [CategoryLine(PairKind, ["AA", "AA"])]
  {
    var a, b := Str("AA"), Str("AAs");
    assert AsValues(["AA", "AAs"]) == [a] + [b];
    CategorizeAppend([a], [b]);
    CategorizeOne(a);
    CategorizeOne(b);
    assert Place(a) == ToPairs("AA") by { assert "AA"[..2] == "AA"; }
    assert Place(b) == ToPairs("AA") by { assert "AAs"[..2] == "AA"; }
    assert CategorizeHands([a] + [b]) == Buckets(["AA", "AA"], [], []);
  }

  /** A lone pair gives a single "Pairs" line. */
  lemma PairOnly()
    ensures BlockLines(["AA"]) == [CategoryLine(PairKind, ["AA"])]
  {
    assert AsValues(["AA"]) == [Str("AA")];
    CategorizeOne(Str("AA"));
    assert Place(Str("AA")) == ToPairs("AA") by { assert "AA"[..2] == "AA"; }
  }

  /** Two entries with one key make one block; a malformed entry is dropped, and
      a hand that is not a string is skipped. */
  lemma FormatExample()
    ensures FormatRanges(RangeArray([
        Obj(Present(Str("Raise")), Present(Str("BTN")), Present(HandArray([Str("AA")]))),
        NonObject,
        Obj(Present(Str("Raise")), Present(Str("BTN")), Present(HandArray([Str("AA"), Other("7")])))]))
      == Blocks([Block("Raise BTN", [CategoryLine(PairKind, ["AA"])])])
  {
    var e1 := Obj(Present(Str("Raise")), Present(Str("BTN")), Present(HandArray([Str("AA")])));
    var e3 := Obj(Present(Str("Raise")), Present(Str("BTN")), Present(HandArray([Str("AA"), Other("7")])));
    var r1 := Range(Str("Raise"), Str("BTN"), [Str("AA")]);
    var r3 := Range(Str("Raise"), Str("BTN"), [Str("AA"), Other("7")]);
    ValidEntriesSnoc([], e1);
    ValidEntriesSnoc([e1], NonObject);
    ValidEntriesSnoc([e1, NonObject], e3);
    assert [e1] + [NonObject] == [e1, NonObject];
    assert [e1, NonObject] + [e3] == [e1, NonObject, e3];
    assert ValidEntries([e1, NonObject, e3]) == [r1, r3];
    ExampleFacts(r1, r3);
    var g := Group("Raise BTN", ["AA"]);
    PairOnly();
    assert BlockOf(g) == Block("Raise BTN", [CategoryLine(PairKind, ["AA"])]);
    var blocks := seq(1, i requires 0 <= i < 1 => BlockOf([g][i]));
    assert blocks == [BlockOf(g)];
  }

  lemma ExampleFacts(r1: Range, r3: Range)
    requires r1 == Range(Str("Raise"), Str("BTN"), [Str("AA")])
    requires r3 == Range(Str("Raise"), Str("BTN"), [Str("AA"), Other("7")])
    ensures GroupAll([r1, r3]) == [Group("Raise BTN", ["AA"])]
  {
    assert Key(r1) == "Raise BTN" && Key(r3) == "Raise BTN";
    assert StringHands([Str("AA")]) == ["AA"] by {
      assert [Str("AA")][..0] == [];
    }
    assert StringHands([Str("AA"), Other("7")]) == ["AA"] by {
      assert [Str("AA"), Other("7")][..1] == [Str("AA")];
    }
    assert AddAll([], ["AA"]) == ["AA"] by {
      assert ["AA"][..0] == [];
    }
    assert AddAll(["AA"], ["AA"]) == ["AA"] by {
      assert ["AA"][..0] == [];
    }
    var g := Group("Raise BTN", ["AA"]);
    GroupAllSnoc([], r1);
    GroupAllSnoc([r1], r3);
    assert [] + [r1] == [r1] && [r1] + [r3] == [r1, r3];
    assert Keys([]) == [];
    assert GroupAll([r1]) == [g];
    assert Keys([g]) == ["Raise BTN"];
    assert FindKey([g], "Raise BTN") == 0;
  }
}
