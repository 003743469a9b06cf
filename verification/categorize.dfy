/** `categorizeHands`: splitting hand codes into pairs, suited and offsuit lists
    (src/utils/handRangeUtils.ts). */
module Categorize {
  import opened Js

  /** Where one input lands: at most one bucket, with the code as it is stored there. */
  datatype Placement = ToPairs(code: string) | ToSuited(code: string) | ToOffsuit(code: string) | Skipped

  datatype Buckets = Buckets(pairs: seq<string>, suited: seq<string>, offsuit: seq<string>) {

    /** Total number of codes across the three buckets. */
    function Size(): nat {
      |pairs| + |suited| + |offsuit|
    }

    /** Bucket-wise concatenation. */
    function Concat(other: Buckets): Buckets {
      Buckets(pairs + other.pairs, suited + other.suited, offsuit + other.offsuit)
    }
  }

  const NoBuckets := Buckets([], [], [])

  /** The decision taken for one input: a pair is recognised by its first two
      characters alone (both `undefined` for the empty string), before the suffix is
      looked at; a pair keeps at most its first two characters, suited and offsuit
      codes lose their last character; non-strings and anything else are skipped. */
  function Place(v: Value): Placement {
    match v
    case Str(h) =>
      if At(h, 0) == At(h, 1) then ToPairs(if |h| < 2 then h else h[..2])
      else if EndsWith(h, 's') then ToSuited(h[..|h| - 1])
      else if EndsWith(h, 'o') then ToOffsuit(h[..|h| - 1])
      else Skipped
    case _ => Skipped
  }

  /** The `push` into the bucket the placement names. */
  function Push(b: Buckets, p: Placement): Buckets {
    match p
    case ToPairs(c) => b.(pairs := b.pairs + [c])
    case ToSuited(c) => b.(suited := b.suited + [c])
    case ToOffsuit(c) => b.(offsuit := b.offsuit + [c])
    case Skipped => b
  }

  /** `categorizeHands(hands)`: the `forEach` over the inputs. */
  function CategorizeHands(hands: seq<Value>): Buckets {
    if hands == [] then NoBuckets
    else Push(CategorizeHands(hands[..|hands| - 1]), Place(hands[|hands| - 1]))
  }

  /** Each input adds at most one code, and when no input is skipped every input
      adds exactly one. */
  lemma {:induction false} CategorizeSize(hands: seq<Value>)
    ensures CategorizeHands(hands).Size() <= |hands|
    ensures (forall i :: 0 <= i < |hands| ==> !Place(hands[i]).Skipped?) ==> CategorizeHands(hands).Size() == |hands|
    decreases |hands|
  {
    if hands != [] {
      var p := hands[..|hands| - 1];
      CategorizeSize(p);
      assert forall i :: 0 <= i < |p| ==> p[i] == hands[i];
    }
  }

  /** Categorising a concatenation concatenates the buckets: within each bucket the
      codes keep the order of the inputs they came from. */
  lemma {:induction false} CategorizeAppend(a: seq<Value>, b: seq<Value>)
    ensures CategorizeHands(a + b) == CategorizeHands(a).Concat(CategorizeHands(b))
    decreases |b|
  {
    if b == [] {
      assert a + b == a;
    } else {
      var b' := b[..|b| - 1];
      CategorizeAppend(a, b');
      assert (a + b)[..|a + b| - 1] == a + b';
      assert (a + b)[|a + b| - 1] == b[|b| - 1];
    }
  }

  /** A single input lands in exactly the bucket its placement names, and nowhere else. */
  lemma CategorizeOne(v: Value)
    ensures var r := CategorizeHands([v]);
      match Place(v)
      case ToPairs(c) => r == Buckets([c], [], [])
      case ToSuited(c) => r == Buckets([], [c], [])
      case ToOffsuit(c) => r == Buckets([], [], [c])
      case Skipped => r == NoBuckets
  {
    assert [v][..0] == [];
  }

  /** The three buckets, for stating one fact about all of them at once. */
  datatype Kind = PairKind | SuitedKind | OffsuitKind

  function Bucket(b: Buckets, k: Kind): seq<string> {
    match k
    case PairKind => b.pairs
    case SuitedKind => b.suited
    case OffsuitKind => b.offsuit
  }

  function Tag(k: Kind, c: string): Placement {
    match k
    case PairKind => ToPairs(c)
    case SuitedKind => ToSuited(c)
    case OffsuitKind => ToOffsuit(c)
  }

  /** Pushing a placement grows the one bucket it names, by its code. */
  lemma PushBucket(b: Buckets, pl: Placement, k: Kind, c: string)
    ensures c in Bucket(Push(b, pl), k) <==> c in Bucket(b, k) || pl == Tag(k, c)
  {
  }

  /** A code is in a bucket exactly when some input is placed there with that code. */
  lemma {:induction false} BucketMembership(hands: seq<Value>, k: Kind, c: string)
    ensures c in Bucket(CategorizeHands(hands), k) <==> exists i :: 0 <= i < |hands| && Place(hands[i]) == Tag(k, c)
    decreases |hands|
  {
    if hands != [] {
      var p := hands[..|hands| - 1];
      var last := |hands| - 1;
      BucketMembership(p, k, c);
      PushBucket(CategorizeHands(p), Place(hands[last]), k, c);
      if exists i :: 0 <= i < |hands| && Place(hands[i]) == Tag(k, c) {
        var i :| 0 <= i < |hands| && Place(hands[i]) == Tag(k, c);
        if i < last { assert p[i] == hands[i]; }
      }
      if exists i :: 0 <= i < |p| && Place(p[i]) == Tag(k, c) {
        var i :| 0 <= i < |p| && Place(p[i]) == Tag(k, c);
        assert p[i] == hands[i];
      }
    }
  }

  /** Membership in each bucket, both directions. */
  lemma CategorizeMembership(hands: seq<Value>, c: string)
    ensures c in CategorizeHands(hands).pairs <==> exists i :: 0 <= i < |hands| && Place(hands[i]) == ToPairs(c)
    ensures c in CategorizeHands(hands).suited <==> exists i :: 0 <= i < |hands| && Place(hands[i]) == ToSuited(c)
    ensures c in CategorizeHands(hands).offsuit <==> exists i :: 0 <= i < |hands| && Place(hands[i]) == ToOffsuit(c)
  {
    BucketMembership(hands, PairKind, c);
    BucketMembership(hands, SuitedKind, c);
    BucketMembership(hands, OffsuitKind, c);
  }

  /** The worked example: a pair, a suited and an offsuit code. */
  lemma CategorizeExample()
    ensures CategorizeHands([Str("AA"), Str("AKs"), Str("AKo")]) == Buckets(["AA"], ["AK"], ["AK"])
  {
    var hs := [Str("AA"), Str("AKs"), Str("AKo")];
    assert Place(hs[0]) == ToPairs("AA");
    assert Place(hs[1]) == ToSuited("AK") by { assert "AKs"[..2] == "AK"; }
    assert Place(hs[2]) == ToOffsuit("AK") by { assert "AKo"[..2] == "AK"; }
    assert hs[..2][..1] == [Str("AA")] && hs[..2] == [Str("AA"), Str("AKs")];
    assert [Str("AA")][..0] == [];
    assert CategorizeHands([Str("AA")]) == Buckets(["AA"], [], []);
    assert CategorizeHands(hs[..2]) == Buckets(["AA"], ["AK"], []);
  }

  /** A diagonal chart code such as "AAs" is a pair, stored without its suffix; the
      empty string counts as a pair too, since both its first characters are undefined. */
  lemma PairCheckedBeforeSuffix()
    ensures Place(Str("AAs")) == ToPairs("AA")
    ensures Place(Str("")) == ToPairs("")
    ensures Place(Str("A")) == Skipped
  {
  }
}
