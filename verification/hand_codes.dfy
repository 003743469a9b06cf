/** Hand codes: two rank characters followed by an optional suit suffix, ranked by the
    order "23456789TJQKA" (deuce lowest, ace highest). */
module HandCodes {
  import opened Js

  /** `rankOrder` in the compressor: position in this string is the rank's value. */
  const RankOrder: string := "23456789TJQKA"

  /** A rank character. */
  predicate IsRank(c: char) {
    c in RankOrder
  }

  /** `rankOrder.indexOf(c)`: the rank's value, or -1 for `undefined` and for any
      character that is not a rank. */
  function RankIndex(c: Option<char>): (r: int)
    ensures -1 <= r < |RankOrder|
  {
    match c
    case None => -1
    case Some(ch) =>
      match ch
      case '2' => 0
      case '3' => 1
      case '4' => 2
      case '5' => 3
      case '6' => 4
      case '7' => 5
      case '8' => 6
      case '9' => 7
      case 'T' => 8
      case 'J' => 9
      case 'Q' => 10
      case 'K' => 11
      case 'A' => 12
      case _ => -1
  }

  /** Exactly the rank characters have a value, and the value locates the
      character in the rank order. */
  lemma RankIndexOfNonRank(c: Option<char>)
    ensures RankIndex(c) >= 0 <==> c.Some? && IsRank(c.value)
    ensures RankIndex(c) >= 0 ==> RankOrder[RankIndex(c)] == c.value
  {
  }

  /** `rankOrder.indexOf(s[i])`. */
  function RankAt(s: string, i: nat): int {
    RankIndex(At(s, i))
  }

  /** The rank characters are pairwise distinct, so a rank's value determines it. */
  lemma RankOrderDistinct()
    ensures forall a, b :: 0 <= a < b < |RankOrder| ==> RankOrder[a] != RankOrder[b]
  {
  }

  /** Looking up a rank character gives back its position. */
  lemma RankIndexOfRank(k: nat)
    requires k < |RankOrder|
    ensures RankIndex(Some(RankOrder[k])) == k
  {
    RankOrderDistinct();
  }

  /** A code of `|suffix| + 2` characters: two ranks followed by `suffix`. */
  predicate WellFormed(h: string, suffix: string) {
    |h| == 2 + |suffix| && IsRank(h[0]) && IsRank(h[1]) && h[2..] == suffix
  }
}
