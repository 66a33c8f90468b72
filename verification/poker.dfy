/**
 * The hand evaluator of hw-02-poker/poker.py: card ranks and suits, the `flush`, `straight`,
 * `kind` and `two_pair` tests, `hand_rank`, and the order `compare_rank_info` puts on the
 * values `hand_rank` returns.
 *
 * A card is a string whose first character is its rank and whose second is its suit ("TH" is
 * the ten of hearts). Python's tuples `(category, ...)` become the datatype `HandInfo`.
 */
module Poker {
  import opened Wrappers
  import opened Seqs

  /** The ranks in increasing order: the deck order the whole program relies on. */
  const Faces: string := "23456789TJQKA"

  type Card = string
  type Hand = seq<Card>

  /** A card the evaluator can rank: a rank character from `Faces` followed by a suit. */
  predicate ValidCard(c: Card)
  {
    |c| >= 2 && c[0] in Faces
  }

  predicate AllValid(hand: Hand)
  {
    forall c :: c in hand ==> ValidCard(c)
  }

  /** `get_suite(card)`. */
  function Suit(c: Card): char
    requires |c| >= 2
  {
    c[1]
  }

  /**
   * `get_rank(card)`: the picture cards through a table, the digits through `int`. The value is
   * the card's position in `Faces` plus two, so the ranks run from 2 (a two) to 14 (an ace).
   */
  function Rank(c: Card): (r: int)
    requires ValidCard(c)
    ensures 2 <= r <= 14 && Faces[r - 2] == c[0]
  {
    var ch := c[0];
    if ch in "TJQKA" then
      (if ch == 'T' then 10 else if ch == 'J' then 11 else if ch == 'Q' then 12
       else if ch == 'K' then 13 else 14)
    else
      ch as int - '0' as int
  }

  /** `card_ranks(hand)`: the ranks of the hand from the highest to the lowest. */
  function CardRanks(hand: Hand): (r: seq<int>)
    requires AllValid(hand)
    ensures Descending(r)
    ensures multiset(r) == multiset(Map(hand, Rank))
    ensures |r| == |hand|
    ensures forall x :: x in r ==> 2 <= x <= 14
  {
    var r := SortDescending(Map(hand, Rank));
    assert |r| == |multiset(r)| == |multiset(Map(hand, Rank))| == |hand|;
    assert forall x :: x in r ==> 2 <= x <= 14 by {
      forall x | x in r ensures 2 <= x <= 14 {
        assert x in multiset(Map(hand, Rank));
      }
    }
    r
  }

  /** How many cards of the hand have suit `s`. */
  function SuitCount(hand: Hand, s: char): (r: nat)
    requires forall c :: c in hand ==> |c| >= 2
    ensures r <= |hand|
  {
    if hand == [] then 0
    else SuitCount(hand[1..], s) + (if Suit(hand[0]) == s then 1 else 0)
  }

  /** Every card of the hand has suit `s`. */
  predicate AllOfSuit(hand: Hand, s: char)
    requires forall c :: c in hand ==> |c| >= 2
  {
    forall i :: 0 <= i < |hand| ==> Suit(hand[i]) == s
  }

  lemma {:induction false} SuitCountFull(hand: Hand, s: char)
    requires forall c :: c in hand ==> |c| >= 2
    ensures SuitCount(hand, s) == |hand| <==> AllOfSuit(hand, s)
  {
    if hand != [] {
      SuitCountFull(hand[1..], s);
      if AllOfSuit(hand, s) {
        assert AllOfSuit(hand[1..], s) by {
          forall i | 0 <= i < |hand[1..]| ensures Suit(hand[1..][i]) == s {
            assert hand[1..][i] == hand[i + 1];
          }
        }
      }
    }
  }

  /**
   * `flush(hand)`: the number of cards sharing the first card's suit is the size of the hand,
   * that is, all cards have one suit. The source reads the first card, so the hand is not empty.
   */
  function Flush(hand: Hand): (r: bool)
    requires |hand| >= 1 && forall c :: c in hand ==> |c| >= 2
    ensures r <==> AllOfSuit(hand, Suit(hand[0]))
  {
    SuitCountFull(hand, Suit(hand[0]));
    SuitCount(hand, Suit(hand[0])) == |hand|
  }

  /** `neighbours` inside `straight`: '1' where the next rank is one more, '0' elsewhere. */
  function Neighbours(ranks: seq<int>): (r: string)
    ensures |r| == if |ranks| == 0 then 0 else |ranks| - 1
    ensures forall i :: 0 <= i < |r| ==> (r[i] == '1' <==> ranks[i + 1] - ranks[i] == 1)
  {
    if |ranks| == 0 then ""
    else seq(|ranks| - 1, i requires 0 <= i < |ranks| - 1 => if ranks[i + 1] - ranks[i] == 1 then '1' else '0')
  }

  /** `pat` occurs in `s` at index `i`. */
  predicate OccursAt(s: string, pat: string, i: int)
  {
    0 <= i && i + |pat| <= |s| && s[i..i + |pat|] == pat
  }

  function FindFrom(s: string, pat: string, i: nat): (r: int)
    requires i <= |s| + 1
    ensures r == -1 || (i <= r && OccursAt(s, pat, r))
    ensures forall j :: i <= j < (if r == -1 then |s| + 1 else r) ==> !OccursAt(s, pat, j)
    decreases |s| + 1 - i
  {
    if i + |pat| > |s| then -1
    else if s[i..i + |pat|] == pat then i
    else FindFrom(s, pat, i + 1)
  }

  /** Python's `s.find(pat)`: the first index where `pat` occurs, or -1. */
  function Find(s: string, pat: string): (r: int)
    ensures r == -1 <==> forall j :: 0 <= j <= |s| ==> !OccursAt(s, pat, j)
    ensures r != -1 ==> OccursAt(s, pat, r) && forall j :: 0 <= j < r ==> !OccursAt(s, pat, j)
  {
    FindFrom(s, pat, 0)
  }

  function Ones(k: nat): (r: string)
    ensures |r| == k && forall i :: 0 <= i < k ==> r[i] == '1'
  {
    seq(k, _ => '1')
  }

  /** `straight(ranks, k)`: the neighbour string holds `k` ones in a row. */
  function Straight(ranks: seq<int>, k: nat): bool
  {
    Find(Neighbours(ranks), Ones(k)) != -1
  }

  /** `k + 1` consecutive entries of `ranks` from index `i` each go up by exactly one. */
  predicate RisingRun(ranks: seq<int>, i: int, k: nat)
  {
    0 <= i && i + k < |ranks| && forall j :: i <= j < i + k ==> ranks[j + 1] - ranks[j] == 1
  }

  /**
   * `straight(ranks, k)` holds exactly when `k + 1` consecutive entries of `ranks` climb by one
   * each: a run of increasing neighbours in the order the list is given.
   */
  lemma StraightIsRisingRun(ranks: seq<int>, k: nat)
    requires k >= 1
    ensures Straight(ranks, k) <==> exists i :: RisingRun(ranks, i, k)
  {
    if Straight(ranks, k) {
      StraightHasRun(ranks, k);
    }
    if exists i :: RisingRun(ranks, i, k) {
      var i :| RisingRun(ranks, i, k);
      RunMakesStraight(ranks, i, k);
    }
  }

  lemma StraightHasRun(ranks: seq<int>, k: nat)
    requires k >= 1 && Straight(ranks, k)
    ensures RisingRun(ranks, Find(Neighbours(ranks), Ones(k)), k)
    ensures var i := Find(Neighbours(ranks), Ones(k)); ranks[i + 1] - ranks[i] == 1
  {
    var s := Neighbours(ranks);
    var i := Find(s, Ones(k));
    OnesAt(s, i, k);
  }

  /** Where `k` ones occur at index `i`, each of the `k` characters from `i` on is a one. */
  lemma OnesAt(s: string, i: int, k: nat)
    requires OccursAt(s, Ones(k), i)
    ensures forall j :: i <= j < i + k ==> s[j] == '1'
  {
    forall j | i <= j < i + k ensures s[j] == '1' {
      assert s[j] == s[i..i + k][j - i];
    }
  }

  lemma RunMakesStraight(ranks: seq<int>, i: int, k: nat)
    requires RisingRun(ranks, i, k)
    ensures Straight(ranks, k)
  {
    var s, pat := Neighbours(ranks), Ones(k);
    assert s[i..i + k] == pat;
    assert OccursAt(s, pat, i);
  }

  /**
   * `card_ranks` sorts from the highest rank down, so no neighbour ever climbs by one and
   * `straight` is false on every list it is given in this program.
   */
  lemma StraightFalseOnDescending(ranks: seq<int>, k: nat)
    requires k >= 1 && Descending(ranks)
    ensures !Straight(ranks, k)
  {
    if Straight(ranks, k) {
      StraightHasRun(ranks, k);
    }
  }

  /** The loop of `kind` run over the keys `keys`, starting from `best_rank = 0`. */
  function KindOver(n: int, ranks: seq<int>, keys: seq<int>): (r: int)
    ensures r >= 0
    ensures r == 0 || (r in keys && Count(ranks, r) == n)
    ensures forall x :: x in keys && Count(ranks, x) == n ==> x <= r
    decreases |keys|
  {
    if keys == [] then 0
    else
      var best := KindOver(n, ranks, keys[..|keys| - 1]);
      var k := keys[|keys| - 1];
      assert keys == keys[..|keys| - 1] + [k];
      if Count(ranks, k) == n && k > best then k else best
  }

  /**
   * What `kind(n, ranks)` returns: the highest rank occurring exactly `n` times, or 0 when no
   * rank does (or when only ranks at most 0 do).
   */
  function KindOf(n: int, ranks: seq<int>): (r: int)
    ensures r >= 0
    ensures r == 0 || (r in ranks && Count(ranks, r) == n)
    ensures forall x :: x in ranks && Count(ranks, x) == n ==> x <= r
  {
    KindOver(n, ranks, Distinct(ranks))
  }

  /** `kind(n, ranks)`: walks the keys of `Counter(ranks)` keeping the highest one seen `n` times. */
  method Kind(n: int, ranks: seq<int>) returns (bestRank: int)
    ensures bestRank == KindOf(n, ranks)
    ensures bestRank == 0 || Count(ranks, bestRank) == n
    ensures forall x :: x in ranks && Count(ranks, x) == n ==> x <= bestRank
  {
    var keys := Distinct(ranks);
    bestRank := 0;
    for i := 0 to |keys|
      invariant bestRank == KindOver(n, ranks, keys[..i])
    {
      var k, v := keys[i], Count(ranks, keys[i]);
      assert keys[..i + 1] == keys[..i] + [k];
      if v == n && k > bestRank {
        bestRank := k;
      }
    }
    assert keys[..|keys|] == keys;
  }

  /**
   * `two_pair(ranks)`: None when no rank occurs exactly twice, otherwise every such rank, in
   * the order `Counter` lists them. A single pair already gives a (one-element) list.
   */
  function TwoPair(ranks: seq<int>): (r: Option<seq<int>>)
    ensures r.None? <==> forall x :: x in ranks ==> Count(ranks, x) != 2
    ensures r.Some? ==> |r.value| > 0 && NoDup(r.value)
    ensures r.Some? ==> forall x :: x in r.value <==> x in ranks && Count(ranks, x) == 2
  {
    var keys := Distinct(ranks);
    if forall x :: x in keys ==> Count(ranks, x) != 2 then None
    else
      var pairs := Filter(keys, x => Count(ranks, x) == 2);
      FilterNoDup(keys, x => Count(ranks, x) == 2);
      var x :| x in keys && Count(ranks, x) == 2;
      assert x in pairs;
      Some(pairs)
  }

  /** The tuples `hand_rank` returns, one constructor per category (the tuple's first entry). */
  datatype HandInfo =
    | HighCard(ranks: seq<int>)
    | OnePair(pair: int, ranks: seq<int>)
    | TwoPairs(pairs: seq<int>, ranks: seq<int>)
    | ThreeOfAKind(three: int, ranks: seq<int>)
    | PlainStraight(high: int)
    | PlainFlush(ranks: seq<int>)
    | FullHouse(three: int, two: int)
    | FourOfAKind(four: int, kicker: int)
    | StraightFlush(high: int)
  {
    function Category(): int
    {
      match this
      case HighCard(_) => 0
      case OnePair(_, _) => 1
      case TwoPairs(_, _) => 2
      case ThreeOfAKind(_, _) => 3
      case PlainStraight(_) => 4
      case PlainFlush(_) => 5
      case FullHouse(_, _) => 6
      case FourOfAKind(_, _) => 7
      case StraightFlush(_) => 8
    }
  }

  /** A hand `hand_rank` accepts: at least one card, every card rankable. */
  predicate Rankable(hand: Hand)
  {
    |hand| >= 1 && AllValid(hand)
  }

  /**
   * The decision chain of `hand_rank`, given the sorted ranks and whether the hand is a flush.
   * A zero from `kind` counts as false, as in the source; so does a `None` from `two_pair`,
   * while any list it returns counts as true.
   */
  function Classify(ranks: seq<int>, isFlush: bool): HandInfo
    requires |ranks| > 0
  {
    if Straight(ranks, 5) && isFlush then StraightFlush(Max(ranks))
    else if KindOf(4, ranks) != 0 then FourOfAKind(KindOf(4, ranks), KindOf(1, ranks))
    else if KindOf(3, ranks) != 0 && KindOf(2, ranks) != 0 then FullHouse(KindOf(3, ranks), KindOf(2, ranks))
    else if isFlush then PlainFlush(ranks)
    else if Straight(ranks, 5) then PlainStraight(Max(ranks))
    else if KindOf(3, ranks) != 0 then ThreeOfAKind(KindOf(3, ranks), ranks)
    else if TwoPair(ranks).Some? then TwoPairs(TwoPair(ranks).value, ranks)
    else if KindOf(2, ranks) != 0 then OnePair(KindOf(2, ranks), ranks)
    else HighCard(ranks)
  }

  /** `hand_rank(hand)`. */
  function HandRank(hand: Hand): HandInfo
    requires Rankable(hand)
  {
    Classify(CardRanks(hand), Flush(hand))
  }

  /** Ranks as `card_ranks` delivers them: sorted from high to low, each at least two. */
  predicate SortedRanks(ranks: seq<int>)
  {
    |ranks| > 0 && Descending(ranks) && forall x :: x in ranks ==> x >= 2
  }

  lemma CardRanksSorted(hand: Hand)
    requires Rankable(hand)
    ensures SortedRanks(CardRanks(hand))
  {
  }

  lemma ClassifyMeaning(ranks: seq<int>, isFlush: bool)
    requires SortedRanks(ranks)
    ensures var info := Classify(ranks, isFlush);
      && (info.FourOfAKind? ==>
           Count(ranks, info.four) == 4 && (info.kicker == 0 || Count(ranks, info.kicker) == 1))
      && (info.FullHouse? ==> Count(ranks, info.three) == 3 && Count(ranks, info.two) == 2)
      && (info.PlainFlush? ==> isFlush && info.ranks == ranks)
      && (info.ThreeOfAKind? ==> Count(ranks, info.three) == 3 && info.ranks == ranks)
      && (info.TwoPairs? ==> |info.pairs| > 0 && forall x :: x in info.pairs ==> Count(ranks, x) == 2)
  {
    StraightFalseOnDescending(ranks, 5);
    var info := Classify(ranks, isFlush);
    if KindOf(4, ranks) != 0 {
      assert info.FourOfAKind?;
    } else if KindOf(3, ranks) != 0 && KindOf(2, ranks) != 0 {
      assert info.FullHouse?;
    } else if isFlush {
      assert info.PlainFlush?;
    } else if KindOf(3, ranks) != 0 {
      assert info.ThreeOfAKind?;
    } else if TwoPair(ranks).Some? {
      assert info.TwoPairs?;
    }
  }

  lemma ClassifyHighCard(ranks: seq<int>, isFlush: bool)
    requires SortedRanks(ranks) && Classify(ranks, isFlush).HighCard?
    ensures !isFlush
    ensures forall x :: x in ranks ==> Count(ranks, x) != 2 && Count(ranks, x) != 3 && Count(ranks, x) != 4
  {
    StraightFalseOnDescending(ranks, 5);
    forall x | x in ranks
      ensures Count(ranks, x) != 2 && Count(ranks, x) != 3 && Count(ranks, x) != 4
    {
      assert 2 <= x;
    }
  }

  /**
   * What each category of `hand_rank` says about the hand: the ranks it reports occur as often
   * as the category claims, and a flush has one suit.
   */
  lemma HandRankMeaning(hand: Hand)
    requires Rankable(hand)
    ensures var info, ranks := HandRank(hand), CardRanks(hand);
      && (info.FourOfAKind? ==>
           Count(ranks, info.four) == 4 && (info.kicker == 0 || Count(ranks, info.kicker) == 1))
      && (info.FullHouse? ==> Count(ranks, info.three) == 3 && Count(ranks, info.two) == 2)
      && (info.PlainFlush? ==> Flush(hand) && info.ranks == ranks)
      && (info.ThreeOfAKind? ==> Count(ranks, info.three) == 3 && info.ranks == ranks)
      && (info.TwoPairs? ==> |info.pairs| > 0 && forall x :: x in info.pairs ==> Count(ranks, x) == 2)
  {
    CardRanksSorted(hand);
    ClassifyMeaning(CardRanks(hand), Flush(hand));
  }

  /** The high-card category has neither a flush nor a rank repeated two, three or four times. */
  lemma HandRankHighCard(hand: Hand)
    requires Rankable(hand) && HandRank(hand).HighCard?
    ensures !Flush(hand)
    ensures var ranks := CardRanks(hand);
      forall x :: x in ranks ==> Count(ranks, x) != 2 && Count(ranks, x) != 3 && Count(ranks, x) != 4
  {
    CardRanksSorted(hand);
    ClassifyHighCard(CardRanks(hand), Flush(hand));
  }

  /** A rank occurring four times always makes the hand a four of a kind. */
  lemma FourOfAKindFound(hand: Hand, x: int)
    requires Rankable(hand) && Count(CardRanks(hand), x) == 4
    ensures HandRank(hand).FourOfAKind?
  {
    var ranks, isFlush := CardRanks(hand), Flush(hand);
    CardRanksSorted(hand);
    assert x in multiset(ranks);
    ClassifyFindsFour(ranks, isFlush, x);
  }

  lemma ClassifyFindsFour(ranks: seq<int>, isFlush: bool, x: int)
    requires SortedRanks(ranks) && x in ranks && Count(ranks, x) == 4
    ensures Classify(ranks, isFlush).FourOfAKind?
  {
    StraightFalseOnDescending(ranks, 5);
    assert KindOf(4, ranks) >= x >= 2;
  }

  /**
   * `straight` only ever sees ranks sorted from high to low, so `hand_rank` never reports a
   * straight or a straight flush (categories 4 and 8), not even for 6C 7C 8C 9C TC.
   */
  lemma HandRankNeverStraight(hand: Hand)
    requires Rankable(hand)
    ensures !HandRank(hand).PlainStraight? && !HandRank(hand).StraightFlush?
  {
    var ranks, isFlush := CardRanks(hand), Flush(hand);
    CardRanksSorted(hand);
    ClassifyNeverStraight(ranks, isFlush);
  }

  lemma ClassifyNeverStraight(ranks: seq<int>, isFlush: bool)
    requires SortedRanks(ranks)
    ensures !Classify(ranks, isFlush).PlainStraight? && !Classify(ranks, isFlush).StraightFlush?
  {
    StraightFalseOnDescending(ranks, 5);
  }

  /**
   * `two_pair` returns a list as soon as one rank occurs twice, so a single pair is reported as
   * category 2 and category 1 is never produced.
   */
  lemma HandRankNeverOnePair(hand: Hand)
    requires Rankable(hand)
    ensures !HandRank(hand).OnePair?
  {
    var ranks, isFlush := CardRanks(hand), Flush(hand);
    CardRanksSorted(hand);
    ClassifyNeverOnePair(ranks, isFlush);
  }

  lemma ClassifyNeverOnePair(ranks: seq<int>, isFlush: bool)
    requires SortedRanks(ranks)
    ensures !Classify(ranks, isFlush).OnePair?
  {
    StraightFalseOnDescending(ranks, 5);
    var k := KindOf(2, ranks);
    if k != 0 {
      assert Count(ranks, k) == 2;
    }
  }

  /**
   * What makes a hand of category `c`, each category judged on its own: the runs, repeated
   * ranks and suits the name of the category describes. `straight(ranks)` asks for five rises
   * in a row, so its run is six ranks long. One pair and two pairs are judged alike, because
   * `two_pair` answers for a single pair already.
   */
  ghost predicate Holds(c: int, ranks: seq<int>, isFlush: bool)
  {
    if c == 8 then (exists i :: RisingRun(ranks, i, 5)) && isFlush
    else if c == 7 then HasCount(ranks, 4)
    else if c == 6 then HasCount(ranks, 3) && HasCount(ranks, 2)
    else if c == 5 then isFlush
    else if c == 4 then exists i :: RisingRun(ranks, i, 5)
    else if c == 3 then HasCount(ranks, 3)
    else if c == 2 || c == 1 then HasCount(ranks, 2)
    else c == 0
  }

  /** The branch `hand_rank` takes is the highest category whose description fits. */
  lemma ClassifyIsHighest(ranks: seq<int>, isFlush: bool)
    requires |ranks| > 0 && forall x :: x in ranks ==> x >= 1
    ensures var c := Classify(ranks, isFlush).Category();
      && 0 <= c <= 8
      && Holds(c, ranks, isFlush)
      && forall d :: c < d <= 8 ==> !Holds(d, ranks, isFlush)
  {
    var run, four := Straight(ranks, 5), KindOf(4, ranks) != 0;
    HoldsRun(ranks, isFlush);
    HoldsCounts(ranks, isFlush);
    HoldsTwoPair(ranks, isFlush);
    ClassifyBranch(ranks, isFlush);
    var c := Classify(ranks, isFlush).Category();
    forall d | c < d <= 8 ensures !Holds(d, ranks, isFlush) {
      if d == 8 {
        assert !(run && isFlush);
      } else if d == 7 {
        assert !four;
      }
    }
  }

  /** The straight categories' description, in the terms of the test `hand_rank` makes. */
  lemma HoldsRun(ranks: seq<int>, isFlush: bool)
    ensures Holds(8, ranks, isFlush) == (Straight(ranks, 5) && isFlush)
    ensures Holds(4, ranks, isFlush) == Straight(ranks, 5)
  {
    StraightIsRisingRun(ranks, 5);
  }

  /** The other categories' descriptions, in the terms of the tests `hand_rank` makes. */
  lemma HoldsCounts(ranks: seq<int>, isFlush: bool)
    requires forall x :: x in ranks ==> x >= 1
    ensures Holds(7, ranks, isFlush) == (KindOf(4, ranks) != 0)
    ensures Holds(6, ranks, isFlush) == (KindOf(3, ranks) != 0 && KindOf(2, ranks) != 0)
    ensures Holds(5, ranks, isFlush) == isFlush
    ensures Holds(3, ranks, isFlush) == (KindOf(3, ranks) != 0)
    ensures Holds(1, ranks, isFlush) == (KindOf(2, ranks) != 0)
    ensures Holds(0, ranks, isFlush)
  {
    KindOfFound(ranks, 4);
    KindOfFound(ranks, 3);
    KindOfFound(ranks, 2);
  }

  /** `two_pair` answers exactly when some rank is paired. */
  lemma HoldsTwoPair(ranks: seq<int>, isFlush: bool)
    ensures Holds(2, ranks, isFlush) == TwoPair(ranks).Some?
  {
    if HasCount(ranks, 2) {
      var k :| Count(ranks, k) == 2;
      assert k in multiset(ranks);
    }
  }

  /** The category of `Classify`, as its chain of tests decides it. */
  lemma ClassifyBranch(ranks: seq<int>, isFlush: bool)
    requires |ranks| > 0
    ensures var c := Classify(ranks, isFlush).Category();
      var run, four, three, two := Straight(ranks, 5), KindOf(4, ranks) != 0, KindOf(3, ranks) != 0, TwoPair(ranks).Some?;
      && (run && isFlush ==> c == 8)
      && (!(run && isFlush) && four ==> c == 7)
      && (!(run && isFlush) && !four && three && KindOf(2, ranks) != 0 ==> c == 6)
      && (!(run && isFlush) && !four && !(three && KindOf(2, ranks) != 0) && isFlush ==> c == 5)
      && (!(run && isFlush) && !four && !(three && KindOf(2, ranks) != 0) && !isFlush && run ==> c == 4)
      && (!run && !four && !(three && KindOf(2, ranks) != 0) && !isFlush && three ==> c == 3)
      && (!run && !four && !three && !isFlush && two ==> c == 2)
      && (!run && !four && !three && !isFlush && !two && KindOf(2, ranks) != 0 ==> c == 1)
      && (!run && !four && !three && !isFlush && !two && KindOf(2, ranks) == 0 ==> c == 0)
  {
  }

  /** On positive ranks, `kind(n, ranks)` is non-zero exactly when some rank occurs `n` times. */
  lemma KindOfFound(ranks: seq<int>, n: nat)
    requires n >= 1 && forall x :: x in ranks ==> x >= 1
    ensures KindOf(n, ranks) != 0 <==> HasCount(ranks, n)
  {
    if KindOf(n, ranks) != 0 {
      assert Count(ranks, KindOf(n, ranks)) == n;
    }
    if HasCount(ranks, n) {
      var k :| Count(ranks, k) == n;
      assert k in multiset(ranks);
    }
  }

  /** `hand_rank` answers with the highest category that fits the hand. */
  lemma HandRankIsHighest(hand: Hand)
    requires Rankable(hand)
    ensures var c := HandRank(hand).Category();
      && Holds(c, CardRanks(hand), Flush(hand))
      && forall d :: c < d <= 8 ==> !Holds(d, CardRanks(hand), Flush(hand))
  {
    ClassifyIsHighest(CardRanks(hand), Flush(hand));
  }

  /**
   * `compare_rank_info(info, best_rank)`: does `info` beat the best so far? Two flushes compare
   * by `straight(ranks, 4)`, two full houses by their triple then their pair, two fours of a
   * kind by the sum of their ranks; otherwise only a higher category wins.
   */
  function CompareRankInfo(info: HandInfo, best: Option<HandInfo>): (r: bool)
    ensures best.None? ==> r
    ensures best.Some? && info.Category() != best.value.Category() ==>
      (r <==> info.Category() > best.value.Category())
  {
    if best.None? then true
    else
      var b := best.value;
      if info.Category() == b.Category() == 5 then
        Straight(info.ranks, 4) && !Straight(b.ranks, 4)
      else if info.Category() == b.Category() == 6 then
        if info.three > b.three then true
        else if info.three == b.three then info.two > b.two
        else info.Category() > b.Category()
      else if info.Category() == b.Category() == 7 then
        if info.four + info.kicker > b.four + b.kicker then true
        else info.Category() > b.Category()
      else info.Category() > b.Category()
  }

  /**
   * The order `compare_rank_info` applies, as a list compared lexicographically: the category,
   * then for a flush whether it holds a straight of four, for a full house the triple and the
   * pair, for a four of a kind the sum of its two ranks.
   */
  function Key(info: HandInfo): (r: seq<int>)
    ensures |r| > 0 && r[0] == info.Category()
  {
    match info
    case PlainFlush(ranks) => [5, if Straight(ranks, 4) then 1 else 0]
    case FullHouse(three, two) => [6, three, two]
    case FourOfAKind(four, kicker) => [7, four + kicker]
    case _ => [info.Category()]
  }

  /** `info` beats `best` exactly when its key is lexicographically larger. */
  lemma CompareByKey(info: HandInfo, best: HandInfo)
    ensures CompareRankInfo(info, Some(best)) <==> LexLess(Key(best), Key(info))
  {
    var ki, kb := Key(info), Key(best);
    if info.Category() == best.Category() {
      if info.PlainFlush? || info.FourOfAKind? {
        LexPairs(kb, ki);
      } else if info.FullHouse? {
        LexTriples(kb, ki);
      } else {
        assert ki == kb;
        LexIrreflexive(ki);
      }
    }
  }

  lemma LexPairs(a: seq<int>, b: seq<int>)
    requires |a| == |b| == 2 && a[0] == b[0]
    ensures LexLess(a, b) <==> a[1] < b[1]
  {
    assert LexLess(a, b) == LexLess(a[1..], b[1..]);
    assert a[1..][1..] == [] && b[1..][1..] == [];
    assert LexLess(a[1..], b[1..]) == if a[1] != b[1] then a[1] < b[1] else LexLess(a[1..][1..], b[1..][1..]);
  }

  lemma LexTriples(a: seq<int>, b: seq<int>)
    requires |a| == |b| == 3 && a[0] == b[0]
    ensures LexLess(a, b) <==> a[1] < b[1] || (a[1] == b[1] && a[2] < b[2])
  {
    assert LexLess(a, b) == LexLess(a[1..], b[1..]);
    if a[1] == b[1] {
      LexPairs(a[1..], b[1..]);
    }
  }

  /** No hand value beats itself. */
  lemma CompareIrreflexive(info: HandInfo)
    ensures !CompareRankInfo(info, Some(info))
  {
    CompareByKey(info, info);
    LexIrreflexive(Key(info));
  }

  /** If `a` beats `b` then `b` does not beat `a`. */
  lemma CompareAsymmetric(a: HandInfo, b: HandInfo)
    requires CompareRankInfo(a, Some(b))
    ensures !CompareRankInfo(b, Some(a))
  {
    CompareByKey(a, b);
    CompareByKey(b, a);
    if CompareRankInfo(b, Some(a)) {
      LexTransitive(Key(a), Key(b), Key(a));
      LexIrreflexive(Key(a));
    }
  }

  /** Beating is transitive. */
  lemma CompareTransitive(a: HandInfo, b: HandInfo, c: HandInfo)
    requires CompareRankInfo(a, Some(b)) && CompareRankInfo(b, Some(c))
    ensures CompareRankInfo(a, Some(c))
  {
    CompareByKey(a, b);
    CompareByKey(b, c);
    CompareByKey(a, c);
    LexTransitive(Key(c), Key(b), Key(a));
  }

  /**
   * If `c` does not beat `b` and `a` beats `b`, then `c` does not beat `a`: values that do not
   * beat each other are tied, so the running best of a scan is never beaten by what it saw.
   */
  lemma CompareNotBeatenStep(a: HandInfo, b: HandInfo, c: HandInfo)
    requires !CompareRankInfo(c, Some(b)) && CompareRankInfo(a, Some(b))
    ensures !CompareRankInfo(c, Some(a))
  {
    CompareByKey(c, b);
    CompareByKey(a, b);
    CompareByKey(c, a);
    if LexLess(Key(a), Key(c)) {
      LexTransitive(Key(b), Key(a), Key(c));
    }
  }

  /**
   * Two flushes built by `hand_rank` never beat each other: their ranks are sorted from high to
   * low, so `straight(ranks, 4)` is false for both.
   */
  lemma FlushesTie(a: Hand, b: Hand)
    requires Rankable(a) && Rankable(b)
    requires HandRank(a).PlainFlush? && HandRank(b).PlainFlush?
    ensures !CompareRankInfo(HandRank(a), Some(HandRank(b)))
  {
    CardRanksSorted(a);
    CardRanksSorted(b);
    ClassifyFlushesTie(CardRanks(a), Flush(a), CardRanks(b), Flush(b));
  }

  lemma ClassifyFlushesTie(ra: seq<int>, fa: bool, rb: seq<int>, fb: bool)
    requires SortedRanks(ra) && SortedRanks(rb)
    requires Classify(ra, fa).PlainFlush? && Classify(rb, fb).PlainFlush?
    ensures !CompareRankInfo(Classify(ra, fa), Some(Classify(rb, fb)))
  {
    ClassifyFlushRanks(ra, fa);
    StraightFalseOnDescending(ra, 4);
  }

  lemma ClassifyFlushRanks(ranks: seq<int>, isFlush: bool)
    requires SortedRanks(ranks) && Classify(ranks, isFlush).PlainFlush?
    ensures Classify(ranks, isFlush).ranks == ranks
  {
  }
}
