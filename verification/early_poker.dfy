/**
 * The earlier hand evaluator of hw-01/poker.py: `rank2num`, `card_ranks`, `flush`, `straight`,
 * `kind`, `two_pair`, `hand_rank` and `best_hand`.
 *
 * Unlike the later evaluator, this one sorts ranks upwards, answers `None` from `kind` when no
 * rank has the asked-for count, and recognises two pairs only for the counts one, two, two.
 * Python's tuples `(category, ...)` become the datatype `HandValue`; `Key` flattens one into
 * the list of numbers Python compares element by element.
 */
module EarlyPoker {
  import opened Wrappers
  import opened Seqs

  /**
   * The one-character keys of `rank2num`, in the order of their values: `RankChars[i]` stands
   * for `i + 1`. The table's key "10" is never looked up, because only a card's first character
   * is.
   */
  const RankChars: string := "123456789TJQKA"

  type Card = string
  type Hand = seq<Card>

  /** A card the evaluator can rank: a key of `rank2num` followed by a suit. */
  predicate ValidCard(c: Card)
  {
    |c| >= 2 && c[0] in RankChars
  }

  predicate AllValid(hand: Hand)
  {
    forall c :: c in hand ==> ValidCard(c)
  }

  /** `rank2num[ch]`: the position of `ch` among the rank characters, counted from one. */
  function RankNum(ch: char): (r: int)
    requires ch in RankChars
    ensures 1 <= r <= 14 && RankChars[r - 1] == ch
  {
    if ch in "TJQKA" then
      (if ch == 'T' then 10 else if ch == 'J' then 11 else if ch == 'Q' then 12
       else if ch == 'K' then 13 else 14)
    else
      ch as int - '0' as int
  }

  /** The rank of a card: `rank2num` of its first character. */
  function Rank(c: Card): (r: int)
    requires ValidCard(c)
    ensures 1 <= r <= 14
  {
    RankNum(c[0])
  }

  /** The suit of a card: its second character. */
  function Suit(c: Card): char
    requires ValidCard(c)
  {
    c[1]
  }

  /** `card_ranks(hand)`: the ranks from the lowest to the highest. */
  function CardRanks(hand: Hand): (r: seq<int>)
    requires AllValid(hand)
    ensures Ascending(r)
    ensures multiset(r) == multiset(Map(hand, Rank))
    ensures |r| == |hand|
    ensures forall x :: x in r ==> 1 <= x <= 14
  {
    var r := SortAscending(Map(hand, Rank));
    assert |r| == |multiset(r)| == |multiset(Map(hand, Rank))| == |hand|;
    assert forall x :: x in r ==> 1 <= x <= 14 by {
      forall x | x in r ensures 1 <= x <= 14 {
        assert x in multiset(Map(hand, Rank));
      }
    }
    r
  }

  /** `sorted` has one answer: any ascending arrangement of the hand's ranks is `card_ranks`. */
  lemma CardRanksUnique(hand: Hand, s: seq<int>)
    requires AllValid(hand)
    requires Ascending(s) && multiset(s) == multiset(Map(hand, Rank))
    ensures s == CardRanks(hand)
  {
    AscendingUnique(s, CardRanks(hand));
  }

  /**
   * `flush(hand)`: every card after the first has the first card's suit, that is, all cards
   * share one suit; a hand of at most one card is a flush.
   */
  function Flush(hand: Hand): (r: bool)
    requires AllValid(hand)
    ensures r <==> forall i, j :: 0 <= i < j < |hand| ==> Suit(hand[i]) == Suit(hand[j])
    ensures |hand| <= 1 ==> r
  {
    forall i :: 1 <= i < |hand| ==> Suit(hand[i]) == Suit(hand[0])
  }

  /** `straight(ranks)`: each rank is one less than the next. */
  predicate Straight(ranks: seq<int>)
  {
    forall i :: 0 <= i < |ranks| - 1 ==> ranks[i] == ranks[i + 1] - 1
  }

  /** A straight counts upwards from its first rank, one at a time; at most one rank is a straight. */
  lemma StraightIsRun(ranks: seq<int>)
    ensures Straight(ranks) <==> forall i :: 0 <= i < |ranks| ==> ranks[i] == ranks[0] + i
    ensures |ranks| <= 1 ==> Straight(ranks)
  {
    if Straight(ranks) {
      forall i | 0 <= i < |ranks| ensures ranks[i] == ranks[0] + i {
        StraightAt(ranks, i);
      }
    }
  }

  lemma {:induction false} StraightAt(ranks: seq<int>, i: nat)
    requires Straight(ranks) && i < |ranks|
    ensures ranks[i] == ranks[0] + i
  {
    if i > 0 {
      StraightAt(ranks, i - 1);
      assert ranks[i - 1] == ranks[i] - 1;
    }
  }

  /** The first of `keys` whose count in `ranks` is `n`. */
  function FirstWithCount(keys: seq<int>, ranks: seq<int>, n: nat): (r: Option<int>)
    ensures r.None? <==> forall k :: k in keys ==> Count(ranks, k) != n
    ensures r.Some? ==> r.value in keys && Count(ranks, r.value) == n
  {
    if keys == [] then None
    else if Count(ranks, keys[0]) == n then Some(keys[0])
    else
      assert keys == [keys[0]] + keys[1..];
      FirstWithCount(keys[1..], ranks, n)
  }

  /**
   * `kind(n, ranks)`: a rank occurring exactly `n` times, `None` when there is none; the rank
   * is found through the value order of `Counter(ranks)`, whose keys come in order of first
   * occurrence.
   */
  function Kind(n: nat, ranks: seq<int>): (r: Option<int>)
    ensures n >= 1 ==> (r.None? <==> forall k :: Count(ranks, k) != n)
    ensures r.Some? ==> Count(ranks, r.value) == n
  {
    var r := FirstWithCount(Distinct(ranks), ranks, n);
    assert n >= 1 && r.None? ==> forall k :: Count(ranks, k) != n by {
      if n >= 1 && r.None? {
        forall k ensures Count(ranks, k) != n {
          if k in ranks {
            assert k in Distinct(ranks);
          } else {
            assert k !in multiset(ranks);
          }
        }
      }
    }
    r
  }

  /** The answer of `kind` is the first key of `Counter(ranks)` with count `n`. */
  lemma KindIsFirstKey(n: nat, ranks: seq<int>)
    ensures Kind(n, ranks).Some? ==>
      exists i :: 0 <= i < |Distinct(ranks)| && Distinct(ranks)[i] == Kind(n, ranks).value
        && forall j :: 0 <= j < i ==> Count(ranks, Distinct(ranks)[j]) != n
  {
    FirstWithCountIsFirst(Distinct(ranks), ranks, n);
  }

  lemma {:induction false} FirstWithCountIsFirst(keys: seq<int>, ranks: seq<int>, n: nat)
    ensures FirstWithCount(keys, ranks, n).Some? ==>
      exists i :: 0 <= i < |keys| && keys[i] == FirstWithCount(keys, ranks, n).value
        && forall j :: 0 <= j < i ==> Count(ranks, keys[j]) != n
    decreases |keys|
  {
    if keys != [] && Count(ranks, keys[0]) != n {
      var r := FirstWithCount(keys[1..], ranks, n);
      FirstWithCountIsFirst(keys[1..], ranks, n);
      if r.Some? {
        var i :| 0 <= i < |keys[1..]| && keys[1..][i] == r.value
          && forall j :: 0 <= j < i ==> Count(ranks, keys[1..][j]) != n;
        assert keys[i + 1] == r.value;
        assert forall j :: 0 <= j < i + 1 ==> Count(ranks, keys[j]) != n by {
          forall j | 0 <= j < i + 1 ensures Count(ranks, keys[j]) != n {
            if j > 0 {
              assert keys[j] == keys[1..][j - 1];
            }
          }
        }
      }
    }
  }

  predicate StrictlyAscending(s: seq<int>)
  {
    forall i, j :: 0 <= i < j < |s| ==> s[i] < s[j]
  }

  /** On ascending ranks the keys of `Counter(ranks)` are strictly ascending. */
  lemma {:induction false} DistinctAscending(s: seq<int>)
    requires Ascending(s)
    ensures StrictlyAscending(Distinct(s))
    decreases |s|
  {
    if s != [] {
      var p := s[..|s| - 1];
      var x := s[|s| - 1];
      assert Ascending(p);
      DistinctAscending(p);
      var d := Distinct(p);
      assert s[..|s| - 1] == p;
      if x !in d {
        assert Distinct(s) == d + [x];
        forall i | 0 <= i < |d| ensures d[i] < x {
          assert d[i] in p;
        }
      }
    }
  }

  /** On ascending ranks `kind(n, ranks)` is the smallest rank occurring exactly `n` times. */
  lemma KindSmallest(n: nat, ranks: seq<int>)
    requires Ascending(ranks)
    ensures Kind(n, ranks).Some? ==> forall k :: Count(ranks, k) == n ==> Kind(n, ranks).value <= k
  {
    DistinctAscending(ranks);
    KindIsFirstKey(n, ranks);
    var d := Distinct(ranks);
    if Kind(n, ranks).Some? {
      var i :| 0 <= i < |d| && d[i] == Kind(n, ranks).value
        && forall j :: 0 <= j < i ==> Count(ranks, d[j]) != n;
      forall k | Count(ranks, k) == n ensures Kind(n, ranks).value <= k {
        assert k in multiset(ranks);
        assert k in d;
        var j :| 0 <= j < |d| && d[j] == k;
        assert !(j < i);
      }
    }
  }

  /** The counts of `keys` in `ranks`, in the order of `keys`: `cnt.values()`. */
  function CountsOf(keys: seq<int>, ranks: seq<int>): (r: seq<int>)
    ensures |r| == |keys|
    ensures forall i :: 0 <= i < |keys| ==> r[i] == Count(ranks, keys[i])
  {
    seq(|keys|, i requires 0 <= i < |keys| => Count(ranks, keys[i]))
  }

  /** The keys whose count in `ranks` is `n`, in the order of `keys`. */
  function WithCount(keys: seq<int>, ranks: seq<int>, n: nat): (r: seq<int>)
    ensures |r| <= |keys|
    ensures forall x :: x in r <==> x in keys && Count(ranks, x) == n
    decreases |keys|
  {
    if keys == [] then []
    else
      var last := keys[|keys| - 1];
      assert keys == keys[..|keys| - 1] + [last];
      WithCount(keys[..|keys| - 1], ranks, n) + (if Count(ranks, last) == n then [last] else [])
  }

  /** As many keys have count `n` as the list of counts holds the value `n`. */
  lemma {:induction false} WithCountSize(keys: seq<int>, ranks: seq<int>, n: nat)
    ensures |WithCount(keys, ranks, n)| == multiset(CountsOf(keys, ranks))[n]
    decreases |keys|
  {
    if keys != [] {
      var p := keys[..|keys| - 1];
      var last := keys[|keys| - 1];
      WithCountSize(p, ranks, n);
      CountsOfAppend(keys, ranks);
      assert multiset(CountsOf(keys, ranks)) == multiset(CountsOf(p, ranks)) + multiset{Count(ranks, last)};
    }
  }

  lemma CountsOfAppend(keys: seq<int>, ranks: seq<int>)
    requires keys != []
    ensures CountsOf(keys, ranks) == CountsOf(keys[..|keys| - 1], ranks) + [Count(ranks, keys[|keys| - 1])]
  {
  }

  /** A key list in increasing order keeps its selected keys in increasing order. */
  lemma {:induction false} WithCountAscending(keys: seq<int>, ranks: seq<int>, n: nat)
    requires StrictlyAscending(keys)
    ensures StrictlyAscending(WithCount(keys, ranks, n))
    decreases |keys|
  {
    if keys != [] {
      var p := keys[..|keys| - 1];
      var last := keys[|keys| - 1];
      WithCountAscending(p, ranks, n);
      var w := WithCount(p, ranks, n);
      assert keys[..|keys| - 1] == p;
      if Count(ranks, last) == n {
        assert WithCount(keys, ranks, n) == w + [last];
        forall i | 0 <= i < |w| ensures w[i] < last {
          assert w[i] in p;
        }
      }
    }
  }

  /** A list of counts sorts to `[1, 2, 2]` exactly when it holds one 1 and two 2s. */
  lemma SortsToOneTwoTwo(c: seq<int>)
    ensures SortAscending(c) == [1, 2, 2] <==> multiset(c) == multiset{1, 2, 2}
  {
    assert multiset([1, 2, 2]) == multiset{1, 2, 2};
    if multiset(c) == multiset{1, 2, 2} {
      AscendingUnique(SortAscending(c), [1, 2, 2]);
    }
  }

  /** The counts are one, two, two as soon as they sort to `[1, 2, 2]`, and then two keys are pairs. */
  lemma TwoPairCounts(ranks: seq<int>)
    ensures SortAscending(CountsOf(Distinct(ranks), ranks)) == [1, 2, 2] <==>
      multiset(CountsOf(Distinct(ranks), ranks)) == multiset{1, 2, 2}
    ensures SortAscending(CountsOf(Distinct(ranks), ranks)) == [1, 2, 2] ==>
      |WithCount(Distinct(ranks), ranks, 2)| == 2
  {
    var c := CountsOf(Distinct(ranks), ranks);
    SortsToOneTwoTwo(c);
    WithCountSize(Distinct(ranks), ranks, 2);
  }

  /** The ranks occurring exactly twice, in the key order of `Counter(ranks)`. */
  function PairsOf(ranks: seq<int>): seq<int>
  {
    WithCount(Distinct(ranks), ranks, 2)
  }

  /**
   * `two_pair(ranks)`: when the counts sort to `[1, 2, 2]`, the two paired ranks; otherwise
   * `None`. The stable sort of the `Counter` items by falling count puts the two paired keys
   * first, in their key order.
   */
  function TwoPair(ranks: seq<int>): Option<(int, int)>
  {
    if SortAscending(CountsOf(Distinct(ranks), ranks)) != [1, 2, 2] then None
    else
      TwoPairCounts(ranks);
      Some((PairsOf(ranks)[0], PairsOf(ranks)[1]))
  }

  /** Two paired ranks are two different ranks, the only ones occurring twice, lower first on ascending ranks. */
  lemma PairsFacts(ranks: seq<int>)
    requires |PairsOf(ranks)| == 2
    ensures var a, b := PairsOf(ranks)[0], PairsOf(ranks)[1];
      && a != b && Count(ranks, a) == 2 && Count(ranks, b) == 2
      && (forall k :: Count(ranks, k) == 2 ==> k == a || k == b)
      && (Ascending(ranks) ==> a < b)
  {
    var keys := Distinct(ranks);
    var pairs := PairsOf(ranks);
    assert pairs[0] in pairs && pairs[1] in pairs;
    WithCountNoDup(keys, ranks, 2);
    forall k | Count(ranks, k) == 2 ensures k == pairs[0] || k == pairs[1] {
      assert k in multiset(ranks);
      assert k in keys;
      assert k in pairs;
    }
    if Ascending(ranks) {
      DistinctAscending(ranks);
      WithCountAscending(keys, ranks, 2);
    }
  }

  /**
   * `two_pair` answers exactly when the hand holds two pairs and a single card, and then names
   * the two paired ranks, which on ascending ranks come lower first.
   */
  lemma TwoPairMeaning(ranks: seq<int>)
    ensures TwoPair(ranks).Some? <==> multiset(CountsOf(Distinct(ranks), ranks)) == multiset{1, 2, 2}
    ensures TwoPair(ranks).Some? ==>
      var (a, b) := TwoPair(ranks).value;
      && a != b && Count(ranks, a) == 2 && Count(ranks, b) == 2
      && (forall k :: Count(ranks, k) == 2 ==> k == a || k == b)
      && (Ascending(ranks) ==> a < b)
  {
    TwoPairCounts(ranks);
    if TwoPair(ranks).Some? {
      PairsFacts(ranks);
    }
  }

  lemma {:induction false} WithCountNoDup(keys: seq<int>, ranks: seq<int>, n: nat)
    requires NoDup(keys)
    ensures NoDup(WithCount(keys, ranks, n))
    decreases |keys|
  {
    if keys != [] {
      var p := keys[..|keys| - 1];
      var last := keys[|keys| - 1];
      assert NoDup(p);
      WithCountNoDup(p, ranks, n);
      assert last !in p;
    }
  }

  /**
   * The value `hand_rank` returns: the category first, then the category's payload
   * (the tuples `(8, max)`, `(7, four, kicker)`, ..., `(0, ranks)`).
   */
  datatype HandValue =
    | HighCard(ranks: seq<int>)
    | OnePair(pair: int, ranks: seq<int>)
    | TwoPairs(first: int, second: int, ranks: seq<int>)
    | ThreeOfAKind(three: int, ranks: seq<int>)
    | PlainStraight(high: int)
    | PlainFlush(ranks: seq<int>)
    | FullHouse(three: int, two: int)
    | FourOfAKind(four: int, kicker: Option<int>)
    | StraightFlush(high: int)
  {
    function Category(): int
    {
      match this
      case HighCard(_) => 0
      case OnePair(_, _) => 1
      case TwoPairs(_, _, _) => 2
      case ThreeOfAKind(_, _) => 3
      case PlainStraight(_) => 4
      case PlainFlush(_) => 5
      case FullHouse(_, _) => 6
      case FourOfAKind(_, _) => 7
      case StraightFlush(_) => 8
    }
  }

  /** Ranks as `card_ranks` makes them: every one is at least one, so every rank is truthy. */
  predicate PositiveRanks(ranks: seq<int>)
  {
    |ranks| >= 1 && forall x :: x in ranks ==> x >= 1
  }

  /**
   * The branches of `hand_rank` on the sorted ranks and the answer of `flush`. A found rank is
   * never 0, so a `kind` or `two_pair` answer is truthy exactly when it is not `None`.
   */
  function Classify(ranks: seq<int>, isFlush: bool): HandValue
    requires PositiveRanks(ranks)
  {
    if Straight(ranks) && isFlush then StraightFlush(Max(ranks))
    else if Kind(4, ranks).Some? then FourOfAKind(Kind(4, ranks).value, Kind(1, ranks))
    else if Kind(3, ranks).Some? && Kind(2, ranks).Some? then FullHouse(Kind(3, ranks).value, Kind(2, ranks).value)
    else if isFlush then PlainFlush(ranks)
    else if Straight(ranks) then PlainStraight(Max(ranks))
    else if Kind(3, ranks).Some? then ThreeOfAKind(Kind(3, ranks).value, ranks)
    else if TwoPair(ranks).Some? then TwoPairs(TwoPair(ranks).value.0, TwoPair(ranks).value.1, ranks)
    else if Kind(2, ranks).Some? then OnePair(Kind(2, ranks).value, ranks)
    else HighCard(ranks)
  }

  predicate Rankable(hand: Hand)
  {
    |hand| >= 1 && AllValid(hand)
  }

  /** `hand_rank(hand)`. */
  function HandRank(hand: Hand): HandValue
    requires Rankable(hand)
  {
    Classify(CardRanks(hand), Flush(hand))
  }

  /** What makes a hand of category `c`, each category judged on its own. */
  ghost predicate Holds(c: int, ranks: seq<int>, isFlush: bool)
  {
    if c == 8 then Straight(ranks) && isFlush
    else if c == 7 then HasCount(ranks, 4)
    else if c == 6 then HasCount(ranks, 3) && HasCount(ranks, 2)
    else if c == 5 then isFlush
    else if c == 4 then Straight(ranks)
    else if c == 3 then HasCount(ranks, 3)
    else if c == 2 then multiset(CountsOf(Distinct(ranks), ranks)) == multiset{1, 2, 2}
    else if c == 1 then HasCount(ranks, 2)
    else c == 0
  }

  /** The branch `hand_rank` takes is the highest category whose description fits. */
  lemma ClassifyIsHighest(ranks: seq<int>, isFlush: bool)
    requires PositiveRanks(ranks)
    ensures var c := Classify(ranks, isFlush).Category();
      && 0 <= c <= 8
      && Holds(c, ranks, isFlush)
      && forall d :: c < d <= 8 ==> !Holds(d, ranks, isFlush)
  {
    TwoPairMeaning(ranks);
    HasCountKind(ranks, 4);
    HasCountKind(ranks, 3);
    HasCountKind(ranks, 2);
  }

  lemma HasCountKind(ranks: seq<int>, n: nat)
    requires n >= 1
    ensures HasCount(ranks, n) <==> Kind(n, ranks).Some?
  {
    if Kind(n, ranks).Some? {
      assert Count(ranks, Kind(n, ranks).value) == n;
    }
  }

  /**
   * The payload of each branch: the ranks that make the category and the top of a straight.
   */
  lemma ClassifyPayload(ranks: seq<int>, isFlush: bool)
    requires PositiveRanks(ranks) && Ascending(ranks)
    ensures var v := Classify(ranks, isFlush);
      && (v.StraightFlush? || v.PlainStraight? ==> v.high == ranks[0] + |ranks| - 1)
      && (v.FourOfAKind? ==> Count(ranks, v.four) == 4 && (v.kicker.Some? ==> Count(ranks, v.kicker.value) == 1))
      && (v.FullHouse? ==> Count(ranks, v.three) == 3 && Count(ranks, v.two) == 2)
      && (v.ThreeOfAKind? ==> Count(ranks, v.three) == 3)
      && (v.TwoPairs? ==> Count(ranks, v.first) == 2 && Count(ranks, v.second) == 2 && v.first < v.second)
      && (v.OnePair? ==> Count(ranks, v.pair) == 2)
  {
    ClassifyStraightHigh(ranks, isFlush);
    ClassifyKindCounts(ranks, isFlush);
    ClassifyTwoPairs(ranks, isFlush);
  }

  lemma ClassifyStraightHigh(ranks: seq<int>, isFlush: bool)
    requires PositiveRanks(ranks) && Ascending(ranks)
    ensures var v := Classify(ranks, isFlush);
      v.StraightFlush? || v.PlainStraight? ==> v.high == ranks[0] + |ranks| - 1
  {
    if Straight(ranks) {
      StraightTop(ranks);
    }
  }

  lemma ClassifyKindCounts(ranks: seq<int>, isFlush: bool)
    requires PositiveRanks(ranks)
    ensures var v := Classify(ranks, isFlush);
      && (v.FourOfAKind? ==> Count(ranks, v.four) == 4 && (v.kicker.Some? ==> Count(ranks, v.kicker.value) == 1))
      && (v.FullHouse? ==> Count(ranks, v.three) == 3 && Count(ranks, v.two) == 2)
      && (v.ThreeOfAKind? ==> Count(ranks, v.three) == 3)
      && (v.OnePair? ==> Count(ranks, v.pair) == 2)
  {
  }

  lemma ClassifyTwoPairs(ranks: seq<int>, isFlush: bool)
    requires PositiveRanks(ranks) && Ascending(ranks)
    ensures var v := Classify(ranks, isFlush);
      v.TwoPairs? ==> Count(ranks, v.first) == 2 && Count(ranks, v.second) == 2 && v.first < v.second
  {
    var v := Classify(ranks, isFlush);
    if v.TwoPairs? {
      ClassifyTwoPairsFrom(ranks, isFlush);
      TwoPairOrdered(ranks);
    }
  }

  lemma ClassifyTwoPairsFrom(ranks: seq<int>, isFlush: bool)
    requires PositiveRanks(ranks)
    ensures var v := Classify(ranks, isFlush);
      v.TwoPairs? ==> TwoPair(ranks).Some? && v.first == TwoPair(ranks).value.0 && v.second == TwoPair(ranks).value.1
  {
    var v := Classify(ranks, isFlush);
    if Straight(ranks) && isFlush {
      assert v.StraightFlush?;
    } else if Kind(4, ranks).Some? {
      assert v.FourOfAKind?;
    } else if Kind(3, ranks).Some? && Kind(2, ranks).Some? {
      assert v.FullHouse?;
    } else if isFlush {
      assert v.PlainFlush?;
    } else if Straight(ranks) {
      assert v.PlainStraight?;
    } else if Kind(3, ranks).Some? {
      assert v.ThreeOfAKind?;
    }
  }

  lemma TwoPairOrdered(ranks: seq<int>)
    requires Ascending(ranks) && TwoPair(ranks).Some?
    ensures var (a, b) := TwoPair(ranks).value;
      Count(ranks, a) == 2 && Count(ranks, b) == 2 && a < b
  {
    TwoPairMeaning(ranks);
  }

  /** Every branch that carries the ranks carries them as `card_ranks` sorted them. */
  lemma ClassifyCarriesRanks(ranks: seq<int>, isFlush: bool)
    requires PositiveRanks(ranks)
    ensures var v := Classify(ranks, isFlush);
      v.HighCard? || v.OnePair? || v.TwoPairs? || v.ThreeOfAKind? || v.PlainFlush? ==> v.ranks == ranks
  {
  }

  /** The highest rank of a straight in ascending order lies `|ranks| - 1` above its lowest. */
  lemma StraightTop(ranks: seq<int>)
    requires |ranks| >= 1 && Ascending(ranks) && Straight(ranks)
    ensures Max(ranks) == ranks[0] + |ranks| - 1
  {
    StraightIsRun(ranks);
    var top := |ranks| - 1;
    assert ranks[top] == ranks[0] + top;
    var i :| 0 <= i < |ranks| && ranks[i] == Max(ranks);
    assert ranks[i] <= ranks[top];
  }

  /** In a five-card hand four of a kind leaves one single card, so the kicker is found. */
  lemma {:induction false} FiveCardsKicker(ranks: seq<int>)
    requires |ranks| == 5
    ensures Kind(4, ranks).Some? ==> Kind(1, ranks).Some?
  {
    if Kind(4, ranks).Some? {
      var k := Kind(4, ranks).value;
      OtherElement(ranks, k);
      var i :| 0 <= i < 5 && ranks[i] != k;
      var x := ranks[i];
      assert x in multiset(ranks);
      CountPairBound(ranks, k, x);
      assert Count(ranks, x) == 1;
    }
  }

  lemma {:induction false} OtherElement(s: seq<int>, k: int)
    requires Count(s, k) < |s|
    ensures exists i :: 0 <= i < |s| && s[i] != k
    decreases |s|
  {
    var p := s[..|s| - 1];
    assert s == p + [s[|s| - 1]];
    if s[|s| - 1] == k {
      OtherElement(p, k);
      var i :| 0 <= i < |p| && p[i] != k;
      assert s[i] == p[i];
    }
  }

  lemma {:induction false} CountPairBound(s: seq<int>, a: int, b: int)
    requires a != b
    ensures Count(s, a) + Count(s, b) <= |s|
    decreases |s|
  {
    if s != [] {
      var p := s[..|s| - 1];
      assert s == p + [s[|s| - 1]];
      CountPairBound(p, a, b);
    }
  }

  /** `hand_rank` answers with the highest category that fits its sorted ranks and `flush`. */
  lemma HandRankIsHighest(hand: Hand)
    requires Rankable(hand)
    ensures var c := HandRank(hand).Category();
      && 0 <= c <= 8
      && Holds(c, CardRanks(hand), Flush(hand))
      && forall d :: c < d <= 8 ==> !Holds(d, CardRanks(hand), Flush(hand))
  {
    ClassifyIsHighest(CardRanks(hand), Flush(hand));
  }

  /** The tuples Python compares; a missing kicker is the one payload that cannot be compared. */
  predicate Comparable(v: HandValue)
  {
    v.FourOfAKind? ==> v.kicker.Some?
  }

  /** Every five-card hand has a comparable value. */
  lemma FiveCardsComparable(hand: Hand)
    requires Rankable(hand) && |hand| == 5
    ensures Comparable(HandRank(hand))
  {
    var ranks := CardRanks(hand);
    assert HandRank(hand) == Classify(ranks, Flush(hand));
    ClassifyComparable(ranks, Flush(hand));
  }

  lemma ClassifyComparable(ranks: seq<int>, isFlush: bool)
    requires PositiveRanks(ranks) && |ranks| == 5
    ensures Comparable(Classify(ranks, isFlush))
  {
    FiveCardsKicker(ranks);
  }

  /**
   * The tuple `hand_rank` returns, flattened into one list of numbers. Every payload part has a
   * fixed length within its category (a pair of ranks for two pairs), so comparing keys by
   * `LexLess` is Python's comparison of the tuples.
   */
  function Key(v: HandValue): (r: seq<int>)
    requires Comparable(v)
    ensures |r| >= 2 || (|r| >= 1 && (v.HighCard? || v.PlainFlush?))
    ensures r[0] == v.Category()
  {
    match v
    case HighCard(ranks) => [0] + ranks
    case OnePair(pair, ranks) => [1, pair] + ranks
    case TwoPairs(a, b, ranks) => [2, a, b] + ranks
    case ThreeOfAKind(three, ranks) => [3, three] + ranks
    case PlainStraight(high) => [4, high]
    case PlainFlush(ranks) => [5] + ranks
    case FullHouse(three, two) => [6, three, two]
    case FourOfAKind(four, kicker) => [7, four, kicker.value]
    case StraightFlush(high) => [8, high]
  }

  /** A higher category always wins the comparison. */
  lemma CategoryDecides(a: HandValue, b: HandValue)
    requires Comparable(a) && Comparable(b)
    requires a.Category() < b.Category()
    ensures LexLess(Key(a), Key(b))
  {
    assert Key(a)[0] < Key(b)[0];
  }

  /** Where `max` settles: it keeps the first key and moves only to a strictly larger one. */
  function MaxIndex(keys: seq<seq<int>>): (r: nat)
    requires |keys| >= 1
    ensures r < |keys|
    decreases |keys|
  {
    if |keys| == 1 then 0
    else
      var m := MaxIndex(keys[..|keys| - 1]);
      if LexLess(keys[m], keys[|keys| - 1]) then |keys| - 1 else m
  }

  /** `max` finds the first of the largest keys: no key beats it and every earlier one is smaller. */
  lemma {:induction false} MaxIndexIsFirstMaximal(keys: seq<seq<int>>)
    requires |keys| >= 1
    ensures forall j :: 0 <= j < |keys| ==> !LexLess(keys[MaxIndex(keys)], keys[j])
    ensures forall j :: 0 <= j < MaxIndex(keys) ==> LexLess(keys[j], keys[MaxIndex(keys)])
    decreases |keys|
  {
    var n := |keys|;
    if n == 1 {
      LexIrreflexive(keys[0]);
    } else {
      var p := keys[..n - 1];
      var m := MaxIndex(p);
      var last := keys[n - 1];
      MaxIndexIsFirstMaximal(p);
      assert forall j :: 0 <= j < n - 1 ==> p[j] == keys[j];
      if LexLess(keys[m], last) {
        forall j | 0 <= j < n ensures !LexLess(last, keys[j]) {
          if j == n - 1 {
            LexIrreflexive(last);
          } else if LexLess(last, keys[j]) {
            LexTransitive(keys[m], last, keys[j]);
          }
        }
        forall j | 0 <= j < n - 1 ensures LexLess(keys[j], last) {
          if j < m {
            LexTransitive(keys[j], keys[m], last);
          } else if j > m && keys[j] != keys[m] {
            LexTotal(keys[j], keys[m]);
            LexTransitive(keys[j], keys[m], last);
          }
        }
      } else {
        forall j | 0 <= j < n ensures !LexLess(keys[m], keys[j]) {
          if j < n - 1 {
            assert !LexLess(p[m], p[j]);
          }
        }
        forall j | 0 <= j < m ensures LexLess(keys[j], keys[m]) {
          assert LexLess(p[j], p[m]);
        }
      }
    }
  }

  /** The hands `best_hand` may compare: five valid cards each. */
  predicate FiveCardHands(cs: seq<Hand>)
  {
    forall c :: c in cs ==> |c| == 5 && AllValid(c)
  }

  /** The keys `max(combs, key=hand_rank)` compares, one per combination. */
  function Keys(cs: seq<Hand>): (r: seq<seq<int>>)
    requires FiveCardHands(cs)
    ensures |r| == |cs|
  {
    seq(|cs|, i requires 0 <= i < |cs| => FiveCardsComparable(cs[i]); Key(HandRank(cs[i])))
  }

  lemma CombinationsFiveCards(hand: Hand)
    requires AllValid(hand)
    ensures FiveCardHands(Combinations(hand, 5))
  {
    forall c | c in Combinations(hand, 5) ensures AllValid(c) {
      CombinationMembers(hand, 5, c);
    }
  }

  /** `best_hand(hand)`: the first five-card combination with the largest `hand_rank`. */
  function BestHand(hand: Hand): (r: Hand)
    requires AllValid(hand) && |hand| >= 5
    ensures |r| == 5 && AllValid(r) && IsSubsequence(r, hand)
  {
    var cs := Combinations(hand, 5);
    CombinationsFiveCards(hand);
    var r := cs[MaxIndex(Keys(cs))];
    assert r in cs;
    r
  }

  /**
   * What `best_hand` returns is a combination no other combination beats, and it comes before
   * every combination that ties with it.
   */
  lemma BestHandIsFirstBest(hand: Hand)
    requires AllValid(hand) && |hand| >= 5
    ensures var cs := Combinations(hand, 5);
      var r := BestHand(hand);
      FiveCardHands(cs)
      && (exists i :: 0 <= i < |cs| && cs[i] == r
            && (forall j :: 0 <= j < |cs| ==> !LexLess(Keys(cs)[i], Keys(cs)[j]))
            && (forall j :: 0 <= j < i ==> LexLess(Keys(cs)[j], Keys(cs)[i])))
  {
    var cs := Combinations(hand, 5);
    CombinationsFiveCards(hand);
    MaxIndexIsFirstMaximal(Keys(cs));
    var i := MaxIndex(Keys(cs));
    assert cs[i] == BestHand(hand);
  }

  /**
   * `max` over `combinations(hand, 5)` weighs every way of keeping five of the hand's cards in
   * order: none of them has a larger `hand_rank` than the answer.
   */
  lemma BestHandBeatsEveryChoice(hand: Hand, c: Hand)
    requires AllValid(hand) && |c| == 5 && IsSubsequence(c, hand)
    ensures AllValid(c) && |hand| >= 5
    ensures Comparable(HandRank(c)) && Comparable(HandRank(BestHand(hand)))
    ensures !LexLess(Key(HandRank(BestHand(hand))), Key(HandRank(c)))
  {
    var cs := Combinations(hand, 5);
    CombinationsComplete(hand, 5, c);
    var j :| 0 <= j < |cs| && cs[j] == c;
    BestHandOverKeys(hand, j);
    KeyAt(cs, j);
    KeyAt(cs, MaxIndex(Keys(cs)));
  }

  lemma KeyAt(cs: seq<Hand>, i: nat)
    requires FiveCardHands(cs) && i < |cs|
    ensures AllValid(cs[i]) && |cs[i]| == 5 && Comparable(HandRank(cs[i]))
    ensures Keys(cs)[i] == Key(HandRank(cs[i]))
  {
    FiveCardsComparable(cs[i]);
  }

  /** The key of the answer is not below the key of the `j`-th combination. */
  lemma BestHandOverKeys(hand: Hand, j: nat)
    requires AllValid(hand) && |hand| >= 5 && j < |Combinations(hand, 5)|
    ensures FiveCardHands(Combinations(hand, 5))
    ensures !LexLess(Keys(Combinations(hand, 5))[MaxIndex(Keys(Combinations(hand, 5)))], Keys(Combinations(hand, 5))[j])
    ensures BestHand(hand) == Combinations(hand, 5)[MaxIndex(Keys(Combinations(hand, 5)))]
  {
    CombinationsFiveCards(hand);
    MaxIndexIsFirstMaximal(Keys(Combinations(hand, 5)));
  }
}
