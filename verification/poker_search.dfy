/**
 * The search half of hw-02-poker/poker.py: `best_hand` scans every five-card combination of a
 * hand and keeps the one whose `hand_rank` value `compare_rank_info` prefers; `hand_options`
 * and `best_wild_hand` first replace each joker by every card it may stand for.
 */
module PokerSearch {
  import opened Wrappers
  import opened Seqs
  import opened Poker

  predicate AllRankable(cs: seq<Hand>)
  {
    forall h :: h in cs ==> Rankable(h)
  }

  /** `best_rank` as the scan keeps it: the value of the hand kept so far, if any. */
  function RankOf(b: Option<Hand>): Option<HandInfo>
    requires b.Some? ==> Rankable(b.value)
  {
    if b.None? then None else Some(HandRank(b.value))
  }

  /** `compare_rank_info(a, b)` with a value kept: `a` replaces the kept value `b`. */
  predicate Beats(a: HandInfo, b: HandInfo)
  {
    CompareRankInfo(a, Some(b))
  }

  /**
   * The scan of `best_hand` over the values `infos`, in order: where the kept value sits, if
   * any. The first value is always kept (`compare_rank_info` against no value is true); a
   * later one replaces the kept one when `beats` says so, `Beats` in `best_hand`.
   */
  function ScanBest(infos: seq<HandInfo>, beats: (HandInfo, HandInfo) -> bool): (k: Option<nat>)
    ensures k.None? <==> infos == []
    ensures k.Some? ==> k.value < |infos|
    decreases |infos|
  {
    if infos == [] then None
    else
      var b := ScanBest(infos[..|infos| - 1], beats);
      if b.None? || beats(infos[|infos| - 1], infos[b.value]) then Some(|infos| - 1) else b
  }

  /**
   * No value scanned beats the kept one, for any `beats` that no value satisfies against itself
   * and under which a value beating the kept one is beaten by nothing the kept one was not.
   */
  lemma {:induction false} ScanBestMaximal(infos: seq<HandInfo>, beats: (HandInfo, HandInfo) -> bool)
    requires infos != []
    requires forall a :: !beats(a, a)
    requires forall a, b, c :: beats(a, b) && !beats(c, b) ==> !beats(c, a)
    ensures forall i :: 0 <= i < |infos| ==> !beats(infos[i], infos[ScanBest(infos, beats).value])
    decreases |infos|
  {
    var prefix := infos[..|infos| - 1];
    var last := infos[|infos| - 1];
    if prefix != [] {
      ScanBestMaximal(prefix, beats);
      var b := ScanBest(prefix, beats).value;
      assert prefix[b] == infos[b];
      forall i | 0 <= i < |prefix| ensures prefix[i] == infos[i] && !beats(infos[i], infos[b]) {
        assert prefix[i] == infos[i];
      }
    }
  }

  /** `Beats` is a strict order in the sense `ScanBestMaximal` needs. */
  lemma BeatsIsStrict()
    ensures forall a :: !Beats(a, a)
    ensures forall a, b, c :: Beats(a, b) && !Beats(c, b) ==> !Beats(c, a)
  {
    forall a ensures !Beats(a, a) {
      CompareIrreflexive(a);
    }
    forall a, b, c | Beats(a, b) && !Beats(c, b) ensures !Beats(c, a) {
      CompareNotBeatenStep(a, b, c);
    }
  }

  /** No value beats the one the scan of `best_hand` keeps. */
  lemma NothingBeatsScanBest(infos: seq<HandInfo>)
    requires infos != []
    ensures forall i :: 0 <= i < |infos| ==> !Beats(infos[i], infos[ScanBest(infos, Beats).value])
  {
    BeatsIsStrict();
    ScanBestMaximal(infos, Beats);
  }

  /** `hand_rank` of every candidate. */
  function Values(cs: seq<Hand>): (r: seq<HandInfo>)
    requires AllRankable(cs)
    ensures |r| == |cs|
    ensures forall i :: 0 <= i < |cs| ==> r[i] == HandRank(cs[i])
  {
    seq(|cs|, i requires 0 <= i < |cs| => HandRank(cs[i]))
  }

  /** The hand the scan of `best_hand` ends with, over the candidates `cs` in order. */
  function BestOf(cs: seq<Hand>): (r: Option<Hand>)
    requires AllRankable(cs)
    ensures r.None? <==> cs == []
    ensures r.Some? ==> r.value in cs
  {
    var k := ScanBest(Values(cs), Beats);
    if k.None? then None else Some(cs[k.value])
  }

  /** One more value: it is kept exactly when it beats the value kept so far. */
  lemma ScanBestStep(infos: seq<HandInfo>, v: HandInfo, beats: (HandInfo, HandInfo) -> bool)
    ensures var b := ScanBest(infos, beats);
      ScanBest(infos + [v], beats) == if b.None? || beats(v, infos[b.value]) then Some(|infos|) else b
  {
    var s := infos + [v];
    assert s[..|s| - 1] == infos;
    assert s[|s| - 1] == v;
  }

  /** One more candidate: it is kept exactly when it beats the hand kept so far. */
  lemma BestOfStep(cs: seq<Hand>, c: Hand)
    requires AllRankable(cs) && Rankable(c)
    ensures AllRankable(cs + [c])
    ensures BestOf(cs + [c]) == if CompareRankInfo(HandRank(c), RankOf(BestOf(cs))) then Some(c) else BestOf(cs)
  {
    ValuesAppend(cs, c);
    ScanBestStep(Values(cs), HandRank(c), Beats);
  }

  lemma ValuesAppend(cs: seq<Hand>, c: Hand)
    requires AllRankable(cs) && Rankable(c)
    ensures AllRankable(cs + [c])
    ensures Values(cs + [c]) == Values(cs) + [HandRank(c)]
  {
    assert forall h :: h in cs + [c] ==> h in cs || h == c;
  }

  /** The scan over the first `i + 1` candidates, from the scan over the first `i`. */
  lemma BestOfPrefixStep(cs: seq<Hand>, i: nat)
    requires AllRankable(cs) && i < |cs|
    ensures AllRankable(cs[..i]) && AllRankable(cs[..i + 1])
    ensures BestOf(cs[..i + 1]) ==
      if CompareRankInfo(HandRank(cs[i]), RankOf(BestOf(cs[..i]))) then Some(cs[i]) else BestOf(cs[..i])
  {
    assert forall h :: h in cs[..i] ==> h in cs;
    assert cs[..i + 1] == cs[..i] + [cs[i]];
    BestOfStep(cs[..i], cs[i]);
  }

  /** No candidate beats the hand the scan keeps. */
  lemma BestOfMaximal(cs: seq<Hand>)
    requires AllRankable(cs) && cs != []
    ensures forall c :: c in cs ==> !CompareRankInfo(HandRank(c), Some(HandRank(BestOf(cs).value)))
  {
    var vs := Values(cs);
    NothingBeatsScanBest(vs);
    var k := ScanBest(vs, Beats).value;
    forall c | c in cs
      ensures !CompareRankInfo(HandRank(c), Some(HandRank(BestOf(cs).value)))
    {
      var i :| 0 <= i < |cs| && cs[i] == c;
      assert vs[i] == HandRank(c);
    }
  }

  lemma CombinationsRankable(hand: Hand)
    requires AllValid(hand)
    ensures AllRankable(Combinations(hand, 5))
  {
    forall h | h in Combinations(hand, 5) ensures Rankable(h) {
      CombinationMembers(hand, 5, h);
    }
  }

  /**
   * `best_hand(hand)`: the best five cards of the hand, none when it has fewer than five. The
   * scan returns the last candidate that beat the kept one, and no candidate beats it.
   */
  method BestHand(hand: Hand) returns (bhand: Option<Hand>)
    requires AllValid(hand)
    ensures AllRankable(Combinations(hand, 5))
    ensures bhand == BestOf(Combinations(hand, 5))
  {
    var combos := Combinations(hand, 5);
    CombinationsRankable(hand);
    var bestRank: Option<HandInfo> := None;
    bhand := None;
    for i := 0 to |combos|
      invariant AllRankable(combos[..i])
      invariant bhand == BestOf(combos[..i])
      invariant bestRank == RankOf(bhand)
    {
      BestOfPrefixStep(combos, i);
      var info := HandRank(combos[i]);
      if CompareRankInfo(info, bestRank) {
        bestRank := Some(info);
        bhand := Some(combos[i]);
      }
    }
    assert combos[..|combos|] == combos;
  }

  /** What the scan over the five-card combinations of a hand delivers. */
  lemma BestOfCombinations(hand: Hand)
    requires AllValid(hand)
    ensures AllRankable(Combinations(hand, 5))
    ensures var b := BestOf(Combinations(hand, 5));
      && (b.None? <==> |hand| < 5)
      && (b.Some? ==> |b.value| == 5 && IsSubsequence(b.value, hand))
      && (b.Some? ==> forall c :: c in Combinations(hand, 5) ==> !CompareRankInfo(HandRank(c), Some(HandRank(b.value))))
  {
    CombinationsRankable(hand);
    if |hand| >= 5 {
      BestOfMaximal(Combinations(hand, 5));
    }
  }

  /**
   * `best_hand` weighs every way of keeping five of the hand's cards in order: none of them
   * beats its answer.
   */
  lemma BestHandBeatsEveryChoice(hand: Hand, c: Hand)
    requires AllValid(hand) && |c| == 5 && IsSubsequence(c, hand)
    ensures AllRankable(Combinations(hand, 5))
    ensures Rankable(c) && BestOf(Combinations(hand, 5)).Some?
    ensures !CompareRankInfo(HandRank(c), Some(HandRank(BestOf(Combinations(hand, 5)).value)))
  {
    CombinationsComplete(hand, 5, c);
    BestOfCombinations(hand);
  }

  const BlackJoker: Card := "?B"
  const RedJoker: Card := "?R"

  predicate IsJoker(c: Card)
  {
    c == BlackJoker || c == RedJoker
  }

  /**
   * The suits a joker may take in `hand_options`: clubs and spades for the black one; for the
   * red one hearts and 'W', a suit no card has, so the red joker never becomes a diamond.
   */
  function JokerSuits(joker: Card): string
  {
    if joker == BlackJoker then "CS" else "HW"
  }

  /** `joker_replacements`: `product(ranks, suites)`, ranks outermost, each pair joined. */
  function Wildcards(joker: Card): (r: seq<Card>)
    ensures |r| == 2 * |Faces|
    ensures forall w :: w in r ==> ValidCard(w) && |w| == 2 && w[1] in JokerSuits(joker)
  {
    var suits := JokerSuits(joker);
    seq(2 * |Faces|, i requires 0 <= i < 2 * |Faces| => [Faces[i / 2], suits[i % 2]])
  }

  /** The replacements are exactly the cards of every rank in each of the joker's two suits. */
  lemma WildcardsAreProduct(joker: Card, w: Card)
    ensures w in Wildcards(joker) <==> |w| == 2 && w[0] in Faces && w[1] in JokerSuits(joker)
  {
    var suits := JokerSuits(joker);
    if |w| == 2 && w[0] in Faces && w[1] in suits {
      var f :| 0 <= f < |Faces| && Faces[f] == w[0];
      var s :| 0 <= s < 2 && suits[s] == w[1];
      var i := 2 * f + s;
      assert i / 2 == f && i % 2 == s;
      assert Wildcards(joker)[i] == w;
    }
  }

  /** The red joker stands for a "W" card of every rank, and for no diamond. */
  lemma RedJokerSuits(f: char)
    requires f in Faces
    ensures [f, 'W'] in Wildcards(RedJoker)
    ensures [f, 'D'] !in Wildcards(RedJoker)
  {
    WildcardsAreProduct(RedJoker, [f, 'W']);
  }

  /** Where `x` first occurs in `hand`. */
  function IndexOf(hand: Hand, x: Card): (i: nat)
    requires x in hand
    ensures i < |hand| && hand[i] == x
    ensures forall j :: 0 <= j < i ==> hand[j] != x
  {
    if hand[0] == x then 0 else 1 + IndexOf(hand[1..], x)
  }

  /** `list.remove(x)`: the hand without the first occurrence of `x`. */
  function RemoveFirst(hand: Hand, x: Card): (r: Hand)
    requires x in hand
    ensures |r| == |hand| - 1
    ensures multiset(r) == multiset(hand) - multiset{x}
  {
    var i := IndexOf(hand, x);
    assert hand == hand[..i] + [x] + hand[i + 1..];
    hand[..i] + hand[i + 1..]
  }

  /** The hands `hand_options` builds from the replacements `ws`, in their order. */
  function OptionsOver(hand: Hand, joker: Card, ws: seq<Card>): seq<Hand>
    requires joker in hand
    decreases |ws|
  {
    if ws == [] then []
    else
      var w := ws[|ws| - 1];
      OptionsOver(hand, joker, ws[..|ws| - 1]) + (if w !in hand then [RemoveFirst(hand, joker) + [w]] else [])
  }

  lemma {:induction false} OptionsOverShape(hand: Hand, joker: Card, ws: seq<Card>, h: Hand)
    requires joker in hand && h in OptionsOver(hand, joker, ws)
    ensures |h| == |hand| && h == RemoveFirst(hand, joker) + [h[|h| - 1]]
    ensures h[|h| - 1] in ws && h[|h| - 1] !in hand
    decreases |ws|
  {
    var w := ws[|ws| - 1];
    var prefix := ws[..|ws| - 1];
    if h in OptionsOver(hand, joker, prefix) {
      OptionsOverShape(hand, joker, prefix, h);
      assert h[|h| - 1] in prefix;
    }
  }

  lemma {:induction false} OptionsOverComplete(hand: Hand, joker: Card, ws: seq<Card>, w: Card)
    requires joker in hand && w in ws && w !in hand
    ensures RemoveFirst(hand, joker) + [w] in OptionsOver(hand, joker, ws)
    decreases |ws|
  {
    var prefix := ws[..|ws| - 1];
    if w != ws[|ws| - 1] {
      assert ws == prefix + [ws[|ws| - 1]];
      OptionsOverComplete(hand, joker, prefix, w);
    }
  }

  /**
   * What `hand_options(hand, joker)` returns: nothing when the joker is absent; otherwise one
   * hand per replacement card not already held, the joker removed and the replacement appended.
   */
  function Options(hand: Hand, joker: Card): seq<Hand>
  {
    if joker !in hand then [] else OptionsOver(hand, joker, Wildcards(joker))
  }

  /**
   * Each hand offered is the original with its first joker taken out and a replacement card of
   * the joker's colour, not already in the hand, put at the end.
   */
  lemma OptionsShape(hand: Hand, joker: Card, h: Hand)
    requires h in Options(hand, joker)
    ensures joker in hand && |h| == |hand|
    ensures h == RemoveFirst(hand, joker) + [h[|h| - 1]]
    ensures h[|h| - 1] in Wildcards(joker) && h[|h| - 1] !in hand
  {
    OptionsOverShape(hand, joker, Wildcards(joker), h);
  }

  /** Every replacement card not already in the hand is offered. */
  lemma OptionsComplete(hand: Hand, joker: Card, w: Card)
    requires joker in hand && w in Wildcards(joker) && w !in hand
    ensures RemoveFirst(hand, joker) + [w] in Options(hand, joker)
  {
    OptionsOverComplete(hand, joker, Wildcards(joker), w);
  }

  /** `hand_options(hand, joker)`. */
  lemma OptionsOverStep(hand: Hand, joker: Card, ws: seq<Card>, i: nat)
    requires joker in hand && i < |ws|
    ensures OptionsOver(hand, joker, ws[..i + 1]) ==
      OptionsOver(hand, joker, ws[..i]) + (if ws[i] !in hand then [RemoveFirst(hand, joker) + [ws[i]]] else [])
  {
    assert ws[..i + 1][..i] == ws[..i];
  }

  method HandOptions(hand: Hand, joker: Card) returns (hands: seq<Hand>)
    ensures hands == Options(hand, joker)
  {
    if joker !in hand {
      return [];
    }
    var ws := Wildcards(joker);
    hands := [];
    for i := 0 to |ws|
      invariant hands == OptionsOver(hand, joker, ws[..i])
    {
      OptionsOverStep(hand, joker, ws, i);
      var wildcard := ws[i];
      if wildcard !in hand {
        var newHand := RemoveFirst(hand, joker) + [wildcard];
        hands := hands + [newHand];
      }
    }
    assert ws[..|ws|] == ws;
  }

  /** A hand `best_wild_hand` can evaluate: rankable cards and at most one joker of each colour. */
  predicate WildReady(hand: Hand)
  {
    && (forall c :: c in hand ==> ValidCard(c) || IsJoker(c))
    && Count(hand, BlackJoker) <= 1
    && Count(hand, RedJoker) <= 1
  }

  /**
   * Replacing a joker keeps a hand evaluable, removes that joker for good and leaves the other
   * joker where it was.
   */
  lemma OptionReady(hand: Hand, joker: Card, h: Hand)
    requires WildReady(hand) && IsJoker(joker) && h in Options(hand, joker)
    ensures WildReady(h) && joker !in h && |h| == |hand|
    ensures forall o :: IsJoker(o) && o != joker ==> Count(h, o) == Count(hand, o)
  {
    OptionsShape(hand, joker, h);
    var w := h[|h| - 1];
    var rest := RemoveFirst(hand, joker);
    assert h == rest + [w];
    assert multiset(h) == multiset(hand) - multiset{joker} + multiset{w};
    assert ValidCard(w) && !IsJoker(w);
    SwapKeepsReady(hand, h, joker, w);
  }

  /** Trading the one `joker` of a ready hand for a plain card leaves a ready hand without it. */
  lemma SwapKeepsReady(hand: Hand, h: Hand, joker: Card, w: Card)
    requires WildReady(hand) && IsJoker(joker) && joker in hand
    requires ValidCard(w) && !IsJoker(w)
    requires multiset(h) == multiset(hand) - multiset{joker} + multiset{w}
    ensures WildReady(h) && joker !in h
    ensures forall o :: IsJoker(o) && o != joker ==> Count(h, o) == Count(hand, o)
  {
    assert Count(hand, joker) == 1 by {
      assert joker in multiset(hand);
    }
    forall c | c in h ensures ValidCard(c) || IsJoker(c) {
      assert c in multiset(h);
      if c != w {
        assert c in multiset(hand);
      }
    }
    assert joker !in multiset(h);
  }

  /** The candidate hands of `hands_b` each expanded by `hand_options(hb, joker)`, in order. */
  function Expand(hbs: seq<Hand>, joker: Card): seq<Hand>
    decreases |hbs|
  {
    if hbs == [] then [] else Expand(hbs[..|hbs| - 1], joker) + Options(hbs[|hbs| - 1], joker)
  }

  /** The full hands `best_wild_hand` searches: every way of replacing the jokers it holds. */
  function WildHands(hand: Hand): seq<Hand>
  {
    if BlackJoker in hand && RedJoker in hand then Expand(Options(hand, BlackJoker), RedJoker)
    else if BlackJoker in hand then Options(hand, BlackJoker)
    else if RedJoker in hand then Options(hand, RedJoker)
    else [hand]
  }

  predicate Playable(hands: seq<Hand>, n: nat)
  {
    forall h :: h in hands ==> AllValid(h) && |h| == n
  }

  lemma {:induction false} ExpandPlayable(hbs: seq<Hand>, n: nat)
    requires forall hb :: hb in hbs ==> WildReady(hb) && BlackJoker !in hb && |hb| == n
    ensures Playable(Expand(hbs, RedJoker), n)
    decreases |hbs|
  {
    if hbs != [] {
      var prefix, hb := hbs[..|hbs| - 1], hbs[|hbs| - 1];
      assert forall x :: x in prefix ==> x in hbs;
      ExpandPlayable(prefix, n);
      OptionsPlayable(hb, RedJoker);
      PlayableConcat(Expand(prefix, RedJoker), Options(hb, RedJoker), n);
    }
  }

  lemma PlayableConcat(a: seq<Hand>, b: seq<Hand>, n: nat)
    requires Playable(a, n) && Playable(b, n)
    ensures Playable(a + b, n)
  {
  }

  /** The joker that is not `joker`. */
  function OtherJoker(joker: Card): (r: Card)
    requires IsJoker(joker)
    ensures IsJoker(r) && r != joker
  {
    if joker == BlackJoker then RedJoker else BlackJoker
  }

  /** Replacing the only joker left in a ready hand gives hands of plain cards, as many as before. */
  lemma OptionsPlayable(hand: Hand, joker: Card)
    requires WildReady(hand) && IsJoker(joker) && OtherJoker(joker) !in hand
    ensures Playable(Options(hand, joker), |hand|)
  {
    forall h | h in Options(hand, joker) ensures AllValid(h) && |h| == |hand| {
      OptionPlain(hand, joker, h);
    }
  }

  lemma OptionPlain(hand: Hand, joker: Card, h: Hand)
    requires WildReady(hand) && IsJoker(joker) && OtherJoker(joker) !in hand
    requires h in Options(hand, joker)
    ensures AllValid(h) && |h| == |hand|
  {
    OptionReady(hand, joker, h);
    var other := OtherJoker(joker);
    assert Count(h, other) == Count(hand, other) == 0;
    assert BlackJoker !in h && RedJoker !in h;
    ReadyWithoutJokers(h);
  }

  lemma ReadyWithoutJokers(h: Hand)
    requires WildReady(h) && BlackJoker !in h && RedJoker !in h
    ensures AllValid(h)
  {
  }

  /** Replacing one joker of a ready hand gives ready hands without it, as many cards as before. */
  lemma OptionsReady(hand: Hand, joker: Card)
    requires WildReady(hand) && IsJoker(joker)
    ensures forall h :: h in Options(hand, joker) ==> WildReady(h) && joker !in h && |h| == |hand|
  {
    forall h | h in Options(hand, joker) ensures WildReady(h) && joker !in h && |h| == |hand| {
      OptionReady(hand, joker, h);
    }
  }

  /** Every hand searched holds as many cards as the original and no joker any more. */
  lemma WildHandsPlayable(hand: Hand)
    requires WildReady(hand)
    ensures Playable(WildHands(hand), |hand|)
  {
    if BlackJoker in hand && RedJoker in hand {
      OptionsReady(hand, BlackJoker);
      ExpandPlayable(Options(hand, BlackJoker), |hand|);
    } else if BlackJoker in hand {
      OptionsPlayable(hand, BlackJoker);
    } else if RedJoker in hand {
      OptionsPlayable(hand, RedJoker);
    }
  }

  /** Every five-card combination of every hand, hand after hand: what the nested loops visit. */
  function AllCombos(hands: seq<Hand>): seq<Hand>
    decreases |hands|
  {
    if hands == [] then [] else AllCombos(hands[..|hands| - 1]) + Combinations(hands[|hands| - 1], 5)
  }

  lemma {:induction false} AllCombosRankable(hands: seq<Hand>, n: nat)
    requires Playable(hands, n)
    ensures AllRankable(AllCombos(hands))
    ensures forall c :: c in AllCombos(hands) ==> |c| == 5 && AllValid(c)
    decreases |hands|
  {
    if hands != [] {
      var prefix := hands[..|hands| - 1];
      assert forall x :: x in prefix ==> x in hands;
      AllCombosRankable(prefix, n);
      CombinationsRankable(hands[|hands| - 1]);
    }
  }

  /** The five-card hands `best_wild_hand` compares. */
  function WildCandidates(hand: Hand): seq<Hand>
  {
    AllCombos(WildHands(hand))
  }

  lemma ExpandStep(hbs: seq<Hand>, i: nat, joker: Card)
    requires i < |hbs|
    ensures Expand(hbs[..i + 1], joker) == Expand(hbs[..i], joker) + Options(hbs[i], joker)
  {
    assert hbs[..i + 1][..i] == hbs[..i];
  }

  lemma AllCombosStep(hands: seq<Hand>, i: nat, n: nat)
    requires Playable(hands, n) && i < |hands|
    ensures AllCombos(hands[..i + 1]) == AllCombos(hands[..i]) + Combinations(hands[i], 5)
    ensures AllRankable(AllCombos(hands[..i])) && AllRankable(Combinations(hands[i], 5))
  {
    assert hands[..i + 1][..i] == hands[..i];
    assert Playable(hands[..i], n) by {
      assert forall h :: h in hands[..i] ==> h in hands;
    }
    AllCombosRankable(hands[..i], n);
    CombinationsRankable(hands[i]);
  }

  /** The scan over `seen` and then the first `j + 1` of `combos`, from the one over `j`. */
  lemma BestOfConcatStep(seen: seq<Hand>, combos: seq<Hand>, j: nat)
    requires AllRankable(seen) && AllRankable(combos) && j < |combos|
    ensures AllRankable(seen + combos[..j]) && AllRankable(seen + combos[..j + 1])
    ensures BestOf(seen + combos[..j + 1]) ==
      if CompareRankInfo(HandRank(combos[j]), RankOf(BestOf(seen + combos[..j])))
      then Some(combos[j]) else BestOf(seen + combos[..j])
  {
    assert forall h :: h in seen + combos[..j] ==> h in seen || h in combos;
    assert seen + combos[..j + 1] == (seen + combos[..j]) + [combos[j]];
    BestOfStep(seen + combos[..j], combos[j]);
  }

  /** Every candidate is five cards without a joker; without a joker the candidates are those of `best_hand`. */
  lemma WildCandidatesFacts(hand: Hand)
    requires WildReady(hand)
    ensures Playable(WildHands(hand), |hand|)
    ensures AllRankable(WildCandidates(hand))
    ensures BlackJoker !in hand && RedJoker !in hand ==> WildCandidates(hand) == Combinations(hand, 5)
  {
    WildHandsPlayable(hand);
    AllCombosRankable(WildHands(hand), |hand|);
    if BlackJoker !in hand && RedJoker !in hand {
      AllCombosSingle(hand);
    }
  }

  lemma AllCombosSingle(h: Hand)
    ensures AllCombos([h]) == Combinations(h, 5)
  {
    assert [h][..0] == [];
    var c := Combinations(h, 5);
    assert AllCombos([h]) == [] + c;
    assert [] + c == c;
  }

  /**
   * What the scan of `best_wild_hand` delivers: five cards none of which is a joker, beaten by
   * no candidate.
   */
  lemma BestWildHandIsBest(hand: Hand)
    requires WildReady(hand)
    ensures AllRankable(WildCandidates(hand))
    ensures var b := BestOf(WildCandidates(hand));
      && (b.Some? ==> |b.value| == 5 && AllValid(b.value))
      && (b.Some? ==> forall c :: c in WildCandidates(hand) ==> !CompareRankInfo(HandRank(c), Some(HandRank(b.value))))
  {
    WildCandidatesFacts(hand);
    AllCombosRankable(WildHands(hand), |hand|);
    if WildCandidates(hand) != [] {
      BestOfMaximal(WildCandidates(hand));
    }
  }

  /**
   * `best_wild_hand(hand)`: every way of replacing the jokers the hand holds, then the scan of
   * `best_hand` over the five-card combinations of all of them. Without a joker it is
   * `best_hand` itself.
   */
  method BestWildHand(hand: Hand) returns (bhand: Option<Hand>)
    requires WildReady(hand)
    ensures AllRankable(WildCandidates(hand))
    ensures bhand == BestOf(WildCandidates(hand))
    ensures BlackJoker !in hand && RedJoker !in hand ==> WildCandidates(hand) == Combinations(hand, 5)
  {
    WildCandidatesFacts(hand);
    if BlackJoker !in hand && RedJoker !in hand {
      bhand := BestHand(hand);
      return;
    }
    var hands := JokerHands(hand);
    bhand := ScanHands(hands, |hand|);
  }

  /** The hands with every joker of `hand` replaced, as `best_wild_hand` builds them. */
  method JokerHands(hand: Hand) returns (hands: seq<Hand>)
    requires WildReady(hand)
    requires BlackJoker in hand || RedJoker in hand
    ensures hands == WildHands(hand)
  {
    if BlackJoker in hand && RedJoker in hand {
      hands := [];
      var handsB := HandOptions(hand, BlackJoker);
      for i := 0 to |handsB|
        invariant hands == Expand(handsB[..i], RedJoker)
      {
        ExpandStep(handsB, i, RedJoker);
        var more := HandOptions(handsB[i], RedJoker);
        hands := hands + more;
      }
      WholePrefix(handsB);
    } else if BlackJoker in hand {
      hands := HandOptions(hand, BlackJoker);
    } else {
      hands := HandOptions(hand, RedJoker);
    }
  }

  /** The nested scan of `best_wild_hand`: every five-card combination of every hand, in turn. */
  method ScanHands(hands: seq<Hand>, ghost n: nat) returns (bhand: Option<Hand>)
    requires Playable(hands, n)
    ensures AllRankable(AllCombos(hands))
    ensures bhand == BestOf(AllCombos(hands))
  {
    var bestRank: Option<HandInfo> := None;
    bhand := None;
    for i := 0 to |hands|
      invariant AllRankable(AllCombos(hands[..i]))
      invariant bhand == BestOf(AllCombos(hands[..i]))
      invariant bestRank == RankOf(bhand)
    {
      ghost var seen := AllCombos(hands[..i]);
      var combos := Combinations(hands[i], 5);
      AllCombosStep(hands, i, n);
      bhand, bestRank := ScanCombos(combos, seen, bhand, bestRank);
      assert AllCombos(hands[..i + 1]) == seen + combos;
    }
    WholePrefix(hands);
  }

  /**
   * The inner loop of `best_wild_hand` over the combinations `combos` of one hand, going on from
   * the hand and value kept after the candidates `seen`.
   */
  method ScanCombos(combos: seq<Hand>, ghost seen: seq<Hand>, bhand0: Option<Hand>, bestRank0: Option<HandInfo>)
    returns (bhand: Option<Hand>, bestRank: Option<HandInfo>)
    requires AllRankable(seen) && AllRankable(combos)
    requires bhand0 == BestOf(seen) && bestRank0 == RankOf(bhand0)
    ensures AllRankable(seen + combos)
    ensures bhand == BestOf(seen + combos) && bestRank == RankOf(bhand)
  {
    bhand, bestRank := bhand0, bestRank0;
    EmptyPrefix(seen, combos);
    for j := 0 to |combos|
      invariant AllRankable(seen + combos[..j])
      invariant bhand == BestOf(seen + combos[..j])
      invariant bestRank == RankOf(bhand)
    {
      BestOfConcatStep(seen, combos, j);
      var info := HandRank(combos[j]);
      if CompareRankInfo(info, bestRank) {
        bestRank := Some(info);
        bhand := Some(combos[j]);
      }
    }
    WholePrefix(combos);
  }

  lemma WholePrefix<T>(s: seq<T>)
    ensures s[..|s|] == s
  {
  }

  lemma EmptyPrefix<T>(s: seq<T>, t: seq<T>)
    ensures s + t[..0] == s
  {
  }
}
