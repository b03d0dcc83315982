/** The card model: ranks, suits, cards compared by rank alone, hand
    categories, and hands with the comparison operators and the straight and
    flush predicates exactly as the program writes them. */
module Models {
  import opened Errors

  /** Number of cards in a hand. */
  const HandSize := 5

  /** A rank is an integer ordinal from two to fourteen; the ace is fourteen,
      the highest, and is never read as one. */
  type Rank = r: int | 2 <= r <= 14 witness 2

  const Two: Rank := 2
  const Three: Rank := 3
  const Four: Rank := 4
  const Five: Rank := 5
  const Six: Rank := 6
  const Seven: Rank := 7
  const Eight: Rank := 8
  const Nine: Rank := 9
  const Ten: Rank := 10
  const Jack: Rank := 11
  const Queen: Rank := 12
  const King: Rank := 13
  const Ace: Rank := 14

  /** Four symbolic suits; their underlying enumeration values play no part. */
  datatype Suit = Spade | Heart | Diamond | Club

  datatype Card = Card(rank: Rank, suit: Suit)

  // ---------------------------------------------------------------------
  // Card comparison. `==` and `<` are defined by the program on the rank
  // alone; `!=` is Python's default negation of `==`, and `>`, `<=`, `>=`
  // are the ones `functools.total_ordering` derives from `<` and `==`.
  // ---------------------------------------------------------------------

  predicate CardEq(a: Card, b: Card) { a.rank == b.rank }

  predicate CardLess(a: Card, b: Card) { a.rank < b.rank }

  predicate CardNe(a: Card, b: Card) { !CardEq(a, b) }

  predicate CardGreater(a: Card, b: Card) { !CardLess(a, b) && CardNe(a, b) }

  predicate CardLessEq(a: Card, b: Card) { CardLess(a, b) || CardEq(a, b) }

  predicate CardGreaterEq(a: Card, b: Card) { !CardLess(a, b) }

  /** Changing the suits of two cards changes none of their comparisons. */
  lemma SuitNeverCompared(a: Card, b: Card, s: Suit, t: Suit)
    ensures CardEq(a.(suit := s), b.(suit := t)) == CardEq(a, b)
    ensures CardLess(a.(suit := s), b.(suit := t)) == CardLess(a, b)
    ensures CardGreater(a.(suit := s), b.(suit := t)) == CardGreater(a, b)
  {
  }

  /** Two cards are equal exactly when their ranks are, so cards of one rank
      and different suits are equal although they are different cards. */
  lemma CardEqIsRankEquality(a: Card, b: Card)
    ensures CardEq(a, b) <==> a.rank == b.rank
    ensures a.rank == b.rank && a.suit != b.suit ==> CardEq(a, b) && a != b
  {
  }

  /** Card `<` is the numeric order of ranks: irreflexive, transitive, and
      with the derived `>` exactly one of `<`, `==`, `>` holds of two cards. */
  lemma CardOrderIsRankOrder(a: Card, b: Card, c: Card)
    ensures !CardLess(a, a)
    ensures CardLess(a, b) && CardLess(b, c) ==> CardLess(a, c)
    ensures CardGreater(a, b) <==> CardLess(b, a)
    ensures CardLessEq(a, b) <==> a.rank <= b.rank
    ensures CardGreaterEq(a, b) <==> a.rank >= b.rank
    ensures (CardLess(a, b) && !CardEq(a, b) && !CardGreater(a, b))
         || (!CardLess(a, b) && CardEq(a, b) && !CardGreater(a, b))
         || (!CardLess(a, b) && !CardEq(a, b) && CardGreater(a, b))
  {
  }

  /** An ace is greater than every card of another rank, whatever the suits. */
  lemma AceIsHighest(c: Card, s: Suit)
    requires c.rank != Ace
    ensures CardLess(c, Card(Ace, s)) && CardGreater(Card(Ace, s), c)
  {
  }

  /** The assertions of the program's card tests. */
  lemma CardTestCases()
    ensures Two < Ace && King > Jack
    ensures CardLess(Card(Two, Spade), Card(Ace, Spade))
    ensures CardEq(Card(Ace, Spade), Card(Ace, Heart))
    ensures CardGreater(Card(King, Spade), Card(Jack, Heart))
  {
  }

  // ---------------------------------------------------------------------
  // Hand categories
  // ---------------------------------------------------------------------

  datatype HandCategory =
    | HighCard | OnePair | TwoPair | ThreeOfAKind | Straight
    | Flush | FullHouse | FourOfAKind | StraightFlush
  {
    /** The integer value of the enumeration member; categories compare by it. */
    function Value(): (v: int)
      ensures 1 <= v <= 9
      ensures v == 1 <==> this == HighCard
      ensures v == 9 <==> this == StraightFlush
    {
      match this
      case HighCard => 1
      case OnePair => 2
      case TwoPair => 3
      case ThreeOfAKind => 4
      case Straight => 5
      case Flush => 6
      case FullHouse => 7
      case FourOfAKind => 8
      case StraightFlush => 9
    }
  }

  /** Distinct categories have distinct values, so comparing categories by
      value is a strict total order on them. */
  lemma CategoryValueInjective(c: HandCategory, d: HandCategory)
    ensures c.Value() == d.Value() <==> c == d
    ensures c.Value() < d.Value() || c == d || d.Value() < c.Value()
  {
  }

  // ---------------------------------------------------------------------
  // Hands. A hand holds a category chosen by whoever builds it, and a list
  // of cards; nothing relates the two.
  // ---------------------------------------------------------------------

  datatype Hand = Hand(category: HandCategory, cards: seq<Card>)

  /** Python's `zip`: pairs up the two lists and stops at the shorter one. */
  function Zip<A, B>(xs: seq<A>, ys: seq<B>): (r: seq<(A, B)>)
    ensures |r| == if |xs| <= |ys| then |xs| else |ys|
    ensures forall i :: 0 <= i < |r| ==> r[i] == (xs[i], ys[i])
  {
    if xs == [] || ys == [] then [] else [(xs[0], ys[0])] + Zip(xs[1..], ys[1..])
  }

  /** `Hand.__eq__`: equal categories, OR every zipped pair of cards unequal. */
  predicate HandEq(a: Hand, b: Hand) {
    a.category == b.category || forall p | p in Zip(a.cards, b.cards) :: CardNe(p.0, p.1)
  }

  /** `Hand.__lt__`: a lower category, OR every zipped pair of cards lower. */
  predicate HandLess(a: Hand, b: Hand) {
    a.category.Value() < b.category.Value() || forall p | p in Zip(a.cards, b.cards) :: CardLess(p.0, p.1)
  }

  /** The operators Python and `functools.total_ordering` derive. */
  predicate HandNe(a: Hand, b: Hand) { !HandEq(a, b) }

  predicate HandGreater(a: Hand, b: Hand) { !HandLess(a, b) && HandNe(a, b) }

  predicate HandLessEq(a: Hand, b: Hand) { HandLess(a, b) || HandEq(a, b) }

  predicate HandGreaterEq(a: Hand, b: Hand) { !HandLess(a, b) }

  /** A strictly lower category makes a hand less, whatever the cards. */
  lemma LowerCategoryIsLess(a: Hand, b: Hand)
    requires a.category.Value() < b.category.Value()
    ensures HandLess(a, b) && HandLessEq(a, b) && !HandGreater(a, b)
  {
  }

  /** Hands of one category are always `==`, whatever the cards. */
  lemma SameCategoryIsEqual(a: Hand, b: Hand)
    requires a.category == b.category
    ensures HandEq(a, b) && HandEq(b, a) && !HandNe(a, b)
  {
  }

  /** Unless the first hand's category is lower, `<` holds exactly when
      every zipped pair of cards, up to the length of the shorter list, is
      lower by rank, so a hand of a higher category can be `<` one of a
      lower category. */
  lemma NoLowerCategoryLessIffAllLower(a: Hand, b: Hand)
    requires a.category.Value() >= b.category.Value()
    ensures HandLess(a, b) <==>
      forall i :: 0 <= i < |a.cards| && i < |b.cards| ==> a.cards[i].rank < b.cards[i].rank
  {
    var z := Zip(a.cards, b.cards);
    if forall i :: 0 <= i < |a.cards| && i < |b.cards| ==> a.cards[i].rank < b.cards[i].rank {
      forall p | p in z ensures CardLess(p.0, p.1) {
        var k :| 0 <= k < |z| && z[k] == p;
      }
    }
    if HandLess(a, b) {
      forall i | 0 <= i < |a.cards| && i < |b.cards| ensures a.cards[i].rank < b.cards[i].rank {
        assert z[i] in z;
      }
    }
  }

  /** With different categories, `==` holds exactly when every zipped pair
      of cards, up to the length of the shorter list, differs in rank. */
  lemma DifferentCategoriesEqualIffAllDiffer(a: Hand, b: Hand)
    requires a.category != b.category
    ensures HandEq(a, b) <==>
      forall i :: 0 <= i < |a.cards| && i < |b.cards| ==> a.cards[i].rank != b.cards[i].rank
  {
    var z := Zip(a.cards, b.cards);
    if forall i :: 0 <= i < |a.cards| && i < |b.cards| ==> a.cards[i].rank != b.cards[i].rank {
      forall p | p in z ensures CardNe(p.0, p.1) {
        var k :| 0 <= k < |z| && z[k] == p;
      }
    }
    if HandEq(a, b) {
      forall i | 0 <= i < |a.cards| && i < |b.cards| ensures a.cards[i].rank != b.cards[i].rank {
        assert z[i] in z;
      }
    }
  }

  /** A hand without cards is `==` to and `<` every hand, itself included:
      `<` is not irreflexive. */
  lemma EmptyHandIsLessThanEverything(a: Hand, b: Hand)
    requires a.cards == []
    ensures HandLess(a, b) && HandEq(a, b)
    ensures HandLess(a, a)
  {
  }

  /** Two hands of one category whose cards are pairwise lower are at once
      `==` and `<`, and the larger is not `>` the smaller. */
  lemma EqualAndLessTogether()
    ensures var a := Hand(HighCard, [Card(Two, Spade)]);
            var b := Hand(HighCard, [Card(Three, Spade)]);
            HandEq(a, b) && HandLess(a, b) && !HandGreater(b, a)
  {
    var a := Hand(HighCard, [Card(Two, Spade)]);
    var b := Hand(HighCard, [Card(Three, Spade)]);
    NoLowerCategoryLessIffAllLower(a, b);
  }

  /** Hands of different categories are `==` when every zipped pair of cards
      differs in rank, so a high card hand can equal a straight flush. */
  lemma DifferentCategoriesCanBeEqual()
    ensures var a := Hand(HighCard, [Card(Ace, Spade)]);
            var b := Hand(StraightFlush, [Card(Two, Heart)]);
            a.category != b.category && HandEq(a, b) && HandLess(a, b)
  {
    var a := Hand(HighCard, [Card(Ace, Spade)]);
    var b := Hand(StraightFlush, [Card(Two, Heart)]);
    assert Zip(a.cards, b.cards) == [(Card(Ace, Spade), Card(Two, Heart))];
  }

  // ---------------------------------------------------------------------
  // Ranks, suits, straights and flushes
  // ---------------------------------------------------------------------

  /** `Hand._ranks`: the ranks of the cards, in order. */
  function Ranks(cards: seq<Card>): seq<int> {
    seq(|cards|, i requires 0 <= i < |cards| => cards[i].rank as int)
  }

  /** `Hand._suits`: the suits of the cards, in order. */
  function Suits(cards: seq<Card>): seq<Suit> {
    seq(|cards|, i requires 0 <= i < |cards| => cards[i].suit)
  }

  /** `set(self._ranks)`. */
  function RankSet(cards: seq<Card>): set<int> {
    set r | r in Ranks(cards)
  }

  /** Python's `max` on a non-empty list of integers. */
  function Max(s: seq<int>): (m: int)
    requires s != []
    ensures m in s
    ensures forall x | x in s :: x <= m
  {
    if |s| == 1 then s[0]
    else
      assert s == [s[0]] + s[1..];
      var rest := Max(s[1..]);
      if s[0] >= rest then s[0] else rest
  }

  /** Python's `min` on a non-empty list of integers. */
  function Min(s: seq<int>): (m: int)
    requires s != []
    ensures m in s
    ensures forall x | x in s :: m <= x
  {
    if |s| == 1 then s[0]
    else
      assert s == [s[0]] + s[1..];
      var rest := Min(s[1..]);
      if s[0] <= rest then s[0] else rest
  }

  /** A list with no element has an empty rank set. */
  lemma RankSetOfNoCards(cards: seq<Card>)
    ensures cards == [] ==> RankSet(cards) == {}
  {
  }

  /** `Hand._is_straight`: five distinct ranks whose maximum exceeds their
      minimum by four. The first test fails on an empty list, so `max` and
      `min` are never applied to one. The ace counts as fourteen only. */
  predicate IsStraight(h: Hand) {
    |RankSet(h.cards)| == HandSize &&
    (RankSetOfNoCards(h.cards);
     Max(Ranks(h.cards)) - Min(Ranks(h.cards)) == HandSize - 1)
  }

  /** Every rank lies between the minimum and maximum rank. */
  lemma RankSetWithin(cards: seq<Card>)
    requires cards != []
    ensures forall r | r in RankSet(cards) :: Min(Ranks(cards)) <= r <= Max(Ranks(cards))
  {
  }

  /** A subset with as many elements as the whole set is the whole set. */
  lemma SubsetOfSameSize(a: set<int>, b: set<int>)
    requires a <= b && |a| == |b|
    ensures a == b
  {
    assert b == a + (b - a);
    assert a * (b - a) == {};
    assert |b - a| == 0;
  }

  /** The five integers from `m` on. */
  function RunFrom(m: int): (run: set<int>)
    ensures |run| == 5
    ensures forall x :: x in run <==> m <= x <= m + 4
  {
    var run := {m, m + 1, m + 2, m + 3, m + 4};
    assert |{m, m + 1}| == 2;
    assert |{m, m + 1, m + 2}| == 3;
    assert |{m, m + 1, m + 2, m + 3}| == 4;
    run
  }

  /** Five integers within a span of four are the whole span. */
  lemma FiveWithinFourAreARun(s: set<int>, m: int)
    requires |s| == 5 && forall x | x in s :: m <= x <= m + 4
    ensures s == RunFrom(m)
  {
    SubsetOfSameSize(s, RunFrom(m));
  }

  /** A straight is exactly a hand whose rank set is the five consecutive
      ranks starting at its lowest rank. */
  lemma StraightIsFiveConsecutiveRanks(h: Hand)
    ensures IsStraight(h) <==> h.cards != [] && RankSet(h.cards) == RunFrom(Min(Ranks(h.cards)))
  {
    if h.cards != [] {
      var ranks := Ranks(h.cards);
      var m := Min(ranks);
      if IsStraight(h) {
        RankSetWithin(h.cards);
        FiveWithinFourAreARun(RankSet(h.cards), m);
      }
      if RankSet(h.cards) == RunFrom(m) {
        var top := Max(ranks);
        assert top in RankSet(h.cards);
        assert m + 4 in RankSet(h.cards);
      }
    }
  }

  /** The wheel: a hand holding both an ace and a two is never a straight,
      because the ace is only ever rank fourteen. */
  lemma AceIsNeverLow(h: Hand, i: nat, j: nat)
    requires i < |h.cards| && j < |h.cards|
    requires h.cards[i].rank == Ace && h.cards[j].rank == Two
    ensures !IsStraight(h)
  {
    var ranks := Ranks(h.cards);
    assert ranks[i] in ranks && ranks[j] in ranks;
  }

  /** The ace-to-five wheel is not a straight. */
  lemma WheelIsNotStraight(c: HandCategory)
    ensures !IsStraight(Hand(c, [Card(Ace, Spade), Card(Two, Heart), Card(Three, Diamond),
                                 Card(Four, Club), Card(Five, Spade)]))
  {
    AceIsNeverLow(Hand(c, [Card(Ace, Spade), Card(Two, Heart), Card(Three, Diamond),
                           Card(Four, Club), Card(Five, Spade)]), 0, 1);
  }

  /** `suit_counter[s]` for `Counter(self._suits)`. */
  function SuitCount(cards: seq<Card>, s: Suit): nat {
    multiset(Suits(cards))[s]
  }

  /** The element of `suits[i..]` whose count in all of `suits` is greatest,
      the earliest one among equals. */
  function MostCommonFrom(suits: seq<Suit>, i: nat): (s: Suit)
    requires i < |suits|
    decreases |suits| - i
    ensures s in suits[i..]
    ensures forall j | i <= j < |suits| :: multiset(suits)[suits[j]] <= multiset(suits)[s]
  {
    if i == |suits| - 1 then suits[i]
    else
      var later := MostCommonFrom(suits, i + 1);
      if multiset(suits)[suits[i]] >= multiset(suits)[later] then suits[i] else later
  }

  /** Among equally frequent suits, `MostCommonFrom` picks the one that
      occurs first: every element before its first occurrence in the suffix
      is strictly less frequent. */
  lemma {:induction false} MostCommonFromIsEarliest(suits: seq<Suit>, i: nat)
    requires i < |suits|
    decreases |suits| - i
    ensures exists k | i <= k < |suits| :: suits[k] == MostCommonFrom(suits, i) &&
              forall j | i <= j < k :: multiset(suits)[suits[j]] < multiset(suits)[suits[k]]
  {
    var later := if i == |suits| - 1 then suits[i] else MostCommonFrom(suits, i + 1);
    if i == |suits| - 1 || multiset(suits)[suits[i]] >= multiset(suits)[later] {
      assert suits[i] == MostCommonFrom(suits, i);
    } else {
      MostCommonFromIsEarliest(suits, i + 1);
      var k :| i + 1 <= k < |suits| && suits[k] == later &&
                forall j | i + 1 <= j < k :: multiset(suits)[suits[j]] < multiset(suits)[suits[k]];
      assert suits[k] == MostCommonFrom(suits, i);
    }
  }

  /** `Counter(suits).most_common()[0]`: the first key, in order of first
      occurrence, of greatest count, with that count. Undefined on an empty
      list, where the program raises. */
  function MostCommon(suits: seq<Suit>): (r: (Suit, nat))
    requires suits != []
    ensures r.0 in suits && r.1 == multiset(suits)[r.0]
    ensures forall s :: multiset(suits)[s] <= r.1
    ensures exists k | 0 <= k < |suits| :: suits[k] == r.0 &&
              forall j | 0 <= j < k :: multiset(suits)[suits[j]] < r.1
  {
    var s := MostCommonFrom(suits, 0);
    MostCommonFromIsEarliest(suits, 0);
    assert suits[0..] == suits;
    assert forall t | t in suits :: exists j :: 0 <= j < |suits| && suits[j] == t;
    (s, multiset(suits)[s])
  }

  /** `Hand._is_flush`: whether the most common suit occurs at least five
      times; an empty card list has no most common suit and raises. */
  function IsFlush(h: Hand): (r: Result<bool>)
    ensures r.Err? <==> h.cards == []
    ensures r.Err? ==> r.error == NoCards
    ensures r.Ok? ==> (r.value <==> exists s :: SuitCount(h.cards, s) >= HandSize)
  {
    var suits := Suits(h.cards);
    if suits == [] then Err(NoCards)
    else
      var (suit, count) := MostCommon(suits);
      assert SuitCount(h.cards, suit) == count;
      Ok(count >= HandSize)
  }

  /** An element counted as often as the list is long fills the list. */
  lemma {:induction false} CountFillsList(xs: seq<Suit>, s: Suit)
    ensures multiset(xs)[s] >= |xs| <==> forall i | 0 <= i < |xs| :: xs[i] == s
  {
    if xs != [] {
      CountFillsList(xs[1..], s);
      assert xs == [xs[0]] + xs[1..];
      assert multiset(xs)[s] == (if xs[0] == s then 1 else 0) + multiset(xs[1..])[s];
      assert multiset(xs[1..])[s] <= |xs[1..]|;
      if forall i | 0 <= i < |xs| :: xs[i] == s {
        assert forall i | 0 <= i < |xs[1..]| :: xs[1..][i] == s;
      }
      if multiset(xs)[s] >= |xs| {
        forall i | 1 <= i < |xs| ensures xs[i] == s {
          assert xs[1..][i - 1] == xs[i];
        }
      }
    }
  }

  /** A five-card list is a flush exactly when all five cards share one suit. */
  lemma FiveCardFlushIsOneSuit(h: Hand)
    requires |h.cards| == HandSize
    ensures IsFlush(h) == Ok(true) <==>
      forall i | 0 <= i < |h.cards| :: h.cards[i].suit == h.cards[0].suit
  {
    var suits := Suits(h.cards);
    if IsFlush(h) == Ok(true) {
      var s :| SuitCount(h.cards, s) >= HandSize;
      CountFillsList(suits, s);
      assert forall i | 0 <= i < |h.cards| :: suits[i] == h.cards[i].suit == s;
    }
    if forall i | 0 <= i < |h.cards| :: h.cards[i].suit == h.cards[0].suit {
      assert forall i | 0 <= i < |suits| :: suits[i] == h.cards[0].suit;
      CountFillsList(suits, h.cards[0].suit);
      assert SuitCount(h.cards, h.cards[0].suit) >= HandSize;
      var r := IsFlush(h);
      assert r.Ok? && r.value;
    }
  }

  /** An empty hand raises instead of answering. */
  lemma FlushOfNoCardsFails(c: HandCategory)
    ensures IsFlush(Hand(c, [])) == Err(NoCards)
  {
  }

  /** Suits of a concatenation are the concatenated suits. */
  lemma SuitsAppend(a: seq<Card>, b: seq<Card>)
    ensures Suits(a + b) == Suits(a) + Suits(b)
  {
  }

  /** Reordering the cards reorders their suits. */
  lemma {:induction false} SuitsPermutation(a: seq<Card>, b: seq<Card>)
    requires multiset(a) == multiset(b)
    ensures multiset(Suits(a)) == multiset(Suits(b))
    decreases |a|
  {
    if a == [] {
      assert |multiset(b)| == 0;
    } else {
      var x := a[0];
      assert x in multiset(b);
      var j :| 0 <= j < |b| && b[j] == x;
      var rest := b[..j] + b[j + 1..];
      assert b == b[..j] + [x] + b[j + 1..];
      assert a == [x] + a[1..];
      assert multiset(b) == multiset(b[..j]) + multiset([x]) + multiset(b[j + 1..]);
      assert multiset(a) == multiset([x]) + multiset(a[1..]);
      assert multiset(rest) == multiset(b) - multiset{x};
      assert multiset(a[1..]) == multiset(a) - multiset{x};
      SuitsPermutation(a[1..], rest);
      SuitsAppend([x], a[1..]);
      SuitsAppend(b[..j], [x]);
      SuitsAppend(b[..j] + [x], b[j + 1..]);
      SuitsAppend(b[..j], b[j + 1..]);
    }
  }

  /** Reordering the cards keeps the rank set and so the lowest and highest rank. */
  lemma RanksPermutation(a: seq<Card>, b: seq<Card>)
    requires multiset(a) == multiset(b)
    ensures RankSet(a) == RankSet(b)
    ensures a != [] ==> b != [] && Max(Ranks(a)) == Max(Ranks(b)) && Min(Ranks(a)) == Min(Ranks(b))
  {
    forall r | r in RankSet(a) ensures r in RankSet(b) {
      var i :| 0 <= i < |a| && Ranks(a)[i] == r;
      assert a[i] in multiset(b);
      var j :| 0 <= j < |b| && b[j] == a[i];
      assert Ranks(b)[j] == r;
    }
    forall r | r in RankSet(b) ensures r in RankSet(a) {
      var j :| 0 <= j < |b| && Ranks(b)[j] == r;
      assert b[j] in multiset(a);
      var i :| 0 <= i < |a| && a[i] == b[j];
      assert Ranks(a)[i] == r;
    }
    if a != [] {
      assert a[0] in multiset(b);
      var ra, rb := Ranks(a), Ranks(b);
      assert Max(ra) in RankSet(a) && Max(rb) in RankSet(b);
      assert Min(ra) in RankSet(a) && Min(rb) in RankSet(b);
    }
  }

  /** Both pattern predicates depend only on the multiset of cards: permuting
      the list changes neither. */
  lemma PatternsIgnoreCardOrder(h: Hand, g: Hand)
    requires multiset(h.cards) == multiset(g.cards)
    ensures IsStraight(h) == IsStraight(g)
    ensures IsFlush(h) == IsFlush(g)
  {
    RanksPermutation(h.cards, g.cards);
    SuitsPermutation(h.cards, g.cards);
    if h.cards == [] {
      assert |multiset(g.cards)| == 0;
    } else {
      assert h.cards[0] in multiset(g.cards);
    }
  }
}
