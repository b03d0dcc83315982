# poker-equity: card model and board enumeration

A Dafny model of the core of a small poker library. It has two parts.

- The card model (`models.py`, module `Models` in `models.dfy`).
  - Ranks are integers from 2 to 14, and the ace is 14.
  - There are four suits.
  - Cards compare by rank alone.
  - There are nine hand categories, numbered 1 to 9.
  - A hand holds a category, supplied by whoever builds it, and a list of cards.
  - The hand operators `==` and `<`, and the straight and flush predicates, are modelled exactly as written.
- Board enumeration (`main.py`, module `Boards` in `boards.dfy`). `GenerateBoards` works in four steps.
  - It removes the current board and the pocket from the card universe.
  - It enumerates every selection of the cards missing from a five-card board.
  - It appends each selection to the current board.
  - It sorts the boards in descending order under Python's list `<`.

`errors.dfy` (module `Errors`) holds the `Result` type. It stands for the two exceptions the modelled operations can raise: `IndexError` from `most_common()[0]` on an empty counter, and `ValueError` from `combinations` with a negative size.

Both source files are pure, so the model uses datatypes, functions and lemmas.

The comparison operators are modelled as written, and they are not an order.
- Hands of one category are always `==`.
- They can at the same time be `<` (`EqualAndLessTogether`).
- A hand without cards is `<` itself (`EmptyHandIsLessThanEverything`).
- A hand of a higher category is `<` a hand of a lower one when every zipped pair of cards is lower by rank (`NoLowerCategoryLessIffAllLower`).
- Hands of different categories are `==` exactly when every zipped pair of cards differs in rank (`DifferentCategoriesEqualIffAllDiffer`, with an example in `DifferentCategoriesCanBeEqual`).

No total order is claimed. The source has no hand classifier, so the model has none.

The operators that `functools.total_ordering` and Python's default `!=` derive are modelled too: `CardGreater`, `HandGreater`, `HandLessEq` and the rest.

`generate_boards` takes the card universe as a parameter. `Deck` models the program's 52-card constant. The set difference at main.py:13 is taken on the full (rank, suit) identity of a card, not on the rank-only card `==`. Python's set iteration order is replaced by the order of the universe sequence. That order decides the order of the added cards inside each board, because `combinations` keeps pool order. So it also decides each board's rank sequence and therefore the output order. Only the card set of each board, and the collection of those card sets, do not depend on it.

## Model

| member | source | states |
|---|---|---|
| Models.HandSize | models.py:9 | `HAND_SIZE = 5`, the five cards of a hand, used by IsStraight and IsFlush |
| Models.Rank | models.py:11-24 | the ranks 2 to 14, ace 14, as a subset type; AceIsHighest and CardTestCases state their order |
| Models.Suit | models.py:27-31 | the four suits, with no order; SuitNeverCompared shows no comparison reads them |
| Models.Card | models.py:35-38 | a card of a rank and a suit; CardEqIsRankEquality shows two different cards can be `==` |
| Models.CardEq | models.py:40-41 | `Card.__eq__`: rank equality; characterised by CardEqIsRankEquality and SuitNeverCompared |
| Models.CardLess | models.py:43-44 | `Card.__lt__`: rank order; characterised by CardOrderIsRankOrder and AceIsHighest |
| Models.CardNe | models.py:40-41 | Python's default `!=`, the negation of `==`; characterised by CardEqIsRankEquality |
| Models.CardGreater | models.py:34 | `>` as `total_ordering` derives it from `<` and `==`; CardOrderIsRankOrder proves it is the converse of `<` |
| Models.CardLessEq | models.py:34 | `<=` as `total_ordering` derives it; CardOrderIsRankOrder proves it is rank `<=` |
| Models.CardGreaterEq | models.py:34 | `>=` as `total_ordering` derives it; CardOrderIsRankOrder proves it is rank `>=` |
| Models.CardEqIsRankEquality | models.py:40-41 | two cards are `==` exactly when their ranks are equal; cards of one rank and different suits are `==` though they are different cards |
| Models.SuitNeverCompared | models.py:40-44 | changing the suits of two cards changes none of `==`, `<`, `>` between them |
| Models.CardOrderIsRankOrder | models.py:34-44 | card `<` is irreflexive and transitive; the derived `>` is the converse of `<`; `<=`/`>=` are rank `<=`/`>=`; exactly one of `<`, `==`, `>` holds |
| Models.AceIsHighest | models.py:43-44 | an ace is `>` every card of another rank and that card is `<` it, whatever the suits |
| Models.CardTestCases | test_models.py:4-13 | the rank and card assertions of the card tests hold in the model |
| Models.HandCategory.Value | models.py:50-59 | category values lie in 1..9, with 1 for high card and 9 for straight flush |
| Models.CategoryValueInjective | models.py:50-59 | categories with equal values are the same category, so comparing values is a strict total order on categories |
| Models.Zip | models.py:68-78 | `zip` has the length of the shorter list and pairs the elements at equal positions |
| Models.Hand | models.py:63-66 | a hand of a category and a list of cards, with nothing relating the two; the hand comparison lemmas range over all such pairs |
| Models.HandEq | models.py:68-72 | `Hand.__eq__`; characterised by SameCategoryIsEqual and DifferentCategoriesEqualIffAllDiffer |
| Models.HandLess | models.py:74-78 | `Hand.__lt__`; characterised by LowerCategoryIsLess and NoLowerCategoryLessIffAllLower |
| Models.HandNe | models.py:68-72 | Python's default `!=` on hands; SameCategoryIsEqual shows it false for one category |
| Models.HandGreater | models.py:62 | `>` as `total_ordering` derives it; LowerCategoryIsLess and EqualAndLessTogether show when it fails |
| Models.HandLessEq | models.py:62 | `<=` as `total_ordering` derives it; LowerCategoryIsLess shows it holds for a lower category |
| Models.HandGreaterEq | models.py:62 | `>=` as `total_ordering` derives it, the negation of `<`; EmptyHandIsLessThanEverything shows an empty hand is not `>=` itself |
| Models.DifferentCategoriesEqualIffAllDiffer | models.py:68-72 | with different categories, `==` holds iff every zipped card pair, up to the shorter list, differs in rank |
| Models.LowerCategoryIsLess | models.py:74-78 | a strictly lower category makes a hand `<` and `<=`, and not `>`, whatever the cards |
| Models.SameCategoryIsEqual | models.py:68-72 | hands of one category are `==` in both directions, whatever the cards |
| Models.NoLowerCategoryLessIffAllLower | models.py:74-78 | when the first hand's category is not lower, `<` holds iff every zipped card pair, up to the shorter list, is lower by rank, whether the categories are equal or the first is higher |
| Models.EmptyHandIsLessThanEverything | models.py:68-78 | a hand without cards is `==` and `<` every hand, itself included |
| Models.EqualAndLessTogether | models.py:62-78 | two hands can be at once `==` and `<`, while the larger is not `>` the smaller |
| Models.DifferentCategoriesCanBeEqual | models.py:68-78 | a high-card hand and a straight-flush hand can be `==`, and also `<` |
| Models.Ranks | models.py:80-82 | `_ranks`, the ranks in card order; RanksPermutation proves its set, max and min ignore card order |
| Models.Suits | models.py:84-86 | `_suits`, the suits in card order; SuitsPermutation proves it is permuted with the cards |
| Models.RankSet | models.py:90 | `set(self._ranks)`; StraightIsFiveConsecutiveRanks characterises a straight as a rank set equal to RunFrom of the lowest rank, and RanksPermutation shows it ignores card order |
| Models.IsStraight | models.py:88-92 | `_is_straight`; characterised by StraightIsFiveConsecutiveRanks, AceIsNeverLow and PatternsIgnoreCardOrder |
| Models.SuitCount | models.py:95 | `Counter(self._suits)[s]`; IsFlush and FiveCardFlushIsOneSuit state flushes through it |
| Models.Max | models.py:91 | `max` of a non-empty list is an element of it and at least every element |
| Models.Min | models.py:91 | `min` of a non-empty list is an element of it and at most every element |
| Models.StraightIsFiveConsecutiveRanks | models.py:88-92 | `_is_straight` holds iff the list is non-empty and its rank set is {m, m+1, m+2, m+3, m+4}, with m the lowest rank |
| Models.AceIsNeverLow | models.py:88-92 | a hand holding an ace and a two is never a straight |
| Models.WheelIsNotStraight | models.py:88-92 | the ace-to-five wheel is not a straight |
| Models.MostCommonFrom | models.py:95-96 | the suit chosen from a suffix occurs in that suffix, and no element of the suffix is more frequent |
| Models.MostCommonFromIsEarliest | models.py:95-96 | the suit chosen from a suffix occurs at a position before which every element is strictly less frequent, so it is the first of the most frequent suits |
| Models.MostCommon | models.py:95-96 | `most_common()[0]` is a suit of the list with its count, no suit occurs more often, and among equally frequent suits it is the one seen first |
| Models.IsFlush | models.py:94-97 | `_is_flush` raises exactly on an empty list; otherwise it holds iff some suit occurs at least five times |
| Models.FiveCardFlushIsOneSuit | models.py:94-97 | on five cards, `_is_flush` holds iff all five share one suit |
| Models.FlushOfNoCardsFails | models.py:95-96 | a hand without cards raises instead of answering |
| Models.SuitsPermutation | models.py:84-86 | permuting the cards permutes their suits |
| Models.RanksPermutation | models.py:80-82 | permuting the cards keeps their rank set, highest rank and lowest rank |
| Models.PatternsIgnoreCardOrder | models.py:88-97 | `_is_straight` and `_is_flush` give the same answer for any two lists with the same multiset of cards |
| Boards.BoardSize | main.py:8 | `BOARD_SIZE = 5`; GenerateBoards chooses the cards the board is missing up to this size, and fails when the board already holds more |
| Boards.DeckFrom | main.py:9 | the deck from rank r upward holds 4·(15−r) distinct cards: exactly the cards of rank at least r |
| Boards.OfRank | main.py:9 | the four cards of one rank, one per suit, in suit order; the step DeckFrom builds the deck from |
| Boards.Deck | main.py:9 | `CARDS` holds 52 distinct cards and every card |
| Boards.Remaining | main.py:13 | a card remains iff it is in the universe and neither on the board nor in the pocket; a distinct universe leaves distinct cards |
| Boards.RemainingSize | main.py:13 | with distinct board and pocket cards drawn from a distinct universe and not shared, |universe| − |board| − |pocket| cards remain |
| Boards.Combinations | main.py:15 | there are C(n, k) selections of k cards from a pool of n |
| Boards.CombinationsShape | main.py:15 | every selection holds k cards, all from the pool |
| Boards.CombinationsDistinct | main.py:15 | from a distinct pool, no selection repeats and no selection repeats a card |
| Boards.SameSetSameSelection | main.py:15 | from a distinct pool, two selections with the same cards are the same selection, so each set of k cards is yielded at most once (exactly once with CombinationsComplete) |
| Boards.CombinationsComplete | main.py:15 | every set of k pool cards is the card set of some selection |
| Boards.ChooseNone | main.py:15 | choosing none gives exactly one empty selection |
| Boards.ChooseTooMany | main.py:15 | choosing more than the pool holds gives no selection |
| Boards.BinomialAboveIsZero | main.py:15 | C(n, k) is zero when k exceeds n |
| Boards.BinomialIsFactorialQuotient | main.py:15 | C(n, k) · k! · (n−k)! = n! |
| Boards.BoardLess | main.py:17 | Python's list `<` on boards, through card `==` and `<`; characterised by BoardLessOnlyRanks, BoardOrderIsStrict and NotLessTransitive |
| Boards.BoardLessOnlyRanks | main.py:17 | the list `<` of two boards depends only on their rank sequences, so suits never affect the order |
| Boards.BoardOrderIsStrict | main.py:17 | board `<` is irreflexive, asymmetric and transitive; two boards are mutually not `<` iff they have the same ranks |
| Boards.NotLessTransitive | main.py:17 | "not `<`" between boards is transitive |
| Boards.Extend | main.py:16 | the `map` appending each selection to the board; SelectionIsProduced and BoardsCompleteTheBoard characterise its boards |
| Boards.Insert | main.py:17 | inserting a board adds exactly that board and keeps a descending list descending |
| Boards.SortDescending | main.py:17 | `sorted(..., reverse=True)` returns a permutation of its input, no board `<` any later board |
| Boards.GenerateBoards | main.py:12-17 | raises exactly when the board has more than five cards; otherwise returns a permutation of the board extended by every selection, C(remaining, 5 − |board|) boards, in descending order |
| Boards.BoardsCompleteTheBoard | main.py:13-16 | every board has five cards and starts with the current board; the added cards are universe cards off the board and out of the pocket, and distinct when the universe is |
| Boards.BoardsAreDistinct | main.py:13-17 | over a distinct universe no board is produced twice, and no two produced boards hold the same set of cards |
| Boards.SameCardsSameBoard | main.py:13-17 | over a distinct universe, two produced boards holding the same cards are the same board |
| Boards.SelectionIsProduced | main.py:14-17 | every selection of the remaining cards, appended to the board, is a produced board |
| Boards.EveryCompletionIsProduced | main.py:13-17 | every set of the right number of remaining cards completes the board in some produced board |
| Boards.FullBoardYieldsItself | main.py:15-17 | a five-card board yields exactly one board, itself |
| Boards.OverfullBoardFails | main.py:15 | a board of more than five cards raises |
| Boards.BoardCount | main.py:13-15 | with a well-formed board and pocket, there are C(|universe| − |board| − |pocket|, 5 − |board|) boards |
| Boards.FullDeckBoardCount | main.py:9-15 | from a 52-card deck, a two-card pocket and an empty board, 50 cards remain and there are C(50, 5) boards |

## Left out

- `Card.__hash__` (models.py:46-47) is not modelled. It calls `tuple` on a card, which is not iterable, so building the sets at main.py:9 and main.py:13 raises in the program as written. The model takes the universe as a parameter and compares cards by full identity in the set difference.
- The `funcy` helpers (`lmap`, `rcompose`, `partial`, `rpartial`) are plain function composition and sequence maps here.
- The concrete values that `auto()` gives the suits play no part in the code and are not modelled.
- Python's set iteration order is not modelled. The pool keeps the order of the universe sequence, and that order fixes the order of the added cards inside each board, each board's rank sequence and the order of the sorted output. What the model promises about a board's contents (its card set) and about the boards produced as a whole holds for any order; the exact card order within each board and the exact output order can differ from the program's.
- Boards.SortDescending: the stability of `sorted` (tied boards keep their input order) is built into the insertion but not stated as a property.
- Boards.FullDeckBoardCount: the value C(50, 5) = 2,118,760 is not computed. The lemma states the count as the binomial of the 50 remaining cards.
- Nothing checks that the pocket and the board are disjoint, or that the pocket has two cards, because the code does not check either. Lemmas that need such facts take them as preconditions.
- There is no I/O, concurrency or floating point in the core.
