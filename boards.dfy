/** Enumeration of every way to complete the community board from the cards
    left in the deck, returned in descending order of the boards. */
module Boards {
  import opened Errors
  import opened Models

  /** Number of cards on a complete board. */
  const BoardSize := 5

  predicate Distinct<T(==)>(s: seq<T>) {
    forall i, j | 0 <= i < j < |s| :: s[i] != s[j]
  }

  /** The cards a list holds, as a set. */
  function Elements(s: seq<Card>): set<Card> {
    set x | x in s
  }

  // ---------------------------------------------------------------------
  // The deck
  // ---------------------------------------------------------------------

  /** The cards of rank `r` and above, rank by rank, each rank in suit order,
      as `product(list(Rank), list(Suit))` lists them. */
  function DeckFrom(r: int): (d: seq<Card>)
    requires 2 <= r <= 15
    decreases 15 - r
    ensures |d| == 4 * (15 - r)
    ensures Distinct(d)
    ensures forall c: Card :: c in d <==> c.rank >= r
  {
    if r == 15 then []
    else
      var rest := DeckFrom(r + 1);
      OneRank(r);
      AppendDistinct(OfRank(r), rest);
      OfRank(r) + rest
  }

  /** The four cards of rank `r`, in suit order. */
  function OfRank(r: Rank): seq<Card> {
    [Card(r, Spade), Card(r, Heart), Card(r, Diamond), Card(r, Club)]
  }

  lemma OneRank(r: Rank)
    ensures Distinct(OfRank(r))
    ensures forall c: Card :: c in OfRank(r) <==> c.rank == r
  {
    forall c: Card | c.rank == r ensures c in OfRank(r) {
      assert c == Card(r, c.suit);
      assert c.suit == Spade || c.suit == Heart || c.suit == Diamond || c.suit == Club;
    }
  }

  /** `CARDS`: the fifty-two distinct cards, every rank with every suit. */
  function Deck(): (d: seq<Card>)
    ensures |d| == 52 && Distinct(d)
    ensures forall c: Card :: c in d
  {
    DeckFrom(2)
  }

  // ---------------------------------------------------------------------
  // The remaining cards
  // ---------------------------------------------------------------------

  /** `CARDS - set(current_board) - set(pocket)`. The difference is taken on
      the full (rank, suit) identity of a card, not on the rank-only `==` of
      the card model, and keeps the order of `universe`, which stands for the
      iteration order of the program's set. */
  function Remaining(universe: seq<Card>, board: seq<Card>, pocket: seq<Card>): (r: seq<Card>)
    ensures forall c :: c in r <==> c in universe && c !in board && c !in pocket
    ensures Distinct(universe) ==> Distinct(r)
    ensures |r| <= |universe|
  {
    if universe == [] then []
    else
      var rest := Remaining(universe[1..], board, pocket);
      assert forall c | c in rest :: c in universe[1..];
      if universe[0] !in board && universe[0] !in pocket then [universe[0]] + rest else rest
  }

  /** A distinct list has as many elements as its length. */
  lemma {:induction false} DistinctSize(s: seq<Card>)
    requires Distinct(s)
    ensures |Elements(s)| == |s|
  {
    if s != [] {
      DistinctSize(s[1..]);
      assert Elements(s) == {s[0]} + Elements(s[1..]);
      assert s[0] !in Elements(s[1..]);
    }
  }

  /** Filtering a distinct universe drops exactly the universe cards excluded. */
  lemma {:induction false} RemainingSizeAux(universe: seq<Card>, board: seq<Card>, pocket: seq<Card>)
    requires Distinct(universe)
    ensures |Remaining(universe, board, pocket)| ==
            |universe| - |Elements(universe) * (Elements(board) + Elements(pocket))|
  {
    if universe != [] {
      var u := universe[0];
      var tail := universe[1..];
      var excluded := Elements(board) + Elements(pocket);
      TailDistinct(universe);
      HeadNotInTail(universe);
      RemainingSizeAux(tail, board, pocket);
      ElementsCons(universe);
      var before := Elements(tail) * excluded;
      assert u !in before;
      if u in excluded {
        assert Elements(universe) * excluded == {u} + before;
        assert |{u} + before| == 1 + |before|;
      } else {
        assert Elements(universe) * excluded == before;
        assert Remaining(universe, board, pocket) == [u] + Remaining(tail, board, pocket);
      }
    }
  }

  /** When the board and the pocket are distinct cards of a distinct universe
      and share none, the remaining pool is the universe less those cards. */
  lemma RemainingSize(universe: seq<Card>, board: seq<Card>, pocket: seq<Card>)
    requires Distinct(universe) && Distinct(board) && Distinct(pocket)
    requires forall c | c in board :: c in universe && c !in pocket
    requires forall c | c in pocket :: c in universe
    ensures |Remaining(universe, board, pocket)| == |universe| - |board| - |pocket|
  {
    RemainingSizeAux(universe, board, pocket);
    var excluded := Elements(board) + Elements(pocket);
    assert Elements(universe) * excluded == excluded;
    assert Elements(board) * Elements(pocket) == {};
    DistinctSize(board);
    DistinctSize(pocket);
  }

  // ---------------------------------------------------------------------
  // Combinations
  // ---------------------------------------------------------------------

  /** The binomial coefficient, by Pascal's rule. */
  function Binomial(n: nat, k: nat): nat {
    if k == 0 then 1
    else if n == 0 then 0
    else Binomial(n - 1, k - 1) + Binomial(n - 1, k)
  }

  function Factorial(n: nat): nat {
    if n == 0 then 1 else n * Factorial(n - 1)
  }

  /** There is no way to choose more than there is. */
  lemma {:induction false} BinomialAboveIsZero(n: nat, k: nat)
    requires k > n
    ensures Binomial(n, k) == 0
  {
    if n > 0 {
      BinomialAboveIsZero(n - 1, k - 1);
      BinomialAboveIsZero(n - 1, k);
    }
  }

  /** Pascal's rule computes n! / (k! (n - k)!). */
  lemma {:induction false} BinomialIsFactorialQuotient(n: nat, k: nat)
    requires k <= n
    ensures Binomial(n, k) * Factorial(k) * Factorial(n - k) == Factorial(n)
  {
    if k == 0 {
      assert Binomial(n, k) == 1 && Factorial(k) == 1;
    } else if k == n {
      BinomialDiagonal(n);
      assert Factorial(n - k) == 1;
    } else {
      var m := n - k;
      BinomialIsFactorialQuotient(n - 1, k - 1);
      BinomialIsFactorialQuotient(n - 1, k);
      var a, b := Binomial(n - 1, k - 1), Binomial(n - 1, k);
      var x, y, f := Factorial(k - 1), Factorial(m - 1), Factorial(n - 1);
      assert Factorial(k) == k * x;
      assert Factorial(m) == m * y;
      assert a * x * (m * y) == f;
      assert b * (k * x) * y == f;
      PascalStep(a, b, k, m, x, y, f);
      assert Binomial(n, k) == a + b;
      assert Factorial(n) == (k + m) * f;
    }
  }

  /** There is exactly one way to choose everything. */
  lemma {:induction false} BinomialDiagonal(n: nat)
    ensures Binomial(n, n) == 1
  {
    if n > 0 {
      BinomialDiagonal(n - 1);
      BinomialAboveIsZero(n - 1, n);
    }
  }

  /** The arithmetic of one step of Pascal's rule. */
  lemma PascalStep(a: int, b: int, k: int, m: int, x: int, y: int, f: int)
    requires a * x * (m * y) == f
    requires b * (k * x) * y == f
    ensures (a + b) * (k * x) * (m * y) == (k + m) * f
  {
    var p := x * y;
    assert a * x * (m * y) == m * (a * p);
    assert b * (k * x) * y == k * (b * p);
    calc {
      (a + b) * (k * x) * (m * y);
      (a + b) * (k * m * p);
      k * (m * (a * p)) + m * (k * (b * p));
      k * f + m * f;
    }
  }

  /** Puts `x` in front of every list of `cs`. */
  function Prepend(x: Card, cs: seq<seq<Card>>): (r: seq<seq<Card>>)
    ensures |r| == |cs|
  {
    seq(|cs|, i requires 0 <= i < |cs| => [x] + cs[i])
  }

  /** A member of `Prepend(x, cs)` is `x` followed by a member of `cs`. */
  lemma PrependMember(x: Card, cs: seq<seq<Card>>, c: seq<Card>)
    requires c in Prepend(x, cs)
    ensures c == [x] + c[1..] && c[1..] in cs
  {
    var i :| 0 <= i < |cs| && Prepend(x, cs)[i] == c;
    assert c == [x] + cs[i];
    assert c[1..] == cs[i];
  }

  /** `itertools.combinations(pool, k)`, in its order: first the selections
      holding the first card, then those without it. Choosing none yields one
      empty selection; choosing more than the pool holds yields none. */
  function Combinations(pool: seq<Card>, k: nat): (r: seq<seq<Card>>)
    decreases |pool|
    ensures |r| == Binomial(|pool|, k)
  {
    if k == 0 then [[]]
    else if pool == [] then []
    else Prepend(pool[0], Combinations(pool[1..], k - 1)) + Combinations(pool[1..], k)
  }

  /** Each selection holds `k` cards of the pool. */
  lemma CombinationsShape(pool: seq<Card>, k: nat)
    ensures forall c | c in Combinations(pool, k) :: |c| == k && Elements(c) <= Elements(pool)
  {
    forall c | c in Combinations(pool, k) ensures |c| == k && Elements(c) <= Elements(pool) {
      SelectionShape(pool, k, c);
    }
  }

  /** A list of distinct elements extended by a new one stays distinct. */
  lemma ConsDistinct<T>(x: T, s: seq<T>)
    requires Distinct(s) && x !in s
    ensures Distinct([x] + s)
  {
    var t := [x] + s;
    forall i, j | 0 <= i < j < |t| ensures t[i] != t[j] {
      assert t[j] == s[j - 1];
      if i > 0 {
        assert t[i] == s[i - 1];
      }
    }
  }

  /** Two distinct lists with no common element concatenate to a distinct list. */
  lemma AppendDistinct<T>(a: seq<T>, b: seq<T>)
    requires Distinct(a) && Distinct(b)
    requires forall x | x in a :: x !in b
    ensures Distinct(a + b)
  {
    var t := a + b;
    forall i, j | 0 <= i < j < |t| ensures t[i] != t[j] {
      if j < |a| {
        assert t[i] == a[i] && t[j] == a[j];
      } else if i >= |a| {
        assert t[i] == b[i - |a|] && t[j] == b[j - |a|];
      } else {
        assert t[i] in a && t[j] == b[j - |a|];
      }
    }
  }

  /** Putting one card in front of distinct selections keeps them distinct. */
  lemma PrependDistinct(x: Card, cs: seq<seq<Card>>)
    requires Distinct(cs)
    ensures Distinct(Prepend(x, cs))
  {
    var r := Prepend(x, cs);
    forall i, j | 0 <= i < j < |r| ensures r[i] != r[j] {
      assert r[i][1..] == cs[i] && r[j][1..] == cs[j];
    }
  }

  /** One step of the recursion of `Combinations`. */
  lemma CombinationsStep(pool: seq<Card>, k: nat)
    requires k > 0 && pool != []
    ensures Combinations(pool, k) ==
            Prepend(pool[0], Combinations(pool[1..], k - 1)) + Combinations(pool[1..], k)
  {
  }

  /** `c` is one of the selections of `k` cards that `Combinations` yields
      from `pool`. */
  predicate IsSelection(pool: seq<Card>, k: nat, c: seq<Card>) {
    c in Combinations(pool, k)
  }

  /** One selection holds `k` cards of the pool. */
  lemma {:induction false} SelectionShape(pool: seq<Card>, k: nat, c: seq<Card>)
    requires IsSelection(pool, k, c)
    ensures |c| == k && Elements(c) <= Elements(pool)
    decreases |pool|, 1
  {
    if k == 0 {
      assert c == [];
    } else if pool != [] {
      CombinationsStep(pool, k);
      if c in Prepend(pool[0], Combinations(pool[1..], k - 1)) {
        WithFirstMember(pool, k, c);
        WithFirstShape(pool, k, c);
      } else {
        assert IsSelection(pool[1..], k, c);
        SelectionShape(pool[1..], k, c);
        ElementsCons(pool);
      }
    }
  }

  /** The step of `SelectionShape` for a selection that starts with the
      first card of the pool. */
  lemma {:induction false} WithFirstShape(pool: seq<Card>, k: nat, c: seq<Card>)
    requires pool != [] && k > 0
    requires c != [] && c[0] == pool[0] && IsSelection(pool[1..], k - 1, c[1..])
    ensures |c| == k && Elements(c) <= Elements(pool)
    decreases |pool|, 0
  {
    SelectionShape(pool[1..], k - 1, c[1..]);
    ElementsCons(pool);
    ElementsCons(c);
  }

  /** The selections of a distinct pool are distinct, and each is made of
      distinct cards. */
  lemma {:induction false} CombinationsDistinct(pool: seq<Card>, k: nat)
    requires Distinct(pool)
    ensures Distinct(Combinations(pool, k))
    ensures forall c | c in Combinations(pool, k) :: Distinct(c)
    decreases |pool|
  {
    forall c | c in Combinations(pool, k) ensures Distinct(c) {
      SelectionDistinct(pool, k, c);
    }
    if k > 0 && pool != [] {
      var x := pool[0];
      var shorter := Combinations(pool[1..], k - 1);
      var without := Combinations(pool[1..], k);
      TailDistinct(pool);
      CombinationsDistinct(pool[1..], k - 1);
      CombinationsDistinct(pool[1..], k);
      PrependDistinct(x, shorter);
      var with := Prepend(x, shorter);
      forall c | c in with ensures c !in without {
        PrependMember(x, shorter, c);
        if c in without {
          FirstNotInTail(pool, k, c);
        }
      }
      AppendDistinct(with, without);
      CombinationsStep(pool, k);
    }
  }

  /** A selection that skips the first card of a distinct pool does not
      hold it. */
  lemma FirstNotInTail(pool: seq<Card>, k: nat, c: seq<Card>)
    requires Distinct(pool) && pool != []
    requires IsSelection(pool[1..], k, c)
    ensures pool[0] !in c
  {
    SelectionShape(pool[1..], k, c);
    HeadNotInTail(pool);
    assert pool[0] !in Elements(c);
  }

  /** The first element of a distinct list does not occur again. */
  lemma HeadNotInTail<T>(s: seq<T>)
    requires Distinct(s) && s != []
    ensures s[0] !in s[1..]
  {
    forall j | 0 <= j < |s[1..]| ensures s[1..][j] != s[0] {
      assert s[1..][j] == s[j + 1];
    }
  }

  /** The tail of a distinct list is distinct. */
  lemma TailDistinct<T>(s: seq<T>)
    requires Distinct(s) && s != []
    ensures Distinct(s[1..])
  {
    var t := s[1..];
    forall i, j | 0 <= i < j < |t| ensures t[i] != t[j] {
      assert t[i] == s[i + 1] && t[j] == s[j + 1];
    }
  }

  /** A selection from a distinct pool holds distinct cards. */
  lemma {:induction false} SelectionDistinct(pool: seq<Card>, k: nat, c: seq<Card>)
    requires Distinct(pool)
    requires IsSelection(pool, k, c)
    ensures Distinct(c) && Elements(c) <= Elements(pool)
    decreases |pool|, 1
  {
    SelectionShape(pool, k, c);
    if k > 0 && pool != [] {
      CombinationsStep(pool, k);
      if c in Prepend(pool[0], Combinations(pool[1..], k - 1)) {
        WithFirstDistinct(pool, k, c);
      } else {
        TailDistinct(pool);
        SelectionDistinct(pool[1..], k, c);
      }
    }
  }

  /** A selection that starts with the first card of a distinct pool holds
      distinct cards. */
  lemma {:induction false} WithFirstDistinct(pool: seq<Card>, k: nat, c: seq<Card>)
    requires Distinct(pool) && pool != [] && k > 0
    requires c in Prepend(pool[0], Combinations(pool[1..], k - 1))
    ensures Distinct(c)
    decreases |pool|, 0
  {
    var tail := c[1..];
    PrependMember(pool[0], Combinations(pool[1..], k - 1), c);
    TailDistinct(pool);
    SelectionDistinct(pool[1..], k - 1, tail);
    HeadNotInTail(pool);
    assert pool[0] !in Elements(tail);
    ConsDistinct(pool[0], tail);
  }

  /** In a distinct pool, a selection holds the first card exactly when it
      is one of the selections that start with it. */
  lemma FirstInSelectionIff(pool: seq<Card>, k: nat, c: seq<Card>)
    requires Distinct(pool) && pool != [] && k > 0
    requires IsSelection(pool, k, c)
    ensures pool[0] in c <==> c in Prepend(pool[0], Combinations(pool[1..], k - 1))
  {
    var x := pool[0];
    var with := Prepend(x, Combinations(pool[1..], k - 1));
    CombinationsStep(pool, k);
    if c in with {
      PrependMember(x, Combinations(pool[1..], k - 1), c);
      assert c[0] == x;
    } else {
      assert c in Combinations(pool[1..], k);
      FirstNotInTail(pool, k, c);
    }
  }

  /** A distinct pool yields each set of `k` cards at most once: two
      selections with the same cards are the same selection. */
  lemma {:induction false} SameSetSameSelection(pool: seq<Card>, k: nat, c: seq<Card>, d: seq<Card>)
    requires Distinct(pool)
    requires IsSelection(pool, k, c) && IsSelection(pool, k, d)
    requires Elements(c) == Elements(d)
    ensures c == d
    decreases |pool|, 1
  {
    if k == 0 {
      assert c == [] && d == [];
    } else if pool != [] {
      var x := pool[0];
      FirstInSelectionIff(pool, k, c);
      FirstInSelectionIff(pool, k, d);
      assert x in c <==> x in Elements(c);
      assert x in d <==> x in Elements(d);
      if c in Prepend(x, Combinations(pool[1..], k - 1)) {
        WithFirstMember(pool, k, c);
        WithFirstMember(pool, k, d);
        SameSetWithFirst(pool, k, c, d);
      } else {
        CombinationsStep(pool, k);
        TailDistinct(pool);
        SameSetSameSelection(pool[1..], k, c, d);
      }
    }
  }

  /** The step of `SameSetSameSelection` for two selections that start with
      the first card of the pool. */
  lemma {:induction false} SameSetWithFirst(pool: seq<Card>, k: nat, c: seq<Card>, d: seq<Card>)
    requires Distinct(pool) && pool != [] && k > 0
    requires c != [] && c[0] == pool[0] && IsSelection(pool[1..], k - 1, c[1..])
    requires d != [] && d[0] == pool[0] && IsSelection(pool[1..], k - 1, d[1..])
    requires Elements(c) == Elements(d)
    ensures c == d
    decreases |pool|, 0
  {
    var x := pool[0];
    var c', d' := c[1..], d[1..];
    assert c == [x] + c' && d == [x] + d';
    TailDistinct(pool);
    FirstNotInTail(pool, k - 1, c');
    FirstNotInTail(pool, k - 1, d');
    ElementsCons(c);
    ElementsCons(d);
    assert Elements(c') == Elements(c) - {x};
    assert Elements(d') == Elements(d) - {x};
    SameSetSameSelection(pool[1..], k - 1, c', d');
  }

  /** A selection that starts with the first card of the pool continues
      with a selection of one card fewer from the rest of the pool. */
  lemma WithFirstMember(pool: seq<Card>, k: nat, c: seq<Card>)
    requires pool != [] && k > 0
    requires c in Prepend(pool[0], Combinations(pool[1..], k - 1))
    ensures c == [pool[0]] + c[1..] && IsSelection(pool[1..], k - 1, c[1..])
  {
    PrependMember(pool[0], Combinations(pool[1..], k - 1), c);
  }

  /** The cards of a list are its first card and the cards of its tail. */
  lemma ElementsCons(s: seq<Card>)
    requires s != []
    ensures Elements(s) == {s[0]} + Elements(s[1..])
  {
    assert s == [s[0]] + s[1..];
  }

  /** Nothing is left out: every set of `k` cards of the pool is the set of
      cards of some selection. */
  lemma {:induction false} CombinationsComplete(pool: seq<Card>, k: nat, chosen: set<Card>)
    requires chosen <= Elements(pool) && |chosen| == k
    ensures exists c | c in Combinations(pool, k) :: Elements(c) == chosen
    decreases |pool|, 1
  {
    if k == 0 {
      assert chosen == {};
      assert Elements([]) == chosen;
      assert [] in Combinations(pool, k);
    } else {
      var x := pool[0];
      var rest := pool[1..];
      ElementsCons(pool);
      if x in chosen {
        CompleteWithFirst(pool, k, chosen);
      } else {
        CombinationsComplete(rest, k, chosen);
        var d :| d in Combinations(rest, k) && Elements(d) == chosen;
        CombinationsStep(pool, k);
      }
    }
  }

  /** The inductive step of `CombinationsComplete` when the chosen set holds
      the first card of the pool. */
  lemma {:induction false} CompleteWithFirst(pool: seq<Card>, k: nat, chosen: set<Card>)
    requires pool != [] && k > 0 && pool[0] in chosen
    requires chosen <= Elements(pool) && |chosen| == k
    ensures exists c | c in Combinations(pool, k) :: Elements(c) == chosen
    decreases |pool|, 0
  {
    var x := pool[0];
    var rest := pool[1..];
    ElementsCons(pool);
    var fewer := chosen - {x};
    assert |fewer| == k - 1;
    CombinationsComplete(rest, k - 1, fewer);
    var shorter := Combinations(rest, k - 1);
    var d :| d in shorter && Elements(d) == fewer;
    var c := [x] + d;
    ElementsCons(c);
    assert c[1..] == d;
    assert Elements(c) == chosen;
    PrependHas(x, shorter, d);
    CombinationsStep(pool, k);
    assert c in Combinations(pool, k);
  }

  lemma PrependHas(x: Card, cs: seq<seq<Card>>, d: seq<Card>)
    requires d in cs
    ensures [x] + d in Prepend(x, cs)
  {
    var i :| 0 <= i < |cs| && cs[i] == d;
    assert Prepend(x, cs)[i] == [x] + d;
  }

  /** Choosing none from any pool gives the single empty selection. */
  lemma ChooseNone(pool: seq<Card>)
    ensures Combinations(pool, 0) == [[]]
  {
  }

  /** Choosing more cards than the pool holds gives no selection. */
  lemma {:induction false} ChooseTooMany(pool: seq<Card>, k: nat)
    requires k > |pool|
    ensures Combinations(pool, k) == []
    decreases |pool|
  {
    if pool != [] {
      ChooseTooMany(pool[1..], k - 1);
      ChooseTooMany(pool[1..], k);
    }
  }

  // ---------------------------------------------------------------------
  // Ordering of boards: Python's `<` on lists of cards
  // ---------------------------------------------------------------------

  /** Python's `<` on two lists of cards: the `<` of the cards at the first
      position where they are not `==`; when there is none, the shorter list
      is less. Cards compare by rank, so suits never decide. */
  predicate BoardLess(a: seq<Card>, b: seq<Card>) {
    if a == [] || b == [] then |a| < |b|
    else if !CardEq(a[0], b[0]) then CardLess(a[0], b[0])
    else BoardLess(a[1..], b[1..])
  }

  /** Two boards with the same rank at every position. */
  predicate SameRanks(a: seq<Card>, b: seq<Card>) {
    |a| == |b| && forall i | 0 <= i < |a| :: a[i].rank == b[i].rank
  }

  /** The order of two boards depends on their ranks alone. */
  lemma {:induction false} BoardLessOnlyRanks(a: seq<Card>, a': seq<Card>, b: seq<Card>, b': seq<Card>)
    requires SameRanks(a, a') && SameRanks(b, b')
    ensures BoardLess(a, b) == BoardLess(a', b')
    decreases |a|
  {
    if a != [] && b != [] {
      assert SameRanks(a[1..], a'[1..]);
      assert SameRanks(b[1..], b'[1..]);
      BoardLessOnlyRanks(a[1..], a'[1..], b[1..], b'[1..]);
    }
  }

  lemma {:induction false} BoardLessIrreflexive(a: seq<Card>)
    ensures !BoardLess(a, a)
    decreases |a|
  {
    if a != [] {
      BoardLessIrreflexive(a[1..]);
    }
  }

  lemma {:induction false} BoardLessTransitive(a: seq<Card>, b: seq<Card>, c: seq<Card>)
    requires BoardLess(a, b) && BoardLess(b, c)
    ensures BoardLess(a, c)
    decreases |a|
  {
    if a != [] && b != [] && c != [] && CardEq(a[0], b[0]) && CardEq(b[0], c[0]) {
      BoardLessTransitive(a[1..], b[1..], c[1..]);
    }
  }

  /** Of two boards, one is less or they have the same ranks. */
  lemma {:induction false} BoardLessTrichotomy(a: seq<Card>, b: seq<Card>)
    ensures BoardLess(a, b) || BoardLess(b, a) || SameRanks(a, b)
    decreases |a|
  {
    if a != [] && b != [] && CardEq(a[0], b[0]) {
      BoardLessTrichotomy(a[1..], b[1..]);
      if SameRanks(a[1..], b[1..]) {
        forall i | 0 <= i < |a| ensures a[i].rank == b[i].rank {
          if i > 0 {
            assert a[1..][i - 1] == a[i] && b[1..][i - 1] == b[i];
          }
        }
      }
    }
  }

  /** Board `<` is a strict total order on the rank sequences of boards: the
      board less than no other and not less than any has the same ranks. */
  lemma BoardOrderIsStrict(a: seq<Card>, b: seq<Card>, c: seq<Card>)
    ensures !BoardLess(a, a)
    ensures BoardLess(a, b) ==> !BoardLess(b, a)
    ensures BoardLess(a, b) && BoardLess(b, c) ==> BoardLess(a, c)
    ensures !BoardLess(a, b) && !BoardLess(b, a) <==> SameRanks(a, b)
  {
    BoardLessIrreflexive(a);
    if BoardLess(a, b) && BoardLess(b, a) {
      BoardLessTransitive(a, b, a);
    }
    if BoardLess(a, b) && BoardLess(b, c) {
      BoardLessTransitive(a, b, c);
    }
    BoardLessTrichotomy(a, b);
    if SameRanks(a, b) {
      assert SameRanks(a, a);
      BoardLessOnlyRanks(a, a, a, b);
      BoardLessOnlyRanks(a, b, a, a);
    }
  }

  /** "Not less than" is transitive. */
  lemma NotLessTransitive(a: seq<Card>, b: seq<Card>, c: seq<Card>)
    requires !BoardLess(a, b) && !BoardLess(b, c)
    ensures !BoardLess(a, c)
  {
    if BoardLess(a, c) {
      BoardLessTrichotomy(a, b);
      if BoardLess(b, a) {
        BoardLessTransitive(b, a, c);
      } else {
        assert SameRanks(b, a);
        assert SameRanks(c, c);
        BoardLessOnlyRanks(b, a, c, c);
      }
    }
  }

  // ---------------------------------------------------------------------
  // Sorting: `sorted(..., reverse=True)`
  // ---------------------------------------------------------------------

  /** No board is less than a board after it. */
  predicate Descending(s: seq<seq<Card>>) {
    forall i, j | 0 <= i < j < |s| :: !BoardLess(s[i], s[j])
  }

  /** Puts `x` before the first board it is not less than; boards it ties
      with stay behind it. */
  function Insert(x: seq<Card>, s: seq<seq<Card>>): (r: seq<seq<Card>>)
    ensures multiset(r) == multiset(s) + multiset{x}
    ensures Descending(s) ==> Descending(r)
  {
    if s == [] then [x]
    else if !BoardLess(x, s[0]) then
      InsertInFront(x, s);
      [x] + s
    else
      var rest := Insert(x, s[1..]);
      assert s == [s[0]] + s[1..];
      InsertBehind(x, s, rest);
      [s[0]] + rest
  }

  /** A board not less than any board of a descending list can head it. */
  lemma ConsDescending(h: seq<Card>, rest: seq<seq<Card>>)
    requires Descending(rest)
    requires forall e | e in rest :: !BoardLess(h, e)
    ensures Descending([h] + rest)
  {
    var t := [h] + rest;
    forall i, j | 0 <= i < j < |t| ensures !BoardLess(t[i], t[j]) {
      assert t[j] == rest[j - 1];
      if i > 0 {
        assert t[i] == rest[i - 1];
      }
    }
  }

  lemma InsertInFront(x: seq<Card>, s: seq<seq<Card>>)
    requires s != [] && !BoardLess(x, s[0])
    ensures Descending(s) ==> Descending([x] + s)
  {
    if Descending(s) {
      forall e | e in s ensures !BoardLess(x, e) {
        var j :| 0 <= j < |s| && s[j] == e;
        if j > 0 {
          NotLessTransitive(x, s[0], s[j]);
        }
      }
      ConsDescending(x, s);
    }
  }

  lemma InsertBehind(x: seq<Card>, s: seq<seq<Card>>, rest: seq<seq<Card>>)
    requires s != [] && BoardLess(x, s[0])
    requires multiset(rest) == multiset(s[1..]) + multiset{x}
    requires Descending(s[1..]) ==> Descending(rest)
    ensures Descending(s) ==> Descending([s[0]] + rest)
  {
    if Descending(s) {
      assert Descending(s[1..]);
      forall e | e in rest ensures !BoardLess(s[0], e) {
        assert e in multiset(rest);
        if e == x {
          BoardOrderIsStrict(x, s[0], s[0]);
        } else {
          assert e in multiset(s[1..]);
          var j :| 0 <= j < |s[1..]| && s[1..][j] == e;
          assert s[j + 1] == e;
        }
      }
      ConsDescending(s[0], rest);
    }
  }

  /** `sorted(boards, reverse=True)`: the same boards, in descending order;
      a stable insertion sort, so boards that tie keep their order. */
  function SortDescending(boards: seq<seq<Card>>): (r: seq<seq<Card>>)
    ensures multiset(r) == multiset(boards)
    ensures |r| == |boards|
    ensures Descending(r)
  {
    if boards == [] then []
    else
      assert boards == [boards[0]] + boards[1..];
      var r := Insert(boards[0], SortDescending(boards[1..]));
      assert |r| == |multiset(r)|;
      r
  }

  // ---------------------------------------------------------------------
  // generate_boards
  // ---------------------------------------------------------------------

  /** `map(lambda remaining_board: current_board + list(remaining_board), ...)`. */
  function Extend(board: seq<Card>, selections: seq<seq<Card>>): (r: seq<seq<Card>>) {
    seq(|selections|, i requires 0 <= i < |selections| => board + selections[i])
  }

  /** `generate_boards(pocket, current_board)`, over the card universe
      `universe`: every selection of `BoardSize - |board|` remaining cards,
      appended to the board, in descending order. A board of more than
      `BoardSize` cards asks for a selection of negative size, which raises. */
  function GenerateBoards(universe: seq<Card>, pocket: seq<Card>, board: seq<Card>): (r: Result<seq<seq<Card>>>)
    ensures r.Err? <==> |board| > BoardSize
    ensures r.Err? ==> r.error == NegativeSelection
    ensures r.Ok? ==>
      var pool := Remaining(universe, board, pocket);
      && multiset(r.value) == multiset(Extend(board, Combinations(pool, BoardSize - |board|)))
      && |r.value| == Binomial(|pool|, BoardSize - |board|)
      && Descending(r.value)
  {
    if |board| > BoardSize then Err(NegativeSelection)
    else
      var pool := Remaining(universe, board, pocket);
      Ok(SortDescending(Extend(board, Combinations(pool, BoardSize - |board|))))
  }

  /** Every board produced is five cards long, starts with the current board
      unchanged, and adds cards of the remaining pool, neither on the board
      nor in the pocket, and distinct when the universe is. */
  lemma BoardsCompleteTheBoard(universe: seq<Card>, pocket: seq<Card>, board: seq<Card>, b: seq<Card>)
    requires |board| <= BoardSize
    requires b in GenerateBoards(universe, pocket, board).value
    ensures |b| == BoardSize && b[..|board|] == board
    ensures forall x | x in b[|board|..] :: x in universe && x !in board && x !in pocket
    ensures Distinct(universe) ==> Distinct(b[|board|..])
    ensures Distinct(universe) && Distinct(board) ==> Distinct(b)
  {
    var added := ProducedBoardIsExtension(universe, pocket, board, b);
    ExtensionFacts(universe, pocket, board, added);
  }

  /** Each produced board is the current board followed by a selection. */
  lemma ProducedBoardIsExtension(universe: seq<Card>, pocket: seq<Card>, board: seq<Card>, b: seq<Card>)
      returns (added: seq<Card>)
    requires |board| <= BoardSize
    requires b in GenerateBoards(universe, pocket, board).value
    ensures IsSelection(Remaining(universe, board, pocket), BoardSize - |board|, added)
    ensures b == board + added
  {
    var selections := Combinations(Remaining(universe, board, pocket), BoardSize - |board|);
    var extended := Extend(board, selections);
    assert b in multiset(extended);
    var i :| 0 <= i < |extended| && extended[i] == b;
    added := selections[i];
  }

  /** The board followed by a selection of the remaining cards. */
  lemma ExtensionFacts(universe: seq<Card>, pocket: seq<Card>, board: seq<Card>, added: seq<Card>)
    requires |board| <= BoardSize
    requires IsSelection(Remaining(universe, board, pocket), BoardSize - |board|, added)
    ensures |board + added| == BoardSize
    ensures (board + added)[..|board|] == board && (board + added)[|board|..] == added
    ensures forall x | x in added :: x in universe && x !in board && x !in pocket
    ensures Distinct(universe) ==> Distinct(added)
    ensures Distinct(universe) && Distinct(board) ==> Distinct(board + added)
  {
    var pool := Remaining(universe, board, pocket);
    var k := BoardSize - |board|;
    SelectionShape(pool, k, added);
    forall x | x in added ensures x in universe && x !in board && x !in pocket {
      assert x in Elements(pool);
    }
    if Distinct(universe) {
      SelectionDistinct(pool, k, added);
      if Distinct(board) {
        AppendDistinct(board, added);
      }
    }
  }

  /** A list whose elements all occur once. */
  lemma {:induction false} DistinctCounts(s: seq<seq<Card>>)
    ensures Distinct(s) <==> forall x | x in multiset(s) :: multiset(s)[x] == 1
  {
    if s != [] {
      DistinctCounts(s[1..]);
      assert s == [s[0]] + s[1..];
      assert multiset(s) == multiset{s[0]} + multiset(s[1..]);
      if Distinct(s) {
        assert Distinct(s[1..]);
        assert s[0] !in s[1..];
      }
      if forall x | x in multiset(s) :: multiset(s)[x] == 1 {
        assert multiset(s)[s[0]] == 1 + multiset(s[1..])[s[0]];
        assert s[0] !in multiset(s[1..]);
        forall x | x in multiset(s[1..]) ensures multiset(s[1..])[x] == 1 {
          assert x in multiset(s);
        }
        forall i, j | 0 <= i < j < |s| ensures s[i] != s[j] {
          if i == 0 {
            assert s[j] in s[1..];
          } else {
            assert s[1..][i - 1] == s[i] && s[1..][j - 1] == s[j];
          }
        }
      }
    }
  }

  /** Over a distinct universe no board is produced twice. */
  lemma BoardsAreDistinct(universe: seq<Card>, pocket: seq<Card>, board: seq<Card>)
    requires |board| <= BoardSize && Distinct(universe)
    ensures Distinct(GenerateBoards(universe, pocket, board).value)
    ensures forall b1, b2 | b1 in GenerateBoards(universe, pocket, board).value &&
                            b2 in GenerateBoards(universe, pocket, board).value &&
                            Elements(b1) == Elements(b2) :: b1 == b2
  {
    var pool := Remaining(universe, board, pocket);
    var selections := Combinations(pool, BoardSize - |board|);
    var extended := Extend(board, selections);
    CombinationsDistinct(pool, BoardSize - |board|);
    forall i, j | 0 <= i < j < |extended| ensures extended[i] != extended[j] {
      assert extended[i][|board|..] == selections[i];
      assert extended[j][|board|..] == selections[j];
    }
    DistinctCounts(extended);
    DistinctCounts(GenerateBoards(universe, pocket, board).value);
    var r := GenerateBoards(universe, pocket, board).value;
    forall b1, b2 | b1 in r && b2 in r && Elements(b1) == Elements(b2) ensures b1 == b2 {
      SameCardsSameBoard(universe, pocket, board, b1, b2);
    }
  }

  /** Two produced boards holding the same cards are the same board. */
  lemma SameCardsSameBoard(universe: seq<Card>, pocket: seq<Card>, board: seq<Card>, b1: seq<Card>, b2: seq<Card>)
    requires |board| <= BoardSize && Distinct(universe)
    requires b1 in GenerateBoards(universe, pocket, board).value
    requires b2 in GenerateBoards(universe, pocket, board).value
    requires Elements(b1) == Elements(b2)
    ensures b1 == b2
  {
    var added1 := ProducedBoardIsExtension(universe, pocket, board, b1);
    var added2 := ProducedBoardIsExtension(universe, pocket, board, b2);
    ExtensionFacts(universe, pocket, board, added1);
    ExtensionFacts(universe, pocket, board, added2);
    ElementsAppend(board, added1);
    ElementsAppend(board, added2);
    assert Elements(added1) == Elements(b1) - Elements(board);
    assert Elements(added2) == Elements(b2) - Elements(board);
    SameSetSameSelection(Remaining(universe, board, pocket), BoardSize - |board|, added1, added2);
  }

  /** The cards of a concatenation. */
  lemma ElementsAppend(a: seq<Card>, b: seq<Card>)
    ensures Elements(a + b) == Elements(a) + Elements(b)
  {
    forall x | x in a + b ensures x in a || x in b {
      var i :| 0 <= i < |a + b| && (a + b)[i] == x;
      if i >= |a| {
        assert b[i - |a|] == x;
      }
    }
  }

  /** Nothing is dropped: every set of the right number of remaining cards
      completes the board in some produced board. */
  lemma EveryCompletionIsProduced(universe: seq<Card>, pocket: seq<Card>, board: seq<Card>, chosen: set<Card>)
    requires |board| <= BoardSize
    requires |chosen| == BoardSize - |board|
    requires forall c | c in chosen :: c in universe && c !in board && c !in pocket
    ensures exists b | b in GenerateBoards(universe, pocket, board).value ::
              |b| == BoardSize && b[..|board|] == board && Elements(b[|board|..]) == chosen
  {
    var pool := Remaining(universe, board, pocket);
    assert chosen <= Elements(pool);
    var d := SelectionOf(pool, BoardSize - |board|, chosen);
    SelectionIsProduced(universe, pocket, board, d);
    var b := board + d;
    assert b[|board|..] == d && b[..|board|] == board;
    assert b in GenerateBoards(universe, pocket, board).value;
  }

  /** The selection whose cards are a given set of `k` pool cards. */
  lemma SelectionOf(pool: seq<Card>, k: nat, chosen: set<Card>) returns (d: seq<Card>)
    requires chosen <= Elements(pool) && |chosen| == k
    ensures IsSelection(pool, k, d) && Elements(d) == chosen && |d| == k
  {
    CombinationsComplete(pool, k, chosen);
    d :| d in Combinations(pool, k) && Elements(d) == chosen;
    SelectionShape(pool, k, d);
  }

  /** Each selection of the remaining cards, appended to the board, is among
      the boards produced. */
  lemma SelectionIsProduced(universe: seq<Card>, pocket: seq<Card>, board: seq<Card>, d: seq<Card>)
    requires |board| <= BoardSize
    requires IsSelection(Remaining(universe, board, pocket), BoardSize - |board|, d)
    ensures board + d in GenerateBoards(universe, pocket, board).value
  {
    var pool := Remaining(universe, board, pocket);
    var selections := Combinations(pool, BoardSize - |board|);
    ExtendHas(board, selections, d);
    var r := GenerateBoards(universe, pocket, board);
    assert board + d in multiset(r.value);
  }

  lemma ExtendHas(board: seq<Card>, selections: seq<seq<Card>>, d: seq<Card>)
    requires d in selections
    ensures board + d in Extend(board, selections)
  {
    var i :| 0 <= i < |selections| && selections[i] == d;
    assert Extend(board, selections)[i] == board + d;
  }

  /** A complete board yields exactly one board: itself. */
  lemma FullBoardYieldsItself(universe: seq<Card>, pocket: seq<Card>, board: seq<Card>)
    requires |board| == BoardSize
    ensures GenerateBoards(universe, pocket, board) == Ok([board])
  {
    var pool := Remaining(universe, board, pocket);
    assert Combinations(pool, 0) == [[]];
    assert board + [] == board;
    assert Extend(board, [[]]) == [board];
    assert SortDescending([board]) == Insert(board, []);
  }

  /** A board of more than five cards raises. */
  lemma OverfullBoardFails(universe: seq<Card>, pocket: seq<Card>, board: seq<Card>)
    requires |board| > BoardSize
    ensures GenerateBoards(universe, pocket, board) == Err(NegativeSelection)
  {
  }

  /** From a full deck (fifty-two distinct cards, every card present, as
      `Deck` is), a pocket of two distinct cards and an empty board, there are
      C(50, 5) boards: every choice of five of the fifty cards left. */
  lemma FullDeckBoardCount(deck: seq<Card>, pocket: seq<Card>)
    requires |deck| == 52 && Distinct(deck) && forall c: Card :: c in deck
    requires |pocket| == 2 && pocket[0] != pocket[1]
    ensures |Remaining(deck, [], pocket)| == 50
    ensures |GenerateBoards(deck, pocket, []).value| == Binomial(|Remaining(deck, [], pocket)|, BoardSize)
  {
    BoardCount(deck, pocket, []);
  }

  /** With a board and a pocket of distinct cards of a distinct universe, the
      number of boards is the binomial coefficient of the cards left and the
      cards missing from the board. */
  lemma BoardCount(universe: seq<Card>, pocket: seq<Card>, board: seq<Card>)
    requires |board| <= BoardSize
    requires Distinct(universe) && Distinct(board) && Distinct(pocket)
    requires forall c | c in board :: c in universe && c !in pocket
    requires forall c | c in pocket :: c in universe
    ensures |Remaining(universe, board, pocket)| == |universe| - |board| - |pocket|
    ensures |GenerateBoards(universe, pocket, board).value| ==
            Binomial(|universe| - |board| - |pocket|, BoardSize - |board|)
  {
    RemainingSize(universe, board, pocket);
  }
}
