/**
  A model of fluent_python_code/pythonic_card_deck.py: the `Card` pair, the
  52-card `FrenchDeck` with its length and Python-style positional access, the
  `spades_high` sort key, and `sorted(deck, key=spades_high)`.
*/
module CardDeck {
  import opened Wrappers
  import KeySort

  /** `collections.namedtuple("Card", ["rank", "suit"])`: a plain pair of strings. */
  datatype Card = Card(rank: string, suit: string)

  /** The Python exceptions the deck and its sort key can raise. */
  datatype PyError =
    | IndexError  // list index out of range
    | ValueError  // `list.index` of a value that is not in the list
    | KeyError    // dictionary lookup of a missing key

  /**
    `FrenchDeck.ranks`. As written, the class attribute adds a `range` object to a
    list, which raises TypeError in Python 3 (a range cannot be concatenated
    with a list), so the class cannot even be defined. The evident intent,
    modelled here, is the ranks "2" to "10" followed by "J", "Q", "K", "A".
  */
  const Ranks: seq<string> := ["2", "3", "4", "5", "6", "7", "8", "9", "10", "J", "Q", "K", "A"]

  /** `FrenchDeck.suits`, in the declared order. */
  const Suits: seq<string> := ["spades", "diamonds", "clubs", "hearts"]

  /** `suit_values`: the weight of each suit under `spades_high`. */
  const SuitValues: map<string, nat> := map["spades" := 3, "hearts" := 2, "diamonds" := 1, "clubs" := 0]

  /** The suit names listed by their weight in `SuitValues` (the inverse of that map). */
  const SuitsByValue: seq<string> := ["clubs", "diamonds", "hearts", "spades"]

  /** A deck: the list `_cards` that `__init__` builds and nothing ever mutates. */
  datatype FrenchDeck = FrenchDeck(cards: seq<Card>)

  predicate Distinct<T(==)>(s: seq<T>) {
    forall i, j :: 0 <= i < j < |s| ==> s[i] != s[j]
  }

  // ---------------------------------------------------------------------------
  // Construction: one card per suit and rank, suits in the outer loop
  // ---------------------------------------------------------------------------

  /** The concatenation of a list of lists, in order. */
  function Flatten<T>(rows: seq<seq<T>>): seq<T> {
    if rows == [] then [] else rows[0] + Flatten(rows[1..])
  }

  predicate Uniform<T>(rows: seq<seq<T>>, n: nat) {
    forall s :: 0 <= s < |rows| ==> |rows[s]| == n
  }

  /** Flattening `|rows|` rows of `n` elements each gives `|rows| * n` elements. */
  lemma {:induction false} FlattenLength<T>(rows: seq<seq<T>>, n: nat)
    requires Uniform(rows, n)
    ensures |Flatten(rows)| == |rows| * n
  {
    if rows != [] {
      FlattenLength(rows[1..], n);
      MulPred(n, |rows|);
    }
  }

  /** Element `r` of row `s` lands at index `n * s + r` of the flattened list. */
  lemma {:induction false} FlattenAt<T>(rows: seq<seq<T>>, n: nat, s: nat, r: nat)
    requires Uniform(rows, n) && s < |rows| && r < n
    ensures n * s + r < |Flatten(rows)| && Flatten(rows)[n * s + r] == rows[s][r]
  {
    var head, rest := rows[0], Flatten(rows[1..]);
    assert Flatten(rows) == head + rest;
    FlattenLength(rows, n);
    if s == 0 {
      assert n * s == 0;
      assert (head + rest)[r] == head[r];
    } else {
      FlattenAt(rows[1..], n, s - 1, r);
      var k := n * (s - 1) + r;
      MulPred(n, s);
      assert n * s + r == n + k;
      assert (head + rest)[n + k] == rest[k];
    }
  }

  lemma MulPred(n: int, s: int)
    ensures n * s == n + n * (s - 1)
    ensures s * n == n * s
  {
  }

  /** The inner loop of the comprehension: one card per rank, all of suit `suit`. */
  function SuitRow(suit: string): seq<Card> {
    seq(|Ranks|, r requires 0 <= r < |Ranks| => Card(Ranks[r], suit))
  }

  /**
    `FrenchDeck()`: the list comprehension of `__init__`, one card for every
    suit and rank, with the suits in the outer loop and the ranks in the inner one.
  */
  function NewDeck(): (d: FrenchDeck)
    ensures |d.cards| == |Ranks| * |Suits|
  {
    var rows := seq(|Suits|, s requires 0 <= s < |Suits| => SuitRow(Suits[s]));
    FlattenLength(rows, |Ranks|);
    FrenchDeck(Flatten(rows))
  }

  /** Closed form of the new deck: suit-major, rank-minor. */
  lemma DeckCardAt(i: nat)
    requires i < 52
    ensures NewDeck().cards[i] == Card(Ranks[i % 13], Suits[i / 13])
  {
    var rows := seq(|Suits|, s requires 0 <= s < |Suits| => SuitRow(Suits[s]));
    assert NewDeck().cards == Flatten(rows);
    FlattenAt(rows, 13, i / 13, i % 13);
  }

  /** `len(deck)`. */
  function Len(d: FrenchDeck): nat {
    |d.cards|
  }

  /** The deck holds `len(ranks) * len(suits)` cards. */
  lemma LenNewDeck()
    ensures Len(NewDeck()) == |Ranks| * |Suits| == 52
  {
  }

  lemma RanksDistinct()
    ensures Distinct(Ranks)
  {
  }

  lemma SuitsDistinct()
    ensures Distinct(Suits)
  {
  }

  lemma DistinctAt<T>(s: seq<T>, a: nat, b: nat)
    requires Distinct(s) && a < |s| && b < |s| && a != b
    ensures s[a] != s[b]
  {
    if b < a {
      assert s[b] != s[a];
    }
  }

  /** No card occurs twice in the deck. */
  lemma DeckDistinct()
    ensures Distinct(NewDeck().cards)
  {
    var cards := NewDeck().cards;
    forall i, j | 0 <= i < j < |cards| ensures cards[i] != cards[j] {
      DeckCardAt(i);
      DeckCardAt(j);
      if i % 13 == j % 13 {
        SuitsDistinct();
        DistinctAt(Suits, i / 13, j / 13);
      } else {
        RanksDistinct();
        DistinctAt(Ranks, i % 13, j % 13);
      }
    }
  }

  // ---------------------------------------------------------------------------
  // Positional access and iteration
  // ---------------------------------------------------------------------------

  /**
    `deck[position]`, delegated to the list: non-negative positions count from
    the front, negative ones from the end, anything else raises IndexError.
  */
  function GetItem(d: FrenchDeck, position: int): (r: Result<Card, PyError>)
    ensures r.Ok? <==> -|d.cards| <= position < |d.cards|
    ensures r.Err? ==> r.error == IndexError
    ensures r.Ok? ==> r.value in d.cards
    ensures 0 <= position ==> r == if position < |d.cards| then Ok(d.cards[position]) else Err(IndexError)
  {
    if 0 <= position < |d.cards| then Ok(d.cards[position])
    else if -|d.cards| <= position < 0 then Ok(d.cards[|d.cards| + position])
    else Err(IndexError)
  }

  /** A negative position reads the same card as that position plus the length. */
  lemma GetItemFromEnd(d: FrenchDeck, position: int)
    requires position < 0
    ensures GetItem(d, position) == if -|d.cards| <= position then GetItem(d, position + |d.cards|) else Err(IndexError)
  {
  }

  /** Every position of the new deck, in closed form, errors included. */
  lemma GetItemNewDeck(position: int)
    ensures GetItem(NewDeck(), position) ==
      if -52 <= position < 52 then Ok(Card(Ranks[position % 52 % 13], Suits[position % 52 / 13]))
      else Err(IndexError)
  {
    if -52 <= position < 52 {
      var i := position % 52;
      assert i == if position < 0 then 52 + position else position;
      DeckCardAt(i);
    }
  }

  /** `deck[0]`, `deck[-1]` and the first positions out of range on either side. */
  lemma GetItemExamples()
    ensures GetItem(NewDeck(), 0) == Ok(Card("2", "spades"))
    ensures GetItem(NewDeck(), -1) == Ok(Card("A", "hearts"))
    ensures GetItem(NewDeck(), 52) == Err(IndexError)
    ensures GetItem(NewDeck(), -53) == Err(IndexError)
  {
    GetItemNewDeck(0);
    GetItemNewDeck(-1);
  }

  /**
    Iteration over the deck from index `i`. `FrenchDeck` has no `__iter__`, so
    Python iterates it by calling `__getitem__` with 0, 1, 2, ... until the
    first IndexError.
  */
  function IterFrom(d: FrenchDeck, i: nat): (r: seq<Card>)
    ensures i <= |d.cards| ==> r == d.cards[i..]
    ensures i > |d.cards| ==> r == []
    decreases |d.cards| - i
  {
    match GetItem(d, i)
    case Err(_) => []
    case Ok(c) => [c] + IterFrom(d, i + 1)
  }

  /** `iter(deck)`: all cards in storage order. */
  function Iterate(d: FrenchDeck): (r: seq<Card>)
    ensures r == d.cards
  {
    IterFrom(d, 0)
  }

  // ---------------------------------------------------------------------------
  // The sort key `spades_high`
  // ---------------------------------------------------------------------------

  /** `list.index`: the first position holding `x`, or nothing (ValueError) when absent. */
  function IndexOf<T(==)>(s: seq<T>, x: T): (r: Option<nat>)
    ensures r.None? <==> x !in s
    ensures r.Some? ==> r.value < |s| && s[r.value] == x && forall j :: 0 <= j < r.value ==> s[j] != x
  {
    if s == [] then None
    else if s[0] == x then Some(0)
    else match IndexOf(s[1..], x)
      case None => None
      case Some(i) => Some(i + 1)
  }

  /** In a list without repeats, the index of the element at `i` is `i`. */
  lemma IndexOfDistinct<T>(s: seq<T>, i: nat)
    requires Distinct(s) && i < |s|
    ensures IndexOf(s, s[i]) == Some(i)
  {
    var r := IndexOf(s, s[i]);
    if r.value != i {
      DistinctAt(s, r.value, i);
    }
  }

  /**
    `len(suit_values)` is 4. `SpadesHigh` writes the multiplier as the literal 4,
    which keeps its arithmetic linear for the verifier.
  */
  lemma SuitValuesLen()
    ensures |SuitValues| == 4
  {
    assert SuitValues.Keys == {"spades", "hearts", "diamonds", "clubs"};
  }

  /** Every weight is below 4, and `SuitsByValue` undoes `SuitValues`. */
  lemma SuitWeights(suit: string)
    requires suit in SuitValues
    ensures SuitValues[suit] < 4 && SuitsByValue[SuitValues[suit]] == suit
  {
  }

  /**
    `spades_high(card)`: the position of the rank in `ranks`, times the number of
    suit weights, plus the weight of the suit; the number of weights is written
    as 4 (`SuitValuesLen`). The rank is looked up first, so an unknown rank raises ValueError whatever the suit.
  */
  function SpadesHigh(c: Card): Result<nat, PyError> {
    match IndexOf(Ranks, c.rank)
    case None => Err(ValueError)
    case Some(rankValue) =>
      if c.suit in SuitValues then Ok(rankValue * 4 + SuitValues[c.suit]) else Err(KeyError)
  }

  /** The card with key `k`: rank `k / 4`, suit of weight `k % 4`. */
  function CardOfKey(k: nat): Card
    requires k < 52
  {
    Card(Ranks[k / 4], SuitsByValue[k % 4])
  }

  /**
    `spades_high` succeeds exactly on cards of a known rank and suit, raising
    ValueError for an unknown rank (even when the suit is unknown too) and
    KeyError for an unknown suit.
  */
  lemma SpadesHighErrors(c: Card)
    ensures SpadesHigh(c).Ok? <==> c.rank in Ranks && c.suit in SuitValues
    ensures c.rank !in Ranks ==> SpadesHigh(c) == Err(ValueError)
    ensures c.rank in Ranks && c.suit !in SuitValues ==> SpadesHigh(c) == Err(KeyError)
  {
  }

  /** A key below 52 that decodes back to its card: `CardOfKey` inverts `spades_high`. */
  lemma SpadesHighDecode(c: Card)
    requires SpadesHigh(c).Ok?
    ensures SpadesHigh(c).value < 52 && CardOfKey(SpadesHigh(c).value) == c
  {
    var rankValue := IndexOf(Ranks, c.rank).value;
    SuitWeights(c.suit);
    var key := rankValue * 4 + SuitValues[c.suit];
    assert key / 4 == rankValue && key % 4 == SuitValues[c.suit];
  }

  /** `spades_high` tells different cards apart: a key determines its card. */
  lemma SpadesHighInjective(c1: Card, c2: Card)
    requires SpadesHigh(c1).Ok? && SpadesHigh(c1) == SpadesHigh(c2)
    ensures c1 == c2
  {
    SpadesHighDecode(c1);
    SpadesHighDecode(c2);
  }

  /** The index of the rank at position `i` of `Ranks` is `i`. */
  lemma RankIndexOf(i: nat)
    requires i < |Ranks|
    ensures IndexOf(Ranks, Ranks[i]) == Some(i)
  {
    RanksDistinct();
    IndexOfDistinct(Ranks, i);
  }

  /** The key of a card with a known rank and suit, in closed form. */
  lemma SpadesHighOf(rankIndex: nat, suit: string)
    requires rankIndex < |Ranks| && suit in SuitValues
    ensures SpadesHigh(Card(Ranks[rankIndex], suit)).Ok?
    ensures SpadesHigh(Card(Ranks[rankIndex], suit)).value == 4 * rankIndex + SuitValues[suit]
  {
    RankIndexOf(rankIndex);
  }

  /** `suit_values[suits[s]]` for each index `s` of `Suits`. */
  const SuitWeightAt: seq<nat> := [3, 1, 0, 2]

  lemma SuitsHaveValues(s: nat)
    requires s < |Suits|
    ensures Suits[s] in SuitValues && SuitValues[Suits[s]] == SuitWeightAt[s]
  {
  }

  /** The key of the card at index `i` of the new deck. */
  lemma DeckSpadesHigh(i: nat)
    requires i < 52
    ensures SpadesHigh(NewDeck().cards[i]).Ok?
    ensures SpadesHigh(NewDeck().cards[i]).value == 4 * (i % 13) + SuitWeightAt[i / 13]
  {
    DeckCardAt(i);
    SuitsHaveValues(i / 13);
    SpadesHighOf(i % 13, Suits[i / 13]);
  }

  /** Every key below 52 is the key of a card of the new deck, namely `CardOfKey(k)`. */
  lemma CardOfKeyInDeck(k: nat)
    requires k < 52
    ensures CardOfKey(k) in NewDeck().cards
    ensures SpadesHigh(CardOfKey(k)).Ok? && SpadesHigh(CardOfKey(k)).value == k
  {
    var v := k % 4;
    var s := if v == 0 then 2 else if v == 1 then 1 else if v == 2 then 3 else 0;
    assert Suits[s] == SuitsByValue[v];
    var i := 13 * s + k / 4;
    DeckCardAt(i);
    assert NewDeck().cards[i] == CardOfKey(k);
    DeckSpadesHigh(i);
  }

  /**
    `spades_high` is a bijection from the new deck onto `[0, 52)`: every card has a
    key below 52, no two cards share a key, and every such key `k` is taken, by
    `CardOfKey(k)`.
  */
  lemma SpadesHighBijection()
    ensures forall c :: c in NewDeck().cards ==> SpadesHigh(c).Ok? && SpadesHigh(c).value < 52
    ensures forall c1, c2 :: c1 in NewDeck().cards && c2 in NewDeck().cards && SpadesHigh(c1) == SpadesHigh(c2) ==> c1 == c2
    ensures forall k :: 0 <= k < 52 ==> CardOfKey(k) in NewDeck().cards && SpadesHigh(CardOfKey(k)).Ok? && SpadesHigh(CardOfKey(k)).value == k
  {
    var cards := NewDeck().cards;
    forall c | c in cards ensures SpadesHigh(c).Ok? && SpadesHigh(c).value < 52 {
      var i :| 0 <= i < |cards| && cards[i] == c;
      DeckSpadesHigh(i);
      SpadesHighDecode(c);
    }
    forall c1, c2 | c1 in cards && c2 in cards && SpadesHigh(c1) == SpadesHigh(c2) ensures c1 == c2 {
      SpadesHighInjective(c1, c2);
    }
    forall k | 0 <= k < 52 ensures CardOfKey(k) in cards && SpadesHigh(CardOfKey(k)).Ok? && SpadesHigh(CardOfKey(k)).value == k {
      CardOfKeyInDeck(k);
    }
  }

  /** The lowest and the highest card under `spades_high`. */
  lemma SpadesHighExtremes()
    ensures SpadesHigh(Card("2", "clubs")).Ok? && SpadesHigh(Card("2", "clubs")).value == 0
    ensures SpadesHigh(Card("A", "spades")).Ok? && SpadesHigh(Card("A", "spades")).value == 51
  {
    SpadesHighOf(0, "clubs");
    SpadesHighOf(12, "spades");
  }

  // ---------------------------------------------------------------------------
  // `sorted(deck, key=spades_high)`
  // ---------------------------------------------------------------------------

  /**
    The key `sorted` compares: the value of `spades_high`. It is consulted only
    once every card's key has been computed without error; -1 stands in for a
    failure and is never compared.
  */
  function Key(c: Card): (r: int)
    ensures r >= 0 <==> SpadesHigh(c).Ok?
    ensures SpadesHigh(c).Ok? ==> r == SpadesHigh(c).value
  {
    match SpadesHigh(c)
    case Ok(k) => k
    case Err(_) => -1
  }

  /**
    `sorted(deck, key=spades_high)`: iterates the deck, computes every key (the
    first failure is raised), then returns the cards in a stable order of
    non-decreasing key. The deck itself is a value and is left as it was.
  */
  function SortedBySpadesHigh(d: FrenchDeck): (r: Result<seq<Card>, PyError>)
    ensures r.Ok? <==> forall c :: c in d.cards ==> SpadesHigh(c).Ok?
    ensures r.Ok? ==> multiset(r.value) == multiset(d.cards) && KeySort.SortedBy(r.value, Key)
    ensures r.Ok? ==> forall v :: KeySort.WithKey(r.value, Key, v) == KeySort.WithKey(d.cards, Key, v)
    ensures r.Err? ==> exists i :: 0 <= i < |d.cards| && SpadesHigh(d.cards[i]) == Err(r.error)
                                 && forall j :: 0 <= j < i ==> SpadesHigh(d.cards[j]).Ok?
  {
    var cards := Iterate(d);
    match KeySort.MapResults(cards, SpadesHigh)
    case Err(e) => Err(e)
    case Ok(_) =>
      KeySort.InsertionSortStable(cards, Key);
      Ok(KeySort.InsertionSort(cards, Key))
  }

  /** The deck in `spades_high` order: the card with key `k` at index `k`. */
  function SpadesHighOrder(): (r: seq<Card>)
    ensures |r| == 52
  {
    seq(52, k requires 0 <= k < 52 => CardOfKey(k))
  }

  /** `SpadesHighBijection` restated for `Key`. */
  lemma KeyOnDeck()
    ensures forall c :: c in NewDeck().cards ==> 0 <= Key(c) < 52
    ensures forall c1, c2 :: c1 in NewDeck().cards && c2 in NewDeck().cards && Key(c1) == Key(c2) ==> c1 == c2
    ensures forall k :: 0 <= k < 52 ==> CardOfKey(k) in NewDeck().cards && Key(CardOfKey(k)) == k
  {
    SpadesHighBijection();
  }

  /** A sequence with a repeated element holds that element at least twice. */
  lemma RepeatCount<T>(s: seq<T>, i: nat, j: nat)
    requires i < j < |s| && s[i] == s[j]
    ensures multiset(s)[s[i]] >= 2
  {
    assert s == s[..j] + s[j..];
    assert s[i] in s[..j];
    assert s[j] in s[j..];
  }

  /** A sequence without repeats holds each element at most once. */
  lemma {:induction false} DistinctCount<T>(s: seq<T>, x: T)
    requires Distinct(s)
    ensures multiset(s)[x] <= 1
  {
    if s != [] {
      assert s == [s[0]] + s[1..];
      assert Distinct(s[1..]) by {
        forall i, j | 0 <= i < j < |s[1..]| ensures s[1..][i] != s[1..][j] {
          assert s[1..][i] == s[i + 1] && s[1..][j] == s[j + 1];
        }
      }
      DistinctCount(s[1..], x);
      if s[0] == x {
        assert x !in s[1..];
      }
    }
  }

  /** A permutation of a sequence without repeats has no repeats. */
  lemma PermutationDistinct<T>(s: seq<T>, r: seq<T>)
    requires Distinct(s) && multiset(r) == multiset(s)
    ensures Distinct(r)
  {
    forall i, j | 0 <= i < j < |r| ensures r[i] != r[j] {
      if r[i] == r[j] {
        RepeatCount(r, i, j);
        DistinctCount(s, r[i]);
      }
    }
  }

  /**
    A sort by `spades_high` is fully determined: every permutation of the deck
    whose keys never decrease is `SpadesHighOrder()`, and its keys are exactly
    0, 1, ..., 51.
  */
  lemma SortDetermined(r: seq<Card>)
    requires multiset(r) == multiset(NewDeck().cards)
    requires KeySort.SortedBy(r, Key)
    ensures r == SpadesHighOrder()
    ensures forall k :: 0 <= k < |r| ==> Key(r[k]) == k
  {
    var cards := NewDeck().cards;
    assert |r| == 52 by {
      assert |multiset(r)| == |r| && |multiset(cards)| == |cards|;
    }
    DeckDistinct();
    PermutationDistinct(cards, r);
    KeyOnDeck();
    forall x | x in r ensures x in cards {
      assert x in multiset(r);
    }
    forall a, b | 0 <= a < b < |r| ensures Key(r[a]) != Key(r[b]) {
      assert r[a] in cards && r[b] in cards && r[a] != r[b];
    }
    KeySort.KeysAreIndices(r, Key);
    forall k | 0 <= k < |r| ensures r[k] == SpadesHighOrder()[k] {
      assert SpadesHighOrder()[k] == CardOfKey(k);
      assert r[k] in cards && CardOfKey(k) in cards && Key(r[k]) == Key(CardOfKey(k));
    }
  }

  /**
    Sorting the new deck by `spades_high` succeeds and yields `SpadesHighOrder()`.
  */
  lemma SortedNewDeck()
    ensures SortedBySpadesHigh(NewDeck()).Ok?
    ensures SortedBySpadesHigh(NewDeck()).value == SpadesHighOrder()
  {
    SpadesHighBijection();
    SortDetermined(SortedBySpadesHigh(NewDeck()).value);
  }

  /**
    `SpadesHighOrder()` runs from the 2 of clubs to the ace of spades with
    strictly increasing keys.
  */
  lemma SpadesHighOrderKeys()
    ensures forall a, b :: 0 <= a < b < 52 ==> Key(SpadesHighOrder()[a]) < Key(SpadesHighOrder()[b])
    ensures SpadesHighOrder()[0] == Card("2", "clubs") && SpadesHighOrder()[51] == Card("A", "spades")
  {
    KeyOnDeck();
    forall k | 0 <= k < 52 ensures Key(SpadesHighOrder()[k]) == k {
      assert SpadesHighOrder()[k] == CardOfKey(k);
    }
  }
}
