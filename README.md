# French deck and two-dimensional vector

This project models two small Python modules from the first chapter of
*Fluent Python*:

- `fluent_python_code/pythonic_card_deck.py`. This module defines a `Card` value (a rank and a suit). It also defines a
  `FrenchDeck` of 52 cards, built suit by suit with one card for each rank. The deck supports
  `len(deck)`, `deck[position]` (Python indexing, negative positions included)
  and iteration. The module also defines a ranking function `spades_high` and sorts the deck
  by it.
- `fluent_python_code/vector.py`. This module defines a plane `Vector` with default
  coordinates 0, addition, multiplication by a scalar on the right, its length
  `abs(v)` and its truth value `bool(v)`.

The model is purely functional, because the source is too. Nothing in either module updates
an object after construction: `__init__` only builds the list of cards, and
`__add__` and `__mul__` return new vectors. So `Card`, `FrenchDeck` and
`Vector` are datatypes, and every operation is a function. Python's exceptions
become the `Err` side of a `Result`: `IndexError` from a position out of
range, `ValueError` from `list.index` on an unknown rank, `KeyError` from
`suit_values` on an unknown suit.

Dafny files:

- `Wrappers.dfy`: `Option` and `Result`.
- `KeySort.dfy`: `sorted(xs, key=f)`. Keys are computed first, left to right, and the first failing key
  stops the sort. The sort itself is stable (`InsertionSortStable`). The module includes generic facts about sequences sorted by a key.
- `CardDeck.dfy`: the deck, `spades_high` and the sorted deck.
- `Vector2D.dfy`: the vector, with Python floats modelled as exact reals.

The rank list on line 18 of `pythonic_card_deck.py` adds a `range` to a list.
That raises TypeError in Python 3, so the class cannot be defined as written.
The rest of the module, and its docstring, evidently mean the ranks "2" to
"10" followed by "J", "Q", "K", "A". This is what `CardDeck.Ranks` holds.

## Model

| member | source | states |
|---|---|---|
| CardDeck.NewDeck | fluent_python_code/pythonic_card_deck.py:18-23 | a new deck holds one card per rank and suit, `len(ranks) * len(suits)` of them |
| CardDeck.DeckCardAt | fluent_python_code/pythonic_card_deck.py:21-23 | suits in the outer loop: the card at index `i` has rank `ranks[i % 13]` and suit `suits[i / 13]` |
| CardDeck.Len | fluent_python_code/pythonic_card_deck.py:25-31 | `len(deck)`, the number of cards; no ensures of its own: `LenNewDeck` states its value on a new deck |
| CardDeck.LenNewDeck | fluent_python_code/pythonic_card_deck.py:25-31 | `len(FrenchDeck())` is 13 ranks times 4 suits, i.e. 52 |
| CardDeck.RanksDistinct | fluent_python_code/pythonic_card_deck.py:18 | no rank is listed twice |
| CardDeck.SuitsDistinct | fluent_python_code/pythonic_card_deck.py:19 | no suit is listed twice |
| CardDeck.DeckDistinct | fluent_python_code/pythonic_card_deck.py:21-23 | no card occurs twice in a new deck |
| CardDeck.GetItem | fluent_python_code/pythonic_card_deck.py:33-42 | `deck[position]` succeeds exactly for `-len <= position < len`; otherwise it raises IndexError; a result is a card of the deck; a non-negative position reads that index |
| CardDeck.GetItemFromEnd | fluent_python_code/pythonic_card_deck.py:42 | a negative position in range reads the same card as that position plus the length; below `-len` it raises IndexError |
| CardDeck.GetItemNewDeck | fluent_python_code/pythonic_card_deck.py:21-42 | every position of a new deck in closed form, IndexError outside `[-52, 52)` |
| CardDeck.GetItemExamples | fluent_python_code/pythonic_card_deck.py:42 | `deck[0]` is the 2 of spades, `deck[-1]` the ace of hearts, and `deck[52]` and `deck[-53]` raise IndexError |
| CardDeck.IterFrom | fluent_python_code/pythonic_card_deck.py:33-42 | iterating through `__getitem__` from index `i` yields the cards from `i` on and stops at the first IndexError |
| CardDeck.Iterate | fluent_python_code/pythonic_card_deck.py:33-42 | `iter(deck)` yields every card in storage order |
| CardDeck.IndexOf | fluent_python_code/pythonic_card_deck.py:60 | `list.index` finds nothing (ValueError) exactly when the value is absent; otherwise it returns the first position holding the value |
| CardDeck.IndexOfDistinct | fluent_python_code/pythonic_card_deck.py:60 | in a list without repeats, the index of the element at `i` is `i` |
| CardDeck.SuitValuesLen | fluent_python_code/pythonic_card_deck.py:47 | `len(suit_values)` is 4 |
| CardDeck.SuitWeights | fluent_python_code/pythonic_card_deck.py:47 | every suit weight is below 4 and decodes back to its suit, so different suits have different weights |
| CardDeck.SpadesHigh | fluent_python_code/pythonic_card_deck.py:50-61 | `spades_high(card)`; no ensures of its own: its contract is stated by `SpadesHighErrors` (the error cases), `SpadesHighOf` (the formula), `SpadesHighDecode` and `SpadesHighInjective` (a key below 52 that determines its card) and `SpadesHighBijection` (a bijection from the deck onto `[0, 52)`) |
| CardDeck.CardOfKey | fluent_python_code/pythonic_card_deck.py:50-61 | the inverse of `spades_high`; no ensures of its own: `SpadesHighDecode` states that it recovers every card from its key, and `CardOfKeyInDeck` that every key below 52 is the key of the card it gives |
| CardDeck.SpadesHighErrors | fluent_python_code/pythonic_card_deck.py:60-61 | `spades_high` succeeds exactly for a known rank and a known suit; an unknown rank raises ValueError first; a known rank with an unknown suit raises KeyError |
| CardDeck.SpadesHighDecode | fluent_python_code/pythonic_card_deck.py:60-61 | every key is below 52, and the card is recovered from its key (rank `k / 4`, suit of weight `k % 4`) |
| CardDeck.SpadesHighInjective | fluent_python_code/pythonic_card_deck.py:60-61 | different cards never share a key |
| CardDeck.RankIndexOf | fluent_python_code/pythonic_card_deck.py:60 | `ranks.index(ranks[i]) == i` |
| CardDeck.SpadesHighOf | fluent_python_code/pythonic_card_deck.py:60-61 | the key of a card of rank index `r` is `4 * r` plus the weight of its suit |
| CardDeck.SuitsHaveValues | fluent_python_code/pythonic_card_deck.py:47 | every suit of the deck has a weight in `suit_values` |
| CardDeck.DeckSpadesHigh | fluent_python_code/pythonic_card_deck.py:21-61 | the key of the card at index `i` of a new deck, in closed form |
| CardDeck.CardOfKeyInDeck | fluent_python_code/pythonic_card_deck.py:21-61 | every key below 52 belongs to a card of the new deck |
| CardDeck.SpadesHighBijection | fluent_python_code/pythonic_card_deck.py:47-61 | on the new deck, `spades_high` maps onto `[0, 52)` and is one-to-one, so it is a bijection |
| CardDeck.SpadesHighExtremes | fluent_python_code/pythonic_card_deck.py:47-61 | the 2 of clubs has the lowest key, 0; the ace of spades has the highest, 51 |
| CardDeck.Key | fluent_python_code/pythonic_card_deck.py:67 | the comparison key of `sorted`: non-negative exactly when `spades_high` succeeds, and then equal to its value |
| CardDeck.SortedBySpadesHigh | fluent_python_code/pythonic_card_deck.py:64-67 | `sorted(deck, key=spades_high)` succeeds exactly when every card has a key; then it is a permutation of the deck in non-decreasing key order, and for every key the cards with that key keep their order in the deck (stability); otherwise it raises the error of the first card whose key fails |
| CardDeck.SpadesHighOrder | fluent_python_code/pythonic_card_deck.py:64-67 | the order the sort should produce: 52 cards, the card with key `k` at index `k` |
| CardDeck.KeyOnDeck | fluent_python_code/pythonic_card_deck.py:47-61 | the sort key takes values in `[0, 52)` on the deck, is one-to-one there, and takes every value |
| CardDeck.PermutationDistinct | fluent_python_code/pythonic_card_deck.py:67 | a permutation of a list without repeats has no repeats |
| CardDeck.SortDetermined | fluent_python_code/pythonic_card_deck.py:64-67 | any permutation of the deck sorted by the key is exactly `SpadesHighOrder`, with the card of key `k` at index `k` |
| CardDeck.SortedNewDeck | fluent_python_code/pythonic_card_deck.py:64-67 | sorting the new deck succeeds and gives `SpadesHighOrder` |
| CardDeck.SpadesHighOrderKeys | fluent_python_code/pythonic_card_deck.py:64-67 | in the sorted deck the keys strictly increase; it starts with the 2 of clubs and ends with the ace of spades |
| KeySort.MapResults | fluent_python_code/pythonic_card_deck.py:67 | computing the keys left to right succeeds exactly when every key succeeds, and then yields each key in order; otherwise it yields the error of the first key that fails |
| KeySort.Insert | fluent_python_code/pythonic_card_deck.py:67 | inserting into a list sorted by key keeps it sorted and adds exactly one occurrence of the element |
| KeySort.InsertionSort | fluent_python_code/pythonic_card_deck.py:67 | the result is a permutation of the input, sorted by key |
| KeySort.InsertWithKey | fluent_python_code/pythonic_card_deck.py:67 | among the elements with any one key, `Insert` places the new element first and keeps the others in their order |
| KeySort.InsertionSortStable | fluent_python_code/pythonic_card_deck.py:67 | the sort is stable: for every key, the elements with that key appear in the result in the same order as in the input |
| KeySort.StrictGap | fluent_python_code/pythonic_card_deck.py:67 | with strictly increasing integer keys, keys `j - i` places apart differ by at least `j - i` |
| KeySort.KeysAreIndices | fluent_python_code/pythonic_card_deck.py:67 | a list sorted by pairwise different keys lying in `[0, len)` has the key `k` at index `k` |
| Vector2D.VectorDefaults | fluent_python_code/vector.py:10-18 | `Vector()` is the origin, and a coordinate left out defaults to 0 |
| Vector2D.Add | fluent_python_code/vector.py:46-58 | `a + b`, coordinate by coordinate; no ensures of its own: `AddIdentity`, `AddCommutes`, `AddAssociates`, `AddInverse` and `TriangleInequality` state its laws |
| Vector2D.Mul | fluent_python_code/vector.py:60-70 | `v * scalar`, coordinate by coordinate; no ensures of its own: `MulUnitZero`, `MulCompose`, `MulDistributes`, `MagnitudeScales` and `BoolMul` state its laws |
| Vector2D.IsMagnitude | fluent_python_code/vector.py:28-34 | `abs(v) == m`, as a relation on exact reals; no ensures of its own: `MagnitudeUnique` (at most one length), `MagnitudePositiveIff` (positive exactly away from the origin) and `MagnitudeExample` state its contract |
| Vector2D.Bool | fluent_python_code/vector.py:36-44 | `bool(v)` holds exactly when the length `abs(v)` is positive |
| Vector2D.MagnitudeUnique | fluent_python_code/vector.py:28-34 | a vector has at most one length |
| Vector2D.MagnitudePositive | fluent_python_code/vector.py:28-34 | away from the origin the length is positive |
| Vector2D.MagnitudePositiveIff | fluent_python_code/vector.py:28-44 | the length is positive exactly away from the origin, and 0 at it |
| Vector2D.MagnitudeExample | fluent_python_code/vector.py:28-34 | `abs(Vector(3, 4))` is 5, and 5 is its only length |
| Vector2D.MagnitudeScales | fluent_python_code/vector.py:28-70 | `abs(v * k) == abs(k) * abs(v)` |
| Vector2D.DotBound | fluent_python_code/vector.py:28-34 | a fact about lengths, the helper behind `TriangleInequality` (the source has no dot product): `a.x * b.x + a.y * b.y` is at most the product of the lengths of `a` and `b` |
| Vector2D.TriangleInequality | fluent_python_code/vector.py:28-58 | `abs(a + b) <= abs(a) + abs(b)` |
| Vector2D.AddIdentity | fluent_python_code/vector.py:10-58 | `Vector()`, the default, is neutral for `+` on either side |
| Vector2D.AddCommutes | fluent_python_code/vector.py:46-58 | `a + b == b + a` |
| Vector2D.AddAssociates | fluent_python_code/vector.py:46-58 | `(a + b) + c == a + (b + c)` |
| Vector2D.AddInverse | fluent_python_code/vector.py:46-70 | `v + v * -1` is the origin |
| Vector2D.MulUnitZero | fluent_python_code/vector.py:60-70 | `v * 1 == v` and `v * 0` is the origin |
| Vector2D.MulCompose | fluent_python_code/vector.py:60-70 | `(v * a) * b == v * (a * b)` |
| Vector2D.MulDistributes | fluent_python_code/vector.py:46-70 | scaling distributes over vector addition and over scalar addition |
| Vector2D.BoolMul | fluent_python_code/vector.py:36-70 | `bool(v * k)` holds exactly when `k != 0` and `bool(v)` |

## Left out

- Line 18 of `pythonic_card_deck.py`, as written, raises TypeError when the class is defined. The model uses the intended list of thirteen ranks instead.
- Line 46 of `vector.py` annotates a parameter with the class `Vector` inside its own body. Without postponed annotations, Python looks that name up before the class exists and raises NameError. The model treats the annotation as the intended parameter type.
- Vector2D.IsMagnitude: `abs(v)` calls floating-point `hypot`. The model uses exact reals and characterises the length as the non-negative `m` with `m * m == x * x + y * y`. It does not develop real square roots, so the model does not prove that every vector has a length. Rounding in `hypot`, `+` and `*` is not modelled.
- Vector2D.Bool: the source compares the float `hypot` result with 0. The model decides the same thing exactly, by testing whether a coordinate is nonzero. Its contract relates this to every length `IsMagnitude` admits.
- `Vector.__repr__` (string formatting of floats) is not modelled.
- `Vector.__add__` with an operand that is not a vector (an AttributeError) is excluded by the types. So are `__mul__` with a non-numeric scalar and `scalar * v`, which raises TypeError because there is no `__rmul__`.
- `FrenchDeck.__getitem__` with a slice, and with a non-integer position, is not modelled. Only integer positions are.
- KeySort.InsertionSort: Python's `sorted` is Timsort. The model specifies only its result: a permutation of the input, sorted by key and stable. It does not model Timsort's steps or its comparison count.
- CardDeck.Key: the sort compares keys only after every key has been computed without error. The value -1, which `Key` gives a card without a key, is therefore never compared.
- The module-level values `deck` and `sorted_deck` (lines 65-67) are not separate constants. `CardDeck.SortedNewDeck` states what `sorted_deck` is.
