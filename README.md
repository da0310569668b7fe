# Clock Patience rules engine in Dafny

This project models `GameModel`, the rules engine of a Clock Patience (Clock Solitaire) game
(gamemodel.py). The other files of the repository only draw the board and wire events.

The game keeps 13 face-down piles, one per hour of the clock, each with one visible slot. It
also keeps the card in hand and a game-over flag. The engine has these operations:

- **Deal.** Build the 52 card strings (rank text followed by a suit symbol) and shuffle them.
  Deal them round robin onto the piles, turn every slot to `'back'`, and take the first card of
  pile 13 into hand.
- **Destination rule.** Strip a card's suit character and look its rank up in the rank list.
  The pile is the rank's position plus one.
- **Automatic move.** Put the card in hand on its pile's visible slot, overwriting what was
  there. Then take the next face-down card of that pile into hand. If that pile has no
  face-down card left, the game is over.
- **Manual move.** Make the automatic move only when the clicked pile is the destination of
  the card in hand.
- **Status check.** Four visible Kings mean a loss. With no card in hand, every pile showing
  its own rank means a win, and anything else a loss. Otherwise the answer is "over" (a loss)
  or "ongoing".
- **Board report.** Hand the view the visible slots, the face-down counts and the card in hand.

The model has four modules:

- `Cards`: the card strings, the deck in construction order, and the destination rule.
  Python's `list.index` is `IndexOf`. Its `ValueError` is the `RankNotFound` destination.
- `Piles`: the round-robin deal, and counts over the piles. `TotalHidden` counts the
  face-down cards. `HiddenOfRank` counts the face-down cards of one rank.
- `Rules`: the game state as a value, with these members:
  - `Step`, one automatic move;
  - `Evaluate`, the status check;
  - `BoardOf`, the board report;
  - `ValidState`, the invariant every reachable state keeps.
- `Game`: the class `GameModel`. It has the fields of the Python class `GameModel` (`deck`,
  `pilesHidden`, `pilesVisible`, `isGameOver`, `currentCard`) and changes them in place.
  - The public methods (the constructor, `ShuffleAndDeal`, `AutoPlayStep`, `ManualPlayStep`)
    are proved to keep the class invariant `Valid()`, which is `Rules.Consistent`.
  - Every method is proved to have exactly the effect of the matching value-level rule
    (`(View(), ok) == Step(old(View()))`).

The central invariant is `Balanced`. While a card is in hand, each pile p has exactly as many
face-down cards as there are rank-p cards still face down anywhere, plus one if the card in
hand has rank p. Pile 13 counts one fewer, because its first card started in hand. From this
the model proves:

- A move fails only when the card in hand is the last King (`GameEndsOnLastKing`).
- At most one King is ever visible, so the four-Kings loss rule can never fire
  (`AtMostOneKingVisible`).
- The status check answers 'win' exactly when no slot still shows `'back'` (`EvaluateValid`).
  Cards may still be face down at that moment: the code's win test looks only at the slots.

The second invariant, `DrawnFrom`, says which cards are on the board. `Copies(s, c)` counts
card c face down, on a slot, and in hand. After the deal every card of the deck is on the board
exactly once. A move takes no card onto the board: the only card that leaves it is the one the
move overwrites on a slot. So the board never holds the same card twice
(`BoardCardsDistinct`).

## Model

| member | source | states |
|---|---|---|
| Cards.FullDeck | gamemodel.py:19 | No ensures of its own: the deck built rank by rank, suit by suit; its meaning (52 distinct cards, card i of rank i/4 and suit i%4) is stated by FullDeckContents, FullDeckLayout and FullDeckOnce |
| Cards.DeckFromAt | gamemodel.py:19 | Card 4k+s of the deck from rank v on is the card of rank v+k and suit s (rank-major, suit-minor construction order) |
| Cards.PermutedDeckLength | gamemodel.py:19-20 | Every order the shuffle can leave holds 52 cards |
| Cards.CardNameInjective | gamemodel.py:19 | Different (rank, suit) pairs give different card strings |
| Cards.FullDeckLayout | gamemodel.py:19 | Card 4v+s of the deck is the card of rank v and suit s |
| Cards.FullDeckIndexed | gamemodel.py:19 | Card i of the deck is the card of rank i/4 and suit i%4 |
| Cards.FullDeckOnce | gamemodel.py:19 | The deck holds every card at most once |
| Cards.FullDeckCards | gamemodel.py:19 | Every card of the deck is one the destination rule sends to a pile |
| Cards.FullDeckContents | gamemodel.py:19 | The deck has 52 cards; card i is the card of rank i/4 and suit i%4; every (rank, suit) pair appears; all 52 are distinct |
| Cards.IndexOf | gamemodel.py:46 | A position it returns lies inside the list; that it is the first occurrence, and None exactly when `list.index` raises, is stated by IndexOfFirst |
| Cards.IndexOfFirst | gamemodel.py:46 | The rank lookup returns the first position holding the rank text, and finds nothing exactly when the text is not a rank (where `list.index` raises) |
| Cards.GetCardDestination | gamemodel.py:41-46 | The result is "no destination" exactly for None, the empty string and `'back'`; a pile number is always in 1..13 |
| Cards.DestinationParse | gamemodel.py:45-46 | A pile result means the card minus its last character is the rank text of that pile; an unknown rank text gives the ValueError outcome |
| Cards.DestinationOfCard | gamemodel.py:41-46 | Every card of the deck, of rank index v, goes to pile v+1 |
| Cards.DestinationPrefix | gamemodel.py:102-104 | A card the rule sends to pile p starts with pile p's rank text, which is the status check's per-pile test |
| Cards.KingOnlyOnPile13 | gamemodel.py:90-91 | Among real cards, the King test `startswith('K')` holds exactly for the cards of pile 13 |
| Piles.Column | gamemodel.py:23-25 | No ensures of its own: the cards the round-robin deal puts on pile p, in arrival order; its meaning is stated by ColumnAt, DealOf52, DealPlacesCard and DealAppend |
| Piles.Deal | gamemodel.py:22-25 | The deal produces exactly the piles 1..13 |
| Piles.ColumnAt | gamemodel.py:23-25 | Pile p receives cards p-1, p-1+13, p-1+26, ... in order, and every deck index of that form |
| Piles.DealOf52 | gamemodel.py:22-25 | From 52 cards every pile receives exactly 4 cards; its k-th card is deck card p-1+13k |
| Piles.DealPlacesCard | gamemodel.py:23-25 | Card i of the deck is card i/13 of pile (i mod 13)+1 |
| Piles.DealAppend | gamemodel.py:24-25 | Dealing one more card appends it to pile (n mod 13)+1 and changes no other pile |
| Piles.CountRankPermutation | gamemodel.py:20 | Shuffling does not change how many cards of each rank the deck holds |
| Piles.FullDeckRankCount | gamemodel.py:19 | The deck holds four cards of every rank |
| Piles.HiddenOfRankDeal | gamemodel.py:22-25 | The dealt piles together hold as many cards of each rank as the deck: dealing loses and adds nothing |
| Piles.TotalHiddenUpdate | gamemodel.py:62 | Replacing one pile changes the face-down total by exactly the size difference |
| Piles.HiddenOfRankUpdate | gamemodel.py:62 | Replacing one pile changes the face-down count of each rank by exactly that pile's difference |
| Piles.HiddenCopiesUpdate | gamemodel.py:62 | Replacing one pile changes the face-down copies of each card by exactly that pile's difference |
| Piles.HiddenCopiesDeal | gamemodel.py:22-25 | The dealt piles hold each card exactly as often as the deck does |
| Rules.AllBack | gamemodel.py:28 | Every pile's slot shows `'back'`, with the same pile numbers as the face-down piles |
| Rules.ShuffledDeckCards | gamemodel.py:19-20 | Every card of a shuffled deck is one the destination rule accepts |
| Rules.DealtHiddenCards | gamemodel.py:22-32 | After the deal every face-down pile holds at most 4 real cards |
| Rules.DealtBalancedAt | gamemodel.py:22-32 | After the deal each pile is balanced against the rank counts, counting the card in hand |
| Rules.DealtState | gamemodel.py:22-38 | No ensures of its own: the state after the deal, with every slot showing `back` and pile 13's first card in hand; its meaning is stated by DealtLayout, DealtStateValid, DealtOnBoard and DealtCopies |
| Rules.DealtLayout | gamemodel.py:28-38 | After the deal piles 1..12 keep their 4 dealt cards. Pile 13 keeps its last 3, and its first card is in hand. 51 cards are face down, every slot shows `'back'`, and the game is not over |
| Rules.DealtStateValid | gamemodel.py:17-38 | The state after dealing any shuffle of the deck satisfies the invariant |
| Rules.ShownCopiesUpdate | gamemodel.py:58 | Showing a card on a slot takes the slot's old card off the shown cards and puts the new one on |
| Rules.BackShowsNothing | gamemodel.py:28 | Slots that all show `'back'` show no card |
| Rules.NothingDealt | gamemodel.py:8-15 | Before the first deal no card is on the board |
| Rules.DealtOnBoard | gamemodel.py:17-38 | After the deal each card is on the board (face down or in hand) exactly as often as in the deck |
| Rules.DealtCopies | gamemodel.py:17-38 | After dealing a shuffle, every card of the deck is on the board exactly once |
| Rules.DealtConsistent | gamemodel.py:17-38 | The deal of a shuffle establishes the game object's invariant: the rules' invariant and every board card drawn from the deck |
| Rules.StepKeepsBalance | gamemodel.py:61-64 | The card a successful move takes into hand leaves every pile balanced |
| Rules.StepPreservesValid | gamemodel.py:48-70 | A move from a valid state leads to a valid state |
| Rules.Step | gamemodel.py:50-70 | No ensures of its own: one move of the card in hand; its meaning is stated by StepFrame, StepPreservesValid, StepShrinksHidden, StepKeepsConsistent and GameEndsOnLastKing |
| Rules.StepFrame | gamemodel.py:54-70 | A move changes only the destination pile d. Slot d shows the moved card. Pile d loses its front card, which becomes the card in hand. If pile d was empty, no card is in hand and the game is over |
| Rules.StepCopies | gamemodel.py:54-64 | A move with a card in hand changes the count of a card only by the card it overwrites on the destination slot |
| Rules.StepDropsOverwritten | gamemodel.py:58-64 | In a valid state a move takes no card onto the board; the only card that leaves is the one overwritten on the destination slot |
| Rules.StepKeepsDrawnFrom | gamemodel.py:48-70 | A move keeps every board card drawn from the deck |
| Rules.StepKeepsConsistent | gamemodel.py:48-70 | A move keeps the game object's invariant |
| Rules.BoardCardsDistinct | gamemodel.py:17-70 | A board drawn from a shuffled deck holds no card twice: not face down and shown, not in hand and elsewhere, not on two piles |
| Rules.StepWithoutCard | gamemodel.py:50-52 | With no card in hand (None, empty or `'back'`) a move fails and changes nothing |
| Rules.StepShrinksHidden | gamemodel.py:61-62 | A successful move turns exactly one face-down card; a failed one turns none |
| Rules.GameEndsOnLastKing | gamemodel.py:61-70 | A move fails exactly when the card in hand is a King and no King is left face down |
| Rules.RunAtMostHidden | gamemodel.py:48-70 | A run of successful moves has no more moves than its first state has face-down cards |
| Rules.DealtRunAtMost51 | gamemodel.py:17-70 | From a fresh deal at most 51 moves in a row succeed |
| Rules.KingsVisible | gamemodel.py:90-91 | No ensures of its own: the number of piles showing a card that passes the King test; NoKingsBelow13 and AtMostOneKingVisible bound it in a valid state |
| Rules.NoKingsBelow13 | gamemodel.py:90-91 | No slot of piles 1..12 passes the King test |
| Rules.AtMostOneKingVisible | gamemodel.py:90-95 | At most one visible King in any valid state, so the four-Kings rule never fires |
| Rules.Evaluate | gamemodel.py:87-117 | No ensures of its own: the status check, its rules taken in the source's order; EvaluateValid, DecidedIsFinal and FailedStepDecides state what it answers on reachable states |
| Rules.EvaluateValid | gamemodel.py:87-117 | In a valid state the check answers 'ongoing' while a card is in hand, KeyError before the first deal, 'win' iff no slot shows `'back'`, and 'loss' otherwise |
| Rules.DecidedIsFinal | gamemodel.py:48-117 | Once the status is decided, a move changes nothing |
| Rules.FailedStepDecides | gamemodel.py:65-70 | The move that ends the game leaves a decided status: win or loss |
| Rules.BoardOf | gamemodel.py:119-126 | The report exists exactly when all 13 piles exist (KeyError otherwise); it passes the slots and card in hand through and gives each pile's face-down count |
| Rules.DealtBoard | gamemodel.py:119-126 | Right after the deal the report shows counts 4,...,4,3, all slots `'back'` and deck card 12 in hand |
| Rules.BoardCountsBounded | gamemodel.py:123 | In every valid state after the deal each reported count is at most 4 |
| Game.GameModel.constructor | gamemodel.py:8-15 | A new game has no deck and no piles, no card in hand, and counts as over; no card is on the board and the invariant holds |
| Game.GameModel.ShuffleAndDeal | gamemodel.py:17-38 | Deals the given shuffle: the deck is that order, the state equals `DealtState` of it, every deck card is on the board exactly once, and the invariant holds |
| Game.GameModel.DealIntoPiles | gamemodel.py:22-25 | The dealing loop leaves the piles equal to the round-robin deal of the deck; no other field changes |
| Game.GameModel.AutoPlayStep | gamemodel.py:48-70 | The new state and result are `Step` of the old state. With no card nothing changes. Success turns one face-down card. Failure happens only on the last King and ends the game |
| Game.GameModel.PlaceAndReveal | gamemodel.py:54-70 | With a card in hand, showing it on its pile's slot and revealing that pile's next card has exactly the effect of `Step` |
| Game.GameModel.ManualPlayStep | gamemodel.py:72-84 | On the destination pile of a held card the effect is exactly the automatic move; otherwise, or with no card, it returns false and changes nothing |
| Game.GameModel.CheckGameStatus | gamemodel.py:87-117 | Returns `Evaluate` of the state, changing nothing; in a state satisfying the rules' invariant that is 'ongoing' / KeyError / 'win' iff no `'back'` slot / 'loss' |
| Game.GameModel.GetBoardState | gamemodel.py:119-126 | Returns the board report of the current state |

## Left out

- gameview.py, gamecontroller.py, assets.py and app.py are not part of this model: drawing,
  timers, image loading and window setup.
- `random.shuffle` (gamemodel.py:20) is a parameter. `ShuffleAndDeal` takes the shuffled
  order, which must be a permutation of the constructed deck.
- `game_mode` and `last_move_message` are not modelled. Neither are the message strings the
  moves return beside their success flag.
- Game.GameModel.ShuffleAndDeal: the `else` branch at gamemodel.py:34-36 is unreachable,
  because a full deck gives pile 13 four cards. The model proves this at that branch instead
  of modelling its assignments.
- Game.GameModel.AutoPlayStep: requires the class invariant. Every state the object reaches
  meets it, including the state before the first deal. Outside it the source can raise
  `KeyError` or `ValueError`; those paths are not modelled.
- Game.GameModel.ManualPlayStep: requires the class invariant, for the same reason as
  AutoPlayStep.
- Game.GameModel.CheckGameStatus: requires that the visible slots are either absent or exist
  for all 13 piles, as in every reachable state.
  - Under that condition, summing the King test over piles 1..13 equals the source's sum over
    `piles_visible.values()`.
  - Under that condition, the `KeyError` at line 103 happens exactly before the first deal.
- Cards.GetCardDestination: its own contract states only the "no destination" cases and the
  range 1..13. What the parse reads off the card is stated by Cards.DestinationParse. This
  keeps the string reasoning out of every proof that uses the rule.
- Conservation of all 52 cards across the board does not hold in this code. Each slot keeps
  only the last card placed on it (gamemodel.py:58), so earlier cards on that slot are
  dropped. The model follows the code and proves the weaker fact that holds: no card is ever
  duplicated, and only the overwritten card leaves the board.
- There is no separate "reveal" confirmation in the manual move (gamemodel.py:79-81).
- There is no "all piles empty" win condition. The win test is the per-slot rank check at
  gamemodel.py:101-106, which in a valid state means no slot still shows `'back'`.
