# Memory game: the turn-handling core

A Dafny model of the game logic of the Swing "Memory" (Pairs) game in
`MemoryGame/MemoryGame.java`. The player picks a board of size×size cells. The
board is dealt face down, holding every value `1..(size*size)/2` exactly twice in
shuffled order. The player turns up two cards per attempt. Equal values stay up
as a found pair. Different values are turned back down by a one-shot timer. The
window counts attempts and pairs found, and shows a notice when the last pair is
found.

The model has four modules:

- `Deck` (`deck.dfy`) builds the value list of `initializeCards`: each of
  `1..totalPairs` twice, with `totalPairs = (size*size)/2`. `Collections.shuffle`
  is an explicit rearrangement of positions given as an input. The module proves
  that every rearrangement keeps each value exactly twice.
- `Rules` (`rules.dfy`) is the game as values. A `Card` record holds the value and
  the two flags, and a `Session` holds the deck, the two selection slots (as
  positions) and the two counters. `Click` is what `cardClicked` does to a
  session (`MemoryGame/MemoryGame.java:115-154`), and `ResolveMismatch` is what the
  mismatch timer does (lines 144-149). `Card.Reveal`, `Card.Hide` and
  `Card.SetMatched` are the card's `reveal`/`hide` (lines 200-212) and `setMatched`
  (lines 193-198) as values. `Inv` is the invariant every reachable session
  keeps. The lemmas state the turn rules and the invariant's consequences.
- `Cards` (`memory_card.dfy`) is the class `MemoryCard`. Its `revealed` and
  `matched` fields are updated in place, and `value` is a constant.
- `Game` (`memory_game_frame.dfy`) is the class `MemoryGameFrame`. It has the
  counters, the list of card objects and the two nullable selection slots, and
  its methods change them step by step as the Java does. Ghost fields mirror
  that state as a `Session`. The contracts of `CardClicked` and
  `ResolveMismatch` tie the new state to `Rules.Click` / `Rules.ResolveMismatch`
  of the old state, so the lemmas of `Rules` hold of the objects. The
  constructor's contract ties the initial state to
  `NewSession(Deal(Shuffle(PairValues(..), shuffle)))`. The helper methods
  `RevealCard`, `MatchCard` and `HideCard` carry out `card.reveal()`,
  `setMatched(true)` and `hide()` on one card of the board and keep the ghost
  deck in step. `Valid()` is established by the
  constructor and kept by `CardClicked` and `ResolveMismatch`; the helper methods
  keep only `Synced()`. `Valid()` says three things:
  - the mirror is exact;
  - no card object appears twice on the board;
  - `Rules.Inv` holds.

Odd board sizes follow the code, not the usual "N×N is even" assumption. For the
5×5 option, `(5*5)/2` is 12, so 24 cards are dealt and the grid has one empty cell
(`OddSizeDropsOneCell`). Nothing in the Java code rejects an odd size.

The selection guard in `cardClicked` tests only `isRevealed()`, not `isMatched()`.
Under the invariant a matched card is always face up, so clicks on matched cards
are ignored too (`FinishedGameIgnoresClicks` uses this).

## Model

| member | source | states |
|---|---|---|
| Deck.OddSizeDropsOneCell | MemoryGame/MemoryGame.java:98 | for odd size the board gets size*size - 1 cards, for even size exactly size*size |
| Deck.PairValuesEachTwice | MemoryGame/MemoryGame.java:99-103 | the list 1,1,2,2,...,n,n holds each of 1..n exactly twice and nothing else |
| Deck.EachValueTwiceLength | MemoryGame/MemoryGame.java:98-103 | any list holding each of 1..n exactly twice (and nothing else) has exactly 2n entries |
| Deck.ListPairValues | MemoryGame/MemoryGame.java:98-103 | the value loop yields 1,1,2,2,...,totalPairs,totalPairs: each value of 1..totalPairs exactly twice |
| Deck.Shuffle | MemoryGame/MemoryGame.java:105 | rearranging the values by any permutation of positions keeps the length and the multiset of values |
| Deck.ShuffledValuesPaired | MemoryGame/MemoryGame.java:98-111 | whatever rearrangement the shuffle picks, the dealt values hold each of 1..(size*size)/2 exactly twice, 2*((size*size)/2) of them |
| Rules.NewSessionInv | MemoryGame/MemoryGame.java:63-67 | a freshly dealt board (all cards face down and unmatched, slots empty, counters 0) satisfies the invariant |
| Rules.ClickPreservesInv | MemoryGame/MemoryGame.java:115-154 | a click keeps the invariant: each value twice, matched implies revealed, slots hold distinct pending cards with different values, no other card pending, 0 <= pairsFound <= attempts, matched cards = 2*pairsFound |
| Rules.ResolveMismatchPreservesInv | MemoryGame/MemoryGame.java:144-149 | the deferred hide step keeps the same invariant |
| Rules.InvBounds | MemoryGame/MemoryGame.java:98-111 | under the invariant the board has 2*totalPairs cards, 2*pairsFound <= number of cards and pairsFound <= totalPairs |
| Rules.AtMostTwoPending | MemoryGame/MemoryGame.java:116-127 | at most two cards are face up and unmatched, and two only while both slots are filled |
| Rules.ClickIgnoredIff | MemoryGame/MemoryGame.java:116-118 | a click leaves the session unchanged and shows no notice exactly when the card is face up or both slots are filled |
| Rules.FirstClick | MemoryGame/MemoryGame.java:120-123 | the first accepted click turns that card up and puts it in slot 1; every other card, slot 2 and both counters are unchanged |
| Rules.SecondClick | MemoryGame/MemoryGame.java:116-126 | the second accepted click is on a different card from slot 1, turns it up and adds exactly one attempt |
| Rules.ClickMatch | MemoryGame/MemoryGame.java:129-142 | equal values: both cards matched and face up, others unchanged, slots empty, attempts+1, pairsFound+1, notice exactly when pairsFound reaches totalPairs |
| Rules.ClickMismatch | MemoryGame/MemoryGame.java:124-151 | different values: both cards face up and unmatched in the slots, others unchanged, attempts+1, pairsFound unchanged, no notice, and every further click is ignored |
| Rules.ResolveMismatchHides | MemoryGame/MemoryGame.java:144-149 | the timer step turns both pending cards face down, keeps every matched flag, value and the counters, changes no other card and empties both slots |
| Rules.CountersMonotone | MemoryGame/MemoryGame.java:126-149 | a click raises attempts and pairsFound by at most one each and never lowers them; the timer step changes neither |
| Rules.CompletionSignalled | MemoryGame/MemoryGame.java:135-140 | the notice is shown by exactly the click that brings pairsFound from below totalPairs to totalPairs |
| Rules.FinishedGameIgnoresClicks | MemoryGame/MemoryGame.java:116-118 | once every pair is found every card is matched and face up, so every click is ignored and the notice is never shown again |
| Cards.MemoryCard.constructor | MemoryGame/MemoryGame.java:171-179 | a new card carries the given value, face down and unmatched; the value never changes afterwards (a constant) |
| Cards.MemoryCard.GetValue | MemoryGame/MemoryGame.java:181-183 | returns the card's value |
| Cards.MemoryCard.IsRevealed | MemoryGame/MemoryGame.java:185-187 | returns whether the card is face up |
| Cards.MemoryCard.IsMatched | MemoryGame/MemoryGame.java:189-191 | returns whether the card's pair was found |
| Cards.MemoryCard.SetMatched | MemoryGame/MemoryGame.java:193-198 | sets the matched flag to the argument and leaves the face-up flag alone |
| Cards.MemoryCard.Reveal | MemoryGame/MemoryGame.java:200-204 | turns the card face up and leaves the matched flag alone |
| Cards.MemoryCard.Hide | MemoryGame/MemoryGame.java:206-212 | turns the card face down unless it is matched; a matched card stays face up |
| Game.MemoryGameFrame.constructor | MemoryGame/MemoryGame.java:63-80 | a new frame has counters 0, empty slots and 2*((size*size)/2) fresh distinct cards whose states are the shuffled paired values, all face down; the invariant holds |
| Game.MemoryGameFrame.InitializeCards | MemoryGame/MemoryGame.java:95-113 | clears the board and makes one new face-down card per shuffled value, in that order |
| Game.MemoryGameFrame.CardClicked | MemoryGame/MemoryGame.java:115-154 | the new state and the notice flag are exactly `Rules.Click` of the old state at the clicked card's position; the board's card list is unchanged and the invariant is kept |
| Game.MemoryGameFrame.SelectSecond | MemoryGame/MemoryGame.java:124-153 | after the second card is turned up: the new state and notice flag are `Rules.Click` of the state before the click |
| Game.MemoryGameFrame.RevealCard | MemoryGame/MemoryGame.java:120 | the clicked card turns face up as `Card.Reveal` says, its deck entry changes the same way, no other entry changes, and `Synced()` is kept |
| Game.MemoryGameFrame.MatchCard | MemoryGame/MemoryGame.java:132-133 | the card becomes matched as `Card.SetMatched(true)` says, its deck entry changes the same way, no other entry changes, and `Synced()` is kept |
| Game.MemoryGameFrame.HideCard | MemoryGame/MemoryGame.java:145-146 | the card is turned down as `Card.Hide` says (unless matched), its deck entry changes the same way, no other entry changes, and `Synced()` is kept |
| Game.MemoryGameFrame.ResetSelection | MemoryGame/MemoryGame.java:156-159 | both selection slots become empty |
| Game.MemoryGameFrame.ResolveMismatch | MemoryGame/MemoryGame.java:144-149 | the new state is exactly `Rules.ResolveMismatch` of the old state; the card list is unchanged and the invariant is kept |

## Left out

- `GameSettings` and `main` (the size chooser window and parsing of the "NxN" labels): user interface; `size` is a constructor parameter.
- Swing layout, fonts, colours, button text, `updateStatus` and the status label: presentation only.
- The `JOptionPane` completion dialog: I/O; `CardClicked` returns whether it would be shown.
- `javax.swing.Timer` scheduling, the 1000 ms delay, `setRepeats(false)` and `timer.stop()`: event-thread machinery. The timer body is the method `ResolveMismatch`, callable only while both slots are filled. Clicks are ignored meanwhile, so it sees the same two cards the timer would.
- `Collections.shuffle` randomness: the rearrangement is an input permutation of positions, and the properties are proved for every permutation.
- The "new game" button: it only constructs a fresh frame.
- The click listener wiring (`addActionListener`) and adding buttons to the panel: presentation; a click is a call of `CardClicked` on a card of the board.
- Deck.TotalPairs: Java `int` arithmetic is not modelled; `size*size` is an unbounded integer. It cannot overflow 32 bits for the offered sizes 5, 6 and 8.
- Rules.CountersMonotone: `attempts` is an unbounded integer in the model. Java's `attempts++` wraps to a negative number after 2^31-1 comparisons. This lemma's "never lowers" and the invariant's `0 <= pairsFound <= attempts` (`Rules.Inv`) assume that never happens. At the 1 s mismatch delay that would take over 68 years of play.
