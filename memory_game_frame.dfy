/** `MemoryGameFrame` without its window: the board of cards, the two selection
    slots, the counters, and the steps that change them. */
module Game {
  import opened Deck
  import opened Rules
  import opened Cards

  class MemoryGameFrame {
    const size: int
    var pairsFound: int
    var attempts: int
    var cards: seq<MemoryCard>
    var firstSelectedCard: MemoryCard?
    var secondSelectedCard: MemoryCard?

    // The same state as values: the cards' states in board order and the positions
    // the two slots hold.
    ghost var deck: seq<Card>
    ghost var firstAt: Option<nat>
    ghost var secondAt: Option<nat>

    ghost function View(): Session
      reads this
    {
      Session(deck, firstAt, secondAt, attempts, pairsFound)
    }

    /** `slot` holds the card at position `at`, or nothing when `at` is None. */
    ghost predicate Holds(slot: MemoryCard?, at: Option<nat>)
      reads this
    {
      (slot == null <==> at == None) && (at.Some? ==> at.value < |cards| && cards[at.value] == slot)
    }

    /** `deck` records the state of every card, and no card appears twice. */
    ghost predicate Synced()
      reads this`cards, this`deck, cards
    {
      && |cards| == |deck|
      && (forall j, k :: 0 <= j < k < |cards| ==> cards[j] != cards[k])
      && (forall k :: 0 <= k < |cards| ==> cards[k].State() == deck[k])
    }

    ghost predicate Valid()
      reads this, cards
    {
      && Synced()
      && Holds(firstSelectedCard, firstAt)
      && Holds(secondSelectedCard, secondAt)
      && Inv(View(), TotalPairs(size))
    }

    /** Where `card` lies on the board. */
    ghost function Position(card: MemoryCard): (k: nat)
      reads this`cards
      requires card in cards
      ensures k < |cards| && cards[k] == card
    {
      var k: nat :| k < |cards| && cards[k] == card; k
    }

    /** A new game on a size×size board, the values rearranged as `shuffle` says. */
    constructor (size: int, shuffle: seq<nat>)
      requires IsPermutation(shuffle, 2 * TotalPairs(size))
      ensures Valid() && this.size == size
      ensures |cards| == 2 * TotalPairs(size)
      ensures forall k :: 0 <= k < |cards| ==> fresh(cards[k])
      ensures View() == NewSession(Deal(Shuffle(PairValues(TotalPairs(size)), shuffle)))
    {
      this.size := size;
      pairsFound := 0;
      attempts := 0;
      cards := [];
      firstSelectedCard := null;
      secondSelectedCard := null;
      deck := [];
      firstAt := None;
      secondAt := None;
      new;
      InitializeCards(shuffle);
      ShuffledValuesPaired(size, shuffle);
      NewSessionInv(Shuffle(PairValues(TotalPairs(size)), shuffle), TotalPairs(size));
    }

    /** Lists each value 1..TotalPairs(size) twice, shuffles the list, and makes one
        new card per value in that order. */
    method InitializeCards(shuffle: seq<nat>)
      requires IsPermutation(shuffle, 2 * TotalPairs(size))
      modifies this`cards, this`deck
      ensures deck == Deal(Shuffle(PairValues(TotalPairs(size)), shuffle))
      ensures |cards| == |deck|
      ensures forall k :: 0 <= k < |cards| ==> fresh(cards[k]) && cards[k].State() == deck[k]
      ensures forall j, k :: 0 <= j < k < |cards| ==> cards[j] != cards[k]
    {
      cards := [];
      deck := [];
      var totalPairs := TotalPairs(size);
      var cardValues := ListPairValues(totalPairs);
      cardValues := Shuffle(cardValues, shuffle);
      for n := 0 to |cardValues|
        invariant |cards| == |deck| == n
        invariant forall k :: 0 <= k < n ==> deck[k] == Card(cardValues[k], false, false)
        invariant forall k :: 0 <= k < n ==> fresh(cards[k]) && cards[k].State() == deck[k]
        invariant forall j, k :: 0 <= j < k < n ==> cards[j] != cards[k]
      {
        var card := new MemoryCard(cardValues[n]);
        cards := cards + [card];
        deck := deck + [card.State()];
      }
    }

    /** A click on `card`. Returns whether it found the last pair, which is when
        `cardClicked` shows its completion notice. */
    method CardClicked(card: MemoryCard) returns (completed: bool)
      requires Valid() && card in cards
      modifies this, cards
      ensures Valid() && cards == old(cards)
      ensures (View(), completed) == Click(old(View()), Position(card), TotalPairs(size))
    {
      ghost var s := View();
      ghost var i := Position(card);
      ghost var totalPairs := TotalPairs(size);
      completed := false;
      var up := card.IsRevealed();
      if up || (firstSelectedCard != null && secondSelectedCard != null) {
        return;
      }

      RevealCard(card, i);

      ClickPreservesInv(s, i, totalPairs);
      if firstSelectedCard == null {
        firstSelectedCard := card;
        firstAt := Some(i);
        assert View() == Click(s, i, totalPairs).0;
      } else {
        completed := SelectSecond(card, i, s);
      }
    }

    /** The second half of a comparison: `card`, at position i, has just been turned
        up while the card in slot 1 waits. */
    method SelectSecond(card: MemoryCard, ghost i: nat, ghost s: Session) returns (completed: bool)
      requires Synced() && Holds(firstSelectedCard, firstAt) && firstSelectedCard != null
      requires secondSelectedCard == null && secondAt == None
      requires SlotsInRange(s) && i < |s.deck| && s.first.Some? && s.second.None?
      requires !s.deck[i].revealed && s.deck[s.first.value].revealed
      requires i < |cards| && cards[i] == card
      requires View() == s.(deck := s.deck[i := s.deck[i].Reveal()])
      modifies this, cards
      ensures Synced() && cards == old(cards)
      ensures Holds(firstSelectedCard, firstAt) && Holds(secondSelectedCard, secondAt)
      ensures (View(), completed) == Click(s, i, TotalPairs(size))
    {
      ghost var j := firstAt.value;
      secondSelectedCard := card;
      secondAt := Some(i);
      attempts := attempts + 1;

      var v1 := firstSelectedCard.GetValue();
      var v2 := secondSelectedCard.GetValue();
      if v1 == v2 {
        pairsFound := pairsFound + 1;
        MatchCard(firstSelectedCard, j);
        MatchCard(secondSelectedCard, i);
        completed := pairsFound == TotalPairs(size);
        ResetSelection();
      } else {
        completed := false;
      }
    }

    // `card.reveal()`, `card.setMatched(true)` and `card.hide()` on the card at
    // position k, with `deck` kept in step.

    method RevealCard(card: MemoryCard, ghost k: nat)
      requires Synced() && k < |cards| && cards[k] == card
      modifies card, this`deck
      ensures Synced() && deck == old(deck)[k := old(deck)[k].Reveal()]
    {
      card.Reveal();
      deck := deck[k := deck[k].Reveal()];
    }

    method MatchCard(card: MemoryCard, ghost k: nat)
      requires Synced() && k < |cards| && cards[k] == card
      modifies card, this`deck
      ensures Synced() && deck == old(deck)[k := old(deck)[k].SetMatched(true)]
    {
      card.SetMatched(true);
      deck := deck[k := deck[k].SetMatched(true)];
    }

    method HideCard(card: MemoryCard, ghost k: nat)
      requires Synced() && k < |cards| && cards[k] == card
      modifies card, this`deck
      ensures Synced() && deck == old(deck)[k := old(deck)[k].Hide()]
    {
      card.Hide();
      deck := deck[k := deck[k].Hide()];
    }

    method ResetSelection()
      modifies this`firstSelectedCard, this`secondSelectedCard, this`firstAt, this`secondAt
      ensures firstSelectedCard == null && secondSelectedCard == null
      ensures firstAt == None && secondAt == None
    {
      firstSelectedCard := null;
      secondSelectedCard := null;
      firstAt := None;
      secondAt := None;
    }

    /** The body of the one-shot timer started on a mismatch. */
    method ResolveMismatch()
      requires Valid() && firstSelectedCard != null && secondSelectedCard != null
      modifies this, cards
      ensures Valid() && cards == old(cards)
      ensures View() == Rules.ResolveMismatch(old(View()))
    {
      ghost var s := View();
      ghost var f, g := firstAt.value, secondAt.value;
      HideCard(firstSelectedCard, f);
      HideCard(secondSelectedCard, g);
      ResetSelection();
      ResolveMismatchPreservesInv(s, TotalPairs(size));
    }
  }
}
