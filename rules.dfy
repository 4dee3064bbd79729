/** The rules of the game as values: the state of each card, the state of a session
    (deck, two selection slots, two counters), what a click does, and what the
    deferred mismatch step does; with the invariant every reachable session keeps. */
module Rules {
  import opened Deck

  datatype Option<T> = None | Some(value: T)

  /** One card: its value, whether it is face up, and whether its pair has been found. */
  datatype Card = Card(value: int, revealed: bool, matched: bool)
  {
    /** `MemoryCard.reveal`. */
    function Reveal(): Card
    {
      this.(revealed := true)
    }

    /** `MemoryCard.hide`: a matched card stays face up. */
    function Hide(): Card
    {
      if matched then this else this.(revealed := false)
    }

    /** `MemoryCard.setMatched`. */
    function SetMatched(m: bool): Card
    {
      this.(matched := m)
    }
  }

  /** A session: the cards in board order, the positions held by the two selection
      slots, the number of completed comparisons and the number of pairs found. */
  datatype Session = Session(deck: seq<Card>, first: Option<nat>, second: Option<nat>,
                             attempts: int, pairsFound: int)

  /** The values of the cards, in board order. */
  function Values(deck: seq<Card>): seq<int>
  {
    seq(|deck|, k requires 0 <= k < |deck| => deck[k].value)
  }

  /** Fresh cards carrying `values`, face down and unmatched. */
  function Deal(values: seq<int>): seq<Card>
  {
    seq(|values|, k requires 0 <= k < |values| => Card(values[k], false, false))
  }

  /** The session a new frame starts with. */
  function NewSession(deck: seq<Card>): Session
  {
    Session(deck, None, None, 0, 0)
  }

  /** How many cards are matched. */
  function MatchedCount(deck: seq<Card>): nat
  {
    if deck == [] then 0 else (if deck[0].matched then 1 else 0) + MatchedCount(deck[1..])
  }

  /** The slots name positions of the deck. */
  predicate SlotsInRange(s: Session)
  {
    (s.first.Some? ==> s.first.value < |s.deck|) && (s.second.Some? ==> s.second.value < |s.deck|)
  }

  /** Two cards are face up waiting for the deferred mismatch step. */
  predicate BothPending(s: Session)
  {
    s.first.Some? && s.second.Some?
  }

  /** `cardClicked` on the card at position i: the new session, and whether the
      completion notice is shown. */
  function Click(s: Session, i: nat, totalPairs: int): (Session, bool)
    requires SlotsInRange(s) && i < |s.deck|
  {
    if s.deck[i].revealed || BothPending(s) then (s, false)
    else
      var deck := s.deck[i := s.deck[i].Reveal()];
      if s.first.None? then (s.(deck := deck, first := Some(i)), false)
      else
        var j := s.first.value;
        var attempts := s.attempts + 1;
        if deck[j].value == deck[i].value then
          var pairsFound := s.pairsFound + 1;
          var deck' := deck[j := deck[j].SetMatched(true)];
          var deck'' := deck'[i := deck'[i].SetMatched(true)];
          (Session(deck'', None, None, attempts, pairsFound), pairsFound == totalPairs)
        else
          (s.(deck := deck, second := Some(i), attempts := attempts), false)
  }

  /** The body of the one-shot mismatch timer: hide both selected cards, clear the slots. */
  function ResolveMismatch(s: Session): Session
    requires SlotsInRange(s) && BothPending(s)
  {
    var f, g := s.first.value, s.second.value;
    var deck := s.deck[f := s.deck[f].Hide()];
    var deck' := deck[g := deck[g].Hide()];
    s.(deck := deck', first := None, second := None)
  }

  /** A face-up card whose pair has not been found yet. */
  predicate Pending(c: Card)
  {
    c.revealed && !c.matched
  }

  /** What holds of every session a frame can reach. */
  ghost predicate Inv(s: Session, totalPairs: int)
  {
    && SlotsInRange(s)
    // the values on the board: each of 1..totalPairs exactly twice
    && EachValueTwice(Values(s.deck), totalPairs)
    // a matched card is face up
    && (forall k :: 0 <= k < |s.deck| ==> s.deck[k].matched ==> s.deck[k].revealed)
    // slot 2 is only filled after slot 1; the slots hold face-up unmatched cards
    && (s.second.Some? ==> s.first.Some?)
    && (s.first.Some? ==> Pending(s.deck[s.first.value]))
    && (s.second.Some? ==> Pending(s.deck[s.second.value]))
    // two pending cards are different cards with different values
    && (BothPending(s) ==> s.first != s.second)
    && (BothPending(s) ==> s.deck[s.first.value].value != s.deck[s.second.value].value)
    // the only face-up unmatched cards are the ones in the slots
    && (forall k :: 0 <= k < |s.deck| && Pending(s.deck[k]) ==> s.first == Some(k) || s.second == Some(k))
    // the counters
    && 0 <= s.pairsFound <= s.attempts
    && MatchedCount(s.deck) == 2 * s.pairsFound
  }

  // ---------------------------------------------------------------------------
  // Counting matched cards

  function Flag(c: Card): nat
  {
    if c.matched then 1 else 0
  }

  lemma {:induction false} MatchedCountUpdate(deck: seq<Card>, k: nat, c: Card)
    requires k < |deck|
    ensures MatchedCount(deck[k := c]) == MatchedCount(deck) - Flag(deck[k]) + Flag(c)
  {
    if k == 0 {
      assert deck[k := c][1..] == deck[1..];
    } else {
      assert deck[k := c][1..] == deck[1..][k - 1 := c];
      MatchedCountUpdate(deck[1..], k - 1, c);
    }
  }

  /** At most every card is matched, and when that many are, all of them are. */
  lemma {:induction false} MatchedCountAtMost(deck: seq<Card>)
    ensures MatchedCount(deck) <= |deck|
    ensures MatchedCount(deck) == |deck| ==> forall k :: 0 <= k < |deck| ==> deck[k].matched
  {
    if deck != [] {
      MatchedCountAtMost(deck[1..]);
      if MatchedCount(deck) == |deck| {
        forall k | 0 <= k < |deck|
          ensures deck[k].matched
        {
          if k > 0 {
            assert deck[k] == deck[1..][k - 1];
          }
        }
      }
    }
  }

  lemma {:induction false} MatchedCountNone(deck: seq<Card>)
    requires forall k :: 0 <= k < |deck| ==> !deck[k].matched
    ensures MatchedCount(deck) == 0
  {
    if deck != [] {
      MatchedCountNone(deck[1..]);
    }
  }

  lemma ValuesUpdate(deck: seq<Card>, k: nat, c: Card)
    requires k < |deck| && c.value == deck[k].value
    ensures Values(deck[k := c]) == Values(deck)
  {
    assert forall j :: 0 <= j < |deck| ==> Values(deck[k := c])[j] == Values(deck)[j];
  }

  // ---------------------------------------------------------------------------
  // The invariant

  /** A new game satisfies the invariant. */
  lemma NewSessionInv(values: seq<int>, totalPairs: int)
    requires EachValueTwice(values, totalPairs)
    ensures Inv(NewSession(Deal(values)), totalPairs)
  {
    var deck := Deal(values);
    assert Values(deck) == values;
    MatchedCountNone(deck);
  }

  /** Every click keeps the invariant. */
  lemma ClickPreservesInv(s: Session, i: nat, totalPairs: int)
    requires Inv(s, totalPairs) && i < |s.deck|
    ensures Inv(Click(s, i, totalPairs).0, totalPairs)
  {
    if !s.deck[i].revealed && !BothPending(s) {
      var deck := s.deck[i := s.deck[i].Reveal()];
      MatchedCountUpdate(s.deck, i, s.deck[i].Reveal());
      ValuesUpdate(s.deck, i, s.deck[i].Reveal());
      if s.first.Some? {
        var j := s.first.value;
        if deck[j].value == deck[i].value {
          var deck' := deck[j := deck[j].SetMatched(true)];
          var deck'' := deck'[i := deck'[i].SetMatched(true)];
          MatchedCountUpdate(deck, j, deck[j].SetMatched(true));
          MatchedCountUpdate(deck', i, deck'[i].SetMatched(true));
          ValuesUpdate(deck, j, deck[j].SetMatched(true));
          ValuesUpdate(deck', i, deck'[i].SetMatched(true));
          assert Click(s, i, totalPairs).0.deck == deck'';
        }
      }
    }
  }

  /** The deferred mismatch step keeps the invariant. */
  lemma ResolveMismatchPreservesInv(s: Session, totalPairs: int)
    requires Inv(s, totalPairs) && BothPending(s)
    ensures Inv(ResolveMismatch(s), totalPairs)
  {
    var f, g := s.first.value, s.second.value;
    var deck := s.deck[f := s.deck[f].Hide()];
    MatchedCountUpdate(s.deck, f, s.deck[f].Hide());
    MatchedCountUpdate(deck, g, deck[g].Hide());
    ValuesUpdate(s.deck, f, s.deck[f].Hide());
    ValuesUpdate(deck, g, deck[g].Hide());
  }

  /** The bounds the invariant implies: the deck has 2 * totalPairs cards, of which
      2 * pairsFound are matched, so pairsFound never exceeds totalPairs. */
  lemma InvBounds(s: Session, totalPairs: nat)
    requires Inv(s, totalPairs)
    ensures |s.deck| == 2 * totalPairs
    ensures 2 * s.pairsFound <= |s.deck|
    ensures s.pairsFound <= totalPairs
  {
    EachValueTwiceLength(Values(s.deck), totalPairs);
    MatchedCountAtMost(s.deck);
  }

  // ---------------------------------------------------------------------------
  // One click at a time

  /** A click is ignored (nothing changes, no notice) exactly when the card is face up
      or two cards are pending. */
  lemma ClickIgnoredIff(s: Session, i: nat, totalPairs: int)
    requires SlotsInRange(s) && i < |s.deck|
    ensures Click(s, i, totalPairs) == (s, false) <==> s.deck[i].revealed || BothPending(s)
  {
    if !s.deck[i].revealed && !BothPending(s) {
      assert Click(s, i, totalPairs).0.deck[i].revealed;
    }
  }

  /** The first accepted click turns the card up and puts it in slot 1; nothing else
      changes. */
  lemma FirstClick(s: Session, i: nat, totalPairs: int)
    requires SlotsInRange(s) && i < |s.deck|
    requires !s.deck[i].revealed && s.first.None?
    ensures var (r, done) := Click(s, i, totalPairs);
      && r.first == Some(i) && r.second == s.second
      && r.deck[i] == Card(s.deck[i].value, true, s.deck[i].matched)
      && (forall k :: 0 <= k < |s.deck| && k != i ==> r.deck[k] == s.deck[k])
      && r.attempts == s.attempts && r.pairsFound == s.pairsFound
      && !done
  {
  }

  /** The second accepted click is on another card than the one in slot 1, and counts
      one attempt. */
  lemma SecondClick(s: Session, i: nat, totalPairs: int)
    requires Inv(s, totalPairs) && i < |s.deck|
    requires !s.deck[i].revealed && s.first.Some? && s.second.None?
    ensures i != s.first.value
    ensures Click(s, i, totalPairs).0.attempts == s.attempts + 1
    ensures Click(s, i, totalPairs).0.deck[i].revealed
  {
  }

  /** Two equal values: both cards become matched, one more pair is found, the slots
      are cleared, and the notice is shown exactly when the last pair is found. */
  lemma ClickMatch(s: Session, i: nat, totalPairs: int)
    requires Inv(s, totalPairs) && i < |s.deck|
    requires !s.deck[i].revealed && s.first.Some? && s.second.None?
    requires s.deck[s.first.value].value == s.deck[i].value
    ensures var (r, done) := Click(s, i, totalPairs);
      var j := s.first.value;
      && r.deck[i].matched && r.deck[i].revealed && r.deck[j].matched && r.deck[j].revealed
      && (forall k :: 0 <= k < |s.deck| && k != i && k != j ==> r.deck[k] == s.deck[k])
      && r.first.None? && r.second.None?
      && r.attempts == s.attempts + 1 && r.pairsFound == s.pairsFound + 1
      && (done <==> r.pairsFound == totalPairs)
  {
  }

  /** Two different values: both cards stay face up and unmatched in the slots, one
      attempt is counted and no pair; every further click is ignored. */
  lemma ClickMismatch(s: Session, i: nat, i': nat, totalPairs: int)
    requires Inv(s, totalPairs) && i < |s.deck| && i' < |s.deck|
    requires !s.deck[i].revealed && s.first.Some? && s.second.None?
    requires s.deck[s.first.value].value != s.deck[i].value
    ensures var (r, done) := Click(s, i, totalPairs);
      var j := s.first.value;
      && Pending(r.deck[i]) && Pending(r.deck[j])
      && (forall k :: 0 <= k < |s.deck| && k != i ==> r.deck[k] == s.deck[k])
      && r.first == Some(j) && r.second == Some(i)
      && r.attempts == s.attempts + 1 && r.pairsFound == s.pairsFound
      && !done
      && Click(r, i', totalPairs) == (r, false)
  {
  }

  /** The positions of the face-up unmatched cards. */
  function PendingPositions(deck: seq<Card>): set<nat>
  {
    set k: nat | k < |deck| && Pending(deck[k])
  }

  /** At most two cards are pending at any time, and two pending cards are two
      different cards. */
  lemma AtMostTwoPending(s: Session, totalPairs: int)
    requires Inv(s, totalPairs)
    ensures |PendingPositions(s.deck)| <= 2
    ensures |PendingPositions(s.deck)| == 2 ==> BothPending(s)
  {
    var firsts: set<nat> := if s.first.Some? then {s.first.value} else {};
    var seconds: set<nat> := if s.second.Some? then {s.second.value} else {};
    var pending := PendingPositions(s.deck);
    assert pending == firsts + seconds;
    assert |firsts + seconds| <= |firsts| + |seconds|;
  }

  /** The deferred step turns both pending cards face down, leaves every `matched`
      flag and both counters alone, and empties the slots. */
  lemma ResolveMismatchHides(s: Session, totalPairs: int)
    requires Inv(s, totalPairs) && BothPending(s)
    ensures var r := ResolveMismatch(s);
      var f, g := s.first.value, s.second.value;
      && !r.deck[f].revealed && !r.deck[g].revealed
      && r.deck[f].value == s.deck[f].value && r.deck[g].value == s.deck[g].value
      && (forall k :: 0 <= k < |s.deck| ==> r.deck[k].matched == s.deck[k].matched)
      && (forall k :: 0 <= k < |s.deck| && k != f && k != g ==> r.deck[k] == s.deck[k])
      && r.first.None? && r.second.None?
      && r.attempts == s.attempts && r.pairsFound == s.pairsFound
  {
  }

  /** Neither step ever lowers a counter, and a click raises each by at most one. */
  lemma CountersMonotone(s: Session, i: nat, totalPairs: int)
    requires SlotsInRange(s) && i < |s.deck|
    ensures var r := Click(s, i, totalPairs).0;
      s.attempts <= r.attempts <= s.attempts + 1 && s.pairsFound <= r.pairsFound <= s.pairsFound + 1
    ensures BothPending(s) ==> ResolveMismatch(s).attempts == s.attempts
    ensures BothPending(s) ==> ResolveMismatch(s).pairsFound == s.pairsFound
  {
  }

  /** The completion notice is shown by exactly the click that finds the last pair. */
  lemma CompletionSignalled(s: Session, i: nat, totalPairs: int)
    requires Inv(s, totalPairs) && i < |s.deck|
    ensures Click(s, i, totalPairs).1 <==>
      s.pairsFound < totalPairs && Click(s, i, totalPairs).0.pairsFound == totalPairs
  {
  }

  /** Once every pair is found, every click is ignored: the notice is shown once. */
  lemma {:induction false} FinishedGameIgnoresClicks(s: Session, i: nat, totalPairs: nat)
    requires Inv(s, totalPairs) && i < |s.deck| && s.pairsFound == totalPairs
    ensures Click(s, i, totalPairs) == (s, false)
  {
    InvBounds(s, totalPairs);
    MatchedCountAtMost(s.deck);
    assert s.deck[i].matched;
  }
}
