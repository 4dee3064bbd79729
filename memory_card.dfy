/** `MemoryCard`: one card of the board, whose face-up and matched flags are
    updated in place. */
module Cards {
  import opened Rules

  class MemoryCard {
    /** Fixed when the card is made; nothing assigns it afterwards. */
    const value: int
    var revealed: bool
    var matched: bool

    /** The card's state as a value. */
    function State(): Card
      reads this
    {
      Card(value, revealed, matched)
    }

    /** A new card carries `value`, face down and unmatched. */
    constructor (value: int)
      ensures this.value == value && !revealed && !matched
    {
      this.value := value;
      revealed := false;
      matched := false;
      new;
      Hide();
    }

    method GetValue() returns (v: int)
      ensures v == value
    {
      v := value;
    }

    method IsRevealed() returns (r: bool)
      ensures r == revealed
    {
      r := revealed;
    }

    method IsMatched() returns (m: bool)
      ensures m == matched
    {
      m := matched;
    }

    method SetMatched(matched: bool)
      modifies this
      ensures this.matched == matched && revealed == old(revealed)
    {
      this.matched := matched;
    }

    method Reveal()
      modifies this
      ensures revealed && matched == old(matched)
    {
      revealed := true;
    }

    /** Turns the card face down unless it is matched: a matched card is never
        turned back. */
    method Hide()
      modifies this
      ensures revealed == (old(revealed) && old(matched)) && matched == old(matched)
    {
      if !matched {
        revealed := false;
      }
    }
  }
}
