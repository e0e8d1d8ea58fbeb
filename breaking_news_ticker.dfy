/**
 * The breaking-news ticker's rotation: an index into the headline list, advanced by one
 * (modulo the list length) on every timer tick, and the one headline it highlights.
 */
module BreakingNewsTicker {

  /** The index after one tick of the interval timer; with no headlines no timer runs. */
  function NextIndex(index: nat, length: nat): nat {
    if length == 0 then index else (index + 1) % length
  }

  /** The index after `k` ticks with the list length fixed. */
  function AfterTicks(index: nat, length: nat, k: nat): nat
    decreases k
  {
    if k == 0 then index else NextIndex(AfterTicks(index, length, k - 1), length)
  }

  /** For each headline position, whether it is shown in full opacity (`index === currentIndex`). */
  function Highlights(index: nat, length: nat): seq<bool> {
    seq(length, i requires 0 <= i < length => i == index)
  }

  /** The ticker's state: the current index and the length of the headline list it was given. */
  class Ticker {
    var currentIndex: nat
    var newsLength: nat

    /** The ticker starts at the first headline. */
    constructor (length: nat)
      ensures currentIndex == 0 && newsLength == length
    {
      currentIndex, newsLength := 0, length;
    }

    /** The interval callback `setCurrentIndex((prev) => (prev + 1) % news.length)`; no callback runs for an empty list. */
    method Tick()
      modifies this
      ensures newsLength == old(newsLength)
      ensures currentIndex == NextIndex(old(currentIndex), old(newsLength))
      ensures old(newsLength) == 0 ==> currentIndex == old(currentIndex)
      ensures old(newsLength) > 0 ==> currentIndex < newsLength
    {
      if newsLength > 0 {
        currentIndex := (currentIndex + 1) % newsLength;
      }
    }

    /** A new headline list: the timer is restarted for the new length, and the index is kept as it was. */
    method SetNews(length: nat)
      modifies this
      ensures newsLength == length && currentIndex == old(currentIndex)
    {
      newsLength := length;
    }

    /** Whether the headline at position `i` is highlighted (`index === currentIndex`). */
    function IsHighlighted(i: nat): (r: bool)
      reads this
      ensures i < newsLength ==> r == Highlights(currentIndex, newsLength)[i]
    {
      i == currentIndex
    }
  }

  // ---------------------------------------------------------------------------
  // Properties

  /** A tick with headlines always lands in range, whatever the index was before, too large or not. */
  lemma NextIndexInRange(index: nat, length: nat)
    requires length > 0
    ensures NextIndex(index, length) < length
  {
  }

  /** With no headlines, ticks leave the index alone. */
  lemma {:induction false} NoNewsNoChange(index: nat, k: nat)
    ensures AfterTicks(index, 0, k) == index
    decreases k
  {
    if k > 0 {
      NoNewsNoChange(index, k - 1);
    }
  }

  /** Ticks compose: `a + b` ticks are `a` ticks followed by `b` more. */
  lemma {:induction false} AfterTicksAdd(index: nat, length: nat, a: nat, b: nat)
    ensures AfterTicks(index, length, a + b) == AfterTicks(AfterTicks(index, length, a), length, b)
    decreases b
  {
    if b > 0 {
      AfterTicksAdd(index, length, a, b - 1);
    }
  }

  /** Before the end of the list is reached, each tick moves one headline on. */
  lemma {:induction false} AfterTicksAdvance(index: nat, length: nat, k: nat)
    requires index + k < length
    ensures AfterTicks(index, length, k) == index + k
    decreases k
  {
    if k > 0 {
      AfterTicksAdvance(index, length, k - 1);
      SmallMod(index + k, length);
    }
  }

  /** Helper: a number below the modulus is its own remainder. */
  lemma SmallMod(x: nat, n: nat)
    requires x < n
    ensures x % n == x
  {
  }

  /** From an index in range, the tick after the last headline wraps around to the first. */
  lemma WrapsToFirst(index: nat, length: nat)
    requires index < length
    ensures AfterTicks(index, length, length - index) == 0
  {
    AfterTicksAdvance(index, length, length - index - 1);
    assert length % length == 0;
  }

  /** An index in range stays in range for any number of ticks. */
  lemma {:induction false} AfterTicksInRange(index: nat, length: nat, k: nat)
    requires index < length
    ensures AfterTicks(index, length, k) < length
    decreases k
  {
    if k > 0 {
      NextIndexInRange(AfterTicks(index, length, k - 1), length);
    }
  }

  /** `length` ticks bring an index in range back to where it started. */
  lemma FullCycle(index: nat, length: nat)
    requires index < length
    ensures AfterTicks(index, length, length) == index
  {
    WrapsToFirst(index, length);
    AfterTicksAdd(index, length, length - index, index);
    AfterTicksAdvance(0, length, index);
  }

  /** Exactly one headline is highlighted when the index is in range, and none when it is not. */
  lemma HighlightsOne(index: nat, length: nat)
    ensures |Highlights(index, length)| == length
    ensures index < length ==> Highlights(index, length)[index]
    ensures forall i :: 0 <= i < length && i != index ==> !Highlights(index, length)[i]
  {
  }

  /**
   * Shrinking the list does not reset the index: on a list of three at the last headline,
   * dropping to two leaves no headline highlighted until the next tick, which lands on the
   * second one (3 mod 2).
   */
  lemma ShrinkKeepsIndex()
    ensures AfterTicks(0, 3, 2) == 2
    ensures Highlights(AfterTicks(0, 3, 2), 2) == [false, false]
    ensures NextIndex(AfterTicks(0, 3, 2), 2) == 1
  {
    AfterTicksAdvance(0, 3, 2);
    assert 3 % 2 == 1;
  }
}
