/**
 * Keyboard navigation over the filtered list: the index arithmetic of
 * ArrowDown and ArrowUp, and the tag that Enter picks.
 */
module Highlight {
  import opened Wrappers
  import opened Tags

  /** An index that is absent or points into a list of length `len`. */
  predicate InRangeOrNull(index: Option<int>, len: nat)
  {
    index.None? || 0 <= index.value < len
  }

  /**
   * ArrowDown: from no highlight or the last position to the first, otherwise
   * one further. Inside the list the result stays inside; a stale index at or
   * past the end, like a negative one, moves up by one.
   */
  function NextDown(prev: Option<int>, len: nat): (r: int)
    ensures prev.None? ==> r == 0
    ensures len > 0 && InRangeOrNull(prev, len) ==> 0 <= r < len
    ensures prev.Some? && prev.value >= len ==> r == prev.value + 1
    ensures prev.Some? && prev.value < 0 ==> r == prev.value + 1
  {
    if prev.None? || prev.value == len - 1 then 0 else prev.value + 1
  }

  /**
   * ArrowUp: from no highlight or the first position to the last, otherwise
   * one back. Inside the list the result stays inside; on an empty list it
   * yields -1, and a negative index only moves further down.
   */
  function NextUp(prev: Option<int>, len: nat): (r: int)
    ensures prev.None? ==> r == len - 1
    ensures len > 0 && InRangeOrNull(prev, len) ==> 0 <= r < len
    ensures prev.Some? && prev.value > 0 ==> r == prev.value - 1
    ensures prev.Some? && prev.value < 0 ==> r == prev.value - 1
  {
    if prev.None? || prev.value == 0 then len - 1 else prev.value - 1
  }

  lemma SmallMod(a: int, len: int)
    requires 0 <= a < len
    ensures a % len == a
  {
  }

  lemma MinusOneMod(len: int)
    requires len > 0
    ensures (-1) % len == len - 1
  {
  }

  lemma LenMod(len: int)
    requires len > 0
    ensures len % len == 0
  {
  }

  /** Inside a list of length `len`, ArrowDown is the successor modulo `len`. */
  lemma DownIsSuccessorMod(i: int, len: nat)
    requires 0 <= i < len
    ensures NextDown(Some(i), len) == (i + 1) % len
  {
    if i == len - 1 {
      LenMod(len);
    } else {
      SmallMod(i + 1, len);
    }
  }

  /** Inside a list of length `len`, ArrowUp is the predecessor modulo `len`. */
  lemma UpIsPredecessorMod(i: int, len: nat)
    requires 0 <= i < len
    ensures NextUp(Some(i), len) == (i - 1) % len
  {
    if i == 0 {
      MinusOneMod(len);
    } else {
      SmallMod(i - 1, len);
    }
  }

  /** Inside a non-empty list, ArrowUp undoes ArrowDown and ArrowDown undoes ArrowUp. */
  lemma DownUpInverse(i: int, len: nat)
    requires 0 <= i < len
    ensures NextUp(Some(NextDown(Some(i), len)), len) == i
    ensures NextDown(Some(NextUp(Some(i), len)), len) == i
  {
  }

  /** Pressing ArrowUp on an empty list highlights index -1. */
  lemma UpOnEmptyList(prev: Option<int>)
    requires prev.None? || prev.value == 0
    ensures NextUp(prev, 0) == -1
  {
  }

  /** The highlight after `n` presses of ArrowDown. */
  function DownPresses(prev: Option<int>, len: nat, n: nat): Option<int>
  {
    if n == 0 then prev else Some(NextDown(DownPresses(prev, len, n - 1), len))
  }

  /** The highlight after `n` presses of ArrowUp. */
  function UpPresses(prev: Option<int>, len: nat, n: nat): Option<int>
  {
    if n == 0 then prev else Some(NextUp(UpPresses(prev, len, n - 1), len))
  }

  lemma {:induction false} MulAtLeast(len: nat, d: int)
    requires d >= 1
    ensures len * d >= len
  {
    if d > 1 {
      MulAtLeast(len, d - 1);
      assert len * d == len * (d - 1) + len;
    }
  }

  /** A decomposition `a == len * q + r` with `0 <= r < len` fixes the remainder. */
  lemma DivModUnique(a: int, len: int, q: int, r: int)
    requires len > 0 && a == len * q + r && 0 <= r < len
    ensures a % len == r
  {
    var q0, r0 := a / len, a % len;
    assert len * q0 + r0 == len * q + r;
    if q0 > q {
      MulAtLeast(len, q0 - q);
    } else if q0 < q {
      MulAtLeast(len, q - q0);
    }
  }

  /** Adding one to a number's remainder and reducing again gives the successor's remainder. */
  lemma ModStep(a: int, len: int)
    requires len > 0
    ensures ((a % len) + 1) % len == (a + 1) % len
  {
    var q, m := a / len, a % len;
    assert a + 1 == len * q + (m + 1);
    if m + 1 < len {
      SmallMod(m + 1, len);
      DivModUnique(a + 1, len, q, m + 1);
    } else {
      LenMod(len);
      assert a + 1 == len * (q + 1) + 0;
      DivModUnique(a + 1, len, q + 1, 0);
    }
  }

  /** From a position inside the list, any number of ArrowDown presses advances that many places modulo the length. */
  lemma {:induction false} DownPressesMod(i: int, len: nat, n: nat)
    requires 0 <= i < len
    ensures DownPresses(Some(i), len, n) == Some((i + n) % len)
  {
    if n == 0 {
      SmallMod(i, len);
    } else {
      DownPressesMod(i, len, n - 1);
      DownIsSuccessorMod((i + n - 1) % len, len);
      ModStep(i + n - 1, len);
    }
  }

  /** A stale index at or past the end never returns into the list under ArrowDown: each press adds one. */
  lemma {:induction false} StaleDownNeverRecovers(i: int, len: nat, n: nat)
    requires i >= len
    ensures DownPresses(Some(i), len, n) == Some(i + n)
  {
    if n > 0 {
      StaleDownNeverRecovers(i, len, n - 1);
    }
  }

  /** A stale index at or past the end reaches the last position after enough presses of ArrowUp. */
  lemma {:induction false} StaleUpRecovers(i: int, len: nat, n: nat)
    requires i >= len && n <= i - len + 1
    ensures UpPresses(Some(i), len, n) == Some(i - n)
  {
    if n > 0 {
      StaleUpRecovers(i, len, n - 1);
    }
  }

  /** A negative index never returns into the list under ArrowUp: each press moves it one further down. */
  lemma {:induction false} StaleUpNeverRecovers(i: int, len: nat, n: nat)
    requires i < 0
    ensures UpPresses(Some(i), len, n) == Some(i - n)
  {
    if n > 0 {
      StaleUpNeverRecovers(i, len, n - 1);
    }
  }

  /** A negative index climbs back to the first position under ArrowDown, one step per press. */
  lemma {:induction false} NegativeDownRecovers(i: int, len: nat, n: nat)
    requires i < 0 && n <= -i
    ensures DownPresses(Some(i), len, n) == Some(i + n)
  {
    if n > 0 {
      NegativeDownRecovers(i, len, n - 1);
    }
  }

  /** What the Enter key finds under the highlight. */
  datatype EnterTarget =
    | NoHighlight        // the highlight is null: Enter does nothing
    | Found(tag: Tag)    // the highlight points into the list
    | Undefined          // the highlight points outside the list: JavaScript reads `undefined`

  /** `filteredTags[highlightedIndex]` as JavaScript evaluates it, for a non-null index. */
  function EnterLookup(filtered: seq<Tag>, highlight: Option<int>): (r: EnterTarget)
    ensures r.NoHighlight? <==> highlight.None?
    ensures r.Found? <==> highlight.Some? && 0 <= highlight.value < |filtered|
    ensures r.Found? ==> r.tag == filtered[highlight.value]
  {
    match highlight
    case None => NoHighlight
    case Some(i) => if 0 <= i < |filtered| then Found(filtered[i]) else Undefined
  }
}
