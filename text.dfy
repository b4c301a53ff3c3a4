/**
 * The two string operations the search uses: `String.prototype.toLowerCase`
 * (modelled on ASCII letters) and `String.prototype.includes`.
 */
module Text {

  /** Lower-cases one ASCII capital letter; every other character is kept. */
  function LowerChar(c: char): char
  {
    if 'A' <= c <= 'Z' then (c as int - 'A' as int + 'a' as int) as char else c
  }

  /** `s.toLowerCase()`, character by character. */
  function Lower(s: string): (r: string)
    ensures |r| == |s|
    ensures forall i :: 0 <= i < |r| ==> !('A' <= r[i] <= 'Z')
    ensures forall i :: 0 <= i < |s| && !('A' <= s[i] <= 'Z') ==> r[i] == s[i]
  {
    seq(|s|, i requires 0 <= i < |s| => LowerChar(s[i]))
  }

  /** `hay.includes(needle)`: `needle` occurs as a contiguous block of `hay`. */
  predicate Contains(hay: string, needle: string)
    decreases |hay|
    ensures Contains(hay, needle) ==> |needle| <= |hay|
    ensures needle == [] ==> Contains(hay, needle)
  {
    needle <= hay || (hay != [] && Contains(hay[1..], needle))
  }

  /** `needle` occurs in `hay` starting at position `i`. */
  predicate OccursAt(hay: string, needle: string, i: int)
  {
    0 <= i && i + |needle| <= |hay| && hay[i..i + |needle|] == needle
  }

  /** Contains agrees with the positional definition of a substring. */
  lemma {:induction false} ContainsIffOccurs(hay: string, needle: string)
    ensures Contains(hay, needle) <==> exists i :: OccursAt(hay, needle, i)
  {
    if needle <= hay {
      assert OccursAt(hay, needle, 0);
    } else if hay == [] {
    } else {
      ContainsIffOccurs(hay[1..], needle);
      if Contains(hay[1..], needle) {
        var i :| OccursAt(hay[1..], needle, i);
        assert hay[1..][i..i + |needle|] == hay[i + 1..i + 1 + |needle|];
        assert OccursAt(hay, needle, i + 1);
      }
      if exists i :: OccursAt(hay, needle, i) {
        var i :| OccursAt(hay, needle, i);
        assert i != 0;
        assert hay[1..][i - 1..i - 1 + |needle|] == hay[i..i + |needle|];
        assert OccursAt(hay[1..], needle, i - 1);
      }
    }
  }

  /** The empty string is contained in every string. */
  lemma ContainsEmpty(hay: string)
    ensures Contains(hay, "")
  {
  }

  /** A string that lacks the first character of a non-empty `needle` does not contain it. */
  lemma {:induction false} MissingFirstChar(hay: string, needle: string)
    requires needle != [] && needle[0] !in hay
    ensures !Contains(hay, needle)
  {
    if hay != [] {
      MissingFirstChar(hay[1..], needle);
    }
  }

  /** A string containing `a + b` contains `a`. */
  lemma {:induction false} ContainsPrefixOfNeedle(hay: string, a: string, b: string)
    requires Contains(hay, a + b)
    ensures Contains(hay, a)
  {
    if a + b <= hay {
      assert a == (a + b)[..|a|];
      assert a <= hay;
    } else {
      ContainsPrefixOfNeedle(hay[1..], a, b);
    }
  }

  /** Lower-casing distributes over concatenation. */
  lemma LowerConcat(a: string, b: string)
    ensures Lower(a + b) == Lower(a) + Lower(b)
  {
  }

  /** Each ASCII capital becomes the lower-case letter 32 code points above it. */
  lemma LowerMapsCapitals(s: string)
    ensures forall i :: 0 <= i < |s| && 'A' <= s[i] <= 'Z' ==> Lower(s)[i] as int == s[i] as int + 32
  {
  }

  /** Lower-casing twice is lower-casing once. */
  lemma LowerIdempotent(s: string)
    ensures Lower(Lower(s)) == Lower(s)
  {
  }
}
