/** The boot header checksum: what it accepts, and which corruptions it cannot miss. */
module Checksum {
  import opened Machine

  const WORD: nat := 0x1_0000_0000

  function Sum(words: seq<u32>): nat {
    if words == [] then 0 else Sum(words[..|words| - 1]) + words[|words| - 1]
  }

  /** The header words and the stored checksum add up to all ones. */
  predicate Accepts(words: seq<u32>, stored: u32) {
    (Sum(words) + stored) % WORD == WORD - 1
  }

  lemma ModAdd(a: nat, b: nat)
    ensures (a % WORD + b) % WORD == (a + b) % WORD
  {
    var q, r := a / WORD, (a % WORD + b) % WORD;
    var p := (a % WORD + b) / WORD;
    assert a + b == WORD * (q + p) + r;
    ModUnique(a + b, WORD, q + p, r);
  }

  /** The loop's 32-bit sum, inverted, equals the stored word exactly for accepted headers. */
  lemma InvertedSumIff(words: seq<u32>, stored: u32)
    ensures stored == Not32(Sum(words) % WORD) <==> Accepts(words, stored)
  {
    var s := Sum(words) % WORD;
    ModAdd(Sum(words), stored);
    if s + stored < WORD {
      ModSmall(s + stored, WORD);
    } else {
      ModUnique(s + stored, WORD, 1, s + stored - WORD);
    }
  }

  lemma {:induction false} SumUpdate(words: seq<u32>, j: nat, w: u32)
    requires j < |words|
    ensures Sum(words[j := w]) == Sum(words) - words[j] + w
  {
    var n := |words| - 1;
    if j < n {
      SumUpdate(words[..n], j, w);
      assert words[j := w][..n] == words[..n][j := w];
    } else {
      assert words[j := w][..n] == words[..n];
    }
  }

  /** Accepted totals differ by a multiple of 2^32. */
  lemma SameResidue(a: nat, b: nat)
    requires a <= b < a + WORD && a % WORD == b % WORD
    ensures a == b
  {
    var e := b / WORD - a / WORD;
    assert b - a == WORD * e;
    MultipleOf(WORD, e);
  }

  /** Changing one header word of an accepted header always makes it rejected ... */
  lemma OneWordDetected(words: seq<u32>, stored: u32, j: nat, w: u32)
    requires Accepts(words, stored) && j < |words| && w != words[j]
    ensures !Accepts(words[j := w], stored)
  {
    SumUpdate(words, j, w);
    var a, b := Sum(words) + stored, Sum(words[j := w]) + stored;
    if a % WORD == b % WORD {
      SameResidue(if a <= b then a else b, if a <= b then b else a);
    }
  }

  /** ... and so does changing the stored word. */
  lemma StoredDetected(words: seq<u32>, stored: u32, other: u32)
    requires Accepts(words, stored) && other != stored
    ensures !Accepts(words, other)
  {
    InvertedSumIff(words, stored);
    InvertedSumIff(words, other);
  }
}
