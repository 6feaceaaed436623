/** The glyph table of the randomart (get_coin_sym). */
module Glyphs {

  /** The glyphs for the counts 0 to 16, in order; 15 marks the start and 16 the end. */
  const Alphabet: string := " .o+=*BOX@%&#/^SE"

  /** The glyph of every count outside 0..16. */
  const Fallback: char := '!'

  /**
   * get_coin_sym: a dictionary lookup with '!' as the default. Counts are
   * not capped, so a cell visited more than sixteen times shows the fallback.
   */
  function CoinSym(coins: int): (c: char)
    ensures 0 <= coins < |Alphabet| ==> c == Alphabet[coins]
    ensures coins < 0 || coins >= |Alphabet| ==> c == Fallback
  {
    match coins
    case 0 => ' '
    case 1 => '.'
    case 2 => 'o'
    case 3 => '+'
    case 4 => '='
    case 5 => '*'
    case 6 => 'B'
    case 7 => 'O'
    case 8 => 'X'
    case 9 => '@'
    case 10 => '%'
    case 11 => '&'
    case 12 => '#'
    case 13 => '/'
    case 14 => '^'
    case 15 => 'S'
    case 16 => 'E'
    case _ => '!'
  }

  /** The seventeen table glyphs are pairwise distinct and none is the fallback. */
  lemma GlyphsDistinct(i: int, j: int)
    requires 0 <= i <= 16 && 0 <= j <= 16 && i != j
    ensures CoinSym(i) != CoinSym(j)
    ensures CoinSym(i) != Fallback
  {
  }

  /** The start and end sentinels render as 'S' and 'E'; an unvisited cell as a blank. */
  lemma SentinelGlyphs()
    ensures CoinSym(15) == 'S' && CoinSym(16) == 'E' && CoinSym(0) == ' '
  {
  }
}
