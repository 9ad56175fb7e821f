/** The byte alphabet of a frame: C `char` cells compared as unsigned bytes. */
module Ascii {

  newtype Byte = x: int | 0 <= x < 256

  /** '\0', the value of a cell that was never written. */
  const NUL: Byte := 0
  /** ' ', the blank cell. */
  const BLANK: Byte := 32
  /** '?', the placeholder for bytes outside printable ASCII. */
  const PLACEHOLDER: Byte := 63

  /** Printable ASCII: codes 32 to 126. */
  predicate IsPrintable(ch: Byte) {
    32 <= ch <= 126
  }

  /** tui_sanitize_ascii: a printable byte is kept, any other byte becomes '?'. */
  function Sanitize(ch: Byte): (r: Byte)
    ensures IsPrintable(r)
    ensures IsPrintable(ch) ==> r == ch
    ensures !IsPrintable(ch) ==> r == PLACEHOLDER
    ensures r != ch <==> !IsPrintable(ch)
    ensures r == PLACEHOLDER <==> (ch < 32 || ch > 126 || ch == PLACEHOLDER)
  {
    if ch < 32 || ch > 126 then PLACEHOLDER else ch
  }

  lemma SanitizeIdempotent(ch: Byte)
    ensures Sanitize(Sanitize(ch)) == Sanitize(ch)
  {
  }
}
