/** The named alphabets of the generator classes. Both generator classes declare the
    alphanumeric, upper- and lower-case hexadecimal and printable-ASCII alphabets with the
    same contents; only the current one adds the mixed-case hexadecimal alphabet. */
module Alphabets {

  /** An alphabet a generator can draw from: at least one symbol. */
  type Alphabet = a: string | |a| > 0 witness "0"

  const DECIMAL_DIGITS := "0123456789"
  const LOWER_LETTERS := "abcdefghijklmnopqrstuvwxyz"
  const UPPER_LETTERS := "ABCDEFGHIJKLMNOPQRSTUVWXYZ"

  const ALPHANUMERIC: Alphabet := DECIMAL_DIGITS + LOWER_LETTERS + UPPER_LETTERS
  const HEX_UPPER: Alphabet := DECIMAL_DIGITS + "ABCDEF"
  const HEX_LOWER: Alphabet := DECIMAL_DIGITS + "abcdef"
  const HEX: Alphabet := DECIMAL_DIGITS + "abcdef" + "ABCDEF"
  /** Every printable ASCII character except the space, in code order. */
  const ASCII: Alphabet :=
    "!\"#$%&'()*+,-./" + DECIMAL_DIGITS + ":;<=>?@" + UPPER_LETTERS + "[\\]^_`" + LOWER_LETTERS + "{|}~"

  /** The characters with codes `lo` up to `hi - 1`, in code order. */
  function CharRange(lo: int, hi: int): (r: string)
    requires 0 <= lo <= hi <= 128
    ensures |r| == hi - lo
    ensures forall i :: 0 <= i < |r| ==> r[i] as int == lo + i
  {
    seq(hi - lo, i requires 0 <= i < hi - lo => (lo + i) as char)
  }

  lemma AlphabetSizes()
    ensures |ALPHANUMERIC| == 62 && |HEX_UPPER| == 16 && |HEX_LOWER| == 16
    ensures |HEX| == 22 && |ASCII| == 94
  {
  }

  lemma CharRangeConcat(lo: int, mid: int, hi: int)
    requires 0 <= lo <= mid <= hi <= 128
    ensures CharRange(lo, mid) + CharRange(mid, hi) == CharRange(lo, hi)
  {
  }

  /** The printable-ASCII alphabet lists the characters '!' through '~' in code order. */
  lemma AsciiIsCharRange()
    ensures ASCII == CharRange(33, 127)
  {
    assert "!\"#$%&'()*+,-./" == CharRange(33, 48);
    assert DECIMAL_DIGITS == CharRange(48, 58);
    assert ":;<=>?@" == CharRange(58, 65);
    assert UPPER_LETTERS == CharRange(65, 91);
    assert "[\\]^_`" == CharRange(91, 97);
    assert LOWER_LETTERS == CharRange(97, 123);
    assert "{|}~" == CharRange(123, 127);
    CharRangeConcat(33, 48, 58);
    CharRangeConcat(33, 58, 65);
    CharRangeConcat(33, 65, 91);
    CharRangeConcat(33, 91, 97);
    CharRangeConcat(33, 97, 123);
    CharRangeConcat(33, 123, 127);
  }

  /** A character belongs to the printable-ASCII alphabet exactly when it lies between '!'
      and '~'. */
  lemma AsciiMembership(c: char)
    ensures c in ASCII <==> '!' <= c <= '~'
  {
    AsciiIsCharRange();
    var r := CharRange(33, 127);
    if '!' <= c <= '~' {
      assert r[c as int - 33] == c;
    }
  }
}
