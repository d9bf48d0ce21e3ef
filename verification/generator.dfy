/** The current generator class: an alphabet, a setter with PHP-`empty()` fallback, and the
    byte-to-symbol mapping. The byte source is an explicit parameter: `bytes` stands for what
    the cryptographic source returned for the request. */
module RandomStringGenerator {
  import opened Php
  import opened Alphabets

  /** A generator; symbol `i` of its alphabet is the `i`-th character (the class keeps the
      `str_split` of the alphabet string, which holds the same symbols in the same order). */
  datatype Generator = Generator(alphabet: Alphabet)

  /** The alphabet an argument installs: a non-empty string as given, anything PHP considers
      empty (`null`, `""`, `"0"`) replaced by the alphanumeric alphabet. */
  function EffectiveAlphabet(arg: Value): (a: Alphabet)
    requires !arg.Arr?
    ensures IsEmpty(arg) ==> a == ALPHANUMERIC
    ensures !IsEmpty(arg) ==> arg.Str? && a == arg.s
  {
    if !IsEmpty(arg) then arg.s else ALPHANUMERIC
  }

  /** `new RandomStringGenerator($alphabet)`. */
  function NewGenerator(arg: Value): (g: Generator)
    requires !arg.Arr?
    ensures IsEmpty(arg) ==> g.alphabet == ALPHANUMERIC
    ensures !IsEmpty(arg) ==> g.alphabet == arg.s
  {
    Generator(EffectiveAlphabet(arg))
  }

  /** `$generator->alphabet($alphabet)`: returns the new state and the returned alphabet.
      An empty argument makes it a pure getter. */
  function SetAlphabet(g: Generator, arg: Value): (res: (Generator, string))
    requires !arg.Arr?
    ensures IsEmpty(arg) ==> res.0 == g
    ensures !IsEmpty(arg) ==> res.0.alphabet == arg.s
    ensures res.1 == res.0.alphabet
  {
    if !IsEmpty(arg) then (Generator(arg.s), arg.s) else (g, g.alphabet)
  }

  /** Setting a non-empty alphabet and then reading it back yields exactly that alphabet, and a
      second identical set changes nothing. */
  lemma SetAlphabetThenGet(g: Generator, arg: Value)
    requires !arg.Arr? && !IsEmpty(arg)
    ensures SetAlphabet(SetAlphabet(g, arg).0, Null).1 == arg.s
    ensures SetAlphabet(SetAlphabet(g, arg).0, arg).0 == SetAlphabet(g, arg).0
  {
  }

  /** The symbol a byte selects: the alphabet entry at the byte's value modulo the
      alphabet's length. */
  function SymbolFor(alphabet: Alphabet, b: byte): char {
    alphabet[b as int % |alphabet|]
  }

  /** `$generator->createString($length)`: a loop appending one symbol per byte. */
  function CreateString(g: Generator, length: int, bytes: seq<byte>): (r: string)
    requires |bytes| >= length
    ensures |r| == Max(0, length)
    ensures forall i :: 0 <= i < |r| ==> r[i] == SymbolFor(g.alphabet, bytes[i])
    ensures forall c :: c in r ==> c in g.alphabet
    decreases length
  {
    if length <= 0 then ""
    else CreateString(g, length - 1, bytes) + [SymbolFor(g.alphabet, bytes[length - 1])]
  }

  /** The output depends only on the first `length` bytes. */
  lemma CreateStringUsesPrefix(g: Generator, length: nat, bytes: seq<byte>, more: seq<byte>)
    requires |bytes| >= length && |more| >= length
    requires bytes[..length] == more[..length]
    ensures CreateString(g, length, bytes) == CreateString(g, length, more)
  {
    var r, r' := CreateString(g, length, bytes), CreateString(g, length, more);
    forall i | 0 <= i < length
      ensures r[i] == r'[i]
    {
      assert bytes[i] == bytes[..length][i];
    }
  }

  /** The static `RandomStringGenerator::generate($length, $alphabet)`. */
  function Generate(length: int, arg: Value, bytes: seq<byte>): (r: string)
    requires !arg.Arr?
    requires |bytes| >= length
    ensures r == CreateString(NewGenerator(arg), length, bytes)
    ensures |r| == Max(0, length)
    ensures forall c :: c in r ==> c in EffectiveAlphabet(arg)
  {
    var generator := NewGenerator(arg);
    CreateString(generator, length, bytes)
  }
}
