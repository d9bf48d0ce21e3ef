/** The legacy, namespace-less generator class. Its alphabet is a list of symbols: a string
    argument is split into characters, an array argument is taken as-is (so a symbol may be
    longer than one character). */
module LegacyRandomStringGenerator {
  import opened Php
  import opened Alphabets
  import Current = RandomStringGenerator

  /** A non-empty list of symbols. */
  type Symbols = a: seq<string> | |a| > 0 witness ["0"]

  datatype Generator = Generator(alphabet: Symbols)

  /** The assignment in `alphabet()`: an array as-is, a string split into characters. */
  function Install(arg: Value): (a: Symbols)
    requires !IsEmpty(arg)
    ensures arg.Arr? ==> a == arg.items
    ensures arg.Str? ==> a == StrSplit(arg.s)
  {
    match arg
    case Arr(items) => items
    case Str(s) => StrSplit(s)
  }

  /** `new RandomStringGenerator($alphabet)`: an empty argument falls back to alphanumeric. */
  function NewGenerator(arg: Value): (g: Generator)
    ensures IsEmpty(arg) ==> g.alphabet == StrSplit(ALPHANUMERIC)
    ensures !IsEmpty(arg) ==> g.alphabet == Install(arg)
  {
    Generator(Install(if !IsEmpty(arg) then arg else Str(ALPHANUMERIC)))
  }

  /** `$generator->alphabet($alphabet)`: the new state and the returned symbol list. */
  function SetAlphabet(g: Generator, arg: Value): (res: (Generator, Symbols))
    ensures IsEmpty(arg) ==> res.0 == g
    ensures arg.Arr? && !IsEmpty(arg) ==> res.0.alphabet == arg.items
    ensures arg.Str? && !IsEmpty(arg) ==> res.0.alphabet == StrSplit(arg.s)
    ensures res.1 == res.0.alphabet
  {
    if !IsEmpty(arg) then (Generator(Install(arg)), Install(arg)) else (g, g.alphabet)
  }

  /** The symbols `generate($length)` appends, one per byte. */
  function Pieces(g: Generator, length: int, bytes: seq<byte>): (p: seq<string>)
    requires |bytes| >= length
    ensures |p| == Max(0, length)
    ensures forall i :: 0 <= i < |p| ==> p[i] == g.alphabet[bytes[i] as int % |g.alphabet|]
    ensures forall sym :: sym in p ==> sym in g.alphabet
    decreases length
  {
    if length <= 0 then []
    else Pieces(g, length - 1, bytes) + [g.alphabet[bytes[length - 1] as int % |g.alphabet|]]
  }

  /** `$generator->generate($length)`: the loop appends one symbol per byte, so the output is
      the symbols `Pieces` chooses joined in order, and when every symbol is one character
      (the case for any string alphabet) it has exactly `length` characters. */
  function Generate(g: Generator, length: int, bytes: seq<byte>): (r: string)
    requires |bytes| >= length
    ensures r == Concat(Pieces(g, length, bytes))
    ensures (forall i :: 0 <= i < |g.alphabet| ==> |g.alphabet[i]| == 1) ==> |r| == Max(0, length)
    decreases length
  {
    if length <= 0 then ""
    else
      assert Pieces(g, length, bytes)[..length - 1] == Pieces(g, length - 1, bytes);
      Generate(g, length - 1, bytes) + g.alphabet[bytes[length - 1] as int % |g.alphabet|]
  }

  /** Over the characters of a string alphabet, the legacy mapping produces exactly the string
      the current generator's `createString` produces from the same bytes. */
  lemma {:induction false} SplitAlphabetAgrees(a: Alphabet, length: int, bytes: seq<byte>)
    requires |bytes| >= length
    ensures Generate(Generator(StrSplit(a)), length, bytes)
         == Current.CreateString(Current.Generator(a), length, bytes)
    decreases length
  {
    if length > 0 {
      var k := bytes[length - 1] as int % |a|;
      assert StrSplit(a)[k] == [a[k]];
      SplitAlphabetAgrees(a, length - 1, bytes);
    }
  }

  /** Both generator classes, built from the same string argument, produce the same string
      from the same bytes (including the alphanumeric fallback for an empty argument). */
  lemma AgreesWithCurrent(arg: Value, length: int, bytes: seq<byte>)
    requires arg.Null? || arg.Str?
    requires |bytes| >= length
    ensures Generate(NewGenerator(arg), length, bytes)
         == Current.Generate(length, arg, bytes)
  {
    SplitAlphabetAgrees(Current.EffectiveAlphabet(arg), length, bytes);
  }
}
