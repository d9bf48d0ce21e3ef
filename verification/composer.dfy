/** The requirement-based composer: an ordered list of requirements plus a default generator.
    `createString` pools every requirement's output in insertion order, pads the pool from the
    default alphabet up to the requested length and drains the pool in random order;
    `satisfiesRequirements` checks a string against the same requirements.

    The composer uses a requirement class with a minimum, a maximum and a `matchedCount`
    method that is not the requirement class of its own source file. It is modelled under these
    assumptions:
    - a requirement is a triple (minimum, maximum, alphabet) with 0 <= minimum <= maximum
      and maximum >= 1;
    - its `generate()` draws a count within [minimum, maximum] and returns that many
      characters from the current generator over its alphabet;
    - `matchedCount(s)` is the number of positions of `s` whose character belongs to the
      alphabet, each position counted once;
    - `alphabetString` of the default generator is the default generator's alphabet. */
module RandomStringComposer {
  import opened Php
  import opened Alphabets
  import G = RandomStringGenerator

  datatype Requirement = Requirement(minimum: int, maximum: int, alphabet: Alphabet)

  predicate ValidRequirement(r: Requirement) {
    0 <= r.minimum <= r.maximum && r.maximum >= 1
  }

  predicate AllValid(reqs: seq<Requirement>) {
    forall i :: 0 <= i < |reqs| ==> ValidRequirement(reqs[i])
  }

  datatype Composer = Composer(requirements: seq<Requirement>, default: G.Generator)

  predicate Valid(c: Composer) {
    AllValid(c.requirements)
  }

  /** The alphabets the `require*` shorthands name. Their contents are not defined by the
      generator class the composer is shipped with, so they are parameters here. */
  datatype NamedAlphabets =
    NamedAlphabets(digits: string, punctuation: string, letters: string, lowercase: string, uppercase: string)

  datatype CharClass = Digits | Punctuation | Letters | LowercaseLetters | UppercaseLetters

  function AlphabetOf(names: NamedAlphabets, cls: CharClass): string {
    match cls
    case Digits => names.digits
    case Punctuation => names.punctuation
    case Letters => names.letters
    case LowercaseLetters => names.lowercase
    case UppercaseLetters => names.uppercase
  }

  // ---------------------------------------------------------------------------------------
  // Configuration

  /** `new RandomStringComposer($defaultAlphabet)`: no requirements, and a default generator
      built from the argument (an empty one falls back to alphanumeric). The argument defaults
      to the letters alphabet, so a caller that omits it (as `compose_random_string` does) is
      `NewComposer(Str(names.letters))`. */
  function NewComposer(defaultAlphabet: Value): (c: Composer)
    requires !defaultAlphabet.Arr?
    ensures Valid(c) && c.requirements == []
    ensures IsEmpty(defaultAlphabet) ==> c.default.alphabet == ALPHANUMERIC
    ensures !IsEmpty(defaultAlphabet) ==> c.default.alphabet == defaultAlphabet.s
  {
    Composer([], G.NewGenerator(defaultAlphabet))
  }

  function Clamp(x: int, lo: int, hi: int): int
    requires lo <= hi
  {
    if x < lo then lo else if x > hi then hi else x
  }

  /** The composer's three-argument requirement constructor. The doc comments of
      `addRequirement` and the `require*` shorthands, whose arguments reach it unchanged, say
      only that without a minimum the count is exact and with one the maximum is an upper
      bound; the normalisation here (the maximum raised to at least one, a given minimum
      clamped into [0, maximum]) is a modelling assumption. */
  function MakeRequirement(maximumCount: int, alphabet: string, minimumCount: Option<int>): (r: Requirement)
    ensures ValidRequirement(r)
    ensures maximumCount >= 1 ==> r.maximum == maximumCount
    ensures minimumCount.None? ==> r.minimum == r.maximum
    ensures minimumCount.Some? && 0 <= minimumCount.value <= r.maximum ==> r.minimum == minimumCount.value
    ensures r.alphabet == G.EffectiveAlphabet(Str(alphabet))
  {
    var hi := Max(1, maximumCount);
    var lo := match minimumCount
      case None => hi
      case Some(m) => Clamp(m, 0, hi);
    Requirement(lo, hi, G.EffectiveAlphabet(Str(alphabet)))
  }

  /** `requireExisting($requirement)`: appends the requirement at the end. */
  function RequireExisting(c: Composer, r: Requirement): (c': Composer)
    requires ValidRequirement(r)
    ensures |c'.requirements| == |c.requirements| + 1
    ensures c'.requirements[..|c.requirements|] == c.requirements
    ensures c'.requirements[|c.requirements|] == r
    ensures c'.default == c.default
    ensures Valid(c) ==> Valid(c')
  {
    Composer(c.requirements + [r], c.default)
  }

  /** `addRequirement($maximumCount, $alphabet, $minimumCount)`: nothing changes unless the
      maximum is positive; otherwise exactly one requirement is appended, earlier ones kept. */
  function AddRequirement(c: Composer, maximumCount: int, alphabet: string, minimumCount: Option<int>): (c': Composer)
    ensures maximumCount <= 0 ==> c' == c
    ensures maximumCount > 0 ==> |c'.requirements| == |c.requirements| + 1
    ensures maximumCount > 0 ==> c'.requirements[..|c.requirements|] == c.requirements
    ensures maximumCount > 0 ==> c'.requirements[|c.requirements|] == MakeRequirement(maximumCount, alphabet, minimumCount)
    ensures c'.default == c.default
    ensures Valid(c) ==> Valid(c')
  {
    if maximumCount > 0 then RequireExisting(c, MakeRequirement(maximumCount, alphabet, minimumCount))
    else c
  }

  /** The shorthands `requireDigits`, `requirePunctuation`, `requireLetters`,
      `requireLowercaseLetters` and `requireUppercaseLetters` (whose maximum defaults to 1):
      `addRequirement` with the class's named alphabet. */
  function RequireClass(c: Composer, names: NamedAlphabets, cls: CharClass,
                        maximumCount: int, minimumCount: Option<int>): (c': Composer)
    ensures maximumCount <= 0 ==> c' == c
    ensures maximumCount > 0 ==> |c'.requirements| == |c.requirements| + 1
    ensures maximumCount > 0 ==> c'.requirements[..|c.requirements|] == c.requirements
    ensures maximumCount > 0 ==>
      c'.requirements[|c.requirements|] == MakeRequirement(maximumCount, AlphabetOf(names, cls), minimumCount)
    ensures c'.default == c.default
    ensures Valid(c) ==> Valid(c')
  {
    AddRequirement(c, maximumCount, AlphabetOf(names, cls), minimumCount)
  }

  // ---------------------------------------------------------------------------------------
  // Counting characters

  /** `matchedCount($s)`: the number of positions of `s` holding a character of `alphabet`.
      It is zero exactly when no character belongs and `|s|` exactly when every one does. */
  function MatchedCount(alphabet: string, s: string): (n: nat)
    ensures n <= |s|
    ensures n == 0 <==> forall i :: 0 <= i < |s| ==> s[i] !in alphabet
    ensures n == |s| <==> forall i :: 0 <= i < |s| ==> s[i] in alphabet
    decreases |s|
  {
    if |s| == 0 then 0 else (if s[0] in alphabet then 1 else 0) + MatchedCount(alphabet, s[1..])
  }

  lemma {:induction false} MatchedCountAppend(alphabet: string, u: string, v: string)
    ensures MatchedCount(alphabet, u + v) == MatchedCount(alphabet, u) + MatchedCount(alphabet, v)
    decreases |u|
  {
    if |u| > 0 {
      assert (u + v)[1..] == u[1..] + v;
      MatchedCountAppend(alphabet, u[1..], v);
    } else {
      assert u + v == v;
    }
  }

  /** Removing the character at position `k` lowers the count by one exactly when that
      character belongs to the alphabet. */
  lemma MatchedCountSplice(alphabet: string, t: string, k: int)
    requires 0 <= k < |t|
    ensures MatchedCount(alphabet, t)
         == MatchedCount(alphabet, t[..k] + t[k + 1..]) + (if t[k] in alphabet then 1 else 0)
  {
    var x := t[k];
    assert MatchedCount(alphabet, [x]) == if x in alphabet then 1 else 0 by {
      assert [x][1..] == [];
    }
    assert t == t[..k] + ([x] + t[k + 1..]);
    MatchedCountAppend(alphabet, t[..k], [x] + t[k + 1..]);
    MatchedCountAppend(alphabet, [x], t[k + 1..]);
    MatchedCountAppend(alphabet, t[..k], t[k + 1..]);
  }

  /** Removing one occurrence of `x` from two strings with the same characters leaves strings
      with the same characters. */
  lemma RemoveFromBoth(s: string, t: string, k: int)
    requires |s| > 0 && 0 <= k < |t| && t[k] == s[0]
    requires multiset(s) == multiset(t)
    ensures multiset(s[1..]) == multiset(t[..k] + t[k + 1..])
  {
    var x := s[0];
    assert s == [x] + s[1..];
    assert t == t[..k] + [x] + t[k + 1..];
    assert multiset(s[1..]) == multiset(s) - multiset{x};
    assert multiset(t[..k] + t[k + 1..]) == multiset(t) - multiset{x};
  }

  /** Counting ignores order: strings with the same characters (as a multiset) have the same
      count for every alphabet. */
  lemma {:induction false} MatchedCountPermutation(alphabet: string, s: string, t: string)
    requires multiset(s) == multiset(t)
    ensures MatchedCount(alphabet, s) == MatchedCount(alphabet, t)
    decreases |s|
  {
    if |s| == 0 {
      assert |t| == |multiset(t)| == 0;
    } else {
      assert s[0] in multiset(t);
      var k :| 0 <= k < |t| && t[k] == s[0];
      RemoveFromBoth(s, t, k);
      MatchedCountPermutation(alphabet, s[1..], t[..k] + t[k + 1..]);
      MatchedCountSplice(alphabet, t, k);
    }
  }

  // ---------------------------------------------------------------------------------------
  // Building the pool

  /** What one requirement's `generate()` drew: the count picked in [minimum, maximum] and the
      bytes behind its characters. */
  datatype Draw = Draw(count: int, bytes: seq<byte>)

  predicate Fits(r: Requirement, d: Draw) {
    r.minimum <= d.count <= r.maximum && |d.bytes| >= d.count
  }

  /** One draw per requirement, each within its requirement's bounds. */
  predicate DrawsFit(reqs: seq<Requirement>, draws: seq<Draw>) {
    |draws| == |reqs| && forall i :: 0 <= i < |reqs| ==> Fits(reqs[i], draws[i])
  }

  function SumCounts(draws: seq<Draw>): int
    decreases |draws|
  {
    if |draws| == 0 then 0 else draws[0].count + SumCounts(draws[1..])
  }

  /** One requirement's `generate()` output. */
  function Emit(r: Requirement, d: Draw): (out: string)
    requires ValidRequirement(r) && Fits(r, d)
    ensures |out| == d.count
    ensures forall c :: c in out ==> c in r.alphabet
  {
    G.CreateString(G.Generator(r.alphabet), d.count, d.bytes)
  }

  /** The requirements' outputs concatenated in insertion order. */
  function Generated(reqs: seq<Requirement>, draws: seq<Draw>): (out: string)
    requires AllValid(reqs) && DrawsFit(reqs, draws)
    ensures |out| == SumCounts(draws)
    decreases |reqs|
  {
    if |reqs| == 0 then ""
    else Emit(reqs[0], draws[0]) + Generated(reqs[1..], draws[1..])
  }

  /** `generateInputCharacterSet($length)`: the requirements' outputs, then as many characters
      of the default alphabet as are missing to reach `length`. */
  function Pool(c: Composer, length: int, draws: seq<Draw>, padding: seq<byte>): (pool: string)
    requires Valid(c) && DrawsFit(c.requirements, draws)
    requires |padding| >= length - SumCounts(draws)
    ensures |pool| == Max(length, SumCounts(draws))
    ensures var g := Generated(c.requirements, draws);
      && pool[..|g|] == g
      && forall i :: |g| <= i < |pool| ==> pool[i] in c.default.alphabet
  {
    var input := Generated(c.requirements, draws);
    var remaining := Max(0, length - |input|);
    if remaining > 0 then input + G.CreateString(c.default, remaining, padding) else input
  }

  // ---------------------------------------------------------------------------------------
  // Shuffling

  /** Random indices for draining a pool of `n` characters: the `j`-th pick lies in
      [0, n - j - 1], the range `random_int(0, $count - 1)` draws from at that step. */
  predicate PicksFit(picks: seq<int>, n: int) {
    |picks| == n && forall j :: 0 <= j < n ==> 0 <= picks[j] < n - j
  }

  /** The pop-shuffle as a recursive definition: take the picked character, splice it out,
      and continue with the rest. */
  function PopShuffle(pool: string, picks: seq<int>): (out: string)
    requires PicksFit(picks, |pool|)
    ensures |out| == |pool|
    ensures multiset(out) == multiset(pool)
    decreases |pool|
  {
    if |pool| == 0 then ""
    else
      var i := picks[0];
      assert pool == pool[..i] + [pool[i]] + pool[i + 1..];
      [pool[i]] + PopShuffle(pool[..i] + pool[i + 1..], picks[1..])
  }

  /** One step of the drain: the first pick's character comes first, the rest is drained from
      what is left with the remaining picks. */
  lemma PopShuffleStep(pool: string, picks: seq<int>)
    requires |pool| > 0 && PicksFit(picks, |pool|)
    ensures PicksFit(picks[1..], |pool| - 1)
    ensures PopShuffle(pool, picks)
         == [pool[picks[0]]] + PopShuffle(pool[..picks[0]] + pool[picks[0] + 1..], picks[1..])
  {
  }

  /** The composed string as a function of all the random input. */
  function Compose(c: Composer, length: int, draws: seq<Draw>, padding: seq<byte>, picks: seq<int>): (s: string)
    requires Valid(c) && DrawsFit(c.requirements, draws)
    requires |padding| >= length - SumCounts(draws)
    requires PicksFit(picks, Max(length, SumCounts(draws)))
    ensures |s| == Max(length, SumCounts(draws))
    ensures multiset(s) == multiset(Pool(c, length, draws, padding))
  {
    PopShuffle(Pool(c, length, draws, padding), picks)
  }

  /** The state the drain loop keeps: the picks still unused fit what is left of the pool, and
      draining the rest after what was taken gives the pop-shuffle of the whole pool. */
  predicate Draining(pool: string, picks: seq<int>, taken: string, input: string, remaining: seq<int>)
    requires PicksFit(picks, |pool|)
  {
    PicksFit(remaining, |input|) && taken + PopShuffle(input, remaining) == PopShuffle(pool, picks)
  }

  /** One iteration of the drain loop keeps its state. */
  lemma DrainStep(pool: string, picks: seq<int>, taken: string, input: string, remaining: seq<int>)
    requires PicksFit(picks, |pool|) && |input| > 0
    requires Draining(pool, picks, taken, input, remaining)
    ensures 0 <= remaining[0] < |input|
    ensures Draining(pool, picks, taken + [input[remaining[0]]],
                     input[..remaining[0]] + input[remaining[0] + 1..], remaining[1..])
  {
    var i := remaining[0];
    var rest := input[..i] + input[i + 1..];
    PopShuffleStep(input, remaining);
    assert taken + ([input[i]] + PopShuffle(rest, remaining[1..]))
        == (taken + [input[i]]) + PopShuffle(rest, remaining[1..]);
  }

  /** The drain loop of `createString`: while characters remain, append the picked one and
      splice it out. The output is a rearrangement of the pool. */
  method Shuffle(pool: string, picks: seq<int>) returns (shuffled: string)
    requires PicksFit(picks, |pool|)
    ensures shuffled == PopShuffle(pool, picks)
    ensures |shuffled| == |pool|
    ensures multiset(shuffled) == multiset(pool)
  {
    var left := pool;
    var unused := picks;
    shuffled := "";
    while |left| > 0
      invariant Draining(pool, picks, shuffled, left, unused)
      decreases |left|
    {
      DrainStep(pool, picks, shuffled, left, unused);
      var k := unused[0];
      shuffled := shuffled + [left[k]];
      left := left[..k] + left[k + 1..];
      unused := unused[1..];
    }
  }

  /** `createString($length)`: builds the pool and drains it in random order. The result is a
      rearrangement of the pool, `max(length, total drawn)` characters long, so exactly
      `length` long when the requirements drew no more than that. */
  method CreateString(c: Composer, length: int, draws: seq<Draw>, padding: seq<byte>, picks: seq<int>)
    returns (s: string)
    requires Valid(c) && DrawsFit(c.requirements, draws)
    requires |padding| >= length - SumCounts(draws)
    requires PicksFit(picks, Max(length, SumCounts(draws)))
    ensures s == PopShuffle(Pool(c, length, draws, padding), picks)
    ensures |s| == Max(length, SumCounts(draws))
    ensures multiset(s) == multiset(Pool(c, length, draws, padding))
    ensures SumCounts(draws) <= length ==> |s| == length
  {
    var input := Pool(c, length, draws, padding);
    s := Shuffle(input, picks);
  }

  // ---------------------------------------------------------------------------------------
  // Checking a string

  /** The per-requirement test of `satisfiesRequirements`. */
  predicate WithinBounds(r: Requirement, s: string, strict: bool) {
    var count := MatchedCount(r.alphabet, s);
    count >= r.minimum && (strict ==> count <= r.maximum)
  }

  function SumMatched(reqs: seq<Requirement>, s: string): int
    decreases |reqs|
  {
    if |reqs| == 0 then 0 else MatchedCount(reqs[0].alphabet, s) + SumMatched(reqs[1..], s)
  }

  /** The loop over the requirements: `None` as soon as one is out of bounds, otherwise the
      length left once every requirement's matched count is subtracted. */
  function Scan(reqs: seq<Requirement>, s: string, strict: bool, length: int): (rest: Option<int>)
    ensures rest.Some? <==> forall i :: 0 <= i < |reqs| ==> WithinBounds(reqs[i], s, strict)
    ensures rest.Some? ==> rest.value == length - SumMatched(reqs, s)
    decreases |reqs|
  {
    if |reqs| == 0 then Some(length)
    else
      var count := MatchedCount(reqs[0].alphabet, s);
      if count < reqs[0].minimum then None
      else if strict && count > reqs[0].maximum then None
      else Scan(reqs[1..], s, strict, length - count)
  }

  /** What is left of the length after every requirement's matched count. */
  function Residual(c: Composer, s: string): int {
    |s| - SumMatched(c.requirements, s)
  }

  /** `satisfiesRequirements($s, $minimumLength, $strictCounting)`. */
  function SatisfiesRequirements(c: Composer, s: string, minimumLength: int, strict: bool): (ok: bool)
    ensures |s| < minimumLength ==> !ok
    ensures forall i :: 0 <= i < |c.requirements| && MatchedCount(c.requirements[i].alphabet, s) < c.requirements[i].minimum ==> !ok
    ensures strict ==> forall i :: 0 <= i < |c.requirements| && MatchedCount(c.requirements[i].alphabet, s) > c.requirements[i].maximum ==> !ok
    ensures ok <==>
      && |s| >= minimumLength
      && (forall i :: 0 <= i < |c.requirements| ==> WithinBounds(c.requirements[i], s, strict))
      && (Residual(c, s) > 0 ==> MatchedCount(c.default.alphabet, s) == Residual(c, s))
  {
    if |s| < minimumLength then false
    else match Scan(c.requirements, s, strict, |s|)
      case None => false
      case Some(length) =>
        if length > 0 then MatchedCount(c.default.alphabet, s) == length else true
  }
}
