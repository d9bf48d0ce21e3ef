/** The requirement class as its own source file defines it: a character count normalised to
    at least one and a generator over the given alphabet. */
module RandomStringRequirement {
  import opened Php
  import opened Alphabets
  import G = RandomStringGenerator

  /** The stored count: the constructor is its only writer and stores at least one. */
  type Positive = n: int | n >= 1 witness 1

  datatype Requirement = Requirement(count: Positive, generator: G.Generator)

  /** `new RandomStringRequirement($count, $alphabet)`: the stored count is `max(1, $count)`,
      and the alphabet goes through the generator's constructor. */
  function NewRequirement(count: int, alphabet: string): (r: Requirement)
    ensures r.count >= 1
    ensures count >= 1 ==> r.count == count
    ensures count < 1 ==> r.count == 1
    ensures r.generator == G.NewGenerator(Str(alphabet))
  {
    Requirement(Max(1, count), G.NewGenerator(Str(alphabet)))
  }

  /** `$requirement->count()`: never below one, whatever count the constructor was given. */
  function Count(r: Requirement): (n: int)
    ensures n >= 1
  {
    r.count
  }

  /** The length `generate($count)` asks the generator for: `$count ?: $this->count`. */
  function RequestedLength(r: Requirement, count: int): int {
    if count != 0 then count else r.count
  }

  /** `$requirement->generate($count)`, with the bytes the generator draws. A zero count
      (the default) produces the stored count of characters, a positive count exactly that
      many, a negative one nothing; every character comes from the requirement's alphabet. */
  function Generate(r: Requirement, count: int, bytes: seq<byte>): (s: string)
    requires |bytes| >= RequestedLength(r, count)
    ensures count == 0 ==> |s| == Count(r)
    ensures count > 0 ==> |s| == count
    ensures count < 0 ==> s == ""
    ensures forall c :: c in s ==> c in r.generator.alphabet
  {
    G.CreateString(r.generator, RequestedLength(r, count), bytes)
  }

  /** For a constructed requirement, `count()` is at least one and `generate()` with no argument
      yields exactly `count()` characters. */
  lemma GenerateDefaultLength(count: int, alphabet: string, bytes: seq<byte>)
    requires |bytes| >= Max(1, count)
    ensures Count(NewRequirement(count, alphabet)) >= 1
    ensures |Generate(NewRequirement(count, alphabet), 0, bytes)| == Count(NewRequirement(count, alphabet))
  {
  }

  /** An alphabet PHP considers empty (`""` or `"0"`) makes the requirement draw from the
      alphanumeric alphabet. */
  lemma EmptyAlphabetFallsBack(count: int, alphabet: string, k: int, bytes: seq<byte>)
    requires alphabet == "" || alphabet == "0"
    requires |bytes| >= RequestedLength(NewRequirement(count, alphabet), k)
    ensures NewRequirement(count, alphabet).generator.alphabet == ALPHANUMERIC
    ensures forall c :: c in Generate(NewRequirement(count, alphabet), k, bytes) ==> c in ALPHANUMERIC
  {
  }
}
