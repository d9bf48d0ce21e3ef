# Random string generator and composer, modelled in Dafny

This project models a PHP library that builds random strings from character alphabets. It has three parts:

- **The generator** (`RandomStringGenerator`, plus its legacy namespace-less twin). It maps random bytes to alphabet symbols: symbol `i` is `alphabet[byte_i mod |alphabet|]`. An alphabet that PHP's `empty()` treats as empty (`null`, `""`, `"0"`) falls back to the alphanumeric alphabet.
- **The requirement** (`RandomStringRequirement`). It binds a character count, normalised to at least one, to a generator over an alphabet.
- **The composer** (`RandomStringComposer`). It holds an ordered list of requirements and a default alphabet. `createString(length)` builds a pool: every requirement's output in insertion order, then default-alphabet padding up to `length`. It then drains the pool by repeatedly picking a random index, appending that character and splicing it out. `satisfiesRequirements` checks a string against the requirements: a minimum length, per-requirement lower bounds, upper bounds in strict mode, and a residual rule against the default alphabet.

Randomness is an explicit input, so every operation is a pure function of its arguments:

- `bytes: seq<byte>` stands for what the cryptographic byte source returned.
- `Draw(count, bytes)` stands for one requirement's `generate()` call: the count it drew and the bytes behind it.
- `picks: seq<int>` stands for the `random_int(0, $count - 1)` results of the shuffle loop.

Files and modules:

- `php.dfy`, module `Php`: the PHP behaviour the code relies on: `empty()`, `str_split`, string concatenation, bytes.
- `alphabets.dfy`, module `Alphabets`: the named alphabet constants.
- `generator.dfy`, module `RandomStringGenerator`: `src/RandomStringGenerator.php`.
- `legacy_generator.dfy`, module `LegacyRandomStringGenerator`: the root `RandomStringGenerator.php`.
- `requirement.dfy`, module `RandomStringRequirement`: `src/RandomStringRequirement.php`.
- `composer.dfy`, module `RandomStringComposer`: `src/RandomStringComposer.php`.
- `composer_properties.dfy`, module `ComposerProperties`: the round trip and the other lemmas relating composition to checking.

## Modelling assumptions

The composer calls a requirement class that `src/RandomStringRequirement.php` does not define. The composer uses a three-argument constructor, `minimumCount()`, `maximumCount()` and `matchedCount()` (`src/RandomStringComposer.php:40,169-174,182-183`). The class in `src/RandomStringRequirement.php` has a two-argument constructor and only `generate`/`count`, and it is modelled as written in `RandomStringRequirement`: it always generates its stored count, or the explicit non-zero argument. For the composer, a requirement is a triple `(minimum, maximum, alphabet)` with `0 <= minimum <= maximum` and `maximum >= 1`. On top of that:

- `matchedCount(s)` is the number of positions of `s` whose character is in the alphabet (`RandomStringComposer.MatchedCount`). For the disjoint alphabets the tests use, they count membership the same way (`tests/Generators/ComposerTests.php:39-52`).
- A composer requirement's `generate()` returns `count` characters from the current generator over its alphabet, where `count` is drawn within `[minimum, maximum]`. The doc comment of `addRequirement` (`src/RandomStringComposer.php:31-34`) describes the maximum as the number of characters to include, or their upper bound when a minimum is given.
- The doc comments of `addRequirement` and the `require*` shorthands (`src/RandomStringComposer.php:31-34,57-60`), whose arguments reach the requirement constructor unchanged, say only that without a minimum the count is exact and with one the maximum is an upper bound. The rest of the constructor's normalisation is a modelling assumption: the maximum is raised to `max(1, maximumCount)` (which `addRequirement`'s `> 0` guard already ensures), and a given minimum is clamped into `[0, maximum]`.
- The default generator's `alphabetString` (`src/RandomStringComposer.php:182`) is that generator's alphabet.

An empty alphabet is not rejected: it falls back to alphanumeric (`src/RandomStringGenerator.php:36-40`).

## Model

| member | source | states |
|---|---|---|
| Alphabets.AlphabetSizes | src/RandomStringGenerator.php:14-27 | The alphanumeric, upper-hex, lower-hex, mixed-hex and printable-ASCII alphabets have 62, 16, 16, 22 and 94 symbols. |
| Alphabets.AsciiIsCharRange | src/RandomStringGenerator.php:26-27 | The printable-ASCII alphabet lists the characters with codes 33 to 126 once each, in code order. |
| Alphabets.AsciiMembership | src/RandomStringGenerator.php:26-27 | A character is in the printable-ASCII alphabet if and only if it lies between '!' and '~'. |
| RandomStringGenerator.EffectiveAlphabet | src/RandomStringGenerator.php:38-41 | A PHP-empty argument (null, "", "0") yields the alphanumeric alphabet. Any other string is used as given. |
| RandomStringGenerator.NewGenerator | src/RandomStringGenerator.php:38-41 | A new generator's alphabet is alphanumeric for a PHP-empty argument, and otherwise the argument's characters in order. |
| RandomStringGenerator.SetAlphabet | src/RandomStringGenerator.php:48-53 | With an empty argument, alphabet() is a getter: the state is unchanged. A non-empty argument replaces the alphabet. The result is always the current alphabet. |
| RandomStringGenerator.SetAlphabetThenGet | src/RandomStringGenerator.php:48-53 | Reading the alphabet after setting it returns what was set. Setting the same value twice equals setting it once. |
| RandomStringGenerator.CreateString | src/RandomStringGenerator.php:60-69 | The output has exactly max(0, length) symbols. Symbol i is alphabet[bytes[i] mod \|alphabet\|], so every symbol is in the alphabet. |
| RandomStringGenerator.CreateStringUsesPrefix | src/RandomStringGenerator.php:60-69 | The output is a deterministic function of the first `length` bytes alone. |
| RandomStringGenerator.Generate | src/RandomStringGenerator.php:77-81 | The static generate equals createString on a fresh generator built from the argument. It has max(0, length) symbols, all from the effective alphabet. |
| LegacyRandomStringGenerator.Install | RandomStringGenerator.php:66-71 | An array argument becomes the symbol list as-is. A string argument is split into its characters. |
| LegacyRandomStringGenerator.NewGenerator | RandomStringGenerator.php:56-59 | A PHP-empty argument (null, "", "0", empty array) gives the split alphanumeric alphabet. Otherwise the argument is installed. |
| LegacyRandomStringGenerator.SetAlphabet | RandomStringGenerator.php:66-71 | An empty argument leaves the alphabet unchanged. An array replaces it as-is, a string replaces it with its characters. The result is the current alphabet. |
| LegacyRandomStringGenerator.Pieces | RandomStringGenerator.php:78-87 | generate appends max(0, n) symbols. Symbol i is alphabet[bytes[i] mod \|alphabet\|], a member of the alphabet. |
| LegacyRandomStringGenerator.Generate | RandomStringGenerator.php:78-87 | The output is the chosen symbols joined in order. When every symbol is a single character, it has exactly max(0, n) characters. |
| LegacyRandomStringGenerator.SplitAlphabetAgrees | RandomStringGenerator.php:84-85 | On the characters of a string alphabet, the legacy mapping produces the same string as the current createString from the same bytes. |
| LegacyRandomStringGenerator.AgreesWithCurrent | RandomStringGenerator.php:56-87 | Built from the same null or string argument (the empty fallback included), the legacy and current generators produce the same string from the same bytes. |
| RandomStringRequirement.NewRequirement | src/RandomStringRequirement.php:15-19 | The stored count is max(1, count): at least one, and equal to the argument when that is positive. The generator is built from the alphabet. |
| RandomStringRequirement.Count | src/RandomStringRequirement.php:33-36 | count() is at least one for every requirement: the constructor is the only writer of the count and stores max(1, count). |
| RandomStringRequirement.Generate | src/RandomStringRequirement.php:28-31 | generate(0) yields count() characters. generate(k) with k > 0 yields exactly k. A negative k yields nothing. Every character is from the requirement's alphabet. |
| RandomStringRequirement.GenerateDefaultLength | src/RandomStringRequirement.php:28-36 | For any constructed requirement, count() >= 1 and generate() with no argument yields exactly count() characters. |
| RandomStringRequirement.EmptyAlphabetFallsBack | src/RandomStringRequirement.php:15-19 | An alphabet of "" or "0" makes the requirement draw only alphanumeric characters. |
| RandomStringComposer.NewComposer | src/RandomStringComposer.php:24-27 | A new composer has no requirements. Its default alphabet is the argument, or alphanumeric when the argument is PHP-empty. The argument defaults to the letters alphabet, so callers that omit it (`src/helpers.php:39`) are `NewComposer(Str(names.letters))`. |
| RandomStringComposer.MakeRequirement | src/RandomStringComposer.php:40 | A constructed requirement is well-formed: 0 <= min <= max and max >= 1. Without a minimum it is exact. A given in-range minimum is kept. Its alphabet falls back like the generator's. |
| RandomStringComposer.RequireExisting | src/RandomStringComposer.php:49-53 | Appends exactly the given requirement at the end. Earlier requirements and the default are unchanged. |
| RandomStringComposer.AddRequirement | src/RandomStringComposer.php:29-42 | A maximum <= 0 leaves the composer unchanged. Otherwise exactly one requirement is appended, built from the given maximum, alphabet and minimum, and earlier entries and the default are unchanged. |
| RandomStringComposer.RequireClass | src/RandomStringComposer.php:62-113 | Each shorthand is addRequirement with its class's named alphabet: a no-op for maximum <= 0, otherwise one appended requirement built from the maximum, the named alphabet and the minimum. Earlier requirements and the default are unchanged, and validity is preserved. |
| RandomStringComposer.MatchedCount | src/RandomStringComposer.php:169 | The count is at most the string's length. It is zero exactly when no character is in the alphabet, and the full length exactly when every character is. |
| RandomStringComposer.MatchedCountPermutation | src/RandomStringComposer.php:169 | Two strings with the same characters as a multiset have the same matched count for every alphabet. |
| RandomStringComposer.Emit | src/RandomStringComposer.php:144-145 | A requirement's output has exactly the drawn count of characters, all from its alphabet. |
| RandomStringComposer.Generated | src/RandomStringComposer.php:143-145 | The requirements' outputs together have the sum of the drawn counts as their length. |
| RandomStringComposer.Pool | src/RandomStringComposer.php:141-151 | The pool starts with the requirement outputs in insertion order. Every later character is from the default alphabet. Its length is max(length, total drawn). |
| RandomStringComposer.PopShuffle | src/RandomStringComposer.php:125-132 | Draining by random index keeps the length and the multiset of characters: the output is a permutation of the pool. |
| RandomStringComposer.Shuffle | src/RandomStringComposer.php:125-132 | The drain loop terminates. Each step removes exactly the picked character and appends it, so the result equals the recursive pop-shuffle and is a permutation of the pool. |
| RandomStringComposer.Compose | src/RandomStringComposer.php:121-133 | The composed string is a permutation of the pool, max(length, total drawn) long. |
| RandomStringComposer.CreateString | src/RandomStringComposer.php:121-133 | createString returns a permutation of the pool, max(length, total drawn) characters long. It is exactly `length` long when the requirements drew no more than that. |
| RandomStringComposer.Scan | src/RandomStringComposer.php:167-178 | The requirement loop succeeds if and only if every requirement's count is within its bounds (upper bound only when strict). It then leaves length minus the sum of matched counts. |
| RandomStringComposer.SatisfiesRequirements | src/RandomStringComposer.php:161-186 | False when shorter than the minimum length. False when a count is below its minimum. In strict mode, false when a count is above its maximum. Otherwise, with residual = \|s\| minus the summed counts, a positive residual must equal the whole-string default-alphabet count, and a residual <= 0 accepts. |
| ComposerProperties.PoolCounts | src/RandomStringComposer.php:141-151 | With disjoint alphabets, the pool holds exactly each requirement's drawn count of its alphabet. Its default-alphabet characters are exactly the padding. |
| ComposerProperties.ComposedCounts | tests/Generators/ComposerTests.php:39-56 | With disjoint alphabets, a composed string matches each requirement exactly its drawn count. The rest of its characters are default-alphabet ones. |
| ComposerProperties.ComposedStringSatisfies | tests/Generators/ComposerTests.php:77-81 | Round trip: with disjoint alphabets, a composed string satisfies the composer's requirements in strict and lenient mode, at its own length and at the requested length. |
| ComposerProperties.StrictImpliesLenient | src/RandomStringComposer.php:171-175 | Every string accepted in strict mode is accepted in lenient mode. |
| ComposerProperties.LenientIgnoresMaximums | src/RandomStringComposer.php:171-175 | Lenient mode never rejects for exceeding a maximum: composers that differ only in their maximums accept the same strings. |
| ComposerProperties.OverlapRejectsOwnOutput | src/RandomStringComposer.php:180-184 | With overlapping alphabets (requirement "a", default "ab"), the composer builds "ab" and rejects it in both modes. The residual rule counts default characters over the whole string. |

## Left out

- The byte source (`openssl_random_pseudo_bytes`) and `random_int` are left out, as are the `wasCryptoStrong`/`crypto_strong` flags. Their results are inputs: `bytes`, `Draw.count` and `picks`, constrained to what the sources deliver (enough bytes, draws within bounds, picks within `[0, count - 1]`). The entropy-failure path lives in those sources and is not modelled.
- RandomStringGenerator.CreateString: for a length <= 0 the model returns "", the loop's result. The source asks the byte source for that many bytes first, and on PHP 7.4 and later (which the typed properties of `src/` require) `openssl_random_pseudo_bytes` throws for a non-positive length. The throw is not modelled.
- RandomStringGenerator.Generate: `generate(0)` and negative lengths throw in the source for the same reason. The model returns "".
- RandomStringRequirement.Generate: `generate($count)` with a negative count throws in the source for the same reason. The model returns "".
- LegacyRandomStringGenerator.Generate: for a length <= 0 the model returns "", which is what the untyped class does before PHP 7.4. From PHP 7.4 on, `openssl_random_pseudo_bytes` throws for a non-positive length, so `generate(0)` throws there. The throw is not modelled.
- Default arguments are not modelled: every model call passes all arguments. A call that omits them corresponds to the model call with the PHP default filled in:
  `createString()` on a generator is `RandomStringGenerator.CreateString(g, 16, bytes)` (`src/RandomStringGenerator.php:60`);
  the static `generate()` is `RandomStringGenerator.Generate(16, Str(ALPHANUMERIC), bytes)`, and `generate($n)` is `Generate(n, Str(ALPHANUMERIC), bytes)` (`src/RandomStringGenerator.php:77`);
  the legacy `generate()` is `LegacyRandomStringGenerator.Generate(g, 16, bytes)` (`RandomStringGenerator.php:78`);
  the composer's `createString()` is `RandomStringComposer.CreateString(c, 16, draws, padding, picks)` (`src/RandomStringComposer.php:121`);
  `satisfiesRequirements($s)` is `SatisfiesRequirements(c, s, 0, true)`, and `satisfiesRequirements($s, $n)` is `SatisfiesRequirements(c, s, n, true)` (`src/RandomStringComposer.php:161`);
  the `require*` shorthands without a maximum are `RequireClass(c, names, cls, 1, None)` (`src/RandomStringComposer.php:62-113`);
  `addRequirement($max, $alphabet)` is `AddRequirement(c, max, alphabet, None)`;
  the requirement's `generate()` is `RandomStringRequirement.Generate(r, 0, bytes)`;
  the constructors without an argument are `NewGenerator(Str(ALPHANUMERIC))`, legacy `NewGenerator(Null)` and `NewComposer(Str(names.letters))`.
- `calculateEntropyBits` and `get_entropy_bits` are left out: they use floating-point logarithms.
- Statistical properties are left out: uniformity of the shuffle, modulo bias, and optional requirements not always reaching their maximum. They are probabilistic.
- The CLI script `generator_test.php` and the wrappers in `src/helpers.php` are thin I/O wrappers and are not part of this model.
- The contents of the digit, punctuation, letter, lower-case and upper-case alphabets the composer names are not defined by the generator class shipped with it. They are parameters (`NamedAlphabets`). So the test scenarios over concrete strings, such as "o-?^N_Yr4x*tdT3nkgvU" and "password", are not modelled.
- RandomStringComposer.MakeRequirement: its normalisation (raising the maximum to one, clamping the minimum) is a modelling assumption, not documented behaviour. The class that implements it is not part of this model.
- RandomStringComposer.MatchedCount: its definition (one per position whose character is in the alphabet) is the modelling assumption stated above. The class that implements it is not part of this model.
- Requirement `generate` leaving `count()` and the alphabet unchanged holds by construction. The model is functional, and the only state `createString` writes is the crypto-strength flag, which is left out.
- `str_split` works on bytes. The model treats each character as one symbol, so multi-byte characters are not modelled. `str_split("")` returns `[""]` on older PHP versions; that case only reaches the shuffle as an empty result and is not modelled separately.
- LegacyRandomStringGenerator.Install: legacy alphabet arrays are modelled as lists of strings. Arrays with non-string elements or non-sequential keys are not modelled. Neither are the other values PHP treats as empty (`0`, `false`, `0.0`) for the untyped legacy argument.
- The `is_array` branch of the current generator's `alphabet()` is unreachable for its `?string` parameter and is not modelled.
