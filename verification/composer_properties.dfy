/** Properties relating composition and checking. */
module ComposerProperties {
  import opened Php
  import opened Alphabets
  import G = RandomStringGenerator
  import opened RandomStringComposer

  predicate Disjoint(a: string, b: string) {
    forall x :: x in a ==> x !in b
  }

  /** No character belongs to two requirement alphabets, nor to a requirement alphabet and the
      default alphabet. */
  predicate DisjointAlphabets(c: Composer) {
    && (forall i, j :: 0 <= i < j < |c.requirements| ==>
          Disjoint(c.requirements[i].alphabet, c.requirements[j].alphabet))
    && (forall i :: 0 <= i < |c.requirements| ==> Disjoint(c.requirements[i].alphabet, c.default.alphabet))
  }

  /** Requirement outputs contain nothing from an alphabet disjoint from all of theirs. */
  lemma {:induction false} GeneratedAvoids(reqs: seq<Requirement>, draws: seq<Draw>, a: string)
    requires AllValid(reqs) && DrawsFit(reqs, draws)
    requires forall i :: 0 <= i < |reqs| ==> Disjoint(reqs[i].alphabet, a)
    ensures MatchedCount(a, Generated(reqs, draws)) == 0
    decreases |reqs|
  {
    if |reqs| > 0 {
      var e := Emit(reqs[0], draws[0]);
      GeneratedAvoids(reqs[1..], draws[1..], a);
      MatchedCountAppend(a, e, Generated(reqs[1..], draws[1..]));
    }
  }

  /** With disjoint alphabets, the concatenated outputs hold exactly `count` characters of
      each requirement's alphabet. */
  lemma {:induction false} GeneratedMatchesDraw(reqs: seq<Requirement>, draws: seq<Draw>, k: int)
    requires AllValid(reqs) && DrawsFit(reqs, draws) && 0 <= k < |reqs|
    requires forall i, j :: 0 <= i < j < |reqs| ==> Disjoint(reqs[i].alphabet, reqs[j].alphabet)
    ensures MatchedCount(reqs[k].alphabet, Generated(reqs, draws)) == draws[k].count
    decreases |reqs|
  {
    var e := Emit(reqs[0], draws[0]);
    var rest := Generated(reqs[1..], draws[1..]);
    MatchedCountAppend(reqs[k].alphabet, e, rest);
    if k == 0 {
      forall i | 0 <= i < |reqs[1..]|
        ensures Disjoint(reqs[1..][i].alphabet, reqs[0].alphabet)
      {
        assert Disjoint(reqs[0].alphabet, reqs[i + 1].alphabet);
      }
      GeneratedAvoids(reqs[1..], draws[1..], reqs[0].alphabet);
    } else {
      assert Disjoint(reqs[0].alphabet, reqs[k].alphabet);
      GeneratedMatchesDraw(reqs[1..], draws[1..], k - 1);
    }
  }

  lemma {:induction false} SumMatchedIsSumCounts(reqs: seq<Requirement>, draws: seq<Draw>, s: string)
    requires |draws| == |reqs|
    requires forall i :: 0 <= i < |reqs| ==> MatchedCount(reqs[i].alphabet, s) == draws[i].count
    ensures SumMatched(reqs, s) == SumCounts(draws)
    decreases |reqs|
  {
    if |reqs| > 0 {
      SumMatchedIsSumCounts(reqs[1..], draws[1..], s);
    }
  }

  /** With disjoint alphabets, the pool holds exactly each requirement's drawn count of its
      alphabet, and the padding is all that matches the default alphabet. */
  lemma PoolCounts(c: Composer, length: int, draws: seq<Draw>, padding: seq<byte>)
    requires Valid(c) && DrawsFit(c.requirements, draws) && DisjointAlphabets(c)
    requires |padding| >= length - SumCounts(draws)
    ensures var pool := Pool(c, length, draws, padding);
      && (forall k :: 0 <= k < |draws| ==> MatchedCount(c.requirements[k].alphabet, pool) == draws[k].count)
      && MatchedCount(c.default.alphabet, pool) == |pool| - SumCounts(draws)
  {
    var reqs := c.requirements;
    var pool := Pool(c, length, draws, padding);
    var g := Generated(reqs, draws);
    var pad := pool[|g|..];
    assert pool == g + pad;
    assert forall i :: 0 <= i < |pad| ==> pad[i] in c.default.alphabet;
    forall k | 0 <= k < |draws|
      ensures MatchedCount(reqs[k].alphabet, pool) == draws[k].count
    {
      GeneratedMatchesDraw(reqs, draws, k);
      PaddingAvoids(pad, reqs[k].alphabet, c.default.alphabet);
      MatchedCountAppend(reqs[k].alphabet, g, pad);
    }
    PoolDefaultCount(c, length, draws, padding);
  }

  /** Padding drawn from the default alphabet holds nothing of an alphabet disjoint from it. */
  lemma PaddingAvoids(pad: string, a: string, default: string)
    requires forall i :: 0 <= i < |pad| ==> pad[i] in default
    requires Disjoint(a, default)
    ensures MatchedCount(a, pad) == 0
  {
  }

  /** The pool's default-alphabet characters are exactly its padding. */
  lemma PoolDefaultCount(c: Composer, length: int, draws: seq<Draw>, padding: seq<byte>)
    requires Valid(c) && DrawsFit(c.requirements, draws) && DisjointAlphabets(c)
    requires |padding| >= length - SumCounts(draws)
    ensures MatchedCount(c.default.alphabet, Pool(c, length, draws, padding))
         == |Pool(c, length, draws, padding)| - SumCounts(draws)
  {
    var pool := Pool(c, length, draws, padding);
    var g := Generated(c.requirements, draws);
    var pad := pool[|g|..];
    assert pool == g + pad;
    GeneratedAvoids(c.requirements, draws, c.default.alphabet);
    MatchedCountAppend(c.default.alphabet, g, pad);
  }

  /** A composed string from disjoint alphabets holds exactly each requirement's drawn count of
      that requirement's characters; the rest are default-alphabet characters. */
  lemma ComposedCounts(c: Composer, length: int, draws: seq<Draw>, padding: seq<byte>, picks: seq<int>)
    requires Valid(c) && DrawsFit(c.requirements, draws) && DisjointAlphabets(c)
    requires |padding| >= length - SumCounts(draws)
    requires PicksFit(picks, Max(length, SumCounts(draws)))
    ensures var s := Compose(c, length, draws, padding, picks);
      && (forall k :: 0 <= k < |draws| ==> MatchedCount(c.requirements[k].alphabet, s) == draws[k].count)
      && MatchedCount(c.default.alphabet, s) == |s| - SumCounts(draws)
  {
    var pool := Pool(c, length, draws, padding);
    var s := Compose(c, length, draws, padding, picks);
    PoolCounts(c, length, draws, padding);
    forall k | 0 <= k < |draws|
      ensures MatchedCount(c.requirements[k].alphabet, s) == draws[k].count
    {
      MatchedCountPermutation(c.requirements[k].alphabet, s, pool);
    }
    MatchedCountPermutation(c.default.alphabet, s, pool);
  }

  /** Round trip: a string the composer builds from disjoint alphabets satisfies the composer's
      own requirements, strictly and leniently, at the requested length and at its own. */
  lemma ComposedStringSatisfies(c: Composer, length: int, draws: seq<Draw>, padding: seq<byte>, picks: seq<int>, s: string)
    requires Valid(c) && DrawsFit(c.requirements, draws) && DisjointAlphabets(c)
    requires |padding| >= length - SumCounts(draws)
    requires PicksFit(picks, Max(length, SumCounts(draws)))
    requires s == Compose(c, length, draws, padding, picks)
    ensures SatisfiesRequirements(c, s, |s|, true)
    ensures SatisfiesRequirements(c, s, length, true)
    ensures SatisfiesRequirements(c, s, length, false)
  {
    ComposedCounts(c, length, draws, padding, picks);
    ExactCountsSatisfy(c, draws, s, |s|, true);
    ExactCountsSatisfy(c, draws, s, length, true);
    ExactCountsSatisfy(c, draws, s, length, false);
  }

  /** A string that holds exactly each requirement's drawn count, with every other character
      from the default alphabet, passes the check at any minimum length it reaches. */
  lemma ExactCountsSatisfy(c: Composer, draws: seq<Draw>, s: string, minimumLength: int, strict: bool)
    requires DrawsFit(c.requirements, draws)
    requires forall k :: 0 <= k < |draws| ==> MatchedCount(c.requirements[k].alphabet, s) == draws[k].count
    requires MatchedCount(c.default.alphabet, s) == |s| - SumCounts(draws)
    requires |s| >= minimumLength
    ensures SatisfiesRequirements(c, s, minimumLength, strict)
  {
    SumMatchedIsSumCounts(c.requirements, draws, s);
  }

  /** Whatever passes strict counting passes lenient counting. */
  lemma StrictImpliesLenient(c: Composer, s: string, minimumLength: int)
    ensures SatisfiesRequirements(c, s, minimumLength, true) ==> SatisfiesRequirements(c, s, minimumLength, false)
  {
  }

  /** Lenient counting never looks at a maximum: composers that differ only in their
      requirements' maximums accept the same strings. */
  lemma LenientIgnoresMaximums(c: Composer, d: Composer, s: string, minimumLength: int)
    requires c.default == d.default && |c.requirements| == |d.requirements|
    requires forall i :: 0 <= i < |c.requirements| ==>
      c.requirements[i].minimum == d.requirements[i].minimum
      && c.requirements[i].alphabet == d.requirements[i].alphabet
    ensures SatisfiesRequirements(c, s, minimumLength, false) == SatisfiesRequirements(d, s, minimumLength, false)
  {
    SameAlphabetsSameSum(c.requirements, d.requirements, s);
  }

  lemma {:induction false} SameAlphabetsSameSum(reqs: seq<Requirement>, others: seq<Requirement>, s: string)
    requires |reqs| == |others|
    requires forall i :: 0 <= i < |reqs| ==> reqs[i].alphabet == others[i].alphabet
    ensures SumMatched(reqs, s) == SumMatched(others, s)
    decreases |reqs|
  {
    if |reqs| > 0 {
      SameAlphabetsSameSum(reqs[1..], others[1..], s);
    }
  }

  /** The composer of the overlap example: one requirement of exactly one "a", and the
      default alphabet "ab". */
  function OverlapExample(): Composer {
    Composer([Requirement(1, 1, "a")], G.Generator("ab"))
  }

  lemma OverlapExamplePool()
    ensures Pool(OverlapExample(), 2, [Draw(1, [0])], [1]) == "ab"
  {
    var c := OverlapExample();
    var draws := [Draw(1, [0])];
    var e := G.CreateString(G.Generator("a"), 1, [0]);
    assert e == "a" by {
      assert |e| == 1 && e[0] == G.SymbolFor("a", 0);
    }
    assert Generated(c.requirements, draws) == "a" by {
      assert Generated(c.requirements[1..], draws[1..]) == "";
    }
    var pad := G.CreateString(c.default, 1, [1]);
    assert pad == "b" by {
      assert |pad| == 1 && pad[0] == G.SymbolFor("ab", 1);
    }
  }

  lemma OverlapExampleShuffle()
    ensures PopShuffle("ab", [0, 0]) == "ab"
  {
    assert PopShuffle("b", [0]) == "b" + PopShuffle("", []);
  }

  lemma OverlapExampleRejected()
    ensures !SatisfiesRequirements(OverlapExample(), "ab", 2, true)
    ensures !SatisfiesRequirements(OverlapExample(), "ab", 2, false)
  {
    assert MatchedCount("a", "ab") == 1 by {
      assert "ab"[1..] == "b" && "b"[1..] == "";
    }
    assert MatchedCount("ab", "ab") == 2 by {
      assert "ab"[1..] == "b" && "b"[1..] == "";
    }
  }

  /** With overlapping alphabets the composer can reject its own output: the residual rule
      counts default-alphabet characters over the whole string, including those a requirement
      already matched. Here the requirement takes one "a", the padding draws "b", and the
      composed "ab" fails in both counting modes. */
  lemma OverlapRejectsOwnOutput()
    ensures var s := Compose(OverlapExample(), 2, [Draw(1, [0])], [1], [0, 0]);
      && s == "ab"
      && !SatisfiesRequirements(OverlapExample(), s, 2, true)
      && !SatisfiesRequirements(OverlapExample(), s, 2, false)
  {
    OverlapExamplePool();
    OverlapExampleShuffle();
    OverlapExampleRejected();
  }
}
