/** The bounded list of Number radix cases: every boundary value in every radix, then
    fixed-seed samples. */
module RadixCases {
  import opened Finite
  import opened Schema
  import opened SplitMix

  const MIN_RADIX: nat := 2
  const MAX_RADIX: nat := 36
  const RADIX_COUNT: nat := 35
  const MAX_CASES: nat := 1024

  datatype Case = Case(bits: u64, radix: nat)

  datatype BuildError =
    CountOverflow | TooManyCases(total: nat) | DuplicateBoundary(bits: u64, radix: nat) | OutOfAttempts

  /** Expanded size, refused when it leaves the machine word or the limit. */
  function ValidateCaseCount(boundaryCount: nat, sampleCount: nat): (r: Result<nat, BuildError>)
    ensures r.Ok? <==> 35 * boundaryCount + sampleCount <= 1024
    ensures r.Ok? ==> r.value == RADIX_COUNT * boundaryCount + sampleCount
  {
    if boundaryCount * RADIX_COUNT > U64_MAX then Err(CountOverflow)
    else
      var total := boundaryCount * RADIX_COUNT + sampleCount;
      if total > U64_MAX then Err(CountOverflow)
      else if total > MAX_CASES then Err(TooManyCases(total))
      else Ok(total)
  }

  // ------------------------------------------------------- boundary cases

  predicate DistinctWords(words: seq<u64>) { forall i, j :: 0 <= i < j < |words| ==> words[i] != words[j] }

  function Row(bits: u64): seq<Case> { seq(RADIX_COUNT, (i: nat) => Case(bits, MIN_RADIX + i)) }

  /** Every boundary value in every radix, in order. */
  function BoundaryCases(boundary: seq<u64>): (r: seq<Case>)
    ensures |r| == RADIX_COUNT * |boundary|
  {
    if boundary == [] then []
    else BoundaryCases(boundary[..|boundary| - 1]) + Row(boundary[|boundary| - 1])
  }

  predicate Expanded(boundary: seq<u64>, c: Case) { c.bits in boundary && MIN_RADIX <= c.radix <= MAX_RADIX }

  lemma {:induction false} BoundaryMembers(boundary: seq<u64>, c: Case)
    ensures c in BoundaryCases(boundary) <==> Expanded(boundary, c)
  {
    if boundary != [] {
      var rest, last := boundary[..|boundary| - 1], boundary[|boundary| - 1];
      BoundaryMembers(rest, c);
      assert boundary == rest + [last];
      if c.bits == last && MIN_RADIX <= c.radix <= MAX_RADIX { assert Row(last)[c.radix - MIN_RADIX] == c; }
    }
  }

  /** Appends one value in every radix, unless a case was seen before. */
  method AddRow(bits: u64, cases: seq<Case>, unique: set<Case>, ghost before: seq<u64>)
    returns (duplicate: Option<nat>, cases': seq<Case>, unique': set<Case>)
    requires forall c :: c in unique <==> Expanded(before, c)
    ensures duplicate.None? <==> bits !in before
    ensures duplicate.None? ==> cases' == cases + Row(bits)
    ensures duplicate.None? ==> forall c :: c in unique' <==> Expanded(before + [bits], c)
  {
    cases', unique' := cases, unique;
    var radix := MIN_RADIX;
    while radix <= MAX_RADIX
      invariant MIN_RADIX <= radix <= MAX_RADIX + 1
      invariant radix > MIN_RADIX ==> bits !in before
      invariant cases' == cases + Row(bits)[..radix - MIN_RADIX]
      invariant forall c :: c in unique' <==> Expanded(before, c) || (c.bits == bits && MIN_RADIX <= c.radix < radix)
    {
      var c := Case(bits, radix);
      if c in unique' {
        return Some(radix), cases', unique';
      }
      assert Row(bits)[..radix - MIN_RADIX] + [c] == Row(bits)[..radix - MIN_RADIX + 1];
      cases', unique' := cases' + [c], unique' + {c};
      radix := radix + 1;
    }
    assert Row(bits)[..RADIX_COUNT] == Row(bits);
    return None, cases', unique';
  }

  lemma DistinctPrefix(words: seq<u64>, i: nat)
    requires i < |words| && DistinctWords(words[..i])
    ensures words[i] in words[..i] ==> !DistinctWords(words)
    ensures words[i] !in words[..i] ==> DistinctWords(words[..i + 1])
  {
    if words[i] in words[..i] {
      var j :| 0 <= j < i && words[j] == words[i];
    }
  }

  method BoundaryStage(boundary: seq<u64>) returns (r: Result<seq<Case>, BuildError>, unique: set<Case>)
    ensures r.Ok? <==> DistinctWords(boundary)
    ensures r.Ok? ==> r.value == BoundaryCases(boundary) && forall c :: c in unique <==> Expanded(boundary, c)
  {
    var cases: seq<Case> := [];
    unique := {};
    for i := 0 to |boundary|
      invariant DistinctWords(boundary[..i])
      invariant cases == BoundaryCases(boundary[..i])
      invariant forall c :: c in unique <==> Expanded(boundary[..i], c)
    {
      DistinctPrefix(boundary, i);
      assert boundary[..i + 1] == boundary[..i] + [boundary[i]];
      var duplicate, cases', unique' := AddRow(boundary[i], cases, unique, boundary[..i]);
      if duplicate.Some? {
        return Err(DuplicateBoundary(boundary[i], duplicate.value)), unique;
      }
      assert boundary[..i + 1][..i] == boundary[..i];
      cases, unique := cases', unique';
    }
    assert boundary[..|boundary|] == boundary;
    return Ok(cases), unique;
  }

  // ------------------------------------------------------- samples

  /** The case of attempt `a`: two draws, one for the bits and one for the radix. */
  function Sample(draws: Draws, a: nat): Case {
    Case(draws(2 * a), MIN_RADIX + draws(2 * a + 1) % RADIX_COUNT)
  }

  /** From a seed, attempt `a` mixes the states after 2a + 1 and 2a + 2 increments: the first
      into the bits, the second into one of the radices 2 to 36. */
  lemma SampleStates(seed: u64, a: nat)
    ensures var bits := Mix((seed + (2 * a + 1) * 0x9e37_79b9_7f4a_7c15) % 0x1_0000_0000_0000_0000);
            var offset := Mix((seed + (2 * a + 2) * 0x9e37_79b9_7f4a_7c15) % 0x1_0000_0000_0000_0000) % 35;
            Sample(DrawsOf(seed), a) == Case(bits, 2 + offset) && 2 <= 2 + offset <= 36
  {}

  predicate Differs(draws: Draws, a: nat, b: nat) { Sample(draws, a).bits != Sample(draws, b).bits }

  /** No two of the first `n` attempts draw the same bits. */
  ghost predicate NoRepeat(draws: Draws, n: nat) { forall a: nat, b: nat :: a < b < n ==> Differs(draws, a, b) }

  /** Samples of the first `n` attempts that are not boundary values, in order. */
  function Kept(draws: Draws, boundary: seq<u64>, n: nat): seq<Case> {
    if n == 0 then []
    else
      Kept(draws, boundary, n - 1) + if Sample(draws, n - 1).bits in boundary then [] else [Sample(draws, n - 1)]
  }

  /** Bits of the first `n` attempts that are boundary values and so are rejected, in order. */
  function Hits(draws: Draws, boundary: seq<u64>, n: nat): seq<u64> {
    if n == 0 then []
    else
      Hits(draws, boundary, n - 1) +
      if Sample(draws, n - 1).bits in boundary then [Sample(draws, n - 1).bits] else []
  }

  lemma {:induction false} HitIsDraw(draws: Draws, boundary: seq<u64>, n: nat, bits: u64) returns (a: nat)
    requires bits in Hits(draws, boundary, n)
    ensures a < n && bits == Sample(draws, a).bits && bits in boundary
  {
    if bits in Hits(draws, boundary, n - 1) {
      a := HitIsDraw(draws, boundary, n - 1, bits);
    } else {
      a := n - 1;
    }
  }

  lemma {:induction false} KeptIsDraw(draws: Draws, boundary: seq<u64>, n: nat, c: Case) returns (a: nat)
    requires c in Kept(draws, boundary, n)
    ensures a < n && c == Sample(draws, a) && c.bits !in boundary
  {
    if c in Kept(draws, boundary, n - 1) {
      a := KeptIsDraw(draws, boundary, n - 1, c);
    } else {
      a := n - 1;
    }
  }

  /** Every attempt is kept or rejected. */
  lemma {:induction false} RejectionsAreHits(draws: Draws, boundary: seq<u64>, n: nat)
    ensures |Kept(draws, boundary, n)| + |Hits(draws, boundary, n)| == n
  {
    if n > 0 { RejectionsAreHits(draws, boundary, n - 1); }
  }

  lemma FreshBits(draws: Draws, boundary: seq<u64>, n: nat)
    requires NoRepeat(draws, n + 1)
    ensures Sample(draws, n).bits !in Hits(draws, boundary, n)
  {
    forall a: nat | a < n ensures Sample(draws, a).bits != Sample(draws, n).bits { assert Differs(draws, a, n); }
    if Sample(draws, n).bits in Hits(draws, boundary, n) {
      var a := HitIsDraw(draws, boundary, n, Sample(draws, n).bits);
    }
  }

  /** Each rejected attempt uses up a boundary value of its own. */
  lemma {:induction false} HitsDistinct(draws: Draws, boundary: seq<u64>, n: nat)
    requires NoRepeat(draws, n)
    ensures DistinctWords(Hits(draws, boundary, n))
  {
    if n > 0 {
      FewerDraws(draws, n - 1, n);
      HitsDistinct(draws, boundary, n - 1);
      FreshBits(draws, boundary, n - 1);
      AppendDistinct(Hits(draws, boundary, n - 1), Sample(draws, n - 1).bits);
    }
  }

  lemma AppendDistinct(s: seq<u64>, x: u64)
    requires DistinctWords(s) && x !in s
    ensures DistinctWords(s + [x])
  {}

  /** A later sample never repeats a kept one. */
  lemma FreshSample(draws: Draws, boundary: seq<u64>, n: nat)
    requires NoRepeat(draws, n + 1)
    ensures Sample(draws, n) !in Kept(draws, boundary, n)
  {
    forall a: nat | a < n ensures Sample(draws, a) != Sample(draws, n) { assert Differs(draws, a, n); }
    if Sample(draws, n) in Kept(draws, boundary, n) {
      var a := KeptIsDraw(draws, boundary, n, Sample(draws, n));
    }
  }

  function Words(s: seq<u64>): set<u64> { set x | x in s }

  lemma {:induction false} WordsSize(s: seq<u64>)
    ensures |Words(s)| <= |s|
    ensures DistinctWords(s) ==> |Words(s)| == |s|
  {
    if s != [] {
      var t, last := s[..|s| - 1], s[|s| - 1];
      WordsSize(t);
      assert s == t + [last];
      assert Words(s) == Words(t) + {last};
    }
  }

  /** Rejected draws number at most the boundary values. */
  lemma HitsBounded(draws: Draws, boundary: seq<u64>, n: nat)
    requires NoRepeat(draws, n)
    ensures |Hits(draws, boundary, n)| <= |boundary|
  {
    forall bits | bits in Hits(draws, boundary, n) ensures bits in Words(boundary) {
      var a := HitIsDraw(draws, boundary, n, bits);
    }
    HitsDistinct(draws, boundary, n);
    WordsSize(Hits(draws, boundary, n));
    SubsetSize(Words(Hits(draws, boundary, n)), Words(boundary));
    WordsSize(boundary);
  }

  lemma {:induction false} KeptPrefix(draws: Draws, boundary: seq<u64>, m: nat, n: nat)
    requires m <= n
    ensures |Kept(draws, boundary, m)| <= |Kept(draws, boundary, n)|
    ensures Kept(draws, boundary, n)[..|Kept(draws, boundary, m)|] == Kept(draws, boundary, m)
  {
    if m < n { KeptPrefix(draws, boundary, m, n - 1); }
  }

  lemma GeneratorNeverRepeats(seed: u64, n: nat)
    requires 2 * n <= WORDS
    ensures NoRepeat(DrawsOf(seed), n)
  {
    forall a: nat, b: nat | a < b < n ensures Differs(DrawsOf(seed), a, b) { DrawsDistinct(seed, 2 * a, 2 * b); }
  }

  lemma FewerDraws(draws: Draws, m: nat, n: nat)
    requires m <= n && NoRepeat(draws, n)
    ensures NoRepeat(draws, m)
  {}

  /** State of the sampling loop after `n` attempts. */
  ghost predicate Sampling(draws: Draws, s: nat, boundary: seq<u64>, n: nat, cases: seq<Case>, unique: set<Case>) {
    && n <= 4 * s && NoRepeat(draws, 4 * s)
    && cases == BoundaryCases(boundary) + Kept(draws, boundary, n) && |Kept(draws, boundary, n)| <= s
    && forall c :: c in unique <==> Expanded(boundary, c) || c in Kept(draws, boundary, n)
  }

  lemma SamplingStep(draws: Draws, s: nat, boundary: seq<u64>, n: nat, cases: seq<Case>, unique: set<Case>)
    requires Sampling(draws, s, boundary, n, cases, unique) && n < 4 * s && |cases| < RADIX_COUNT * |boundary| + s
    ensures var c := Sample(draws, n);
            if c in unique then Sampling(draws, s, boundary, n + 1, cases, unique)
            else Sampling(draws, s, boundary, n + 1, cases + [c], unique + {c})
  {
    var c := Sample(draws, n);
    FewerDraws(draws, n + 1, 4 * s);
    FreshSample(draws, boundary, n);
    assert c in unique <==> c.bits in boundary;
    if c !in unique {
      assert Kept(draws, boundary, n + 1) == Kept(draws, boundary, n) + [c];
      assert cases + [c] == BoundaryCases(boundary) + Kept(draws, boundary, n + 1);
    } else {
      assert Kept(draws, boundary, n + 1) == Kept(draws, boundary, n);
    }
  }

  lemma SamplingDone(draws: Draws, s: nat, boundary: seq<u64>, n: nat, cases: seq<Case>, unique: set<Case>)
    requires Sampling(draws, s, boundary, n, cases, unique) && |cases| >= RADIX_COUNT * |boundary| + s
    ensures |Hits(draws, boundary, 4 * s)| <= 3 * s
    ensures s <= |Kept(draws, boundary, 4 * s)| && cases == BoundaryCases(boundary) + Kept(draws, boundary, 4 * s)[..s]
  {
    KeptPrefix(draws, boundary, n, 4 * s);
    RejectionsAreHits(draws, boundary, 4 * s);
  }

  lemma SamplingFails(draws: Draws, s: nat, boundary: seq<u64>, cases: seq<Case>, unique: set<Case>)
    requires Sampling(draws, s, boundary, 4 * s, cases, unique) && |cases| < RADIX_COUNT * |boundary| + s
    ensures |Hits(draws, boundary, 4 * s)| > 3 * s
  {
    RejectionsAreHits(draws, boundary, 4 * s);
  }

  /** Two draws make one case. */
  method NextCase(random: SplitMix64, ghost seed: u64, ghost states: States, ghost draws: Draws, ghost a: nat)
    returns (c: Case)
    requires Generates(seed, draws) && Advances(seed, states) && random.state == states(2 * a)
    modifies random
    ensures random.state == states(2 * (a + 1))
    ensures c == Sample(draws, a)
  {
    var bits := random.Next(seed, states, draws, 2 * a);
    var offset := random.Next(seed, states, draws, 2 * a + 1);
    c := Case(bits, MIN_RADIX + offset % RADIX_COUNT);
  }

  /** Draws samples until there are enough or the attempts run out. */
  method SampleStage(seed: u64, ghost states: States, ghost draws: Draws, s: nat, boundary: seq<u64>,
                     start: seq<Case>, seen: set<Case>)
    returns (r: Result<seq<Case>, BuildError>)
    requires Generates(seed, draws) && Advances(seed, states) && Sampling(draws, s, boundary, 0, start, seen)
    ensures r.Ok? <==> EnoughKept(draws, boundary, s)
    ensures r.Ok? ==> s <= |Kept(draws, boundary, 4 * s)|
                      && r.value == BoundaryCases(boundary) + Kept(draws, boundary, 4 * s)[..s]
  {
    var random := new SplitMix64(seed);
    var total, cases, unique, attempts := RADIX_COUNT * |boundary| + s, start, seen, 0;
    while |cases| < total
      invariant Sampling(draws, s, boundary, attempts, cases, unique)
      invariant random.state == states(2 * attempts)
      decreases 4 * s - attempts
    {
      if attempts + 1 > 4 * s {
        SamplingFails(draws, s, boundary, cases, unique);
        return Err(OutOfAttempts);
      }
      SamplingStep(draws, s, boundary, attempts, cases, unique);
      var c := NextCase(random, seed, states, draws, attempts);
      attempts := attempts + 1;
      if c !in unique {
        cases, unique := cases + [c], unique + {c};
      }
    }
    SamplingDone(draws, s, boundary, attempts, cases, unique);
    return Ok(cases);
  }

  /** Builds the case list. It succeeds exactly when the expanded size is within the limit,
      the boundary values are distinct, and at most three quarters of the allowed attempts
      hit boundary values; the list is then every boundary value in every radix followed by
      the first kept samples. */
  method BuildCases(seed: u64, s: nat, boundary: seq<u64>) returns (r: Result<seq<Case>, BuildError>)
    ensures r.Ok? <==>
            && RADIX_COUNT * |boundary| + s <= MAX_CASES && DistinctWords(boundary)
            && EnoughKept(DrawsOf(seed), boundary, s)
    ensures r.Ok? ==> s <= |Kept(DrawsOf(seed), boundary, 4 * s)|
                      && r.value == BoundaryCases(boundary) + Kept(DrawsOf(seed), boundary, 4 * s)[..s]
  {
    var total := ValidateCaseCount(|boundary|, s);
    if total.Err? {
      return Err(total.error);
    }
    var stage, unique := BoundaryStage(boundary);
    if stage.Err? {
      return stage;
    }
    ghost var draws := DrawsOf(seed);
    GeneratorNeverRepeats(seed, 4 * s);
    assert stage.value == BoundaryCases(boundary) + Kept(draws, boundary, 0);
    r := SampleStage(seed, StatesOf(seed), draws, s, boundary, stage.value, unique);
  }

  // ------------------------------------------------------- when success is guaranteed

  /** The bits of the first `b` attempts. */
  function FirstBits(draws: Draws, b: nat): (r: seq<u64>)
    ensures |r| == b && forall a :: 0 <= a < b ==> r[a] == Sample(draws, a).bits
  {
    seq(b, a requires 0 <= a < b => Sample(draws, a).bits)
  }

  lemma FirstBitsDistinct(draws: Draws, b: nat)
    requires NoRepeat(draws, b)
    ensures DistinctWords(FirstBits(draws, b))
  {
    forall i, j | 0 <= i < j < b ensures FirstBits(draws, b)[i] != FirstBits(draws, b)[j] {
      assert Differs(draws, i, j);
    }
  }

  lemma {:induction false} AllRejected(draws: Draws, b: nat, n: nat)
    requires n <= b
    ensures Kept(draws, FirstBits(draws, b), n) == []
  {
    if n > 0 {
      AllRejected(draws, b, n - 1);
      assert FirstBits(draws, b)[n - 1] == Sample(draws, n - 1).bits;
    }
  }

  /** No seed or choice of distinct boundary values can make sampling run out of attempts. */
  ghost predicate SamplingGuaranteed(b: nat, s: nat) {
    forall seed: u64, boundary: seq<u64> ::
      |boundary| == b && DistinctWords(boundary) ==> EnoughKept(DrawsOf(seed), boundary, s)
  }

  predicate EnoughKept(draws: Draws, boundary: seq<u64>, s: nat) { |Hits(draws, boundary, 4 * s)| <= 3 * s }

  lemma TooManyBoundaries(draws: Draws, b: nat, s: nat)
    requires b > 3 * s > 0
    ensures !EnoughKept(draws, FirstBits(draws, b), s)
  {
    var boundary, n := FirstBits(draws, b), if b < 4 * s then b else 4 * s;
    AllRejected(draws, b, n);
    RejectionsAreHits(draws, boundary, n);
    HitsGrow(draws, boundary, n, 4 * s);
  }

  lemma {:induction false} HitsGrow(draws: Draws, boundary: seq<u64>, m: nat, n: nat)
    requires m <= n
    ensures |Hits(draws, boundary, m)| <= |Hits(draws, boundary, n)|
  {
    if m < n { HitsGrow(draws, boundary, m, n - 1); }
  }

  /** Exactly when success is independent of the seed: at most three boundary values per
      sample, or no samples at all. */
  lemma GuaranteedExactly(b: nat, s: nat)
    requires RADIX_COUNT * b + s <= MAX_CASES
    ensures SamplingGuaranteed(b, s) <==> b <= 3 * s || s == 0
  {
    if b <= 3 * s || s == 0 {
      forall seed: u64, boundary: seq<u64> | |boundary| == b && DistinctWords(boundary)
        ensures EnoughKept(DrawsOf(seed), boundary, s)
      {
        GeneratorNeverRepeats(seed, 4 * s);
        HitsBounded(DrawsOf(seed), boundary, 4 * s);
        if s == 0 { assert Hits(DrawsOf(seed), boundary, 0) == []; }
      }
    } else {
      var draws := DrawsOf(0);
      GeneratorNeverRepeats(0, 4 * b);
      FewerDraws(draws, b, 4 * b);
      FirstBitsDistinct(draws, b);
      TooManyBoundaries(draws, b, s);
    }
  }

  // ------------------------------------------------------- the list

  predicate DistinctCases(cases: seq<Case>) { forall i, j :: 0 <= i < j < |cases| ==> cases[i] != cases[j] }

  lemma {:induction false} BoundaryDistinct(boundary: seq<u64>)
    requires DistinctWords(boundary)
    ensures DistinctCases(BoundaryCases(boundary))
  {
    if boundary != [] {
      var rest, last := boundary[..|boundary| - 1], boundary[|boundary| - 1];
      BoundaryDistinct(rest);
      var a, b := BoundaryCases(rest), Row(last);
      forall i, j | 0 <= i < |a| && 0 <= j < |b| ensures a[i] != b[j] {
        BoundaryMembers(rest, a[i]);
        assert a[i].bits in rest && b[j].bits == last;
      }
      JoinDistinct(a, b);
    }
  }

  lemma JoinDistinct(a: seq<Case>, b: seq<Case>)
    requires DistinctCases(a) && DistinctCases(b)
    requires forall i, j :: 0 <= i < |a| && 0 <= j < |b| ==> a[i] != b[j]
    ensures DistinctCases(a + b)
  {}

  lemma {:induction false} KeptDistinct(draws: Draws, boundary: seq<u64>, n: nat)
    requires NoRepeat(draws, n)
    ensures DistinctCases(Kept(draws, boundary, n))
  {
    if n > 0 {
      FewerDraws(draws, n - 1, n);
      KeptDistinct(draws, boundary, n - 1);
      FreshSample(draws, boundary, n - 1);
    }
  }

  /** The built list has no repeated case, and every radix is one that JavaScript admits. */
  lemma BuiltCasesDistinct(draws: Draws, s: nat, boundary: seq<u64>)
    requires DistinctWords(boundary) && NoRepeat(draws, 4 * s) && s <= |Kept(draws, boundary, 4 * s)|
    ensures DistinctCases(BoundaryCases(boundary) + Kept(draws, boundary, 4 * s)[..s])
    ensures forall c :: c in BoundaryCases(boundary) + Kept(draws, boundary, 4 * s)[..s] ==>
                          MIN_RADIX <= c.radix <= MAX_RADIX
  {
    var a, all := BoundaryCases(boundary), Kept(draws, boundary, 4 * s);
    var b := all[..s];
    BoundaryDistinct(boundary);
    KeptDistinct(draws, boundary, 4 * s);
    forall i, j | 0 <= i < |a| && 0 <= j < |b| ensures a[i] != b[j] {
      BoundaryMembers(boundary, a[i]);
      assert b[j] in all;
      var k := KeptIsDraw(draws, boundary, 4 * s, b[j]);
    }
    JoinDistinct(a, b);
    forall c | c in a + b ensures MIN_RADIX <= c.radix <= MAX_RADIX {
      if c in a {
        BoundaryMembers(boundary, c);
      } else {
        assert c in all;
        var k := KeptIsDraw(draws, boundary, 4 * s, c);
      }
    }
  }
}
