/** Conversion between balances and election votes: division by a factor of the total
    issuance, with a truncating cast to 64 bits, and multiplication back. */
module Votes {
  import opened Arithmetic
  import opened LittleEndian

  const M: nat := U64_MAX

  function Factor(issuance: nat): (f: nat)
    ensures f >= 1
  {
    if issuance / M > 1 then issuance / M else 1
  }

  /** Balance to votes: the quotient is cast to `u64`, keeping its low 64 bits. */
  function ToVotes(issuance: nat, x: nat): (v: nat)
    ensures v <= M
  {
    (x / Factor(issuance)) % (M + 1)
  }

  /** Votes back to a balance. */
  function ToBalance(issuance: nat, votes: nat): nat { votes * Factor(issuance) }

  /** Up to twice 2^64 - 1 the conversion is the identity on 64-bit amounts; from 2^64 - 1
      on it divides and multiplies by how often that goes into the issuance. */
  lemma FactorExact(issuance: nat, x: nat)
    ensures issuance < 2 * M && x <= M ==> ToVotes(issuance, x) == x && ToBalance(issuance, x) == x
    ensures issuance >= M ==>
      && issuance / M > 0 && ToBalance(issuance, x) == x * (issuance / M)
      && ToVotes(issuance, x) == x / (issuance / M) % 0x1_0000_0000_0000_0000
  {
    DivAtLeast(1, issuance, M);
    DivAtLeast(2, issuance, M);
  }

  /** The largest quotient over all balances is that of the issuance itself: 2^64 - 1 plus
      the issuance's remainder spread over the factor. */
  lemma LargestQuotient(issuance: nat)
    requires issuance >= M
    ensures Factor(issuance) == issuance / M
    ensures issuance / Factor(issuance) == M + (issuance % M) / (issuance / M)
  {
    DivAtLeast(1, issuance, M);
    var f, r := issuance / M, issuance % M;
    DivBounds(issuance, M);
    DivBounds(r, f);
    MulAdd(M, r / f, f);
    DivModIs(issuance, f, M + r / f, r % f);
  }

  /** The cast keeps `x`: nothing above 64 bits is cut off. */
  predicate Kept(issuance: nat, x: nat) { ToVotes(issuance, x) == x / Factor(issuance) }

  /** No balance up to the issuance is cut. */
  ghost predicate Lossless(issuance: nat) {
    forall x: nat :: x <= issuance ==> Kept(issuance, x)
  }

  lemma KeptExactly(issuance: nat, x: nat)
    ensures Kept(issuance, x) <==> x / Factor(issuance) <= M
  {
  }

  predicate Fits(issuance: nat) { issuance <= M || issuance % M < issuance / M }

  /** The conversion is lossless exactly when the issuance fits: it is below 2^64, or its
      remainder modulo 2^64 - 1 is smaller than its quotient. In every case the quotient
      overflows 64 bits by at most one bit. */
  lemma LosslessExactly(issuance: nat)
    requires issuance <= U128_MAX
    ensures Lossless(issuance) <==> Fits(issuance)
    ensures forall x: nat :: x <= issuance ==> x / Factor(issuance) <= 2 * M - 1
  {
    hide Factor;
    var f := Factor(issuance);
    forall x: nat | x <= issuance ensures x / f <= issuance / f { DivMonotone(x, issuance, f); }
    QuotientFits(issuance);
    KeptExactly(issuance, issuance);
    if Lossless(issuance) { assert Kept(issuance, issuance); }
    if Fits(issuance) {
      forall x: nat | x <= issuance ensures Kept(issuance, x) { KeptExactly(issuance, x); }
    }
  }

  lemma QuotientFits(issuance: nat)
    ensures issuance / Factor(issuance) <= M <==> Fits(issuance)
    ensures issuance / Factor(issuance) <= 2 * M - 1
  {
    if issuance >= M {
      LargestQuotient(issuance);
      var f, r := issuance / M, issuance % M;
      DivAtLeast(1, r, f);
      DivBounds(r, f);
      MulMonotone(1, f, r / f);
    }
  }

  /** Where the cast keeps a balance, converting there and back loses less than one
      factor. */
  lemma VoteRoundTrip(issuance: nat, x: nat)
    requires Kept(issuance, x)
    ensures ToBalance(issuance, ToVotes(issuance, x)) <= x
    ensures x < ToBalance(issuance, ToVotes(issuance, x)) + Factor(issuance)
  {
    hide Factor;
    DivBounds(x, Factor(issuance));
  }

  ghost predicate Monotone(issuance: nat) {
    forall x: nat, y: nat :: x <= y <= issuance ==> ToVotes(issuance, x) <= ToVotes(issuance, y)
  }

  /** Votes follow the order of balances on every account of the chain if and only if the
      issuance fits; otherwise a balance large enough to wrap gets fewer votes than one
      factor does. */
  lemma MonotoneExactly(issuance: nat)
    requires issuance <= U128_MAX
    ensures Monotone(issuance) <==> Fits(issuance)
  {
    hide Factor, Fits;
    LosslessExactly(issuance);
    var f := Factor(issuance);
    if Fits(issuance) {
      forall x: nat, y: nat | x <= y <= issuance ensures ToVotes(issuance, x) <= ToVotes(issuance, y) {
        assert Kept(issuance, x) && Kept(issuance, y);
        DivMonotone(x, y, f);
      }
    } else {
      WrappedVotes(issuance);
    }
  }

  lemma WrappedVotes(issuance: nat)
    requires !Fits(issuance)
    ensures var f := Factor(issuance);
      f <= (M + 1) * f <= issuance && ToVotes(issuance, f) == 1 && ToVotes(issuance, (M + 1) * f) == 0
  {
    hide Factor, Fits;
    var f := Factor(issuance);
    QuotientFits(issuance);
    DivAtLeast(M + 1, issuance, f);
    DivModIs((M + 1) * f, f, M + 1, 0);
    DivModIs(f, f, 1, 0);
  }

  /** An issuance whose factor is still one although it does not fit in 64 bits. */
  lemma IssuanceThatWraps()
    ensures 2 * M - 1 <= U128_MAX && !Fits(2 * M - 1) && !Lossless(2 * M - 1) && !Monotone(2 * M - 1)
    ensures ToVotes(2 * M - 1, 2 * M - 1) == M - 2
  {
    LosslessExactly(2 * M - 1);
    MonotoneExactly(2 * M - 1);
  }

  function Total(xs: seq<nat>): nat { if xs == [] then 0 else Total(xs[..|xs| - 1]) + xs[|xs| - 1] }

  function Votes(issuance: nat, xs: seq<nat>): nat {
    if xs == [] then 0 else Votes(issuance, xs[..|xs| - 1]) + ToVotes(issuance, xs[|xs| - 1])
  }

  /** Any group of stakes within the issuance converts, summed, back to no more than the
      stakes themselves, so the 128-bit product cannot overflow. */
  lemma {:induction false} VotesNeverInflate(issuance: nat, xs: seq<nat>)
    requires issuance <= U128_MAX && Total(xs) <= issuance
    ensures ToBalance(issuance, Votes(issuance, xs)) <= Total(xs) <= U128_MAX
  {
    hide Factor, ToVotes;
    if xs != [] {
      var init, x := xs[..|xs| - 1], xs[|xs| - 1];
      VotesNeverInflate(issuance, init);
      OneNeverInflates(issuance, x);
      MulAdd(Votes(issuance, init), ToVotes(issuance, x), Factor(issuance));
    }
  }

  lemma OneNeverInflates(issuance: nat, x: nat)
    ensures ToVotes(issuance, x) * Factor(issuance) <= x
  {
    hide Factor;
    DivBounds(x, Factor(issuance));
    MulMonotone(ToVotes(issuance, x), x / Factor(issuance), Factor(issuance));
  }
}
