/** How transaction fees and tips are shared between the treasury and the block author. */
module Fees {
  import opened Arithmetic
  import opened Currency

  function SaturatingMul(x: nat, y: nat): nat { if x * y > MAX_BALANCE then MAX_BALANCE else x * y }
  function SaturatingAdd(x: nat, y: nat): nat { if x + y > MAX_BALANCE then MAX_BALANCE else x + y }

  /** The treasury's part of an amount rationed 80 to 20; the author has the rest. */
  function TreasuryPart(amount: nat): (part: nat)
    ensures part <= amount
  {
    var part := SaturatingMul(amount, 80) / 100;
    if part < amount then part else amount
  }

  /** What reached each side, and what was left in the iterator and so burned. */
  class DealWithFees {
    var treasury: nat
    var author: nat
    var burned: nat

    constructor ()
      ensures treasury == author == burned == 0
    {
      treasury, author, burned := 0, 0, 0;
    }

    /** The first imbalance is the fee, the second the tip; nobody asks for a third. */
    method OnUnbalanceds(items: seq<nat>)
      requires Shared(items) <= MAX_BALANCE
      modifies this
      ensures treasury == old(treasury) + TreasuryShare(items)
      ensures |items| == 1 ==> treasury == old(treasury) + TreasuryPart(items[0])
      ensures |items| >= 2 ==> treasury == old(treasury) + TreasuryPart(items[0]) + TreasuryPart(items[1])
      ensures |items| == 1 ==> treasury + author == old(treasury) + old(author) + items[0]
      ensures |items| >= 2 ==> treasury + author == old(treasury) + old(author) + items[0] + items[1]
      ensures |items| <= 2 ==> burned == old(burned)
      ensures |items| > 2 ==> burned == old(burned) + AmountOf(items[2..])
      ensures items == [] ==> treasury == old(treasury) && author == old(author)
    {
      assert |items| > 1 ==> items[1..][1..] == items[2..];
      var rest := items;
      if rest != [] {
        var part := TreasuryPart(rest[0]);
        var split0, split1 := part, rest[0] - part;
        rest := rest[1..];
        if rest != [] {
          part := TreasuryPart(rest[0]);
          split0 := SaturatingAdd(split0, part);
          split1 := SaturatingAdd(split1, rest[0] - part);
          rest := rest[1..];
        }
        treasury := treasury + split0;
        author := author + split1;
      }
      burned := burned + AmountOf(rest);
    }
  }

  function AmountOf(items: seq<nat>): nat { if items == [] then 0 else items[0] + AmountOf(items[1..]) }

  function Fee(items: seq<nat>): nat { if |items| > 0 then items[0] else 0 }
  function Tip(items: seq<nat>): nat { if |items| > 1 then items[1] else 0 }
  function Shared(items: seq<nat>): nat { Fee(items) + Tip(items) }
  function TreasuryShare(items: seq<nat>): nat { TreasuryPart(Fee(items)) + TreasuryPart(Tip(items)) }

  lemma PartIsFourFifths(amount: nat)
    requires amount * 80 <= MAX_BALANCE
    ensures TreasuryPart(amount) == amount * 4 / 5
  {
  }

  /** An amount whose eighty-fold exceeds 128 bits counts as the largest that does not. */
  lemma PartSaturates(amount: nat)
    requires amount * 80 > 0xffff_ffff_ffff_ffff_ffff_ffff_ffff_ffff
    ensures TreasuryPart(amount) == 0xffff_ffff_ffff_ffff_ffff_ffff_ffff_ffff / 100
  {
  }

  /** Without saturation the treasury gets four fifths of fee and tip rounded down, less
      one unit exactly when the two roundings together lose a whole one. */
  lemma TreasuryShareExact(fee: nat, tip: nat)
    requires fee * 80 <= MAX_BALANCE && tip * 80 <= MAX_BALANCE
    ensures TreasuryShare([fee]) == fee * 4 / 5
    ensures var carry := fee * 4 % 5 + tip * 4 % 5 >= 5;
      TreasuryShare([fee, tip]) == (fee + tip) * 4 / 5 - (if carry then 1 else 0)
  {
    PartIsFourFifths(fee);
    PartIsFourFifths(tip);
  }

  /** Saturation can only favour the author. */
  lemma TreasuryShareBound(items: seq<nat>)
    ensures TreasuryShare(items) <= Shared(items) * 4 / 5
  {
    PartAtMost(Fee(items));
    PartAtMost(Tip(items));
  }

  lemma PartAtMost(amount: nat)
    ensures TreasuryPart(amount) <= amount * 4 / 5
  {
    DivMonotone(SaturatingMul(amount, 80), amount * 80, 100);
  }
}
