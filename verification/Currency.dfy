/** The part of the balances ledger that open-market liabilities use: free and
    reserved funds, the existential deposit below which an account is removed, and
    the three reservation calls, as Substrate documents and implements them. */
module Currency {
  import opened LittleEndian

  const MAX_BALANCE: nat := U128_MAX

  /** Accounts on record have an entry in both maps; any other reads as empty. `dust` is
      everything ever taken from accounts that fell below the existential deposit. */
  datatype Ledger<I(==)> = Ledger(free: map<I, nat>, reserved: map<I, nat>, dust: nat) {
    predicate Alive(who: I) { who in free && who in reserved }
    function Free(who: I): nat { if who in free && who in reserved then free[who] else 0 }
    function Held(who: I): nat { if who in free && who in reserved then reserved[who] else 0 }
    function Total(who: I): nat { if who in free && who in reserved then free[who] + reserved[who] else 0 }
  }

  datatype CurrencyError = InsufficientBalance | Overflow | DeadAccount
  datatype Reservation<I(==)> = Reserved(ledger: Ledger<I>) | Refused(error: CurrencyError)
  datatype Repatriation<I(==)> = Moved(ledger: Ledger<I>, remainder: nat) | Rejected(error: CurrencyError)

  function Min(x: nat, y: nat): nat { if x < y then x else y }

  /** Writes an account back; one below the existential deposit is removed instead. */
  function Settle<I(==)>(deposit: nat, l: Ledger<I>, who: I, free: nat, held: nat): (r: Ledger<I>)
  {
    if free + held < deposit then Ledger(l.free - {who}, l.reserved - {who}, l.dust + free + held)
    else l.(free := l.free[who := free], reserved := l.reserved[who := held])
  }

  function Reserve<I(==)>(deposit: nat, l: Ledger<I>, who: I, value: nat): (r: Reservation<I>)
  {
    if value == 0 then Reserved(l)
    else if l.Free(who) < value then Refused(InsufficientBalance)
    else if l.Held(who) + value > MAX_BALANCE then Refused(Overflow)
    else Reserved(Settle(deposit, l, who, l.Free(who) - value, l.Held(who) + value))
  }

  /** Returns the amount that could not be unreserved beside the new ledger. */
  function Unreserve<I(==)>(deposit: nat, l: Ledger<I>, who: I, value: nat): (r: (Ledger<I>, nat))
  {
    var actual := Min(l.Held(who), value);
    if value == 0 then (l, 0)
    else (Settle(deposit, l, who, Min(l.Free(who) + actual, MAX_BALANCE), l.Held(who) - actual),
          value - actual)
  }

  /** Moves reserved funds of `slashed` to the free funds of `beneficiary`, as many as
      there are, and reports what was missing. */
  function Repatriate<I(==)>(deposit: nat, l: Ledger<I>, slashed: I, beneficiary: I, value: nat)
    : (r: Repatriation<I>)
  {
    var actual := Min(l.Held(slashed), value);
    if value == 0 then Moved(l, 0)
    else if slashed == beneficiary then
      var (l', remainder) := Unreserve(deposit, l, slashed, value);
      Moved(l', remainder)
    else if !l.Alive(beneficiary) then Rejected(DeadAccount)
    else if l.Free(beneficiary) + actual > MAX_BALANCE then Rejected(Overflow)
    else
      var l1 := Settle(deposit, l, slashed, l.Free(slashed), l.Held(slashed) - actual);
      Moved(Settle(deposit, l1, beneficiary, l.Free(beneficiary) + actual, l.Held(beneficiary)),
            value - actual)
  }

  // ---- Total issuance ----

  ghost function Pick<I>(s: set<I>): I
    requires s != {}
    ensures Pick(s) in s
  {
    var k :| k in s; k
  }

  ghost function Sum<I>(l: Ledger<I>, s: set<I>): nat
    decreases s
  {
    if s == {} then 0 else l.Total(Pick(s)) + Sum(l, s - {Pick(s)})
  }

  ghost function Supply<I>(l: Ledger<I>): nat {
    Sum(l, l.free.Keys)
  }

  lemma {:induction false} SumSplit<I>(l: Ledger<I>, s: set<I>, who: I)
    requires who in s
    ensures Sum(l, s) == l.Total(who) + Sum(l, s - {who})
    decreases s
  {
    var k := Pick(s);
    if k != who {
      SumSplit(l, s - {k}, who);
      SumSplit(l, s - {who}, k);
      assert s - {k} - {who} == s - {who} - {k};
    }
  }

  lemma {:induction false} SumAgree<I>(l: Ledger<I>, l': Ledger<I>, s: set<I>)
    requires forall a :: a in s ==> l.Total(a) == l'.Total(a)
    ensures Sum(l, s) == Sum(l', s)
    decreases s
  {
    if s != {} { SumAgree(l, l', s - {Pick(s)}); }
  }

  lemma {:induction false} SupplyAt<I>(l: Ledger<I>, who: I)
    ensures Supply(l) == l.Total(who) + Sum(l, l.free.Keys - {who})
  {
    if who in l.free.Keys {
      SumSplit(l, l.free.Keys, who);
    } else {
      assert l.free.Keys - {who} == l.free.Keys;
    }
  }

  lemma {:induction false} SupplySettle<I>(deposit: nat, l: Ledger<I>, who: I, free: nat, held: nat)
    ensures var l' := Settle(deposit, l, who, free, held);
      Supply(l') + l'.dust + l.Total(who) == Supply(l) + l.dust + free + held
  {
    var l' := Settle(deposit, l, who, free, held);
    SupplyAt(l, who);
    SupplyAt(l', who);
    assert l'.free.Keys - {who} == l.free.Keys - {who};
    SumAgree(l, l', l.free.Keys - {who});
  }

  /** Two accounts together hold no more than was issued. */
  lemma {:induction false} SupplyBounds<I>(l: Ledger<I>, a: I, b: I)
    ensures l.Total(a) <= Supply(l)
    ensures a != b ==> l.Total(a) + l.Total(b) <= Supply(l)
  {
    SupplyAt(l, a);
    if b in l.free.Keys - {a} {
      SumSplit(l, l.free.Keys - {a}, b);
    }
  }

  /** What the balances pallet keeps true of itself: issuance is a 128-bit number and
      every account on record holds the existential deposit. */
  ghost predicate Sound<I(!new)>(deposit: nat, l: Ledger<I>) {
    Supply(l) <= MAX_BALANCE && Funded(deposit, l)
  }

  ghost predicate Funded<I(!new)>(deposit: nat, l: Ledger<I>) {
    forall a :: l.Alive(a) ==> l.Total(a) >= deposit
  }

  lemma {:induction false} SettleFunded<I(!new)>(deposit: nat, l: Ledger<I>, who: I, free: nat, held: nat)
    requires Funded(deposit, l)
    ensures Funded(deposit, Settle(deposit, l, who, free, held))
  {
    var l' := Settle(deposit, l, who, free, held);
    forall a | l'.Alive(a) ensures l'.Total(a) >= deposit {
      if a != who { assert l.Alive(a); }
    }
  }

  lemma {:induction false} ReserveExact<I(!new)>(deposit: nat, l: Ledger<I>, who: I, value: nat)
    requires Sound(deposit, l)
    ensures var r := Reserve(deposit, l, who, value);
      && (r.Reserved? <==> value <= l.Free(who))
      && (r.Reserved? ==>
            && Sound(deposit, r.ledger)
            && Supply(r.ledger) == Supply(l) && r.ledger.dust == l.dust
            && r.ledger.Free(who) == l.Free(who) - value
            && r.ledger.Held(who) == l.Held(who) + value
            && (forall a :: r.ledger.Alive(a) <==> l.Alive(a))
            && (forall a :: a != who ==> r.ledger.Free(a) == l.Free(a) && r.ledger.Held(a) == l.Held(a)))
  {
    SupplyBounds(l, who, who);
    if 0 < value <= l.Free(who) {
      SettleSound(deposit, l, who, l.Free(who) - value, l.Held(who) + value);
      assert l.Alive(who);
    }
  }

  /** One account's new value keeps the ledger sound and moves issuance by the difference. */
  lemma {:induction false} SettleSound<I(!new)>(deposit: nat, l: Ledger<I>, who: I, free: nat, held: nat)
    requires Funded(deposit, l)
    ensures var l' := Settle(deposit, l, who, free, held);
      && Funded(deposit, l') && l'.dust >= l.dust
      && Supply(l') + l'.dust + l.Total(who) == Supply(l) + l.dust + free + held
      && (forall a :: a != who ==> l'.Free(a) == l.Free(a) && l'.Held(a) == l.Held(a) && l'.Total(a) == l.Total(a))
  {
    SettleFunded(deposit, l, who, free, held);
    SupplySettle(deposit, l, who, free, held);
  }

  lemma {:induction false} PayConserves<I(!new)>(
    deposit: nat, l: Ledger<I>, slashed: I, beneficiary: I, actual: nat)
    requires Sound(deposit, l) && slashed != beneficiary && actual <= l.Held(slashed)
    ensures var l1 := Settle(deposit, l, slashed, l.Free(slashed), l.Held(slashed) - actual);
      var l2 := Settle(deposit, l1, beneficiary, l.Free(beneficiary) + actual, l.Held(beneficiary));
      Sound(deposit, l2) && Supply(l2) + l2.dust == Supply(l) + l.dust && l2.dust >= l.dust
  {
    hide Sum, Settle, Funded;
    var l1 := Settle(deposit, l, slashed, l.Free(slashed), l.Held(slashed) - actual);
    SettleSound(deposit, l, slashed, l.Free(slashed), l.Held(slashed) - actual);
    SettleSound(deposit, l1, beneficiary, l.Free(beneficiary) + actual, l.Held(beneficiary));
  }

  /** Issuance and dust together are conserved whatever is repatriated, and the ledger
      stays sound. */
  lemma {:induction false} RepatriateConserves<I(!new)>(
    deposit: nat, l: Ledger<I>, slashed: I, beneficiary: I, value: nat)
    requires Sound(deposit, l)
    ensures var r := Repatriate(deposit, l, slashed, beneficiary, value);
      && (r.Moved? <==> value == 0 || slashed == beneficiary || l.Alive(beneficiary))
      && (r.Moved? ==>
            && Sound(deposit, r.ledger)
            && Supply(r.ledger) + r.ledger.dust == Supply(l) + l.dust
            && r.ledger.dust >= l.dust
            && r.remainder == value - Min(l.Held(slashed), value))
  {
    hide Sum;
    var actual := Min(l.Held(slashed), value);
    assert l.Free(beneficiary) + actual <= MAX_BALANCE by { SupplyBounds(l, slashed, beneficiary); }
    if slashed == beneficiary {
      SettleSound(deposit, l, slashed, l.Free(slashed) + actual, l.Held(slashed) - actual);
    } else {
      PayConserves(deposit, l, slashed, beneficiary, actual);
    }
  }

  /** Exactly `value` changes hands, or as much of it as is in reserve; the payer alone can
      fall below the deposit, and then loses what it has left. */
  lemma {:induction false} RepatriateExact<I(!new)>(
    deposit: nat, l: Ledger<I>, slashed: I, beneficiary: I, value: nat)
    requires Sound(deposit, l)
    requires value == 0 || slashed == beneficiary || l.Alive(beneficiary)
    ensures var r := Repatriate(deposit, l, slashed, beneficiary, value);
      var actual := if value <= l.Held(slashed) then value else l.Held(slashed);
      var left := l.Total(slashed) - actual;
      var reaped := value > 0 && slashed != beneficiary && left < deposit;
      && r.Moved? && r.remainder == value - actual
      && r.ledger.dust == l.dust + (if reaped then left else 0)
      && (forall a :: r.ledger.Free(a) ==
            (if a == slashed && reaped then 0 else l.Free(a) + (if a == beneficiary then actual else 0)))
      && (forall a :: r.ledger.Held(a) ==
            (if a == slashed && reaped then 0 else l.Held(a) - (if a == slashed then actual else 0)))
  {
    SupplyBounds(l, slashed, beneficiary);
  }

  /** Whatever is repatriated, nobody but the payer has its reserve touched, and everyone
      else on record stays there. */
  lemma {:induction false} RepatriateOthers<I(!new)>(
    deposit: nat, l: Ledger<I>, slashed: I, beneficiary: I, value: nat)
    requires Sound(deposit, l) && Repatriate(deposit, l, slashed, beneficiary, value).Moved?
    ensures var l' := Repatriate(deposit, l, slashed, beneficiary, value).ledger;
      forall a :: a != slashed ==> l'.Held(a) == l.Held(a) && (l.Alive(a) ==> l'.Alive(a))
  {
    hide Sum;
    assert l.Alive(beneficiary) ==> l.Total(beneficiary) >= deposit;
  }

  // ---- A worked example ----

  function Pair<I(==)>(a: I, b: I, x: nat, y: nat): map<I, nat> {
    map[a := x, b := y]
  }

  lemma {:induction false} PairSupply<I>(a: I, b: I, x: nat, y: nat)
    requires a != b
    ensures Supply(Ledger(Pair(a, b, x, y), Pair(a, b, 0, 0), 0)) == x + y
  {
    var l := Ledger(Pair(a, b, x, y), Pair(a, b, 0, 0), 0);
    assert l.free.Keys == {a, b};
    SumSplit(l, {a, b}, a);
    assert {a, b} - {a} == {b};
    SumSplit(l, {b}, b);
    assert {b} - {b} == {};
  }

  /** With any deposit `d`, `a` reserves `d` and then 1 of its `d + 1`. */
  lemma {:induction false} TwoReservations<I>(d: nat, a: I, b: I)
    requires a != b && d >= 2 && 2 * d + 1 <= MAX_BALANCE
    ensures Reserve(d, Ledger(Pair(a, b, d + 1, d), Pair(a, b, 0, 0), 0), a, d)
         == Reserved(Ledger(Pair(a, b, 1, d), Pair(a, b, d, 0), 0))
    ensures Reserve(d, Ledger(Pair(a, b, 1, d), Pair(a, b, d, 0), 0), a, 1)
         == Reserved(Ledger(Pair(a, b, 0, d), Pair(a, b, d + 1, 0), 0))
  {
    assert Pair(a, b, d + 1, d)[a := 1] == Pair(a, b, 1, d);
    assert Pair(a, b, 0, 0)[a := d] == Pair(a, b, d, 0);
    assert Pair(a, b, 1, d)[a := 0] == Pair(a, b, 0, d);
    assert Pair(a, b, d, 0)[a := d + 1] == Pair(a, b, d + 1, 0);
  }

  /** Paying out the `d` removes `a`, so nothing is left of the 1. */
  lemma {:induction false} ReapedThenUnpaid<I>(d: nat, a: I, b: I)
    requires a != b && d >= 2 && 2 * d + 1 <= MAX_BALANCE
    ensures var r := Repatriate(d, Ledger(Pair(a, b, 0, d), Pair(a, b, d + 1, 0), 0), a, b, d);
      && r.Moved? && r.ledger.Held(a) == 0 && r.ledger.Alive(b)
      && var r' := Repatriate(d, r.ledger, a, b, 1);
         r'.Moved? && r'.remainder == 1 && r'.ledger.Total(b) == r.ledger.Total(b)
  {
    var l := Ledger(Pair(a, b, 0, d), Pair(a, b, d + 1, 0), 0);
    assert Repatriate(d, l, a, b, d) == Moved(Ledger(map[b := 2 * d], map[b := 0], 1), 0) by {
      assert (l.free - {a})[b := 2 * d] == map[b := 2 * d];
      assert (l.reserved - {a})[b := 0] == map[b := 0];
    }
  }
}
