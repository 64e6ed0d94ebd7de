/** Liabilities from agreement to payment: which deposits keep the promise of payment, which
    outcome each call has, and the lifecycle of two honest parties. */
module LiabilityLifecycle {
  import opened LittleEndian
  import opened Scale
  import opened Currency
  import opened FrameSystem
  import opened Liability
  import opened LiabilityRuns
  import opened LiabilityMoney

  // ---- Which deposits keep the promise ----

  lemma {:induction false} StepNoDust(rt: Runtime, s: State, tx: Tx)
    requires rt.existentialDeposit <= 1
    ensures Step(rt, s, tx).ledger.dust == s.ledger.dust
  {
    hide Decode, Encode, StoreReport, StoreLiability;
  }

  lemma {:induction false} RunNoDust(rt: Runtime, genesis: Accounts, txs: seq<Tx>)
    requires rt.existentialDeposit <= 1
    ensures Run(rt, Genesis(genesis), txs).ledger.dust == genesis.dust
  {
    hide Step;
    if txs != [] {
      RunNoDust(rt, genesis, txs[..|txs| - 1]);
      StepNoDust(rt, Run(rt, Genesis(genesis), txs[..|txs| - 1]), txs[|txs| - 1]);
    }
  }

  lemma SignedCreateRuns(rt: Runtime, s: State, technics: Blob, economics: u128, promisee: KeyPair, promisor: KeyPair)
    requires Genuine(rt, promisee) && Genuine(rt, promisor)
    ensures var c := SignedCreate(technics, economics, promisee, promisor);
      var (s', outcome) := Dispatch(rt, s, Unsigned, c);
      && ValidateUnsigned(rt, s.storage, c).Valid?
      && (outcome.Done? <==> OnStart(rt, s.ledger, Agreement(c)).Reserved?)
      && (outcome.Done? ==>
            && s'.storage == StoreLiability(s.storage, s.storage.latestIndex, Agreement(c))
            && s'.ledger == OnStart(rt, s.ledger, Agreement(c)).ledger)
  {
    hide Encode, EncodeParams, OnStart, StoreLiability;
  }

  lemma SignedFinalizeRuns(rt: Runtime, s: State, i: u64, l: SignedLiability, report: Blob, promisor: KeyPair)
    requires Genuine(rt, promisor) && l.promisor == promisor.account
    requires s.storage.Liability(i) == Encode(l) && !s.storage.Finalized(i)
    ensures var c := Finalize(i, report, ProofReport(i, report, promisor));
      var (s', outcome) := Dispatch(rt, s, Unsigned, c);
      && ValidateUnsigned(rt, s.storage, c).Valid? && Decode(s.storage.Liability(i)) == Ok(l, [])
      && (outcome.Done? <==> OnFinish(rt, s.ledger, l).Moved?)
      && (outcome.Done? ==>
            && s'.storage == StoreReport(s.storage, i, report) && s'.ledger == OnFinish(rt, s.ledger, l).ledger)
  {
    hide Encode, Decode, EncodeReport, OnFinish, StoreReport;
    LiabilityRoundTrip(l);
  }

  lemma {:induction false} RunThree(rt: Runtime, s: State, x: Tx, y: Tx, z: Tx)
    ensures Run(rt, s, [x, y, z]) == Step(rt, Step(rt, Step(rt, s, x), y), z)
  {
    hide Step;
    assert [x, y, z][..2] == [x, y] && [x, y][..1] == [x] && [x][..0] == [];
    assert Run(rt, s, [x]) == Step(rt, s, x);
    assert Run(rt, s, [x, y]) == Step(rt, Step(rt, s, x), y);
  }

  lemma StepIsDispatch(rt: Runtime, s: State, call: Call)
    ensures Step(rt, s, Tx(Unsigned, call)) == Dispatch(rt, s, Unsigned, call).0
  {
  }

  /** The promise can be broken with every deposit `d` above one unit: a promisee holding
      d + 1 who owes d and then 1 is removed by the first payment, and the second liability
      is then finalized without paying the promisor anything. */
  lemma {:induction false} EscrowCanFail(rt: Runtime, a: KeyPair, b: KeyPair)
    returns (genesis: Accounts, txs: seq<Tx>, s: State)
    requires Genuine(rt, a) && Genuine(rt, b) && a.account != b.account
    requires rt.existentialDeposit >= 2 && 2 * rt.existentialDeposit + 1 <= MAX_BALANCE
    ensures |txs| == 3 && Sound(rt.existentialDeposit, genesis)
    ensures s == Run(rt, Genesis(genesis), txs) && !SolventAt(s, a.account)
    ensures var small := SignedLiability([], 1, a.account, b.account);
      var (s', outcome) := Dispatch(rt, s, Unsigned, Finalize(1, [], ProofReport(1, [], b)));
      && Decode(s.storage.Liability(1)) == Ok(small, []) && outcome.Done?
      && OnFinish(rt, s.ledger, small).remainder == 1 && s'.ledger.Total(b.account) == s.ledger.Total(b.account)
  {
    hide Decode, Encode, EncodeParams, EncodeReport, Reserve, Repatriate, Books, Step, Supply, Dispatch, Sum;
    var d := rt.existentialDeposit;
    genesis := Ledger(Pair(a.account, b.account, d + 1, d), Pair(a.account, b.account, 0, 0), 0);
    PairSupply(a.account, b.account, d + 1, d);
    TwoReservations(d, a.account, b.account);
    ReapedThenUnpaid(d, a.account, b.account);
    var x, y := SignedCreate([], d, a, b), SignedCreate([], 1, a, b);
    var z := Finalize(0, [], ProofReport(0, [], b));
    txs := [Tx(Unsigned, x), Tx(Unsigned, y), Tx(Unsigned, z)];
    RunThree(rt, Genesis(genesis), txs[0], txs[1], txs[2]);
    var s1 := Dispatch(rt, Genesis(genesis), Unsigned, x).0;
    StepIsDispatch(rt, Genesis(genesis), x);
    SignedCreateRuns(rt, Genesis(genesis), [], d, a, b);
    var s2 := Dispatch(rt, s1, Unsigned, y).0;
    StepIsDispatch(rt, s1, y);
    SignedCreateRuns(rt, s1, [], 1, a, b);
    s := Dispatch(rt, s2, Unsigned, z).0;
    StepIsDispatch(rt, s2, z);
    SignedFinalizeRuns(rt, s2, 0, Agreement(x), [], b);
    SignedFinalizeRuns(rt, s, 1, Agreement(y), [], b);
    OpenCounts(s.storage, a.account);
  }

  lemma {:induction false} OpenCounts(st: Storage, who: AccountId)
    requires st.latestIndex == 2 && !st.Finalized(1) && Decode(st.Liability(1)).Ok?
    requires Decode(st.Liability(1)).value.promisee == who
    ensures Books(st, Escrowed, who) >= Decode(st.Liability(1)).value.economics
  {
    hide Decode;
    TallyCovers(st, Escrowed, who, 2, 1);
  }

  /** All books are exact, and so every escrow covered, at the end of every run. */
  ghost predicate KeepsPromise(rt: Runtime) {
    forall genesis: Accounts, txs: seq<Tx> ::
      |txs| < INDICES && Sound(rt.existentialDeposit, genesis) ==>
        Balanced(Run(rt, Genesis(genesis), txs), genesis)
  }

  /** The runtime keeps the promise on all runs if and only if its existential deposit is at
      most one unit. */
  lemma {:induction false} DepositExactly(rt: Runtime, a: KeyPair, b: KeyPair)
    requires Genuine(rt, a) && Genuine(rt, b) && a.account != b.account
    requires 2 * rt.existentialDeposit + 1 <= MAX_BALANCE
    ensures KeepsPromise(rt) <==> rt.existentialDeposit <= 1
  {
    hide Run, Sound, SolventAt, Balanced, KeepsBooks, AlwaysKeeps, Dispatch, Decode;
    if rt.existentialDeposit <= 1 {
      forall genesis: Accounts, txs: seq<Tx> | |txs| < INDICES && Sound(rt.existentialDeposit, genesis)
        ensures Balanced(Run(rt, Genesis(genesis), txs), genesis)
      {
        RunNoDust(rt, genesis, txs);
        RunBalanced(rt, genesis, txs);
        assert txs[..|txs|] == txs;
        assert Balanced(StateAt(rt, genesis, txs, |txs|), genesis);
      }
    } else {
      var genesis, txs, s := EscrowCanFail(rt, a, b);
      if Balanced(s, genesis) { BalancedIsSolvent(s, genesis); }
    }
  }

  // ---- Outcomes ----

  /** Which outcome a creation has: the first of its conditions that fails, in the order
      origin, promisee's proof, promisor's proof, funds. */
  lemma {:induction false} CreateOutcome(rt: Runtime, s: State, origin: Origin, c: Call)
    requires c.Create? && Sound(rt.existentialDeposit, s.ledger)
    ensures var params := EncodeParams(c.technics, c.economics);
      var (s', outcome) := Dispatch(rt, s, origin, c);
      && (outcome == Failed(BadOrigin) <==> origin != Unsigned)
      && (origin == Unsigned ==>
            var promisee, promisor :=
              rt.verify(c.promiseeProof, params, c.promisee), rt.verify(c.promisorProof, params, c.promisor);
            && (outcome == Failed(BadPromiseeProof) <==> !promisee)
            && (outcome == Failed(BadPromisorProof) <==> promisee && !promisor)
            && (outcome == Failed(Error.Currency(InsufficientBalance)) <==>
                  promisee && promisor && s.ledger.Free(c.promisee) < c.economics)
            && (outcome == Done <==> promisee && promisor && c.economics <= s.ledger.Free(c.promisee)))
  {
    hide EncodeParams, Encode, Sound;
    ReserveExact(rt.existentialDeposit, s.ledger, c.promisee, c.economics);
    assert 0 < c.economics && s.ledger.Free(c.promisee) < c.economics ==>
      OnStart(rt, s.ledger, Agreement(c)) == Refused(InsufficientBalance);
  }

  /** Which outcome a report has, in the order origin, flag, index, proof, payee. */
  lemma {:induction false} FinalizeOutcome(rt: Runtime, s: State, origin: Origin, i: u64, report: Blob, proof: Proof)
    requires Indexed(s.storage) && Sound(rt.existentialDeposit, s.ledger)
    ensures var (s', outcome) := Dispatch(rt, s, origin, Finalize(i, report, proof));
      && (outcome == Failed(BadOrigin) <==> origin != Unsigned)
      && (origin == Unsigned ==>
            && (outcome == Failed(AlreadyFinalized) <==> i in s.storage.reportOf)
            && (outcome == Failed(LiabilityDecodeFailure) <==> i >= s.storage.latestIndex)
            && (i < s.storage.latestIndex && i !in s.storage.reportOf ==>
                  var l := Decode(s.storage.Liability(i)).value;
                  var proved := rt.verify(proof, EncodeReport(i, report), l.promisor);
                  var payable := l.economics == 0 || l.promisee == l.promisor || s.ledger.Alive(l.promisor);
                  && (outcome == Failed(BadReportProof) <==> !proved)
                  && (outcome == Failed(Error.Currency(DeadAccount)) <==> proved && !payable)
                  && (outcome == Done <==> proved && payable)))
  {
    hide Decode, Encode, EncodeReport, EncodeBlob, Sound;
    EmptyIsNoLiability();
    assert s.storage.Finalized(i) <==> i in s.storage.reportOf;
    assert i in s.storage.liabilityOf <==> i < s.storage.latestIndex;
    if i < s.storage.latestIndex {
      var l := Decode(s.storage.Liability(i)).value;
      RepatriateConserves(rt.existentialDeposit, s.ledger, l.promisee, l.promisor, l.economics);
    }
  }

  /** A create call can be sent again: the gate gives the same verdict, and it succeeds
      again if and only if twice the price was free. */
  lemma {:induction false} CreateAgain(rt: Runtime, s: State, c: Call)
    requires c.Create? && Sound(rt.existentialDeposit, s.ledger) && Dispatch(rt, s, Unsigned, c).1.Done?
    ensures var s1 := Dispatch(rt, s, Unsigned, c).0;
      && ValidateUnsigned(rt, s1.storage, c) == ValidateUnsigned(rt, s.storage, c)
      && (Dispatch(rt, s1, Unsigned, c).1.Done? <==> 2 * c.economics <= s.ledger.Free(c.promisee))
  {
    hide Encode, EncodeParams, Reserve, Sound, StoreLiability;
    ReserveExact(rt.existentialDeposit, s.ledger, c.promisee, c.economics);
    ReserveExact(rt.existentialDeposit, OnStart(rt, s.ledger, Agreement(c)).ledger, c.promisee, c.economics);
  }

  /** A proof of agreement names no party: the promisee's proof is as good for any other
      promisor who proves the same technics and price. */
  lemma {:induction false} ProofNamesNoParty(rt: Runtime, s: State, c: Call, d: Call)
    requires c.Create? && d.Create? && Sound(rt.existentialDeposit, s.ledger)
    requires Dispatch(rt, s, Unsigned, c).1.Done?
    requires d == c.(promisor := d.promisor, promisorProof := d.promisorProof)
    ensures Dispatch(rt, s, Unsigned, d).1.Done? <==>
      rt.verify(d.promisorProof, EncodeParams(c.technics, c.economics), d.promisor)
  {
    hide EncodeParams, Sound;
    CreateOutcome(rt, s, Unsigned, c);
    CreateOutcome(rt, s, Unsigned, d);
  }

  // ---- The whole lifecycle ----

  /** Two parties with genuine keys reach agreement, start and finish, on any chain: the
      gate accepts the proofs the builders make; the creation succeeds exactly when the
      promisee can lock the price, and the report right after it exactly when the promisor
      can be paid. Then the price has changed hands, which is nothing if the parties are
      one account; a promisee left below the deposit is removed. */
  lemma {:induction false} HonestLifecycle(rt: Runtime, genesis: Accounts, txs: seq<Tx>,
    technics: Blob, economics: u128, promisee: KeyPair, promisor: KeyPair, report: Blob)
    requires Genuine(rt, promisee) && Genuine(rt, promisor)
    requires |txs| < INDICES - 1 && Sound(rt.existentialDeposit, genesis)
    ensures var s := Run(rt, Genesis(genesis), txs);
      var create := SignedCreate(technics, economics, promisee, promisor);
      var (s1, started) := Dispatch(rt, s, Unsigned, create);
      var i := s.storage.latestIndex;
      var finalize := Finalize(i, report, ProofReport(i, report, promisor));
      var (s2, finished) := Dispatch(rt, s1, Unsigned, finalize);
      && ValidateUnsigned(rt, s.storage, create).Valid?
      && (started.Done? <==> economics <= s.ledger.Free(promisee.account))
      && (started.Done? ==>
            && ValidateUnsigned(rt, s1.storage, finalize).Valid?
            && (finished.Done? <==>
                  economics == 0 || promisee.account == promisor.account || s.ledger.Alive(promisor.account))
            && (finished.Done? ==>
                  && s2.storage.Finalized(i) && s2.storage.reportOf[i] == EncodeBlob(report)
                  && Settled(rt, s.ledger, s2.ledger, promisee.account, promisor.account, economics)))
  {
    hide Decode, Encode, EncodeReport, EncodeParams, EncodeBlob, Reserve, Repatriate, Sound, Indexed, Run, Dispatch,
      ValidateUnsigned;
    var s := Run(rt, Genesis(genesis), txs);
    var create := SignedCreate(technics, economics, promisee, promisor);
    var l, i := Agreement(create), s.storage.latestIndex;
    var (s1, started) := Dispatch(rt, s, Unsigned, create);
    RunConserves(rt, genesis, txs);
    RunIndexed(rt, genesis, txs);
    IndexedIsOpen(s.storage);
    SignedCreateRuns(rt, s, technics, economics, promisee, promisor);
    ReserveExact(rt.existentialDeposit, s.ledger, promisee.account, economics);
    if started.Done? {
      SignedFinalizeRuns(rt, s1, i, l, report, promisor);
      RepatriateConserves(rt.existentialDeposit, s1.ledger, l.promisee, l.promisor, economics);
      if OnFinish(rt, s1.ledger, l).Moved? {
        RepatriateExact(rt.existentialDeposit, s1.ledger, l.promisee, l.promisor, economics);
      }
    }
  }

  /** `price` went from the free funds of `payer` to those of `payee` and nothing else
      changed, but for a payer left below the deposit. */
  ghost predicate Settled(rt: Runtime, before: Accounts, after: Accounts, payer: AccountId, payee: AccountId, price: nat)
    requires price <= before.Free(payer)
  {
    var removed := price > 0 && payer != payee && before.Total(payer) - price < rt.existentialDeposit;
    forall a: AccountId ::
      && after.Free(a) == (if a == payer && removed then 0
           else before.Free(a) - (if a == payer then price else 0) + (if a == payee then price else 0))
      && after.Held(a) == (if a == payer && removed then 0 else before.Held(a))
  }

  /** The same with anything in between: if every transaction spares the promisee, the
      report succeeds exactly when the promisor can be paid, and pays the whole price. */
  lemma {:induction false} DelayedLifecycle(rt: Runtime, genesis: Accounts, txs: seq<Tx>, later: seq<Tx>,
    technics: Blob, economics: u128, promisee: KeyPair, promisor: KeyPair, report: Blob)
    requires Genuine(rt, promisee) && Genuine(rt, promisor) && Sound(rt.existentialDeposit, genesis)
    requires |txs| + 1 + |later| < INDICES
    requires Dispatch(rt, Run(rt, Genesis(genesis), txs), Unsigned,
                      SignedCreate(technics, economics, promisee, promisor)).1.Done?
    requires var all := txs + [Tx(Unsigned, SignedCreate(technics, economics, promisee, promisor))] + later;
      AlwaysSpares(rt, genesis, all, promisee.account)
    ensures var all := txs + [Tx(Unsigned, SignedCreate(technics, economics, promisee, promisor))] + later;
      var i := Run(rt, Genesis(genesis), txs).storage.latestIndex;
      var s := Run(rt, Genesis(genesis), all);
      var finalize := Finalize(i, report, ProofReport(i, report, promisor));
      var (s', finished) := Dispatch(rt, s, Unsigned, finalize);
      var l := SignedLiability(technics, economics, promisee.account, promisor.account);
      && ValidateUnsigned(rt, s.storage, finalize).Valid?
      && (!s.storage.Finalized(i) ==>
            && (finished.Done? <==>
                  economics == 0 || promisee.account == promisor.account || s.ledger.Alive(promisor.account))
            && (finished.Done? ==> PaidExactly(rt, s.ledger, s'.ledger, l)))
  {
    hide Decode, Encode, EncodeReport, EncodeParams, EncodeBlob, OnStart, OnFinish, Sound, Indexed, Run, Dispatch,
      SolventAt, Spares, PaidExactly;
    var create := SignedCreate(technics, economics, promisee, promisor);
    var l := Agreement(create);
    var first := txs + [Tx(Unsigned, create)];
    var all := first + later;
    var i := Run(rt, Genesis(genesis), txs).storage.latestIndex;
    var s := Run(rt, Genesis(genesis), all);
    CreatedStays(rt, genesis, txs, later, technics, economics, promisee, promisor);
    LiabilityRoundTrip(l);
    RunIndexed(rt, genesis, all);
    RunConserves(rt, genesis, all);
    assert all[..|all|] == all;
    SolventUpTo(rt, genesis, all, promisee.account, |all|);
    assert SolventAt(s, promisee.account);
    FinalizePays(rt, s, i, report, ProofReport(i, report, promisor));
  }

  /** A liability created by signed call is in storage in every later state. */
  lemma {:induction false} CreatedStays(rt: Runtime, genesis: Accounts, txs: seq<Tx>, later: seq<Tx>,
    technics: Blob, economics: u128, promisee: KeyPair, promisor: KeyPair)
    requires Genuine(rt, promisee) && Genuine(rt, promisor) && |txs| + 1 + |later| < INDICES
    requires Dispatch(rt, Run(rt, Genesis(genesis), txs), Unsigned,
                      SignedCreate(technics, economics, promisee, promisor)).1.Done?
    ensures var create := SignedCreate(technics, economics, promisee, promisor);
      var i := Run(rt, Genesis(genesis), txs).storage.latestIndex;
      var s := Run(rt, Genesis(genesis), txs + [Tx(Unsigned, create)] + later);
      s.storage.Liability(i) == Encode(Agreement(create)) && i < s.storage.latestIndex
  {
    hide Decode, Encode, EncodeParams, OnStart, Dispatch, Step, Indexed;
    var create := SignedCreate(technics, economics, promisee, promisor);
    var s := Run(rt, Genesis(genesis), txs);
    var first := txs + [Tx(Unsigned, create)];
    assert first[..|txs|] == txs;
    StepIsDispatch(rt, s, create);
    SignedCreateRuns(rt, s, technics, economics, promisee, promisor);
    RunIndexed(rt, genesis, txs);
    RunExtends(rt, genesis, first, later);
  }

  lemma IndexedIsOpen(st: Storage)
    requires Indexed(st)
    ensures !st.Finalized(st.latestIndex)
  {
    hide IsLiability, IsReport;
    assert st.latestIndex !in st.liabilityOf;
  }
}
