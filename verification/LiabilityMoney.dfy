/** The money of the liability pallet over whole runs: conservation, the exact books of
    every account, and when the escrow is enough to pay each liability in full. */
module LiabilityMoney {
  import opened LittleEndian
  import opened Scale
  import opened Currency
  import opened FrameSystem
  import opened Liability
  import opened LiabilityRuns

  // ---- Books derived from storage alone ----

  /** The three columns of an account's books: prices it has in escrow, prices it earned
      as promisor and prices it paid as promisee. */
  datatype Column = Escrowed | Earned | Paid

  function Entry(st: Storage, column: Column, who: AccountId, i: u64): nat {
    match Decode(st.Liability(i))
    case Fail => 0
    case Ok(l, _) =>
      var counts := match column
        case Escrowed => !st.Finalized(i) && l.promisee == who
        case Earned => st.Finalized(i) && l.promisor == who
        case Paid => st.Finalized(i) && l.promisee == who;
      if counts then l.economics else 0
  }

  function Tally(st: Storage, column: Column, who: AccountId, n: nat): nat
    requires n <= INDICES
  {
    if n == 0 then 0 else Tally(st, column, who, n - 1) + Entry(st, column, who, n - 1)
  }

  function Books(st: Storage, column: Column, who: AccountId): nat {
    Tally(st, column, who, st.latestIndex)
  }

  /** Tallies of storages that differ at index `i` only differ by that entry. */
  lemma {:induction false} TallyChange(st: Storage, st': Storage, column: Column, who: AccountId, n: nat, i: nat)
    requires n <= INDICES
    requires forall j: u64 :: j < n && j != i ==> Entry(st, column, who, j) == Entry(st', column, who, j)
    ensures i < n ==> Tally(st', column, who, n) + Entry(st, column, who, i)
                      == Tally(st, column, who, n) + Entry(st', column, who, i)
    ensures n <= i ==> Tally(st', column, who, n) == Tally(st, column, who, n)
  {
    hide Entry;
    if n > 0 { TallyChange(st, st', column, who, n - 1, i); }
  }

  lemma {:induction false} TallyCovers(st: Storage, column: Column, who: AccountId, n: nat, i: nat)
    requires i < n <= INDICES
    ensures Entry(st, column, who, i) <= Tally(st, column, who, n)
  {
    hide Entry;
    if i < n - 1 { TallyCovers(st, column, who, n - 1, i); }
  }

  // ---- How one call moves the books ----

  lemma {:induction false} CreateBooks(st: Storage, l: SignedLiability, column: Column, who: AccountId)
    requires Indexed(st) && st.latestIndex < INDICES - 1
    ensures Books(StoreLiability(st, st.latestIndex, l), column, who)
         == Books(st, column, who) + (if column.Escrowed? && who == l.promisee then l.economics else 0)
  {
    hide Decode, Encode, DecodeBlob, EncodeBlob;
    var st', n := StoreLiability(st, st.latestIndex, l), st.latestIndex;
    TallyChange(st, st', column, who, n, n);
    LiabilityRoundTrip(l);
    assert n !in st.liabilityOf && n !in st.reportOf;
    assert !st.Finalized(n) && !st'.Finalized(n);
  }

  lemma {:induction false} FinalizeBooks(st: Storage, i: u64, report: Blob, column: Column, who: AccountId)
    requires Indexed(st) && i < st.latestIndex && !st.Finalized(i)
    ensures var l := Decode(st.Liability(i)).value;
      var price := l.economics;
      var before, after := Books(st, column, who), Books(StoreReport(st, i, report), column, who);
      match column
      case Escrowed => before == after + (if who == l.promisee then price else 0)
      case Earned => after == before + (if who == l.promisor then price else 0)
      case Paid => after == before + (if who == l.promisee then price else 0)
  {
    hide Decode, Encode, DecodeBlob, EncodeBlob;
    assert i in st.liabilityOf;
    TallyChange(st, StoreReport(st, i, report), column, who, st.latestIndex, i);
  }

  // ---- Conservation ----

  lemma {:induction false} StepConserves(rt: Runtime, s: State, tx: Tx)
    requires Sound(rt.existentialDeposit, s.ledger)
    ensures var l' := Step(rt, s, tx).ledger;
      && Sound(rt.existentialDeposit, l')
      && Supply(l') + l'.dust == Supply(s.ledger) + s.ledger.dust && l'.dust >= s.ledger.dust
  {
    hide Decode, Encode, Reserve, Repatriate, Sum;
    var subject := Subject(s.storage, tx.call);
    if subject.Ok? {
      var l := subject.value;
      ReserveExact(rt.existentialDeposit, s.ledger, l.promisee, l.economics);
      RepatriateConserves(rt.existentialDeposit, s.ledger, l.promisee, l.promisor, l.economics);
    }
  }

  /** Over any run, nothing is created or destroyed: issuance falls only by the dust of
      removed accounts. */
  lemma {:induction false} RunConserves(rt: Runtime, genesis: Accounts, txs: seq<Tx>)
    requires Sound(rt.existentialDeposit, genesis)
    ensures var l := Run(rt, Genesis(genesis), txs).ledger;
      && Sound(rt.existentialDeposit, l)
      && Supply(l) + l.dust == Supply(genesis) + genesis.dust && l.dust >= genesis.dust
  {
    hide Step, Sound, Supply;
    if txs != [] {
      RunConserves(rt, genesis, txs[..|txs| - 1]);
      StepConserves(rt, Run(rt, Genesis(genesis), txs[..|txs| - 1]), txs[|txs| - 1]);
    }
  }

  // ---- The exact books of every account ----

  /** `who` has in reserve what it had at genesis plus its escrow, and altogether what it
      had at genesis plus what it earned less what it paid. */
  predicate BalancedAt(s: State, genesis: Accounts, who: AccountId) {
    && s.ledger.Held(who) == genesis.Held(who) + Books(s.storage, Escrowed, who)
    && s.ledger.Total(who) + Books(s.storage, Paid, who) == genesis.Total(who) + Books(s.storage, Earned, who)
  }

  ghost predicate Balanced(s: State, genesis: Accounts) {
    forall who: AccountId :: BalancedAt(s, genesis, who)
  }

  /** Escrow solvency: an account has in reserve the prices of its open liabilities. */
  predicate SolventAt(s: State, who: AccountId) {
    s.ledger.Held(who) >= Books(s.storage, Escrowed, who)
  }

  ghost predicate Solvent(s: State) {
    forall who: AccountId :: SolventAt(s, who)
  }

  /** A payment of `price` out of `payer`'s reserve removes the payer's account. */
  predicate Reaps(rt: Runtime, ledger: Accounts, payer: AccountId, payee: AccountId, price: nat)
    requires price <= ledger.Held(payer)
  {
    price > 0 && payer != payee && ledger.Total(payer) - price < rt.existentialDeposit
  }

  /** A successful finalize for a solvent promisee owes nothing: the remainder that the
      pallet ignores is zero and exactly the price moves, from the promisee's reserve to
      the promisor's free funds. A promisee left below the existential deposit also loses
      the rest. */
  lemma {:induction false} FinalizePays(rt: Runtime, s: State, i: u64, report: Blob, proof: Proof)
    requires Indexed(s.storage) && Sound(rt.existentialDeposit, s.ledger)
    ensures var (s', outcome) := Dispatch(rt, s, Unsigned, Finalize(i, report, proof));
      && (outcome.Done? <==>
            && i < s.storage.latestIndex && !s.storage.Finalized(i)
            && var l := Decode(s.storage.Liability(i)).value;
               && CheckReport(rt, l, i, report, proof)
               && (l.economics == 0 || l.promisee == l.promisor || s.ledger.Alive(l.promisor)))
      && (outcome.Done? && SolventAt(s, Decode(s.storage.Liability(i)).value.promisee) ==>
            PaidExactly(rt, s.ledger, s'.ledger, Decode(s.storage.Liability(i)).value))
  {
    hide Decode, Encode, EncodeReport, EncodeBlob, Repatriate, Sum;
    if i < s.storage.latestIndex && !s.storage.Finalized(i) {
      assert i in s.storage.liabilityOf;
      var l := Decode(s.storage.Liability(i)).value;
      TallyCovers(s.storage, Escrowed, l.promisee, s.storage.latestIndex, i);
      RepatriateConserves(rt.existentialDeposit, s.ledger, l.promisee, l.promisor, l.economics);
      if OnFinish(rt, s.ledger, l).Moved? && SolventAt(s, l.promisee) {
        RepatriateExact(rt.existentialDeposit, s.ledger, l.promisee, l.promisor, l.economics);
      }
    }
    EmptyIsNoLiability();
  }

  /** The price was there, nothing of it was missing, and it alone changed hands. */
  ghost predicate PaidExactly(rt: Runtime, before: Accounts, after: Accounts, l: SignedLiability) {
    && l.economics <= before.Held(l.promisee)
    && OnFinish(rt, before, l).Moved? && OnFinish(rt, before, l).remainder == 0
    && PaidOut(before, after, l, Reaps(rt, before, l.promisee, l.promisor, l.economics))
  }

  ghost predicate PaidOut(before: Accounts, after: Accounts, l: SignedLiability, reaped: bool)
    requires l.economics <= before.Held(l.promisee)
  {
    && after.dust == before.dust + (if reaped then before.Total(l.promisee) - l.economics else 0)
    && (forall a: AccountId :: after.Free(a) ==
          (if a == l.promisee && reaped then 0 else before.Free(a) + (if a == l.promisor then l.economics else 0)))
    && (forall a: AccountId :: after.Held(a) ==
          (if a == l.promisee && reaped then 0 else before.Held(a) - (if a == l.promisee then l.economics else 0)))
  }

  // ---- Solvency over runs ----

  /** A transaction that closes a liability. */
  predicate Pays(rt: Runtime, s: State, tx: Tx)
    ensures Pays(rt, s, tx) ==> tx.origin.Unsigned? && tx.call.Finalize? && Decode(s.storage.Liability(tx.call.index)).Ok?
  {
    tx.call.Finalize? && Dispatch(rt, s, tx.origin, tx.call).1.Done?
  }

  /** The liability it closes. */
  function Closed(rt: Runtime, s: State, tx: Tx): SignedLiability
    requires Pays(rt, s, tx)
  {
    Decode(s.storage.Liability(tx.call.index)).value
  }

  /** The guard under which a transaction leaves the escrow of `who` covered: if it pays out
      of that escrow and removes the account, then there was nothing else in it. */
  predicate Spares(rt: Runtime, s: State, tx: Tx, who: AccountId) {
    Pays(rt, s, tx) ==>
      var l := Closed(rt, s, tx);
      l.promisee == who && l.economics <= s.ledger.Held(who) && Reaps(rt, s.ledger, who, l.promisor, l.economics) ==>
        Books(s.storage, Escrowed, who) == l.economics
  }

  lemma {:induction false} CreateSolvent(rt: Runtime, s: State, c: Call, who: AccountId)
    requires Indexed(s.storage) && s.storage.latestIndex < INDICES - 1 && c.Create?
    requires Sound(rt.existentialDeposit, s.ledger) && SolventAt(s, who)
    ensures SolventAt(Dispatch(rt, s, Unsigned, c).0, who)
  {
    hide Decode, Encode, Reserve, StoreLiability, Books, Sound, Indexed;
    var l := Agreement(c);
    ReserveExact(rt.existentialDeposit, s.ledger, l.promisee, l.economics);
    CreateBooks(s.storage, l, Escrowed, who);
  }

  lemma {:induction false} FinalizeSolvent(rt: Runtime, s: State, tx: Tx, who: AccountId)
    requires Indexed(s.storage) && Sound(rt.existentialDeposit, s.ledger) && SolventAt(s, who) && Pays(rt, s, tx)
    ensures SolventAt(Step(rt, s, tx), who) <==> Spares(rt, s, tx, who)
  {
    hide Decode, Encode, EncodeReport, EncodeBlob, Repatriate, Books, Sound, Indexed, StoreReport, Entry;
    var l := Closed(rt, s, tx);
    FinalizePays(rt, s, tx.call.index, tx.call.report, tx.call.proof);
    FinalizeBooks(s.storage, tx.call.index, tx.call.report, Escrowed, who);
    RepatriateOthers(rt.existentialDeposit, s.ledger, l.promisee, l.promisor, l.economics);
  }

  /** Exactly which transactions leave a solvent account solvent. */
  lemma {:induction false} StepSolvent(rt: Runtime, s: State, tx: Tx, who: AccountId)
    requires Indexed(s.storage) && s.storage.latestIndex < INDICES - 1
    requires Sound(rt.existentialDeposit, s.ledger) && SolventAt(s, who)
    ensures SolventAt(Step(rt, s, tx), who) <==> Spares(rt, s, tx, who)
  {
    hide Decode, Encode, OnStart, OnFinish, Books, Sound, Indexed, StoreReport, StoreLiability;
    if Pays(rt, s, tx) {
      FinalizeSolvent(rt, s, tx, who);
    } else if tx.call.Create? {
      CreateSolvent(rt, s, tx.call, who);
    }
  }

  /** The state after the first `n` transactions. */
  function StateAt(rt: Runtime, genesis: Accounts, txs: seq<Tx>, n: nat): State
    requires n <= |txs|
  {
    Run(rt, Genesis(genesis), txs[..n])
  }

  lemma StateAtStep(rt: Runtime, genesis: Accounts, txs: seq<Tx>, n: nat)
    requires n < |txs|
    ensures StateAt(rt, genesis, txs, n + 1) == Step(rt, StateAt(rt, genesis, txs, n), txs[n])
  {
    hide Step;
    assert txs[..n + 1][..n] == txs[..n];
  }

  /** Every state on the way is one from which the step lemmas apply. */
  lemma StateAtGood(rt: Runtime, genesis: Accounts, txs: seq<Tx>, n: nat)
    requires n <= |txs| < INDICES && Sound(rt.existentialDeposit, genesis)
    ensures var s := StateAt(rt, genesis, txs, n);
      && Indexed(s.storage) && s.storage.latestIndex <= n && Sound(rt.existentialDeposit, s.ledger)
      && s.ledger.dust >= genesis.dust
  {
    hide Run, Sound, Indexed, Supply;
    RunIndexed(rt, genesis, txs[..n]);
    RunConserves(rt, genesis, txs[..n]);
  }

  ghost predicate AlwaysSolvent(rt: Runtime, genesis: Accounts, txs: seq<Tx>, who: AccountId) {
    forall n: nat :: n <= |txs| ==> SolventAt(StateAt(rt, genesis, txs, n), who)
  }

  ghost predicate AlwaysSpares(rt: Runtime, genesis: Accounts, txs: seq<Tx>, who: AccountId) {
    forall n: nat :: n < |txs| ==> Spares(rt, StateAt(rt, genesis, txs, n), txs[n], who)
  }

  lemma {:induction false} EmptyBooks(column: Column, who: AccountId)
    ensures Books(EMPTY, column, who) == 0
  {
  }

  lemma {:induction false} SolventUpTo(rt: Runtime, genesis: Accounts, txs: seq<Tx>, who: AccountId, n: nat)
    requires n <= |txs| < INDICES && Sound(rt.existentialDeposit, genesis)
    requires forall m: nat :: m < n ==> Spares(rt, StateAt(rt, genesis, txs, m), txs[m], who)
    ensures SolventAt(StateAt(rt, genesis, txs, n), who)
  {
    hide Step, Spares, Sound, Indexed, Books;
    if n == 0 {
      EmptyBooks(Escrowed, who);
    } else {
      SolventUpTo(rt, genesis, txs, who, n - 1);
      StateAtGood(rt, genesis, txs, n - 1);
      StateAtStep(rt, genesis, txs, n - 1);
      StepSolvent(rt, StateAt(rt, genesis, txs, n - 1), txs[n - 1], who);
    }
  }

  /** Escrow solvency over whole runs, with any deposit: an account can cover its open
      liabilities at every moment of a run if and only if every transaction spares it. */
  lemma {:induction false} RunSolvent(rt: Runtime, genesis: Accounts, txs: seq<Tx>, who: AccountId)
    requires |txs| < INDICES && Sound(rt.existentialDeposit, genesis)
    ensures AlwaysSolvent(rt, genesis, txs, who) <==> AlwaysSpares(rt, genesis, txs, who)
  {
    hide Step, Spares, StateAt, SolventAt, Sound, Indexed;
    if AlwaysSolvent(rt, genesis, txs, who) {
      forall n: nat | n < |txs| ensures Spares(rt, StateAt(rt, genesis, txs, n), txs[n], who) {
        StateAtGood(rt, genesis, txs, n);
        StateAtStep(rt, genesis, txs, n);
        assert SolventAt(StateAt(rt, genesis, txs, n), who) && SolventAt(StateAt(rt, genesis, txs, n + 1), who);
        StepSolvent(rt, StateAt(rt, genesis, txs, n), txs[n], who);
      }
    }
    if AlwaysSpares(rt, genesis, txs, who) {
      forall n: nat | n <= |txs| ensures SolventAt(StateAt(rt, genesis, txs, n), who) {
        SolventUpTo(rt, genesis, txs, who, n);
      }
    }
  }

  /** As long as its promisee was spared, a liability is closed with full payment: the
      remainder that the pallet ignores is zero and exactly the price moves. */
  lemma {:induction false} RunPaysInFull(rt: Runtime, genesis: Accounts, txs: seq<Tx>, n: nat)
    requires n < |txs| < INDICES && Sound(rt.existentialDeposit, genesis)
    requires Pays(rt, StateAt(rt, genesis, txs, n), txs[n])
    requires var who := Closed(rt, StateAt(rt, genesis, txs, n), txs[n]).promisee;
      forall m: nat :: m < n ==> Spares(rt, StateAt(rt, genesis, txs, m), txs[m], who)
    ensures var s := StateAt(rt, genesis, txs, n);
      PaidExactly(rt, s.ledger, StateAt(rt, genesis, txs, n + 1).ledger, Closed(rt, s, txs[n]))
  {
    hide Decode, Run, Spares, SolventAt, Sound, Indexed, PaidExactly, EncodeReport;
    var s := StateAt(rt, genesis, txs, n);
    StateAtGood(rt, genesis, txs, n);
    StateAtStep(rt, genesis, txs, n);
    SolventUpTo(rt, genesis, txs, Closed(rt, s, txs[n]).promisee, n);
    FinalizePays(rt, s, txs[n].call.index, txs[n].call.report, txs[n].call.proof);
  }

  // ---- Exact books over runs ----

  /** The guard under which a transaction keeps all books exact: it does not remove a
      promisee that has more than the price. */
  predicate KeepsBooks(rt: Runtime, s: State, tx: Tx) {
    Pays(rt, s, tx) ==>
      var l := Closed(rt, s, tx);
      l.economics <= s.ledger.Held(l.promisee) && Reaps(rt, s.ledger, l.promisee, l.promisor, l.economics) ==>
        s.ledger.Total(l.promisee) == l.economics
  }

  lemma {:induction false} CreateBalanced(rt: Runtime, s: State, c: Call, genesis: Accounts)
    requires Indexed(s.storage) && s.storage.latestIndex < INDICES - 1 && c.Create?
    requires Sound(rt.existentialDeposit, s.ledger) && Balanced(s, genesis)
    ensures var (s', outcome) := Dispatch(rt, s, Unsigned, c);
      Balanced(s', genesis) && s'.ledger.dust == s.ledger.dust
  {
    hide Decode, Encode, Reserve, StoreLiability, Books, Sound, Indexed;
    var (s', outcome) := Dispatch(rt, s, Unsigned, c);
    var l := Agreement(c);
    ReserveExact(rt.existentialDeposit, s.ledger, l.promisee, l.economics);
    if outcome.Done? {
      forall who: AccountId ensures BalancedAt(s', genesis, who) {
        assert BalancedAt(s, genesis, who);
        CreateBooks(s.storage, l, Escrowed, who);
        CreateBooks(s.storage, l, Earned, who);
        CreateBooks(s.storage, l, Paid, who);
      }
    }
  }

  /** What one payment does to one account's books. */
  lemma {:induction false} FinalizeBalancedAt(rt: Runtime, s: State, tx: Tx, genesis: Accounts, who: AccountId)
    requires Indexed(s.storage) && Sound(rt.existentialDeposit, s.ledger) && Pays(rt, s, tx)
    requires SolventAt(s, Closed(rt, s, tx).promisee) && BalancedAt(s, genesis, who)
    ensures var s' := Step(rt, s, tx);
      && (s'.ledger.dust == s.ledger.dust <==> KeepsBooks(rt, s, tx))
      && (KeepsBooks(rt, s, tx) ==> BalancedAt(s', genesis, who))
      && (who == Closed(rt, s, tx).promisee && BalancedAt(s', genesis, who) ==> KeepsBooks(rt, s, tx))
  {
    hide Decode, Encode, EncodeReport, EncodeBlob, OnFinish, Books, Sound, Indexed, StoreReport, Entry;
    var i, report, s' := tx.call.index, tx.call.report, Step(rt, s, tx);
    var l := Closed(rt, s, tx);
    FinalizePays(rt, s, i, report, tx.call.proof);
    assert s'.storage == StoreReport(s.storage, i, report);
    FinalizeBooks(s.storage, i, report, Escrowed, who);
    FinalizeBooks(s.storage, i, report, Earned, who);
    FinalizeBooks(s.storage, i, report, Paid, who);
    assert s'.ledger.Held(who) + s'.ledger.Free(who) == s'.ledger.Total(who);
  }

  lemma BalancedIsSolvent(s: State, genesis: Accounts)
    requires Balanced(s, genesis)
    ensures Solvent(s)
  {
    hide Books;
    forall who: AccountId ensures SolventAt(s, who) {
      assert BalancedAt(s, genesis, who);
    }
  }

  /** Exactly which transactions keep exact books exact; they are those that leave no
      dust. */
  lemma {:induction false} StepBalanced(rt: Runtime, s: State, tx: Tx, genesis: Accounts)
    requires Indexed(s.storage) && s.storage.latestIndex < INDICES - 1
    requires Sound(rt.existentialDeposit, s.ledger) && Balanced(s, genesis)
    ensures Balanced(Step(rt, s, tx), genesis) <==> KeepsBooks(rt, s, tx)
    ensures Step(rt, s, tx).ledger.dust == s.ledger.dust <==> KeepsBooks(rt, s, tx)
  {
    hide Decode, Encode, OnStart, OnFinish, BalancedAt, SolventAt, Sound, Indexed, StoreReport, StoreLiability, Reaps;
    if Pays(rt, s, tx) {
      BalancedIsSolvent(s, genesis);
      var promisee := Closed(rt, s, tx).promisee;
      assert SolventAt(s, promisee);
      forall who: AccountId ensures KeepsBooks(rt, s, tx) ==> BalancedAt(Step(rt, s, tx), genesis, who) {
        assert BalancedAt(s, genesis, who);
        FinalizeBalancedAt(rt, s, tx, genesis, who);
      }
      assert BalancedAt(s, genesis, promisee);
      FinalizeBalancedAt(rt, s, tx, genesis, promisee);
    } else if tx.call.Create? {
      CreateBalanced(rt, s, tx.call, genesis);
    }
  }

  ghost predicate AlwaysBalanced(rt: Runtime, genesis: Accounts, txs: seq<Tx>) {
    forall n: nat :: n <= |txs| ==> Balanced(StateAt(rt, genesis, txs, n), genesis)
  }

  ghost predicate AlwaysKeeps(rt: Runtime, genesis: Accounts, txs: seq<Tx>) {
    forall n: nat :: n < |txs| ==> KeepsBooks(rt, StateAt(rt, genesis, txs, n), txs[n])
  }

  lemma GenesisBalanced(genesis: Accounts)
    ensures Balanced(Genesis(genesis), genesis)
  {
    hide Books;
    forall who: AccountId ensures BalancedAt(Genesis(genesis), genesis, who) {
      EmptyBooks(Escrowed, who);
      EmptyBooks(Earned, who);
      EmptyBooks(Paid, who);
    }
  }

  lemma {:induction false} BalancedUpTo(rt: Runtime, genesis: Accounts, txs: seq<Tx>, n: nat)
    requires n <= |txs| < INDICES && Sound(rt.existentialDeposit, genesis)
    requires forall m: nat :: m < n ==> KeepsBooks(rt, StateAt(rt, genesis, txs, m), txs[m])
    ensures Balanced(StateAt(rt, genesis, txs, n), genesis)
    ensures StateAt(rt, genesis, txs, n).ledger.dust == genesis.dust
  {
    hide Step, KeepsBooks, Sound, Indexed, Balanced;
    if n == 0 {
      GenesisBalanced(genesis);
    } else {
      BalancedUpTo(rt, genesis, txs, n - 1);
      StateAtGood(rt, genesis, txs, n - 1);
      StateAtStep(rt, genesis, txs, n - 1);
      StepBalanced(rt, StateAt(rt, genesis, txs, n - 1), txs[n - 1], genesis);
    }
  }

  /** Without dust at `n`, no transaction before it broke the books. */
  lemma {:induction false} DustlessKeeps(rt: Runtime, genesis: Accounts, txs: seq<Tx>, n: nat)
    requires n <= |txs| < INDICES && Sound(rt.existentialDeposit, genesis)
    requires StateAt(rt, genesis, txs, n).ledger.dust == genesis.dust
    ensures forall m: nat :: m < n ==> KeepsBooks(rt, StateAt(rt, genesis, txs, m), txs[m])
  {
    hide Step, Run, KeepsBooks, Sound, Indexed, Balanced, Supply;
    if n > 0 {
      var s := StateAt(rt, genesis, txs, n - 1);
      StateAtGood(rt, genesis, txs, n - 1);
      StateAtStep(rt, genesis, txs, n - 1);
      StepConserves(rt, s, txs[n - 1]);
      DustlessKeeps(rt, genesis, txs, n - 1);
      BalancedUpTo(rt, genesis, txs, n - 1);
      StepBalanced(rt, s, txs[n - 1], genesis);
    }
  }

  /** The books of every account over whole runs, with any deposit: its reserve has always
      grown by just its open escrow, and its total changed by what it earned and what it
      paid, if and only if no transaction removed a promisee that had more than the price;
      which is to say, if and only if no dust was left. */
  lemma {:induction false} RunBalanced(rt: Runtime, genesis: Accounts, txs: seq<Tx>)
    requires |txs| < INDICES && Sound(rt.existentialDeposit, genesis)
    ensures AlwaysBalanced(rt, genesis, txs) <==> AlwaysKeeps(rt, genesis, txs)
    ensures AlwaysKeeps(rt, genesis, txs) <==> Run(rt, Genesis(genesis), txs).ledger.dust == genesis.dust
  {
    hide Step, Run, KeepsBooks, Sound, Indexed, Balanced;
    assert txs[..|txs|] == txs;
    if AlwaysBalanced(rt, genesis, txs) {
      forall n: nat | n < |txs| ensures KeepsBooks(rt, StateAt(rt, genesis, txs, n), txs[n]) {
        StateAtGood(rt, genesis, txs, n);
        StateAtStep(rt, genesis, txs, n);
        assert Balanced(StateAt(rt, genesis, txs, n), genesis) && Balanced(StateAt(rt, genesis, txs, n + 1), genesis);
        StepBalanced(rt, StateAt(rt, genesis, txs, n), txs[n], genesis);
      }
    }
    if AlwaysKeeps(rt, genesis, txs) {
      forall n: nat | n <= |txs| ensures Balanced(StateAt(rt, genesis, txs, n), genesis) {
        BalancedUpTo(rt, genesis, txs, n);
      }
      BalancedUpTo(rt, genesis, txs, |txs|);
    }
    if Run(rt, Genesis(genesis), txs).ledger.dust == genesis.dust {
      DustlessKeeps(rt, genesis, txs, |txs|);
    }
  }
}
