/** What every run of the liability pallet keeps true of its storage and event log. */
module LiabilityRuns {
  import opened LittleEndian
  import opened Scale
  import opened FrameSystem
  import opened Liability

  datatype Tx = Tx(origin: Origin, call: Call)

  const INDICES: nat := U64_MAX + 1

  function Step(rt: Runtime, s: State, tx: Tx): State {
    Dispatch(rt, s, tx.origin, tx.call).0
  }

  /** The state after a list of transactions, successful or not. */
  function Run(rt: Runtime, s: State, txs: seq<Tx>): State {
    if txs == [] then s else Step(rt, Run(rt, s, txs[..|txs| - 1]), txs[|txs| - 1])
  }

  function Genesis(ledger: Accounts): State { State(EMPTY, [], ledger) }

  /** Both parties proved the technics and economics of `l` in this transaction. */
  predicate Agreed(rt: Runtime, tx: Tx, l: SignedLiability) {
    && tx.origin.Unsigned? && tx.call.Create? && Agreement(tx.call) == l
    && rt.verify(tx.call.promiseeProof, EncodeParams(l.technics, l.economics), l.promisee)
    && rt.verify(tx.call.promisorProof, EncodeParams(l.technics, l.economics), l.promisor)
  }

  /** A transaction that stored a new liability. */
  predicate Creates(rt: Runtime, s: State, tx: Tx, s': State) {
    && tx.call.Create? && Agreed(rt, tx, Agreement(tx.call))
    && s'.storage == StoreLiability(s.storage, s.storage.latestIndex, Agreement(tx.call))
    && s'.events == s.events + [Announce(s.storage.latestIndex, Agreement(tx.call))]
  }

  /** A transaction that stored a report on an open liability. */
  predicate Closes(rt: Runtime, s: State, tx: Tx, s': State) {
    && tx.origin.Unsigned? && tx.call.Finalize? && !s.storage.Finalized(tx.call.index)
    && tx.call.index in s.storage.liabilityOf && Decode(s.storage.liabilityOf[tx.call.index]).Ok?
    && rt.verify(tx.call.proof, EncodeReport(tx.call.index, tx.call.report),
                 Decode(s.storage.liabilityOf[tx.call.index]).value.promisor)
    && s'.storage == StoreReport(s.storage, tx.call.index, tx.call.report)
    && s'.events == s.events + [NewReport(tx.call.index, tx.call.report)]
  }

  lemma {:induction false} StepCases(rt: Runtime, s: State, tx: Tx)
    ensures var s' := Step(rt, s, tx);
      s' == s || Creates(rt, s, tx, s') || Closes(rt, s, tx, s')
  {
    hide Decode, Encode, EncodeParams, EncodeReport, OnStart, OnFinish, StoreLiability, StoreReport;
    EmptyIsNoLiability();
  }

  // ---- Indices, flags and reports ----

  predicate IsReport(s: seq<byte>) { DecodeBlob(s).Ok? && DecodeBlob(s).rest == [] }
  predicate IsLiability(s: seq<byte>) { Decode(s).Ok? && Decode(s).rest == [] }

  /** Liabilities fill the indices below `latestIndex` and nothing else; each entry is a
      whole encoding; an index is flagged exactly when a report is stored for it. */
  ghost predicate Indexed(st: Storage) {
    && (forall i: u64 :: i in st.liabilityOf <==> i < st.latestIndex)
    && (forall i: u64 :: i in st.liabilityOf ==> IsLiability(st.liabilityOf[i]))
    && (forall i: u64 :: st.Finalized(i) <==> i in st.reportOf)
    && (forall i: u64 :: i in st.reportOf ==> i in st.liabilityOf && IsReport(st.reportOf[i]))
  }

  /** `st'` holds everything `st` holds, unchanged. */
  ghost predicate Extends(st: Storage, st': Storage) {
    && st.latestIndex <= st'.latestIndex
    && (forall i: u64 :: i in st.liabilityOf ==> i in st'.liabilityOf && st'.liabilityOf[i] == st.liabilityOf[i])
    && (forall i: u64 :: i in st.reportOf ==> i in st'.reportOf && st'.reportOf[i] == st.reportOf[i])
  }

  lemma {:induction false} StoreLiabilityIndexed(st: Storage, l: SignedLiability)
    requires Indexed(st) && st.latestIndex < INDICES - 1
    ensures var st' := StoreLiability(st, st.latestIndex, l);
      Indexed(st') && Extends(st, st') && st'.latestIndex == st.latestIndex + 1
  {
    hide Decode, Encode, DecodeBlob, EncodeBlob;
    LiabilityRoundTrip(l);
  }

  lemma {:induction false} StoreReportIndexed(st: Storage, i: u64, report: Blob)
    requires Indexed(st) && i in st.liabilityOf && !st.Finalized(i)
    ensures var st' := StoreReport(st, i, report);
      Indexed(st') && Extends(st, st') && st'.latestIndex == st.latestIndex
  {
    hide Decode, Encode, DecodeBlob, EncodeBlob;
    assert EncodeBlob(report) == EncodeBlob(report) + [];
    BlobExact(EncodeBlob(report), report, []);
  }

  lemma ExtendsItself(st: Storage)
    ensures Extends(st, st)
  {
  }

  lemma {:induction false} StepIndexed(rt: Runtime, s: State, tx: Tx)
    requires Indexed(s.storage) && s.storage.latestIndex < INDICES - 1
    ensures var st' := Step(rt, s, tx).storage;
      Indexed(st') && Extends(s.storage, st') && st'.latestIndex <= s.storage.latestIndex + 1
  {
    hide Step, Decode, Encode, DecodeBlob, EncodeBlob, EncodeParams, EncodeReport, StoreLiability, StoreReport, Indexed;
    StepCases(rt, s, tx);
    ExtendsItself(s.storage);
    if tx.call.Create? {
      StoreLiabilityIndexed(s.storage, Agreement(tx.call));
    } else if tx.call.index in s.storage.liabilityOf && !s.storage.Finalized(tx.call.index) {
      StoreReportIndexed(s.storage, tx.call.index, tx.call.report);
    }
  }

  /** In every state a chain can reach before the index space is exhausted, storage is
      indexed without gaps. */
  lemma {:induction false} RunIndexed(rt: Runtime, ledger: Accounts, txs: seq<Tx>)
    requires |txs| < INDICES
    ensures var st := Run(rt, Genesis(ledger), txs).storage;
      Indexed(st) && st.latestIndex <= |txs|
  {
    if txs != [] {
      RunIndexed(rt, ledger, txs[..|txs| - 1]);
      StepIndexed(rt, Run(rt, Genesis(ledger), txs[..|txs| - 1]), txs[|txs| - 1]);
    }
  }

  /** Stored liabilities and reports never change and are never removed later on. */
  lemma {:induction false} RunExtends(rt: Runtime, ledger: Accounts, a: seq<Tx>, b: seq<Tx>)
    requires |a| + |b| < INDICES
    ensures Extends(Run(rt, Genesis(ledger), a).storage, Run(rt, Genesis(ledger), a + b).storage)
  {
    if b == [] {
      assert a + b == a;
    } else {
      var b' := b[..|b| - 1];
      RunExtends(rt, ledger, a, b');
      RunIndexed(rt, ledger, a + b');
      assert (a + b)[..|a + b| - 1] == a + b';
      StepIndexed(rt, Run(rt, Genesis(ledger), a + b'), b[|b| - 1]);
    }
  }

  /** Finalizing an index that was never created always fails, and so does finalizing one
      a second time, however much later. */
  lemma FinalizeRefused(rt: Runtime, ledger: Accounts, a: seq<Tx>, b: seq<Tx>, i: u64, report: Blob, proof: Proof)
    requires |a| + |b| < INDICES
    ensures var before := Run(rt, Genesis(ledger), a);
      var s := Run(rt, Genesis(ledger), a + b);
      var outcome := Dispatch(rt, s, Unsigned, Finalize(i, report, proof)).1;
      && (i >= s.storage.latestIndex ==> outcome == Failed(LiabilityDecodeFailure))
      && (before.storage.Finalized(i) ==> outcome == Failed(AlreadyFinalized))
  {
    RunIndexed(rt, ledger, a);
    RunIndexed(rt, ledger, a + b);
    RunExtends(rt, ledger, a, b);
    EmptyIsNoLiability();
  }

  /** The index wraps after 2^64 creations, and storage is then no longer indexed: the one
      point where the runs above stop. */
  lemma WrapLosesIndex(st: Storage, l: SignedLiability)
    requires Indexed(st) && st.latestIndex == INDICES - 1
    ensures StoreLiability(st, st.latestIndex, l).latestIndex == 0
    ensures !Indexed(StoreLiability(st, st.latestIndex, l))
  {
    var st' := StoreLiability(st, st.latestIndex, l);
    assert st.latestIndex in st'.liabilityOf;
  }

  // ---- The event journal ----

  /** Rebuilds the four storage items from the events alone. */
  function Replay(events: seq<Event>): (st: Storage)
  {
    if events == [] then EMPTY else
    var st := Replay(events[..|events| - 1]);
    match events[|events| - 1]
    case NewLiability(i, technics, economics, promisee, promisor) =>
      Storage((i + 1) % INDICES,
              st.liabilityOf[i := Encode(SignedLiability(technics, economics, promisee, promisor))],
              st.isFinalized, st.reportOf)
    case NewReport(i, report) =>
      Storage(st.latestIndex, st.liabilityOf, st.isFinalized[i := true], st.reportOf[i := EncodeBlob(report)])
  }

  /** The journal is complete: storage is always what its events say, from any number of
      transactions. */
  lemma {:induction false} JournalRebuildsStorage(rt: Runtime, ledger: Accounts, txs: seq<Tx>)
    ensures var s := Run(rt, Genesis(ledger), txs); Replay(s.events) == s.storage
  {
    if txs != [] {
      JournalRebuildsStorage(rt, ledger, txs[..|txs| - 1]);
      StepJournal(rt, Run(rt, Genesis(ledger), txs[..|txs| - 1]), txs[|txs| - 1]);
    }
  }

  lemma {:induction false} StepJournal(rt: Runtime, s: State, tx: Tx)
    requires Replay(s.events) == s.storage
    ensures Replay(Step(rt, s, tx).events) == Step(rt, s, tx).storage
  {
    hide Step, Decode, Encode, EncodeBlob, EncodeParams, EncodeReport;
    var s' := Step(rt, s, tx);
    StepCases(rt, s, tx);
    if s' != s { assert s'.events[..|s.events|] == s.events; }
  }

  /** Each event still describes what is stored, and no index is announced or reported
      twice. */
  ghost predicate Faithful(s: State) {
    && (forall k :: 0 <= k < |s.events| ==> Recorded(s.storage, s.events[k]))
    && (forall j, k :: 0 <= j < k < |s.events| ==>
          s.events[j].index != s.events[k].index || s.events[j].NewReport? != s.events[k].NewReport?)
  }

  ghost predicate Recorded(st: Storage, e: Event) {
    match e
    case NewLiability(i, technics, economics, promisee, promisor) =>
      i in st.liabilityOf &&
      st.liabilityOf[i] == Encode(SignedLiability(technics, economics, promisee, promisor))
    case NewReport(i, report) =>
      i in st.reportOf && st.reportOf[i] == EncodeBlob(report)
  }

  lemma {:induction false} StepFaithful(rt: Runtime, s: State, tx: Tx)
    requires Indexed(s.storage) && s.storage.latestIndex < INDICES - 1 && Faithful(s)
    ensures Faithful(Step(rt, s, tx))
  {
    hide Step, Decode, Encode, EncodeBlob, EncodeParams, EncodeReport;
    var s' := Step(rt, s, tx);
    StepCases(rt, s, tx);
    StepIndexed(rt, s, tx);
    forall k | 0 <= k < |s.events| ensures Recorded(s'.storage, s.events[k]) {
      assert Recorded(s.storage, s.events[k]);
    }
  }

  lemma {:induction false} EventsFaithful(rt: Runtime, ledger: Accounts, txs: seq<Tx>)
    requires |txs| < INDICES
    ensures Faithful(Run(rt, Genesis(ledger), txs))
  {
    if txs != [] {
      EventsFaithful(rt, ledger, txs[..|txs| - 1]);
      RunIndexed(rt, ledger, txs[..|txs| - 1]);
      StepFaithful(rt, Run(rt, Genesis(ledger), txs[..|txs| - 1]), txs[|txs| - 1]);
    }
  }

  // ---- Authenticity ----

  /** The promisor proved index and report in this transaction. */
  predicate Reported(rt: Runtime, tx: Tx, i: u64, promisor: AccountId, stored: seq<byte>) {
    && tx.origin.Unsigned? && tx.call.Finalize? && tx.call.index == i
    && rt.verify(tx.call.proof, EncodeReport(i, tx.call.report), promisor)
    && stored == EncodeBlob(tx.call.report)
  }

  ghost predicate Authentic(rt: Runtime, txs: seq<Tx>, st: Storage) {
    && (forall i: u64 :: i in st.liabilityOf ==> AgreedAt(rt, txs, st.liabilityOf[i]))
    && (forall i: u64 :: i in st.reportOf ==> i in st.liabilityOf && ReportedAt(rt, txs, st, i))
  }

  ghost predicate AgreedAt(rt: Runtime, txs: seq<Tx>, stored: seq<byte>) {
    exists k :: 0 <= k < |txs| && Decode(stored).Ok? && Agreed(rt, txs[k], Decode(stored).value)
  }

  ghost predicate ReportedAt(rt: Runtime, txs: seq<Tx>, st: Storage, i: u64)
    requires i in st.liabilityOf && i in st.reportOf
  {
    Decode(st.liabilityOf[i]).Ok? &&
    exists k :: 0 <= k < |txs| && Reported(rt, txs[k], i, Decode(st.liabilityOf[i]).value.promisor, st.reportOf[i])
  }

  lemma AgreedLater(rt: Runtime, txs: seq<Tx>, tx: Tx, stored: seq<byte>)
    requires AgreedAt(rt, txs, stored)
    ensures AgreedAt(rt, txs + [tx], stored)
  {
    var k :| 0 <= k < |txs| && Agreed(rt, txs[k], Decode(stored).value);
    assert (txs + [tx])[k] == txs[k];
  }

  lemma ReportedLater(rt: Runtime, txs: seq<Tx>, tx: Tx, st: Storage, st': Storage, i: u64)
    requires i in st.liabilityOf && i in st.reportOf && ReportedAt(rt, txs, st, i)
    requires i in st'.liabilityOf && st'.liabilityOf[i] == st.liabilityOf[i]
    requires i in st'.reportOf && st'.reportOf[i] == st.reportOf[i]
    ensures ReportedAt(rt, txs + [tx], st', i)
  {
    var k :| 0 <= k < |txs| && Reported(rt, txs[k], i, Decode(st.liabilityOf[i]).value.promisor, st.reportOf[i]);
    assert (txs + [tx])[k] == txs[k];
  }

  lemma {:induction false} StepAgreed(rt: Runtime, s: State, txs: seq<Tx>, tx: Tx, i: u64)
    requires Extends(s.storage, Step(rt, s, tx).storage) && Authentic(rt, txs, s.storage)
    requires i in Step(rt, s, tx).storage.liabilityOf
    ensures AgreedAt(rt, txs + [tx], Step(rt, s, tx).storage.liabilityOf[i])
  {
    hide Step, Decode, Encode, EncodeParams, EncodeReport;
    StepCases(rt, s, tx);
    if i in s.storage.liabilityOf {
      AgreedLater(rt, txs, tx, s.storage.liabilityOf[i]);
    } else {
      LiabilityRoundTrip(Agreement(tx.call));
      assert (txs + [tx])[|txs|] == tx;
    }
  }

  lemma {:induction false} StepReported(rt: Runtime, s: State, txs: seq<Tx>, tx: Tx, i: u64)
    requires Extends(s.storage, Step(rt, s, tx).storage) && Authentic(rt, txs, s.storage)
    requires i in Step(rt, s, tx).storage.reportOf
    ensures i in Step(rt, s, tx).storage.liabilityOf && ReportedAt(rt, txs + [tx], Step(rt, s, tx).storage, i)
  {
    hide Step, Decode, Encode, EncodeParams, EncodeReport, EncodeBlob;
    var st, st' := s.storage, Step(rt, s, tx).storage;
    StepCases(rt, s, tx);
    if i in st.reportOf {
      ReportedLater(rt, txs, tx, st, st', i);
    } else {
      assert (txs + [tx])[|txs|] == tx;
      assert Reported(rt, (txs + [tx])[|txs|], i, Decode(st'.liabilityOf[i]).value.promisor, st'.reportOf[i]);
    }
  }

  /** Nothing is on chain unless its parties signed it: every stored liability was proved
      by promisee and promisor, every stored report by the promisor of its liability. */
  lemma {:induction false} RunAuthentic(rt: Runtime, ledger: Accounts, txs: seq<Tx>)
    requires |txs| < INDICES
    ensures Authentic(rt, txs, Run(rt, Genesis(ledger), txs).storage)
  {
    hide Step, AgreedAt, ReportedAt, Indexed, Extends;
    if txs != [] {
      var init := txs[..|txs| - 1];
      RunAuthentic(rt, ledger, init);
      RunIndexed(rt, ledger, init);
      var s, st := Run(rt, Genesis(ledger), init), Run(rt, Genesis(ledger), txs).storage;
      StepIndexed(rt, s, txs[|txs| - 1]);
      assert txs == init + [txs[|txs| - 1]];
      forall i: u64 | i in st.liabilityOf ensures AgreedAt(rt, txs, st.liabilityOf[i]) {
        StepAgreed(rt, s, init, txs[|txs| - 1], i);
      }
      forall i: u64 | i in st.reportOf ensures i in st.liabilityOf && ReportedAt(rt, txs, st, i) {
        StepReported(rt, s, init, txs[|txs| - 1], i);
      }
    }
  }
}
