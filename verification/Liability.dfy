/** The liability pallet with open-market economics: storage, the two calls, and the
    transaction-pool gate. Signature verification and the existential deposit are
    parameters of the runtime. */
module Liability {
  import opened LittleEndian
  import opened Scale
  import opened Currency
  import opened FrameSystem

  type Proof = seq<byte>
  type Accounts = Ledger<AccountId>

  datatype Runtime = Runtime(
    verify: (Proof, seq<byte>, AccountId) -> bool,
    existentialDeposit: nat)

  datatype Call =
    | Create(technics: Blob, economics: u128, promisee: AccountId, promisor: AccountId,
             promiseeProof: Proof, promisorProof: Proof)
    | Finalize(index: u64, report: Blob, proof: Proof)

  datatype Event =
    | NewLiability(index: u64, technics: Blob, economics: u128, promisee: AccountId, promisor: AccountId)
    | NewReport(index: u64, report: Blob)

  datatype Error =
    | BadOrigin
    | BadPromiseeProof
    | BadPromisorProof
    | BadReportProof
    | LiabilityDecodeFailure
    | AlreadyFinalized
    | Currency(error: CurrencyError)

  datatype Outcome = Done | Failed(error: Error)

  /** The four storage items. Reading an absent key gives the item's default. */
  datatype Storage = Storage(
    latestIndex: u64,
    liabilityOf: map<u64, seq<byte>>,
    isFinalized: map<u64, bool>,
    reportOf: map<u64, seq<byte>>)
  {
    function Liability(i: u64): seq<byte> { if i in liabilityOf then liabilityOf[i] else [] }
    predicate Finalized(i: u64) { i in isFinalized && isFinalized[i] }
  }

  const EMPTY := Storage(0, map[], map[], map[])

  datatype State = State(storage: Storage, events: seq<Event>, ledger: Accounts)

  // ---- Agreements ----

  function Agreement(c: Call): (l: SignedLiability)
    requires c.Create?
  {
    SignedLiability(c.technics, c.economics, c.promisee, c.promisor)
  }

  predicate CheckParams(rt: Runtime, l: SignedLiability, proof: Proof, sender: AccountId) {
    rt.verify(proof, EncodeParams(l.technics, l.economics), sender)
  }

  predicate CheckReport(rt: Runtime, l: SignedLiability, index: u64, report: Blob, proof: Proof) {
    rt.verify(proof, EncodeReport(index, report), l.promisor)
  }

  function OnStart(rt: Runtime, ledger: Accounts, l: SignedLiability): (r: Reservation<AccountId>)
  {
    Reserve(rt.existentialDeposit, ledger, l.promisee, l.economics)
  }

  /** `on_finish(true)`, the only form the pallet calls; it drops the remainder. */
  function OnFinish(rt: Runtime, ledger: Accounts, l: SignedLiability): (r: Repatriation<AccountId>)
  {
    Repatriate(rt.existentialDeposit, ledger, l.promisee, l.promisor, l.economics)
  }

  // ---- Storage writes ----

  /** The index is a `u64`, so its successor wraps. */
  function Next(i: u64): u64 { (i + 1) % 0x1_0000_0000_0000_0000 }

  function StoreLiability(st: Storage, i: u64, l: SignedLiability): Storage {
    st.(liabilityOf := st.liabilityOf[i := Encode(l)], latestIndex := Next(i))
  }

  function StoreReport(st: Storage, i: u64, report: Blob): Storage {
    st.(reportOf := st.reportOf[i := EncodeBlob(report)], isFinalized := st.isFinalized[i := true])
  }

  function Announce(i: u64, l: SignedLiability): Event {
    NewLiability(i, l.technics, l.economics, l.promisee, l.promisor)
  }

  // ---- Dispatch ----

  /** What a call does to the state, with its outcome. */
  function Dispatch(rt: Runtime, s: State, origin: Origin, c: Call): (r: (State, Outcome))
  {
    if !origin.Unsigned? then (s, Failed(BadOrigin))
    else match c
      case Create(_, _, _, _, _, _) => DispatchCreate(rt, s, c)
      case Finalize(index, report, proof) => DispatchFinalize(rt, s, index, report, proof)
  }

  function DispatchCreate(rt: Runtime, s: State, c: Call): (r: (State, Outcome))
    requires c.Create?
  {
    var l := Agreement(c);
    if !CheckParams(rt, l, c.promiseeProof, c.promisee) then (s, Failed(BadPromiseeProof))
    else if !CheckParams(rt, l, c.promisorProof, c.promisor) then (s, Failed(BadPromisorProof))
    else match OnStart(rt, s.ledger, l)
      case Refused(e) => (s, Failed(Error.Currency(e)))
      case Reserved(ledger) =>
        var i := s.storage.latestIndex;
        (State(StoreLiability(s.storage, i, l), s.events + [Announce(i, l)], ledger), Done)
  }

  function DispatchFinalize(rt: Runtime, s: State, index: u64, report: Blob, proof: Proof)
    : (r: (State, Outcome))
  {
    if s.storage.Finalized(index) then (s, Failed(AlreadyFinalized))
    else match Decode(s.storage.Liability(index))
      case Fail => (s, Failed(LiabilityDecodeFailure))
      case Ok(l, _) =>
        if !CheckReport(rt, l, index, report, proof) then (s, Failed(BadReportProof))
        else match OnFinish(rt, s.ledger, l)
          case Rejected(e) => (s, Failed(Error.Currency(e)))
          case Moved(ledger, _) =>
            (State(StoreReport(s.storage, index, report), s.events + [NewReport(index, report)], ledger), Done)
  }

  /** The pallet itself, updating its storage step by step. */
  class Module {
    const rt: Runtime
    var latestIndex: u64
    var liabilityOf: map<u64, seq<byte>>
    var isFinalized: map<u64, bool>
    var reportOf: map<u64, seq<byte>>
    var events: seq<Event>
    var ledger: Accounts

    function Abs(): State
      reads this
    {
      State(Storage(latestIndex, liabilityOf, isFinalized, reportOf), events, ledger)
    }

    constructor (rt: Runtime, ledger: Accounts)
      ensures this.rt == rt
      ensures Abs() == State(EMPTY, [], ledger)
    {
      this.rt := rt;
      this.ledger := ledger;
      latestIndex, liabilityOf, isFinalized, reportOf, events := 0, map[], map[], map[], [];
    }

    method Create(origin: Origin, technics: Blob, economics: u128, promisee: AccountId, promisor: AccountId,
                  promiseeProof: Proof, promisorProof: Proof) returns (outcome: Outcome)
      modifies this
      ensures (Abs(), outcome) == Dispatch(rt, old(Abs()), origin,
                Call.Create(technics, economics, promisee, promisor, promiseeProof, promisorProof))
      ensures outcome.Failed? ==> Abs() == old(Abs())
      ensures outcome.Done? ==>
        && liabilityOf == old(liabilityOf)[
             old(latestIndex) := Encode(SignedLiability(technics, economics, promisee, promisor))]
        && latestIndex == (old(latestIndex) + 1) % 0x1_0000_0000_0000_0000
        && isFinalized == old(isFinalized) && reportOf == old(reportOf)
        && events == old(events) + [NewLiability(old(latestIndex), technics, economics, promisee, promisor)]
        && Reserve(rt.existentialDeposit, old(ledger), promisee, economics) == Reserved(ledger)
    {
      if !origin.Unsigned? { return Failed(BadOrigin); }
      var liability := SignedLiability(technics, economics, promisee, promisor);
      if !CheckParams(rt, liability, promiseeProof, promisee) { return Failed(BadPromiseeProof); }
      if !CheckParams(rt, liability, promisorProof, promisor) { return Failed(BadPromisorProof); }

      var started := OnStart(rt, ledger, liability);
      if started.Refused? { return Failed(Error.Currency(started.error)); }
      ledger := started.ledger;

      var index := latestIndex;
      liabilityOf := liabilityOf[index := Encode(liability)];
      latestIndex := Next(index);
      events := events + [NewLiability(index, technics, economics, promisee, promisor)];
      outcome := Done;
    }

    method Finalize(origin: Origin, index: u64, report: Blob, proof: Proof) returns (outcome: Outcome)
      modifies this
      ensures (Abs(), outcome) == Dispatch(rt, old(Abs()), origin, Call.Finalize(index, report, proof))
      ensures outcome.Failed? ==> Abs() == old(Abs())
      ensures outcome.Done? ==>
        && latestIndex == old(latestIndex) && liabilityOf == old(liabilityOf)
        && reportOf == old(reportOf)[index := EncodeBlob(report)] && isFinalized == old(isFinalized)[index := true]
        && events == old(events) + [NewReport(index, report)]
        && index in liabilityOf && Decode(liabilityOf[index]).Ok? && var l := Decode(liabilityOf[index]).value;
          var paid := Repatriate(rt.existentialDeposit, old(ledger), l.promisee, l.promisor, l.economics);
          paid.Moved? && paid.ledger == ledger
    {
      EmptyIsNoLiability();
      if !origin.Unsigned? { return Failed(BadOrigin); }
      if index in isFinalized && isFinalized[index] { return Failed(AlreadyFinalized); }
      var decoded := Decode(if index in liabilityOf then liabilityOf[index] else []);
      if decoded.Fail? { return Failed(LiabilityDecodeFailure); }
      var liability := decoded.value;
      if !CheckReport(rt, liability, index, report, proof) { return Failed(BadReportProof); }

      var finished := OnFinish(rt, ledger, liability);
      if finished.Rejected? { return Failed(Error.Currency(finished.error)); }
      ledger := finished.ledger;

      reportOf := reportOf[index := EncodeBlob(report)];
      isFinalized := isFinalized[index := true];
      events := events + [NewReport(index, report)];
      outcome := Done;
    }
  }

  // ---- The transaction-pool gate ----

  datatype Validity = Valid(tag: seq<byte>) | BadProof | BadCall

  function ValidateUnsigned(rt: Runtime, st: Storage, c: Call): (v: Validity)
  {
    match c
    case Create(technics, economics, promisee, promisor, promiseeProof, promisorProof) =>
      var l := Agreement(c);
      if !CheckParams(rt, l, promiseeProof, promisee) then BadProof
      else if !CheckParams(rt, l, promisorProof, promisor) then BadProof
      else Valid(EncodeParams(technics, economics) + promisee + promisor)
    case Finalize(index, report, proof) =>
      match Decode(st.Liability(index))
      case Fail => BadCall
      case Ok(l, _) =>
        if CheckReport(rt, l, index, report, proof) then Valid(EncodeReport(index, report)) else BadProof
  }

  /** The liability a call concerns: the one it proposes or the one it closes. */
  function Subject(st: Storage, c: Call): (l: Decoded<SignedLiability>)
  {
    match c
    case Create(_, _, _, _, _, _) => Ok(Agreement(c), [])
    case Finalize(index, _, _) => Decode(st.Liability(index))
  }

  /** What dispatch asks for beyond the gate: an open index, and the ledger's consent. */
  predicate Payable(rt: Runtime, s: State, c: Call) {
    match Subject(s.storage, c)
    case Fail => false
    case Ok(l, _) =>
      match c
      case Create(_, _, _, _, _, _) => OnStart(rt, s.ledger, l).Reserved?
      case Finalize(index, _, _) => !s.storage.Finalized(index) && OnFinish(rt, s.ledger, l).Moved?
  }

  /** The gate and the dispatcher agree: an unsigned call succeeds exactly when the pool
      accepts it and the ledger can carry it out; any call that fails changes nothing. */
  lemma GateAgreesWithDispatch(rt: Runtime, s: State, origin: Origin, c: Call)
    ensures var (s', outcome) := Dispatch(rt, s, origin, c);
      && (outcome.Done? <==> origin.Unsigned? && ValidateUnsigned(rt, s.storage, c).Valid? && Payable(rt, s, c))
      && (outcome.Failed? ==> s' == s)
      && (outcome.Done? ==> |s'.events| == |s.events| + 1)
  {
  }

  /** Which verdict the gate gives: a creation needs both proofs over technics and price; a
      report needs a stored liability, else the call itself is bad, and its promisor's proof
      over index and report. The tag is the liability's or the signed report's bytes. */
  lemma GateExact(rt: Runtime, st: Storage, c: Call)
    ensures c.Create? ==>
      var params := EncodeParams(c.technics, c.economics);
      ValidateUnsigned(rt, st, c) ==
        if rt.verify(c.promiseeProof, params, c.promisee) && rt.verify(c.promisorProof, params, c.promisor)
        then Valid(Encode(SignedLiability(c.technics, c.economics, c.promisee, c.promisor))) else BadProof
    ensures c.Finalize? && (c.index !in st.liabilityOf || Decode(st.liabilityOf[c.index]).Fail?) ==>
      ValidateUnsigned(rt, st, c) == BadCall
    ensures c.Finalize? && c.index in st.liabilityOf && Decode(st.liabilityOf[c.index]).Ok? ==>
      var promisor := Decode(st.liabilityOf[c.index]).value.promisor;
      ValidateUnsigned(rt, st, c) ==
        if rt.verify(c.proof, EncodeReport(c.index, c.report), promisor)
        then Valid(EncodeReport(c.index, c.report)) else BadProof
  {
    hide Decode, EncodeParams, EncodeReport;
    EmptyIsNoLiability();
  }

  /** The pool's tag names one create call's agreement, or one finalize call's report. */
  lemma TagsIdentifyCalls(rt: Runtime, st: Storage, st': Storage, c: Call, d: Call)
    requires ValidateUnsigned(rt, st, c).Valid? && ValidateUnsigned(rt, st', d).Valid?
    requires ValidateUnsigned(rt, st, c).tag == ValidateUnsigned(rt, st', d).tag
    ensures c.Create? && d.Create? ==> Agreement(c) == Agreement(d)
    ensures c.Finalize? && d.Finalize? ==> c.index == d.index && c.report == d.report
  {
    if c.Create? && d.Create? {
      EncodeInjective(Agreement(c), Agreement(d));
    } else if c.Finalize? && d.Finalize? {
      EncodeReportInjective(c.index, c.report, d.index, d.report);
    }
  }

  // ---- Proof builders ----

  /** A key pair of the core crypto interface: `sign` makes proofs for `account`. */
  datatype KeyPair = KeyPair(account: AccountId, sign: seq<byte> -> Proof)

  ghost predicate Genuine(rt: Runtime, pair: KeyPair) {
    forall message :: rt.verify(pair.sign(message), message, pair.account)
  }

  function ProofParams(technics: Blob, economics: u128, pair: KeyPair): Proof {
    pair.sign(EncodeParams(technics, economics))
  }

  function ProofReport(index: u64, report: Blob, pair: KeyPair): Proof {
    pair.sign(EncodeReport(index, report))
  }

  function SignedCreate(technics: Blob, economics: u128, promisee: KeyPair, promisor: KeyPair): (c: Call)
  {
    Create(technics, economics, promisee.account, promisor.account,
           ProofParams(technics, economics, promisee), ProofParams(technics, economics, promisor))
  }
}
