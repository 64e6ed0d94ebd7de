/** The datalog pallet: a time-tagged log per account, and a journal of events. */
module Datalog {
  import opened LittleEndian
  import opened Scale
  import opened FrameSystem

  datatype Entry = Entry(moment: u64, record: Blob)

  datatype Event =
    | NewRecord(who: AccountId, moment: u64, record: Blob)
    | Erased(who: AccountId)

  datatype Call = Record(record: Blob) | Erase

  /** A call with its origin and the chain's clock when it is dispatched. */
  datatype Tx = Tx(origin: Origin, now: u64, call: Call)

  datatype State = State(datalog: map<AccountId, seq<Entry>>, events: seq<Event>) {
    function Log(who: AccountId): seq<Entry> { if who in datalog then datalog[who] else [] }
  }

  const EMPTY := State(map[], [])

  /** Only signed calls do anything. */
  function Step(s: State, tx: Tx): State {
    match tx.origin
    case Signed(who) =>
      (match tx.call
       case Record(record) =>
         State(s.datalog[who := s.Log(who) + [Entry(tx.now, record)]], s.events + [NewRecord(who, tx.now, record)])
       case Erase => State(s.datalog - {who}, s.events + [Erased(who)]))
    case _ => s
  }

  class Module {
    var datalog: map<AccountId, seq<Entry>>
    var events: seq<Event>

    function Abs(): State
      reads this
    {
      State(datalog, events)
    }

    constructor ()
      ensures Abs() == EMPTY
    {
      datalog, events := map[], [];
    }

    method Record(origin: Origin, now: u64, record: Blob) returns (ok: bool)
      modifies this
      ensures ok == origin.Signed? && Abs() == Step(old(Abs()), Tx(origin, now, Call.Record(record)))
      ensures !ok ==> datalog == old(datalog) && events == old(events)
      ensures ok ==>
        && Abs().Log(origin.who) == old(Abs().Log(origin.who)) + [Entry(now, record)]
        && (forall who: AccountId :: who != origin.who ==> Abs().Log(who) == old(Abs().Log(who)))
        && events == old(events) + [NewRecord(origin.who, now, record)]
    {
      if !origin.Signed? { return false; }
      var sender := origin.who;
      var log := if sender in datalog then datalog[sender] else [];
      datalog := datalog[sender := log + [Entry(now, record)]];
      events := events + [NewRecord(sender, now, record)];
      return true;
    }

    method Erase(origin: Origin, now: u64) returns (ok: bool)
      modifies this
      ensures ok == origin.Signed? && Abs() == Step(old(Abs()), Tx(origin, now, Call.Erase))
      ensures !ok ==> datalog == old(datalog) && events == old(events)
      ensures ok ==>
        && Abs().Log(origin.who) == []
        && (forall who: AccountId :: who != origin.who ==> Abs().Log(who) == old(Abs().Log(who)))
        && events == old(events) + [Erased(origin.who)]
    {
      if !origin.Signed? { return false; }
      datalog := datalog - {origin.who};
      events := events + [Erased(origin.who)];
      return true;
    }
  }

  function Run(txs: seq<Tx>): State {
    if txs == [] then EMPTY else Step(Run(txs[..|txs| - 1]), txs[|txs| - 1])
  }

  /** The records an account has announced since it last announced an erasure. */
  function SinceErased(events: seq<Event>, who: AccountId): (log: seq<Entry>)
  {
    if events == [] then [] else
    var init := SinceErased(events[..|events| - 1], who);
    match events[|events| - 1]
    case NewRecord(w, moment, record) => if w == who then init + [Entry(moment, record)] else init
    case Erased(w) => if w == who then [] else init
  }

  /** One transaction: a signed record lengthens its sender's log by itself at the current
      time, a signed erasure empties it; both are announced; nobody else's log changes. */
  lemma StepExact(s: State, tx: Tx, who: AccountId)
    ensures var s' := Step(s, tx);
      && (tx.origin == Signed(who) && tx.call.Record? ==>
            s'.Log(who) == s.Log(who) + [Entry(tx.now, tx.call.record)] &&
            s'.events == s.events + [NewRecord(who, tx.now, tx.call.record)])
      && (tx.origin == Signed(who) && tx.call.Erase? ==> s'.Log(who) == [] && s'.events == s.events + [Erased(who)])
      && (tx.origin != Signed(who) ==> s'.Log(who) == s.Log(who))
      && (!tx.origin.Signed? ==> s' == s)
  {
  }

  /** In every run each account's log is what the journal says it is. */
  lemma {:induction false} LogMatchesJournal(txs: seq<Tx>, who: AccountId)
    ensures Run(txs).Log(who) == SinceErased(Run(txs).events, who)
  {
    if txs != [] {
      LogMatchesJournal(txs[..|txs| - 1], who);
      var s, s' := Run(txs[..|txs| - 1]), Run(txs);
      if s'.events != s.events { assert s'.events[..|s'.events| - 1] == s.events; }
    }
  }

  ghost predicate ClockForward(txs: seq<Tx>) {
    forall i, j :: 0 <= i < j < |txs| ==> txs[i].now <= txs[j].now
  }

  ghost predicate Sorted(log: seq<Entry>) {
    forall i, j :: 0 <= i < j < |log| ==> log[i].moment <= log[j].moment
  }

  /** If the clock never goes back, every log is in time order. */
  lemma {:induction false} LogsSorted(txs: seq<Tx>, who: AccountId)
    requires ClockForward(txs)
    ensures Sorted(Run(txs).Log(who))
    ensures txs != [] ==> forall i :: 0 <= i < |Run(txs).Log(who)| ==> Run(txs).Log(who)[i].moment <= txs[|txs| - 1].now
  {
    if txs != [] { LogsSorted(txs[..|txs| - 1], who); }
  }
}
