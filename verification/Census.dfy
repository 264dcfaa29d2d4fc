/**
 The population census: a resumable protocol over two files, and the report that
 reads them (`ledger_mode` and `already_read`,
 crates/soroban-failure-rpc/examples/survey_failures.rs:293-305 and 362-470; the
 log fold and dedup, crates/soroban-failure-rpc/examples/pilot_report.rs:208-247).
 A line of a file is written whole or not at all.
 */
module Census {
  import opened Common
  import opened Soroban
  import opened Clusters
  import opened Paging

  datatype LogLine = Read(ledger: U32, transactions: nat) | Unreadable(ledger: U32)

  /** The JSONL file of records and the ledger log. */
  datatype Disk = Disk(records: seq<PilotRecord>, log: seq<LogLine>)

  /** The ledger being recorded, and its transactions not looked at yet. */
  datatype Work = Work(ledger: U32, left: seq<Transaction>)

  /** A run of the census; records wait in `buffer` until the writer passes them on. */
  datatype Process = Down | Up(done: set<U32>, buffer: seq<PilotRecord>, work: Option<Work>)

  datatype State = State(disk: Disk, process: Process)

  /** The ledgers a log says were read completely. */
  function ReadIn(log: seq<LogLine>): (r: set<U32>)
    ensures forall l :: l in r <==> exists line :: line in log && line.Read? && line.ledger == l
  {
    set line | line in log && line.Read? :: line.ledger
  }

  /** What a decoded transaction adds to its record. */
  datatype Details = Details(
    operations: nat, events: nat, submitter: string, root: Option<string>, footprintCode: seq<Hash>)

  /**
   What a census is about: the ledger history, what its transactions decode to,
   and the answers that are ever given about a contract's instance.
   */
  datatype World = World(
    history: seq<Transaction>, describe: Transaction -> Details, answered: (string, InstanceLookup) -> bool)

  // ------------------------------------------------------------ what a run can do

  /** A census starts afresh unless some ledger has been read. */
  ghost predicate Starts(s: State, t: State) {
    && s.process.Down?
    && t.process == Up(ReadIn(s.disk.log), [], None)
    && t.disk == if ReadIn(s.disk.log) == {} then s.disk.(records := []) else s.disk
  }

  /** A ledger was read whole, and is now gone through. */
  ghost predicate Opens(world: World, s: State, t: State, ledger: U32) {
    && s.process.Up? && s.process.work.None? && ledger !in s.process.done
    && t == s.(process := s.process.(work := Some(Work(ledger, OfLedger(world.history, ledger)))))
  }

  /**
   The record is of this transaction: its counts, submitter and root contract,
   and the code key, or the reason there is none, that an answer to asking for
   the root's instance decides.
   */
  ghost predicate RecordOf(world: World, r: PilotRecord, tx: Transaction, ledger: U32) {
    && tx.failed.Some? && r.transactionHash == tx.hash && r.ledger == ledger
    && var d := world.describe(tx);
       && r.operationCount == d.operations && r.diagnosticEventCount == d.events
       && r.submitterCluster == d.submitter && r.rootContract == d.root
       && match d.root
          case None => r.codeCluster == None && r.codeUnresolvedReason == None
          case Some(root) => exists answer :: world.answered(root, answer) && Decides(answer, d.footprintCode, r)
  }

  /** The next transaction is recorded if it is a failed Soroban one, and passed over if not. */
  ghost predicate LooksAt(world: World, s: State, t: State) {
    && s.process.Up? && s.process.work.Some? && s.process.work.value.left != []
    && var Work(ledger, left) := s.process.work.value;
       && t.disk == s.disk && t.process.Up? && t.process.done == s.process.done
       && t.process.work == Some(Work(ledger, left[1..]))
       && if left[0].failed.None? then t.process.buffer == s.process.buffer
          else exists r :: RecordOf(world, r, left[0], ledger) && t.process.buffer == s.process.buffer + [r]
  }

  /** The writer passes some of its buffer on to the file, at any time. */
  ghost predicate Spills(s: State, t: State) {
    && s.process.Up?
    && exists k :: 0 <= k <= |s.process.buffer| && Spilled(s, t, k)
  }

  ghost predicate Spilled(s: State, t: State, k: nat)
    requires s.process.Up? && k <= |s.process.buffer|
  {
    t == State(s.disk.(records := s.disk.records + s.process.buffer[..k]),
               s.process.(buffer := s.process.buffer[k..]))
  }

  /** With everything flushed, the ledger is logged as read. */
  ghost predicate Logs(world: World, s: State, t: State) {
    && s.process.Up? && s.process.work.Some? && s.process.work.value.left == [] && s.process.buffer == []
    && var ledger := s.process.work.value.ledger;
       var line := Read(ledger, |OfLedger(world.history, ledger)|);
       t == State(s.disk.(log := s.disk.log + [line]), s.process.(work := None))
  }

  ghost predicate GivesUp(s: State, t: State, ledger: U32) {
    && s.process.Up? && s.process.work.None? && ledger !in s.process.done
    && t == s.(disk := s.disk.(log := s.disk.log + [Unreadable(ledger)]))
  }

  /** The run ends or is killed; what had not reached the file is gone. */
  ghost predicate Stops(s: State, t: State) {
    s.process.Up? && t == s.(process := Down)
  }

  ghost predicate Step(world: World, s: State, t: State) {
    || Starts(s, t) || (exists ledger :: Opens(world, s, t, ledger)) || LooksAt(world, s, t) || Spills(s, t)
    || Logs(world, s, t) || (exists ledger :: GivesUp(s, t, ledger)) || Stops(s, t)
  }

  ghost predicate Trace(world: World, states: seq<State>) {
    states != [] && forall i :: 0 <= i < |states| - 1 ==> Step(world, states[i], states[i + 1])
  }

  // ----------------------------------------------------------------- the invariant

  /** A record is of a failed Soroban transaction of its ledger. */
  ghost predicate Genuine(world: World, r: PilotRecord) {
    exists tx :: tx in OfLedger(world.history, r.ledger) && RecordOf(world, r, tx, r.ledger)
  }

  ghost predicate AllGenuine(world: World, records: seq<PilotRecord>) {
    forall r :: r in records ==> Genuine(world, r)
  }

  ghost predicate Recorded(world: World, records: seq<PilotRecord>, tx: Transaction, ledger: U32) {
    exists r :: r in records && RecordOf(world, r, tx, ledger)
  }

  /** Every failed Soroban transaction of the ledger is recorded, or still to be looked at. */
  ghost predicate Covered(world: World, ledger: U32, records: seq<PilotRecord>, left: seq<Transaction>) {
    && (forall tx :: tx in left ==> tx in OfLedger(world.history, ledger))
    && forall tx :: tx in OfLedger(world.history, ledger) && tx.failed.Some? ==>
         tx in left || Recorded(world, records, tx, ledger)
  }

  /** Every ledger logged as read has all its failed Soroban transactions in the file. */
  ghost predicate LogIsBacked(world: World, disk: Disk) {
    forall line :: line in disk.log && line.Read? ==>
      Covered(world, line.ledger, disk.records, []) && line.transactions == |OfLedger(world.history, line.ledger)|
  }

  /** A file left over from something else counts for nothing until a census has started. */
  ghost predicate Safe(world: World, s: State) {
    && (s.process.Up? || ReadIn(s.disk.log) != {} ==> AllGenuine(world, s.disk.records))
    && LogIsBacked(world, s.disk)
    && (s.process.Up? ==>
          && AllGenuine(world, s.process.buffer)
          && (s.process.work.Some? ==>
                var Work(ledger, left) := s.process.work.value;
                Covered(world, ledger, s.disk.records + s.process.buffer, left)))
  }

  lemma MoreRecords(world: World, ledger: U32, records: seq<PilotRecord>, more: seq<PilotRecord>,
                    left: seq<Transaction>)
    requires Covered(world, ledger, records, left) && forall r :: r in records ==> r in more
    ensures Covered(world, ledger, more, left)
  {
    hide OfLedger, RecordOf;
    forall tx | tx in OfLedger(world.history, ledger) && tx.failed.Some? && tx !in left
      ensures Recorded(world, more, tx, ledger)
    {
      var r :| r in records && RecordOf(world, r, tx, ledger);
      assert r in more;
    }
  }

  lemma LogStaysBacked(world: World, disk: Disk, more: seq<PilotRecord>)
    requires LogIsBacked(world, disk)
    ensures LogIsBacked(world, disk.(records := disk.records + more))
  {
    hide OfLedger, Covered;
    forall line | line in disk.log && line.Read?
      ensures Covered(world, line.ledger, disk.records + more, [])
    {
      MoreRecords(world, line.ledger, disk.records, disk.records + more, []);
    }
  }

  lemma StartKeeps(world: World, s: State, t: State)
    requires Safe(world, s) && Starts(s, t)
    ensures Safe(world, t)
  {
    hide Covered, Genuine, OfLedger;
    if ReadIn(s.disk.log) == {} {
      forall line | line in s.disk.log
        ensures !line.Read?
      {
        assert line.Read? ==> line.ledger in ReadIn(s.disk.log);
      }
    }
  }

  lemma OpenKeeps(world: World, s: State, t: State, ledger: U32)
    requires Safe(world, s) && Opens(world, s, t, ledger)
    ensures Safe(world, t)
  {
    hide Genuine, OfLedger;
  }

  lemma LookKeeps(world: World, s: State, t: State)
    requires Safe(world, s) && LooksAt(world, s, t)
    ensures Safe(world, t)
  {
    var Work(ledger, left) := s.process.work.value;
    var records, more := s.disk.records + s.process.buffer, t.disk.records + t.process.buffer;
    var tx := left[0];
    assert left == [tx] + left[1..];
    if tx.failed.None? {
      PassedOver(world, ledger, records, left);
    } else {
      var r :| RecordOf(world, r, tx, ledger) && t.process.buffer == s.process.buffer + [r];
      assert more == records + [r];
      NowRecorded(world, ledger, records, left, r);
    }
    hide Covered, Genuine, OfLedger, LogIsBacked, RecordOf;
  }

  lemma PassedOver(world: World, ledger: U32, records: seq<PilotRecord>, left: seq<Transaction>)
    requires Covered(world, ledger, records, left) && left != [] && left[0].failed.None?
    ensures Covered(world, ledger, records, left[1..])
  {
    hide OfLedger, Recorded;
    assert left == [left[0]] + left[1..];
  }

  lemma NowRecorded(world: World, ledger: U32, records: seq<PilotRecord>, left: seq<Transaction>,
                    r: PilotRecord)
    requires Covered(world, ledger, records, left) && left != [] && RecordOf(world, r, left[0], ledger)
    ensures Covered(world, ledger, records + [r], left[1..]) && Genuine(world, r)
  {
    hide OfLedger;
    var tx := left[0];
    assert left == [tx] + left[1..];
    assert tx in OfLedger(world.history, ledger);
    MoreRecords(world, ledger, records, records + [r], left);
    assert r in records + [r] && Recorded(world, records + [r], tx, ledger);
    hide Recorded, RecordOf;
  }

  lemma SpillKeeps(world: World, s: State, t: State, k: nat)
    requires Safe(world, s) && s.process.Up? && k <= |s.process.buffer| && Spilled(s, t, k)
    ensures Safe(world, t)
  {
    var buffer := s.process.buffer;
    assert buffer == buffer[..k] + buffer[k..];
    assert (s.disk.records + buffer[..k]) + buffer[k..] == s.disk.records + buffer;
    LogStaysBacked(world, s.disk, buffer[..k]);
    hide Covered, Genuine, OfLedger, LogIsBacked;
  }

  lemma LogKeeps(world: World, s: State, t: State)
    requires Safe(world, s) && Logs(world, s, t)
    ensures Safe(world, t)
  {
    assert s.disk.records + s.process.buffer == s.disk.records;
    hide Covered, Genuine, OfLedger;
  }

  lemma GiveUpKeeps(world: World, s: State, t: State, ledger: U32)
    requires Safe(world, s) && GivesUp(s, t, ledger)
    ensures Safe(world, t)
  {
    hide Covered, Genuine, OfLedger;
  }

  lemma StepKeeps(world: World, s: State, t: State)
    requires Safe(world, s) && Step(world, s, t)
    ensures Safe(world, t)
  {
    hide Safe, Starts, Opens, LooksAt, Spilled, Logs, GivesUp;
    if Starts(s, t) {
      StartKeeps(world, s, t);
    } else if ledger :| Opens(world, s, t, ledger) {
      OpenKeeps(world, s, t, ledger);
    } else if LooksAt(world, s, t) {
      LookKeeps(world, s, t);
    } else if Spills(s, t) {
      var k :| 0 <= k <= |s.process.buffer| && Spilled(s, t, k);
      SpillKeeps(world, s, t, k);
    } else if Logs(world, s, t) {
      LogKeeps(world, s, t);
    } else if ledger :| GivesUp(s, t, ledger) {
      GiveUpKeeps(world, s, t, ledger);
    } else {
      StopKeeps(world, s, t);
    }
  }

  lemma StopKeeps(world: World, s: State, t: State)
    requires Safe(world, s) && Stops(s, t)
    ensures Safe(world, t)
  {
    hide Covered, Genuine, OfLedger;
  }

  lemma FreshIsSafe(world: World, s: State)
    requires s.process.Down? && ReadIn(s.disk.log) == {}
    ensures Safe(world, s)
  {
    hide Covered, Genuine, OfLedger;
    forall line | line in s.disk.log
      ensures !line.Read?
    {
      assert line.Read? ==> line.ledger in ReadIn(s.disk.log);
    }
  }

  lemma {:induction false} TraceKeeps(world: World, states: seq<State>)
    requires Trace(world, states) && Safe(world, states[0])
    ensures forall s :: s in states ==> Safe(world, s)
    decreases |states|
  {
    hide Step, Safe;
    if |states| > 1 {
      var n := |states| - 1;
      TraceKeeps(world, states[..n]);
      assert states[n - 1] in states[..n];
      StepKeeps(world, states[n - 1], states[n]);
      assert states == states[..n] + [states[n]];
    }
  }

  /**
   Whatever starts, unreadable ledgers, crashes and resumes a census goes
   through, and whatever its record file held before, every state is safe.
   */
  lemma EveryRunIsSafe(world: World, states: seq<State>)
    requires Trace(world, states) && states[0].process.Down? && ReadIn(states[0].disk.log) == {}
    ensures forall s :: s in states ==> Safe(world, s)
  {
    FreshIsSafe(world, states[0]);
    TraceKeeps(world, states);
  }

  // -------------------------------------------------------------------- the report

  /** The ledgers that were tried and never read. */
  function StillUnreadable(log: seq<LogLine>): (r: set<U32>)
    ensures forall l :: l in r <==> l !in ReadIn(log) && Unreadable(l) in log
  {
    set line | line in log && line.Unreadable? && line.ledger !in ReadIn(log) :: line.ledger
  }

  function Hashes(records: seq<PilotRecord>): set<string> {
    set r | r in records :: r.transactionHash
  }

  /** The records of the ledgers read, the first of each hash. */
  function Kept(records: seq<PilotRecord>, read: set<U32>): (r: seq<PilotRecord>)
    ensures forall x :: x in r ==> x in records && x.ledger in read
    ensures forall x :: x in records && x.ledger in read ==> x.transactionHash in Hashes(r)
    ensures forall i, j :: 0 <= i < j < |r| ==> r[i].transactionHash != r[j].transactionHash
  {
    if records == [] then []
    else
      var n := |records| - 1;
      var x := records[n];
      assert records == records[..n] + [x];
      var earlier := Kept(records[..n], read);
      assert forall i :: 0 <= i < |earlier| ==> earlier[i] in earlier;
      if x.ledger in read && x.transactionHash !in Hashes(earlier) then earlier + [x] else earlier
  }

  lemma KeptOne(records: seq<PilotRecord>, r: PilotRecord, read: set<U32>)
    ensures Kept(records + [r], read)
            == if r.ledger in read && r.transactionHash !in Hashes(Kept(records, read)) then Kept(records, read) + [r]
               else Kept(records, read)
  {
    assert (records + [r])[..|records + [r]| - 1] == records;
  }

  lemma HashesOne(records: seq<PilotRecord>, r: PilotRecord)
    ensures Hashes(records + [r]) == Hashes(records) + {r.transactionHash}
  {
  }

  lemma LogSnoc(log: seq<LogLine>, line: LogLine)
    ensures ReadIn(log + [line]) == ReadIn(log) + if line.Read? then {line.ledger} else {}
    ensures StillUnreadable(log + [line])
            == if line.Read? then StillUnreadable(log) - {line.ledger}
               else if line.ledger in ReadIn(log) then StillUnreadable(log)
               else StillUnreadable(log) + {line.ledger}
  {
  }

  /** The ledgers a resumed census skips: `already_read`. */
  method AlreadyRead(log: seq<LogLine>) returns (done: set<U32>)
    ensures done == ReadIn(log)
  {
    done := {};
    for i := 0 to |log|
      invariant done == ReadIn(log[..i])
    {
      assert log[..i + 1] == log[..i] + [log[i]];
      LogSnoc(log[..i], log[i]);
      if log[i].Read? {
        done := done + {log[i].ledger};
      }
    }
    assert log[..|log|] == log;
  }

  /** Line `i` is the last that says the ledger was read. */
  ghost predicate LastReadAt(log: seq<LogLine>, ledger: U32, transactions: nat, i: nat) {
    && i < |log| && log[i] == Read(ledger, transactions)
    && forall j :: i < j < |log| ==> !(log[j].Read? && log[j].ledger == ledger)
  }

  ghost predicate LastRead(log: seq<LogLine>, ledger: U32, transactions: nat) {
    exists i: nat :: LastReadAt(log, ledger, transactions, i)
  }

  lemma LastReadSnoc(log: seq<LogLine>, line: LogLine, ledger: U32, transactions: nat)
    ensures line == Read(ledger, transactions) ==> LastRead(log + [line], ledger, transactions)
    ensures LastRead(log, ledger, transactions) && !(line.Read? && line.ledger == ledger) ==>
              LastRead(log + [line], ledger, transactions)
  {
    if line == Read(ledger, transactions) {
      assert LastReadAt(log + [line], ledger, transactions, |log|);
    } else if LastRead(log, ledger, transactions) && !(line.Read? && line.ledger == ledger) {
      var i: nat :| LastReadAt(log, ledger, transactions, i);
      assert LastReadAt(log + [line], ledger, transactions, i);
    }
  }

  /** The count kept for a ledger is that of the last line that says it was read. */
  method FoldLog(log: seq<LogLine>) returns (ledgers: map<U32, nat>, unreadable: set<U32>)
    ensures ledgers.Keys == ReadIn(log) && unreadable == StillUnreadable(log)
    ensures forall l :: l in ledgers ==> LastRead(log, l, ledgers[l])
  {
    hide ReadIn, StillUnreadable, LastRead;
    ledgers, unreadable := map[], {};
    assert ReadIn([]) == {} && StillUnreadable([]) == {} by { EmptyLog(); }
    for i := 0 to |log|
      invariant ledgers.Keys == ReadIn(log[..i]) && unreadable == StillUnreadable(log[..i])
      invariant forall l :: l in ledgers ==> LastRead(log[..i], l, ledgers[l])
    {
      assert log[..i + 1] == log[..i] + [log[i]];
      LogSnoc(log[..i], log[i]);
      ghost var before := ledgers;
      if log[i].Read? {
        ledgers := ledgers[log[i].ledger := log[i].transactions];
        unreadable := unreadable - {log[i].ledger};
      } else if log[i].ledger !in ledgers {
        unreadable := unreadable + {log[i].ledger};
      }
      forall l | l in ledgers
        ensures LastRead(log[..i + 1], l, ledgers[l])
      {
        LastReadSnoc(log[..i], log[i], l, ledgers[l]);
      }
    }
    assert log[..|log|] == log;
  }

  lemma EmptyLog()
    ensures ReadIn([]) == {} && StillUnreadable([]) == {}
  {
  }

  /** What the report works on. */
  method ReadCensus(disk: Disk)
    returns (ledgers: map<U32, nat>, unreadable: set<U32>, records: seq<PilotRecord>)
    ensures ledgers.Keys == ReadIn(disk.log) && unreadable == StillUnreadable(disk.log)
    ensures forall l :: l in ledgers ==> LastRead(disk.log, l, ledgers[l])
    ensures records == Kept(disk.records, ReadIn(disk.log))
  {
    ledgers, unreadable := FoldLog(disk.log);
    hide ReadIn, StillUnreadable;
    var hashes: set<string> := {};
    records := [];
    assert Kept([], ledgers.Keys) == [] && Hashes([]) == {};
    hide Kept, Hashes;
    for i := 0 to |disk.records|
      invariant records == Kept(disk.records[..i], ledgers.Keys)
      invariant hashes == Hashes(records)
    {
      var r := disk.records[i];
      assert disk.records[..i + 1] == disk.records[..i] + [r];
      KeptOne(disk.records[..i], r, ledgers.Keys);
      HashesOne(records, r);
      if r.ledger in ledgers && r.transactionHash !in hashes {
        hashes := hashes + {r.transactionHash};
        records := records + [r];
      }
    }
    assert disk.records[..|disk.records|] == disk.records;
  }

  /** The hash belongs to a failed Soroban transaction of a ledger that was read. */
  ghost predicate FailedInRead(world: World, read: set<U32>, hash: string) {
    exists l, tx :: l in read && tx in OfLedger(world.history, l) && tx.failed.Some? && tx.hash == hash
  }

  /**
   In every state a census can be in, the report counts exactly the failed
   Soroban transactions of the ledgers read, each once and with the record that
   belongs to it, and no ledger both ways.
   */
  lemma ReportIsExact(world: World, s: State)
    requires Safe(world, s)
    ensures var (read, kept) := (ReadIn(s.disk.log), Kept(s.disk.records, ReadIn(s.disk.log)));
            && read !! StillUnreadable(s.disk.log)
            && (forall h :: h in Hashes(kept) <==> FailedInRead(world, read, h))
            && |kept| == |Hashes(kept)|
            && (forall r :: r in kept ==> Genuine(world, r))
            && forall l, n :: Read(l, n) in s.disk.log ==> n == |OfLedger(world.history, l)|
  {
    var read := ReadIn(s.disk.log);
    var kept := Kept(s.disk.records, read);
    hide ReadIn, StillUnreadable, Kept, OfLedger, RecordOf, Genuine;
    forall h | h in Hashes(kept)
      ensures FailedInRead(world, read, h)
    {
      var r :| r in kept && r.transactionHash == h;
      KeptIsGenuine(world, s, r);
    }
    forall h | FailedInRead(world, read, h)
      ensures h in Hashes(kept)
    {
      var l, tx :| l in read && tx in OfLedger(world.history, l) && tx.failed.Some? && tx.hash == h;
      var line :| line in s.disk.log && line.Read? && line.ledger == l;
      assert Recorded(world, s.disk.records, tx, l);
      var r :| r in s.disk.records && RecordOf(world, r, tx, l);
      NamesItsTransaction(world, r, tx, l);
    }
    forall r | r in kept
      ensures Genuine(world, r)
    {
      KeptIsGenuine(world, s, r);
    }
    OneEach(kept);
  }

  lemma NamesItsTransaction(world: World, r: PilotRecord, tx: Transaction, ledger: U32)
    requires RecordOf(world, r, tx, ledger)
    ensures r.transactionHash == tx.hash && r.ledger == ledger
  {
  }

  lemma KeptIsGenuine(world: World, s: State, r: PilotRecord)
    requires Safe(world, s) && r in Kept(s.disk.records, ReadIn(s.disk.log))
    ensures FailedInRead(world, ReadIn(s.disk.log), r.transactionHash) && Genuine(world, r)
  {
    hide Kept, OfLedger, LogIsBacked;
    assert Genuine(world, r);
  }

  lemma {:induction false} OneEach(records: seq<PilotRecord>)
    requires forall i, j :: 0 <= i < j < |records| ==> records[i].transactionHash != records[j].transactionHash
    ensures |Hashes(records)| == |records|
  {
    if records != [] {
      var n := |records| - 1;
      OneEach(records[..n]);
      assert records == records[..n] + [records[n]];
      assert Hashes(records) == Hashes(records[..n]) + {records[n].transactionHash};
    }
  }

  // ---------------------------------------------------------------------- the code

  /** Looks up contract instances, asking again only for those that could not be looked up. */
  class InstanceCache {
    const ask: (nat, string) -> InstanceLookup
    var asked: nat
    var cache: map<string, InstanceLookup>

    constructor (ask: (nat, string) -> InstanceLookup)
      ensures this.ask == ask && Valid() && cache == map[]
    {
      this.ask := ask;
      asked, cache := 0, map[];
    }

    /** What the contract's instance was, or could be, said to be. */
    ghost predicate Answer(contract: string, answer: InstanceLookup) {
      exists n: nat :: ask(n, contract) == answer
    }

    ghost predicate Valid()
      reads this
    {
      forall c :: c in cache ==> cache[c] != Failed && Answer(c, cache[c])
    }

    method Lookup(contract: string) returns (r: InstanceLookup)
      requires Valid()
      modifies this
      ensures Valid() && Answer(contract, r)
      ensures contract in old(cache) ==> r == old(cache[contract]) && asked == old(asked) && cache == old(cache)
      ensures contract !in old(cache) ==> r == ask(old(asked), contract) && asked == old(asked) + 1
      ensures contract !in old(cache) ==> cache == if r == Failed then old(cache) else old(cache)[contract := r]
    {
      if contract in cache {
        return cache[contract];
      }
      r := ask(asked, contract);
      asked := asked + 1;
      match r {
        case Failed =>
        case NotFound => cache := cache[contract := r];
        case Found(_) => cache := cache[contract := r];
      }
    }
  }

  /** The transactions are decoded, and the instances answered, as in this world. */
  ghost predicate Fits(
    world: World, describe: Transaction -> Details, ask: (nat, string) -> InstanceLookup)
  {
    world.describe == describe && forall n: nat, c: string :: world.answered(c, ask(n, c))
  }

  class Files {
    var records: seq<PilotRecord>
    var log: seq<LogLine>

    ghost function Value(): Disk
      reads this
    {
      Disk(records, log)
    }
  }

  /** The trace so far ends in this state. */
  ghost predicate Reached(world: World, trace: seq<State>, s: State) {
    Trace(world, trace) && trace[|trace| - 1] == s
  }

  lemma OneStep(world: World, trace: seq<State>, s: State, t: State)
    requires Reached(world, trace, s) && Step(world, s, t)
    ensures Reached(world, trace + [t], t) && trace <= trace + [t]
  {
    hide Step;
  }

  /** A record made from the answer for the root is one that this answer decides. */
  lemma AnswerDecides(world: World, instances: InstanceCache, d: Details, answer: InstanceLookup, r: PilotRecord)
    requires Fits(world, world.describe, instances.ask) && d.root.Some? && instances.Answer(d.root.value, answer)
    requires exists hash, ledger ::
               r == NewRecord(hash, ledger, d.operations, d.events, d.submitter, d.root, Some(answer), d.footprintCode)
    ensures world.answered(d.root.value, answer) && Decides(answer, d.footprintCode, r)
  {
    hide Hex;
  }

  /** Writes a ledger's records into the buffer; the writer may pass some on at any moment. */
  method RecordLedger(
    files: Files, instances: InstanceCache, describe: Transaction -> Details, ghost world: World,
    ledger: U32, transactions: seq<Transaction>, ghost done: set<U32>, ghost before: seq<State>)
    returns (buffer: seq<PilotRecord>, ghost trace: seq<State>)
    requires instances.Valid() && Fits(world, describe, instances.ask)
    requires Reached(world, before, State(files.Value(), Up(done, [], Some(Work(ledger, transactions)))))
    modifies files`records, instances
    ensures instances.Valid()
    ensures before <= trace && Reached(world, trace, State(files.Value(), Up(done, buffer, Some(Work(ledger, [])))))
  {
    hide Reached, Hex, CodeCluster;
    buffer, trace := [], before;
    for i := 0 to |transactions|
      invariant instances.Valid() && before <= trace
      invariant files.log == old(files.log)
      invariant Reached(world, trace, State(files.Value(), Up(done, buffer, Some(Work(ledger, transactions[i..])))))
    {
      var tx := transactions[i];
      ghost var s := State(files.Value(), Up(done, buffer, Some(Work(ledger, transactions[i..]))));
      assert transactions[i..][1..] == transactions[i + 1..];
      if tx.failed.Some? {
        var d := describe(tx);
        var lookup: Option<InstanceLookup> := None;
        if d.root.Some? {
          var found := instances.Lookup(d.root.value);
          lookup := Some(found);
        }
        var record := NewRecord(tx.hash, ledger, d.operations, d.events, d.submitter, d.root, lookup, d.footprintCode);
        assert RecordOf(world, record, tx, ledger) by {
          if d.root.Some? {
            AnswerDecides(world, instances, d, lookup.value, record);
          }
        }
        buffer := buffer + [record];
      }
      ghost var t := State(files.Value(), Up(done, buffer, Some(Work(ledger, transactions[i + 1..]))));
      assert LooksAt(world, s, t);
      OneStep(world, trace, s, t);
      trace := trace + [t];
      var k :| 0 <= k <= |buffer|;
      files.records := files.records + buffer[..k];
      buffer := buffer[k..];
      ghost var u := State(files.Value(), Up(done, buffer, Some(Work(ledger, transactions[i + 1..]))));
      assert Spilled(t, u, k);
      OneStep(world, trace, t, u);
      trace := trace + [u];
    }
    assert transactions[|transactions|..] == [];
  }

  /** The ledger has been read, now or before, or is logged as unreadable; but not so if every call is answered. */
  ghost predicate Attempted(log: seq<LogLine>, ledger: U32, answers: bool) {
    ledger in ReadIn(log) || (!answers && Unreadable(ledger) in log)
  }

  lemma StillAttempted(log: seq<LogLine>, more: seq<LogLine>, ledger: U32, answers: bool)
    requires Attempted(log, ledger, answers)
    ensures Attempted(log + more, ledger, answers)
  {
    if ledger in ReadIn(log) {
      var line :| line in log && line.Read? && line.ledger == ledger;
      assert line in log + more;
    }
  }

  /**
   One run of the census over the chosen ledgers: every step it takes is one the
   protocol allows, and every chosen ledger ends up read or logged as unreadable,
   read if every call is answered.
   */
  method LedgerMode(
    files: Files, server: Server, instances: InstanceCache, describe: Transaction -> Details, unique: seq<U32>,
    ghost world: World)
    returns (ghost trace: seq<State>)
    requires instances.Valid() && Faithful(server.history, server.respond)
    requires world.history == server.history && Fits(world, describe, instances.ask)
    modifies files, server, instances
    ensures instances.Valid()
    ensures Reached(world, trace, State(files.Value(), Down))
    ensures trace[0] == State(old(files.Value()), Down)
    ensures old(files.log) <= files.log
    ensures forall l :: l in unique ==> l in ReadIn(files.log) || Unreadable(l) in files.log
    ensures AlwaysAnswers(server.respond) ==> forall l :: l in unique ==> l in ReadIn(files.log)
  {
    var done := AlreadyRead(files.log);
    ghost var answers := AlwaysAnswers(server.respond);
    hide AlwaysAnswers, Faithful, Fits, Reached, Attempted;
    ghost var start := State(files.Value(), Down);
    ghost var begun := [start];
    assert Reached(world, begun, start) by { JustBegun(world, start); }
    if done == {} {
      files.records := [];
    }
    ghost var s := State(files.Value(), Up(done, [], None));
    assert Starts(start, s);
    OneStep(world, begun, start, s);
    trace := begun + [s];
    for i := 0 to |unique|
      invariant instances.Valid() && old(files.log) <= files.log && begun <= trace
      invariant Reached(world, trace, State(files.Value(), Up(done, [], None)))
      invariant done <= ReadIn(files.log)
      invariant forall k :: 0 <= k < i ==> Attempted(files.log, unique[k], answers)
    {
      ghost var logBefore := files.log;
      if unique[i] !in done {
        trace := OneLedger(files, server, instances, describe, unique[i], world, done, trace);
      }
      assert Attempted(files.log, unique[i], answers) && done <= ReadIn(files.log) by {
        InDone(logBefore, files.log, done, unique[i], answers);
      }
      forall k | 0 <= k < i
        ensures Attempted(files.log, unique[k], answers)
      {
        StillAttempted(logBefore, files.log[|logBefore|..], unique[k], answers);
        assert files.log == logBefore + files.log[|logBefore|..];
      }
    }
    ghost var t := State(files.Value(), Up(done, [], None));
    assert Stops(t, State(files.Value(), Down));
    OneStep(world, trace, t, State(files.Value(), Down));
    trace := trace + [State(files.Value(), Down)];
    forall l | l in unique
      ensures l in ReadIn(files.log) || (!answers && Unreadable(l) in files.log)
    {
      var k :| 0 <= k < |unique| && unique[k] == l;
      Outcome(files.log, unique[k], answers);
    }
  }

  lemma Outcome(log: seq<LogLine>, ledger: U32, answers: bool)
    requires Attempted(log, ledger, answers)
    ensures ledger in ReadIn(log) || (!answers && Unreadable(ledger) in log)
  {
  }

  lemma JustBegun(world: World, s: State)
    ensures Reached(world, [s], s)
  {
  }

  lemma InDone(before: seq<LogLine>, log: seq<LogLine>, done: set<U32>, ledger: U32, answers: bool)
    requires before <= log && done <= ReadIn(before) && (ledger in done || Attempted(log, ledger, answers))
    ensures Attempted(log, ledger, answers) && done <= ReadIn(log)
  {
    forall l | l in ReadIn(before)
      ensures l in ReadIn(log)
    {
      var line :| line in before && line.Read? && line.ledger == l;
      assert line in log;
    }
  }

  /** One ledger: read whole, recorded, flushed and only then logged; or logged as unreadable. */
  method OneLedger(
    files: Files, server: Server, instances: InstanceCache, describe: Transaction -> Details, ledger: U32,
    ghost world: World, ghost done: set<U32>, ghost before: seq<State>)
    returns (ghost trace: seq<State>)
    requires instances.Valid() && Faithful(server.history, server.respond) && ledger !in done
    requires world.history == server.history && Fits(world, describe, instances.ask)
    requires Reached(world, before, State(files.Value(), Up(done, [], None)))
    modifies files, server, instances
    ensures instances.Valid() && old(files.log) <= files.log && before <= trace
    ensures Reached(world, trace, State(files.Value(), Up(done, [], None)))
    ensures Attempted(files.log, ledger, AlwaysAnswers(server.respond))
  {
    hide AlwaysAnswers, Faithful, Fits, Reached, OfLedger;
    ghost var s := State(files.Value(), Up(done, [], None));
    var read := WholeLedger(server, ledger);
    if read.None? {
      files.log := files.log + [Unreadable(ledger)];
      ghost var t := State(files.Value(), Up(done, [], None));
      assert GivesUp(s, t, ledger);
      OneStep(world, before, s, t);
      return before + [t];
    }
    var transactions := read.value.transactions;
    ghost var working := State(files.Value(), Up(done, [], Some(Work(ledger, transactions))));
    assert Opens(world, s, working, ledger);
    OneStep(world, before, s, working);
    var buffer;
    buffer, trace := RecordLedger(files, instances, describe, world, ledger, transactions, done, before + [working]);
    trace := Flushed(files.Value(), world, ledger, buffer, done, trace);
    files.records := files.records + buffer;
    ghost var flushed := State(files.Value(), Up(done, [], Some(Work(ledger, []))));
    files.log := files.log + [Read(ledger, |transactions|)];
    ghost var logged := State(files.Value(), Up(done, [], None));
    assert Logs(world, flushed, logged);
    OneStep(world, trace, flushed, logged);
    trace := trace + [logged];
    assert Read(ledger, |transactions|) in files.log;
  }

  /** Flushing passes on all that is left in the buffer. */
  lemma Flushed(disk: Disk, world: World, ledger: U32, buffer: seq<PilotRecord>, done: set<U32>,
                before: seq<State>)
    returns (trace: seq<State>)
    requires Reached(world, before, State(disk, Up(done, buffer, Some(Work(ledger, [])))))
    ensures before <= trace
    ensures Reached(world, trace,
                    State(disk.(records := disk.records + buffer), Up(done, [], Some(Work(ledger, [])))))
  {
    hide Reached;
    var s := State(disk, Up(done, buffer, Some(Work(ledger, []))));
    var t := State(disk.(records := disk.records + buffer), Up(done, [], Some(Work(ledger, []))));
    assert buffer[..|buffer|] == buffer && buffer[|buffer|..] == [];
    assert Spilled(s, t, |buffer|);
    OneStep(world, before, s, t);
    trace := before + [t];
  }

  /**
   Killing the census between any two of its steps, and resuming, loses nothing:
   each state on the way, and so the report on what it leaves behind, is safe.
   */
  lemma KilledAnywhereIsSafe(world: World, trace: seq<State>, k: nat)
    requires Trace(world, trace) && Safe(world, trace[0]) && k < |trace|
    ensures Safe(world, trace[k].(process := Down))
  {
    TraceKeeps(world, trace);
    assert Safe(world, trace[k]);
    if trace[k].process.Up? {
      StopKeeps(world, trace[k], trace[k].(process := Down));
    }
  }
}
