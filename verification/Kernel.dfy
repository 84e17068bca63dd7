// The in-memory transactional kernel: a transaction works on a copy of the committed tables and commits only if no
// other transaction committed since it began.
module Kernel {
  import opened Bytes
  import opened Wrappers

  type Table = map<seq<Byte>, seq<Byte>>
  type Tables = map<string, Table>

  datatype KernelError = TableNotFound | Conflict

  // ---------------------------------------------------------------------------------------------
  // What the operations of a transaction do to its tables, and what they answer
  // ---------------------------------------------------------------------------------------------

  datatype Operation =
    | EnsureTable(table: string)
    | DropTable(table: string)
    | GetBytes(table: string, key: seq<Byte>)
    | ScanBytes(table: string)
    | PutBytes(table: string, key: seq<Byte>, value: seq<Byte>)
    | RemoveBytes(table: string, key: seq<Byte>)

  datatype Answer = Missing | Done | Found(value: Option<seq<Byte>>) | Scanned(entries: Table)

  datatype Outcome = Outcome(tables: Tables, answer: Answer)

  function Find(t: Table, key: seq<Byte>): Option<seq<Byte>> {
    if key in t then Some(t[key]) else None
  }

  function Perform(tables: Tables, op: Operation): Outcome {
    if op.EnsureTable? then Outcome(if op.table in tables then tables else tables[op.table := map[]], Done)
    else if op.table !in tables then Outcome(tables, Missing)
    else
      var t := tables[op.table];
      match op
      case DropTable(name) => Outcome(tables - {name}, Done)
      case GetBytes(_, key) => Outcome(tables, Found(Find(t, key)))
      case ScanBytes(_) => Outcome(tables, Scanned(t))
      case PutBytes(name, key, value) => Outcome(tables[name := t[key := value]], Done)
      case RemoveBytes(name, key) => Outcome(tables[name := t - {key}], Found(Find(t, key)))
      case EnsureTable(_) => Outcome(tables, Done)
  }

  // ---------------------------------------------------------------------------------------------
  // What operations mean to one another
  // ---------------------------------------------------------------------------------------------

  function AnswerTo(tables: Tables, op: Operation): Answer {
    Perform(tables, op).answer
  }

  /** Every read of this table is answered alike. */
  ghost predicate SameReads(a: Tables, b: Tables, table: string) {
    && AnswerTo(a, ScanBytes(table)) == AnswerTo(b, ScanBytes(table))
    && forall key :: AnswerTo(a, GetBytes(table, key)) == AnswerTo(b, GetBytes(table, key))
  }

  ghost predicate SameElsewhere(a: Tables, b: Tables, table: string) {
    forall other :: other != table ==> SameReads(a, b, other)
  }

  /** Reading changes nothing. */
  lemma {:induction false} ReadsLeaveAlone(tables: Tables, table: string, key: seq<Byte>)
    ensures Perform(tables, GetBytes(table, key)).tables == tables
    ensures Perform(tables, ScanBytes(table)).tables == tables
  {
  }

  /** A table is missing to all operations or to none. */
  lemma {:induction false} MissingToAll(tables: Tables, table: string, key: seq<Byte>, value: seq<Byte>)
    ensures var missing := AnswerTo(tables, ScanBytes(table)) == Missing;
            && (missing <==> AnswerTo(tables, GetBytes(table, key)) == Missing)
            && (missing <==> AnswerTo(tables, PutBytes(table, key, value)) == Missing)
            && (missing <==> AnswerTo(tables, RemoveBytes(table, key)) == Missing)
            && (missing <==> AnswerTo(tables, DropTable(table)) == Missing)
            && (missing ==>
                  && Perform(tables, PutBytes(table, key, value)).tables == tables
                  && Perform(tables, RemoveBytes(table, key)).tables == tables
                  && Perform(tables, DropTable(table)).tables == tables)
  {
  }

  /** A scan has exactly the pairs that are found by key. */
  lemma {:induction false} ScanIsAllGets(tables: Tables, table: string)
    requires AnswerTo(tables, ScanBytes(table)) != Missing
    ensures AnswerTo(tables, ScanBytes(table)).Scanned?
    ensures forall key :: AnswerTo(tables, GetBytes(table, key)).Found?
    ensures forall key, value ::
              key in AnswerTo(tables, ScanBytes(table)).entries
              && AnswerTo(tables, ScanBytes(table)).entries[key] == value <==>
              AnswerTo(tables, GetBytes(table, key)) == Found(Some(value))
  {
  }

  /** After a put its key has the value put, whatever it had before, and every other key and table reads as it did. */
  lemma {:induction false} PutIsRead(tables: Tables, table: string, key: seq<Byte>, value: seq<Byte>)
    requires AnswerTo(tables, PutBytes(table, key, value)) == Done
    ensures var after := Perform(tables, PutBytes(table, key, value)).tables;
            && AnswerTo(after, GetBytes(table, key)) == Found(Some(value))
            && (forall other :: other != key ==>
                  AnswerTo(after, GetBytes(table, other)) == AnswerTo(tables, GetBytes(table, other)))
            && SameElsewhere(tables, after, table)
  {
  }

  /** A removal answers what a read would have, and leaves nothing under its key. */
  lemma {:induction false} RemovedIsGone(tables: Tables, table: string, key: seq<Byte>)
    ensures AnswerTo(tables, RemoveBytes(table, key)) == AnswerTo(tables, GetBytes(table, key))
    ensures AnswerTo(tables, RemoveBytes(table, key)) != Missing ==>
              var after := Perform(tables, RemoveBytes(table, key)).tables;
              && AnswerTo(after, GetBytes(table, key)) == Found(None)
              && (forall other :: other != key ==>
                    AnswerTo(after, GetBytes(table, other)) == AnswerTo(tables, GetBytes(table, other)))
              && SameElsewhere(tables, after, table)
  {
  }

  /** A dropped table is missing. */
  lemma {:induction false} DroppedIsMissing(tables: Tables, table: string)
    requires AnswerTo(tables, DropTable(table)) == Done
    ensures var after := Perform(tables, DropTable(table)).tables;
            AnswerTo(after, ScanBytes(table)) == Missing && SameElsewhere(tables, after, table)
  {
  }

  /** Ensuring a table makes it, empty, where it is missing, and otherwise changes nothing. */
  lemma {:induction false} EnsuredIsThere(tables: Tables, table: string)
    ensures var after := Perform(tables, EnsureTable(table)).tables;
            && AnswerTo(tables, EnsureTable(table)) == Done
            && (AnswerTo(tables, ScanBytes(table)) == Missing ==> AnswerTo(after, ScanBytes(table)) == Scanned(map[]))
            && (AnswerTo(tables, ScanBytes(table)) != Missing ==> after == tables)
            && SameElsewhere(tables, after, table)
  {
  }

  function AfterAll(ops: seq<Operation>): Tables {
    if ops == [] then map[] else Perform(AfterAll(ops[..|ops| - 1]), ops[|ops| - 1]).tables
  }

  /** The operation writes another value under the key, or takes it or its table away. */
  predicate Overwrites(op: Operation, table: string, key: seq<Byte>) {
    || (op.PutBytes? && op.table == table && op.key == key)
    || (op.RemoveBytes? && op.table == table && op.key == key)
    || op == DropTable(table)
  }

  /** The operation at `i` put this value, and no later one has touched it. */
  ghost predicate PutLast(ops: seq<Operation>, i: nat, table: string, key: seq<Byte>, value: seq<Byte>) {
    && i < |ops| && ops[i] == PutBytes(table, key, value) && AnswerTo(AfterAll(ops[..i]), ops[i]) == Done
    && forall j :: i < j < |ops| ==> !Overwrites(ops[j], table, key)
  }

  lemma {:induction false} PutLastBefore(ops: seq<Operation>, op: Operation, table: string, key: seq<Byte>,
                                         value: seq<Byte>)
    requires !Overwrites(op, table, key)
    ensures (exists i: nat :: PutLast(ops + [op], i, table, key, value)) <==>
            exists i: nat :: PutLast(ops, i, table, key, value)
  {
    var all := ops + [op];
    if i: nat :| PutLast(all, i, table, key, value) {
      assert all[..i] == ops[..i] && forall j :: 0 <= j < |ops| ==> all[j] == ops[j];
      assert PutLast(ops, i, table, key, value);
    }
    if i: nat :| PutLast(ops, i, table, key, value) {
      assert all[..i] == ops[..i] && all[i] == ops[i];
      assert PutLast(all, i, table, key, value);
    }
  }

  lemma {:induction false} OverwriteDecides(ops: seq<Operation>, op: Operation, table: string, key: seq<Byte>,
                                            value: seq<Byte>)
    requires Overwrites(op, table, key)
    ensures AnswerTo(AfterAll(ops + [op]), GetBytes(table, key)) == Found(Some(value)) <==>
            exists i: nat :: PutLast(ops + [op], i, table, key, value)
  {
    var all := ops + [op];
    assert all[..|ops|] == ops && all[|ops|] == op;
    if i: nat :| PutLast(all, i, table, key, value) {
      assert i == |ops|;
    }
    if AnswerTo(AfterAll(all), GetBytes(table, key)) == Found(Some(value)) {
      assert PutLast(all, |ops|, table, key, value);
    }
  }

  /** After any operations from no tables on, a key has the value that was put last: put while its table was there, and
      not overwritten, removed or dropped with its table since. */
  lemma {:induction false} LatestIsRead(ops: seq<Operation>, table: string, key: seq<Byte>, value: seq<Byte>)
    ensures AnswerTo(AfterAll(ops), GetBytes(table, key)) == Found(Some(value)) <==>
            exists i: nat :: PutLast(ops, i, table, key, value)
  {
    if ops != [] {
      var init, last := ops[..|ops| - 1], ops[|ops| - 1];
      assert ops == init + [last];
      if Overwrites(last, table, key) {
        OverwriteDecides(init, last, table, key, value);
      } else {
        LatestIsRead(init, table, key, value);
        PutLastBefore(init, last, table, key, value);
      }
    }
  }

  class InMemoryKernel {
    var revision: nat
    var tables: Tables

    constructor ()
      ensures revision == 0 && tables == map[]
    {
      revision, tables := 0, map[];
    }

    method Begin() returns (transaction: Transaction)
      ensures fresh(transaction) && transaction.kernel == this
      ensures transaction.revision == revision && transaction.tables == tables
    {
      transaction := new Transaction(this);
    }
  }

  class Transaction {
    const kernel: InMemoryKernel
    const revision: nat
    var tables: Tables

    constructor (kernel: InMemoryKernel)
      ensures this.kernel == kernel && revision == kernel.revision && tables == kernel.tables
    {
      this.kernel, revision, tables := kernel, kernel.revision, kernel.tables;
    }

    method Ensure(table: string)
      modifies this
      ensures tables == Perform(old(tables), EnsureTable(table)).tables
    {
      if table !in tables {
        tables := tables[table := map[]];
      }
    }

    method Drop(table: string) returns (answer: Answer)
      modifies this
      ensures Outcome(tables, answer) == Perform(old(tables), DropTable(table))
    {
      if table !in tables {
        return Missing;
      }
      tables := tables - {table};
      return Done;
    }

    method Get(table: string, key: seq<Byte>) returns (answer: Answer)
      ensures Outcome(tables, answer) == Perform(tables, GetBytes(table, key))
    {
      if table !in tables {
        return Missing;
      }
      return Found(Find(tables[table], key));
    }

    method Scan(table: string) returns (answer: Answer)
      ensures Outcome(tables, answer) == Perform(tables, ScanBytes(table))
    {
      return if table in tables then Scanned(tables[table]) else Missing;
    }

    method Put(table: string, key: seq<Byte>, value: seq<Byte>) returns (answer: Answer)
      modifies this
      ensures Outcome(tables, answer) == Perform(old(tables), PutBytes(table, key, value))
    {
      if table !in tables {
        return Missing;
      }
      tables := tables[table := tables[table][key := value]];
      return Done;
    }

    method Remove(table: string, key: seq<Byte>) returns (answer: Answer)
      modifies this
      ensures Outcome(tables, answer) == Perform(old(tables), RemoveBytes(table, key))
    {
      if table !in tables {
        return Missing;
      }
      answer := Found(Find(tables[table], key));
      tables := tables[table := tables[table] - {key}];
    }

    /** Any operation, by its own method: the step `Do` of the machine below. */
    method Execute(op: Operation) returns (answer: Answer)
      modifies this
      ensures Outcome(tables, answer) == Perform(old(tables), op)
    {
      match op {
        case EnsureTable(table) =>
          Ensure(table);
          answer := Done;
        case DropTable(table) => answer := Drop(table);
        case GetBytes(table, key) => answer := Get(table, key);
        case ScanBytes(table) => answer := Scan(table);
        case PutBytes(table, key, value) => answer := Put(table, key, value);
        case RemoveBytes(table, key) => answer := Remove(table, key);
      }
    }

    /** Publishes the tables if the kernel is still at the revision the transaction began at. */
    method Commit() returns (r: Result<(), KernelError>)
      modifies kernel
      ensures r.Ok? <==> old(kernel.revision) == revision
      ensures r.Ok? ==> kernel.tables == tables && kernel.revision == old(kernel.revision) + 1
      ensures r.Err? ==>
                && r.error == Conflict
                && kernel.tables == old(kernel.tables) && kernel.revision == old(kernel.revision)
    {
      if kernel.revision != revision {
        return Err(Conflict);
      }
      kernel.tables := tables;
      kernel.revision := kernel.revision + 1;
      return Ok(());
    }
  }

  // A statement works on the transaction's tables, or fails.
  type Statement = Tables -> Option<Tables>

  function RunStatements(tables: Tables, statements: seq<Statement>): Option<Tables> {
    if statements == [] then Some(tables)
    else
      match RunStatements(tables, statements[..|statements| - 1])
      case None => None
      case Some(before) => statements[|statements| - 1](before)
  }

  datatype BatchError = StatementFailed | NotCommitted(error: KernelError)

  /** A batch of statements in one transaction, others having committed or not since it began: the first failure rolls
      back, a commit since makes the batch's own fail, and in either case the committed tables stay as they were;
      otherwise the effect of all statements is committed at once. */
  method ExecuteBatch(transaction: Transaction, statements: seq<Statement>) returns (r: Result<(), BatchError>)
    modifies transaction, transaction.kernel
    ensures r == match RunStatements(old(transaction.tables), statements)
                 case None => Err(StatementFailed)
                 case Some(_) =>
                   if old(transaction.kernel.revision) == transaction.revision then Ok(())
                   else Err(NotCommitted(Conflict))
    ensures r.Ok? ==>
              && Some(transaction.kernel.tables) == RunStatements(old(transaction.tables), statements)
              && transaction.kernel.revision == old(transaction.kernel.revision) + 1
    ensures r.Err? ==>
              && transaction.kernel.tables == old(transaction.kernel.tables)
              && transaction.kernel.revision == old(transaction.kernel.revision)
  {
    ghost var begun := transaction.tables;
    for i := 0 to |statements|
      invariant transaction.kernel.tables == old(transaction.kernel.tables)
      invariant transaction.kernel.revision == old(transaction.kernel.revision)
      invariant Some(transaction.tables) == RunStatements(begun, statements[..i])
    {
      assert statements[..i + 1][..i] == statements[..i];
      var next := statements[i](transaction.tables);
      if next == None {
        FailureStays(begun, statements, i + 1);
        return Err(StatementFailed);
      }
      transaction.tables := next.value;
    }
    assert statements[..|statements|] == statements;
    var committed := transaction.Commit();
    r := if committed.Ok? then Ok(()) else Err(NotCommitted(committed.error));
  }

  lemma {:induction false} FailureStays(tables: Tables, statements: seq<Statement>, failed: nat)
    requires failed <= |statements| && RunStatements(tables, statements[..failed]).None?
    ensures RunStatements(tables, statements).None?
  {
    if failed == |statements| {
      assert statements[..failed] == statements;
    } else {
      assert statements[..|statements| - 1][..failed] == statements[..failed];
      FailureStays(tables, statements[..|statements| - 1], failed);
    }
  }

  // ---------------------------------------------------------------------------------------------
  // Interleavings
  // ---------------------------------------------------------------------------------------------

  // What a transaction did, with the answers it got.
  type Log = seq<(Operation, Answer)>

  datatype Active = Active(revision: nat, tables: Tables, log: Log)

  // `committed` records the logs of the committed transactions in commit order.
  datatype System = System(revision: nat, tables: Tables, active: map<nat, Active>, committed: seq<Log>)

  datatype Event = Begin(tx: nat) | Do(tx: nat, op: Operation) | Commit(tx: nat) | Rollback(tx: nat)

  const INITIAL := System(0, map[], map[], [])

  predicate Enabled(s: System, e: Event) {
    if e.Begin? then e.tx !in s.active else e.tx in s.active
  }

  function Next(s: System, e: Event): System
    requires Enabled(s, e)
  {
    match e
    case Begin(tx) => s.(active := s.active[tx := Active(s.revision, s.tables, [])])
    case Do(tx, op) =>
      var a := s.active[tx];
      var outcome := Perform(a.tables, op);
      s.(active := s.active[tx := Active(a.revision, outcome.tables, a.log + [(op, outcome.answer)])])
    case Commit(tx) =>
      var a := s.active[tx];
      if s.revision == a.revision then System(s.revision + 1, a.tables, s.active - {tx}, s.committed + [a.log])
      else s.(active := s.active - {tx})
    case Rollback(tx) => s.(active := s.active - {tx})
  }

  /** The state an interleaving reaches; None when an event is not possible where it stands. */
  function Run(events: seq<Event>): Option<System> {
    if events == [] then Some(INITIAL)
    else
      match Run(events[..|events| - 1])
      case None => None
      case Some(before) =>
        var e := events[|events| - 1];
        if Enabled(before, e) then Some(Next(before, e)) else None
  }

  /** Performing the operations of a log one after another. */
  function Replay(tables: Tables, log: Log): Tables {
    if log == [] then tables else Perform(Replay(tables, log[..|log| - 1]), log[|log| - 1].0).tables
  }

  /** ... answers each of them as the log recorded it. */
  ghost predicate AnswersMatch(tables: Tables, log: Log) {
    forall i :: 0 <= i < |log| ==> Perform(Replay(tables, log[..i]), log[i].0).answer == log[i].1
  }

  /** Running transactions one at a time, from no tables. */
  function Serial(logs: seq<Log>): Tables {
    if logs == [] then map[] else Replay(Serial(logs[..|logs| - 1]), logs[|logs| - 1])
  }

  ghost predicate Invariant(s: System) {
    && s.revision == |s.committed|
    && s.tables == Serial(s.committed)
    && (forall i :: 0 <= i < |s.committed| ==> AnswersMatch(Serial(s.committed[..i]), s.committed[i]))
    && (forall tx :: tx in s.active ==> ReadsPrefix(s.committed, s.active[tx]))
  }

  /** The transaction's tables are some committed prefix with its own operations performed on it. */
  ghost predicate ReadsPrefix(committed: seq<Log>, a: Active) {
    && a.revision <= |committed|
    && a.tables == Replay(Serial(committed[..a.revision]), a.log)
    && AnswersMatch(Serial(committed[..a.revision]), a.log)
  }

  lemma {:induction false} PerformedOneMore(tables: Tables, log: Log, op: Operation)
    requires AnswersMatch(tables, log)
    ensures var outcome := Perform(Replay(tables, log), op);
            && Replay(tables, log + [(op, outcome.answer)]) == outcome.tables
            && AnswersMatch(tables, log + [(op, outcome.answer)])
  {
    var longer := log + [(op, Perform(Replay(tables, log), op).answer)];
    assert longer[..|log|] == log;
    forall i | 0 <= i < |longer|
      ensures Perform(Replay(tables, longer[..i]), longer[i].0).answer == longer[i].1
    {
      assert longer[..i] == log[..i];
    }
  }

  lemma {:induction false} DoKeepsInvariant(s: System, tx: nat, op: Operation)
    requires Invariant(s) && tx in s.active
    ensures Invariant(Next(s, Do(tx, op)))
  {
    var a := s.active[tx];
    assert ReadsPrefix(s.committed, a);
    PerformedOneMore(Serial(s.committed[..a.revision]), a.log, op);
  }

  lemma {:induction false} ReadsLongerHistory(committed: seq<Log>, log: Log, a: Active)
    requires ReadsPrefix(committed, a)
    ensures ReadsPrefix(committed + [log], a)
  {
    assert (committed + [log])[..a.revision] == committed[..a.revision];
  }

  lemma {:induction false} CommitKeepsInvariant(s: System, tx: nat)
    requires Invariant(s) && tx in s.active
    ensures Invariant(Next(s, Commit(tx)))
  {
    var a, t := s.active[tx], Next(s, Commit(tx));
    assert ReadsPrefix(s.committed, a);
    if s.revision == a.revision {
      assert s.committed[..|s.committed|] == s.committed;
      assert t.committed[..|s.committed|] == s.committed;
      forall i | 0 <= i < |t.committed|
        ensures AnswersMatch(Serial(t.committed[..i]), t.committed[i])
      {
        assert t.committed[..i] == s.committed[..i];
      }
      forall other | other in t.active
        ensures ReadsPrefix(t.committed, t.active[other])
      {
        ReadsLongerHistory(s.committed, a.log, s.active[other]);
      }
    }
  }

  lemma {:induction false} BeginKeepsInvariant(s: System, tx: nat)
    requires Invariant(s) && tx !in s.active
    ensures Invariant(Next(s, Begin(tx)))
  {
    assert s.committed[..|s.committed|] == s.committed;
    assert ReadsPrefix(s.committed, Active(s.revision, s.tables, []));
  }

  /** Every interleaving is equivalent to running the committed transactions one at a time in commit order: the
      committed tables are those of the serial run, every operation of a committed transaction got the answer it
      gets there, and every transaction still running sees a committed prefix with its own writes. */
  lemma {:induction false} EveryInterleavingIsSerial(events: seq<Event>)
    requires Run(events).Some?
    ensures var s := Run(events).value;
            && s.tables == Serial(s.committed)
            && (forall i :: 0 <= i < |s.committed| ==> AnswersMatch(Serial(s.committed[..i]), s.committed[i]))
            && (forall tx :: tx in s.active ==> ReadsPrefix(s.committed, s.active[tx]))
    ensures Invariant(Run(events).value)
  {
    if events != [] {
      EveryInterleavingIsSerial(events[..|events| - 1]);
      var before := Run(events[..|events| - 1]).value;
      match events[|events| - 1] {
        case Begin(tx) => BeginKeepsInvariant(before, tx);
        case Do(tx, op) => DoKeepsInvariant(before, tx, op);
        case Commit(tx) => CommitKeepsInvariant(before, tx);
        case Rollback(tx) =>
      }
    }
  }

  /** A commit succeeds exactly when nothing was committed since the transaction began, and otherwise, like a
      rollback, leaves the committed tables and their history alone. */
  lemma {:induction false} CommitOrNothing(events: seq<Event>, tx: nat)
    requires Run(events).Some? && tx in Run(events).value.active
    ensures var s, t := Run(events).value, Run(events + [Commit(tx)]).value;
            if s.active[tx].revision == |s.committed| then t.committed == s.committed + [s.active[tx].log]
            else t.tables == s.tables && t.committed == s.committed && t.revision == s.revision
    ensures var s, t := Run(events).value, Run(events + [Rollback(tx)]).value;
            t.tables == s.tables && t.committed == s.committed && t.revision == s.revision
  {
    RevisionCountsCommits(events);
    RunOneMore(events, Commit(tx));
    RunOneMore(events, Rollback(tx));
  }

  lemma {:induction false} RunOneMore(events: seq<Event>, e: Event)
    requires Run(events).Some? && Enabled(Run(events).value, e)
    ensures Run(events + [e]) == Some(Next(Run(events).value, e))
  {
    assert (events + [e])[..|events|] == events;
  }

  lemma {:induction false} RevisionCountsCommits(events: seq<Event>)
    requires Run(events).Some?
    ensures Run(events).value.revision == |Run(events).value.committed|
  {
    EveryInterleavingIsSerial(events);
  }
}
