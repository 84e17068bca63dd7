// One stored row as the codec sees it: the changes of its document, which of them are stored as incrementals,
// and its metadata record. Each codec operation is a function on this state.
module RowState {
  import opened Automerge
  import opened Wrappers

  // doc: the stored changes, None without a snapshot. incrementals: payload by change, for the entries that carry
  // a single change's key. meta: the `deleted` flag of the metadata record, None without one.
  datatype Row = Row(doc: Option<set<Change>>, incrementals: map<Change, set<Change>>, meta: Option<bool>) {

    /** What reconstruction finds: any metadata record hides the document. */
    function Visible(): Option<set<Change>> {
      if meta.Some? then None else doc
    }

    predicate Deleted() {
      meta == Some(true)
    }

    /** All changes the row holds, visible or not. */
    function Held(): set<Change> {
      if doc.Some? then doc.value else {}
    }
  }

  const NO_ROW := Row(None, map[], None)

  /** An incremental payload carries the change it is keyed by, and besides it only that change's history. */
  predicate GoodPayload(c: Change, payload: set<Change>) {
    c in payload && forall a :: a in payload ==> Within(a, c)
  }

  ghost predicate GoodRow(r: Row) {
    && (r.doc.None? ==> r.incrementals == map[])
    && Closed(r.Held())
    && (forall c :: c in r.incrementals ==> c in r.Held() && GoodPayload(c, r.incrementals[c]))
  }

  lemma {:induction false} FlagValues(flag: Option<bool>)
    ensures flag == None || flag == Some(true) || flag == Some(false)
  {
    if flag.Some? {
      assert flag == if flag.value then Some(true) else Some(false);
    }
  }

  datatype ApplyError = DependencyUnavailable | HashMismatch | NoChange | EngineFailure

  // ---------------------------------------------------------------------------------------------
  // Operations
  // ---------------------------------------------------------------------------------------------

  function MergeMetadata(r: Row, deleted: bool): Row {
    r.(meta := Some(deleted))
  }

  function DeleteRow(r: Row): Row {
    MergeMetadata(r, true)
  }

  /** Merging a whole document replaces a visible document's entries by one snapshot of the merge. */
  function MergeState(r: Row, state: set<Change>): Row {
    if r.Deleted() then r
    else if r.Visible().Some? then Row(Some(r.doc.value + state), map[], r.meta)
    else r.(doc := Some(r.Held() + state))
  }

  function ApplyChange(r: Row, c: Change, payload: set<Change>): Result<Row, ApplyError> {
    if c in r.incrementals then Ok(r)
    else if r.Visible().None? then Err(DependencyUnavailable)
    else if c in r.doc.value || c !in Closure(r.doc.value + payload) then Err(HashMismatch)
    else Ok(r.(doc := Some(r.doc.value + payload), incrementals := r.incrementals[c := payload]))
  }

  /** Merging a local change `c` saved as `payload`. */
  function MergeRow(r: Row, c: Change, payload: set<Change>): Result<Row, ApplyError> {
    if r.Deleted() then Ok(r)
    else if r.Visible().None? then Ok(r.(doc := Some(r.Held() + payload)))
    else if payload <= r.doc.value then Err(NoChange)
    else Ok(r.(doc := Some(r.doc.value + payload), incrementals := r.incrementals[c := payload]))
  }

  /** A local change is recorded on top of the visible document: all it names is there. */
  ghost predicate LocalChange(r: Row, c: Change, payload: set<Change>) {
    && GoodPayload(c, payload)
    && Closed((if r.Visible().Some? then r.doc.value else {}) + payload)
  }

  /** What is stored as incrementals, and so listed to other sides, after an operation: a merged state leaves nothing of
      a row that was shown; a change that is applied, or a local one on a row that is shown, is added with its payload;
      a row's first local change is not, and nothing is on a deleted row. */
  lemma {:induction false} InventoryAfter(r: Row, state: set<Change>, c: Change, payload: set<Change>)
    requires GoodRow(r) && r.meta != Some(false)
    ensures MergeState(r, state).incrementals == if r.Visible().Some? then map[] else r.incrementals
    ensures ApplyChange(r, c, payload).Ok? ==>
              ApplyChange(r, c, payload).value.incrementals
              == if c in r.incrementals then r.incrementals else r.incrementals[c := payload]
    ensures MergeRow(r, c, payload).Ok? ==>
              MergeRow(r, c, payload).value.incrementals
              == if r.Visible().Some? then r.incrementals[c := payload] else r.incrementals
    ensures MergeRow(r, c, payload).Err? <==> r.Visible().Some? && payload <= r.doc.value
  {
    FlagValues(r.meta);
  }

  /** A change that can be applied brings its whole payload along. */
  lemma {:induction false} PayloadApplies(doc: set<Change>, c: Change, payload: set<Change>)
    requires Closed(doc) && GoodPayload(c, payload) && c in Closure(doc + payload)
    ensures Closed(doc + payload) && Closure(doc + payload) == doc + payload
  {
    var all := doc + payload;
    ClosureIsGreatest(all, doc);
    forall a | a in payload
      ensures a in Closure(all)
    {
      ClosedUnderWithin(a, c, Closure(all));
    }
    assert Closure(all) == all;
  }

  lemma {:induction false} ClosedUnion(a: set<Change>, b: set<Change>)
    requires Closed(a) && Closed(b)
    ensures Closed(a + b)
  {
  }

  // ---------------------------------------------------------------------------------------------
  // Whole runs
  // ---------------------------------------------------------------------------------------------

  datatype Operation =
    | OnMetadata(deleted: bool)
    | OnDelete
    | OnState(state: set<Change>)
    | OnIncremental(c: Change, payload: set<Change>)
    | OnLocal(c: Change, payload: set<Change>)

  ghost predicate Admissible(r: Row, op: Operation) {
    match op
    case OnState(state) => Closed(state)
    case OnIncremental(c, payload) => GoodPayload(c, payload)
    case OnLocal(c, payload) => LocalChange(r, c, payload)
    case _ => true
  }

  /** An operation that fails leaves the row alone. */
  function Step(r: Row, op: Operation): Row {
    match op
    case OnMetadata(deleted) => MergeMetadata(r, deleted)
    case OnDelete => DeleteRow(r)
    case OnState(state) => MergeState(r, state)
    case OnIncremental(c, payload) => (match ApplyChange(r, c, payload) case Ok(after) => after case Err(_) => r)
    case OnLocal(c, payload) => (match MergeRow(r, c, payload) case Ok(after) => after case Err(_) => r)
  }

  function Run(r: Row, ops: seq<Operation>): Row {
    if ops == [] then r else Step(Run(r, ops[..|ops| - 1]), ops[|ops| - 1])
  }

  ghost predicate AdmissibleRun(r: Row, ops: seq<Operation>) {
    forall i :: 0 <= i < |ops| ==> Admissible(Run(r, ops[..i]), ops[i])
  }

  lemma {:induction false} StepKeeps(r: Row, op: Operation)
    requires GoodRow(r) && Admissible(r, op)
    ensures GoodRow(Step(r, op))
    ensures r.Held() <= Step(r, op).Held()
    ensures r.meta.Some? ==> Step(r, op).meta.Some?
  {
    match op {
      case OnState(state) => ClosedUnion(r.Held(), state);
      case OnIncremental(c, payload) =>
        if ApplyChange(r, c, payload).Ok? && c !in r.incrementals { PayloadApplies(r.doc.value, c, payload); }
      case OnLocal(c, payload) =>
        if !r.Deleted() && r.Visible().None? { ClosedUnion(r.Held(), payload); }
      case _ =>
    }
  }

  /** Over every run of codec operations the row stays well formed, no change it holds is lost, and once it has a
      metadata record it is never visible again, whatever is merged later. */
  lemma {:induction false} RunKeeps(r: Row, ops: seq<Operation>)
    requires GoodRow(r) && AdmissibleRun(r, ops)
    ensures GoodRow(Run(r, ops))
    ensures r.Held() <= Run(r, ops).Held()
    ensures r.meta.Some? ==> Run(r, ops).Visible().None?
  {
    if ops != [] {
      var init := ops[..|ops| - 1];
      forall i | 0 <= i < |init|
        ensures Admissible(Run(r, init[..i]), init[i])
      {
        assert init[..i] == ops[..i];
      }
      RunKeeps(r, init);
      assert ops[..|ops| - 1] == init;
      StepKeeps(Run(r, init), ops[|ops| - 1]);
      RunKeepsMeta(r, init);
    }
  }

  lemma {:induction false} RunKeepsMeta(r: Row, ops: seq<Operation>)
    ensures r.meta.Some? ==> Run(r, ops).meta.Some?
  {
    if ops != [] {
      RunKeepsMeta(r, ops[..|ops| - 1]);
    }
  }
}
