// What the repository relies on of an Automerge document: a set of applied changes, each naming the changes it
// depends on, and a queue of changes whose dependencies have not all arrived.
module Automerge {

  // A change's hash covers its dependencies' hashes, so a change stands here for its hash and holds its
  // dependencies themselves: hashes are injective and the dependency graph has no cycle.
  datatype Change = Change(content: nat, deps: set<Change>)

  datatype Document = Document(applied: set<Change>, queue: set<Change>) {
    function All(): set<Change> { applied + queue }
  }

  /** Every dependency of a member is a member. */
  predicate Closed(changes: set<Change>) {
    forall c :: c in changes ==> c.deps <= changes
  }

  /** `c` and its whole history are among `changes`. */
  predicate Supported(c: Change, changes: set<Change>) {
    c in changes && forall d :: d in c.deps ==> Supported(d, changes)
  }

  function Closure(changes: set<Change>): set<Change> {
    set c | c in changes && Supported(c, changes)
  }

  /** The document in which everything that can be applied has been. */
  function Settle(changes: set<Change>): Document {
    Document(Closure(changes), changes - Closure(changes))
  }

  ghost predicate Settled(doc: Document) {
    doc == Settle(doc.All())
  }

  lemma {:induction false} ClosedIsSupported(c: Change, sub: set<Change>, changes: set<Change>)
    requires c in sub && sub <= changes && Closed(sub)
    ensures Supported(c, changes)
  {
    forall d | d in c.deps
      ensures Supported(d, changes)
    {
      ClosedIsSupported(d, sub, changes);
    }
  }

  /** The closure is the greatest closed subset. */
  lemma {:induction false} ClosureIsGreatest(changes: set<Change>, sub: set<Change>)
    requires sub <= changes && Closed(sub)
    ensures Closed(Closure(changes)) && sub <= Closure(changes) <= changes
  {
    forall c, d | c in Closure(changes) && d in c.deps
      ensures d in Closure(changes)
    {
      assert Supported(d, changes);
    }
    forall c | c in sub
      ensures c in Closure(changes)
    {
      ClosedIsSupported(c, sub, changes);
    }
  }

  lemma {:induction false} ClosedIsSettled(changes: set<Change>)
    requires Closed(changes)
    ensures Closure(changes) == changes && Settle(changes) == Document(changes, {})
  {
    ClosureIsGreatest(changes, changes);
  }

  lemma {:induction false} ClosureMonotone(small: set<Change>, large: set<Change>)
    requires small <= large
    ensures Closure(small) <= Closure(large)
  {
    ClosureIsGreatest(small, {});
    ClosureIsGreatest(large, Closure(small));
  }

  // ---------------------------------------------------------------------------------------------
  // Loading
  // ---------------------------------------------------------------------------------------------

  /** Applies queued changes one at a time, any ready one next, until none is ready. Whatever the order, the
      changes applied in the end are the greatest closed subset of all that is present. */
  method Drain(doc: Document) returns (drained: Document)
    requires Closed(doc.applied) && doc.applied !! doc.queue
    ensures drained == Settle(doc.All())
  {
    drained := doc;
    while exists c :: c in drained.queue && c.deps <= drained.applied
      invariant Closed(drained.applied) && drained.applied !! drained.queue
      invariant drained.All() == doc.All()
      decreases drained.queue
    {
      var c :| c in drained.queue && c.deps <= drained.applied;
      drained := Document(drained.applied + {c}, drained.queue - {c});
    }
    ClosureIsGreatest(doc.All(), drained.applied);
    forall c | c in Closure(doc.All())
      ensures c in drained.applied
    {
      NothingReadyIsComplete(c, doc.All(), drained);
    }
  }

  lemma {:induction false} NothingReadyIsComplete(c: Change, changes: set<Change>, doc: Document)
    requires Supported(c, changes) && changes == doc.All()
    requires forall q :: q in doc.queue ==> !(q.deps <= doc.applied)
    ensures c in doc.applied
  {
    forall d | d in c.deps
      ensures d in doc.applied
    {
      NothingReadyIsComplete(d, changes, doc);
    }
  }

  /** `load_incremental`: queue what is not yet applied, then drain. */
  method LoadIncremental(doc: Document, payload: set<Change>) returns (loaded: Document)
    requires Settled(doc)
    ensures loaded == Settle(doc.All() + payload) && Settled(loaded)
  {
    ClosureIsGreatest(doc.All(), {});
    loaded := Drain(Document(doc.applied, doc.queue + (payload - doc.applied)));
    assert doc.applied + (doc.queue + (payload - doc.applied)) == doc.All() + payload;
    SettleKeepsAll(doc.All() + payload);
  }

  /** `load`: a fresh document with the payload loaded. */
  method Load(payload: set<Change>) returns (loaded: Document)
    ensures loaded == Settle(payload) && Settled(loaded)
  {
    loaded := Drain(Document({}, payload));
    assert {} + payload == payload;
    SettleKeepsAll(payload);
  }

  lemma {:induction false} SettleKeepsAll(changes: set<Change>)
    ensures Settle(changes).All() == changes && Settled(Settle(changes))
  {
    ClosureIsGreatest(changes, {});
  }

  // ---------------------------------------------------------------------------------------------
  // Heads and history
  // ---------------------------------------------------------------------------------------------

  /** `a` is `c` or one of its ancestors. */
  predicate Within(a: Change, c: Change) {
    a == c || exists d :: d in c.deps && Within(a, d)
  }

  function Heads(applied: set<Change>): set<Change> {
    set c | c in applied && !DependedOn(c, applied)
  }

  predicate DependedOn(c: Change, applied: set<Change>) {
    exists d :: d in applied && c in d.deps
  }

  lemma {:induction false} WithinTransitive(a: Change, b: Change, c: Change)
    requires Within(a, b) && Within(b, c)
    ensures Within(a, c)
  {
    if b != c {
      var d :| d in c.deps && Within(b, d);
      WithinTransitive(a, b, d);
    }
  }

  lemma {:induction false} WithinIsSmaller(a: Change, c: Change)
    requires Within(a, c)
    ensures a == c || a < c
  {
    if a != c {
      var d :| d in c.deps && Within(a, d);
      WithinIsSmaller(a, d);
    }
  }

  lemma {:induction false} ClosedUnderWithin(a: Change, c: Change, applied: set<Change>)
    requires Closed(applied) && c in applied && Within(a, c)
    ensures a in applied
  {
    if a != c {
      var d :| d in c.deps && Within(a, d);
      ClosedUnderWithin(a, d, applied);
    }
  }

  /** Every applied change is a head or an ancestor of one. */
  lemma {:induction false} BelowSomeHead(c: Change, applied: set<Change>) returns (head: Change)
    requires c in applied
    ensures head in Heads(applied) && Within(c, head)
    decreases |applied| - |set e | e in applied && Within(e, c)|
  {
    if DependedOn(c, applied) {
      var d :| d in applied && c in d.deps;
      var below := set e | e in applied && Within(e, c);
      var belowD := set e | e in applied && Within(e, d);
      forall e | e in below
        ensures e in belowD
      {
        WithinTransitive(e, c, d);
      }
      if d in below {
        WithinIsSmaller(d, c);
        assert false;
      }
      Smaller(below + {d}, belowD);
      Smaller(belowD, applied);
      head := BelowSomeHead(d, applied);
      WithinTransitive(c, d, head);
    } else {
      head := c;
    }
  }

  lemma {:induction false} Smaller<T>(a: set<T>, b: set<T>)
    requires a <= b
    ensures |a| <= |b|
  {
    if a != {} {
      var x :| x in a;
      Smaller(a - {x}, b - {x});
    }
  }

  /** A document's heads determine its applied changes: `hash_heads` identifies the document. */
  lemma {:induction false} HeadsDetermineChanges(a: set<Change>, b: set<Change>)
    requires Closed(a) && Closed(b) && Heads(a) == Heads(b)
    ensures a == b
  {
    forall c | c in a
      ensures c in b
    {
      var head := BelowSomeHead(c, a);
      ClosedUnderWithin(c, head, b);
    }
    forall c | c in b
      ensures c in a
    {
      var head := BelowSomeHead(c, b);
      ClosedUnderWithin(c, head, a);
    }
  }

  /** `get_changes(heads)`: the applied changes that are no ancestor of the given heads. */
  ghost function ChangesSince(doc: Document, heads: set<Change>): set<Change> {
    set c | c in doc.applied && !(exists h :: h in heads && Within(c, h))
  }

  /** Counted from a former state's heads, `get_changes` returns what was applied since. */
  lemma {:induction false} ChangesSinceHeads(before: Document, after: Document)
    requires Closed(before.applied)
    ensures ChangesSince(after, Heads(before.applied)) == after.applied - before.applied
  {
    forall c | c in after.applied
      ensures (exists h :: h in Heads(before.applied) && Within(c, h)) <==> c in before.applied
    {
      if c in before.applied {
        var head := BelowSomeHead(c, before.applied);
      }
      if h :| h in Heads(before.applied) && Within(c, h) {
        ClosedUnderWithin(c, h, before.applied);
      }
    }
  }
}
