// The in-memory B-tree transaction: a patch of pending writes over a base map that is read, and committed into,
// as it is at that moment.
module PatchTree {
  import opened Wrappers

  datatype PatchEntry<V> = Present(value: V) | Deleted

  /** The map a transaction sees: the base with the patch written over it. This is also what a commit leaves. */
  ghost function Overlay<K(!new), V(!new)>(base: map<K, V>, patch: map<K, PatchEntry<V>>): map<K, V> {
    map k | k in base.Keys + patch.Keys && (k in patch ==> patch[k].Present?) ::
      if k in patch then patch[k].value else base[k]
  }

  /** The patch with the given keys marked deleted. */
  ghost function Marked<K, V>(patch: map<K, PatchEntry<V>>, keys: set<K>): map<K, PatchEntry<V>> {
    patch + map k | k in keys :: Deleted
  }

  lemma {:induction false} MarkedOverlay<K(!new), V(!new)>(base: map<K, V>, patch: map<K, PatchEntry<V>>, keys: set<K>)
    ensures Overlay(base, Marked(patch, keys)) == Overlay(base, patch) - keys
  {
  }

  lemma {:induction false} MarkOneMore<K(!new), V(!new)>(base: map<K, V>, patch: map<K, PatchEntry<V>>, keys: set<K>,
                                                         key: K)
    requires key in Overlay(base, patch) && key !in keys
    ensures key in Overlay(base, Marked(patch, keys))
    ensures Marked(patch, keys)[key := Deleted] == Marked(patch, keys + {key})
  {
  }

  function Find<K, V>(m: map<K, V>, key: K): Option<V> {
    if key in m then Some(m[key]) else None
  }

  function Restrict<K, V>(m: map<K, V>, range: K -> bool): map<K, V> {
    map k | k in m && range(k) :: m[k]
  }

  class Patch<K(==, !new), V(!new)> {
    var inner: map<K, PatchEntry<V>>

    constructor ()
      ensures inner == map[]
    {
      inner := map[];
    }

    method Get(base: map<K, V>, key: K) returns (value: Option<V>)
      ensures value == Find(Overlay(base, inner), key)
    {
      if key in inner {
        return match inner[key] case Present(v) => Some(v) case Deleted => None;
      }
      return Find(base, key);
    }

    method Insert(key: K, value: V)
      modifies this
      ensures forall base :: Overlay(base, inner) == Overlay(base, old(inner))[key := value]
      ensures inner == old(inner)[key := Present(value)]
    {
      inner := inner[key := Present(value)];
    }

    method Remove(base: map<K, V>, key: K) returns (removed: Option<V>)
      modifies this
      ensures removed == Find(Overlay(base, old(inner)), key)
      ensures Overlay(base, inner) == Overlay(base, old(inner)) - {key}
      ensures inner == if key in Overlay(base, old(inner)) then old(inner)[key := Deleted] else old(inner)
    {
      if key in inner {
        match inner[key] {
          case Present(v) =>
            inner := inner[key := Deleted];
            return Some(v);
          case Deleted =>
            return None;
        }
      } else if key in base {
        inner := inner[key := Deleted];
        return Some(base[key]);
      } else {
        return None;
      }
    }

    /** Runs the update function on a copy of the value; an error leaves the patch alone. */
    method Update(base: map<K, V>, key: K, f: V -> Option<V>) returns (updated: Option<Option<()>>)
      modifies this
      ensures inner == PatchStep(base, old(inner), Write.Update(key, f))
      ensures var seen := Overlay(base, old(inner));
              if key !in seen then updated == Some(None) && inner == old(inner)
              else if f(seen[key]) == None then updated == None && inner == old(inner)
              else updated == Some(Some(())) && Overlay(base, inner) == seen[key := f(seen[key]).value]
    {
      var value := Get(base, key);
      if value == None {
        return Some(None);
      }
      var next := f(value.value);
      if next == None {
        return None;
      }
      Insert(key, next.value);
      return Some(Some(()));
    }

    /** Merges the base's entries in range with the patch's. */
    method Range(base: map<K, V>, range: K -> bool) returns (merged: map<K, V>)
      ensures merged == Restrict(Overlay(base, inner), range)
    {
      merged := map[];
      var todo := set k | k in base && range(k);
      while todo != {}
        invariant todo <= base.Keys && forall k :: k in todo ==> range(k)
        invariant merged == map k | k in base && range(k) && k !in todo && !(k in inner && inner[k].Deleted?) :: base[k]
      {
        var k :| k in todo;
        if !(k in inner && inner[k].Deleted?) {
          merged := merged[k := base[k]];
        }
        todo := todo - {k};
      }
      var pending := set k | k in inner && range(k);
      ghost var fromBase := merged;
      while pending != {}
        invariant pending <= inner.Keys && forall k :: k in pending ==> range(k)
        invariant forall k :: k !in inner || !range(k) || k in pending ==>
                    (k in merged <==> k in fromBase) && (k in merged ==> merged[k] == fromBase[k])
        invariant forall k :: k in inner && range(k) && k !in pending ==>
                    (k in merged <==> inner[k].Present?) && (k in merged ==> merged[k] == inner[k].value)
      {
        var k :| k in pending;
        match inner[k] {
          case Present(v) => merged := merged[k := v];
          case Deleted => merged := merged - {k};
        }
        pending := pending - {k};
      }
    }

    /** Consumes a range removal to its end. */
    method RemoveRange(base: map<K, V>, range: K -> bool) returns (removed: map<K, V>)
      modifies this
      ensures removed == Restrict(Overlay(base, old(inner)), range)
      ensures Overlay(base, inner) == Overlay(base, old(inner)) - removed.Keys
      ensures inner == Marked(old(inner), removed.Keys)
    {
      removed := Range(base, range);
      MarkedOverlay(base, inner, removed.Keys);
      RemoveEach(base, removed.Keys);
    }

    /** The keys of a range, removed one by one. */
    method RemoveEach(base: map<K, V>, keys: set<K>)
      requires keys <= Overlay(base, inner).Keys
      modifies this
      ensures inner == Marked(old(inner), keys)
    {
      var todo := keys;
      while todo != {}
        invariant todo <= keys
        invariant inner == Marked(old(inner), keys - todo)
      {
        var k :| k in todo;
        MarkOneMore(base, old(inner), keys - todo, k);
        var _ := Remove(base, k);
        assert keys - todo + {k} == keys - (todo - {k});
        todo := todo - {k};
      }
      assert keys - todo == keys;
    }

    /** Writes the patch into the base, one entry at a time in any order. */
    method Commit(base: map<K, V>) returns (committed: map<K, V>)
      ensures committed == Overlay(base, inner)
    {
      committed := base;
      var todo := inner.Keys;
      while todo != {}
        invariant todo <= inner.Keys
        invariant committed == Overlay(base, inner - todo)
      {
        var k :| k in todo;
        match inner[k] {
          case Present(v) => committed := committed[k := v];
          case Deleted => committed := committed - {k};
        }
        assert (inner - (todo - {k})).Keys == (inner - todo).Keys + {k};
        todo := todo - {k};
      }
      assert inner - {} == inner;
    }
  }

  // ---------------------------------------------------------------------------------------------
  // Whole transactions
  // ---------------------------------------------------------------------------------------------

  datatype Write<!K, !V> =
    | Insert(key: K, value: V)
    | Update(key: K, f: V -> Option<V>)
    | Remove(key: K)
    | RemoveRange(range: K -> bool)

  /** The patch after a write, as the methods of `Patch` leave it. */
  ghost function PatchStep<K(!new), V(!new)>(base: map<K, V>, patch: map<K, PatchEntry<V>>,
                                             w: Write<K, V>): map<K, PatchEntry<V>> {
    match w
    case Insert(key, value) => patch[key := Present(value)]
    case Update(key, f) =>
      var seen := Find(Overlay(base, patch), key);
      if seen.None? || f(seen.value).None? then patch else patch[key := Present(f(seen.value).value)]
    case Remove(key) => if key in Overlay(base, patch) then patch[key := Deleted] else patch
    case RemoveRange(range) => Marked(patch, Restrict(Overlay(base, patch), range).Keys)
  }

  /** The same write on a private copy of the base. */
  ghost function MapStep<K(!new), V(!new)>(m: map<K, V>, w: Write<K, V>): map<K, V> {
    match w
    case Insert(key, value) => m[key := value]
    case Update(key, f) => if key in m && f(m[key]).Some? then m[key := f(m[key]).value] else m
    case Remove(key) => m - {key}
    case RemoveRange(range) => m - Restrict(m, range).Keys
  }

  ghost function PatchRun<K(!new), V(!new)>(base: map<K, V>, ws: seq<Write<K, V>>): map<K, PatchEntry<V>> {
    if ws == [] then map[] else PatchStep(base, PatchRun(base, ws[..|ws| - 1]), ws[|ws| - 1])
  }

  ghost function MapRun<K(!new), V(!new)>(base: map<K, V>, ws: seq<Write<K, V>>): map<K, V> {
    if ws == [] then base else MapStep(MapRun(base, ws[..|ws| - 1]), ws[|ws| - 1])
  }

  /** After any writes over an unchanged base the transaction sees, and a commit leaves, exactly the private copy.
      With the contracts of `Patch` every get, range and returned value is then that of the copy. */
  lemma {:induction false} TransactionIsPrivateCopy<K(!new), V(!new)>(base: map<K, V>, ws: seq<Write<K, V>>)
    ensures Overlay(base, PatchRun(base, ws)) == MapRun(base, ws)
  {
    if ws == [] {
      assert Overlay(base, map[]) == base;
    } else {
      var init, w := ws[..|ws| - 1], ws[|ws| - 1];
      TransactionIsPrivateCopy(base, init);
      StepCommutes(base, PatchRun(base, init), w);
    }
  }

  lemma {:induction false} StepCommutes<K(!new), V(!new)>(base: map<K, V>, patch: map<K, PatchEntry<V>>, w: Write<K, V>)
    ensures Overlay(base, PatchStep(base, patch, w)) == MapStep(Overlay(base, patch), w)
  {
    var seen := Overlay(base, patch);
    match w {
      case Insert(key, value) => PresentShows(base, patch, key, value);
      case Update(key, f) =>
        if key in seen && f(seen[key]).Some? {
          PresentShows(base, patch, key, f(seen[key]).value);
        }
      case Remove(key) => DeletedHides(base, patch, key);
      case RemoveRange(range) => MarkedHides(base, patch, Restrict(seen, range).Keys);
    }
  }

  lemma {:induction false} PresentShows<K(!new), V(!new)>(base: map<K, V>, patch: map<K, PatchEntry<V>>, key: K,
                                                          value: V)
    ensures Overlay(base, patch[key := Present(value)]) == Overlay(base, patch)[key := value]
  {
  }

  lemma {:induction false} DeletedHides<K(!new), V(!new)>(base: map<K, V>, patch: map<K, PatchEntry<V>>, key: K)
    ensures Overlay(base, if key in Overlay(base, patch) then patch[key := Deleted] else patch)
            == Overlay(base, patch) - {key}
  {
  }

  lemma {:induction false} MarkedHides<K(!new), V(!new)>(base: map<K, V>, patch: map<K, PatchEntry<V>>, keys: set<K>)
    ensures Overlay(base, Marked(patch, keys)) == Overlay(base, patch) - keys
  {
  }

  /** A removal is remembered whatever is committed underneath later, exactly when the key was pending or in the
      base at the time; otherwise another transaction's insert of the key shows through. */
  lemma {:induction false} RemovalIsRemembered<K(!new), V(!new)>(base: map<K, V>, patch: map<K, PatchEntry<V>>, key: K,
                                                                 value: V)
    ensures (forall later: map<K, V> :: key !in Overlay(later, PatchStep(base, patch, Remove(key))))
        <==> key in patch || key in base
  {
    var after := PatchStep(base, patch, Remove(key));
    if key !in patch && key !in base {
      assert after == patch;
      assert key in Overlay(map[key := value], after);
    }
  }

  /** The write means the same on every base that may be underneath when the transaction commits. */
  ghost predicate ActsAlike<K(!new), V(!new)>(base: map<K, V>, patch: map<K, PatchEntry<V>>, w: Write<K, V>) {
    forall later: map<K, V> :: ActsOn(base, patch, w, later)
  }

  ghost predicate ActsOn<K(!new), V(!new)>(base: map<K, V>, patch: map<K, PatchEntry<V>>, w: Write<K, V>,
                                           later: map<K, V>) {
    Overlay(later, PatchStep(base, patch, w)) == MapStep(Overlay(later, patch), w)
  }

  /** The function changes no value. */
  ghost predicate LeavesAlone<V(!new)>(f: V -> Option<V>) {
    forall v :: f(v).None? || f(v) == Some(v)
  }

  /** When a write means the same on every later base: an insert always; an update of a pending key, or one that
      changes no value and put none into the patch; a removal of keys that are all pending or in the base at the
      time. */
  ghost predicate BaseIndependent<K(!new), V(!new)>(base: map<K, V>, patch: map<K, PatchEntry<V>>, w: Write<K, V>) {
    match w
    case Insert(_, _) => true
    case Update(key, f) => key in patch || (LeavesAlone(f) && (key in base ==> f(base[key]).None?))
    case Remove(key) => key in patch || key in base
    case RemoveRange(range) => forall k :: range(k) ==> k in patch || k in base
  }

  /** A write that is not fails on some later base; the value is one a key may have. */
  lemma {:induction false} BaseMatters<K(!new), V(!new)>(base: map<K, V>, patch: map<K, PatchEntry<V>>, w: Write<K, V>,
                                                        value: V) returns (later: map<K, V>)
    requires !BaseIndependent(base, patch, w)
    ensures !ActsOn(base, patch, w, later)
  {
    match w {
      case Update(key, f) =>
        if key in base && f(base[key]).Some? {
          later := map[];
          assert key in Overlay(later, PatchStep(base, patch, w)) && key !in MapStep(Overlay(later, patch), w);
        } else {
          var v :| f(v).Some? && f(v) != Some(v);
          later := map[key := v];
          assert Overlay(later, PatchStep(base, patch, w))[key] == v && MapStep(Overlay(later, patch), w)[key] != v;
        }
      case Remove(key) =>
        later := map[key := value];
        assert key in Overlay(later, PatchStep(base, patch, w));
      case RemoveRange(range) =>
        var k :| range(k) && k !in patch && k !in base;
        later := map[k := value];
        assert k in Overlay(later, PatchStep(base, patch, w)) && k !in MapStep(Overlay(later, patch), w);
    }
  }

  lemma {:induction false} BaseDoesNotMatter<K(!new), V(!new)>(base: map<K, V>, patch: map<K, PatchEntry<V>>,
                                                               w: Write<K, V>, later: map<K, V>)
    requires BaseIndependent(base, patch, w)
    ensures ActsOn(base, patch, w, later)
  {
    match w {
      case Insert(key, value) => PresentShows(later, patch, key, value);
      case Update(key, f) => UpdateActs(base, patch, key, f, later);
      case Remove(key) => assert Overlay(later, PatchStep(base, patch, w)) == Overlay(later, patch) - {key};
      case RemoveRange(range) => RangeActs(base, patch, range, later);
    }
  }

  lemma {:induction false} UpdateActs<K(!new), V(!new)>(base: map<K, V>, patch: map<K, PatchEntry<V>>, key: K,
                                                       f: V -> Option<V>, later: map<K, V>)
    requires key in patch || (LeavesAlone(f) && (key in base ==> f(base[key]).None?))
    ensures ActsOn(base, patch, Update(key, f), later)
  {
    var seen := Overlay(later, patch);
    if key in patch {
      if patch[key].Present? && f(patch[key].value).Some? {
        PresentShows(later, patch, key, f(patch[key].value).value);
      }
    } else if key in later && f(later[key]).Some? {
      assert seen[key := f(later[key]).value] == seen;
    }
  }

  lemma {:induction false} RangeActs<K(!new), V(!new)>(base: map<K, V>, patch: map<K, PatchEntry<V>>, range: K -> bool,
                                                      later: map<K, V>)
    requires forall k :: range(k) ==> k in patch || k in base
    ensures ActsOn(base, patch, RemoveRange(range), later)
  {
    var keys, seen := Restrict(Overlay(base, patch), range).Keys, Overlay(later, patch);
    MarkedHides(later, patch, keys);
    assert seen - keys == seen - Restrict(seen, range).Keys;
  }

  /** Exactly the writes that are base-independent mean the same whatever other transactions commit underneath. */
  lemma {:induction false} ActsAlikeExactly<K(!new), V(!new)>(base: map<K, V>, patch: map<K, PatchEntry<V>>,
                                                              w: Write<K, V>, value: V)
    ensures ActsAlike(base, patch, w) <==> BaseIndependent(base, patch, w)
  {
    if BaseIndependent(base, patch, w) {
      forall later: map<K, V>
        ensures ActsOn(base, patch, w, later)
      {
        BaseDoesNotMatter(base, patch, w, later);
      }
    } else {
      var later := BaseMatters(base, patch, w, value);
    }
  }
}
