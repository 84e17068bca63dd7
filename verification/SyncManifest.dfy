// A manifest as it is stored and sent: a list sorted by key with one entry per key, searched by halving.
module SyncManifest {
  import opened Sorting
  import opened SyncState

  datatype Entry = Entry(key: SyncKey, digest: Digest)

  function EntryKey(e: Entry): SyncKey {
    e.key
  }

  predicate Sorted(entries: seq<Entry>, less: (SyncKey, SyncKey) -> bool) {
    forall i, j :: 0 <= i < j < |entries| ==> less(entries[i].key, entries[j].key)
  }

  /** The list has exactly the entries of the manifest it stands for. */
  ghost predicate Lists(entries: seq<Entry>, manifest: Manifest) {
    forall key, digest :: Entry(key, digest) in entries <==> key in manifest && manifest[key] == digest
  }

  /** `SyncManifest::new`: sorts by key and keeps one entry of each run of equal keys. Every entry of the result was
      given, every key given is there once, and where the keys given are distinct nothing is dropped. */
  method New(entries: seq<Entry>, less: (SyncKey, SyncKey) -> bool) returns (manifest: seq<Entry>)
    requires TotalOrder(less)
    ensures Sorted(manifest, less)
    ensures forall e :: e in manifest ==> e in entries
    ensures forall e :: e in entries ==> HasKey(manifest, e.key)
    ensures (forall d, e :: d in entries && e in entries && d.key == e.key ==> d == e) ==>
              forall e :: e in entries ==> e in manifest
  {
    var sorted := Sort(entries, EntryKey, less);
    forall e
      ensures e in sorted <==> e in entries
    {
      assert e in multiset(sorted) <==> e in multiset(entries);
    }
    manifest := Dedup(sorted, less);
  }

  predicate HasKey(entries: seq<Entry>, key: SyncKey) {
    exists i :: 0 <= i < |entries| && entries[i].key == key
  }

  method Dedup(sorted: seq<Entry>, less: (SyncKey, SyncKey) -> bool) returns (manifest: seq<Entry>)
    requires TotalOrder(less) && Ordered(sorted, EntryKey, less)
    ensures Sorted(manifest, less)
    ensures forall e :: e in manifest ==> e in sorted
    ensures forall e :: e in sorted ==> HasKey(manifest, e.key)
  {
    manifest := [];
    for i := 0 to |sorted|
      invariant Sorted(manifest, less)
      invariant forall e :: e in manifest ==> e in sorted[..i]
      invariant forall e :: e in sorted[..i] ==> HasKey(manifest, e.key)
    {
      assert sorted[..i + 1] == sorted[..i] + [sorted[i]];
      if manifest == [] || manifest[|manifest| - 1].key != sorted[i].key {
        LastIsGreatest(sorted, i, manifest, less);
        ghost var before := manifest;
        manifest := manifest + [sorted[i]];
        KeysStay(before, sorted[i]);
      }
    }
    assert sorted[..|sorted|] == sorted;
  }

  lemma {:induction false} KeysStay(entries: seq<Entry>, e: Entry)
    ensures forall key :: HasKey(entries + [e], key) <==> HasKey(entries, key) || key == e.key
  {
    assert (entries + [e])[|entries|] == e;
    forall key | HasKey(entries, key)
      ensures HasKey(entries + [e], key)
    {
      var i :| 0 <= i < |entries| && entries[i].key == key;
      assert (entries + [e])[i].key == key;
    }
  }

  lemma {:induction false} LastIsGreatest(sorted: seq<Entry>, i: nat, manifest: seq<Entry>,
                                          less: (SyncKey, SyncKey) -> bool)
    requires TotalOrder(less) && Ordered(sorted, EntryKey, less) && i < |sorted| && Sorted(manifest, less)
    requires forall e :: e in manifest ==> e in sorted[..i]
    requires manifest == [] || manifest[|manifest| - 1].key != sorted[i].key
    ensures forall j :: 0 <= j < |manifest| ==> less(manifest[j].key, sorted[i].key)
  {
    forall e | e in manifest
      ensures !less(sorted[i].key, e.key)
    {
      var k :| 0 <= k < |sorted[..i]| && sorted[..i][k] == e;
    }
    forall j | 0 <= j < |manifest|
      ensures less(manifest[j].key, sorted[i].key)
    {
      assert manifest[j] in manifest && manifest[|manifest| - 1] in manifest;
    }
  }

  /** `contains`: binary search finds exactly the entries of a sorted manifest. */
  method Contains(manifest: seq<Entry>, key: SyncKey, digest: Digest, less: (SyncKey, SyncKey) -> bool)
    returns (found: bool)
    requires TotalOrder(less) && Sorted(manifest, less)
    ensures found <==> Entry(key, digest) in manifest
  {
    var low, high := 0, |manifest|;
    while low < high
      invariant 0 <= low <= high <= |manifest|
      invariant forall i :: 0 <= i < low ==> less(manifest[i].key, key)
      invariant forall i :: high <= i < |manifest| ==> less(key, manifest[i].key)
    {
      var mid := (low + high) / 2;
      if less(manifest[mid].key, key) {
        low := mid + 1;
      } else if less(key, manifest[mid].key) {
        high := mid;
      } else {
        assert forall i :: 0 <= i < |manifest| && i != mid ==> manifest[i].key != key;
        return manifest[mid].digest == digest;
      }
    }
    found := false;
  }
}
