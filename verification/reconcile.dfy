/**
 * What `scan` and `rescan` (shredmeister.py:433-444, 474-507) do to the
 * registry of drives, stated on values: the insertion order of the serials and
 * the record held for each of them.
 */
module Reconcile {
  import opened Base
  import opened Records

  /**
   * One discovery result: the serials in the order the device walk found
   * them, and the path of each (`get_drives`). A failed walk yields the empty
   * snapshot.
   */
  datatype Snapshot = Snapshot(serials: seq<Serial>, paths: map<Serial, Path>)
  {
    /** A Python dict: no serial twice, and exactly the listed serials have a path. */
    ghost predicate WellFormed()
    {
      Distinct(serials) && forall s :: s in paths <==> s in serials
    }
  }

  /** The keys of an insertion-ordered dict after each found serial has been assigned in turn. */
  function InsertOrder(keys: seq<Serial>, found: seq<Serial>): seq<Serial>
    decreases |found|
  {
    if |found| == 0 then keys
    else InsertOrder(if found[0] in keys then keys else keys + [found[0]], found[1..])
  }

  /** The found serials that the keys do not hold yet, in the order found. */
  function Unseen(keys: seq<Serial>, found: seq<Serial>): (r: seq<Serial>)
    ensures forall s | s in r :: s in found && s !in keys
  {
    if |found| == 0 then []
    else if found[0] in keys then Unseen(keys, found[1..])
    else [found[0]] + Unseen(keys, found[1..])
  }

  lemma {:induction false} UnseenSkipsAbsent(keys: seq<Serial>, x: Serial, found: seq<Serial>)
    requires x !in found
    ensures Unseen(keys + [x], found) == Unseen(keys, found)
  {
    if |found| > 0 {
      assert found[0] in keys + [x] <==> found[0] in keys;
      UnseenSkipsAbsent(keys, x, found[1..]);
    }
  }

  /**
   * Existing serials keep their places and newly found ones follow them in
   * the order found; the result has no repeats and holds exactly the old and
   * the found serials.
   */
  lemma {:induction false} InsertOrderAppends(keys: seq<Serial>, found: seq<Serial>)
    requires Distinct(keys) && Distinct(found)
    ensures InsertOrder(keys, found) == keys + Unseen(keys, found)
    ensures Distinct(InsertOrder(keys, found))
    ensures forall s :: s in InsertOrder(keys, found) <==> s in keys || s in found
    decreases |found|
  {
    if |found| > 0 {
      var f := found[0];
      assert Distinct(found[1..]) by {
        forall a, b | 0 <= a < b < |found[1..]| ensures found[1..][a] != found[1..][b] {
          assert found[1..][a] == found[a + 1] && found[1..][b] == found[b + 1];
        }
      }
      assert f !in found[1..] by {
        forall k | 0 <= k < |found[1..]| ensures found[1..][k] != f {
          assert found[1..][k] == found[k + 1];
        }
      }
      if f in keys {
        InsertOrderAppends(keys, found[1..]);
      } else {
        var keys' := keys + [f];
        assert Distinct(keys') by {
          forall a, b | 0 <= a < b < |keys'| ensures keys'[a] != keys'[b] {
            if b < |keys| { assert keys'[a] == keys[a] && keys'[b] == keys[b]; }
            else { assert keys'[a] == keys[a]; }
          }
        }
        InsertOrderAppends(keys', found[1..]);
        UnseenSkipsAbsent(keys, f, found[1..]);
      }
      forall s ensures s in found <==> s == f || s in found[1..] {
        assert found == [f] + found[1..];
      }
    }
  }

  /** Assigning serials that are all present already changes no order. */
  lemma {:induction false} InsertOrderPresent(keys: seq<Serial>, found: seq<Serial>)
    requires forall s | s in found :: s in keys
    ensures InsertOrder(keys, found) == keys
  {
    if |found| > 0 {
      assert found[0] in found;
      assert forall s | s in found[1..] :: s in found;
      InsertOrderPresent(keys, found[1..]);
    }
  }

  /** Assigning the same discovered serials a second time changes no order. */
  lemma InsertOrderIdempotent(keys: seq<Serial>, found: seq<Serial>)
    requires Distinct(keys) && Distinct(found)
    ensures InsertOrder(InsertOrder(keys, found), found) == InsertOrder(keys, found)
  {
    InsertOrderAppends(keys, found);
    InsertOrderPresent(InsertOrder(keys, found), found);
  }

  /** The first loop of `rescan` on one existing record: update it if discovered, remove it otherwise. */
  function Refreshed(s: Serial, r: DriveRecord, snap: Snapshot, mounted: set<Serial>): DriveRecord
  {
    if s in snap.paths then Updated(r, snap.paths[s], s in mounted) else MarkRemoved(r)
  }

  /** The records after `rescan`: existing ones refreshed, newly discovered ones admitted. */
  function Reconciled(v: View, snap: Snapshot, mounted: set<Serial>): (w: View)
    ensures w.Keys == v.Keys + snap.paths.Keys
  {
    map s | s in v.Keys + snap.paths.Keys ::
      if s in v then Refreshed(s, v[s], snap, mounted) else NewRecord(snap.paths[s], s in mounted)
  }

  /** The records after `scan`: every discovered serial gets a new record, the others are left alone. */
  function Scanned(v: View, snap: Snapshot, mounted: set<Serial>): (w: View)
    ensures w.Keys == v.Keys + snap.paths.Keys
  {
    map s | s in v.Keys + snap.paths.Keys ::
      if s in snap.paths then NewRecord(snap.paths[s], s in mounted) else v[s]
  }

  /** `rescan`'s first loop part way: the records of the serials in `done` are refreshed. */
  function RefreshedSome(v: View, done: seq<Serial>, snap: Snapshot, mounted: set<Serial>): (w: View)
    ensures w.Keys == v.Keys
  {
    map s | s in v :: if s in done then Refreshed(s, v[s], snap, mounted) else v[s]
  }

  lemma RefreshedSomeNext(v: View, order: seq<Serial>, i: nat, snap: Snapshot, mounted: set<Serial>)
    requires Distinct(order) && i < |order| && order[i] in v
    ensures var w := RefreshedSome(v, order[..i], snap, mounted);
      RefreshedSome(v, order[..i + 1], snap, mounted) == w[order[i] := Refreshed(order[i], w[order[i]], snap, mounted)]
  {
    assert order[..i + 1] == order[..i] + [order[i]];
    assert order[i] !in order[..i];
  }

  /** A loop over the found serials part way: those in `found` have been given new records. */
  function ScannedSome(v: View, found: seq<Serial>, snap: Snapshot, mounted: set<Serial>): (w: View)
    requires forall s | s in found :: s in snap.paths
    ensures w.Keys == v.Keys + set s | s in found
  {
    map s | s in v.Keys + (set s | s in found) ::
      if s in found then NewRecord(snap.paths[s], s in mounted) else v[s]
  }

  lemma ScannedSomeNext(v: View, found: seq<Serial>, j: nat, snap: Snapshot, mounted: set<Serial>)
    requires j < |found| && forall s | s in found :: s in snap.paths
    ensures ScannedSome(v, found[..j + 1], snap, mounted)
      == ScannedSome(v, found[..j], snap, mounted)[found[j] := NewRecord(snap.paths[found[j]], found[j] in mounted)]
    ensures found[j..][1..] == found[j + 1..]
  {
    assert found[..j + 1] == found[..j] + [found[j]];
    var a := ScannedSome(v, found[..j + 1], snap, mounted);
    var b := ScannedSome(v, found[..j], snap, mounted)[found[j] := NewRecord(snap.paths[found[j]], found[j] in mounted)];
    assert a.Keys == b.Keys;
  }

  lemma ScannedSomeAll(v: View, snap: Snapshot, mounted: set<Serial>)
    requires snap.WellFormed()
    ensures ScannedSome(v, snap.serials, snap, mounted) == Scanned(v, snap, mounted)
  {
    assert ScannedSome(v, snap.serials, snap, mounted).Keys == Scanned(v, snap, mounted).Keys;
  }

  /** A loop over the found serials part way: those in `found` and not yet present have been admitted. */
  function AdmittedSome(v: View, found: seq<Serial>, snap: Snapshot, mounted: set<Serial>): (w: View)
    requires forall s | s in found :: s in snap.paths
    ensures w.Keys == v.Keys + set s | s in found
  {
    map s | s in v.Keys + (set s | s in found) ::
      if s in v then v[s] else NewRecord(snap.paths[s], s in mounted)
  }

  lemma AdmittedSomeNext(v: View, found: seq<Serial>, j: nat, snap: Snapshot, mounted: set<Serial>)
    requires j < |found| && forall s | s in found :: s in snap.paths
    ensures var w := AdmittedSome(v, found[..j], snap, mounted);
      AdmittedSome(v, found[..j + 1], snap, mounted)
        == if found[j] in w then w else w[found[j] := NewRecord(snap.paths[found[j]], found[j] in mounted)]
    ensures found[j..][1..] == found[j + 1..]
  {
    assert found[..j + 1] == found[..j] + [found[j]];
    var w := AdmittedSome(v, found[..j], snap, mounted);
    var a := AdmittedSome(v, found[..j + 1], snap, mounted);
    assert a.Keys == w.Keys + {found[j]};
  }

  /** The two loops of `rescan` together give `Reconciled`. */
  lemma RescanStagesReconcile(v: View, done: seq<Serial>, snap: Snapshot, mounted: set<Serial>)
    requires snap.WellFormed() && forall s :: s in done <==> s in v
    ensures AdmittedSome(RefreshedSome(v, done, snap, mounted), snap.serials, snap, mounted)
      == Reconciled(v, snap, mounted)
  {
    var a := AdmittedSome(RefreshedSome(v, done, snap, mounted), snap.serials, snap, mounted);
    assert a.Keys == Reconciled(v, snap, mounted).Keys;
  }

  /**
   * After `rescan` every record is consistent; a discovered serial has the
   * discovered path and is mounted exactly when the mount table lists it; a
   * serial that was not discovered is removed; no history flag changes, and
   * a serial seen for the first time has none.
   */
  lemma ReconciledRecords(v: View, snap: Snapshot, mounted: set<Serial>, s: Serial)
    requires s in Reconciled(v, snap, mounted)
    ensures var r := Reconciled(v, snap, mounted)[s];
      && Consistent(r)
      && (s in snap.paths ==> r.path == Some(snap.paths[s]) && r.mounted == (s in mounted) && !r.removed)
      && (s !in snap.paths ==> r.removed && r.path == None && !r.mounted)
      && (s in v ==> SameHistory(r, v[s]))
      && (s !in v ==> NoHistory(r))
  {
  }

  /** Running `rescan` twice on the same discovery gives what running it once gives. */
  lemma ReconciledIdempotent(v: View, snap: Snapshot, mounted: set<Serial>)
    ensures Reconciled(Reconciled(v, snap, mounted), snap, mounted) == Reconciled(v, snap, mounted)
  {
  }

  /** `scan` and `rescan` leave every record consistent and drop no serial. */
  lemma RescanKeepsConsistent(v: View, snap: Snapshot, mounted: set<Serial>)
    requires AllConsistent(v)
    ensures AllConsistent(Scanned(v, snap, mounted)) && v.Keys <= Scanned(v, snap, mounted).Keys
    ensures AllConsistent(Reconciled(v, snap, mounted)) && v.Keys <= Reconciled(v, snap, mounted).Keys
  {
    forall s | s in Reconciled(v, snap, mounted) ensures Consistent(Reconciled(v, snap, mounted)[s]) {
      ReconciledRecords(v, snap, mounted, s);
    }
  }

  /** On an empty registry `scan` and `rescan` agree. */
  lemma ScanAgreesInitially(snap: Snapshot, mounted: set<Serial>)
    ensures Scanned(map[], snap, mounted) == Reconciled(map[], snap, mounted)
  {
  }

  /**
   * `scan` overwrites: a rediscovered serial gets the record `rescan` would
   * give it exactly when it had no history to lose.
   */
  lemma ScanLosesHistory(v: View, snap: Snapshot, mounted: set<Serial>, s: Serial)
    requires s in v && s in snap.paths
    ensures Scanned(v, snap, mounted)[s] == Reconciled(v, snap, mounted)[s] <==> NoHistory(v[s])
  {
  }

  /**
   * A failed device walk yields the empty snapshot: `rescan` then marks
   * every drive removed and keeps its history, while `scan` changes nothing.
   */
  lemma FailedDiscoveryRemovesAll(v: View, mounted: set<Serial>)
    ensures Reconciled(v, Snapshot([], map[]), mounted) == map s | s in v :: MarkRemoved(v[s])
    ensures Scanned(v, Snapshot([], map[]), mounted) == v
  {
  }

  /** One discovery pass: the snapshot and the serials found mounted. */
  datatype Discovery = Discovery(snap: Snapshot, mounted: set<Serial>)

  /** The records after a series of rescans. */
  function RescanAll(v: View, passes: seq<Discovery>): View
    decreases |passes|
  {
    if |passes| == 0 then v
    else RescanAll(Reconciled(v, passes[0].snap, passes[0].mounted), passes[1..])
  }

  /**
   * Over any series of rescans no serial is ever lost, every serial ever
   * discovered is present, and no drive's erase or test history changes.
   */
  lemma {:induction false} RescansNeverForget(v: View, passes: seq<Discovery>)
    ensures v.Keys <= RescanAll(v, passes).Keys
    ensures forall i, s | 0 <= i < |passes| && s in passes[i].snap.paths :: s in RescanAll(v, passes)
    ensures forall s | s in v :: SameHistory(RescanAll(v, passes)[s], v[s])
    decreases |passes|
  {
    if |passes| > 0 {
      var next := Reconciled(v, passes[0].snap, passes[0].mounted);
      RescansNeverForget(next, passes[1..]);
      forall i, s | 0 <= i < |passes| && s in passes[i].snap.paths ensures s in RescanAll(v, passes) {
        if i > 0 {
          assert passes[1..][i - 1] == passes[i];
        }
      }
      forall s | s in v ensures SameHistory(RescanAll(v, passes)[s], v[s]) {
        assert SameHistory(next[s], v[s]);
      }
    }
  }
}
