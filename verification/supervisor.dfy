/**
 * The bookkeeping state of shredmeister.py: the module-level `all_drives`
 * dict and the three operation lists, with the operations that change them.
 * Discovery results, poll results and new handles come in as parameters;
 * processes, timers, threads and the window are not modelled.
 */
module Supervisor {
  import opened Base
  import opened Records
  import opened Operations
  import opened Reconcile

  class Registry {
    /** The keys of `all_drives` in insertion order. */
    var keys: seq<Serial>
    /** `all_drives`: one Drive object per serial. */
    var drives: map<Serial, Drive>
    /** `subproc_list`: erase processes. */
    var erasing: seq<Entry>
    /** `timer_list_short`: short self-test timers. */
    var shortTimers: seq<Entry>
    /** `timer_list_extended`: extended self-test timers. */
    var longTimers: seq<Entry>

    /**
     * The dict's order lists each key once; each Drive carries its own key,
     * so no object serves two serials; every record is consistent; every
     * list item names a registered drive and carries its own handle.
     */
    ghost predicate Valid()
      reads this, drives.Values
    {
      Indexed() && ListsValid() && RecordsConsistent()
    }

    /** `keys` is the dict's order and each Drive sits under its own serial. */
    ghost predicate Indexed()
      reads this`keys, this`drives
    {
      && Distinct(keys)
      && (forall s :: s in keys <==> s in drives)
      && (forall s | s in drives :: drives[s].serial == s)
    }

    /** Every list item names a registered drive, and no item occurs twice. */
    ghost predicate ListsValid()
      reads this
    {
      && (forall e | e in erasing :: e.serial in drives)
      && (forall e | e in shortTimers :: e.serial in drives)
      && (forall e | e in longTimers :: e.serial in drives)
      && Distinct(erasing) && Distinct(shortTimers) && Distinct(longTimers)
    }

    ghost predicate RecordsConsistent()
      reads this`drives, drives.Values
    {
      AllConsistent(View())
    }

    /** The records of all drives, keyed by serial. */
    function View(): (v: View)
      reads this`drives, drives.Values
      ensures v.Keys == drives.Keys
    {
      map s | s in drives :: drives[s].Record()
    }

    /**
     * The view after a change confined to the Drive under one serial, which
     * may be new: every other serial keeps its object, and that object is
     * unchanged.
     */
    twostate lemma ViewUpdate(s: Serial)
      requires s in drives && drives.Keys == old(drives).Keys + {s}
      requires forall t | t in old(drives) && t != s :: drives[t] == old(drives[t]) && unchanged(drives[t])
      ensures View() == old(View())[s := drives[s].Record()]
    {
    }

    /** The state before the first scan: no drives and nothing running. */
    constructor ()
      ensures Valid()
      ensures keys == [] && drives == map[] && erasing == [] && shortTimers == [] && longTimers == []
    {
      keys := [];
      drives := map[];
      erasing := [];
      shortTimers := [];
      longTimers := [];
    }

    /**
     * `all_drives[serial] = Drive(serial, path, mounted)`: a new Drive goes
     * under the serial, which joins the end of the order unless it was
     * already there.
     */
    method Admit(serial: Serial, path: Path, mounted: bool)
      requires Indexed()
      modifies this
      ensures Indexed()
      ensures serial in drives && fresh(drives[serial])
      ensures drives == old(drives)[serial := drives[serial]]
      ensures keys == if serial in old(drives) then old(keys) else old(keys) + [serial]
      ensures View() == old(View())[serial := NewRecord(path, mounted)]
      ensures erasing == old(erasing) && shortTimers == old(shortTimers) && longTimers == old(longTimers)
    {
      var d := new Drive(serial, path, mounted);
      if serial !in drives {
        DistinctAppend(keys, serial);
        keys := keys + [serial];
      }
      drives := drives[serial := d];
      ViewUpdate(serial);
    }

    /**
     * `scan`: every discovered serial gets a new Drive (an existing entry is
     * overwritten in place in the order); nothing else changes.
     */
    method Scan(snap: Snapshot, mounted: set<Serial>)
      requires Valid() && snap.WellFormed()
      modifies this
      ensures Valid()
      ensures keys == InsertOrder(old(keys), snap.serials)
      ensures View() == Scanned(old(View()), snap, mounted)
      ensures forall s | s in old(drives) && s !in snap.paths :: s in drives && drives[s] == old(drives)[s]
      ensures erasing == old(erasing) && shortTimers == old(shortTimers) && longTimers == old(longTimers)
    {
      ghost var before := View();
      if |snap.serials| > 0 {
        AdmitEach(snap, mounted);
      } else {
        assert snap.serials[..0] == snap.serials;
      }
      ScannedSomeAll(before, snap, mounted);
      RescanKeepsConsistent(before, snap, mounted);
    }

    /** The loop of `scan`: a new Drive for each discovered serial, in discovery order. */
    method AdmitEach(snap: Snapshot, mounted: set<Serial>)
      requires Indexed() && snap.WellFormed()
      modifies this
      ensures Indexed()
      ensures keys == InsertOrder(old(keys), snap.serials)
      ensures View() == ScannedSome(old(View()), snap.serials, snap, mounted)
      ensures SameOutside(old(drives), drives, snap.paths.Keys)
      ensures erasing == old(erasing) && shortTimers == old(shortTimers) && longTimers == old(longTimers)
    {
      ghost var before := View();
      for j := 0 to |snap.serials|
        invariant InsertOrder(keys, snap.serials[j..]) == InsertOrder(old(keys), snap.serials)
        invariant Indexed()
        invariant View() == ScannedSome(before, snap.serials[..j], snap, mounted)
        invariant SameOutside(old(drives), drives, snap.paths.Keys)
        invariant erasing == old(erasing) && shortTimers == old(shortTimers) && longTimers == old(longTimers)
      {
        var s := snap.serials[j];
        ScannedSomeNext(before, snap.serials, j, snap, mounted);
        ghost var prev := drives;
        Admit(s, snap.paths[s], s in mounted);
        SameOutsideUpdate(old(drives), prev, snap.paths.Keys, s, drives[s]);
      }
      assert snap.serials[..|snap.serials|] == snap.serials;
    }

    /**
     * The body of `rescan`'s first loop for one registered serial: the drive
     * is updated if discovered and removed otherwise.
     */
    method Refresh(serial: Serial, snap: Snapshot, mounted: set<Serial>)
      requires Indexed() && serial in drives
      modifies drives[serial]
      ensures View() == old(View())[serial := Refreshed(serial, old(View())[serial], snap, mounted)]
    {
      if serial !in snap.paths {
        drives[serial].Remove();
      } else {
        drives[serial].Update(snap.paths[serial], serial in mounted);
      }
      ViewUpdate(serial);
    }

    /** The first loop of `rescan`: every registered drive is refreshed in the dict's order. */
    method RefreshAll(snap: Snapshot, mounted: set<Serial>)
      requires Indexed()
      modifies drives.Values
      ensures View() == RefreshedSome(old(View()), keys, snap, mounted)
    {
      ghost var before := View();
      for i := 0 to |keys|
        invariant View() == RefreshedSome(before, keys[..i], snap, mounted)
      {
        Refresh(keys[i], snap, mounted);
        RefreshedSomeNext(before, keys, i, snap, mounted);
      }
      assert keys[..|keys|] == keys;
    }

    /**
     * The second loop of `rescan`: each discovered serial not registered yet
     * gets a new Drive at the end of the order; registered drives keep their
     * objects.
     */
    method AdmitNew(snap: Snapshot, mounted: set<Serial>)
      requires Indexed() && snap.WellFormed()
      modifies this
      ensures Indexed()
      ensures keys == InsertOrder(old(keys), snap.serials)
      ensures View() == AdmittedSome(old(View()), snap.serials, snap, mounted)
      ensures forall s | s in old(drives) :: s in drives && drives[s] == old(drives)[s]
      ensures erasing == old(erasing) && shortTimers == old(shortTimers) && longTimers == old(longTimers)
    {
      ghost var before := View();
      for j := 0 to |snap.serials|
        invariant InsertOrder(keys, snap.serials[j..]) == InsertOrder(old(keys), snap.serials)
        invariant Indexed()
        invariant View() == AdmittedSome(before, snap.serials[..j], snap, mounted)
        invariant forall s | s in old(drives) :: s in drives && drives[s] == old(drives)[s]
        invariant erasing == old(erasing) && shortTimers == old(shortTimers) && longTimers == old(longTimers)
      {
        var s := snap.serials[j];
        AdmittedSomeNext(before, snap.serials, j, snap, mounted);
        if s !in drives {
          Admit(s, snap.paths[s], s in mounted);
        }
      }
      assert snap.serials[..|snap.serials|] == snap.serials;
    }

    /**
     * `rescan`: every known drive is updated if discovered and removed
     * otherwise, keeping its object and its history; newly discovered serials
     * are appended with new Drives. No drive is ever dropped.
     */
    method Rescan(snap: Snapshot, mounted: set<Serial>)
      requires Valid() && snap.WellFormed()
      modifies this, drives.Values
      ensures Valid()
      ensures keys == InsertOrder(old(keys), snap.serials)
      ensures View() == Reconciled(old(View()), snap, mounted)
      ensures forall s | s in old(drives) :: s in drives && drives[s] == old(drives)[s]
      ensures erasing == old(erasing) && shortTimers == old(shortTimers) && longTimers == old(longTimers)
    {
      ghost var before := View();
      RefreshAll(snap, mounted);
      AdmitNew(snap, mounted);
      RescanStagesReconcile(before, old(keys), snap, mounted);
      RescanKeepsConsistent(before, snap, mounted);
    }

    /** The Erase button: append an item for the new erase process; nothing is rejected. */
    method StartErase(serial: Serial, process: Handle)
      requires Valid() && serial in drives
      requires forall e | e in erasing :: e.handle != process
      modifies this
      ensures Valid()
      ensures erasing == old(erasing) + [Entry(serial, process)]
      ensures keys == old(keys) && drives == old(drives) && View() == old(View())
      ensures shortTimers == old(shortTimers) && longTimers == old(longTimers)
    {
      erasing := erasing + [Entry(serial, process)];
      DistinctAppend(old(erasing), Entry(serial, process));
    }

    /**
     * The Short Test button: the timer is armed for the drive's short-test
     * estimate and its item is appended; nothing is rejected.
     */
    method StartShortTest(serial: Serial, timer: Handle, pollingMinutes: Option<nat>) returns (eta: nat)
      requires Valid() && serial in drives
      requires forall e | e in shortTimers :: e.handle != timer
      modifies this
      ensures Valid()
      ensures eta == SelfTestDelay(pollingMinutes)
      ensures shortTimers == old(shortTimers) + [Entry(serial, timer)]
      ensures keys == old(keys) && drives == old(drives) && View() == old(View())
      ensures erasing == old(erasing) && longTimers == old(longTimers)
    {
      eta := SelfTestDelay(pollingMinutes);
      shortTimers := shortTimers + [Entry(serial, timer)];
      DistinctAppend(old(shortTimers), Entry(serial, timer));
    }

    /** The Long Test button: as the short test, with the extended estimate and list. */
    method StartLongTest(serial: Serial, timer: Handle, pollingMinutes: Option<nat>) returns (eta: nat)
      requires Valid() && serial in drives
      requires forall e | e in longTimers :: e.handle != timer
      modifies this
      ensures Valid()
      ensures eta == SelfTestDelay(pollingMinutes)
      ensures longTimers == old(longTimers) + [Entry(serial, timer)]
      ensures keys == old(keys) && drives == old(drives) && View() == old(View())
      ensures erasing == old(erasing) && shortTimers == old(shortTimers)
    {
      eta := SelfTestDelay(pollingMinutes);
      longTimers := longTimers + [Entry(serial, timer)];
      DistinctAppend(old(longTimers), Entry(serial, timer));
    }

    /** `all_drives[serial].erased = True` */
    method MarkErased(serial: Serial)
      requires Indexed() && serial in drives
      modifies drives[serial]
      ensures View() == old(View())[serial := old(View())[serial].(erased := true)]
    {
      drives[serial].erased := true;
      ViewUpdate(serial);
    }

    /**
     * The loop of the completion poller over a copy of the erase list: each
     * examined item whose process has exited is removed, and its drive is
     * marked erased when the exit code is 0. Items are examined as Python's
     * list iterator does while the list shrinks under it.
     */
    method SweepErasures(poll: Handle -> Option<int>) returns (l: seq<Entry>)
      requires Indexed() && Distinct(erasing) && forall e | e in erasing :: e.serial in drives
      modifies drives.Values
      ensures l == Sweep(erasing, FinishedBy(poll))
      ensures View() == ErasedAfter(old(View()), Swept(erasing, FinishedBy(poll)), poll)
    {
      ghost var before := View();
      ghost var finished: seq<Entry> := [];
      ghost var w := before;
      l := erasing;
      SweepStateStart(erasing, FinishedBy(poll));
      var i := 0;
      while i < |l|
        invariant SweepState(erasing, l, i, FinishedBy(poll), finished)
        invariant View() == w
        invariant w == ErasedAfter(before, finished, poll)
        decreases |l| + 1 - i
      {
        var item := l[i];
        var exitcode := poll(item.handle);
        if exitcode.Some? {
          if exitcode.value == 0 {
            MarkErased(item.serial);
            w := w[item.serial := w[item.serial].(erased := true)];
          }
          ErasedAfterAppend(before, finished, item, poll);
          SweepStateRemove(erasing, l, i, FinishedBy(poll), finished);
          l := RemoveFirst(l, item);
          finished := finished + [item];
        } else {
          SweepStateKeep(erasing, l, i, FinishedBy(poll), finished);
        }
        i := i + 1;
      }
      SweepStateEnd(erasing, l, i, FinishedBy(poll), finished);
    }

    /**
     * One pass of the completion poller: the finished items leave the erase
     * list and the drives whose process exited with code 0 are marked erased.
     */
    method PollErasures(poll: Handle -> Option<int>)
      requires Valid()
      modifies this, drives.Values
      ensures Valid()
      ensures erasing == Sweep(old(erasing), FinishedBy(poll))
      ensures View() == ErasedAfter(old(View()), Swept(old(erasing), FinishedBy(poll)), poll)
      ensures keys == old(keys) && drives == old(drives)
      ensures shortTimers == old(shortTimers) && longTimers == old(longTimers)
    {
      erasing := SweepErasures(poll);
      SweepDistinct(old(erasing), FinishedBy(poll));
      ErasedAfterKeepsConsistent(old(View()), Swept(old(erasing), FinishedBy(poll)), poll);
    }

    /** `all_drives[serial].short_tested = True` */
    method SetShortTested(serial: Serial)
      requires Indexed() && serial in drives
      modifies drives[serial]
      ensures View() == old(View())[serial := old(View())[serial].(shortTested := true)]
    {
      drives[serial].shortTested := true;
      ViewUpdate(serial);
    }

    /** `all_drives[serial].long_tested = True` */
    method SetLongTested(serial: Serial)
      requires Indexed() && serial in drives
      modifies drives[serial]
      ensures View() == old(View())[serial := old(View())[serial].(longTested := true)]
    {
      drives[serial].longTested := true;
      ViewUpdate(serial);
    }

    /** The loop of `mark_short_tested`: the serial's timers leave the short list as Python's iterator lets them. */
    method DropShortTimers(serial: Serial)
      requires Distinct(shortTimers)
      modifies this`shortTimers
      ensures shortTimers == Sweep(old(shortTimers), ForSerial(serial))
      ensures Distinct(shortTimers) && forall e | e in shortTimers :: e in old(shortTimers)
    {
      shortTimers := RemoveWhileIterating(shortTimers, ForSerial(serial));
      SweepDistinct(old(shortTimers), ForSerial(serial));
    }

    /** The loop of `mark_long_tested`, on the extended list. */
    method DropLongTimers(serial: Serial)
      requires Distinct(longTimers)
      modifies this`longTimers
      ensures longTimers == Sweep(old(longTimers), ForSerial(serial))
      ensures Distinct(longTimers) && forall e | e in longTimers :: e in old(longTimers)
    {
      longTimers := RemoveWhileIterating(longTimers, ForSerial(serial));
      SweepDistinct(old(longTimers), ForSerial(serial));
    }

    /** `mark_short_tested`: the flag is set whatever the test found, and the serial's items leave the short list. */
    method MarkShortTested(serial: Serial)
      requires Valid() && serial in drives
      modifies this, drives[serial]
      ensures Valid()
      ensures View() == old(View())[serial := old(View())[serial].(shortTested := true)]
      ensures shortTimers == Sweep(old(shortTimers), ForSerial(serial))
      ensures keys == old(keys) && drives == old(drives)
      ensures erasing == old(erasing) && longTimers == old(longTimers)
    {
      SetShortTested(serial);
      DropShortTimers(serial);
      HistoryKeepsConsistent(old(View()), serial, View()[serial]);
    }

    /** `mark_long_tested`: as above for the extended flag and list. */
    method MarkLongTested(serial: Serial)
      requires Valid() && serial in drives
      modifies this, drives[serial]
      ensures Valid()
      ensures View() == old(View())[serial := old(View())[serial].(longTested := true)]
      ensures longTimers == Sweep(old(longTimers), ForSerial(serial))
      ensures keys == old(keys) && drives == old(drives)
      ensures erasing == old(erasing) && shortTimers == old(shortTimers)
    {
      SetLongTested(serial);
      DropLongTimers(serial);
      HistoryKeepsConsistent(old(View()), serial, View()[serial]);
    }
  }

  /** Every serial of `before` outside `found` keeps its Drive object in `after`. */
  ghost predicate SameOutside(before: map<Serial, Drive>, after: map<Serial, Drive>, found: set<Serial>)
  {
    forall s | s in before && s !in found :: s in after && after[s] == before[s]
  }

  lemma SameOutsideUpdate(before: map<Serial, Drive>, after: map<Serial, Drive>, found: set<Serial>,
                          k: Serial, d: Drive)
    requires SameOutside(before, after, found) && k in found
    ensures SameOutside(before, after[k := d], found)
  {
  }
}
