/**
 * The operation lists of shredmeister.py: `subproc_list` (erase processes),
 * `timer_list_short` and `timer_list_extended` (self-test timers). Each holds
 * (serial, handle) pairs. Entries leave a list inside a Python `for` loop that
 * calls `list.remove` on the list it iterates, which skips the element right
 * after a removed one; `Sweep` states that behaviour and `RemoveWhileIterating`
 * performs it step by step.
 */
module Operations {
  import opened Base
  import opened Records

  /** An opaque process or timer handle; each start creates a fresh one. */
  type Handle = nat

  /** One list item `[serial, handle]`. */
  datatype Entry = Entry(serial: Serial, handle: Handle)

  /** `serial in item`: the item belongs to the serial. */
  function ForSerial(s: Serial): Entry -> bool
  {
    (e: Entry) => e.serial == s
  }

  /** The item's process has exited according to `poll`. */
  function FinishedBy(poll: Handle -> Option<int>): Entry -> bool
  {
    (e: Entry) => poll(e.handle).Some?
  }

  /** Some entry of the list belongs to the serial. */
  predicate Tracked(l: seq<Entry>, s: Serial)
  {
    exists i | 0 <= i < |l| :: l[i].serial == s
  }

  /** `is_in_sublist(thing, biglist)`: does some item contain the serial? */
  method IsInSublist(thing: Serial, biglist: seq<Entry>) returns (found: bool)
    ensures found <==> Tracked(biglist, thing)
  {
    for i := 0 to |biglist|
      invariant forall k | 0 <= k < i :: biglist[k].serial != thing
    {
      if biglist[i].serial == thing {
        return true;
      }
    }
    return false;
  }

  /** The entries of the list for which `keep` holds, in order. */
  function Selected<T>(l: seq<T>, keep: T -> bool): (r: seq<T>)
    ensures forall x | x in r :: x in l && keep(x)
  {
    if |l| == 0 then []
    else if keep(l[0]) then [l[0]] + Selected(l[1..], keep)
    else Selected(l[1..], keep)
  }

  /** The entries of the list for which `leaves` does not hold, in order. */
  function Staying<T>(l: seq<T>, leaves: T -> bool): (r: seq<T>)
    ensures forall x | x in r :: x in l && !leaves(x)
  {
    if |l| == 0 then []
    else if leaves(l[0]) then Staying(l[1..], leaves)
    else [l[0]] + Staying(l[1..], leaves)
  }

  /** `list.remove(x)`: drop the first element equal to x. */
  function RemoveFirst<T(==)>(l: seq<T>, x: T): seq<T>
  {
    if |l| == 0 then []
    else if l[0] == x then l[1..]
    else [l[0]] + RemoveFirst(l[1..], x)
  }

  /** In a list without repeats, removing the element at i by value removes exactly position i. */
  lemma {:induction false} RemoveFirstAt<T>(l: seq<T>, i: nat)
    requires Distinct(l) && i < |l|
    ensures RemoveFirst(l, l[i]) == l[..i] + l[i + 1..]
  {
    if i > 0 {
      assert l[0] != l[i];
      assert l[1..][i - 1] == l[i];
      RemoveFirstAt(l[1..], i - 1);
      assert l[1..][..i - 1] == l[1..i];
      assert l[1..][i..] == l[i + 1..];
      assert [l[0]] + l[1..i] == l[..i];
    }
  }

  /**
   * What survives `for item in l: if leaves(item): l.remove(item)`: an item
   * that leaves is removed and the item after it is skipped, so it stays
   * whether or not it would leave.
   */
  function Sweep<T>(l: seq<T>, leaves: T -> bool): seq<T>
  {
    if |l| == 0 then []
    else if !leaves(l[0]) then [l[0]] + Sweep(l[1..], leaves)
    else if |l| == 1 then []
    else [l[1]] + Sweep(l[2..], leaves)
  }

  /** The items that the same loop examined and removed, in order. */
  function Swept<T>(l: seq<T>, leaves: T -> bool): (r: seq<T>)
    ensures forall x | x in r :: x in l && leaves(x)
  {
    if |l| == 0 then []
    else if !leaves(l[0]) then Swept(l[1..], leaves)
    else if |l| == 1 then [l[0]]
    else [l[0]] + Swept(l[2..], leaves)
  }

  /** Nothing is lost or invented: the survivors and the removed items together are the list. */
  lemma {:induction false} SweepPartitions<T>(l: seq<T>, leaves: T -> bool)
    ensures multiset(Sweep(l, leaves)) + multiset(Swept(l, leaves)) == multiset(l)
  {
    if |l| == 0 {
    } else if !leaves(l[0]) {
      SweepPartitions(l[1..], leaves);
      PartitionsKeepHead(l, leaves);
    } else if |l| == 1 {
    } else {
      SweepPartitions(l[2..], leaves);
      PartitionsDropHead(l, leaves);
    }
  }

  /** The step of `SweepPartitions` for a head that stays. */
  lemma PartitionsKeepHead<T>(l: seq<T>, leaves: T -> bool)
    requires |l| > 0 && !leaves(l[0])
    requires multiset(Sweep(l[1..], leaves)) + multiset(Swept(l[1..], leaves)) == multiset(l[1..])
    ensures multiset(Sweep(l, leaves)) + multiset(Swept(l, leaves)) == multiset(l)
  {
    assert l == [l[0]] + l[1..];
  }

  /** The step of `SweepPartitions` for a head that leaves, skipping the item after it. */
  lemma PartitionsDropHead<T>(l: seq<T>, leaves: T -> bool)
    requires |l| > 1 && leaves(l[0])
    requires multiset(Sweep(l[2..], leaves)) + multiset(Swept(l[2..], leaves)) == multiset(l[2..])
    ensures multiset(Sweep(l, leaves)) + multiset(Swept(l, leaves)) == multiset(l)
  {
    var a, b, rest := l[0], l[1], l[2..];
    assert Sweep(l, leaves) == [b] + Sweep(rest, leaves);
    assert Swept(l, leaves) == [a] + Swept(rest, leaves);
    var m := l[1..];
    assert l == [a] + m;
    assert m == [m[0]] + m[1..];
    assert m[0] == b && m[1..] == rest;
    calc {
      multiset(l);
      multiset([a]) + multiset(m);
      multiset([a]) + (multiset([b]) + multiset(rest));
    }
  }

  /** Every item that does not leave survives, and the survivors of that kind keep their order. */
  lemma {:induction false} SweepKeepsStayers<T>(l: seq<T>, leaves: T -> bool)
    ensures Staying(Sweep(l, leaves), leaves) == Staying(l, leaves)
  {
    if |l| == 0 {
    } else if !leaves(l[0]) {
      SweepKeepsStayers(l[1..], leaves);
      assert ([l[0]] + Sweep(l[1..], leaves))[1..] == Sweep(l[1..], leaves);
    } else if |l| == 1 {
    } else {
      SweepKeepsStayers(l[2..], leaves);
      assert ([l[1]] + Sweep(l[2..], leaves))[1..] == Sweep(l[2..], leaves);
      assert l[1..][1..] == l[2..];
    }
  }

  /** Two neighbouring items that would both leave. */
  predicate AdjacentLeavers<T>(l: seq<T>, leaves: T -> bool)
  {
    exists i | 0 <= i < |l| - 1 :: leaves(l[i]) && leaves(l[i + 1])
  }

  /**
   * The loop removes every leaving item exactly when no two leaving items are
   * neighbours; otherwise some leaving item is skipped and stays.
   */
  lemma {:induction false} SweepRemovesAllIff<T>(l: seq<T>, leaves: T -> bool)
    ensures Sweep(l, leaves) == Staying(l, leaves) <==> !AdjacentLeavers(l, leaves)
    ensures !AdjacentLeavers(l, leaves) ==> Swept(l, leaves) == Selected(l, leaves)
  {
    if |l| == 0 {
    } else if !leaves(l[0]) {
      SweepRemovesAllIff(l[1..], leaves);
      AdjacentShift(l, leaves, 1);
      if Sweep(l, leaves) == Staying(l, leaves) {
        assert Sweep(l[1..], leaves) == Sweep(l, leaves)[1..];
      }
    } else if |l| == 1 {
    } else if leaves(l[1]) {
      assert AdjacentLeavers(l, leaves) by { assert leaves(l[0]) && leaves(l[1]); }
      assert l[1] in Sweep(l, leaves);
      if Sweep(l, leaves) == Staying(l, leaves) {
        assert false;
      }
    } else {
      SweepRemovesAllIff(l[2..], leaves);
      AdjacentShift(l, leaves, 2);
      assert Staying(l, leaves) == [l[1]] + Staying(l[2..], leaves) by {
        assert l[1..][0] == l[1] && l[1..][1..] == l[2..];
      }
      assert Selected(l, leaves) == [l[0]] + Selected(l[2..], leaves) by {
        assert l[1..][0] == l[1] && l[1..][1..] == l[2..];
      }
      if Sweep(l, leaves) == Staying(l, leaves) {
        assert Sweep(l[2..], leaves) == Sweep(l, leaves)[1..];
      }
    }
  }

  /** Two neighbouring leaving items are two selected items. */
  lemma {:induction false} AdjacentLeaversSelected<T>(l: seq<T>, leaves: T -> bool)
    requires AdjacentLeavers(l, leaves)
    ensures |Selected(l, leaves)| >= 2
  {
    var i :| 0 <= i < |l| - 1 && leaves(l[i]) && leaves(l[i + 1]);
    if i == 0 {
      assert l[1..][0] == l[1];
    } else {
      assert leaves(l[1..][i - 1]) && leaves(l[1..][i]);
      AdjacentLeaversSelected(l[1..], leaves);
    }
  }

  /** Dropping a non-leaving head (or a leaving head followed by a non-leaving item) keeps the adjacency question. */
  lemma AdjacentShift<T>(l: seq<T>, leaves: T -> bool, k: nat)
    requires 1 <= k <= 2 && k <= |l|
    requires k == 1 ==> !leaves(l[0])
    requires k == 2 ==> !leaves(l[1])
    ensures AdjacentLeavers(l, leaves) <==> AdjacentLeavers(l[k..], leaves)
  {
    if AdjacentLeavers(l, leaves) {
      var i :| 0 <= i < |l| - 1 && leaves(l[i]) && leaves(l[i + 1]);
      assert i >= k;
      assert leaves(l[k..][i - k]) && leaves(l[k..][i - k + 1]);
    }
    if AdjacentLeavers(l[k..], leaves) {
      var i :| 0 <= i < |l[k..]| - 1 && leaves(l[k..][i]) && leaves(l[k..][i + 1]);
      assert leaves(l[i + k]) && leaves(l[i + k + 1]);
    }
  }

  /**
   * The state of the loop below after it has examined the items before index
   * i of the current list r: the part before i is final, the rest will be
   * swept as the original would be, and `removed` holds what left so far.
   * Index i may pass the end by one, after the last item was removed.
   */
  ghost predicate SweepState<T>(l: seq<T>, r: seq<T>, i: nat, leaves: T -> bool, removed: seq<T>)
  {
    && i <= |r| + 1
    && Distinct(r) && (forall x | x in r :: x in l)
    && (i <= |r| ==>
         r[..i] + Sweep(r[i..], leaves) == Sweep(l, leaves) && removed + Swept(r[i..], leaves) == Swept(l, leaves))
    && (i == |r| + 1 ==> r == Sweep(l, leaves) && removed == Swept(l, leaves))
  }

  lemma SweepStateStart<T>(l: seq<T>, leaves: T -> bool)
    requires Distinct(l)
    ensures SweepState(l, l, 0, leaves, [])
  {
  }

  /** A turn of the loop that keeps the current item. */
  lemma SweepStateKeep<T>(l: seq<T>, r: seq<T>, i: nat, leaves: T -> bool, removed: seq<T>)
    requires SweepState(l, r, i, leaves, removed) && i < |r| && !leaves(r[i])
    ensures SweepState(l, r, i + 1, leaves, removed)
  {
    SweepStepKeep(r, i, leaves);
    SweptStep(r, i, leaves);
  }

  /** A turn of the loop that removes the current item by value. */
  lemma SweepStateRemove<T>(l: seq<T>, r: seq<T>, i: nat, leaves: T -> bool, removed: seq<T>)
    requires SweepState(l, r, i, leaves, removed) && i < |r| && leaves(r[i])
    ensures |RemoveFirst(r, r[i])| == |r| - 1
    ensures SweepState(l, RemoveFirst(r, r[i]), i + 1, leaves, removed + [r[i]])
  {
    var r' := r[..i] + r[i + 1..];
    RemoveFirstAt(r, i);
    DistinctWithout(r, i);
    SweepStepRemove(r, i, leaves);
    SweptStep(r, i, leaves);
    if i + 1 < |r| {
      calc {
        removed + [r[i]] + Swept(r'[i + 1..], leaves);
        removed + ([r[i]] + Swept(r'[i + 1..], leaves));
        Swept(l, leaves);
      }
    } else {
      assert r' == r[..i];
    }
  }

  lemma SweepStateEnd<T>(l: seq<T>, r: seq<T>, i: nat, leaves: T -> bool, removed: seq<T>)
    requires SweepState(l, r, i, leaves, removed) && i >= |r|
    ensures r == Sweep(l, leaves) && removed == Swept(l, leaves)
  {
    if i == |r| {
      assert r[..i] == r && r[i..] == [];
    }
  }

  /**
   * `for item in l: if leaves(item): l.remove(item)`, run on a list without
   * repeats (every item carries a fresh handle).
   */
  method RemoveWhileIterating<T(==)>(l: seq<T>, leaves: T -> bool) returns (r: seq<T>)
    requires Distinct(l)
    ensures r == Sweep(l, leaves)
  {
    r := l;
    var i := 0;
    ghost var removed: seq<T> := [];
    SweepStateStart(l, leaves);
    while i < |r|
      invariant SweepState(l, r, i, leaves, removed)
      decreases |r| + 1 - i
    {
      var item := r[i];
      if leaves(item) {
        SweepStateRemove(l, r, i, leaves, removed);
        r := RemoveFirst(r, item);
        removed := removed + [item];
      } else {
        SweepStateKeep(l, r, i, leaves, removed);
      }
      i := i + 1;
    }
    SweepStateEnd(l, r, i, leaves, removed);
  }

  /** Keeping the current item: the settled prefix grows by it. */
  lemma SweepStepKeep<T>(r: seq<T>, i: nat, leaves: T -> bool)
    requires i < |r| && !leaves(r[i])
    ensures r[..i + 1] + Sweep(r[i + 1..], leaves) == r[..i] + Sweep(r[i..], leaves)
  {
    assert r[i..][0] == r[i] && r[i..][1..] == r[i + 1..];
    assert r[..i + 1] == r[..i] + [r[i]];
  }

  /**
   * Removing the current item: its neighbour slides into its place and is
   * skipped, which is what `Sweep` does with the item after a leaving one.
   */
  lemma SweepStepRemove<T>(r: seq<T>, i: nat, leaves: T -> bool)
    requires i < |r| && leaves(r[i])
    ensures i + 1 < |r| ==>
      var r' := r[..i] + r[i + 1..];
      r'[..i + 1] + Sweep(r'[i + 1..], leaves) == r[..i] + Sweep(r[i..], leaves)
    ensures i + 1 == |r| ==> r[..i] == r[..i] + Sweep(r[i..], leaves)
  {
    if i + 1 < |r| {
      var r' := r[..i] + r[i + 1..];
      var t := r[i..];
      assert t[0] == r[i] && t[1] == r[i + 1] && t[2..] == r[i + 2..];
      assert Sweep(t, leaves) == [r[i + 1]] + Sweep(r[i + 2..], leaves);
      assert r'[..i + 1] == r[..i] + [r[i + 1]];
      assert r'[i + 1..] == r[i + 2..];
    } else {
      assert r[i..] == [r[i]];
    }
  }

  /** The removed items of the loop advance in step with the survivors. */
  lemma SweptStep<T>(r: seq<T>, i: nat, leaves: T -> bool)
    requires i < |r|
    ensures !leaves(r[i]) ==> Swept(r[i + 1..], leaves) == Swept(r[i..], leaves)
    ensures leaves(r[i]) && i + 1 < |r| ==>
      var r' := r[..i] + r[i + 1..];
      [r[i]] + Swept(r'[i + 1..], leaves) == Swept(r[i..], leaves)
    ensures leaves(r[i]) && i + 1 == |r| ==> [r[i]] == Swept(r[i..], leaves)
  {
    assert r[i..][0] == r[i] && r[i..][1..] == r[i + 1..];
    if leaves(r[i]) && i + 1 < |r| {
      var r' := r[..i] + r[i + 1..];
      assert r'[i + 1..] == r[i + 2..];
      assert r[i..][2..] == r[i + 2..];
    }
  }

  /** The survivors of a list without repeats have no repeats and come from the list. */
  lemma {:induction false} SweepDistinct<T>(l: seq<T>, leaves: T -> bool)
    requires Distinct(l)
    ensures Distinct(Sweep(l, leaves))
    ensures forall x | x in Sweep(l, leaves) :: x in l
  {
    if |l| >= 1 {
      var k := if !leaves(l[0]) then 1 else 2;
      if k <= |l| {
        var rest := l[k..];
        DistinctSuffix(l, k);
        SweepDistinct(rest, leaves);
        assert Sweep(l, leaves) == [l[k - 1]] + Sweep(rest, leaves);
        DistinctCons(l[k - 1], Sweep(rest, leaves));
      }
    }
  }

  /** A suffix of a list without repeats has none, and misses the item just before it. */
  lemma DistinctSuffix<T>(l: seq<T>, k: nat)
    requires Distinct(l) && 1 <= k <= |l|
    ensures Distinct(l[k..])
    ensures l[k - 1] !in l[k..]
    ensures forall x | x in l[k..] :: x in l
  {
    var rest := l[k..];
    forall a, b | 0 <= a < b < |rest| ensures rest[a] != rest[b] {
      assert rest[a] == l[a + k] && rest[b] == l[b + k];
    }
    forall x | x in rest ensures x in l && x != l[k - 1] {
      var j :| 0 <= j < |rest| && rest[j] == x;
      assert rest[j] == l[j + k];
    }
  }

  /** Putting a new item in front keeps a list free of repeats. */
  lemma DistinctCons<T>(head: T, rest: seq<T>)
    requires Distinct(rest) && head !in rest
    ensures Distinct([head] + rest)
  {
    var r := [head] + rest;
    forall a, b | 0 <= a < b < |r| ensures r[a] != r[b] {
      assert r[b] == rest[b - 1];
      if a > 0 {
        assert r[a] == rest[a - 1];
      }
    }
  }

  /** Appending a new item keeps a list free of repeats. */
  lemma DistinctAppend<T>(l: seq<T>, x: T)
    requires Distinct(l) && x !in l
    ensures Distinct(l + [x])
  {
    var r := l + [x];
    forall a, b | 0 <= a < b < |r| ensures r[a] != r[b] {
      assert r[a] == l[a];
      if b < |l| { assert r[b] == l[b]; }
    }
  }

  /** Cutting one element out keeps a list free of repeats and adds nothing. */
  lemma DistinctWithout<T>(l: seq<T>, i: nat)
    requires Distinct(l) && i < |l|
    ensures Distinct(l[..i] + l[i + 1..])
    ensures forall x | x in l[..i] + l[i + 1..] :: x in l
  {
    var r := l[..i] + l[i + 1..];
    forall a, b | 0 <= a < b < |r| ensures r[a] != r[b] {
      var a' := if a < i then a else a + 1;
      var b' := if b < i then b else b + 1;
      assert r[a] == l[a'] && r[b] == l[b'];
    }
    forall x | x in r ensures x in l {
      var k :| 0 <= k < |r| && r[k] == x;
      assert r[k] == l[if k < i then k else k + 1];
    }
  }

  /** Some removed item of the serial reported exit code 0. */
  predicate ExitedCleanly(finished: seq<Entry>, s: Serial, poll: Handle -> Option<int>)
  {
    exists e | e in finished :: e.serial == s && poll(e.handle) == Some(0)
  }

  /**
   * The records after the completion poller has dealt with the finished
   * items: a drive whose item exited with code 0 is marked erased, whether or
   * not it is still connected; any other exit code changes nothing.
   */
  function ErasedAfter(v: View, finished: seq<Entry>, poll: Handle -> Option<int>): (w: View)
    ensures w.Keys == v.Keys
  {
    map s | s in v :: if ExitedCleanly(finished, s, poll) then v[s].(erased := true) else v[s]
  }

  /**
   * Only the erased flag can change; it becomes true exactly for the drives
   * with a clean exit and keeps its value for the others.
   */
  lemma ErasedAfterChangesOnlyErased(v: View, finished: seq<Entry>, poll: Handle -> Option<int>, s: Serial)
    requires s in v
    ensures ErasedAfter(v, finished, poll)[s].erased == (v[s].erased || ExitedCleanly(finished, s, poll))
    ensures ErasedAfter(v, finished, poll)[s].(erased := v[s].erased) == v[s]
  {
  }

  /** Marking drives erased keeps every record consistent. */
  lemma ErasedAfterKeepsConsistent(v: View, finished: seq<Entry>, poll: Handle -> Option<int>)
    requires AllConsistent(v)
    ensures AllConsistent(ErasedAfter(v, finished, poll))
  {
  }

  /** Dealing with one more finished item changes at most that item's drive. */
  lemma ErasedAfterAppend(v: View, finished: seq<Entry>, e: Entry, poll: Handle -> Option<int>)
    ensures var w := ErasedAfter(v, finished, poll);
      ErasedAfter(v, finished + [e], poll) ==
        if poll(e.handle) == Some(0) && e.serial in v then w[e.serial := w[e.serial].(erased := true)] else w
  {
    var w := ErasedAfter(v, finished, poll);
    var w' := ErasedAfter(v, finished + [e], poll);
    forall s | s in v ensures ExitedCleanly(finished + [e], s, poll) <==>
      ExitedCleanly(finished, s, poll) || (s == e.serial && poll(e.handle) == Some(0))
    {
      if ExitedCleanly(finished + [e], s, poll) {
        var x :| x in finished + [e] && x.serial == s && poll(x.handle) == Some(0);
        if x != e { assert x in finished; }
      }
      if ExitedCleanly(finished, s, poll) {
        var x :| x in finished && x.serial == s && poll(x.handle) == Some(0);
        assert x in finished + [e];
      }
      if s == e.serial && poll(e.handle) == Some(0) {
        assert e in finished + [e];
      }
    }
  }

  /** The entries of the list that belong to the serial. */
  function EntriesFor(l: seq<Entry>, s: Serial): seq<Entry>
  {
    Selected(l, ForSerial(s))
  }

  /** The list tracks the serial exactly when some entry belongs to it. */
  lemma {:induction false} TrackedIffEntries(l: seq<Entry>, s: Serial)
    ensures Tracked(l, s) <==> |EntriesFor(l, s)| > 0
  {
    if |l| > 0 {
      TrackedIffEntries(l[1..], s);
      if Tracked(l[1..], s) {
        var i :| 0 <= i < |l| - 1 && l[1..][i].serial == s;
        assert l[i + 1].serial == s;
      }
      if Tracked(l, s) && l[0].serial != s {
        var i :| 0 <= i < |l| && l[i].serial == s;
        assert l[1..][i - 1].serial == s;
      }
    }
  }

  /**
   * A serial with at most one entry (the one timer per test per drive the
   * callbacks expect): one pass of the callback's loop removes it, keeps
   * every other entry in order, and leaves the list not tracking the serial.
   */
  lemma OneEntryRemoved(l: seq<Entry>, s: Serial)
    requires |EntriesFor(l, s)| <= 1
    ensures Sweep(l, ForSerial(s)) == Staying(l, ForSerial(s))
    ensures !Tracked(Sweep(l, ForSerial(s)), s)
  {
    if AdjacentLeavers(l, ForSerial(s)) {
      AdjacentLeaversSelected(l, ForSerial(s));
    }
    SweepRemovesAllIff(l, ForSerial(s));
  }

  /** Two adjacent entries for one serial (a test started twice): the pass removes the first and skips the second. */
  lemma TwoEntriesOneSkipped(s: Serial, h1: Handle, h2: Handle)
    ensures Sweep([Entry(s, h1), Entry(s, h2)], ForSerial(s)) == [Entry(s, h2)]
    ensures Tracked(Sweep([Entry(s, h1), Entry(s, h2)], ForSerial(s)), s)
  {
    var r := Sweep([Entry(s, h1), Entry(s, h2)], ForSerial(s));
    assert r[0].serial == s;
  }

  /** Appending an entry adds it to its own serial's entries and to no other. */
  lemma {:induction false} EntriesForAppend(l: seq<Entry>, e: Entry, s: Serial)
    ensures EntriesFor(l + [e], s) == EntriesFor(l, s) + (if e.serial == s then [e] else [])
  {
    if |l| == 0 {
      assert (l + [e])[1..] == [];
    } else {
      assert (l + [e])[0] == l[0] && (l + [e])[1..] == l[1..] + [e];
      EntriesForAppend(l[1..], e, s);
    }
  }

  /**
   * `60 * int(polling_minutes or 0)`: a self-test timer is armed for the
   * drive's estimated test time in whole minutes; a null estimate arms it
   * for zero seconds.
   */
  function SelfTestDelay(pollingMinutes: Option<nat>): (seconds: nat)
    ensures seconds % 60 == 0
    ensures seconds / 60 == (if pollingMinutes.Some? then pollingMinutes.value else 0)
  {
    match pollingMinutes
    case None => 0
    case Some(m) => 60 * m
  }
}
