# shredmeister bookkeeping, modelled in Dafny

shredmeister is a desktop tool for wiping and checking storage drives. A
script keeps a registry of every drive it has seen, keyed by serial number,
and runs three kinds of operations on those drives: an erase process and a
short or extended SMART self-test. It shows one tab per drive with status
glyphs, action buttons and a table of SMART attributes. This project models
the bookkeeping core of that script with the window, the subprocesses and
the threads stripped away. It proves what that core does to the registry and
to the operation lists.

- `base.dfy` (module `Base`): `Option` and distinctness of a sequence.
- `records.dfy` (module `Records`): the `Drive` object as a class whose
  `Remove` and `Update` change its fields in place, and the value
  `DriveRecord` that those fields make up.
  - `NewRecord`, `MarkRemoved` and `Updated` are the three transitions as
    functions.
  - `Describe` is `Drive.__str__`.
- `reconcile.dfy` (module `Reconcile`): what `scan` and `rescan` do, stated
  on values.
  - `InsertOrder` gives the insertion order of the serial keys.
  - `Scanned` and `Reconciled` give the record held for each serial.
  - A discovery result is a `Snapshot`: the serials in the order found and a
    path for each.
- `operations.dfy` (module `Operations`): the three operation lists of
  (serial, handle) items, and `is_in_sublist`.
  - `Sweep` and `Swept` state what Python's `for item in l: ...
    l.remove(item)` loop leaves in the list and what it removes.
  - That loop skips the item right after each removed one.
    `RemoveWhileIterating` performs it step by step with an index that is
    not rewound.
- `supervisor.dfy` (module `Supervisor`): the class `Registry`. It holds
  `all_drives` (the serials in insertion order plus a map to `Drive`
  objects) and the lists `subproc_list`, `timer_list_short` and
  `timer_list_extended`.
  - Its methods are `scan`, `rescan`, one pass of the completion poller,
    the two timer callbacks and the three start buttons.
  - Each method is proved against the value-level function of the modules
    above, and each keeps the class invariant `Valid()`.
- `smart.dfy` (module `Smart`): the `returncode & 3` test of `get_smart`, and
  `make_table_data`.
  - `MakeTableData` is a method with the attribute loop, proved equal to the
    function `TableSpec`.
  - The colour rules and the error paths are lemmas about `TableSpec`.
- `panel.dfy` (module `Panel`): the decisions `refresh` makes for a drive
  tab. These are whether the tab is shown, the three status glyphs, and
  which buttons are enabled.

Discovery results, mount tables, poll results and fresh handles are
parameters. `humanize.naturalsize` is a function parameter
`size: int -> string`.

Two behaviours of the code are kept as written:

- A start button never rejects a request. A second erase or test of the same
  kind, or one on a drive without a path, appends another item.
- A failed device walk is not skipped. It yields an empty discovery, and
  `rescan` then marks every drive removed.

## Model

| member | source | states |
|---|---|---|
| Records.Drive.constructor | shredmeister.py:448-455 | a new Drive holds the given serial, path and mount state; it is not removed and has no erase or test history |
| Records.Drive.Remove | shredmeister.py:464-467 | the path is cleared, mounted becomes false and removed true; the erase and test flags are kept |
| Records.Drive.Update | shredmeister.py:468-471 | path and mount state are taken from the arguments and removed becomes false; the erase and test flags are kept |
| Records.TransitionsKeepHistory | shredmeister.py:448-471 | a new record has no history; remove and update keep all three history flags; all three leave a consistent record, meaning removed exactly when there is no path and never mounted while removed |
| Records.ReconnectForgetsRemoval | shredmeister.py:464-471 | a remove followed by an update leaves the same record as the update alone |
| Records.DescribeShowsConnection | shredmeister.py:458-463 | the text form ends in "Not connected", "Mounted" or "Unmounted"; the three can be told apart, and removed takes precedence over mounted |
| Reconcile.InsertOrderAppends | shredmeister.py:497-505 | assigning the discovered serials keeps the existing keys in their order and appends the unseen ones in discovery order; no key appears twice; the keys are the old ones plus the discovered ones |
| Reconcile.InsertOrderIdempotent | shredmeister.py:497-505 | assigning the same discovered serials a second time does not change the key order |
| Reconcile.ReconciledRecords | shredmeister.py:484-505 | after a rescan, a discovered serial has the discovered path, is mounted exactly when listed as mounted, and is not removed; an undiscovered one is removed with no path; a known drive keeps its history; a new one has none |
| Reconcile.ReconciledIdempotent | shredmeister.py:484-505 | rescanning twice with the same discovery gives the records one rescan gives (the key order is `Reconcile.InsertOrderIdempotent`) |
| Reconcile.RescanStagesReconcile | shredmeister.py:484-505 | the first loop (refresh every known serial) followed by the second (admit every unseen discovered serial) gives exactly the reconciled registry |
| Reconcile.RescanKeepsConsistent | shredmeister.py:433-505 | scan and rescan keep every record consistent and drop no serial |
| Reconcile.ScanAgreesInitially | shredmeister.py:437-443 | on an empty registry, scan and rescan produce the same records |
| Reconcile.ScanLosesHistory | shredmeister.py:442 | scan overwrites: a rediscovered drive ends up as rescan would leave it exactly when it had no history to lose |
| Reconcile.FailedDiscoveryRemovesAll | shredmeister.py:81-91 | a failed device walk yields an empty discovery, after which rescan marks every known drive removed and keeps its history, while scan changes nothing |
| Reconcile.RescansNeverForget | shredmeister.py:484-505 | over any series of rescans, no serial is lost, every serial ever discovered is present, and no drive's history changes |
| Supervisor.Registry.constructor | shredmeister.py:33-36 | the registry starts with no drives and three empty lists |
| Supervisor.Registry.Admit | shredmeister.py:504-505 | a fresh Drive goes under the serial, which joins the end of the key order unless already present; every other serial keeps its object |
| Supervisor.Registry.Scan | shredmeister.py:433-444 | every discovered serial gets a new record, existing keys keep their places, new keys are appended in discovery order, and the lists are untouched |
| Supervisor.Registry.AdmitEach | shredmeister.py:438-444 | the loop of `scan`: each discovered serial, in discovery order, gets a new record (`ScannedSome` of the whole discovery), the key order is the dict's insertion order, undiscovered serials keep their Drive objects, and the lists are untouched |
| Supervisor.Registry.Refresh | shredmeister.py:486-494 | one registered drive is updated when discovered and removed otherwise; no other record changes |
| Supervisor.Registry.RefreshAll | shredmeister.py:484-496 | the first loop of rescan refreshes every registered drive in key order |
| Supervisor.Registry.AdmitNew | shredmeister.py:497-505 | the second loop appends a new Drive for each unseen discovered serial; registered serials keep their objects |
| Supervisor.Registry.Rescan | shredmeister.py:474-507 | rescan yields the reconciled records and the extended key order, with the same Drive object for every known serial, the lists unchanged, and the invariant kept |
| Supervisor.Registry.StartErase | shredmeister.py:566-571 | the Erase button appends one item for the new process, rejects nothing, and changes nothing else |
| Supervisor.Registry.StartShortTest | shredmeister.py:578-583 | the Short button arms the timer for `60 * polling_minutes.short` seconds and appends one item to the short list; nothing else changes |
| Supervisor.Registry.StartLongTest | shredmeister.py:572-577 | the Long button does the same with the extended estimate and list |
| Supervisor.Registry.MarkErased | shredmeister.py:552 | only the given drive's erased flag changes, to true |
| Supervisor.Registry.SweepErasures | shredmeister.py:547-555 | the poller's loop leaves exactly the survivors of the skipping iteration; each examined item whose process has exited is removed, and its drive is marked erased exactly when the exit code is 0 |
| Supervisor.Registry.PollErasures | shredmeister.py:544-555 | one poll pass updates the erase list and the erased flags as above, changes no other field or list, and keeps the invariant |
| Supervisor.Registry.SetShortTested | shredmeister.py:140 | only the drive's short-tested flag changes, to true |
| Supervisor.Registry.SetLongTested | shredmeister.py:146 | only the drive's long-tested flag changes, to true |
| Supervisor.Registry.DropShortTimers | shredmeister.py:141-143 | the callback's loop leaves the survivors of the skipping iteration for the serial, still without repeats |
| Supervisor.Registry.DropLongTimers | shredmeister.py:147-149 | the same on the extended list |
| Supervisor.Registry.MarkShortTested | shredmeister.py:139-144 | the short-tested flag is set whatever the test found, the serial's items leave the short list as the loop lets them, and the other list, the other drives and the key order are unchanged |
| Supervisor.Registry.MarkLongTested | shredmeister.py:145-150 | the same for the extended flag and list |
| Operations.IsInSublist | shredmeister.py:168-172 | the answer is true exactly when some item of the list belongs to the serial |
| Operations.TrackedIffEntries | shredmeister.py:168-172 | a list tracks a serial exactly when the serial has at least one item in it |
| Operations.RemoveWhileIterating | shredmeister.py:141-143 | the loop that calls `list.remove` on the list it iterates leaves exactly `Sweep` of the list |
| Operations.RemoveFirstAt | shredmeister.py:554 | in a list without repeats, `list.remove(item)` removes exactly the item's own position |
| Operations.SweepPartitions | shredmeister.py:547-555 | survivors and removed items together are the original list: nothing is lost or invented |
| Operations.SweepKeepsStayers | shredmeister.py:547-555 | every item that should stay survives, in the original order |
| Operations.SweepRemovesAllIff | shredmeister.py:141-143 | every leaving item is removed exactly when no two leaving items are neighbours; in that case the removed items are exactly the leaving ones |
| Operations.SweepDistinct | shredmeister.py:554 | the survivors of a list without repeats have none, and all come from the list |
| Operations.OneEntryRemoved | shredmeister.py:139-144 | with at most one timer item for the serial, the callback removes it, keeps every other item in order, and the list stops tracking the serial |
| Operations.TwoEntriesOneSkipped | shredmeister.py:141-143 | two adjacent items for one serial: the first is removed, the second is skipped and stays |
| Operations.EntriesForAppend | shredmeister.py:570 | appending an item adds it to its own serial's items and to no other serial's |
| Operations.ErasedAfterChangesOnlyErased | shredmeister.py:547-555 | a poll pass changes no field but `erased`; afterwards a drive is erased exactly when it was before or one of its removed items exited with code 0, even if the drive is marked removed |
| Operations.SelfTestDelay | shredmeister.py:575 | the timer delay is a whole number of minutes, equal to the estimate, or zero when the estimate is null |
| Smart.ReturnCodeMask | shredmeister.py:100 | the mask lies in 0..3 and differs from the exit status by a multiple of 4 |
| Smart.SmartctlFailedIffLowBits | shredmeister.py:98-100 | the call counts as failed exactly when bit 0 or bit 1 of the exit status is set |
| Smart.WarningBitsIgnored | shredmeister.py:100 | bits 2 and above never make the call fail |
| Smart.GetSmart | shredmeister.py:93-107 | the output is returned exactly when the low bits are clear, and `None` otherwise |
| Smart.DropLast | shredmeister.py:251 | `s[:-1]` drops exactly the last character, and the empty string stays empty |
| Smart.NatTextRoundTrip | shredmeister.py:333-338 | the decimal text of a count reads back as the count |
| Smart.PassShade | shredmeister.py:258-261 | the passed row is green exactly when the value `== True` (also for 1), red otherwise, never yellow |
| Smart.SpareShade | shredmeister.py:263-268 | available spare is yellow exactly below 80 and green otherwise; the red branch can never be taken |
| Smart.CounterShade | shredmeister.py:303-326 | RAS, Pending and GSENSE rows are red exactly when the raw count is positive, green otherwise |
| Smart.PowerOnHours | shredmeister.py:270-281 | hours if present, else whole hours of the seconds; absent exactly when neither key exists |
| Smart.AttributeStep | shredmeister.py:301-338 | one attribute row fails exactly when it lacks a key that its id reads |
| Smart.MakeTableData | shredmeister.py:237-342 | the method with the attribute loop returns exactly `TableSpec` |
| Smart.ColoursFollowRows | shredmeister.py:258-338 | the colour list holds one entry per coloured row, in row order, each at its own row's index and with the shade that row's rule gives |
| Smart.FirstRowColour | shredmeister.py:258-299 | a non-empty table always colours row 0, green exactly when its value `== True` |
| Smart.AttributeRowsFailIff | shredmeister.py:301-342 | the attribute loop raises KeyError exactly when some row lacks a key that its id reads |
| Smart.AttributeRowsPrefix | shredmeister.py:301-338 | the attribute loop only appends rows and colours |
| Smart.TableOutcomes | shredmeister.py:237-342 | the empty pair is returned exactly on a missing key; an exception escapes exactly for a non-NVMe drive with a status string but no power-on time; otherwise there are eight NVMe rows or at least four ATA rows |
| Panel.StatusGlyph | shredmeister.py:215-221 | "..." exactly while the list has an item for the serial, otherwise ✔ or ❌ by the flag |
| Panel.StatusLineRoundTrip | shredmeister.py:222 | the status line `Erased: … Short: … Extended: …` reads back as the three glyphs it was built from, so distinct states always show distinct lines |
| Panel.RefreshTab | shredmeister.py:187-231 | a removed drive's tab is hidden; otherwise the three glyphs follow the three lists and flags, Erase is enabled exactly when no erase item exists and the drive is not mounted, and Short/Long are enabled exactly for non-NVMe devices |
| Panel.ShownIffConnected | shredmeister.py:187-216 | for a consistent record, the tab is shown exactly while the drive has a path, and Erase is never enabled on a mounted drive |
| Panel.EraseFromEnabledButton | shredmeister.py:216-219 | pressing an enabled Erase button leaves exactly one erase item for the drive, and the next refresh shows the erase in flight with the button disabled |
| Panel.ShortCallbackShowsDone | shredmeister.py:139-144 | after the short-test callback on a drive with one timer item, the short glyph is ✔ |
| Panel.LongCallbackShowsDone | shredmeister.py:145-150 | the same for the extended test |
| Panel.DoubleStartStaysInFlight | shredmeister.py:141-143 | after a short test started twice, the first callback sets the flag but the glyph stays "..." because the second item is skipped |

## Left out

- The window: layout, tabs, tables, popups, `hexdump`, `main_tab` and the
  `main_tab` branch of `refresh`. Only the decisions that `refresh` makes for
  a drive tab are modelled.
- Subprocesses: `erase_drive`, smartctl runs, `find`, `mount | grep` and
  reading serials from `/sys`. Discovery and mount results are inputs. A
  process is an opaque handle, and `poll()` is a function from handle to an
  optional exit code. `terminate()` is not modelled.
- Threads: the poller's `while`/`sleep` loop, the `QUIT` flag,
  `threading.Timer` scheduling, and `write_event_value`. One poll pass and
  one callback call are ordinary methods.
- Supervisor.Registry.PollErasures: the poller thread removes items from
  the global list while other code may run. The model sweeps a copy and
  assigns the result at the end, which is the same only without
  concurrency.
- Timer cancellation in `refresh` for a removed drive (shredmeister.py:192-199).
  It cancels thread handles and deletes by index from the short list twice.
- Supervisor.Registry.Rescan: `rescan` calls `refresh(serial, True)` for every
  registered drive (shredmeister.py:495), and for a removed drive that call
  deletes the drive's items from the short timer list, or fails with an
  IndexError when a deleted item is not the last one. The model leaves the
  timer lists unchanged, so its "lists unchanged" holds for the model only.
- JSON decoding and `smart_data_dict`. The SMART record is a datatype with
  one optional field per key read. JSON values other than bools, integers
  and strings are not modelled.
- Smart.PowerOnHours: float division followed by `int()` is modelled as
  integer division of a non-negative count of seconds.
- `humanize.naturalsize`: a function parameter with no properties.
- A missing `polling_minutes` key, or a missing `device.protocol` when Erase
  is pressed, makes the event loop fail. This is not modelled.
- `refresh` itself fails when `model_name`, `device.protocol`,
  `user_capacity` or `rotation_rate` is missing. Those strings only feed the
  window, and the protocol is a parameter of `RefreshTab`.
- Supervisor.Registry.Scan: the contract does not state that the Drive
  objects it creates are new. Only `Admit` states freshness per call.
  A caller whose frame lists only the drives it held before cannot
  follow `Scan` with another operation that modifies the new drives.
- Supervisor.Registry.AdmitEach: the same gap. Each pass of the loop
  allocates a new Drive, but the loop does not carry that freshness.
- Supervisor.Registry.AdmitNew: the same gap for the Drives created for
  unseen serials.
- Supervisor.Registry.Rescan: the same gap. Two rescans in a row, or a
  rescan followed by a poll pass, cannot be framed by a caller whose
  frame lists only the drives it held before, although `rescan` only
  ever creates new Drive objects for unseen serials
  (shredmeister.py:504-505).
- `get_smart` prints and returns `None` on failure, which `json.loads` then
  rejects. Only the success test and the returned text are modelled.
