/**
 * The decisions `refresh` makes for a drive's tab: whether the tab is shown,
 * the three status glyphs, and which action buttons are enabled. The widget
 * updates themselves are not modelled; the operation lists are the ones the
 * registry holds.
 */
module Panel {
  import opened Base
  import opened Records
  import opened Operations

  /** A status glyph: an operation in flight ("..."), done ("✔") or not done ("❌"). */
  datatype Glyph = InFlight | Done | NotDone

  function GlyphText(g: Glyph): (t: string)
    ensures |t| > 0
  {
    match g
    case InFlight => "..."
    case Done => "✔"
    case NotDone => "❌"
  }

  /** The glyph whose text starts at `s[i]`, with the length of that text. */
  function GlyphAt(s: string, i: nat): (r: Option<(Glyph, nat)>)
    ensures r.Some? ==> i + r.value.1 <= |s|
  {
    if i < |s| && s[i] == '✔' then Some((Done, 1))
    else if i < |s| && s[i] == '❌' then Some((NotDone, 1))
    else if i + 3 <= |s| && s[i..i + 3] == "..." then Some((InFlight, 3))
    else None
  }

  lemma GlyphAtSlice(g: Glyph, s: string, i: nat)
    requires i + |GlyphText(g)| <= |s| && s[i..i + |GlyphText(g)|] == GlyphText(g)
    ensures GlyphAt(s, i) == Some((g, |GlyphText(g)|))
  {
    match g
    case InFlight =>
    case Done =>
      assert s[i] == s[i..i + 1][0];
    case NotDone =>
      assert s[i] == s[i..i + 1][0];
  }

  /**
   * The status line `refresh` writes under a drive's tab:
   * `Erased: <glyph> Short: <glyph> Extended: <glyph>`.
   */
  function StatusLine(erased: Glyph, shortTested: Glyph, longTested: Glyph): (s: string)
    ensures |s| >= 30
  {
    "Erased: " + GlyphText(erased) + " Short: " + GlyphText(shortTested)
    + " Extended: " + GlyphText(longTested)
  }

  /** Reads the three glyphs back from a status line. */
  function ParseStatusLine(s: string): (r: Option<(Glyph, Glyph, Glyph)>)
  {
    match GlyphAt(s, 8)
    case None => None
    case Some((e, n1)) =>
      var i2 := 8 + n1 + 8;
      match GlyphAt(s, i2)
      case None => None
      case Some((sh, n2)) =>
        match GlyphAt(s, i2 + n2 + 11)
        case None => None
        case Some((lo, _)) => Some((e, sh, lo))
  }

  /** The status line determines the three glyphs: distinct states show distinct lines. */
  lemma {:induction false} StatusLineRoundTrip(erased: Glyph, shortTested: Glyph, longTested: Glyph)
    ensures ParseStatusLine(StatusLine(erased, shortTested, longTested)) == Some((erased, shortTested, longTested))
  {
    var s := StatusLine(erased, shortTested, longTested);
    var e, sh, lo := GlyphText(erased), GlyphText(shortTested), GlyphText(longTested);
    var i2, i3 := 8 + |e| + 8, 8 + |e| + 8 + |sh| + 11;
    assert s[8..8 + |e|] == e;
    GlyphAtSlice(erased, s, 8);
    assert s[i2..i2 + |sh|] == sh;
    GlyphAtSlice(shortTested, s, i2);
    assert s[i3..] == lo;
    GlyphAtSlice(longTested, s, i3);
  }

  /**
   * `"..." if is_in_sublist(serial, l) else "✔" if flag else "❌"`: an entry
   * in the list wins over the recorded flag.
   */
  function StatusGlyph(l: seq<Entry>, serial: Serial, flag: bool): (g: Glyph)
    ensures g == InFlight <==> Tracked(l, serial)
    ensures g == Done <==> !Tracked(l, serial) && flag
    ensures g == NotDone <==> !Tracked(l, serial) && !flag
  {
    if Tracked(l, serial) then InFlight else if flag then Done else NotDone
  }

  /** What the drive's tab shows after `refresh(serial)`. */
  datatype TabView =
    | Hidden
    | Shown(erased: Glyph, shortTested: Glyph, longTested: Glyph,
            eraseEnabled: bool, testsEnabled: bool)

  /**
   * `refresh(serial)` for a drive tab: a removed drive's tab is hidden;
   * otherwise the glyphs come from the three lists and flags, Erase is
   * disabled while an erase entry exists or the drive is mounted, and Short /
   * Long are disabled for NVMe devices. SMART and HEX are always enabled on
   * a shown tab.
   */
  function RefreshTab(serial: Serial, r: DriveRecord, subprocs: seq<Entry>, shortTimers: seq<Entry>,
                      longTimers: seq<Entry>, protocol: string): (t: TabView)
    ensures t.Hidden? <==> r.removed
    ensures t.Shown? ==> (t.eraseEnabled <==> !Tracked(subprocs, serial) && !r.mounted)
    ensures t.Shown? ==> (t.testsEnabled <==> protocol != "NVMe")
    ensures t.Shown? ==> (t.erased == InFlight <==> Tracked(subprocs, serial))
    ensures t.Shown? ==> (t.erased == Done <==> !Tracked(subprocs, serial) && r.erased)
    ensures t.Shown? ==> (t.shortTested == InFlight <==> Tracked(shortTimers, serial))
    ensures t.Shown? ==> (t.shortTested == Done <==> !Tracked(shortTimers, serial) && r.shortTested)
    ensures t.Shown? ==> (t.longTested == InFlight <==> Tracked(longTimers, serial))
    ensures t.Shown? ==> (t.longTested == Done <==> !Tracked(longTimers, serial) && r.longTested)
  {
    if r.removed then Hidden
    else
      var erasing := Tracked(subprocs, serial);
      Shown(
        StatusGlyph(subprocs, serial, r.erased),
        StatusGlyph(shortTimers, serial, r.shortTested),
        StatusGlyph(longTimers, serial, r.longTested),
        !(erasing || r.mounted),
        protocol != "NVMe")
  }

  /** A consistent record's tab is shown exactly while the drive has a path. */
  lemma ShownIffConnected(serial: Serial, r: DriveRecord, subprocs: seq<Entry>, shortTimers: seq<Entry>,
                          longTimers: seq<Entry>, protocol: string)
    requires Consistent(r)
    ensures RefreshTab(serial, r, subprocs, shortTimers, longTimers, protocol).Shown? <==> r.path.Some?
    ensures (RefreshTab(serial, r, subprocs, shortTimers, longTimers, protocol).Shown?
             && RefreshTab(serial, r, subprocs, shortTimers, longTimers, protocol).eraseEnabled) ==> !r.mounted
  {
  }

  /**
   * Pressing an enabled Erase button appends exactly the one erase entry the
   * drive then has, and the next refresh shows the erase in flight with the
   * button disabled.
   */
  lemma {:induction false} EraseFromEnabledButton(serial: Serial, r: DriveRecord, subprocs: seq<Entry>,
                                                  shortTimers: seq<Entry>, longTimers: seq<Entry>,
                                                  protocol: string, h: Handle)
    requires RefreshTab(serial, r, subprocs, shortTimers, longTimers, protocol).Shown?
    requires RefreshTab(serial, r, subprocs, shortTimers, longTimers, protocol).eraseEnabled
    ensures EntriesFor(subprocs + [Entry(serial, h)], serial) == [Entry(serial, h)]
    ensures var t := RefreshTab(serial, r, subprocs + [Entry(serial, h)], shortTimers, longTimers, protocol);
      t.Shown? && t.erased == InFlight && !t.eraseEnabled
  {
    TrackedIffEntries(subprocs, serial);
    EntriesForAppend(subprocs, Entry(serial, h), serial);
    var l := subprocs + [Entry(serial, h)];
    assert l[|subprocs|].serial == serial;
  }

  /**
   * The self-test callback on a drive with its one timer entry: afterwards
   * the tab shows the test as done, whatever it showed before.
   */
  lemma ShortCallbackShowsDone(serial: Serial, r: DriveRecord, subprocs: seq<Entry>, shortTimers: seq<Entry>,
                               longTimers: seq<Entry>, protocol: string)
    requires !r.removed && |EntriesFor(shortTimers, serial)| <= 1
    ensures RefreshTab(serial, r.(shortTested := true), subprocs, Sweep(shortTimers, ForSerial(serial)),
                       longTimers, protocol).shortTested == Done
  {
    OneEntryRemoved(shortTimers, serial);
  }

  /** The same for the extended test's callback and list. */
  lemma LongCallbackShowsDone(serial: Serial, r: DriveRecord, subprocs: seq<Entry>, shortTimers: seq<Entry>,
                              longTimers: seq<Entry>, protocol: string)
    requires !r.removed && |EntriesFor(longTimers, serial)| <= 1
    ensures RefreshTab(serial, r.(longTested := true), subprocs, shortTimers, Sweep(longTimers, ForSerial(serial)),
                       protocol).longTested == Done
  {
    OneEntryRemoved(longTimers, serial);
  }

  /**
   * A short test started twice leaves two adjacent entries; the first
   * callback sets the flag but skips the second entry, so the tab keeps
   * showing the test in flight.
   */
  lemma DoubleStartStaysInFlight(serial: Serial, r: DriveRecord, subprocs: seq<Entry>, longTimers: seq<Entry>,
                                 protocol: string, h1: Handle, h2: Handle)
    requires !r.removed
    ensures RefreshTab(serial, r.(shortTested := true), subprocs,
                       Sweep([Entry(serial, h1), Entry(serial, h2)], ForSerial(serial)),
                       longTimers, protocol).shortTested == InFlight
  {
    TwoEntriesOneSkipped(serial, h1, h2);
  }
}
