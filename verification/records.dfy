/**
 * The per-serial drive record of shredmeister.py (class Drive, lines 447-471):
 * the value it carries, the transitions its two mutators perform, its text
 * form, and the class itself, whose methods update the fields in place.
 */
module Records {
  import opened Base

  /** A drive serial number, the only identity of a drive. */
  type Serial = string

  /** An operating-system device path such as /dev/sda. */
  type Path = string

  /** Everything a Drive holds besides its serial. */
  datatype DriveRecord = DriveRecord(
    path: Option<Path>,
    mounted: bool,
    removed: bool,
    erased: bool,
    shortTested: bool,
    longTested: bool)

  /** The registry's records, keyed by serial. */
  type View = map<Serial, DriveRecord>

  /** The three history flags agree. */
  predicate SameHistory(a: DriveRecord, b: DriveRecord)
  {
    a.erased == b.erased && a.shortTested == b.shortTested && a.longTested == b.longTested
  }

  /** No erase and no self-test has been recorded. */
  predicate NoHistory(r: DriveRecord)
  {
    !r.erased && !r.shortTested && !r.longTested
  }

  /** A connected record has a path; a removed one has none and is not mounted. */
  predicate Consistent(r: DriveRecord)
  {
    (r.removed <==> r.path.None?) && (r.removed ==> !r.mounted)
  }

  /** Every record of a registry is consistent. */
  ghost predicate AllConsistent(v: View)
  {
    forall s | s in v :: Consistent(v[s])
  }

  /** Replacing one record by one with the same connection state keeps the registry consistent. */
  lemma HistoryKeepsConsistent(v: View, s: Serial, r: DriveRecord)
    requires AllConsistent(v) && s in v
    requires r.path == v[s].path && r.mounted == v[s].mounted && r.removed == v[s].removed
    ensures AllConsistent(v[s := r])
  {
  }

  /** The state `Drive.__init__` gives a newly discovered drive. */
  function NewRecord(path: Path, mounted: bool): DriveRecord
  {
    DriveRecord(Some(path), mounted, false, false, false, false)
  }

  /** The state `Drive.remove` leaves behind. */
  function MarkRemoved(r: DriveRecord): DriveRecord
  {
    r.(path := None, mounted := false, removed := true)
  }

  /** The state `Drive.update(path, mounted)` leaves behind. */
  function Updated(r: DriveRecord, path: Path, mounted: bool): DriveRecord
  {
    r.(path := Some(path), mounted := mounted, removed := false)
  }

  /** A new record has no history; remove and update keep the history and leave a consistent record. */
  lemma TransitionsKeepHistory(r: DriveRecord, path: Path, mounted: bool)
    ensures NoHistory(NewRecord(path, mounted)) && Consistent(NewRecord(path, mounted))
    ensures SameHistory(MarkRemoved(r), r) && Consistent(MarkRemoved(r))
    ensures SameHistory(Updated(r, path, mounted), r) && Consistent(Updated(r, path, mounted))
  {
  }

  /** A disconnect followed by a reconnect leaves no trace: the drive looks as if it had only been updated. */
  lemma ReconnectForgetsRemoval(r: DriveRecord, path: Path, mounted: bool)
    ensures Updated(MarkRemoved(r), path, mounted) == Updated(r, path, mounted)
  {
  }

  /** What a drive's text form says about its connection. */
  datatype Connection = NotConnected | Mounted | Unmounted

  /** Python's `str()` of an optional path. */
  function PathText(p: Option<Path>): string
  {
    match p
    case None => "None"
    case Some(s) => s
  }

  /** `Drive.__str__`: removed is checked first, then mounted. */
  function Describe(serial: Serial, r: DriveRecord): string
  {
    if r.removed then "S/N " + serial + ", Not connected"
    else if r.mounted then "S/N " + serial + ", " + PathText(r.path) + ", Mounted"
    else "S/N " + serial + ", " + PathText(r.path) + ", Unmounted"
  }

  predicate EndsWith(s: string, suffix: string)
  {
    |suffix| <= |s| && s[|s| - |suffix|..] == suffix
  }

  /** Reads the connection back from the tail of a description. */
  function ReadConnection(text: string): Option<Connection>
  {
    if EndsWith(text, ", Not connected") then Some(NotConnected)
    else if EndsWith(text, ", Mounted") then Some(Mounted)
    else if EndsWith(text, ", Unmounted") then Some(Unmounted)
    else None
  }

  lemma EndsWithAppended(prefix: string, suffix: string)
    ensures EndsWith(prefix + suffix, suffix)
  {
    assert (prefix + suffix)[|prefix|..] == suffix;
  }

  /**
   * The three texts can be told apart, and the removed flag takes precedence
   * over the mounted flag: a removed drive reads "Not connected" whatever its
   * mounted flag says.
   */
  lemma DescribeShowsConnection(serial: Serial, r: DriveRecord)
    ensures ReadConnection(Describe(serial, r)) ==
      Some(if r.removed then NotConnected else if r.mounted then Mounted else Unmounted)
  {
    var text := Describe(serial, r);
    if r.removed {
      EndsWithAppended("S/N " + serial, ", Not connected");
    } else if r.mounted {
      EndsWithAppended("S/N " + serial + ", " + PathText(r.path), ", Mounted");
      assert text[|text| - 15..][11] == 'n';
    } else {
      EndsWithAppended("S/N " + serial + ", " + PathText(r.path), ", Unmounted");
      assert text[|text| - 15..][11] == 'n';
      assert text[|text| - 9..][0] == 'U';
    }
  }

  /** A drive as the registry holds it: one object per serial, updated in place. */
  class Drive {
    const serial: Serial
    var path: Option<Path>
    var mounted: bool
    var removed: bool
    var erased: bool
    var shortTested: bool
    var longTested: bool

    /** The fields other than the serial, as a value. */
    function Record(): DriveRecord
      reads this
    {
      DriveRecord(path, mounted, removed, erased, shortTested, longTested)
    }

    /** `Drive(serial, path, mounted)`: connected, no history. */
    constructor (serial: Serial, path: Path, mounted: bool)
      ensures this.serial == serial
      ensures Record() == NewRecord(path, mounted)
    {
      this.serial := serial;
      this.path := Some(path);
      this.mounted := mounted;
      this.removed := false;
      this.erased := false;
      this.shortTested := false;
      this.longTested := false;
    }

    /** `remove()`: forget the path and the mount, mark removed, keep the history. */
    method Remove()
      modifies this
      ensures Record() == MarkRemoved(old(Record()))
    {
      path := None;
      mounted := false;
      removed := true;
    }

    /** `update(path, mounted)`: take the new path and mount state, clear removed, keep the history. */
    method Update(path: Path, mounted: bool)
      modifies this
      ensures Record() == Updated(old(Record()), path, mounted)
    {
      this.path := Some(path);
      this.mounted := mounted;
      this.removed := false;
    }
  }
}
