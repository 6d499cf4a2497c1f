/**
 * The SMART side of shredmeister.py: the `returncode & 3` test of `get_smart`
 * and the rows and row colours `make_table_data` derives from the JSON that
 * `smartctl -aj` prints. The JSON is a record with one optional field per key
 * the table reads; a missing key is `None`.
 */
module Smart {
  import opened Base

  /** A JSON scalar as it lands in a table cell. */
  datatype Json = JBool(b: bool) | JInt(i: int) | JStr(s: string)

  /** Python's `value == True`, which also holds for the integer 1. */
  predicate IsTrue(v: Json)
  {
    v == JBool(true) || v == JInt(1)
  }

  /** `nvme_smart_health_information_log`. */
  datatype NvmeLog = NvmeLog(
    availableSpare: Option<int>,
    powerCycles: Option<int>,
    powerOnHours: Option<int>,
    unsafeShutdowns: Option<int>,
    dataUnitsRead: Option<int>,
    dataUnitsWritten: Option<int>,
    mediaErrors: Option<int>)

  /** One row of `ata_smart_attributes.table`: its id, `raw.value` and `flags.value`. */
  datatype AtaAttribute = AtaAttribute(id: Option<int>, raw: Option<int>, flags: Option<int>)

  /** The keys of the smartctl JSON that the table reads. */
  datatype SmartData = SmartData(
    smartStatusPassed: Option<Json>,        // smart_status.passed
    protocol: Option<string>,               // device.protocol
    nvmeLog: Option<NvmeLog>,               // nvme_smart_health_information_log
    powerOnHours: Option<int>,              // power_on_time.hours
    powerOnSeconds: Option<nat>,            // power_on_time.seconds
    selfTestPassed: Option<Json>,           // ata_smart_data.self_test.status.passed
    selfTestStatus: Option<string>,         // ata_smart_data.self_test.status.string
    powerCycleCount: Option<int>,           // power_cycle_count
    attributes: Option<seq<AtaAttribute>>)  // ata_smart_attributes.table

  /** A table row: attribute name and displayed value. */
  datatype Row = Row(name: string, value: Json)

  /** The background of a highlighted row; the text is always black. */
  datatype Shade = Green | Yellow | Red

  /** `[index, "black", shade]`. */
  datatype RowColour = RowColour(index: nat, shade: Shade)

  /** `table_data` and `my_row_colors` while they are being built. */
  datatype Table = Table(rows: seq<Row>, colours: seq<RowColour>)

  /**
   * What `make_table_data` does: it returns the two lists (the empty pair
   * after a KeyError), or an exception other than KeyError escapes it.
   */
  datatype TableOutcome = Built(rows: seq<Row>, colours: seq<RowColour>) | Raised

  // ---------------------------------------------------------------- smartctl

  /**
   * `returncode & 3`: the two low bits of the exit status (command line did
   * not parse, device could not be opened). Python's `&` on a negative int
   * works on the two's complement, which is the floored remainder.
   */
  function ReturnCodeMask(code: int): (m: int)
    ensures 0 <= m < 4 && (code - m) % 4 == 0
  {
    code % 4
  }

  /** `get_smart` treats the call as failed when the mask is non-zero. */
  predicate SmartctlFailed(code: int)
  {
    ReturnCodeMask(code) != 0
  }

  /** Bit k of a Python int (`(code >> k) & 1`). */
  function Bit(code: int, k: nat): (b: int)
    ensures b == 0 || b == 1
  {
    (code / Pow2(k)) % 2
  }

  function Pow2(k: nat): (p: nat)
    ensures p >= 1
  {
    if k == 0 then 1 else 2 * Pow2(k - 1)
  }

  /** The call failed exactly when bit 0 or bit 1 of the exit status is set. */
  lemma SmartctlFailedIffLowBits(code: int)
    ensures SmartctlFailed(code) <==> Bit(code, 0) == 1 || Bit(code, 1) == 1
  {
  }

  /** The higher status bits (SMART warnings, logged errors) never make the call fail. */
  lemma WarningBitsIgnored(code: int, k: int)
    ensures SmartctlFailed(code + 4 * k) == SmartctlFailed(code)
  {
  }

  /** `get_smart`: the JSON text when the low bits are clear, `None` otherwise. */
  function GetSmart(code: int, stdout: string): (r: Option<string>)
    ensures r.None? <==> SmartctlFailed(code)
    ensures r.Some? ==> r.value == stdout
  {
    if ReturnCodeMask(code) != 0 then None else Some(stdout)
  }

  // ------------------------------------------------------------ text helpers

  /** `s[:-1]`: everything but the last character. */
  function DropLast(s: string): (r: string)
    ensures |s| > 0 ==> r + [s[|s| - 1]] == s
    ensures |s| == 0 ==> r == ""
  {
    if |s| == 0 then "" else s[..|s| - 1]
  }

  /** `humanize.naturalsize(h)[:-1] + ' hours'`, with the size formatter as a parameter. */
  function HoursText(size: int -> string, hours: int): string
  {
    DropLast(size(hours)) + " hours"
  }

  function DigitChar(d: nat): char
    requires d < 10
  {
    "0123456789"[d]
  }

  /** `str(n)` for a non-negative int. */
  function NatText(n: nat): (r: string)
    ensures |r| > 0 && forall c | c in r :: '0' <= c <= '9'
  {
    if n < 10 then [DigitChar(n)] else NatText(n / 10) + [DigitChar(n % 10)]
  }

  /** `f'{n}'` for any int. */
  function IntText(n: int): string
  {
    if n < 0 then "-" + NatText(-n) else NatText(n)
  }

  /** The number a string of decimal digits denotes. */
  function NatValue(s: string): int
  {
    if |s| == 0 then 0 else 10 * NatValue(s[..|s| - 1]) + (s[|s| - 1] as int - '0' as int)
  }

  /** Reading the digits back gives the number: `str` loses nothing. */
  lemma {:induction false} NatTextRoundTrip(n: nat)
    ensures NatValue(NatText(n)) == n
  {
    if n >= 10 {
      NatTextRoundTrip(n / 10);
      var r := NatText(n);
      assert r[..|r| - 1] == NatText(n / 10);
    }
  }

  // ------------------------------------------------------------ colour rules

  /** The colour of a pass/fail row: green exactly when the value `== True`. */
  function PassShade(v: Json): (s: Shade)
    ensures s == Green <==> IsTrue(v)
    ensures s != Yellow
  {
    if IsTrue(v) then Green else Red
  }

  /**
   * The available-spare rule: yellow below 80, then red below 50, else green.
   * The red test comes after the yellow one, so it can never fire.
   */
  function SpareShade(spare: int): (s: Shade)
    ensures s != Red
    ensures s == Yellow <==> spare < 80
  {
    if spare < 80 then Yellow else if spare < 50 then Red else Green
  }

  /** The rule for RAS, Pending and GSENSE: red when the raw count is positive. */
  function CounterShade(v: int): (s: Shade)
    ensures s == Red <==> v > 0
    ensures s != Yellow
  {
    if v > 0 then Red else Green
  }

  /** The colour a row's label and value call for, if its kind of row is coloured. */
  function ExpectedShade(r: Row): Option<Shade>
  {
    if r.name == "SMART Passed" || r.name == "Smart Passed" then Some(PassShade(r.value))
    else if r.name == "Available Spare" && r.value.JInt? then Some(SpareShade(r.value.i))
    else if (r.name == "RAS" || r.name == "Pending" || r.name == "GSENSE") && r.value.JInt? then
      Some(CounterShade(r.value.i))
    else None
  }

  /** Which of the table's row names carry a colour. */
  lemma NameShades(v: Json)
    ensures ExpectedShade(Row("Smart Status", v)).None? && ExpectedShade(Row("Power On Time", v)).None?
    ensures ExpectedShade(Row("Power Cycle Count", v)).None? && ExpectedShade(Row("Power Cycles", v)).None?
    ensures ExpectedShade(Row("Hours", v)).None? && ExpectedShade(Row("Unsafe Shutdowns", v)).None?
    ensures ExpectedShade(Row("Data Read", v)).None? && ExpectedShade(Row("Data Written", v)).None?
    ensures ExpectedShade(Row("Media Errors", v)).None? && ExpectedShade(Row("Temperature", v)).None?
  {
    assert "Smart Status"[6] != "Smart Passed"[6];
    assert "Smart Status"[0] != "SMART Passed"[1];
    assert "Power Cycles"[0] != "Smart Passed"[0] && "Power Cycles"[0] != "SMART Passed"[0];
    assert "Data Written"[0] != "Smart Passed"[0] && "Data Written"[0] != "SMART Passed"[0];
    assert "Media Errors"[0] != "Smart Passed"[0] && "Media Errors"[0] != "SMART Passed"[0];
  }

  /** The counter rows are coloured by their count. */
  lemma CounterShades(v: int)
    ensures ExpectedShade(Row("RAS", JInt(v))) == Some(CounterShade(v))
    ensures ExpectedShade(Row("Pending", JInt(v))) == Some(CounterShade(v))
    ensures ExpectedShade(Row("GSENSE", JInt(v))) == Some(CounterShade(v))
  {
  }

  /** One colour entry per coloured row, in row order, each pointing at its row. */
  function ColoursOf(rows: seq<Row>): seq<RowColour>
  {
    if |rows| == 0 then []
    else
      var last := rows[|rows| - 1];
      ColoursOf(rows[..|rows| - 1])
        + (if ExpectedShade(last).Some? then [RowColour(|rows| - 1, ExpectedShade(last).value)] else [])
  }

  lemma ColoursOfAppend(rows: seq<Row>, r: Row)
    ensures ColoursOf(rows + [r])
      == ColoursOf(rows) + (if ExpectedShade(r).Some? then [RowColour(|rows|, ExpectedShade(r).value)] else [])
  {
    assert (rows + [r])[..|rows|] == rows;
  }

  /** Every colour entry of `ColoursOf` points at a row of the table. */
  lemma {:induction false} ColoursOfIndices(rows: seq<Row>)
    ensures forall c | c in ColoursOf(rows) :: c.index < |rows| && Some(c.shade) == ExpectedShade(rows[c.index])
  {
    if |rows| > 0 {
      ColoursOfIndices(rows[..|rows| - 1]);
    }
  }

  // ------------------------------------------------------------- the tables

  /** `power_on_time.hours`, else `int(power_on_time.seconds / 3600)`, else `None`. */
  function PowerOnHours(data: SmartData): (h: Option<int>)
    ensures data.powerOnHours.Some? ==> h == data.powerOnHours
    ensures h.None? <==> data.powerOnHours.None? && data.powerOnSeconds.None?
    ensures data.powerOnHours.None? && data.powerOnSeconds.Some? ==>
      h.value * 3600 <= data.powerOnSeconds.value < (h.value + 1) * 3600
  {
    if data.powerOnHours.Some? then data.powerOnHours
    else if data.powerOnSeconds.Some? then Some(data.powerOnSeconds.value / 3600)
    else None
  }

  /** The eight NVMe rows, or `None` when a key of the health log is missing. */
  /** The health log is absent or lacks one of the seven keys the NVMe rows read. */
  predicate NvmeLogMissing(log: Option<NvmeLog>)
  {
    || log.None?
    || log.value.availableSpare.None? || log.value.powerCycles.None? || log.value.powerOnHours.None?
    || log.value.unsafeShutdowns.None? || log.value.dataUnitsRead.None? || log.value.dataUnitsWritten.None?
    || log.value.mediaErrors.None?
  }

  function NvmeRows(passed: Json, log: Option<NvmeLog>, size: int -> string): Option<seq<Row>>
  {
    if NvmeLogMissing(log) then None
    else
      var l := log.value;
      Some([
        Row("SMART Passed", passed),
        Row("Available Spare", JInt(l.availableSpare.value)),
        Row("Power Cycles", JInt(l.powerCycles.value)),
        Row("Hours", JStr(HoursText(size, l.powerOnHours.value))),
        Row("Unsafe Shutdowns", JInt(l.unsafeShutdowns.value)),
        Row("Data Read", JStr(size(l.dataUnitsRead.value * 512000))),
        Row("Data Written", JStr(size(l.dataUnitsWritten.value * 512000))),
        Row("Media Errors", JInt(l.mediaErrors.value))])
  }

  /** A row of the attribute table reads a key it does not have. */
  predicate AttributeMissingKey(a: AtaAttribute)
  {
    || a.id.None?
    || (a.id.value in {5, 197, 191, 241, 242} && a.raw.None?)
    || (a.id.value in {194, 12} && a.flags.None?)
  }

  /** A counter row (RAS, Pending, GSENSE) and its colour at the index it lands on. */
  function AddCounter(t: Table, name: string, v: int): (t': Table)
    ensures |t'.rows| == |t.rows| + 1 && t'.rows[..|t.rows|] == t.rows
    ensures t'.colours == t.colours + [RowColour(|t.rows|, CounterShade(v))]
  {
    Table(t.rows + [Row(name, JInt(v))], t.colours + [RowColour(|t.rows|, CounterShade(v))])
  }

  /** A row without a colour. */
  function AddRow(t: Table, name: string, v: Json): Table
  {
    Table(t.rows + [Row(name, v)], t.colours)
  }

  /** One turn of the `match row['id']` loop; `None` is the KeyError. */
  function AttributeStep(t: Table, a: AtaAttribute, size: int -> string): (r: Option<Table>)
    ensures r.None? <==> AttributeMissingKey(a)
  {
    if a.id.None? then None
    else if a.id.value in {5, 197, 191, 241, 242} && a.raw.None? then None
    else if a.id.value in {194, 12} && a.flags.None? then None
    else
      match a.id.value
      case 5 => Some(AddCounter(t, "RAS", a.raw.value))
      case 197 => Some(AddCounter(t, "Pending", a.raw.value))
      case 191 => Some(AddCounter(t, "GSENSE", a.raw.value))
      case 241 => Some(AddRow(t, "Data Written", JStr(size(a.raw.value * 512))))
      case 242 => Some(AddRow(t, "Data Read", JStr(size(a.raw.value * 512))))
      case 194 => Some(AddRow(t, "Temperature", JStr(IntText(a.flags.value) + "°C")))
      case 12 => Some(AddRow(t, "Power Cycles", JStr(IntText(a.flags.value))))
      case _ => Some(t)
  }

  /** The whole attribute loop from a table already started. */
  function AttributeRows(t: Table, attrs: seq<AtaAttribute>, size: int -> string): Option<Table>
    decreases |attrs|
  {
    if |attrs| == 0 then Some(t)
    else
      match AttributeStep(t, attrs[0], size)
      case None => None
      case Some(t') => AttributeRows(t', attrs[1..], size)
  }

  /** The four fixed ATA rows and the colour of the first. */
  function AtaHead(passed: Json, status: string, hours: int, cycles: int, size: int -> string): Table
  {
    Table(
      [ Row("Smart Passed", passed),
        Row("Smart Status", JStr(status)),
        Row("Power On Time", JStr(HoursText(size, hours))),
        Row("Power Cycle Count", JInt(cycles))],
      [RowColour(0, PassShade(passed))])
  }

  /** `make_table_data` as a function of the JSON record and the size formatter. */
  function TableSpec(data: SmartData, size: int -> string): TableOutcome
  {
    var passed := if data.smartStatusPassed.Some? then data.smartStatusPassed.value else JStr("n/a");
    if data.protocol.None? then Built([], [])
    else if data.protocol.value == "NVMe" then
      match NvmeRows(passed, data.nvmeLog, size)
      case None => Built([], [])
      case Some(rows) =>
        Built(rows, [RowColour(0, PassShade(rows[0].value)), RowColour(1, SpareShade(data.nvmeLog.value.availableSpare.value))])
    else
      var ataPassed := if data.selfTestPassed.Some? then data.selfTestPassed.value else JStr("N/A");
      if data.selfTestStatus.None? then Built([], [])
      else if PowerOnHours(data).None? then Raised
      else if data.powerCycleCount.None? || data.attributes.None? then Built([], [])
      else
        var head := AtaHead(ataPassed, data.selfTestStatus.value, PowerOnHours(data).value, data.powerCycleCount.value, size);
        match AttributeRows(head, data.attributes.value, size)
        case None => Built([], [])
        case Some(t) => Built(t.rows, t.colours)
  }

  /**
   * `make_table_data`: the fixed rows, then one pass over the attribute table
   * appending rows and colours; a missing key anywhere gives the empty pair.
   */
  method MakeTableData(data: SmartData, size: int -> string) returns (r: TableOutcome)
    ensures r == TableSpec(data, size)
  {
    var smartPassed := JStr("n/a");
    if data.smartStatusPassed.Some? {
      smartPassed := data.smartStatusPassed.value;
    }
    if data.protocol.None? {
      return Built([], []);
    }
    if data.protocol.value == "NVMe" {
      var rows := NvmeRows(smartPassed, data.nvmeLog, size);
      if rows.None? {
        return Built([], []);
      }
      var spare := data.nvmeLog.value.availableSpare.value;
      var shade;
      if spare < 80 {
        shade := Yellow;
      } else if spare < 50 {
        shade := Red;
      } else {
        shade := Green;
      }
      return Built(rows.value, [RowColour(0, PassShade(rows.value[0].value)), RowColour(1, shade)]);
    }
    var hours := PowerOnHours(data);
    var ataPassed := JStr("N/A");
    if data.selfTestPassed.Some? {
      ataPassed := data.selfTestPassed.value;
    }
    if data.selfTestStatus.None? {
      return Built([], []);
    }
    if hours.None? {
      return Raised;
    }
    if data.powerCycleCount.None? || data.attributes.None? {
      return Built([], []);
    }
    var attrs := data.attributes.value;
    var t := AtaHead(ataPassed, data.selfTestStatus.value, hours.value, data.powerCycleCount.value, size);
    for k := 0 to |attrs|
      invariant AttributeRows(t, attrs[k..], size) == AttributeRows(AtaHead(ataPassed, data.selfTestStatus.value, hours.value, data.powerCycleCount.value, size), attrs, size)
    {
      assert attrs[k..][0] == attrs[k] && attrs[k..][1..] == attrs[k + 1..];
      var next := AttributeStep(t, attrs[k], size);
      if next.None? {
        return Built([], []);
      }
      t := next.value;
    }
    assert attrs[|attrs|..] == [];
    return Built(t.rows, t.colours);
  }

  // ----------------------------------------------------------- properties

  /** Appending a row together with the colour it calls for keeps the colours in step. */
  lemma AppendKeepsColours(t: Table, r: Row)
    requires t.colours == ColoursOf(t.rows)
    ensures t.colours + (if ExpectedShade(r).Some? then [RowColour(|t.rows|, ExpectedShade(r).value)] else [])
      == ColoursOf(t.rows + [r])
  {
    ColoursOfAppend(t.rows, r);
  }

  /** A counter attribute (RAS, Pending, GSENSE) adds its row and the colour that row calls for. */
  lemma CounterStepKeepsColours(t: Table, a: AtaAttribute, size: int -> string)
    requires t.colours == ColoursOf(t.rows)
    requires AttributeStep(t, a, size).Some? && a.id.value in {5, 197, 191}
    ensures var t' := AttributeStep(t, a, size).value; t'.colours == ColoursOf(t'.rows)
  {
    var name := if a.id.value == 5 then "RAS" else if a.id.value == 197 then "Pending" else "GSENSE";
    assert AttributeStep(t, a, size) == Some(AddCounter(t, name, a.raw.value));
    CounterShades(a.raw.value);
    AppendKeepsColours(t, Row(name, JInt(a.raw.value)));
  }

  /** A size or text attribute adds an uncoloured row. */
  lemma PlainStepKeepsColours(t: Table, a: AtaAttribute, size: int -> string)
    requires t.colours == ColoursOf(t.rows)
    requires AttributeStep(t, a, size).Some? && a.id.value in {241, 242, 194, 12}
    ensures var t' := AttributeStep(t, a, size).value; t'.colours == ColoursOf(t'.rows)
  {
    var r := AttributeStep(t, a, size).value.rows[|t.rows|];
    assert AttributeStep(t, a, size) == Some(AddRow(t, r.name, r.value));
    NameShades(r.value);
    AppendKeepsColours(t, r);
  }

  /** One turn of the attribute loop keeps the colours those the rows call for. */
  lemma AttributeStepKeepsColours(t: Table, a: AtaAttribute, size: int -> string)
    requires t.colours == ColoursOf(t.rows)
    requires AttributeStep(t, a, size).Some?
    ensures var t' := AttributeStep(t, a, size).value; t'.colours == ColoursOf(t'.rows)
  {
    if a.id.value in {5, 197, 191} {
      CounterStepKeepsColours(t, a, size);
    } else if a.id.value in {241, 242, 194, 12} {
      PlainStepKeepsColours(t, a, size);
    }
  }

  /** The attribute loop keeps the colours those the rows call for. */
  lemma {:induction false} AttributeRowsKeepColours(t: Table, attrs: seq<AtaAttribute>, size: int -> string)
    requires t.colours == ColoursOf(t.rows)
    requires AttributeRows(t, attrs, size).Some?
    ensures var t' := AttributeRows(t, attrs, size).value; t'.colours == ColoursOf(t'.rows)
    decreases |attrs|
  {
    if |attrs| > 0 {
      AttributeStepKeepsColours(t, attrs[0], size);
      AttributeRowsKeepColours(AttributeStep(t, attrs[0], size).value, attrs[1..], size);
    }
  }

  /** The attribute loop fails exactly when some row misses a key it reads. */
  lemma {:induction false} AttributeRowsFailIff(t: Table, attrs: seq<AtaAttribute>, size: int -> string)
    ensures AttributeRows(t, attrs, size).None? <==> exists k | 0 <= k < |attrs| :: AttributeMissingKey(attrs[k])
    decreases |attrs|
  {
    if |attrs| > 0 {
      if !AttributeMissingKey(attrs[0]) {
        AttributeRowsFailIff(AttributeStep(t, attrs[0], size).value, attrs[1..], size);
        if exists k | 0 <= k < |attrs| :: AttributeMissingKey(attrs[k]) {
          var k :| 0 <= k < |attrs| && AttributeMissingKey(attrs[k]);
          assert attrs[1..][k - 1] == attrs[k];
        }
        if exists k | 0 <= k < |attrs| - 1 :: AttributeMissingKey(attrs[1..][k]) {
          var k :| 0 <= k < |attrs| - 1 && AttributeMissingKey(attrs[1..][k]);
          assert attrs[k + 1] == attrs[1..][k];
        }
      }
    }
  }

  /** The four fixed ATA rows: only the first is coloured. */
  lemma HeadColours(passed: Json, status: string, hours: int, cycles: int, size: int -> string)
    ensures var head := AtaHead(passed, status, hours, cycles, size); head.colours == ColoursOf(head.rows)
  {
    var r := AtaHead(passed, status, hours, cycles, size).rows;
    NameShades(r[1].value);
    NameShades(r[2].value);
    NameShades(r[3].value);
    ColoursOfAppend([], r[0]);
    ColoursOfAppend([r[0]], r[1]);
    ColoursOfAppend([r[0], r[1]], r[2]);
    ColoursOfAppend([r[0], r[1], r[2]], r[3]);
    assert [] + [r[0]] == [r[0]] && [r[0]] + [r[1]] == [r[0], r[1]];
    assert [r[0], r[1]] + [r[2]] == [r[0], r[1], r[2]];
    assert [r[0], r[1], r[2]] + [r[3]] == r;
  }

  /** The eight NVMe rows: the first two are coloured. */
  lemma NvmeColours(passed: Json, log: Option<NvmeLog>, size: int -> string)
    requires NvmeRows(passed, log, size).Some?
    ensures var rows := NvmeRows(passed, log, size).value;
      ColoursOf(rows) == [RowColour(0, PassShade(passed)), RowColour(1, SpareShade(log.value.availableSpare.value))]
  {
    var r := NvmeRows(passed, log, size).value;
    var two := [RowColour(0, PassShade(passed)), RowColour(1, SpareShade(log.value.availableSpare.value))];
    NameShades(r[2].value);
    NameShades(r[3].value);
    NameShades(r[4].value);
    NameShades(r[5].value);
    NameShades(r[6].value);
    NameShades(r[7].value);
    ColoursOfAppend([], r[0]);
    ColoursOfAppend(r[..1], r[1]);
    assert r[..1] == [] + [r[0]] && r[..2] == r[..1] + [r[1]];
    assert ColoursOf(r[..2]) == two;
    ColoursPlain(r, 2);
  }

  /** Uncoloured rows after the first `k` add no colours. */
  lemma {:induction false} ColoursPlain(rows: seq<Row>, k: nat)
    requires k <= |rows|
    requires forall m | k <= m < |rows| :: ExpectedShade(rows[m]).None?
    ensures ColoursOf(rows) == ColoursOf(rows[..k])
    decreases |rows| - k
  {
    if k < |rows| {
      ColoursPlain(rows, k + 1);
      ColoursOfAppend(rows[..k], rows[k]);
      assert rows[..k + 1] == rows[..k] + [rows[k]];
    } else {
      assert rows[..k] == rows;
    }
  }

  /**
   * Whatever the table, its colour list is exactly one entry per coloured
   * row, in order, each at its own row's index: row 0 green iff the passed
   * value `== True`, available spare yellow below 80, RAS / Pending / GSENSE
   * red iff positive.
   */
  lemma ColoursFollowRows(data: SmartData, size: int -> string)
    requires TableSpec(data, size).Built?
    ensures var out := TableSpec(data, size);
      out.colours == ColoursOf(out.rows)
      && forall c | c in out.colours :: c.index < |out.rows| && Some(c.shade) == ExpectedShade(out.rows[c.index])
  {
    var out := TableSpec(data, size);
    var passed := if data.smartStatusPassed.Some? then data.smartStatusPassed.value else JStr("n/a");
    var ata := data.protocol.Some? && data.protocol.value != "NVMe" && data.selfTestStatus.Some?
      && PowerOnHours(data).Some? && data.powerCycleCount.Some? && data.attributes.Some?;
    if ata {
      var ataPassed := if data.selfTestPassed.Some? then data.selfTestPassed.value else JStr("N/A");
      var head := AtaHead(ataPassed, data.selfTestStatus.value, PowerOnHours(data).value, data.powerCycleCount.value, size);
      if AttributeRows(head, data.attributes.value, size).Some? {
        HeadColours(ataPassed, data.selfTestStatus.value, PowerOnHours(data).value, data.powerCycleCount.value, size);
        AttributeRowsKeepColours(head, data.attributes.value, size);
      } else {
        assert ColoursOf([]) == [];
      }
    } else if data.protocol.Some? && data.protocol.value == "NVMe" && NvmeRows(passed, data.nvmeLog, size).Some? {
      NvmeColours(passed, data.nvmeLog, size);
      assert out.rows[0].value == passed;
    } else {
      assert ColoursOf([]) == [];
    }
    ColoursOfIndices(out.rows);
  }

  /** A row-0 colour always exists for a non-empty table, and it follows the passed value. */
  lemma FirstRowColour(data: SmartData, size: int -> string)
    requires TableSpec(data, size).Built? && |TableSpec(data, size).rows| > 0
    ensures var out := TableSpec(data, size);
      |out.colours| > 0 && out.colours[0] == RowColour(0, PassShade(out.rows[0].value))
  {
    var out := TableSpec(data, size);
    if data.protocol.value != "NVMe" {
      var head := AtaHead(
        if data.selfTestPassed.Some? then data.selfTestPassed.value else JStr("N/A"),
        data.selfTestStatus.value, PowerOnHours(data).value, data.powerCycleCount.value, size);
      AttributeRowsPrefix(head, data.attributes.value, size);
    }
  }

  /** The attribute loop only appends: the rows and colours it starts from are kept in front. */
  lemma {:induction false} AttributeRowsPrefix(t: Table, attrs: seq<AtaAttribute>, size: int -> string)
    requires AttributeRows(t, attrs, size).Some?
    ensures var t' := AttributeRows(t, attrs, size).value;
      |t'.rows| >= |t.rows| && t'.rows[..|t.rows|] == t.rows
      && |t'.colours| >= |t.colours| && t'.colours[..|t.colours|] == t.colours
    decreases |attrs|
  {
    if |attrs| > 0 {
      var t1 := AttributeStep(t, attrs[0], size).value;
      assert t1.rows[..|t.rows|] == t.rows && t1.colours[..|t.colours|] == t.colours;
      AttributeRowsPrefix(t1, attrs[1..], size);
      var t' := AttributeRows(t1, attrs[1..], size).value;
      assert t'.rows[..|t.rows|] == t'.rows[..|t1.rows|][..|t.rows|];
      assert t'.colours[..|t.colours|] == t'.colours[..|t1.colours|][..|t.colours|];
    }
  }

  /** A key of the JSON that the table reads is missing (the KeyError path). */
  predicate MissingKey(data: SmartData)
  {
    || data.protocol.None?
    || (data.protocol.value == "NVMe" && NvmeLogMissing(data.nvmeLog))
    || (data.protocol.value != "NVMe" && data.selfTestStatus.None?)
    || (data.protocol.value != "NVMe" && PowerOnHours(data).Some?
        && (data.powerCycleCount.None? || data.attributes.None?
            || exists k | 0 <= k < |data.attributes.value| :: AttributeMissingKey(data.attributes.value[k])))
  }

  /**
   * The outcomes of `make_table_data`: the empty pair exactly on a missing
   * key; an escaping exception exactly for an ATA drive with a status string
   * but neither power-on hours nor seconds; otherwise a table with eight rows
   * (NVMe) or at least the four fixed ones (ATA).
   */
  lemma TableOutcomes(data: SmartData, size: int -> string)
    ensures TableSpec(data, size) == Built([], []) <==> MissingKey(data)
    ensures TableSpec(data, size) == Raised <==>
      data.protocol.Some? && data.protocol.value != "NVMe" && data.selfTestStatus.Some?
      && data.powerOnHours.None? && data.powerOnSeconds.None?
    ensures TableSpec(data, size).Built? && !MissingKey(data) ==>
      (data.protocol.value == "NVMe" ==> |TableSpec(data, size).rows| == 8)
      && |TableSpec(data, size).rows| >= 4
  {
    if data.protocol.Some? && data.protocol.value != "NVMe" && data.selfTestStatus.Some? && PowerOnHours(data).Some?
       && data.powerCycleCount.Some? && data.attributes.Some? {
      var head := AtaHead(
        if data.selfTestPassed.Some? then data.selfTestPassed.value else JStr("N/A"),
        data.selfTestStatus.value, PowerOnHours(data).value, data.powerCycleCount.value, size);
      AttributeRowsFailIff(head, data.attributes.value, size);
      if AttributeRows(head, data.attributes.value, size).Some? {
        AttributeRowsPrefix(head, data.attributes.value, size);
      }
    }
  }
}
