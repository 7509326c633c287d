/** The event record of scripts/events_scraper.py: the values it holds, the
    REPORT_FIELDS and REACTOR_STATUS_FIELDS tables, and the "Label: value"
    lines of the report's layout table that fill it. */
module ScraperFields {
  import opened Wrappers
  import opened Text
  import opened ScraperTime

  /** The exception that ends a scraping run */
  datatype Fault =
    | IndexError
    | KeyError(key: string)
    | ValueError
    | AttributeError
    | AssertionError
    | StopIteration
    | TypeError

  /** One value of a reactor-status record: the cell text as read, or the
      int or flag it is normalised to. */
  datatype Cell = CStr(text: string) | CInt(n: int) | CBool(flag: bool)

  /** One value of the event dictionary */
  datatype Value =
    | Str(s: string)
    | Bool(b: bool)
    | Int(n: int)
    | Time(t: Converted)
    | Sections(sections: seq<seq<string>>)
    | People(people: seq<(string, string)>)
    | RawStatuses(rows: seq<map<string, string>>)
    | Statuses(units: seq<map<string, Cell>>)
    | Lines(lines: seq<string>)

  /** The event dictionary */
  type Fields = map<string, Value>

  /** Field labels of the report, translated to the record's keys */
  const ReportFields: map<string, string> := map[
    "URL" := "url",
    "Retracted" := "retracted",
    "Event Type" := "type",
    "Event Number" := "event_number",
    "Facility" := "facility",
    "Region" := "region",
    "State" := "state",
    "Unit" := "unit",
    "RX Type" := "rx_type",
    "NRC Notified By" := "nrc_notified_by",
    "HQ OPS Officer" := "hq_ops_officer",
    "Emergency Class" := "emergency",
    "10 CFR Section" := "cfr10_sections",
    "Notification Date" := "report_date",
    "Notification Time" := "report_time",
    "Event Date" := "event_date",
    "Event Time" := "event_time",
    "Last Update Date" := "update_date",
    "Person (Organization)" := "people",
    "Reactor Status" := "reactor_status",
    "SCRAM Code" := "scram",
    "RX CRIT" := "critical",
    "Initial PWR" := "initial_power",
    "Initial RX Mode" := "initial_mode",
    "Current PWR" := "current_power",
    "Current RX Mode" := "current_mode",
    "Subject" := "subject",
    "Event Text" := "body"
  ]

  /** Column keys of the reactor-status table, left to right */
  const ReactorStatusFields: seq<string> := [
    "unit", "scram", "critical",
    "initial_power", "initial_mode",
    "current_power", "current_mode"
  ]

  /** The record every event starts from: its URL (page URL, '#', anchor
      name) and not retracted. */
  function Start(url: string, name: string): Fields
  {
    map["url" := Str(url + "#" + name), "retracted" := Bool(false)]
  }

  /** The event dictionary, updated in place while a report is read and
      normalised. */
  class Event {
    var fields: Fields

    constructor (url: string, name: string)
      ensures fields == Start(url, name)
    {
      fields := Start(url, name);
    }
  }

  // ---------------------------------------------------------------------------
  // "Label: value" lines

  /** `re.split(r'(?u):\s*', line, 1)`: the text before the first colon and,
      when there is a colon, what follows it once the whitespace after the
      colon is skipped. */
  function SplitField(line: string): (r: (string, Option<string>))
    ensures r.1.None? ==> r.0 == line && ':' !in line
    ensures r.1.Some? ==>
      var n := |r.0|;
      var j := |line| - |r.1.value|;
      n < j <= |line| && line[..n] == r.0 && ':' !in r.0 && line[n] == ':'
      && line[j..] == r.1.value
      && (forall k | n < k < j :: IsUnicodeSpace(line[k]))
      && (j < |line| ==> !IsUnicodeSpace(line[j]))
  {
    var name := SplitFirst(line, ":").0;
    var rest := SplitFirst(line, ":").1;
    ContainsChar(line, ':');
    ContainsChar(name, ':');
    if rest.None? then (line, None)
    else
      var skip := RunEnd(rest.value, 0, IsUnicodeSpace);
      assert line == name + ":" + rest.value;
      assert line[|name| + 1..] == rest.value;
      (name, Some(rest.value[skip..]))
  }

  /** The line names a field and gives it a value: the record's key is set. */
  predicate Assigns(line: string, key: string)
  {
    var name := SplitField(line).0;
    var value := SplitField(line).1;
    name in ReportFields && ReportFields[name] == key && value.Some?
  }

  /** The line is a known label with no colon: reading its value fails. */
  predicate BareLabel(line: string)
  {
    var name := SplitField(line).0;
    var value := SplitField(line).1;
    name in ReportFields && value.None?
  }

  /** One line of a layout cell: a line whose label is in REPORT_FIELDS
      sets that field to its value; other lines are skipped; a bare label
      is the IndexError of `res[1]`. */
  function AddFieldLine(e: Fields, line: string): (r: Result<Fields, Fault>)
    ensures r.Err? <==> BareLabel(line)
    ensures r.Err? ==> r.error == IndexError
  {
    var name := SplitField(line).0;
    var value := SplitField(line).1;
    if name !in ReportFields then Ok(e)
    else if value.None? then Err(IndexError)
    else Ok(e[ReportFields[name] := Str(value.value)])
  }

  /** A line that does not assign a key leaves it as it was. */
  lemma AddFieldLineKeeps(e: Fields, line: string, key: string)
    requires AddFieldLine(e, line).Ok? && !Assigns(line, key)
    ensures var r := AddFieldLine(e, line).value;
      (key in r <==> key in e) && (key in e ==> r[key] == e[key])
  {
  }

  /** A line that assigns a key sets it to the line's value. */
  lemma AddFieldLineSets(e: Fields, line: string, key: string)
    requires Assigns(line, key)
    ensures AddFieldLine(e, line).Ok?
    ensures var r := AddFieldLine(e, line).value;
      key in r && r[key] == Str(SplitField(line).1.value)
  {
  }

  /** The per-line loop over a layout cell, stopping at the first bare
      label. */
  function AddFieldLines(e: Fields, lines: seq<string>): (r: Result<Fields, Fault>)
    ensures r.Err? <==> exists i | 0 <= i < |lines| :: BareLabel(lines[i])
    ensures r.Err? ==> r.error == IndexError
    decreases |lines|
  {
    if |lines| == 0 then Ok(e)
    else
      assert forall i | 1 <= i < |lines| :: lines[1..][i - 1] == lines[i];
      match AddFieldLine(e, lines[0])
      case Err(f) => Err(f)
      case Ok(e1) => AddFieldLines(e1, lines[1..])
  }

  /** The lines after the first assign key no more than all of them do. */
  lemma TailAssignsNot(lines: seq<string>, key: string, i: nat)
    requires i < |lines|
    requires forall j | i < j < |lines| :: !Assigns(lines[j], key)
    ensures forall j | i <= j < |lines[1..]| :: !Assigns(lines[1..][j], key)
  {
    forall j | i <= j < |lines[1..]| ensures !Assigns(lines[1..][j], key) {
      assert lines[1..][j] == lines[j + 1];
    }
  }

  /** A key that no line assigns keeps what it had (present or absent). */
  lemma {:induction false} AddFieldLinesKeeps(e: Fields, lines: seq<string>, key: string)
    requires AddFieldLines(e, lines).Ok?
    requires forall i | 0 <= i < |lines| :: !Assigns(lines[i], key)
    ensures var r := AddFieldLines(e, lines).value;
      (key in r <==> key in e) && (key in e ==> r[key] == e[key])
    decreases |lines|
  {
    if |lines| > 0 {
      var e' := AddFieldLine(e, lines[0]).value;
      assert AddFieldLines(e, lines) == AddFieldLines(e', lines[1..]);
      AddFieldLineKeeps(e, lines[0], key);
      TailAssignsNot(lines, key, 0);
      AddFieldLinesKeeps(e', lines[1..], key);
    }
  }

  /** Last line wins: a key that line i assigns and no later line does ends
      up holding line i's value. */
  lemma {:induction false} AddFieldLinesLastWins(e: Fields, lines: seq<string>, key: string, i: nat)
    requires AddFieldLines(e, lines).Ok?
    requires i < |lines| && Assigns(lines[i], key)
    requires forall j | i < j < |lines| :: !Assigns(lines[j], key)
    ensures var r := AddFieldLines(e, lines).value;
      key in r && r[key] == Str(SplitField(lines[i]).1.value)
    decreases |lines|
  {
    var e' := AddFieldLine(e, lines[0]).value;
    var tail := lines[1..];
    assert AddFieldLines(e, lines) == AddFieldLines(e', tail);
    if i > 0 {
      assert tail[i - 1] == lines[i];
      TailAssignsNot(lines, key, i);
      AddFieldLinesLastWins(e', tail, key, i - 1);
    } else {
      TailAssignsNot(lines, key, 0);
      AddFieldLineSets(e, lines[0], key);
      AddFieldLinesKeeps(e', tail, key);
    }
  }

  /** The two `for line in meta_cells[n].stripped_strings` loops of
      parse_event_page, on the event in place. */
  method ReadFields(ev: Event, lines: seq<string>) returns (r: Result<(), Fault>)
    modifies ev
    ensures AddFieldLines(old(ev.fields), lines).Ok? ==>
      r.Ok? && ev.fields == AddFieldLines(old(ev.fields), lines).value
    ensures AddFieldLines(old(ev.fields), lines).Err? ==> r == Err(IndexError)
  {
    var i := 0;
    while i < |lines|
      invariant 0 <= i <= |lines|
      invariant AddFieldLines(old(ev.fields), lines) == AddFieldLines(ev.fields, lines[i..])
    {
      assert lines[i..][1..] == lines[i + 1..];
      var name := SplitField(lines[i]).0;
      var value := SplitField(lines[i]).1;
      if name in ReportFields {
        if value.None? {
          return Err(IndexError);
        }
        ev.fields := ev.fields[ReportFields[name] := Str(value.value)];
      }
      i := i + 1;
    }
    return Ok(());
  }
}
