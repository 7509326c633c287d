/** process_event of scripts/events_scraper.py: the in-place normalisation of
    a freshly read event. The event number becomes an int; the region,
    state and reactor type are dropped after the state has chosen the time
    zone rule; the three dates are converted; the bracketed list of affected
    units is merged into the reactor-status records, whose numbers become
    ints and whose criticality flag becomes a bool. */
module ScraperProcess {
  import opened Wrappers
  import opened Text
  import opened ScraperTime
  import opened ScraperFields

  // ---------------------------------------------------------------------------
  // Dictionary access

  /** `event[key]` used as a string: a missing key is a KeyError. */
  function GetStr(e: Fields, key: string): Result<string, Fault>
  {
    if key !in e then Err(KeyError(key))
    else if e[key].Str? then Ok(e[key].s)
    else Err(TypeError)
  }

  /** `del event[key]` */
  function Delete(e: Fields, key: string): Result<Fields, Fault>
  {
    if key in e then Ok(e - {key}) else Err(KeyError(key))
  }

  /** `int(text)` */
  function IntOf(text: string): Result<int, Fault>
  {
    match ParseInt(text)
    case None => Err(ValueError)
    case Some(n) => Ok(n)
  }

  // ---------------------------------------------------------------------------
  // Affected units

  /** s[i..j + 1] is a bracketed run of digits "[n]" */
  predicate BracketAt(s: string, i: int, j: int)
  {
    0 <= i && i + 1 < j < |s| && s[i] == '[' && s[j] == ']' && AllDigits(s[i + 1..j])
  }

  /** `[int(u) for u in re.findall(r'\[(\d+)\]', unit)]`: the numbers in
      square brackets, left to right; a bracket holding anything but digits
      (such as the no-break space of an unaffected unit) gives nothing. */
  function BracketNumbers(s: string): seq<int>
    decreases |s|
  {
    if |s| == 0 then []
    else
      var j := RunEnd(s, 1, IsDigit);
      if s[0] == '[' && j > 1 && j < |s| && s[j] == ']' then
        assert AllDigits(s[1..j]) by {
          forall k | 0 <= k < j - 1 ensures IsDigit(s[1..j][k]) {
            assert s[1..j][k] == s[k + 1];
          }
        }
        [DigitsValue(s[1..j]) as int] + BracketNumbers(s[j + 1..])
      else
        BracketNumbers(s[1..])
  }

  /** A bracketed run at the start ends where the digit run from index 1
      ends. */
  lemma BracketEnd(s: string, j: int)
    ensures BracketAt(s, 0, j) ==> RunEnd(s, 1, IsDigit) == j
  {
    if BracketAt(s, 0, j) {
      var e := RunEnd(s, 1, IsDigit);
      assert forall k | 1 <= k < j :: IsDigit(s[k]) by {
        forall k | 1 <= k < j ensures IsDigit(s[k]) {
          assert s[1..j][k - 1] == s[k];
        }
      }
      assert !IsDigit(s[j]);
    }
  }

  /** A bracketed run in a suffix s[d..] is one in s, d places further on. */
  lemma BracketShift(s: string, d: nat, i: int, j: int)
    requires d <= |s|
    ensures BracketAt(s[d..], i, j) <==> i >= 0 && BracketAt(s, i + d, j + d)
    ensures BracketAt(s[d..], i, j) ==> s[d..][i + 1..j] == s[i + d + 1..j + d]
  {
    if 0 <= i && i + 1 < j < |s| - d {
      assert s[d..][i + 1..j] == s[i + d + 1..j + d];
      assert s[d..][i] == s[i + d] && s[d..][j] == s[j + d];
    }
  }

  /** Every number found is the value of a bracketed digit run. */
  lemma {:induction false} BracketNumbersSound(s: string, x: int)
    requires x in BracketNumbers(s)
    ensures exists i, j :: BracketAt(s, i, j) && DigitsValue(s[i + 1..j]) == x
    decreases |s|
  {
    var j := RunEnd(s, 1, IsDigit);
    if s[0] == '[' && j > 1 && j < |s| && s[j] == ']' {
      assert AllDigits(s[1..j]) by {
        forall k | 0 <= k < j - 1 ensures IsDigit(s[1..j][k]) {
          assert s[1..j][k] == s[k + 1];
        }
      }
      assert BracketAt(s, 0, j);
      if x != DigitsValue(s[1..j]) {
        BracketNumbersSound(s[j + 1..], x);
        var i', j' :| BracketAt(s[j + 1..], i', j') && DigitsValue(s[j + 1..][i' + 1..j']) == x;
        BracketShift(s, j + 1, i', j');
      }
    } else {
      BracketNumbersSound(s[1..], x);
      var i', j' :| BracketAt(s[1..], i', j') && DigitsValue(s[1..][i' + 1..j']) == x;
      BracketShift(s, 1, i', j');
    }
  }

  /** One step of the scan: a leading "[digits]" gives its number, anything
      else is skipped by one character. */
  lemma BracketStep(s: string)
    requires |s| > 0
    ensures var e := RunEnd(s, 1, IsDigit);
      && (BracketAt(s, 0, e) ==> BracketNumbers(s) == [DigitsValue(s[1..e]) as int] + BracketNumbers(s[e + 1..]))
      && (!BracketAt(s, 0, e) ==> BracketNumbers(s) == BracketNumbers(s[1..]))
  {
  }

  /** A bracketed run at the start is the first number found. */
  lemma BracketFirst(s: string, j: int)
    requires BracketAt(s, 0, j)
    ensures |BracketNumbers(s)| > 0 && BracketNumbers(s)[0] == DigitsValue(s[1..j]) as int
  {
    BracketStep(s);
    BracketEnd(s, j);
  }

  /** The scan's next position: past a leading "[digits]", or one on. */
  function ScanNext(s: string): (d: nat)
    requires |s| > 0
    ensures 1 <= d <= |s|
  {
    var e := RunEnd(s, 1, IsDigit);
    if BracketAt(s, 0, e) then e + 1 else 1
  }

  /** The numbers found past the scan's next position are found in s. */
  lemma ScanNextKeeps(s: string)
    requires |s| > 0
    ensures forall x | x in BracketNumbers(s[ScanNext(s)..]) :: x in BracketNumbers(s)
  {
    BracketStep(s);
  }

  /** A bracketed run after the start begins at or past the scan's next
      position. */
  lemma ScanNextBefore(s: string, i: int, j: int)
    requires BracketAt(s, i, j) && i > 0
    ensures ScanNext(s) <= i
  {
    var e := RunEnd(s, 1, IsDigit);
    assert !IsDigit(s[i]);
    if BracketAt(s, 0, e) {
      assert s[e] != s[i];
    }
  }

  /** A later bracketed run is one of the rest of the scan. */
  lemma BracketNext(s: string, i: int, j: int)
    requires BracketAt(s, i, j) && i > 0
    ensures var d := ScanNext(s);
      d <= i && BracketAt(s[d..], i - d, j - d) && s[d..][i - d + 1..j - d] == s[i + 1..j]
      && forall x | x in BracketNumbers(s[d..]) :: x in BracketNumbers(s)
  {
    ScanNextBefore(s, i, j);
    ScanNextKeeps(s);
    var d := ScanNext(s);
    BracketShift(s, d, i - d, j - d);
  }

  /** Every bracketed digit run is found. */
  lemma {:induction false} BracketNumbersComplete(s: string, i: int, j: int)
    requires BracketAt(s, i, j)
    ensures DigitsValue(s[i + 1..j]) as int in BracketNumbers(s)
    decreases |s|
  {
    if i == 0 {
      BracketFirst(s, j);
    } else {
      var d := ScanNext(s);
      BracketNext(s, i, j);
      BracketNumbersComplete(s[d..], i - d, j - d);
    }
  }

  /** The numbers found are exactly the values of the bracketed digit runs
      of the text. */
  lemma BracketNumbersIff(s: string, x: int)
    ensures x in BracketNumbers(s) <==>
      exists i, j :: BracketAt(s, i, j) && DigitsValue(s[i + 1..j]) == x
  {
    if x in BracketNumbers(s) {
      BracketNumbersSound(s, x);
    }
    if exists i, j :: BracketAt(s, i, j) && DigitsValue(s[i + 1..j]) == x {
      var i, j :| BracketAt(s, i, j) && DigitsValue(s[i + 1..j]) == x;
      BracketNumbersComplete(s, i, j);
    }
  }

  // ---------------------------------------------------------------------------
  // Reactor-status records

  /** `int(unit[key])` */
  function IntField(row: map<string, string>, key: string): Result<int, Fault>
  {
    if key !in row then Err(KeyError(key)) else IntOf(row[key])
  }

  /** A row as read: every value still a string */
  function AsCells(row: map<string, string>): map<string, Cell>
  {
    map k | k in row :: CStr(row[k])
  }

  /** What a row needs for its normalisation to go through: unit and both
      power readings are integers, and the criticality flag is Y or N. */
  predicate RowNormalizes(row: map<string, string>)
  {
    && IntField(row, "unit").Ok?
    && IntField(row, "initial_power").Ok?
    && IntField(row, "current_power").Ok?
    && "critical" in row && (row["critical"] == "Y" || row["critical"] == "N")
  }

  /** The normalised record built from the numbers read off a row */
  function Record(row: map<string, string>, u: int, initial: int, current: int, affected: seq<int>): map<string, Cell>
  {
    AsCells(row)["unit" := CInt(u)]["affected" := CBool(u in affected)]
      ["initial_power" := CInt(initial)]["current_power" := CInt(current)]
      ["critical" := CBool("critical" in row && row["critical"] == "Y")]
  }

  /** One pass of the loop over event['reactor_status'] */
  function NormalizeRow(row: map<string, string>, affected: seq<int>): Result<map<string, Cell>, Fault>
  {
    var u :- IntField(row, "unit");
    var initial :- IntField(row, "initial_power");
    var current :- IntField(row, "current_power");
    if "critical" !in row then Err(KeyError("critical"))
    else if row["critical"] != "Y" && row["critical"] != "N" then Err(AssertionError)
    else Ok(Record(row, u, initial, current, affected))
  }

  /** A row goes through exactly when its numbers are integers and its flag
      is Y or N; the first of unit, initial power, current power and flag
      that is missing or unreadable decides the error, a flag that is
      neither Y nor N being the AssertionError. */
  lemma NormalizeRowFails(row: map<string, string>, affected: seq<int>)
    ensures NormalizeRow(row, affected).Ok? <==> RowNormalizes(row)
    ensures IntField(row, "unit").Err? ==> NormalizeRow(row, affected) == Err(IntField(row, "unit").error)
    ensures "unit" !in row ==> NormalizeRow(row, affected) == Err(KeyError("unit"))
    ensures ("critical" in row && row["critical"] != "Y" && row["critical"] != "N"
             && RowNormalizes(row["critical" := "Y"])) ==> NormalizeRow(row, affected) == Err(AssertionError)
  {
    if "critical" in row && RowNormalizes(row["critical" := "Y"]) {
      assert "unit" != "critical" && "initial_power" != "critical" && "current_power" != "critical";
      assert IntField(row, "unit") == IntField(row["critical" := "Y"], "unit");
      assert IntField(row, "initial_power") == IntField(row["critical" := "Y"], "initial_power");
      assert IntField(row, "current_power") == IntField(row["critical" := "Y"], "current_power");
    }
  }

  /** A normalisable row gives the record of its numbers. */
  lemma NormalizeRowOk(row: map<string, string>, affected: seq<int>)
    requires RowNormalizes(row)
    ensures NormalizeRow(row, affected) == Ok(Record(row,
      IntField(row, "unit").value, IntField(row, "initial_power").value,
      IntField(row, "current_power").value, affected))
  {
  }

  /** A normalised record: unit and powers as ints, the flag as a bool, the
      affected flag added, every other column still its text. */
  lemma RecordFields(row: map<string, string>, u: int, initial: int, current: int, affected: seq<int>)
    ensures var r := Record(row, u, initial, current, affected);
      && (forall k :: k in r <==> k in row || k in ["unit", "affected", "initial_power", "current_power", "critical"])
      && r["unit"] == CInt(u)
      && r["affected"] == CBool(u in affected)
      && r["initial_power"] == CInt(initial)
      && r["current_power"] == CInt(current)
      && r["critical"] == CBool("critical" in row && row["critical"] == "Y")
      && forall k | k in row && k !in ["unit", "affected", "initial_power", "current_power", "critical"]
           :: r[k] == CStr(row[k])
  {
    assert |"unit"| == 4 && |"affected"| == 8 && |"initial_power"| == 13;
    assert |"current_power"| == 13 && |"critical"| == 8;
    assert "initial_power"[0] != "current_power"[0] && "affected"[0] != "critical"[0];
  }

  /** The records of a sequence of row results, or the first failure */
  function Collect(results: seq<Result<map<string, Cell>, Fault>>): Result<seq<map<string, Cell>>, Fault>
    decreases |results|
  {
    if |results| == 0 then Ok([])
    else if results[0].Err? then Err(results[0].error)
    else
      var tail :- Collect(results[1..]);
      Ok([results[0].value] + tail)
  }

  /** Collect succeeds exactly when every result does, keeps their order,
      and otherwise fails with the first failure. */
  lemma {:induction false} CollectSpec(results: seq<Result<map<string, Cell>, Fault>>)
    ensures var r := Collect(results);
      && (r.Ok? <==> forall k | 0 <= k < |results| :: results[k].Ok?)
      && (r.Ok? ==> |r.value| == |results| && forall k | 0 <= k < |results| :: r.value[k] == results[k].value)
      && (r.Err? ==> exists k | 0 <= k < |results| ::
           && results[k].Err? && r.error == results[k].error
           && forall j | 0 <= j < k :: results[j].Ok?)
    decreases |results|
  {
    if |results| > 0 && results[0].Ok? {
      var rest := results[1..];
      CollectSpec(rest);
      assert forall k | 1 <= k < |results| :: rest[k - 1] == results[k];
      if Collect(rest).Err? {
        var k :| 0 <= k < |rest| && rest[k].Err? && Collect(rest).error == rest[k].error
          && forall j | 0 <= j < k :: rest[j].Ok?;
        assert results[k + 1] == rest[k];
        assert forall j | 0 <= j < k + 1 :: results[j].Ok? by {
          forall j | 0 <= j < k + 1 ensures results[j].Ok? {
            if j > 0 { assert results[j] == rest[j - 1]; }
          }
        }
      }
    }
  }

  /** The result of normalising each row on its own */
  function RowResults(rows: seq<map<string, string>>, affected: seq<int>): (r: seq<Result<map<string, Cell>, Fault>>)
    ensures |r| == |rows| && forall k | 0 <= k < |rows| :: r[k] == NormalizeRow(rows[k], affected)
  {
    seq(|rows|, k requires 0 <= k < |rows| => NormalizeRow(rows[k], affected))
  }

  /** The whole loop over event['reactor_status'] */
  function NormalizeRows(rows: seq<map<string, string>>, affected: seq<int>): Result<seq<map<string, Cell>>, Fault>
  {
    Collect(RowResults(rows, affected))
  }

  /** Every row normalised in order, or the first failing row's error. */
  lemma NormalizeRowsSpec(rows: seq<map<string, string>>, affected: seq<int>)
    ensures var r := NormalizeRows(rows, affected);
      && (r.Ok? <==> forall k | 0 <= k < |rows| :: NormalizeRow(rows[k], affected).Ok?)
      && (r.Ok? ==> (|r.value| == |rows|
           && forall k | 0 <= k < |rows| :: r.value[k] == NormalizeRow(rows[k], affected).value))
      && (r.Err? ==> exists k | 0 <= k < |rows| ::
           && NormalizeRow(rows[k], affected).Err? && r.error == NormalizeRow(rows[k], affected).error
           && forall j | 0 <= j < k :: NormalizeRow(rows[j], affected).Ok?)
  {
    var results := RowResults(rows, affected);
    CollectSpec(results);
    var r := Collect(results);
    if r.Err? {
      var k :| 0 <= k < |results| && results[k].Err? && r.error == results[k].error
        && forall j | 0 <= j < k :: results[j].Ok?;
      assert results[k] == NormalizeRow(rows[k], affected);
    }
  }

  /** The loop over event['reactor_status'], one status record at a time. */
  method NormalizeUnits(rows: seq<map<string, string>>, affected: seq<int>) returns (r: Result<seq<map<string, Cell>>, Fault>)
    ensures r == NormalizeRows(rows, affected)
  {
    ghost var results := RowResults(rows, affected);
    var done: seq<map<string, Cell>> := [];
    var i := 0;
    assert results[i..] == results;
    if Collect(results).Ok? {
      assert done + Collect(results).value == Collect(results).value;
    }
    while i < |rows|
      invariant 0 <= i <= |rows|
      invariant Collect(results[i..]).Err? ==> Collect(results) == Collect(results[i..])
      invariant Collect(results[i..]).Ok? ==> Collect(results) == Ok(done + Collect(results[i..]).value)
    {
      var unit := NormalizeRow(rows[i], affected);
      ghost var rest := results[i..];
      assert rest[1..] == results[i + 1..];
      assert rest[0] == unit;
      if unit.Err? {
        return Err(unit.error);
      }
      if Collect(results[i + 1..]).Ok? {
        ghost var tail := Collect(results[i + 1..]).value;
        assert done + ([unit.value] + tail) == (done + [unit.value]) + tail;
      }
      done := done + [unit.value];
      i := i + 1;
    }
    assert results[i..] == [];
    assert done + [] == done;
    return Ok(done);
  }

  // ---------------------------------------------------------------------------
  // process_event

  /** The event number as an int */
  function TakeNumber(e: Fields): Result<Fields, Fault>
  {
    var text :- GetStr(e, "event_number");
    var n :- IntOf(text);
    Ok(e["event_number" := Int(n)])
  }

  /** Whether the event's state observes daylight saving time */
  function UseDst(e: Fields): bool
    requires "state" in e
  {
    e["state"] != Str("AZ")
  }

  /** The location fields, dropped after the state has been looked at */
  function DropLocation(e: Fields): Result<Fields, Fault>
  {
    var e1 :- Delete(e, "region");
    var e2 :- Delete(e1, "state");
    Delete(e2, "rx_type")
  }

  /** The three conversions: the update date alone, the event time in the
      facility's zone rule, the report time always with daylight saving
      time; then the date fields merged into them are dropped. */
  function ConvertTimes(e: Fields, useDst: bool): Result<Fields, Fault>
  {
    var update :- GetStr(e, "update_date");
    var e1 := e["update_date" := Time(ConvertTime(update, None, true))];
    var eventDate :- GetStr(e1, "event_date");
    var eventTime :- GetStr(e1, "event_time");
    var e2 := e1["event_time" := Time(ConvertTime(eventDate, Some(eventTime), useDst))];
    var reportDate :- GetStr(e2, "report_date");
    var reportTime :- GetStr(e2, "report_time");
    var e3 := e2["report_time" := Time(ConvertTime(reportDate, Some(reportTime), true))];
    var e4 :- Delete(e3, "event_date");
    Delete(e4, "report_date")
  }

  /** The affected-unit merge into the normalised status records */
  function MergeUnits(e: Fields): Result<Fields, Fault>
  {
    var unitText :- GetStr(e, "unit");
    var e1 :- Delete(e, "unit");
    if "reactor_status" !in e1 then Err(KeyError("reactor_status"))
    else if !e1["reactor_status"].RawStatuses? then Err(TypeError)
    else
      var units :- NormalizeRows(e1["reactor_status"].rows, BracketNumbers(unitText));
      Ok(e1["reactor_status" := Statuses(units)])
  }

  /** process_event as a function of the event before it */
  function ProcessFields(e: Fields): Result<Fields, Fault>
  {
    var e1 :- TakeNumber(e);
    if "state" !in e1 then Err(KeyError("state"))
    else
      var useDst := UseDst(e1);
      var e2 :- DropLocation(e1);
      var e3 :- ConvertTimes(e2, useDst);
      MergeUnits(e3)
  }

  /** A successful run went through every stage. */
  lemma ProcessStages(e: Fields)
    requires ProcessFields(e).Ok?
    ensures TakeNumber(e).Ok? && "state" in TakeNumber(e).value
    ensures var e1 := TakeNumber(e).value;
      && DropLocation(e1).Ok?
      && ConvertTimes(DropLocation(e1).value, UseDst(e1)).Ok?
      && MergeUnits(ConvertTimes(DropLocation(e1).value, UseDst(e1)).value).Ok?
      && ProcessFields(e) == MergeUnits(ConvertTimes(DropLocation(e1).value, UseDst(e1)).value)
  {
  }

  /** The event number stage */
  lemma TakeNumberOk(e: Fields)
    requires TakeNumber(e).Ok?
    ensures "event_number" in e && e["event_number"].Str? && IntOf(e["event_number"].s).Ok?
    ensures TakeNumber(e).value == e["event_number" := Int(IntOf(e["event_number"].s).value)]
  {
  }

  /** The location stage */
  lemma DropLocationOk(e: Fields)
    requires DropLocation(e).Ok?
    ensures "region" in e && "state" in e && "rx_type" in e
    ensures DropLocation(e).value == e - {"region", "state", "rx_type"}
  {
  }

  /** The time stage */
  lemma ConvertTimesOk(e: Fields, useDst: bool)
    requires ConvertTimes(e, useDst).Ok?
    ensures "update_date" in e && "event_date" in e && "event_time" in e
      && "report_date" in e && "report_time" in e
    ensures e["update_date"].Str? && e["event_date"].Str? && e["event_time"].Str?
      && e["report_date"].Str? && e["report_time"].Str?
    ensures ConvertTimes(e, useDst).value ==
      e["update_date" := Time(ConvertTime(e["update_date"].s, None, true))]
       ["event_time" := Time(ConvertTime(e["event_date"].s, Some(e["event_time"].s), useDst))]
       ["report_time" := Time(ConvertTime(e["report_date"].s, Some(e["report_time"].s), true))]
      - {"event_date", "report_date"}
  {
    assert "update_date" != "event_date" && "update_date" != "event_time";
    assert "update_date" != "report_date" && "update_date" != "report_time";
    assert "event_time" != "report_date" && "event_time" != "report_time";
  }

  /** The unit stage */
  lemma MergeUnitsOk(e: Fields)
    requires MergeUnits(e).Ok?
    ensures "unit" in e && e["unit"].Str? && "reactor_status" in e && e["reactor_status"].RawStatuses?
    ensures NormalizeRows(e["reactor_status"].rows, BracketNumbers(e["unit"].s)).Ok?
    ensures MergeUnits(e).value == (e - {"unit"})["reactor_status" :=
      Statuses(NormalizeRows(e["reactor_status"].rows, BracketNumbers(e["unit"].s)).value)]
  {
    assert "unit" != "reactor_status";
  }

  /** The keys process_event writes or deletes */
  predicate Touched(k: string)
  {
    k in {"event_number", "region", "state", "rx_type", "update_date", "event_date",
          "event_time", "report_date", "report_time", "unit", "reactor_status"}
  }

  /** The record process_event leaves, given the values it computes */
  function Processed(e: Fields, number: int, update: Value, event: Value, report: Value, units: Value): Fields
  {
    ((((e["event_number" := Int(number)] - {"region", "state", "rx_type"})
      ["update_date" := update]["event_time" := event]["report_time" := report]
      - {"event_date", "report_date"}) - {"unit"})["reactor_status" := units])
  }

  /** A successful run leaves the Processed record of its computed values. */
  lemma ProcessedIs(e: Fields)
    requires ProcessFields(e).Ok?
    ensures "event_number" in e && e["event_number"].Str? && IntOf(e["event_number"].s).Ok?
    ensures "state" in e && "update_date" in e && "event_date" in e && "event_time" in e
      && "report_date" in e && "report_time" in e && "unit" in e && "reactor_status" in e
    ensures e["update_date"].Str? && e["event_date"].Str? && e["event_time"].Str?
      && e["report_date"].Str? && e["report_time"].Str?
      && e["unit"].Str? && e["reactor_status"].RawStatuses?
    ensures NormalizeRows(e["reactor_status"].rows, BracketNumbers(e["unit"].s)).Ok?
    ensures ProcessFields(e).value == Processed(e, IntOf(e["event_number"].s).value,
      Time(ConvertTime(e["update_date"].s, None, true)),
      Time(ConvertTime(e["event_date"].s, Some(e["event_time"].s), e["state"] != Str("AZ"))),
      Time(ConvertTime(e["report_date"].s, Some(e["report_time"].s), true)),
      Statuses(NormalizeRows(e["reactor_status"].rows, BracketNumbers(e["unit"].s)).value))
  {
    ProcessStages(e);
    var e1 := TakeNumber(e).value;
    TakeNumberOk(e);
    var e2 := DropLocation(e1).value;
    DropLocationOk(e1);
    var e3 := ConvertTimes(e2, UseDst(e1)).value;
    ConvertTimesOk(e2, UseDst(e1));
    MergeUnitsOk(e3);
    assert "state" in e && e1["state"] == e["state"] by {
      assert "state" != "event_number";
    }
    StageKeeps(e, e1, e2, "update_date");
    StageKeeps(e, e1, e2, "event_date");
    StageKeeps(e, e1, e2, "event_time");
    StageKeeps(e, e1, e2, "report_date");
    StageKeeps(e, e1, e2, "report_time");
    StageKeeps(e, e1, e2, "unit");
    StageKeeps(e, e1, e2, "reactor_status");
    var update := Time(ConvertTime(e2["update_date"].s, None, true));
    var event := Time(ConvertTime(e2["event_date"].s, Some(e2["event_time"].s), UseDst(e1)));
    var report := Time(ConvertTime(e2["report_date"].s, Some(e2["report_time"].s), true));
    TimesKeep(e2, e3, update, event, report, "unit");
    TimesKeep(e2, e3, update, event, report, "reactor_status");
  }

  /** The time stage keeps every key it does not name. */
  lemma TimesKeep(e2: Fields, e3: Fields, update: Value, event: Value, report: Value, key: string)
    requires e3 == e2["update_date" := update]["event_time" := event]["report_time" := report]
      - {"event_date", "report_date"}
    requires key != "update_date" && key != "event_time" && key != "report_time"
    requires key != "event_date" && key != "report_date"
    ensures (key in e3 <==> key in e2) && (key in e2 ==> e3[key] == e2[key])
  {
  }

  /** The number and location stages keep every key they do not name. */
  lemma StageKeeps(e: Fields, e1: Fields, e2: Fields, key: string)
    requires "event_number" in e1 && e1 == e["event_number" := e1["event_number"]]
    requires "region" in e1 && "state" in e1 && "rx_type" in e1
    requires e2 == e1 - {"region", "state", "rx_type"}
    requires key != "event_number" && key != "region" && key != "state" && key != "rx_type"
    ensures (key in e2 <==> key in e) && (key in e ==> e2[key] == e[key])
  {
  }

  /** The keys the Processed record drops */
  lemma ProcessedDrops(e: Fields, number: int, update: Value, event: Value, report: Value, units: Value)
    ensures var r := Processed(e, number, update, event, report, units);
      && "region" !in r && "state" !in r && "rx_type" !in r
      && "unit" !in r && "event_date" !in r && "report_date" !in r
  {
    var m1 := e["event_number" := Int(number)] - {"region", "state", "rx_type"};
    assert "region" !in m1 && "state" !in m1 && "rx_type" !in m1;
    var m2 := m1["update_date" := update]["event_time" := event]["report_time" := report];
    assert "region" != "update_date" && "region" != "event_time" && "region" != "report_time";
    assert "state" != "update_date" && "state" != "event_time" && "state" != "report_time";
    assert "rx_type" != "update_date" && "rx_type" != "event_time" && "rx_type" != "report_time";
    assert "region" !in m2 && "state" !in m2 && "rx_type" !in m2;
    var m3 := (m2 - {"event_date", "report_date"}) - {"unit"};
    assert "region" !in m3 && "state" !in m3 && "rx_type" !in m3;
    assert "unit" !in m3 && "event_date" !in m3 && "report_date" !in m3;
    assert "region" != "reactor_status" && "state" != "reactor_status" && "rx_type" != "reactor_status";
    assert "unit" != "reactor_status" && "event_date" != "reactor_status" && "report_date" != "reactor_status";
    assert Processed(e, number, update, event, report, units) == m3["reactor_status" := units];
  }

  /** The values the Processed record sets */
  lemma ProcessedSets(e: Fields, number: int, update: Value, event: Value, report: Value, units: Value)
    ensures var r := Processed(e, number, update, event, report, units);
      && "event_number" in r && r["event_number"] == Int(number)
      && "update_date" in r && r["update_date"] == update
      && "event_time" in r && r["event_time"] == event
      && "report_time" in r && r["report_time"] == report
      && "reactor_status" in r && r["reactor_status"] == units
  {
    var written := ["event_number", "update_date", "event_time", "report_time", "reactor_status"];
    var gone := ["region", "state", "rx_type", "event_date", "report_date", "unit"];
    assert forall t, g | t in written && g in gone :: t != g;
    assert "event_number" != "update_date" && "event_number" != "event_time";
    assert "event_number" != "report_time" && "event_number" != "reactor_status";
    assert "update_date" != "event_time" && "update_date" != "report_time" && "update_date" != "reactor_status";
    assert "event_time" != "report_time" && "event_time" != "reactor_status";
    assert "report_time" != "reactor_status";
  }

  /** The Processed record keeps every key process_event does not touch. */
  lemma ProcessedKeeps(e: Fields, number: int, update: Value, event: Value, report: Value, units: Value)
    ensures var r := Processed(e, number, update, event, report, units);
      forall k | k in e && !Touched(k) :: k in r && r[k] == e[k]
  {
    var r := Processed(e, number, update, event, report, units);
    forall k | k in e && !Touched(k) ensures k in r && r[k] == e[k] {
    }
  }

  /** The transient keys are gone afterwards, the event number is the int
      of its text, and every key process_event does not touch is kept with
      its value. */
  lemma ProcessedKeys(e: Fields)
    requires ProcessFields(e).Ok?
    ensures var r := ProcessFields(e).value;
      && "region" !in r && "state" !in r && "rx_type" !in r
      && "unit" !in r && "event_date" !in r && "report_date" !in r
      && "event_number" in e && e["event_number"].Str?
      && "event_number" in r && r["event_number"] == Int(ParseInt(e["event_number"].s).value)
      && forall k | k in e && !Touched(k) :: k in r && r[k] == e[k]
  {
    ProcessedIs(e);
    ProcessedDrops(e, IntOf(e["event_number"].s).value,
      Time(ConvertTime(e["update_date"].s, None, true)),
      Time(ConvertTime(e["event_date"].s, Some(e["event_time"].s), e["state"] != Str("AZ"))),
      Time(ConvertTime(e["report_date"].s, Some(e["report_time"].s), true)),
      Statuses(NormalizeRows(e["reactor_status"].rows, BracketNumbers(e["unit"].s)).value));
    ProcessedSets(e, IntOf(e["event_number"].s).value,
      Time(ConvertTime(e["update_date"].s, None, true)),
      Time(ConvertTime(e["event_date"].s, Some(e["event_time"].s), e["state"] != Str("AZ"))),
      Time(ConvertTime(e["report_date"].s, Some(e["report_time"].s), true)),
      Statuses(NormalizeRows(e["reactor_status"].rows, BracketNumbers(e["unit"].s)).value));
    ProcessedKeeps(e, IntOf(e["event_number"].s).value,
      Time(ConvertTime(e["update_date"].s, None, true)),
      Time(ConvertTime(e["event_date"].s, Some(e["event_time"].s), e["state"] != Str("AZ"))),
      Time(ConvertTime(e["report_date"].s, Some(e["report_time"].s), true)),
      Statuses(NormalizeRows(e["reactor_status"].rows, BracketNumbers(e["unit"].s)).value));
  }

  /** Event-number text that int() rejects stops the run with ValueError. */
  lemma ProcessRejectsBadNumber(e: Fields)
    requires "event_number" in e && e["event_number"].Str?
    requires ParseInt(e["event_number"].s).None?
    ensures ProcessFields(e) == Err(ValueError)
  {
  }

  /** The event time is read with the facility's daylight-saving rule (off
      exactly in Arizona) and the report time always with it on. */
  lemma ProcessedTimes(e: Fields)
    requires ProcessFields(e).Ok?
    ensures var r := ProcessFields(e).value;
      && "state" in e && "event_date" in e && "event_time" in e
      && "report_date" in e && "report_time" in e && "update_date" in e
      && e["event_date"].Str? && e["event_time"].Str? && e["report_date"].Str?
      && e["report_time"].Str? && e["update_date"].Str?
      && "event_time" in r && "report_time" in r && "update_date" in r
      && r["update_date"] == Time(DateOnly(e["update_date"].s))
      && r["event_time"] == Time(ConvertTime(e["event_date"].s, Some(e["event_time"].s), e["state"] != Str("AZ")))
      && r["report_time"] == Time(ConvertTime(e["report_date"].s, Some(e["report_time"].s), true))
  {
    ProcessedIs(e);
    ProcessedSets(e, IntOf(e["event_number"].s).value,
      Time(ConvertTime(e["update_date"].s, None, true)),
      Time(ConvertTime(e["event_date"].s, Some(e["event_time"].s), e["state"] != Str("AZ"))),
      Time(ConvertTime(e["report_date"].s, Some(e["report_time"].s), true)),
      Statuses(NormalizeRows(e["reactor_status"].rows, BracketNumbers(e["unit"].s)).value));
  }


  /** The status records after processing: one per row, in row order, each
      the normalisation of its row against the units in brackets. */
  lemma ProcessedStatuses(e: Fields)
    requires ProcessFields(e).Ok?
    ensures var r := ProcessFields(e).value;
      && "unit" in e && e["unit"].Str?
      && "reactor_status" in e && e["reactor_status"].RawStatuses?
      && "reactor_status" in r && r["reactor_status"].Statuses?
      && var rows, units := e["reactor_status"].rows, r["reactor_status"].units;
      && |units| == |rows|
      && forall k | 0 <= k < |rows| ::
           && RowNormalizes(rows[k])
           && units[k] == NormalizeRow(rows[k], BracketNumbers(e["unit"].s)).value
  {
    ProcessedIs(e);
    ProcessedSets(e, IntOf(e["event_number"].s).value,
      Time(ConvertTime(e["update_date"].s, None, true)),
      Time(ConvertTime(e["event_date"].s, Some(e["event_time"].s), e["state"] != Str("AZ"))),
      Time(ConvertTime(e["report_date"].s, Some(e["report_time"].s), true)),
      Statuses(NormalizeRows(e["reactor_status"].rows, BracketNumbers(e["unit"].s)).value));
    var rows := e["reactor_status"].rows;
    var affected := BracketNumbers(e["unit"].s);
    NormalizeRowsSpec(rows, affected);
    forall k | 0 <= k < |rows| ensures RowNormalizes(rows[k]) {
      NormalizeRowFails(rows[k], affected);
    }
  }


  /** The affected flag of a processed record: true exactly when the unit
      number is one of the bracketed numbers of the unit field. */
  lemma AffectedIff(row: map<string, string>, unitText: string)
    requires RowNormalizes(row)
    ensures var u := ParseInt(row["unit"]).value;
      NormalizeRow(row, BracketNumbers(unitText)).value["affected"] == CBool(
        exists i, j :: BracketAt(unitText, i, j) && DigitsValue(unitText[i + 1..j]) == u)
  {
    var u := ParseInt(row["unit"]).value;
    AffectedFlag(row, BracketNumbers(unitText));
    BracketNumbersIff(unitText, u);
  }

  /** A normalised record is flagged affected exactly when its unit number
      is in the list. */
  lemma AffectedFlag(row: map<string, string>, affected: seq<int>)
    requires RowNormalizes(row)
    ensures NormalizeRow(row, affected).Ok? && "affected" in NormalizeRow(row, affected).value
    ensures NormalizeRow(row, affected).value["affected"] == CBool(ParseInt(row["unit"]).value in affected)
  {
    var u := IntField(row, "unit").value;
    var initial := IntField(row, "initial_power").value;
    var current := IntField(row, "current_power").value;
    assert NormalizeRow(row, affected) == Ok(Record(row, u, initial, current, affected));
    assert "affected" != "initial_power" && "affected" != "current_power" && "affected" != "critical";
  }

  /** process_event(event), in place */
  method ProcessEvent(ev: Event) returns (r: Result<(), Fault>)
    modifies ev
    ensures ProcessFields(old(ev.fields)).Ok? ==> r.Ok? && ev.fields == ProcessFields(old(ev.fields)).value
    ensures ProcessFields(old(ev.fields)).Err? ==> r == Err(ProcessFields(old(ev.fields)).error)
  {
    var number := GetStr(ev.fields, "event_number");
    if number.Err? {
      return Err(number.error);
    }
    var n := IntOf(number.value);
    if n.Err? {
      return Err(n.error);
    }
    ev.fields := ev.fields["event_number" := Int(n.value)];
    if "state" !in ev.fields {
      return Err(KeyError("state"));
    }
    var useDst := true;
    if ev.fields["state"] == Str("AZ") {
      useDst := false;
    }
    var dropped := DropLocation(ev.fields);
    if dropped.Err? {
      return Err(dropped.error);
    }
    ev.fields := dropped.value;
    var converted := ConvertTimes(ev.fields, useDst);
    if converted.Err? {
      return Err(converted.error);
    }
    ev.fields := converted.value;
    var unitText := GetStr(ev.fields, "unit");
    if unitText.Err? {
      return Err(unitText.error);
    }
    var affected := BracketNumbers(unitText.value);
    if "unit" !in ev.fields {
      return Err(KeyError("unit"));
    }
    ev.fields := ev.fields - {"unit"};
    if "reactor_status" !in ev.fields {
      return Err(KeyError("reactor_status"));
    }
    if !ev.fields["reactor_status"].RawStatuses? {
      return Err(TypeError);
    }
    var units := NormalizeUnits(ev.fields["reactor_status"].rows, affected);
    if units.Err? {
      return Err(units.error);
    }
    ev.fields := ev.fields["reactor_status" := Statuses(units.value)];
    return Ok(());
  }
}
