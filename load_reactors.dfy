/** The string logic of the reactor loader (scripts/load_reactors.py): names
    and unit numbers, M/D/YYYY dates with a two-digit-year pivot, the design
    type cleanup, the vendor search and the city/state split, and the pure
    parts of building a Reactor and a Facility from one input row. */
module LoadReactors {
  import opened Wrappers
  import opened Text
  import opened Catalog

  /** The exceptions that abort the loader */
  datatype Fault = ValueError | AttributeError | OverflowError

  /** The columns of one input row that the loader reads */
  datatype Row = Row(
    plantName: string,            // 'Plant Name, Unit Number'
    webPage: string,              // 'NRC Reactor Unit Web Page'
    docket: string, nrcUrl: string, nrcPhoto: string,
    typeAndContainment: string,   // 'Reactor and Containment Type'
    supplier: string,             // 'Nuclear Steam System Supplier and Design Type'
    engineer: string,             // 'Architect-Engineer'
    constructedBy: string,        // 'Contructor'
    permitIssued: string, licenseIssued: string, commercialOperation: string,
    renewedLicenseIssued: string, licenseExpires: string,
    location: string, region: string, licensee: string)

  // ---------------------------------------------------------------------------
  // Names

  /** `, Unit\s+\d` matches at index i */
  predicate UnitTailAt(s: string, i: nat)
  {
    i + 6 <= |s| && s[i..i + 6] == ", Unit"
    && var j := RunEnd(s, i + 6, IsSpace);
    i + 6 < j < |s| && IsDigit(s[j])
  }

  /** parse_name: `re.match(r'(.+), Unit\s+(\d)', raw)` gives the greedy
      prefix and the one digit after the spaces; no match gives (raw, None). */
  function ParseName(raw: string): (r: (string, Option<int>))
    ensures r.1.None? ==> r.0 == raw
    ensures r.1.None? ==> forall i: nat | 1 <= i <= LineEnd(raw) :: !UnitTailAt(raw, i)
    ensures r.1.Some? ==> 1 <= |r.0| <= LineEnd(raw) && r.0 == raw[..|r.0|] && UnitTailAt(raw, |r.0|)
    ensures r.1.Some? ==> r.1.value == DigitValue(raw[RunEnd(raw, |r.0| + 6, IsSpace)])
    ensures r.1.Some? ==> forall i: nat | |r.0| < i <= LineEnd(raw) :: !UnitTailAt(raw, i)
  {
    match LastFrom(raw, LineEnd(raw), UnitTailAt)
    case None => (raw, None)
    case Some(i) => (raw[..i], Some(DigitValue(raw[RunEnd(raw, i + 6, IsSpace)])))
  }

  /** ` \d` matches at index i */
  predicate SpaceDigitAt(s: string, i: nat)
  {
    i + 2 <= |s| && s[i] == ' ' && IsDigit(s[i + 1])
  }

  /** parse_short_name: `re.match(r'(.+) (\d)', raw)` gives the greedy prefix
      and the digit after its space; no match gives (raw, None). */
  function ParseShortName(raw: string): (r: (string, Option<int>))
    ensures r.1.None? ==> r.0 == raw
    ensures r.1.None? ==> forall i: nat | 1 <= i <= LineEnd(raw) :: !SpaceDigitAt(raw, i)
    ensures r.1.Some? ==> 1 <= |r.0| <= LineEnd(raw) && r.0 == raw[..|r.0|] && SpaceDigitAt(raw, |r.0|)
    ensures r.1.Some? ==> r.1.value == DigitValue(raw[|r.0| + 1])
    ensures r.1.Some? ==> forall i: nat | |r.0| < i <= LineEnd(raw) :: !SpaceDigitAt(raw, i)
  {
    match LastFrom(raw, LineEnd(raw), SpaceDigitAt)
    case None => (raw, None)
    case Some(i) => (raw[..i], Some(DigitValue(raw[i + 1])))
  }

  /** parse_name undoes Reactor.title for a one-digit unit. */
  lemma {:induction false} TitleRoundTrip(r: Reactor)
    requires 1 <= r.unit <= 9
    requires |r.facility.name| > 0 && Newline !in r.facility.name
    ensures ParseName(Title(r)) == (r.facility.name, Some(r.unit))
  {
    var name := r.facility.name;
    var n := |name|;
    DigitToString(r.unit);
    var s := Title(r);
    assert s == name + ", Unit " + IntToString(r.unit);
    assert |s| == n + 8;
    assert s[n..n + 6] == ", Unit";
    assert s[n + 6] == ' ' && s[n + 7] == IntToString(r.unit)[0];
    assert Newline !in s;
    assert LineEnd(s) == |s|;
    var j := RunEnd(s, n + 6, IsSpace);
    assert j == n + 7;
    assert UnitTailAt(s, n);
    assert forall i: nat | n < i <= |s| :: !UnitTailAt(s, i) by {
      forall i: nat | n < i <= |s| ensures !UnitTailAt(s, i) {
        if i + 6 <= |s| {
          assert s[i..i + 6][0] == s[i];
          assert i == n + 1 || i == n + 2;
        }
      }
    }
    LastFromIs(s, |s|, UnitTailAt, n);
    assert s[..n] == name;
  }

  /** A name without ", Unit" is read back whole, with no unit. */
  lemma TitleRoundTripNoUnit(r: Reactor)
    requires r.unit == 0 && !Contains(r.facility.name, ", Unit")
    ensures ParseName(Title(r)) == (r.facility.name, None)
  {
    var s := r.facility.name;
    assert forall i: nat | 1 <= i <= LineEnd(s) :: !UnitTailAt(s, i) by {
      forall i: nat | 1 <= i <= LineEnd(s) ensures !UnitTailAt(s, i) {
        assert !OccursAt(s, ", Unit", i);
      }
    }
  }

  /** parse_short_name undoes Reactor.short_title for a one-digit unit. */
  lemma {:induction false} ShortTitleRoundTrip(r: Reactor)
    requires 1 <= r.unit <= 9
    requires |r.facility.shortName| > 0 && Newline !in r.facility.shortName
    ensures ParseShortName(ShortTitle(r)) == (r.facility.shortName, Some(r.unit))
  {
    var name := r.facility.shortName;
    var n := |name|;
    DigitToString(r.unit);
    var s := ShortTitle(r);
    assert s == name + " " + IntToString(r.unit);
    assert |s| == n + 2;
    assert Newline !in s;
    assert LineEnd(s) == |s|;
    assert SpaceDigitAt(s, n);
    var res := ParseShortName(s);
    assert |res.0| == n;
    assert s[..n] == name;
  }

  /** Reactor.__unicode__ reads back through parse_short_name as well. */
  lemma ReactorTextRoundTrip(r: Reactor)
    requires 1 <= r.unit <= 9
    requires |r.facility.shortName| > 0 && Newline !in r.facility.shortName
    ensures ReactorText(r) == ShortTitle(r)
    ensures ParseShortName(ReactorText(r)) == (r.facility.shortName, Some(r.unit))
  {
    ShortTitleRoundTrip(r);
  }

  // ---------------------------------------------------------------------------
  // Dates

  /** The two-digit-year rule: below 100, above 60 is 19xx and the rest 20xx. */
  function YearPivot(year: int): (y: int)
    ensures 0 <= year < 100 ==> 1961 <= y <= 2060 && y % 100 == year
    ensures year >= 100 ==> y == year
    ensures year < 0 ==> y == year + 2000
  {
    if year < 100 then (if year > 60 then year + 1900 else year + 2000) else year
  }

  /** `date_str.split('/')` gives exactly three parts and int() accepts each. */
  predicate ThreeIntegers(dateStr: string)
  {
    var parts := Split(dateStr, "/");
    |parts| == 3 && ParseInt(parts[0]).Some? && ParseInt(parts[1]).Some? && ParseInt(parts[2]).Some?
  }

  /** The numbers `date_str.split('/')` yields, in date order, with the pivot
      applied to the year. */
  function DateOf(dateStr: string): Date
    requires ThreeIntegers(dateStr)
  {
    var parts := Split(dateStr, "/");
    Date(YearPivot(ParseInt(parts[2]).value), ParseInt(parts[0]).value, ParseInt(parts[1]).value)
  }

  /** A value Python 2 can pass as a C `int`, as `datetime.date` takes its
      three arguments. */
  predicate FitsCInt(n: int) { -0x8000_0000 <= n < 0x8000_0000 }

  predicate FitsCInts(d: Date) { FitsCInt(d.year) && FitsCInt(d.month) && FitsCInt(d.day) }

  /** Every date datetime.date accepts is made of C `int`s, so the overflow
      check never turns a valid date away. */
  lemma ValidDateFits(d: Date)
    requires ValidDate(d)
    ensures FitsCInts(d)
  {
    assert d.day <= 31;
  }

  /** parse_date: M/D/Y; Ok(None) where the split or int() raises the
      ValueError the function catches, Err where datetime.date refuses the
      numbers (neither its OverflowError for a number beyond a C `int` nor
      its ValueError for a year, month or day out of range is caught). */
  function ParseDate(dateStr: string): (r: Result<Option<Date>, Fault>)
    ensures r == Ok(None) <==> !ThreeIntegers(dateStr)
    ensures r == Err(OverflowError) <==> ThreeIntegers(dateStr) && !FitsCInts(DateOf(dateStr))
    ensures r == Err(ValueError)
        <==> ThreeIntegers(dateStr) && FitsCInts(DateOf(dateStr)) && !ValidDate(DateOf(dateStr))
    ensures r.Ok? && r.value.Some? ==> r.value.value == DateOf(dateStr) && ValidDate(r.value.value)
  {
    if ThreeIntegers(dateStr) then
      var d := DateOf(dateStr);
      if !FitsCInts(d) then Err(OverflowError)
      else if ValidDate(d) then Ok(Some(d))
      else Err(ValueError)
    else Ok(None)
  }

  /** Where the split and int() succeed, parse_date is datetime.date's
      verdict on DateOf. */
  lemma ParseDateOfThree(dateStr: string)
    requires ThreeIntegers(dateStr)
    ensures ParseDate(dateStr)
         == if !FitsCInts(DateOf(dateStr)) then Err(OverflowError)
            else if ValidDate(DateOf(dateStr)) then Ok(Some(DateOf(dateStr)))
            else Err(ValueError)
  {
  }

  /** M/D/YYYY text of a date */
  function FormatDate(d: Date): string
  {
    IntToString(d.month) + "/" + IntToString(d.day) + "/" + IntToString(d.year)
  }

  lemma IntToStringHasNoSlash(n: int)
    ensures '/' !in IntToString(n)
  {
    var s := NatToString(if n < 0 then -n else n);
    assert forall i | 0 <= i < |s| :: IsDigit(s[i]);
    assert '/' !in s;
    if n < 0 {
      assert IntToString(n) == "-" + s;
    }
  }

  lemma {:induction false} SplitFormatDate(m: int, d: int, y: int)
    ensures Split(IntToString(m) + "/" + IntToString(d) + "/" + IntToString(y), "/")
         == [IntToString(m), IntToString(d), IntToString(y)]
  {
    var parts := [IntToString(m), IntToString(d), IntToString(y)];
    IntToStringHasNoSlash(m);
    IntToStringHasNoSlash(d);
    IntToStringHasNoSlash(y);
    var a, b, c := IntToString(m), IntToString(d), IntToString(y);
    assert Join(parts, "/") == a + "/" + b + "/" + c by {
      assert parts[1..] == [b, c];
      assert [b, c][1..] == [c];
      assert Join([b, c], "/") == b + "/" + c;
      assert Join(parts, "/") == a + "/" + (b + "/" + c);
    }
    SplitJoinChar(parts, '/');
  }

  /** M/D/Y text of three integers splits into three parts int() reads back. */
  lemma FormatDateParts(month: int, day: int, year: int)
    ensures var s := IntToString(month) + "/" + IntToString(day) + "/" + IntToString(year);
      ThreeIntegers(s) && DateOf(s) == Date(YearPivot(year), month, day)
  {
    var s := IntToString(month) + "/" + IntToString(day) + "/" + IntToString(year);
    var parts := Split(s, "/");
    assert parts == [IntToString(month), IntToString(day), IntToString(year)] by {
      SplitFormatDate(month, day, year);
    }
    assert ParseInt(parts[0]) == Some(month) by { ParseIntOfIntToString(month); }
    assert ParseInt(parts[1]) == Some(day) by { ParseIntOfIntToString(day); }
    assert ParseInt(parts[2]) == Some(year) by { ParseIntOfIntToString(year); }
  }

  /** parse_date reads back any valid date written as M/D/YYYY with a year of
      at least 100. */
  lemma {:induction false} ParseDateRoundTrip(d: Date)
    requires ValidDate(d) && d.year >= 100
    ensures ParseDate(FormatDate(d)) == Ok(Some(d))
  {
    var s := IntToString(d.month) + "/" + IntToString(d.day) + "/" + IntToString(d.year);
    FormatDateParts(d.month, d.day, d.year);
    ValidDateFits(d);
    ParseDateOfThree(s);
  }

  /** A number too wide for a C `int`, as the year of "1/1/3000000000", is
      the OverflowError of `datetime.date` and not a ValueError. */
  lemma {:induction false} ParseDateOverflow(month: int, day: int, year: int)
    requires !FitsCInts(Date(YearPivot(year), month, day))
    ensures ParseDate(IntToString(month) + "/" + IntToString(day) + "/" + IntToString(year)) == Err(OverflowError)
  {
    var s := IntToString(month) + "/" + IntToString(day) + "/" + IntToString(year);
    FormatDateParts(month, day, year);
    ParseDateOfThree(s);
  }

  /** A two-digit year lands in 1961..2060 with the same last two digits. */
  lemma {:induction false} ParseDateTwoDigitYear(month: int, day: int, yy: int)
    requires 0 <= yy < 100
    requires ValidDate(Date(YearPivot(yy), month, day))
    ensures ParseDate(IntToString(month) + "/" + IntToString(day) + "/" + IntToString(yy)) == Ok(Some(Date(YearPivot(yy), month, day)))
    ensures 1961 <= YearPivot(yy) <= 2060 && YearPivot(yy) % 100 == yy
  {
    var s := IntToString(month) + "/" + IntToString(day) + "/" + IntToString(yy);
    FormatDateParts(month, day, yy);
    ValidDateFits(Date(YearPivot(yy), month, day));
    ParseDateOfThree(s);
  }

  // ---------------------------------------------------------------------------
  // Design type and vendor

  /** The Combustion Engineering cleanup: a design string starting with
      "COMB" has every "COMB " removed; any other is kept. */
  function CleanModel(raw: string): string
  {
    if StartsWith(raw, "COMB") then Replace(raw, "COMB ", "") else raw
  }

  /** "COMB CE80-2L" and its kind lose the prefix, and every later "COMB "
      goes with it. */
  lemma CleanModelDropsPrefix(rest: string)
    ensures CleanModel("COMB " + rest) == Replace(rest, "COMB ", "")
  {
    ReplaceLead(rest, "COMB ", "");
  }

  /** A design string is kept as it is exactly when it does not start with
      "COMB" (as "CE80-2L" or "B&W" do) or has no "COMB " in it (as
      "COMBUSTION" has not). */
  lemma CleanModelKeeps(raw: string)
    ensures CleanModel(raw) == raw <==> !StartsWith(raw, "COMB") || !Contains(raw, "COMB ")
  {
    if StartsWith(raw, "COMB") {
      RemoveShortens(raw, "COMB ");
      if !Contains(raw, "COMB ") {
        ReplaceAbsent(raw, "COMB ", "");
      }
    }
  }

  /** The first vendor code, from row k of VENDORS on, that occurs in model */
  function FirstVendorFrom(model: string, k: nat): (r: Option<string>)
    requires k <= |Vendors|
    ensures r.Some? ==> exists i | k <= i < |Vendors| ::
      Vendors[i].0 == r.value && Contains(model, r.value)
      && forall j | k <= j < i :: !Contains(model, Vendors[j].0)
    ensures r.None? ==> forall i | k <= i < |Vendors| :: !Contains(model, Vendors[i].0)
    decreases |Vendors| - k
  {
    if k == |Vendors| then None
    else if Contains(model, Vendors[k].0) then Some(Vendors[k].0)
    else FirstVendorFrom(model, k + 1)
  }

  /** The vendor of a design: the first code in VENDORS order that is a
      substring of it, None when no code is. */
  function FirstVendor(model: string): (r: Option<string>)
    ensures r.Some? ==> exists i | 0 <= i < |Vendors| ::
      Vendors[i].0 == r.value && Contains(model, r.value)
      && forall j | 0 <= j < i :: !Contains(model, Vendors[j].0)
    ensures r.None? ==> forall i | 0 <= i < |Vendors| :: !Contains(model, Vendors[i].0)
  {
    FirstVendorFrom(model, 0)
  }

  /** The loader's `for vendor_code, vendor_name in VENDORS` loop with its break */
  method FindVendor(model: string) returns (vendor: Option<string>)
    ensures vendor == FirstVendor(model)
  {
    vendor := None;
    var k := 0;
    while k < |Vendors|
      invariant 0 <= k <= |Vendors|
      invariant vendor == None
      invariant FirstVendor(model) == FirstVendorFrom(model, k)
    {
      if Contains(model, Vendors[k].0) {
        vendor := Some(Vendors[k].0);
        break;
      }
      k := k + 1;
    }
  }

  /** `r.type, r.containment = s.split('-')`: exactly two pieces or ValueError */
  function SplitTypeContainment(s: string): Result<(string, string), Fault>
  {
    var parts := Split(s, "-");
    if |parts| == 2 then Ok((parts[0], parts[1])) else Err(ValueError)
  }

  /** The type/containment split succeeds exactly on "<type>-<containment>"
      with a single dash, and gives those two halves. */
  lemma SplitTypeContainmentIff(s: string, t: string, c: string)
    ensures SplitTypeContainment(s) == Ok((t, c)) <==> s == t + "-" + c && '-' !in t && '-' !in c
  {
    if SplitTypeContainment(s) == Ok((t, c)) {
      var parts := Split(s, "-");
      JoinSplit(s, "-");
      assert parts[1..] == [c];
      ContainsChar(t, '-');
      ContainsChar(c, '-');
    }
    if s == t + "-" + c && '-' !in t && '-' !in c {
      assert Join([t, c], "-") == s by { assert [t, c][1..] == [c]; }
      SplitJoinChar([t, c], '-');
    }
  }

  // ---------------------------------------------------------------------------
  // Location

  /** `[,.]\s+(\w{2})\s?\(` matches at index i */
  predicate LocationTailAt(s: string, i: nat)
  {
    i < |s| && (s[i] == ',' || s[i] == '.')
    && var j := RunEnd(s, i + 1, IsSpace);
    j > i + 1 && j + 2 < |s| && IsWordChar(s[j]) && IsWordChar(s[j + 1])
    && (s[j + 2] == '(' || (IsSpace(s[j + 2]) && j + 3 < |s| && s[j + 3] == '('))
  }

  /** load_facility's `re.match(r'(.+?)[,.]\s+(\w{2})\s?\(', location)`: the
      city is the lazy prefix, the state its two word characters upper-cased;
      no match is the AttributeError of `None.group`. */
  function ParseLocation(location: string): Result<(string, string), Fault>
  {
    match FirstFrom(location, 1, LineEnd(location), LocationTailAt)
    case None => Err(AttributeError)
    case Some(i) => Ok(CityState(location, i))
  }

  /** The two groups when the tail matches at i: the city before it and the
      upper-cased word after its whitespace. */
  function CityState(location: string, i: nat): (string, string)
    requires LocationTailAt(location, i)
  {
    var j := RunEnd(location, i + 1, IsSpace);
    (location[..i], Upper(location[j..j + 2]))
  }

  /** The location match fails exactly when no tail starts on the first
      line; otherwise the city is the shortest non-empty prefix before a
      tail, and the state the two characters after its whitespace. */
  lemma ParseLocationMatch(location: string)
    ensures var r := ParseLocation(location);
      r.Err? <==> forall i: nat | 1 <= i <= LineEnd(location) :: !LocationTailAt(location, i)
    ensures var r := ParseLocation(location);
      r.Ok? ==> var city := r.value.0;
      1 <= |city| <= LineEnd(location) && city == location[..|city|] && LocationTailAt(location, |city|)
      && (forall i: nat | 1 <= i < |city| :: !LocationTailAt(location, i))
    ensures var r := ParseLocation(location);
      r.Ok? ==> var j := RunEnd(location, |r.value.0| + 1, IsSpace);
      r.value.1 == Upper(location[j..j + 2])
  {
  }

  /** "Waynesboro, GA (26 mi SE of Augusta)" and its kind: a city free of
      commas, periods and newlines, a comma, one space, two letters, a
      space and the rest. */
  lemma {:induction false} ParseLocationOfCityState(city: string, st: string, rest: string)
    requires |city| >= 1 && ',' !in city && '.' !in city && Newline !in city
    requires |st| == 2 && IsWordChar(st[0]) && IsWordChar(st[1])
    ensures ParseLocation(city + ", " + st + " (" + rest) == Ok((city, Upper(st)))
  {
    var s := city + ", " + st + " (" + rest;
    var n := |city|;
    assert s[..n] == city && s[n + 2..n + 4] == st;
    assert s[n] == ',' && s[n + 1] == ' ' && s[n + 2] == st[0] && s[n + 3] == st[1];
    assert s[n + 4] == ' ' && s[n + 5] == '(';
    ParseLocationOfTail(s, n);
  }

  /** The same on one string: a comma-, period- and newline-free prefix of
      length n, then ", XY (". */
  lemma ParseLocationOfTail(s: string, n: nat)
    requires 1 <= n && n + 6 <= |s| && ',' !in s[..n] && '.' !in s[..n] && Newline !in s[..n]
    requires s[n] == ',' && s[n + 1] == ' ' && s[n + 4] == ' ' && s[n + 5] == '('
    requires IsWordChar(s[n + 2]) && IsWordChar(s[n + 3])
    ensures ParseLocation(s) == Ok((s[..n], Upper(s[n + 2..n + 4])))
  {
    CityStateTail(s, n);
    CityPrefix(s, s[..n]);
    ParseLocationAt(s, n);
  }

  /** A prefix free of commas, periods and newlines holds no tail and lies
      on the first line. */
  lemma CityPrefix(s: string, city: string)
    requires |city| <= |s| && s[..|city|] == city
    requires ',' !in city && '.' !in city && Newline !in city
    ensures forall i : nat | 1 <= i < |city| :: !LocationTailAt(s, i)
    ensures LineEnd(s) >= |city|
  {
    forall i: nat | 1 <= i < |city| ensures !LocationTailAt(s, i) {
      assert s[i] == city[i];
    }
    forall i | 0 <= i < |city| ensures s[i] != Newline {
      assert s[i] == city[i];
    }
  }

  /** The lazy match ends at the first tail: where one is found at n with
      none before it on the first line, the city is the first n characters. */
  lemma ParseLocationAt(s: string, n: nat)
    requires 1 <= n <= LineEnd(s) && LocationTailAt(s, n)
    requires forall i : nat | 1 <= i < n :: !LocationTailAt(s, i)
    ensures ParseLocation(s) == Ok(CityState(s, n))
  {
    FirstFromIs(s, 1, LineEnd(s), LocationTailAt, n);
  }

  /** The location pattern's tail at n when s holds ", XY (" there. */
  lemma CityStateTail(s: string, n: nat)
    requires n + 6 <= |s| && s[n] == ',' && s[n + 1] == ' '
    requires IsWordChar(s[n + 2]) && IsWordChar(s[n + 3]) && s[n + 4] == ' ' && s[n + 5] == '('
    ensures LocationTailAt(s, n) && RunEnd(s, n + 1, IsSpace) == n + 2
  {
    assert !IsSpace(s[n + 2]);
    assert RunEnd(s, n + 2, IsSpace) == n + 2;
  }

  // ---------------------------------------------------------------------------
  // Building the records

  /** The pure part of load_facility: both names with their unit numbers
      dropped, the city/state split, the region and the operator. */
  method LoadFacility(row: Row) returns (r: Result<Facility, Fault>)
    ensures r.Ok? <==> ParseLocation(row.location).Ok? && ParseInt(row.region).Some?
    ensures r.Ok? ==> r.value == Facility(
      ParseName(row.plantName).0, ParseShortName(row.webPage).0,
      ParseLocation(row.location).value.0, ParseLocation(row.location).value.1,
      ParseInt(row.region).value, row.licensee)
  {
    var name := ParseName(row.plantName).0;
    var shortName := ParseShortName(row.webPage).0;
    var place := ParseLocation(row.location);
    if place.Err? {
      return Err(place.error);
    }
    var city, state := place.value.0, place.value.1;
    var region := ParseInt(row.region);
    if region.None? {
      return Err(ValueError);
    }
    r := Ok(Facility(name, shortName, city, state, region.value, row.licensee));
  }

  /** The unit stored for a reactor: the parsed unit, or 0 when there is none.
      The body keeps the truthiness test of `unit if unit else 0`, under which
      None and 0 both give 0; a parsed 0 gives 0 either way, so the result
      cannot tell the two branches apart. */
  function UnitOrZero(unit: Option<int>): (n: int)
    ensures unit.Some? ==> n == unit.value
    ensures unit.None? ==> n == 0
  {
    if unit.Some? && unit.value != 0 then unit.value else 0
  }

  /** The pure part of load_reactor for a row whose facility has been found:
      unit (0 when the name has none), docket number, type and containment,
      cleaned design and its vendor, the five dates (the renewal only when
      its column is non-empty) and the reactor marked active. */
  method LoadReactor(row: Row, plant: Facility) returns (r: Result<Reactor, Fault>)
    ensures r.Ok? <==>
      ParseInt(row.docket).Some? && SplitTypeContainment(row.typeAndContainment).Ok?
      && ParseDate(row.permitIssued).Ok? && ParseDate(row.licenseIssued).Ok?
      && ParseDate(row.commercialOperation).Ok?
      && (row.renewedLicenseIssued != "" ==> ParseDate(row.renewedLicenseIssued).Ok?)
      && ParseDate(row.licenseExpires).Ok?
    ensures r.Ok? ==> var x := r.value;
      && x.unit == UnitOrZero(ParseName(row.plantName).1)
      && x.nrcId == ParseInt(row.docket).value
      && (x.rxType, x.containment) == SplitTypeContainment(row.typeAndContainment).value
      && x.model == CleanModel(row.supplier)
      && x.vendor == FirstVendor(CleanModel(row.supplier))
      && x.permitIssuedOn == ParseDate(row.permitIssued).value
      && x.licenseIssuedOn == ParseDate(row.licenseIssued).value
      && x.operationalOn == ParseDate(row.commercialOperation).value
      && x.licenseRenewedOn == (if row.renewedLicenseIssued != "" then ParseDate(row.renewedLicenseIssued).value else None)
      && x.licenseExpiresOn == ParseDate(row.licenseExpires).value
      && x.nrcUrl == row.nrcUrl && x.nrcPhoto == row.nrcPhoto
      && x.engineer == row.engineer && x.constructedBy == row.constructedBy
      && x.active && x.facility == plant
  {
    var parsed := ParseName(row.plantName);
    var unit := UnitOrZero(parsed.1);
    var nrcId := ParseInt(row.docket);
    if nrcId.None? {
      return Err(ValueError);
    }
    var kinds := SplitTypeContainment(row.typeAndContainment);
    if kinds.Err? {
      return Err(kinds.error);
    }
    var model := CleanModel(row.supplier);
    var vendor := FindVendor(model);
    var permit := ParseDate(row.permitIssued);
    if permit.Err? {
      return Err(permit.error);
    }
    var license := ParseDate(row.licenseIssued);
    if license.Err? {
      return Err(license.error);
    }
    var operational := ParseDate(row.commercialOperation);
    if operational.Err? {
      return Err(operational.error);
    }
    var renewed: Option<Date> := None;
    if row.renewedLicenseIssued != "" {
      var d := ParseDate(row.renewedLicenseIssued);
      if d.Err? {
        return Err(d.error);
      }
      renewed := d.value;
    }
    var expires := ParseDate(row.licenseExpires);
    if expires.Err? {
      return Err(expires.error);
    }
    r := Ok(Reactor(unit, nrcId.value, row.nrcUrl, row.nrcPhoto,
                    kinds.value.0, kinds.value.1, vendor, model,
                    row.engineer, row.constructedBy,
                    permit.value, license.value, operational.value, renewed, expires.value,
                    true, plant));
  }
}
