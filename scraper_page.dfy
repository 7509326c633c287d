/** parse_event_page of scripts/events_scraper.py over an abstract page: a
    sequence of named anchors, each with the cells of its layout table, the
    rows of its reactor-status table and the lines of its text table. */
module ScraperPage {
  import opened Wrappers
  import opened Text
  import opened ScraperFields
  import opened ScraperProcess

  /** A table cell: its `.string` (None when the cell does not hold exactly
      one string) and its `.stripped_strings` */
  datatype TableCell = TableCell(str: Option<string>, lines: seq<string>)

  /** A named `<a>` of the page with the three tables that follow it: the
      layout table's cells, the reactor table's rows of cell strings (header
      row first) and the lines of the text table's first cell. */
  datatype Anchor = Anchor(name: string, meta: seq<TableCell>, rxRows: seq<seq<string>>, text: seq<string>)

  /** `re.compile(r'^en\d+')` finds the anchor's name */
  predicate IsEventAnchor(name: string)
  {
    |name| >= 3 && name[..2] == "en" && IsDigit(name[2])
  }

  // ---------------------------------------------------------------------------
  // Region and state

  /** `re.match(r'(\d+)\s+State:\s+(\w+)', region, flags=re.U)`: the region
      number and the state code. Each run is greedy and is followed by a
      character its class excludes, so no backtracking can change the
      match. */
  function ParseRegion(s: string): (r: Option<(string, string)>)
    ensures r.Some? ==>
      && |r.value.0| > 0 && AllDigits(r.value.0) && StartsWith(s, r.value.0)
      && |r.value.1| > 0 && (forall k | 0 <= k < |r.value.1| :: IsWordChar(r.value.1[k]))
      && Contains(s, "State:")
  {
    var d := RunEnd(s, 0, IsDigit);
    if d == 0 then None
    else
      var a := RunEnd(s, d, IsUnicodeSpace);
      if a == d || a + 6 > |s| || s[a..a + 6] != "State:" then None
      else
        var b := RunEnd(s, a + 6, IsUnicodeSpace);
        if b == a + 6 then None
        else
          var w := RunEnd(s, b, IsWordChar);
          if w == b then None
          else
            assert forall k | 0 <= k < d :: s[..d][k] == s[k];
            assert forall k | 0 <= k < w - b :: s[b..w][k] == s[b + k];
            assert s[..d] == s[..|s[..d]|];
            assert OccursAt(s, "State:", a);
            Some((s[..d], s[b..w]))
  }

  /** A region cell "n State: XX" gives back n and XX. */
  lemma ParseRegionOf(n: string, st: string, rest: string)
    requires |n| > 0 && AllDigits(n)
    requires |st| > 0 && forall k | 0 <= k < |st| :: IsWordChar(st[k])
    requires rest == [] || !IsWordChar(rest[0])
    ensures ParseRegion(n + " State: " + st + rest) == Some((n, st))
  {
    var s := n + " State: " + st + rest;
    var d := |n|;
    var w := d + 8 + |st|;
    assert s[..d] == n && s[d + 8..w] == st;
    assert s[d + 1..d + 7] == "State:";
    assert s[d] == ' ' && s[d + 7] == ' ';
    assert w < |s| ==> s[w] == rest[0];
    ParseRegionOfRuns(s, d, w);
  }

  /** The same on one string: digits up to d, " State: ", then word
      characters up to w and no word character after them. */
  lemma ParseRegionOfRuns(s: string, d: nat, w: nat)
    requires 0 < d && d + 8 < w <= |s|
    requires AllDigits(s[..d]) && s[d] == ' ' && s[d + 1..d + 7] == "State:" && s[d + 7] == ' '
    requires forall k | d + 8 <= k < w :: IsWordChar(s[k])
    requires w < |s| ==> !IsWordChar(s[w])
    ensures ParseRegion(s) == Some((s[..d], s[d + 8..w]))
  {
    assert forall k | 0 <= k < d :: IsDigit(s[k]) by {
      forall k | 0 <= k < d ensures IsDigit(s[k]) {
        assert s[..d][k] == s[k];
      }
    }
    RunEndAt(s, 0, d, IsDigit);
    assert s[d + 1] == 'S';
    RunEndAt(s, d, d + 1, IsUnicodeSpace);
    assert IsWordChar(s[d + 8]);
    RunEndAt(s, d + 7, d + 8, IsUnicodeSpace);
    RunEndAt(s, d + 8, w, IsWordChar);
  }

  /** s[..w] matches `(\d+)\s+State:\s+(\w+)` with the digits ending at
      d, the first whitespace run at a, the second at b and the word run at
      w. */
  predicate RegionMatch(s: string, d: int, a: int, b: int, w: int)
  {
    && 0 < d < a && a + 6 < b < w <= |s|
    && (forall k | 0 <= k < d :: IsDigit(s[k]))
    && (forall k | d <= k < a :: IsUnicodeSpace(s[k]))
    && OccursAt(s, "State:", a)
    && (forall k | a + 6 <= k < b :: IsUnicodeSpace(s[k]))
    && (forall k | b <= k < w :: IsWordChar(s[k]))
  }

  /** The pattern matches exactly when some split of the text fits it. */
  lemma ParseRegionMatches(s: string)
    ensures ParseRegion(s).Some? <==> exists d, a, b, w :: RegionMatch(s, d, a, b, w)
  {
    if ParseRegion(s).Some? {
      var d := RunEnd(s, 0, IsDigit);
      var a := RunEnd(s, d, IsUnicodeSpace);
      var b := RunEnd(s, a + 6, IsUnicodeSpace);
      var w := RunEnd(s, b, IsWordChar);
      assert RegionMatch(s, d, a, b, w);
    }
    if exists d, a, b, w :: RegionMatch(s, d, a, b, w) {
      var d, a, b, w :| RegionMatch(s, d, a, b, w);
      ParseRegionComplete(s, d, a, b, w);
    }
  }

  /** Whatever split fits, the match has its digits, and its word run is the
      longest one from the same start (the groups of the match). */
  lemma ParseRegionGroups(s: string, d: int, a: int, b: int, w: int)
    requires RegionMatch(s, d, a, b, w)
    requires w == |s| || !IsWordChar(s[w])
    ensures ParseRegion(s) == Some((s[..d], s[b..w]))
  {
    ParseRegionComplete(s, d, a, b, w);
    RunEndAt(s, b, w, IsWordChar);
  }

  /** A fitting split fixes the digit and whitespace runs; the word run then
      extends as far as word characters go. */
  lemma ParseRegionComplete(s: string, d: int, a: int, b: int, w: int)
    requires RegionMatch(s, d, a, b, w)
    ensures ParseRegion(s) == Some((s[..d], s[b..RunEnd(s, b, IsWordChar)]))
    ensures RunEnd(s, b, IsWordChar) >= w
  {
    assert RunEnd(s, 0, IsDigit) == d by {
      assert !IsDigit(s[d]) by { assert IsUnicodeSpace(s[d]); }
      RunEndAt(s, 0, d, IsDigit);
    }
    assert RunEnd(s, d, IsUnicodeSpace) == a by {
      assert s[a] == 'S' by { assert s[a..a + 6][0] == s[a]; }
      RunEndAt(s, d, a, IsUnicodeSpace);
    }
    assert RunEnd(s, a + 6, IsUnicodeSpace) == b by {
      assert !IsUnicodeSpace(s[b]) by { assert IsWordChar(s[b]); }
      RunEndAt(s, a + 6, b, IsUnicodeSpace);
    }
    RunEndCovers(s, b, w, IsWordChar);
    assert |"State:"| == 6;
    ParseRegionAt(s, d, a, b, RunEnd(s, b, IsWordChar));
  }

  /** The match read off the four runs: digits to d, whitespace to a,
      "State:", whitespace to b, word characters to w, none of them empty. */
  lemma ParseRegionAt(s: string, d: nat, a: nat, b: nat, w: nat)
    requires 0 < d == RunEnd(s, 0, IsDigit)
    requires d < a == RunEnd(s, d, IsUnicodeSpace) && a + 6 <= |s| && s[a..a + 6] == "State:"
    requires a + 6 < b == RunEnd(s, a + 6, IsUnicodeSpace)
    requires b < w == RunEnd(s, b, IsWordChar)
    ensures ParseRegion(s) == Some((s[..d], s[b..w]))
  {
  }

  /** A class run reaches at least as far as any stretch of its class */
  lemma RunEndCovers(s: string, i: nat, j: nat, inClass: char -> bool)
    requires i <= j <= |s|
    requires forall k | i <= k < j :: inClass(s[k])
    ensures RunEnd(s, i, inClass) >= j
    decreases j - i
  {
    if i < j {
      RunEndCovers(s, i + 1, j, inClass);
    }
  }

  /** The end of a class run, known from its characters */
  lemma RunEndAt(s: string, i: nat, j: nat, inClass: char -> bool)
    requires i <= j <= |s|
    requires forall k | i <= k < j :: inClass(s[k])
    requires j < |s| ==> !inClass(s[j])
    ensures RunEnd(s, i, inClass) == j
    decreases j - i
  {
    if i < j {
      RunEndAt(s, i + 1, j, inClass);
    }
  }

  /** `event['region'], event['state'] = res.groups()`: a missing region is
      a KeyError, a region the pattern does not match is the AttributeError
      of `None.groups()`. */
  function SplitRegion(e: Fields): (r: Result<Fields, Fault>)
    ensures "region" !in e ==> r == Err(KeyError("region"))
    ensures r.Ok? ==> "region" in e && e["region"].Str? && ParseRegion(e["region"].s).Some?
    ensures r.Ok? ==> r.value == e["region" := Str(ParseRegion(e["region"].s).value.0)]
                                   ["state" := Str(ParseRegion(e["region"].s).value.1)]
    ensures "region" in e && e["region"].Str? && ParseRegion(e["region"].s).None? ==>
      r == Err(AttributeError)
  {
    var region :- GetStr(e, "region");
    match ParseRegion(region)
    case None => Err(AttributeError)
    case Some(groups) => Ok(e["region" := Str(groups.0)]["state" := Str(groups.1)])
  }

  // ---------------------------------------------------------------------------
  // People

  /** At i the rest of `(.+) \(([^)]*)\)` matches: " (" and then some ")". */
  predicate PersonTailAt(s: string, i: nat)
  {
    i + 2 <= |s| && s[i] == ' ' && s[i + 1] == '(' && ')' in s[i + 2..]
  }

  /** `re.match(r'(.+) \(([^)]*)\)', p, re.U).groups()`: the greedy name runs
      to the last " (" on the first line that a ")" follows; the organization
      is what lies between that " (" and the first ")" after it. */
  function ParsePerson(p: string): (r: Option<(string, string)>)
    ensures r.Some? ==>
      && 1 <= |r.value.0| && Newline !in r.value.0 && ')' !in r.value.1
      && StartsWith(p, r.value.0 + " (" + r.value.1 + ")")
  {
    match LastFrom(p, LineEnd(p), PersonTailAt)
    case None => None
    case Some(j) => Some(PersonAt(p, j))
  }

  /** The pattern fails exactly when no " (" with a ")" after it starts on
      the first line past its first character; otherwise the name ends at
      the last such " (". */
  lemma ParsePersonMatches(p: string)
    ensures ParsePerson(p).None? <==> forall j: nat | 1 <= j <= LineEnd(p) :: !PersonTailAt(p, j)
    ensures ParsePerson(p).Some? ==>
      var name := ParsePerson(p).value.0;
      && 1 <= |name| <= LineEnd(p) && PersonTailAt(p, |name|)
      && forall j: nat | |name| < j <= LineEnd(p) :: !PersonTailAt(p, j)
  {
  }

  /** The groups once the name is known to end at j: the name, and the
      organization up to the first ")" after the " (". */
  function PersonAt(p: string, j: nat): (r: (string, string))
    requires PersonTailAt(p, j)
    ensures |r.0| == j && ')' !in r.1 && StartsWith(p, r.0 + " (" + r.1 + ")")
  {
    var rest := p[j + 2..];
    ContainsChar(rest, ')');
    var k := Find(rest, [')']).value;
    assert rest[k..k + 1] == [')'];
    assert forall i | 0 <= i < k :: rest[i] != ')' by {
      forall i | 0 <= i < k ensures rest[i] != ')' {
        assert rest[i] == ')' ==> OccursAt(rest, [')'], i);
      }
    }
    assert forall i | 0 <= i < j :: p[..j][i] == p[i];
    assert p[..j + 2 + k + 1] == p[..j] + " (" + rest[..k] + ")";
    (p[..j], rest[..k])
  }

  /** The first ")" of org + ")" is the last character. */
  lemma FirstCloseParen(org: string)
    requires ')' !in org
    ensures Find(org + ")", [')']) == Some(|org|)
  {
    var rest := org + ")";
    ContainsChar(rest, ')');
    var k := Find(rest, [')']).value;
    assert rest[k..k + 1] == [')'];
    assert forall i | 0 <= i < |org| :: rest[i] == org[i];
    assert OccursAt(rest, [')'], |org|);
  }

  /** No " (" with a ")" after it starts past the name. */
  lemma NoLaterPersonTail(name: string, org: string, j: nat)
    requires '(' !in org
    requires |name| < j
    ensures !PersonTailAt(name + " (" + org + ")", j)
  {
    var p := name + " (" + org + ")";
    var n := |name|;
    if j + 2 <= |p| && p[j] == ' ' {
      assert p[n + 1] == '(';
      assert j >= n + 2;
      if j + 1 < n + 2 + |org| {
        assert p[j + 1] == org[j + 1 - n - 2];
      } else {
        assert p[j + 1] == ')';
      }
    }
  }

  /** In "name (org)" the greedy name ends right before " (". */
  lemma PersonNameEnd(name: string, org: string)
    requires |name| >= 1 && Newline !in name
    requires '(' !in org && ')' !in org
    ensures var p := name + " (" + org + ")";
      LastFrom(p, LineEnd(p), PersonTailAt) == Some(|name|)
  {
    var p := name + " (" + org + ")";
    var n := |name|;
    assert forall i | 0 <= i < n :: p[i] == name[i];
    assert p[n] == ' ' && p[n] != Newline;
    var e := LineEnd(p);
    assert p[n + 2..] == org + ")";
    assert (org + ")")[|org|] == ')';
    assert PersonTailAt(p, n);
    forall j: nat | n < j <= e ensures !PersonTailAt(p, j) {
      NoLaterPersonTail(name, org, j);
    }
    LastFromIs(p, e, PersonTailAt, n);
  }

  /** A person line "name (org)" gives back the name and the organization
      whenever the name is one line and the organization has no
      parentheses. */
  lemma ParsePersonOf(name: string, org: string)
    requires |name| >= 1 && Newline !in name
    requires '(' !in org && ')' !in org
    ensures ParsePerson(name + " (" + org + ")") == Some((name, org))
  {
    var p := name + " (" + org + ")";
    var n := |name|;
    PersonNameEnd(name, org);
    assert p[n + 2..] == org + ")";
    PersonAtOf(p, n, org);
    assert p[..n] == name;
  }

  /** Where the name ends at j and ")" ends the line after the organization,
      the groups are the name and the organization. */
  lemma PersonAtOf(p: string, j: nat, org: string)
    requires j + 2 <= |p| && p[j] == ' ' && p[j + 1] == '('
    requires ')' !in org && p[j + 2..] == org + ")"
    ensures PersonTailAt(p, j) && PersonAt(p, j) == (p[..j], org)
  {
    var rest := p[j + 2..];
    assert rest[|org|] == ')';
    FirstCloseParen(org);
    assert rest[..|org|] == org;
  }

  /** `[re.match(...).groups() for p in people]`: every line a person, in
      order; the first line that does not match is the AttributeError. */
  function PeopleOf(lines: seq<string>): (r: Result<seq<(string, string)>, Fault>)
    ensures r.Ok? <==> forall k | 0 <= k < |lines| :: ParsePerson(lines[k]).Some?
    ensures r.Ok? ==> |r.value| == |lines| && forall k | 0 <= k < |lines| :: r.value[k] == ParsePerson(lines[k]).value
    ensures r.Err? ==> r.error == AttributeError
    decreases |lines|
  {
    if |lines| == 0 then Ok([])
    else
      assert forall k | 1 <= k < |lines| :: lines[1..][k - 1] == lines[k];
      match ParsePerson(lines[0])
      case None => Err(AttributeError)
      case Some(person) =>
        var rest :- PeopleOf(lines[1..]);
        Ok([person] + rest)
  }

  /** The people of the sixth cell: its lines after the header line */
  function ParsePeople(lines: seq<string>): Result<seq<(string, string)>, Fault>
  {
    if |lines| == 0 then Ok([]) else PeopleOf(lines[1..])
  }

  // ---------------------------------------------------------------------------
  // Regulation sections

  /** `[tuple(l.split(' - ')) for l in lines[2:]]` */
  function CfrSections(lines: seq<string>): (r: seq<seq<string>>)
    ensures |lines| <= 2 ==> r == []
    ensures |lines| > 2 ==> |r| == |lines| - 2
    ensures forall k | 0 <= k < |r| :: r[k] == Split(lines[k + 2], " - ")
  {
    if |lines| <= 2 then []
    else seq(|lines| - 2, k requires 0 <= k < |lines| - 2 => Split(lines[k + 2], " - "))
  }

  /** Each section's parts join back into its line. */
  lemma CfrSectionsRejoin(lines: seq<string>, k: nat)
    requires k < |CfrSections(lines)|
    ensures Join(CfrSections(lines)[k], " - ") == lines[k + 2]
    ensures forall part | part in CfrSections(lines)[k] :: !Contains(part, " - ")
  {
    JoinSplit(lines[k + 2], " - ");
  }

  // ---------------------------------------------------------------------------
  // Reactor-status rows

  /** `dict(zip(keys, values))`: pairs up to the shorter; a later pair wins. */
  function Zip(keys: seq<string>, values: seq<string>): map<string, string>
    decreases |keys|
  {
    var n := if |keys| < |values| then |keys| else |values|;
    if n == 0 then map[] else Zip(keys[..n - 1], values[..n - 1])[keys[n - 1] := values[n - 1]]
  }

  /** The zip's keys are the keys that have a value. */
  lemma {:induction false} ZipKeys(keys: seq<string>, values: seq<string>)
    ensures var n := if |keys| < |values| then |keys| else |values|;
      forall k :: k in Zip(keys, values) <==> k in keys[..n]
    decreases |keys|
  {
    var n := if |keys| < |values| then |keys| else |values|;
    if n > 0 {
      var ks, vs := keys[..n - 1], values[..n - 1];
      ZipKeys(ks, vs);
      assert (if |ks| < |vs| then |ks| else |vs|) == n - 1;
      assert ks[..n - 1] == ks;
      assert keys[..n] == ks + [keys[n - 1]];
    }
  }

  /** With distinct keys, each of the first keys holds the value at its
      position. */
  lemma {:induction false} ZipValues(keys: seq<string>, values: seq<string>)
    requires forall i, j | 0 <= i < j < |keys| :: keys[i] != keys[j]
    ensures var n := if |keys| < |values| then |keys| else |values|;
      forall i | 0 <= i < n :: keys[i] in Zip(keys, values) && Zip(keys, values)[keys[i]] == values[i]
    decreases |keys|
  {
    var n := if |keys| < |values| then |keys| else |values|;
    if n > 0 {
      var ks, vs := keys[..n - 1], values[..n - 1];
      assert forall i, j | 0 <= i < j < |ks| :: ks[i] != ks[j] by {
        forall i, j | 0 <= i < j < |ks| ensures ks[i] != ks[j] {
          assert ks[i] == keys[i] && ks[j] == keys[j];
        }
      }
      ZipValues(ks, vs);
      var z := Zip(ks, vs);
      assert (if |ks| < |vs| then |ks| else |vs|) == n - 1;
      assert Zip(keys, values) == z[keys[n - 1] := values[n - 1]];
      forall i | 0 <= i < n - 1 ensures keys[i] in Zip(keys, values) && Zip(keys, values)[keys[i]] == values[i] {
        assert keys[i] != keys[n - 1];
        assert ks[i] == keys[i] && vs[i] == values[i];
      }
    }
  }

  /** With distinct keys, the zip maps each of the first keys to the value
      at its position and has no other key. */
  lemma ZipFields(keys: seq<string>, values: seq<string>)
    requires forall i, j | 0 <= i < j < |keys| :: keys[i] != keys[j]
    ensures var n := if |keys| < |values| then |keys| else |values|;
      && (forall k :: k in Zip(keys, values) <==> k in keys[..n])
      && forall i | 0 <= i < n :: Zip(keys, values)[keys[i]] == values[i]
  {
    ZipKeys(keys, values);
    ZipValues(keys, values);
  }

  /** `dict(zip(REACTOR_STATUS_FIELDS, values))` */
  function StatusRow(values: seq<string>): map<string, string>
  {
    Zip(ReactorStatusFields, values)
  }

  /** A status record pairs the first cells with the column keys in order. */
  lemma StatusRowFields(values: seq<string>)
    ensures var n := if |values| < 7 then |values| else 7;
      && (forall k :: k in StatusRow(values) <==> k in ReactorStatusFields[..n])
      && forall i | 0 <= i < n :: StatusRow(values)[ReactorStatusFields[i]] == values[i]
  {
    assert forall i, j | 0 <= i < j < 7 :: (ReactorStatusFields[i][0] != ReactorStatusFields[j][0]
      || |ReactorStatusFields[i]| != |ReactorStatusFields[j]|
      || ReactorStatusFields[i][1] != ReactorStatusFields[j][1]);
    ZipFields(ReactorStatusFields, values);
  }

  /** The status records of the rows after the header row, in row order */
  function StatusRows(rows: seq<seq<string>>): (r: seq<map<string, string>>)
    ensures |rows| == 0 ==> r == []
    ensures |rows| > 0 ==> |r| == |rows| - 1 && forall k | 0 <= k < |r| :: r[k] == StatusRow(rows[k + 1])
  {
    if |rows| == 0 then [] else seq(|rows| - 1, k requires 0 <= k < |rows| - 1 => StatusRow(rows[k + 1]))
  }

  /** The loop `for row in rx_rows[1:]` appending to event['reactor_status'] */
  method ReadStatusRows(rows: seq<seq<string>>) returns (units: seq<map<string, string>>)
    ensures units == StatusRows(rows)
  {
    units := [];
    if |rows| == 0 {
      return;
    }
    var i := 1;
    while i < |rows|
      invariant 1 <= i <= |rows| && |units| == i - 1
      invariant forall k | 0 <= k < i - 1 :: units[k] == StatusRow(rows[k + 1])
    {
      var unit := StatusRow(rows[i]);
      units := units + [unit];
      i := i + 1;
    }
  }

  // ---------------------------------------------------------------------------
  // One anchor

  /** Cells two to six of the layout table (after any retraction cell), read
      into the event: the event number, the two "Label: value" cells with
      the region split between them, the emergency class and regulation
      sections, and the people. */
  function ReadReport(e: Fields, cells: seq<TableCell>): Result<Fields, Fault>
  {
    if |cells| < 2 then Err(IndexError)
    else if cells[1].str.None? then Err(AttributeError)
    else
      var e1 := WithNumber(e, cells);
      if |cells| < 3 then Err(IndexError)
      else
        var e2 :- AddFieldLines(e1, cells[2].lines);
        var e3 :- SplitRegion(e2);
        if |cells| < 4 then Err(IndexError)
        else ReadRest(e3, cells)
  }

  /** The report from the fourth cell on, once the region is split */
  function ReadRest(e3: Fields, cells: seq<TableCell>): Result<Fields, Fault>
    requires |cells| >= 4
  {
    var e4 :- AddFieldLines(e3, cells[3].lines);
    if |cells| < 5 || |cells[4].lines| == 0 then Err(IndexError)
    else
      var lines := cells[4].lines;
      var e5 := e4["emergency" := Str(Replace(lines[0], "Emergency Class: ", ""))]
                  ["cfr10_sections" := Sections(CfrSections(lines))];
      if |cells| < 6 then Err(IndexError)
      else
        var people :- ParsePeople(cells[5].lines);
        Ok(e5["people" := People(people)])
  }

  /** Whether the layout's first cell marks a retraction; None is the
      TypeError of `'RETRACTED' in None`. */
  function Retracted(a: Anchor): Result<bool, Fault>
  {
    if |a.meta| == 0 then Err(IndexError)
    else if a.meta[0].str.None? then Err(TypeError)
    else Ok(Contains(a.meta[0].str.value, "RETRACTED"))
  }

  /** The layout cells once a retraction cell is shifted off */
  function TypeCells(a: Anchor, retracted: bool): seq<TableCell>
  {
    if retracted && |a.meta| > 0 then a.meta[1..] else a.meta
  }

  /** The body of the anchor loop up to process_event, from the event it
      starts with: the event read from its tables, or None for a report that
      is not a power-reactor report (the `continue`). */
  function ReadAnchorFrom(e0: Fields, a: Anchor): Result<Option<Fields>, Fault>
  {
    var retracted :- Retracted(a);
    var cells := TypeCells(a, retracted);
    if |cells| == 0 then Err(IndexError)
    else if cells[0].str != Some("Power Reactor") then Ok(None)
    else
      var e2 :- ReadReport(ReportStart(e0, retracted), cells);
      if |a.text| == 0 then Err(StopIteration)
      else Ok(Some(Finished(e2, a)))
  }

  /** The read report with the status rows, the subject (the first text
      line) and the body (the lines after it) added */
  function Finished(e: Fields, a: Anchor): Fields
    requires |a.text| > 0
  {
    e["reactor_status" := RawStatuses(StatusRows(a.rxRows))]
      ["subject" := Str(a.text[0])]["body" := Lines(a.text[1..])]
  }

  /** Finishing keeps every other key. */
  lemma FinishedKeeps(e: Fields, a: Anchor, key: string)
    requires |a.text| > 0
    requires key != "reactor_status" && key != "subject" && key != "body"
    ensures (key in Finished(e, a) <==> key in e) && (key in e ==> Finished(e, a)[key] == e[key])
  {
  }

  /** The whole loop body: read, then process_event */
  function ParseAnchorFrom(e0: Fields, a: Anchor): Result<Option<Fields>, Fault>
  {
    var read :- ReadAnchorFrom(e0, a);
    if read.None? then Ok(None)
    else
      var done :- ProcessFields(read.value);
      Ok(Some(done))
  }

  /** The event an anchor of the page at url yields, if any */
  function ParseAnchor(url: string, a: Anchor): Result<Option<Fields>, Fault>
  {
    ParseAnchorFrom(Start(url, a.name), a)
  }

  // ---------------------------------------------------------------------------
  // The page

  /** What one anchor adds to the page's list: nothing for a name that is
      not an event name or a report that is not a power-reactor report, the
      processed event otherwise, or the failure that ends the page. */
  function AnchorEvents(url: string, a: Anchor): Result<seq<Fields>, Fault>
  {
    if !IsEventAnchor(a.name) then Ok([])
    else
      var event :- ParseAnchor(url, a);
      Ok(if event.Some? then [event.value] else [])
  }

  /** The lists of a run of anchors joined in order, or the first failure */
  function Gather(results: seq<Result<seq<Fields>, Fault>>): Result<seq<Fields>, Fault>
    decreases |results|
  {
    if |results| == 0 then Ok([])
    else if results[0].Err? then Err(results[0].error)
    else
      var rest :- Gather(results[1..]);
      Ok(results[0].value + rest)
  }

  /** Gathering two runs is gathering each and joining the lists. */
  lemma {:induction false} GatherAppend(a: seq<Result<seq<Fields>, Fault>>, b: seq<Result<seq<Fields>, Fault>>)
    ensures Gather(a + b) == (var x :- Gather(a); var y :- Gather(b); Ok(x + y))
    decreases |a|
  {
    if |a| == 0 {
      assert a + b == b;
      if Gather(b).Ok? {
        assert [] + Gather(b).value == Gather(b).value;
      }
    } else {
      assert (a + b)[0] == a[0];
      assert (a + b)[1..] == a[1..] + b;
      GatherAppend(a[1..], b);
      if a[0].Ok? && Gather(a[1..]).Ok? && Gather(b).Ok? {
        var x, y := Gather(a[1..]).value, Gather(b).value;
        assert Gather(a[1..] + b) == Ok(x + y);
        assert Gather(a + b) == Ok(a[0].value + (x + y));
        assert Gather(a) == Ok(a[0].value + x);
        assert a[0].value + x + y == a[0].value + (x + y);
      }
    }
  }

  /** Every gathered element comes from one of the lists. */
  lemma {:induction false} GatherFrom(results: seq<Result<seq<Fields>, Fault>>, e: Fields)
    requires Gather(results).Ok? && e in Gather(results).value
    ensures exists k | 0 <= k < |results| :: results[k].Ok? && e in results[k].value
    decreases |results|
  {
    var rest := results[1..];
    if e !in results[0].value {
      GatherFrom(rest, e);
      var k :| 0 <= k < |rest| && rest[k].Ok? && e in rest[k].value;
      assert results[k + 1] == rest[k];
    }
  }

  /** The per-anchor lists of a page */
  function AnchorResults(url: string, anchors: seq<Anchor>): (r: seq<Result<seq<Fields>, Fault>>)
    ensures |r| == |anchors| && forall k | 0 <= k < |anchors| :: r[k] == AnchorEvents(url, anchors[k])
  {
    seq(|anchors|, k requires 0 <= k < |anchors| => AnchorEvents(url, anchors[k]))
  }

  /** parse_event_page(url): the events of the event anchors in page order;
      the first failure ends the page. */
  function PageEvents(url: string, anchors: seq<Anchor>): Result<seq<Fields>, Fault>
  {
    Gather(AnchorResults(url, anchors))
  }

  /** The page order is kept: the events of two stretches of anchors are
      the events of the first followed by those of the second. */
  lemma PageEventsAppend(url: string, a: seq<Anchor>, b: seq<Anchor>)
    ensures PageEvents(url, a + b) ==
      (var x :- PageEvents(url, a); var y :- PageEvents(url, b); Ok(x + y))
  {
    var ra, rb := AnchorResults(url, a), AnchorResults(url, b);
    assert AnchorResults(url, a + b) == ra + rb by {
      forall k | 0 <= k < |a + b| ensures AnchorResults(url, a + b)[k] == (ra + rb)[k] {
        if k < |a| {
          assert (a + b)[k] == a[k];
        } else {
          assert (a + b)[k] == b[k - |a|];
        }
      }
    }
    GatherAppend(AnchorResults(url, a), AnchorResults(url, b));
  }

  /** Every event of the page is the processed event of one of its event
      anchors. */
  lemma PageEventsFrom(url: string, anchors: seq<Anchor>, e: Fields)
    requires PageEvents(url, anchors).Ok? && e in PageEvents(url, anchors).value
    ensures exists k | 0 <= k < |anchors| ::
      IsEventAnchor(anchors[k].name) && ParseAnchor(url, anchors[k]) == Ok(Some(e))
  {
    GatherFrom(AnchorResults(url, anchors), e);
    var k :| 0 <= k < |anchors| && AnchorResults(url, anchors)[k].Ok? && e in AnchorResults(url, anchors)[k].value;
    assert AnchorResults(url, anchors)[k] == AnchorEvents(url, anchors[k]);
  }

  /** An anchor whose name is not an event name adds nothing; one that is
      adds its processed event, or nothing for another report type. */
  lemma AnchorEventsIs(url: string, a: Anchor)
    ensures !IsEventAnchor(a.name) ==> AnchorEvents(url, a) == Ok([])
    ensures IsEventAnchor(a.name) && ParseAnchor(url, a).Ok? ==>
      AnchorEvents(url, a) == Ok(if ParseAnchor(url, a).value.Some? then [ParseAnchor(url, a).value.value] else [])
    ensures IsEventAnchor(a.name) && ParseAnchor(url, a).Err? ==>
      AnchorEvents(url, a) == Err(ParseAnchor(url, a).error)
  {
  }

  // ---------------------------------------------------------------------------
  // Properties of one anchor

  /** The event an anchor starts with once a retraction is noted */
  function Marked(e0: Fields, retracted: bool): Fields
  {
    if retracted then e0["retracted" := Bool(true)] else e0
  }

  /** The record the report cells are read into */
  function ReportStart(e0: Fields, retracted: bool): Fields
  {
    Marked(e0, retracted)["type" := Str("Power Reactor")]
  }

  /** A read event went through every stage of the anchor loop body. */
  lemma ReadAnchorOk(e0: Fields, a: Anchor)
    requires ReadAnchorFrom(e0, a).Ok? && ReadAnchorFrom(e0, a).value.Some?
    ensures Retracted(a).Ok?
    ensures var cells := TypeCells(a, Retracted(a).value);
      var start := ReportStart(e0, Retracted(a).value);
      && |cells| > 0 && cells[0].str == Some("Power Reactor")
      && ReadReport(start, cells).Ok? && |a.text| > 0
      && ReadAnchorFrom(e0, a).value.value == Finished(ReadReport(start, cells).value, a)
  {
  }

  /** A parsed event is the processed read event. */
  lemma ParseAnchorOk(e0: Fields, a: Anchor)
    requires ParseAnchorFrom(e0, a).Ok? && ParseAnchorFrom(e0, a).value.Some?
    ensures ReadAnchorFrom(e0, a).Ok? && ReadAnchorFrom(e0, a).value.Some?
    ensures ProcessFields(ReadAnchorFrom(e0, a).value.value).Ok?
    ensures ParseAnchorFrom(e0, a).value.value == ProcessFields(ReadAnchorFrom(e0, a).value.value).value
  {
  }

  /** The type cell, after any retraction cell, that decides whether an
      anchor is read */
  predicate OtherType(a: Anchor)
  {
    && Retracted(a).Ok?
    && |TypeCells(a, Retracted(a).value)| > 0
    && TypeCells(a, Retracted(a).value)[0].str != Some("Power Reactor")
  }

  /** Reading a power-reactor report never yields nothing. */
  lemma ReadPowerReport(e0: Fields, a: Anchor)
    requires Retracted(a).Ok? && !OtherType(a)
    ensures ReadAnchorFrom(e0, a) != Ok(None)
  {
    var retracted := Retracted(a).value;
    var cells := TypeCells(a, retracted);
    if |cells| > 0 {
      var read := ReadReport(ReportStart(e0, retracted), cells);
      assert ReadAnchorFrom(e0, a) ==
        if read.Err? then Err(read.error)
        else if |a.text| == 0 then Err(StopIteration)
        else Ok(Some(Finished(read.value, a)));
    }
  }

  /** Reading yields nothing exactly when the type cell, after any
      retraction cell, is not "Power Reactor". */
  lemma ReadAnchorSkips(e0: Fields, a: Anchor)
    ensures ReadAnchorFrom(e0, a) == Ok(None) <==> OtherType(a)
  {
    if Retracted(a).Ok? && !OtherType(a) {
      ReadPowerReport(e0, a);
    }
  }

  /** Processing never turns a read event into nothing. */
  lemma ParseAnchorNoneIff(e0: Fields, a: Anchor)
    ensures ParseAnchorFrom(e0, a) == Ok(None) <==> ReadAnchorFrom(e0, a) == Ok(None)
  {
    var read := ReadAnchorFrom(e0, a);
    if read.Ok? && read.value.Some? {
      var done := ProcessFields(read.value.value);
      assert ParseAnchorFrom(e0, a) == if done.Ok? then Ok(Some(done.value)) else Err(done.error);
    }
  }

  /** An anchor yields nothing exactly when its type cell, after any
      retraction cell, is not "Power Reactor". */
  lemma ParseAnchorSkipsOtherTypes(e0: Fields, a: Anchor)
    ensures ParseAnchorFrom(e0, a) == Ok(None) <==> OtherType(a)
  {
    ReadAnchorSkips(e0, a);
    ParseAnchorNoneIff(e0, a);
  }

  /** No "Label: value" line of the two field cells assigns the key. */
  predicate NoLineAssigns(cells: seq<TableCell>, key: string)
  {
    |cells| >= 4 ==>
      && (forall k | 0 <= k < |cells[2].lines| :: !Assigns(cells[2].lines[k], key))
      && (forall k | 0 <= k < |cells[3].lines| :: !Assigns(cells[3].lines[k], key))
  }

  /** The keys ReadReport itself writes */
  predicate ReportWrites(key: string)
  {
    key in {"event_number", "region", "state", "emergency", "cfr10_sections", "people"}
  }

  /** The event with its number cell read */
  function WithNumber(e: Fields, cells: seq<TableCell>): Fields
    requires |cells| >= 2 && cells[1].str.Some?
  {
    e["event_number" := Str(Replace(cells[1].str.value, "Event Number: ", ""))]
  }

  /** A successful read of the report cells went through every stage. */
  lemma ReadReportOk(e: Fields, cells: seq<TableCell>)
    requires ReadReport(e, cells).Ok?
    ensures |cells| >= 6 && cells[1].str.Some? && |cells[4].lines| > 0
    ensures AddFieldLines(WithNumber(e, cells), cells[2].lines).Ok?
    ensures var e2 := AddFieldLines(WithNumber(e, cells), cells[2].lines).value;
      && SplitRegion(e2).Ok?
      && AddFieldLines(SplitRegion(e2).value, cells[3].lines).Ok?
      && ParsePeople(cells[5].lines).Ok?
      && ReadReport(e, cells).value ==
           AddFieldLines(SplitRegion(e2).value, cells[3].lines).value
             ["emergency" := Str(Replace(cells[4].lines[0], "Emergency Class: ", ""))]
             ["cfr10_sections" := Sections(CfrSections(cells[4].lines))]
             ["people" := People(ParsePeople(cells[5].lines).value)]
  {
  }

  /** Reading the report cells keeps a key that neither they nor any of
      their lines write. */
  lemma ReadReportKeeps(e: Fields, cells: seq<TableCell>, key: string)
    requires ReadReport(e, cells).Ok?
    requires !ReportWrites(key) && NoLineAssigns(cells, key)
    ensures var r := ReadReport(e, cells).value;
      (key in r <==> key in e) && (key in e ==> r[key] == e[key])
  {
    ReadReportOk(e, cells);
    var e1 := WithNumber(e, cells);
    AddFieldLinesKeeps(e1, cells[2].lines, key);
    var e2 := AddFieldLines(e1, cells[2].lines).value;
    var e3 := SplitRegion(e2).value;
    AddFieldLinesKeeps(e3, cells[3].lines, key);
  }

  /** The event number is the number cell with its label removed, unless a
      line of the field cells assigns it. */
  lemma ReadReportNumber(e: Fields, cells: seq<TableCell>)
    requires ReadReport(e, cells).Ok?
    requires NoLineAssigns(cells, "event_number")
    ensures var r := ReadReport(e, cells).value;
      "event_number" in r && r["event_number"] == Str(Replace(cells[1].str.value, "Event Number: ", ""))
  {
    ReadReportOk(e, cells);
    var e1 := WithNumber(e, cells);
    AddFieldLinesKeeps(e1, cells[2].lines, "event_number");
    var e2 := AddFieldLines(e1, cells[2].lines).value;
    var e3 := SplitRegion(e2).value;
    AddFieldLinesKeeps(e3, cells[3].lines, "event_number");
  }

  /** The layout cells of a read anchor, after any retraction cell */
  function ReportCells(a: Anchor): seq<TableCell>
  {
    if Retracted(a).Ok? then TypeCells(a, Retracted(a).value) else a.meta
  }

  /** Reading an anchor keeps what the record held before the report cells
      were read, for a key that neither they nor the text write. */
  lemma ReadAnchorKeeps(e0: Fields, a: Anchor, key: string)
    requires ReadAnchorFrom(e0, a).Ok? && ReadAnchorFrom(e0, a).value.Some?
    requires NoLineAssigns(ReportCells(a), key) && !ReportWrites(key)
    requires key != "reactor_status" && key != "subject" && key != "body"
    ensures Retracted(a).Ok?
    ensures var e := ReadAnchorFrom(e0, a).value.value;
      var start := ReportStart(e0, Retracted(a).value);
      (key in e <==> key in start) && (key in start ==> e[key] == start[key])
  {
    ReadAnchorOk(e0, a);
    var retracted := Retracted(a).value;
    var cells := TypeCells(a, retracted);
    var start := ReportStart(e0, retracted);
    ReadReportKeeps(start, cells, key);
    FinishedKeeps(ReadReport(start, cells).value, a, key);
  }

  /** A read event carries the page URL with the anchor name as fragment,
      unless a field line overwrites it. */
  lemma ReadAnchorUrl(url: string, a: Anchor)
    requires ReadAnchorFrom(Start(url, a.name), a).Ok? && ReadAnchorFrom(Start(url, a.name), a).value.Some?
    requires NoLineAssigns(ReportCells(a), "url")
    ensures var e := ReadAnchorFrom(Start(url, a.name), a).value.value;
      "url" in e && e["url"] == Str(url + "#" + a.name)
  {
    var e0 := Start(url, a.name);
    ReadAnchorKeeps(e0, a, "url");
    var start := ReportStart(e0, Retracted(a).value);
    assert "url" != "type" && "url" != "retracted";
    assert start["url"] == e0["url"];
  }

  /** A read event is retracted exactly when its first cell said so, unless
      a field line overwrites the flag. */
  lemma ReadAnchorRetracted(url: string, a: Anchor)
    requires ReadAnchorFrom(Start(url, a.name), a).Ok? && ReadAnchorFrom(Start(url, a.name), a).value.Some?
    requires NoLineAssigns(ReportCells(a), "retracted")
    ensures var e := ReadAnchorFrom(Start(url, a.name), a).value.value;
      Retracted(a).Ok? && "retracted" in e && e["retracted"] == Bool(Retracted(a).value)
  {
    var e0 := Start(url, a.name);
    ReadAnchorKeeps(e0, a, "retracted");
    assert "retracted" != "type";
  }

  /** A read event is a power reactor report, unless a field line
      overwrites its type. */
  lemma ReadAnchorType(url: string, a: Anchor)
    requires ReadAnchorFrom(Start(url, a.name), a).Ok? && ReadAnchorFrom(Start(url, a.name), a).value.Some?
    requires NoLineAssigns(ReportCells(a), "type")
    ensures var e := ReadAnchorFrom(Start(url, a.name), a).value.value;
      "type" in e && e["type"] == Str("Power Reactor")
  {
    ReadAnchorKeeps(Start(url, a.name), a, "type");
  }

  /** The same stamps survive processing. */
  lemma ParseAnchorStamps(url: string, a: Anchor)
    requires ParseAnchor(url, a).Ok? && ParseAnchor(url, a).value.Some?
    requires NoLineAssigns(ReportCells(a), "url")
    requires NoLineAssigns(ReportCells(a), "retracted")
    requires NoLineAssigns(ReportCells(a), "type")
    ensures var e := ParseAnchor(url, a).value.value;
      && Retracted(a).Ok?
      && "url" in e && e["url"] == Str(url + "#" + a.name)
      && "retracted" in e && e["retracted"] == Bool(Retracted(a).value)
      && "type" in e && e["type"] == Str("Power Reactor")
  {
    var e0 := Start(url, a.name);
    ParseAnchorOk(e0, a);
    var read := ReadAnchorFrom(e0, a).value.value;
    var e := ParseAnchor(url, a).value.value;
    assert forall k | k in read && !Touched(k) :: k in e && e[k] == read[k] by {
      ProcessedKeys(read);
    }
    assert !Touched("url") && !Touched("retracted") && !Touched("type");
    ReadAnchorUrl(url, a);
    ReadAnchorRetracted(url, a);
    ReadAnchorType(url, a);
  }

  /** A number cell "Event Number: n" gives the read event the number text
      n, unless a line of the field cells assigns it. */
  lemma ReadAnchorNumber(url: string, a: Anchor, n: string)
    requires ReadAnchorFrom(Start(url, a.name), a).Ok? && ReadAnchorFrom(Start(url, a.name), a).value.Some?
    requires Retracted(a).Ok? && |ReportCells(a)| >= 2
    requires ReportCells(a)[1].str == Some("Event Number: " + n)
    requires |n| > 0 && AllDigits(n)
    requires NoLineAssigns(ReportCells(a), "event_number")
    ensures var e := ReadAnchorFrom(Start(url, a.name), a).value.value;
      "event_number" in e && e["event_number"] == Str(n)
  {
    var e0 := Start(url, a.name);
    ReadAnchorOk(e0, a);
    var retracted := Retracted(a).value;
    var cells := TypeCells(a, retracted);
    var start := ReportStart(e0, retracted);
    ReadReportNumber(start, cells);
    AbsentFirstChar(n, "Event Number: ");
    RemoveLabel("Event Number: ", n);
    FinishedKeeps(ReadReport(start, cells).value, a, "event_number");
  }

  /** A number cell "Event Number: n" with digits n gives the event number
      int(n) after processing. */
  lemma ParseAnchorNumber(url: string, a: Anchor, n: string)
    requires ParseAnchor(url, a).Ok? && ParseAnchor(url, a).value.Some?
    requires Retracted(a).Ok? && |ReportCells(a)| >= 2
    requires ReportCells(a)[1].str == Some("Event Number: " + n)
    requires |n| > 0 && AllDigits(n)
    requires NoLineAssigns(ReportCells(a), "event_number")
    ensures var e := ParseAnchor(url, a).value.value;
      "event_number" in e && e["event_number"] == Int(DigitsValue(n))
  {
    var e0 := Start(url, a.name);
    ParseAnchorOk(e0, a);
    ReadAnchorNumber(url, a, n);
    var read := ReadAnchorFrom(e0, a).value.value;
    ProcessedKeys(read);
    ParseIntOfDigits(n);
  }

  // ---------------------------------------------------------------------------
  // The loop of parse_event_page, on events updated in place

  /** The page so far decides the page: a failing anchor ends it, any other
      adds its list to the prefix's. */
  lemma PageEventsStep(url: string, anchors: seq<Anchor>, i: nat, events: seq<Fields>)
    requires i < |anchors| && PageEvents(url, anchors[..i]) == Ok(events)
    ensures AnchorEvents(url, anchors[i]).Err? ==>
      PageEvents(url, anchors) == Err(AnchorEvents(url, anchors[i]).error)
    ensures AnchorEvents(url, anchors[i]).Ok? ==>
      PageEvents(url, anchors[..i + 1]) == Ok(events + AnchorEvents(url, anchors[i]).value)
  {
    var a := anchors[i];
    assert anchors[..i + 1] == anchors[..i] + [a];
    assert anchors == anchors[..i + 1] + anchors[i + 1..];
    PageEventsAppend(url, anchors[..i], [a]);
    PageEventsAppend(url, anchors[..i + 1], anchors[i + 1..]);
    assert AnchorResults(url, [a]) == [AnchorEvents(url, a)];
    if AnchorEvents(url, a).Ok? {
      var x := AnchorEvents(url, a).value;
      assert Gather([AnchorEvents(url, a)]) == Ok(x + []) by {
        assert [AnchorEvents(url, a)][1..] == [];
      }
      assert x + [] == x;
    }
  }

  /** Cells two to six of the layout table read into the event in place:
      the number cell, the two per-line loops with the region split between
      them, the emergency class and sections, and the people. */
  method ReadReportInto(ev: Event, cells: seq<TableCell>) returns (r: Result<(), Fault>)
    modifies ev
    ensures ReadReport(old(ev.fields), cells).Ok? ==>
      r.Ok? && ev.fields == ReadReport(old(ev.fields), cells).value
    ensures ReadReport(old(ev.fields), cells).Err? ==>
      r == Err(ReadReport(old(ev.fields), cells).error)
  {
    ghost var e0 := ev.fields;
    if |cells| < 2 {
      return Err(IndexError);
    }
    if cells[1].str.None? {
      return Err(AttributeError);
    }
    ev.fields := ev.fields["event_number" := Str(Replace(cells[1].str.value, "Event Number: ", ""))];
    if |cells| < 3 {
      return Err(IndexError);
    }
    r := ReadFields(ev, cells[2].lines);
    if r.Err? {
      return;
    }
    var split := SplitRegion(ev.fields);
    if split.Err? {
      return Err(split.error);
    }
    ev.fields := split.value;
    if |cells| < 4 {
      return Err(IndexError);
    }
    assert ReadReport(e0, cells) == ReadRest(ev.fields, cells);
    r := ReadFields(ev, cells[3].lines);
    if r.Err? {
      return;
    }
    if |cells| < 5 || |cells[4].lines| == 0 {
      return Err(IndexError);
    }
    var lines := cells[4].lines;
    ev.fields := ev.fields["emergency" := Str(Replace(lines[0], "Emergency Class: ", ""))];
    ev.fields := ev.fields["cfr10_sections" := Sections(CfrSections(lines))];
    if |cells| < 6 {
      return Err(IndexError);
    }
    var people := ParsePeople(cells[5].lines);
    if people.Err? {
      return Err(people.error);
    }
    ev.fields := ev.fields["people" := People(people.value)];
    return Ok(());
  }

  /** The anchor loop body up to process_event, on the event in place:
      false is the `continue` of a report that is not a power-reactor
      report. */
  method ReadAnchorInto(ev: Event, a: Anchor) returns (r: Result<bool, Fault>)
    modifies ev
    ensures ReadAnchorFrom(old(ev.fields), a).Err? ==>
      r == Err(ReadAnchorFrom(old(ev.fields), a).error)
    ensures ReadAnchorFrom(old(ev.fields), a) == Ok(None) ==> r == Ok(false)
    ensures ReadAnchorFrom(old(ev.fields), a).Ok? && ReadAnchorFrom(old(ev.fields), a).value.Some? ==>
      r == Ok(true) && ev.fields == ReadAnchorFrom(old(ev.fields), a).value.value
  {
    if |a.meta| == 0 {
      return Err(IndexError);
    }
    if a.meta[0].str.None? {
      return Err(TypeError);
    }
    var cells := a.meta;
    if Contains(a.meta[0].str.value, "RETRACTED") {
      ev.fields := ev.fields["retracted" := Bool(true)];
      cells := cells[1..];
    }
    if |cells| == 0 {
      return Err(IndexError);
    }
    if cells[0].str != Some("Power Reactor") {
      return Ok(false);
    }
    ev.fields := ev.fields["type" := Str("Power Reactor")];
    var report := ReadReportInto(ev, cells);
    if report.Err? {
      return Err(report.error);
    }
    var units := ReadStatusRows(a.rxRows);
    ev.fields := ev.fields["reactor_status" := RawStatuses(units)];
    if |a.text| == 0 {
      return Err(StopIteration);
    }
    ev.fields := ev.fields["subject" := Str(a.text[0])];
    ev.fields := ev.fields["body" := Lines(a.text[1..])];
    return Ok(true);
  }

  /** The anchor loop body in terms of its two stages */
  lemma ParseAnchorCases(e0: Fields, a: Anchor)
    ensures ReadAnchorFrom(e0, a).Err? ==> ParseAnchorFrom(e0, a) == Err(ReadAnchorFrom(e0, a).error)
    ensures ReadAnchorFrom(e0, a) == Ok(None) ==> ParseAnchorFrom(e0, a) == Ok(None)
    ensures ReadAnchorFrom(e0, a).Ok? && ReadAnchorFrom(e0, a).value.Some? ==>
      var done := ProcessFields(ReadAnchorFrom(e0, a).value.value);
      ParseAnchorFrom(e0, a) == if done.Ok? then Ok(Some(done.value)) else Err(done.error)
  {
  }

  /** One pass of the anchor loop: a fresh event read from the anchor's
      tables and processed in place, or None for the `continue`. */
  method ParseAnchorInto(url: string, a: Anchor) returns (r: Result<Option<Fields>, Fault>)
    ensures r == ParseAnchor(url, a)
  {
    var ev := new Event(url, a.name);
    ParseAnchorCases(ev.fields, a);
    var more := ReadAnchorInto(ev, a);
    if more.Err? {
      return Err(more.error);
    }
    if !more.value {
      return Ok(None);
    }
    var done := ProcessEvent(ev);
    if done.Err? {
      return Err(done.error);
    }
    return Ok(Some(ev.fields));
  }

  /** parse_event_page: the anchors named like events, each parsed into a
      fresh event, the events appended in page order. */
  method ParseEventPage(url: string, anchors: seq<Anchor>) returns (r: Result<seq<Fields>, Fault>)
    ensures r == PageEvents(url, anchors)
  {
    var events: seq<Fields> := [];
    var i := 0;
    while i < |anchors|
      invariant 0 <= i <= |anchors|
      invariant PageEvents(url, anchors[..i]) == Ok(events)
    {
      var a := anchors[i];
      PageEventsStep(url, anchors, i, events);
      AnchorEventsIs(url, a);
      if !IsEventAnchor(a.name) {
        assert events + [] == events;
      } else {
        var event := ParseAnchorInto(url, a);
        if event.Err? {
          return Err(event.error);
        }
        if event.value.Some? {
          events := events + [event.value.value];
        } else {
          assert events + [] == events;
        }
      }
      i := i + 1;
    }
    assert anchors[..i] == anchors;
    return Ok(events);
  }
}
