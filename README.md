# us-reactors in Dafny

A model of the parsing core of us-reactors. It collects data about US
commercial nuclear power reactors and the event notification reports the
Nuclear Regulatory Commission publishes about them. The model covers three
parts of the core:

- **Event report scraping** (`scripts/events_scraper.py`).
  - A daily event page is a sequence of named anchors. Each anchor carries
    the cells of its layout table, the rows of its reactor-status table and
    the lines of its text table.
  - `parse_event_page` keeps the anchors whose name starts with `en` and a
    digit. From each it reads an event record: the retraction cell, the
    "Power Reactor" filter, the event number, the "Label: value" lines, the
    region/state split, the emergency class and 10 CFR sections, the people,
    the status rows, the subject and the body.
  - `process_event` then normalises the record in place: the event number
    as an int, the location and date keys dropped, times converted, and the
    bracketed affected-unit list merged into the status rows.
  - The year digest is filtered for `YYYYMMDDen.html` links.
  - `fetch_all` derives the page date from a page URL.
- **Reference-data loading** (`scripts/load_reactors.py`). This covers
  reactor and facility name parsing, dates with a two-digit-year pivot, the
  model clean-up and first-match vendor search, the type/containment split,
  the Location city/state split and the unit default.
- **Display names** (`models.py`). This covers `Reactor.title`,
  `Reactor.short_title`, the `__unicode__` methods and the ordered vendor
  table.

Modules:

- `Wrappers`: Option and Result.
- `Text`: Python string operations with their Python semantics, such as
  `find`, `replace`, `split`, `strip` and Python 2 `int()`.
- `Catalog`: `models.py`.
- `LoadReactors`: `scripts/load_reactors.py`.
- `ScraperTime`, `ScraperFields`, `ScraperProcess`, `ScraperPage` and
  `ScraperDigest`: `scripts/events_scraper.py`.

How the Python is represented:

- The event dictionary is a `map<string, Value>` held by the class `Event`.
- The in-place code is written as methods that update that map: the
  per-line loops (`ReadFields`), `process_event` (`ProcessEvent`), the
  reading of one anchor (`ReadReportInto`, `ReadAnchorInto`) and the page
  loop (`ParseEventPage`).
- Each method is proved equal to a specification function. The properties
  the program promises are proved as lemmas about those functions.
- Every Python exception that stops a run is an `Err` carrying the
  exception's name (`Fault`), on the same inputs as in the code, apart
  from the failures listed under "Left out".

Two behaviours of the code are worth stating outright:

- Labels are looked up in `REPORT_FIELDS` by exact case
  (`scripts/events_scraper.py:185` and `:192`).
- Event-number text that `int()` rejects is a `ValueError` that ends the
  whole page, not a skipped record (`scripts/events_scraper.py:239`).

## Model

| member | source | states |
|---|---|---|
| ScraperFields.Event.constructor | scripts/events_scraper.py:155-157 | a fresh event holds just its URL (page URL, `#`, anchor name) and retracted = false |
| ScraperFields.SplitField | scripts/events_scraper.py:184 | the name is the text before the first colon (the whole line when there is none); the value is what follows that colon once the whitespace after it is skipped |
| ScraperFields.AddFieldLines | scripts/events_scraper.py:183-186 | the per-line loop fails exactly when some line is a known label without a colon, and that failure is the IndexError of `res[1]` |
| ScraperFields.AddFieldLinesKeeps | scripts/events_scraper.py:183-186 | a key that no line assigns keeps its value, or stays absent |
| ScraperFields.AddFieldLinesLastWins | scripts/events_scraper.py:183-186 | a key ends up holding the value of the last line that assigns it |
| ScraperFields.ReadFields | scripts/events_scraper.py:183-186 | the loop updates the event in place to exactly the specified record, or fails with IndexError exactly when the specification does |
| ScraperTime.ConvertTime | scripts/events_scraper.py:288-307 | the result is date-only exactly when the time part is absent or has no digit, and then it is the date text |
| ScraperTime.ConvertTimePlain | scripts/events_scraper.py:296-298 | outside the Arizona case the parser gets the date, one space and the time with `[` and `]` removed |
| ScraperTime.RelabelledMstIsTagged | scripts/events_scraper.py:300-301 | after `replace('MST', 'AZMST')` every `MST` left is the tail of an `AZMST` |
| ScraperTime.ArizonaTime | scripts/events_scraper.py:300-301 | a time naming MST at a reactor without daylight saving is read with AZMST, and no bare MST reaches the parser |
| ScraperProcess.BracketNumbersIff | scripts/events_scraper.py:271 | a number is in the affected list exactly when it is the value of a digit run enclosed in `[` `]` in the unit text; an empty bracket contributes nothing |
| ScraperProcess.BracketNumbersSound | scripts/events_scraper.py:271 | every affected number comes from a bracketed digit run |
| ScraperProcess.BracketNumbersComplete | scripts/events_scraper.py:271 | every bracketed digit run gives an affected number |
| ScraperProcess.NormalizeRowFails | scripts/events_scraper.py:276-285 | a status row normalises exactly when unit and both powers are integers and critical is Y or N; a missing or bad unit fails first; another flag is the AssertionError |
| ScraperProcess.NormalizeRowOk | scripts/events_scraper.py:276-285 | a stepping stone of NormalizeRowFails and NormalizeRowsSpec: a row that normalises gives the record of its unit and power ints |
| ScraperProcess.RecordFields | scripts/events_scraper.py:277-285 | unit and powers become ints, affected is true exactly when the unit is in the list, critical is true exactly when it was Y, and the other columns keep their text |
| ScraperProcess.CollectSpec | scripts/events_scraper.py:276-285 | the per-row results succeed exactly when all rows do; their order is kept; otherwise the first failure is reported |
| ScraperProcess.NormalizeRowsSpec | scripts/events_scraper.py:276-285 | the status list normalises row by row in the same order, or stops at the first row that fails |
| ScraperProcess.NormalizeUnits | scripts/events_scraper.py:276-285 | the loop over the status rows computes the specified list or failure |
| ScraperProcess.ProcessStages | scripts/events_scraper.py:238-285 | a stepping stone of ProcessedIs: a successful run went through the number, location, time and unit stages in order |
| ScraperProcess.TakeNumberOk | scripts/events_scraper.py:239 | a stepping stone of ProcessEvent: the event number stage needs an integer text and stores its int |
| ScraperProcess.DropLocationOk | scripts/events_scraper.py:245-248 | a stepping stone of ProcessEvent: the location stage needs region, state and reactor type, and removes them |
| ScraperProcess.ConvertTimesOk | scripts/events_scraper.py:254-265 | a stepping stone of ProcessEvent: the time stage converts the update date alone, the event time with the facility's daylight-saving rule and the report time with it on, then drops both date keys |
| ScraperProcess.MergeUnitsOk | scripts/events_scraper.py:271-285 | a stepping stone of ProcessEvent: the unit stage drops the unit text and replaces the status rows by their normalisation against its bracketed numbers |
| ScraperProcess.ProcessedIs | scripts/events_scraper.py:238-285 | a stepping stone of ProcessedDrops, ProcessedSets and ProcessedKeeps: a successful run leaves the Processed record of the values it computed |
| ScraperProcess.ProcessedDrops | scripts/events_scraper.py:248-272 | region, state, reactor type, unit, event date and report date are absent afterwards |
| ScraperProcess.ProcessedSets | scripts/events_scraper.py:239-285 | event number, update date, event time, report time and status list hold the computed values |
| ScraperProcess.ProcessedKeeps | scripts/events_scraper.py:238-285 | every key process_event does not touch keeps its value |
| ScraperProcess.ProcessedKeys | scripts/events_scraper.py:239-272 | after processing, the transient keys are gone, the event number is the int of its text, and untouched keys are kept |
| ScraperProcess.ProcessRejectsBadNumber | scripts/events_scraper.py:239 | event-number text that `int()` rejects stops the run with ValueError |
| ScraperProcess.ProcessedTimes | scripts/events_scraper.py:245-264 | the update date is date-only, use_dst is false exactly for AZ, and the report time is always read with daylight saving |
| ScraperProcess.ProcessedStatuses | scripts/events_scraper.py:271-285 | the status list keeps its length and order, and each record normalises its own row |
| ScraperProcess.AffectedIff | scripts/events_scraper.py:271-281 | a record is affected exactly when its unit is a bracketed number of the unit text |
| ScraperProcess.AffectedFlag | scripts/events_scraper.py:277-281 | a normalised record is flagged affected exactly when its unit number is in the affected list |
| ScraperProcess.ProcessEvent | scripts/events_scraper.py:238-285 | process_event updates the event in place to the specified record, or fails with the specified exception |
| ScraperPage.ParseRegion | scripts/events_scraper.py:187 | a match gives a leading digit run and a run of word characters, and the text contains `State:`; the full characterisation is ParseRegionMatches and ParseRegionGroups |
| ScraperPage.ParseRegionMatches | scripts/events_scraper.py:187 | the pattern matches exactly when the text splits into digits, whitespace, `State:`, whitespace and word characters, none of the runs empty |
| ScraperPage.ParseRegionGroups | scripts/events_scraper.py:187-188 | for any such split whose word run cannot be extended, the groups are its digits and its word run |
| ScraperPage.ParseRegionComplete | scripts/events_scraper.py:187 | any such split forces the digit and whitespace runs, and the state group is the longest word run from the same start |
| ScraperPage.ParseRegionOf | scripts/events_scraper.py:187-188 | a region line "n State: XX" gives back n and XX |
| ScraperPage.ParseRegionOfRuns | scripts/events_scraper.py:187-188 | on any string of digits, " State: " and a run of word characters, the groups are the digits and that run |
| ScraperPage.SplitRegion | scripts/events_scraper.py:187-188 | a missing region is a KeyError; a region the pattern does not match is an AttributeError; otherwise region and state become the two groups |
| ScraperPage.ParsePerson | scripts/events_scraper.py:208 | a match gives a one-line name of at least one character and an organisation without `)`, and the line starts with "name (org)"; which matches occur, and where the name ends, is ParsePersonMatches |
| ScraperPage.ParsePersonMatches | scripts/events_scraper.py:208 | no match exactly when no position on the first line after the first character starts " (" followed later by `)`; otherwise the greedy name runs to the last such position |
| ScraperPage.ParsePersonOf | scripts/events_scraper.py:207-209 | a line "name (org)" gives back name and organisation, also for an empty organisation |
| ScraperPage.PeopleOf | scripts/events_scraper.py:206-209 | every person line parses, in order, or the list fails with AttributeError exactly when some line does not match |
| ScraperPage.CfrSections | scripts/events_scraper.py:201 | the sections are the lines from the third on, each split at ` - ` |
| ScraperPage.CfrSectionsRejoin | scripts/events_scraper.py:201 | each section's parts join back into its line, and no part holds ` - ` |
| ScraperPage.ZipFields | scripts/events_scraper.py:218 | `dict(zip(keys, values))` with distinct keys maps each of the first keys to the value at its position |
| ScraperPage.ZipKeys | scripts/events_scraper.py:218 | the keys of `dict(zip(keys, values))` are exactly the keys that have a value |
| ScraperPage.ZipValues | scripts/events_scraper.py:218 | with distinct keys, each key with a value maps to the value at its position |
| ScraperPage.StatusRowFields | scripts/events_scraper.py:218 | a status record pairs the row's cells with the column names in order, up to the shorter of the two |
| ScraperPage.StatusRows | scripts/events_scraper.py:213-219 | the header row is skipped and each later row gives one record, in row order |
| ScraperPage.ReadStatusRows | scripts/events_scraper.py:214-219 | the append loop builds exactly the specified records |
| ScraperPage.ReadReportOk | scripts/events_scraper.py:178-209 | a stepping stone of ReadReportKeeps and ReadReportNumber: a report read went through the number cell, the first field cell, the region split, the second field cell, the emergency and section cell and the people cell, in that order |
| ScraperPage.ReadReportKeeps | scripts/events_scraper.py:178-209 | reading the report keeps a key that neither it nor any field line writes |
| ScraperPage.ReadReportNumber | scripts/events_scraper.py:180 | the event number is the number cell with `Event Number: ` removed, unless a field line assigns it |
| ScraperPage.FinishedKeeps | scripts/events_scraper.py:214-228 | adding the status rows, subject and body keeps every other key |
| ScraperPage.ReadAnchorOk | scripts/events_scraper.py:167-228 | a stepping stone of the ReadAnchor lemmas: a read event passed the retraction check and the type filter, and has its subject and body |
| ScraperPage.ParseAnchorOk | scripts/events_scraper.py:232 | a stepping stone of the ParseAnchor lemmas: a parsed event is the processed read event |
| ScraperPage.ReadAnchorSkips | scripts/events_scraper.py:170-176 | reading yields nothing exactly when the type cell, after any retraction cell, is not exactly "Power Reactor" |
| ScraperPage.ParseAnchorNoneIff | scripts/events_scraper.py:232-235 | processing never turns a read event into nothing |
| ScraperPage.ParseAnchorSkipsOtherTypes | scripts/events_scraper.py:170-176 | an anchor yields no event exactly when its type cell, after any retraction cell, is not exactly "Power Reactor" |
| ScraperPage.ReadAnchorUrl | scripts/events_scraper.py:155-157 | a read event has url = page URL + `#` + anchor name, unless a field line assigns `url` |
| ScraperPage.ReadAnchorRetracted | scripts/events_scraper.py:170-172 | a read event is retracted exactly when the first cell says RETRACTED, unless a field line assigns `retracted` |
| ScraperPage.ReadAnchorType | scripts/events_scraper.py:173-177 | a read event has type "Power Reactor", unless a field line assigns `type` |
| ScraperPage.ReadAnchorKeeps | scripts/events_scraper.py:170-228 | reading an anchor keeps every key of the starting record that no report cell, field line, status row, subject or body writes |
| ScraperPage.ParseAnchorStamps | scripts/events_scraper.py:155-177 | the same URL, retraction and type survive processing |
| ScraperPage.ReadAnchorNumber | scripts/events_scraper.py:180 | a number cell "Event Number: n" gives the read event the text n |
| ScraperPage.ParseAnchorNumber | scripts/events_scraper.py:239 | a number cell "Event Number: n" with digits n gives the processed event the int of n |
| ScraperPage.AnchorEventsIs | scripts/events_scraper.py:154-176 | a stepping stone of PageEventsStep: an anchor not named like an event adds nothing; one that is adds its processed event, or nothing for another report type, or ends the page with its failure |
| ScraperPage.GatherAppend | scripts/events_scraper.py:235 | gathering two runs of anchors is gathering each and joining the lists |
| ScraperPage.GatherFrom | scripts/events_scraper.py:235 | every gathered event comes from one of the anchors' lists |
| ScraperPage.AnchorResults | scripts/events_scraper.py:154 | a stepping stone of ParseEventPage: one result per anchor, in anchor order |
| ScraperPage.PageEventsAppend | scripts/events_scraper.py:235 | the events of two stretches of anchors are those of the first followed by those of the second |
| ScraperPage.PageEventsFrom | scripts/events_scraper.py:232-235 | every event of the page is the processed event of one of its event anchors |
| ScraperPage.PageEventsStep | scripts/events_scraper.py:154-235 | a failing anchor ends the page with its failure; any other anchor adds its list to the events so far |
| ScraperPage.ReadReportInto | scripts/events_scraper.py:178-209 | reading cells two to six updates the event in place to the specified record, or fails with the specified exception |
| ScraperPage.ReadAnchorInto | scripts/events_scraper.py:167-228 | the loop body up to process_event updates the event in place to the read event, returns false for the `continue`, or fails as specified |
| ScraperPage.ParseAnchorCases | scripts/events_scraper.py:232 | a stepping stone of ParseAnchorInto: the loop body is the read followed by process_event |
| ScraperPage.ParseAnchorInto | scripts/events_scraper.py:155-235 | one pass of the loop on a fresh event computes the specified event, None or failure |
| ScraperPage.ParseEventPage | scripts/events_scraper.py:149-236 | parse_event_page returns exactly the specified events in page order, or the first failure |
| ScraperDigest.DirEnd | scripts/events_scraper.py:145 | the directory part of a URL ends at its last `/` |
| ScraperDigest.UrlJoin | scripts/events_scraper.py:145 | the joined URL is the base's directory followed by the href; a base ending in `/` is kept whole |
| ScraperDigest.ParseEventDigest | scripts/events_scraper.py:134-147 | the loop over the links builds exactly the specified page list |
| ScraperDigest.DigestPagesSound | scripts/events_scraper.py:143-146 | every page comes from a link whose href matches `^\d{8}en\.html$` |
| ScraperDigest.DigestPagesComplete | scripts/events_scraper.py:143-146 | every matching link gives a page |
| ScraperDigest.DigestPagesAppend | scripts/events_scraper.py:143-147 | link order is kept |
| ScraperDigest.SplitLast | scripts/events_scraper.py:109 | the last piece of a split at `/` is what follows the last `/` |
| ScraperDigest.DigestHrefDate | scripts/events_scraper.py:109 | removing `en.html` from a digest link leaves its eight digits and whatever `$` let through |
| ScraperDigest.DigestPageDate | scripts/events_scraper.py:109 | the date of a page linked from a digest URL ending in `/` is the link's eight digits |
| LoadReactors.ParseName | scripts/load_reactors.py:95-108 | with no match, the input and None; otherwise the greedy name before the last ", Unit" on the first line that is followed by spaces and a digit, and that digit |
| LoadReactors.TitleRoundTrip | models.py:144-149 | `parse_name(title)` gives back the facility name and the unit for units 1 to 9 |
| LoadReactors.TitleRoundTripNoUnit | models.py:144-149 | for unit 0 and a facility name without ", Unit" the title parses back to the name alone |
| LoadReactors.ParseShortName | scripts/load_reactors.py:110-123 | with no match, the input and None; otherwise the greedy name before the last space-digit on the first line, and that digit |
| LoadReactors.ShortTitleRoundTrip | models.py:151-156 | `parse_short_name(short_title)` gives back the short name and the unit |
| LoadReactors.ReactorTextRoundTrip | models.py:158-159 | `Reactor.__unicode__` is the short title and parses back the same way |
| Text.ParseIntOfIntToString | scripts/load_reactors.py:128 | `int()` reads back the decimal rendering of every integer, negative ones included |
| Text.ParseIntSpaceAfterSign | scripts/load_reactors.py:128 | whitespace between a sign and the digits is skipped, so "- 5" reads as -5 and "+ 5" as 5 |
| LoadReactors.YearPivot | scripts/load_reactors.py:131-136 | a two-digit year above 60 lands in 1961-1999, one of 60 or below in 2000-2060, keeping its last two digits; years from 100 are unchanged |
| LoadReactors.ParseDate | scripts/load_reactors.py:125-137 | the result is None exactly when the text is not three integers split by `/`; otherwise a number outside the C `int` range is the uncaught OverflowError, a valid range with an impossible date the uncaught ValueError, and a date returned is the pivoted triple and a valid calendar date |
| LoadReactors.ParseDateRoundTrip | scripts/load_reactors.py:125-137 | an M/D/YYYY rendering of a valid date parses back to it |
| LoadReactors.ParseDateOverflow | scripts/load_reactors.py:125-137 | M/D/Y text with a number beyond a C `int` after the pivot, such as "1/1/3000000000", is the OverflowError and not a date or a ValueError |
| LoadReactors.ValidDateFits | scripts/load_reactors.py:137 | every date `datetime.date` accepts is made of C `int`s, so the overflow check never rejects a valid date |
| LoadReactors.ParseDateTwoDigitYear | scripts/load_reactors.py:131-137 | a two-digit year parses to its pivoted year, month and day unchanged |
| LoadReactors.CleanModelDropsPrefix | scripts/load_reactors.py:40-41 | a model starting `COMB ` loses that prefix and every later `COMB ` |
| LoadReactors.CleanModelKeeps | scripts/load_reactors.py:40-42 | a model is unchanged exactly when it does not start with `COMB` or has no `COMB ` in it (as "COMBUSTION" has not) |
| LoadReactors.FirstVendor | scripts/load_reactors.py:43-46 | the vendor is the first code in table order that occurs in the model; None when no code occurs |
| LoadReactors.FindVendor | scripts/load_reactors.py:43-46 | the search loop with `break` finds exactly that vendor |
| LoadReactors.SplitTypeContainmentIff | scripts/load_reactors.py:36 | type and containment are the two halves of a text with exactly one `-` |
| LoadReactors.ParseLocationMatch | scripts/load_reactors.py:87-89 | fails exactly when no city/state tail matches; otherwise the shortest city before `,` or `.`, whitespace and a two-character word, with the state upper-cased |
| LoadReactors.ParseLocationOfCityState | scripts/load_reactors.py:87-89 | "City, ST (..." gives back the city and the upper-cased state |
| LoadReactors.ParseLocationOfTail | scripts/load_reactors.py:87-89 | on any string whose first n characters hold no comma, period or newline and are followed by ", XY (", the city is those n characters and the state XY upper-cased |
| LoadReactors.ParseLocationAt | scripts/load_reactors.py:87-89 | the lazy city group ends at the first index on the first line where the tail matches |
| LoadReactors.LoadFacility | scripts/load_reactors.py:78-93 | a facility is built exactly when its Location matches and its region is an integer, from the parsed names, city and state |
| LoadReactors.UnitOrZero | scripts/load_reactors.py:32 | the unit is the parsed unit when there is one, otherwise 0 |
| LoadReactors.LoadReactor | scripts/load_reactors.py:26-63 | apart from the `float()` conversions (see "Left out"), a reactor is built exactly when the docket is an integer, the type splits in two and no date column holds a triple `datetime.date` rejects; its fields come from the parsers above, the renewal date only when its column is non-empty |
| Catalog.PersonTextSplits | models.py:208-209 | `EventPerson.__unicode__` splits back at its first ", " into name and organisation |
| Catalog.SectionTextSplits | models.py:219-220 | `CFRSection.__unicode__` splits back at its first space into section and title |

## Left out

- Network, files and time:
  - `parser_open` downloads a page, caches it as a file, waits between
    requests and builds the BeautifulSoup tree. It is I/O plus a foreign
    library.
  - `gather_page_urls` is a generator over network fetches.
  - `fetch_all` prints results and writes JSON files. Only its page-date
    expression is modelled.
  - `crawl_time` is taken with `datetime.now` and is not part of the model's
    event.
  - `freeze_time` and ISO formatting are also left out.
- The BeautifulSoup traversal is replaced by the abstract `Anchor`.
  - A missing next table, which would be an AttributeError on None, is not
    modelled.
  - `.string` of a reactor-status cell is taken to be a string, never None.
  - Anchors are taken to have a name, and digest links an href (or None).
  - The text table is given directly as its first cell's lines.
- ScraperTime.ConvertTime: the dateutil parser is taken never to fail.
  The source raises ValueError for date or time text the parser cannot
  read, and for a naive datetime (a time with no zone) at the `astimezone`
  call. That failure, and so that failure of ProcessEvent and of the page
  parser, is not modelled. Parsing, the TIMEZONES tz objects and the UTC conversion
  stay symbolic: a converted value records the text handed to the parser.
- The regex character classes under `re.U` are simplified:
  - `\d` and `\w` are ASCII digits and word characters;
  - whitespace is the set of characters Python 2.7 `unicode.isspace`
    accepts;
  - `int()` reads only ASCII digits; it skips whitespace around the text
    and between the sign and the digits, as Python 2 does.
- ScraperDigest.UrlJoin: only the join of a plain file name is modelled.
  Queries, fragments, dot segments and bases without a path are not
  modelled. Matching hrefs are always such file names.
- The Django ORM is left out: `find_facility`'s database lookup, `.save()`,
  and the field declarations and choice tuples of `models.py` other than
  the vendor table.
- Floating-point values are left out. `capacity`, `Licensed MWt`,
  `latitude` and `longitude` are converted with `float()`, which the model
  does not do. So the ValueError that `float()` raises for such a column
  that is not a number (`scripts/load_reactors.py:56-60`) is not modelled:
  LoadReactor builds a reactor there.
- csvkit reading and `main` are left out.
- `scripts/reactors_xml2csv.py` (lxml and csv streaming) and `admin.py`
  (admin registration) are left out.
- Type errors that only a value of an unexpected type would raise are left
  out. An example is the region key being set to a non-string by something
  other than a field line.
