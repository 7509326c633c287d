/** The decision logic of convert_time in scripts/events_scraper.py: whether
    a report time is read as a full timestamp or a bare date, and which text
    is handed to the date parser. The parser itself (dateutil with the
    TIMEZONES table, then the conversion to UTC) stays symbolic: a converted
    value records the text it was given. */
module ScraperTime {
  import opened Wrappers
  import opened Text

  /** What convert_time returns: a date read from the date text alone, or a
      timestamp read from the combined date-and-time text. */
  datatype Converted = DateOnly(date: string) | Instant(stamp: string)

  /** `re.search(r'\d', s)` finds something */
  predicate HasDigit(s: string)
  {
    exists i | 0 <= i < |s| :: IsDigit(s[i])
  }

  /** The text of the timestamp branch: date, one space, the time with its
      square brackets removed; for a reactor in a state without daylight
      saving time, every "MST" in that text becomes the zone "AZMST" when the
      time named "MST". */
  function TimeText(datePart: string, timePart: string, useDst: bool): string
  {
    var s := datePart + " " + Replace(Replace(timePart, "[", ""), "]", "");
    if !useDst && Contains(timePart, "MST") then Replace(s, "MST", "AZMST") else s
  }

  /** convert_time(date_part, time_part, use_dst); None is an omitted time
      part. */
  function ConvertTime(datePart: string, timePart: Option<string>, useDst: bool): (r: Converted)
    ensures r.DateOnly? <==> timePart.None? || !HasDigit(timePart.value)
    ensures r.DateOnly? ==> r.date == datePart
  {
    if timePart.Some? && HasDigit(timePart.value) then
      Instant(TimeText(datePart, timePart.value, useDst))
    else
      DateOnly(datePart)
  }

  /** Outside the Arizona case the parser sees the date, a space and the
      time without brackets, and nothing else is rewritten. */
  lemma ConvertTimePlain(datePart: string, timePart: string, useDst: bool)
    requires HasDigit(timePart)
    requires useDst || !Contains(timePart, "MST")
    ensures ConvertTime(datePart, Some(timePart), useDst)
      == Instant(datePart + " " + Without(Without(timePart, '['), ']'))
    ensures var stamp := ConvertTime(datePart, Some(timePart), useDst).stamp;
      '[' !in stamp[|datePart| + 1..] && ']' !in stamp[|datePart| + 1..]
  {
    ReplaceCharIsWithout(timePart, '[');
    ReplaceCharIsWithout(Without(timePart, '['), ']');
    assert "[" == ['['] && "]" == [']'];
    var w := Without(Without(timePart, '['), ']');
    assert (datePart + " " + w)[|datePart| + 1..] == w;
  }

  /** Relabelling never leaves a string that starts with "ST" unless the
      original did. */
  lemma RelabelStartsWithST(s: string)
    ensures StartsWith(Replace(s, "MST", "AZMST"), "ST") ==> StartsWith(s, "ST")
  {
    var r := Replace(s, "MST", "AZMST");
    if |s| > 0 && StartsWith(r, "ST") {
      ReplaceHead(s, "MST", "AZMST");
      assert r[0] == 'S';
      assert !StartsWith(s, "MST") && s[0] == 'S';
      var rest := Replace(s[1..], "MST", "AZMST");
      assert r == [s[0]] + rest;
      assert r[..2][1] == r[1] == rest[0];
      assert rest[0] == 'T';
      ReplaceHead(s[1..], "MST", "AZMST");
      assert s[1] == 'T';
      assert s[..2] == "ST";
    }
  }

  /** Relabelling never produces an "MST" at the very start. */
  lemma NoLeadingMst(s: string)
    ensures !OccursAt(Replace(s, "MST", "AZMST"), "MST", 0)
  {
    var r := Replace(s, "MST", "AZMST");
    if |s| > 0 {
      ReplaceHead(s, "MST", "AZMST");
      if !StartsWith(s, "MST") {
        var rest := Replace(s[1..], "MST", "AZMST");
        assert r == [s[0]] + rest;
        assert s == [s[0]] + s[1..];
        RelabelStartsWithST(s[1..]);
        StartsWithCons(s[0], rest, "MST");
        StartsWithCons(s[0], s[1..], "MST");
        assert "MST"[1..] == "ST";
      }
    }
  }

  /** Every "MST" in r is the tail of an "AZMST". */
  ghost predicate MstTagged(r: string)
  {
    forall i | OccursAt(r, "MST", i) :: i >= 2 && r[i - 2..i] == "AZ"
  }

  /** After `replace('MST', 'AZMST')` no bare Mountain zone survives. */
  lemma {:induction false} RelabelledMstIsTagged(s: string)
    ensures MstTagged(Replace(s, "MST", "AZMST"))
    decreases |s|
  {
    var r := Replace(s, "MST", "AZMST");
    if |s| > 0 {
      if StartsWith(s, "MST") {
        var rest := Replace(s[3..], "MST", "AZMST");
        assert r == "AZMST" + rest;
        RelabelledMstIsTagged(s[3..]);
        forall i | OccursAt(r, "MST", i) ensures i >= 2 && r[i - 2..i] == "AZ" {
          if i >= 5 {
            OccursShift("AZMST", rest, "MST", i);
            assert i - 5 >= 2;
            SliceShift("AZMST", rest, i - 2, i);
          } else {
            assert r[i] == "AZMST"[i];
          }
        }
      } else {
        var rest := Replace(s[1..], "MST", "AZMST");
        assert r == [s[0]] + rest;
        RelabelledMstIsTagged(s[1..]);
        NoLeadingMst(s);
        forall i | OccursAt(r, "MST", i) ensures i >= 2 && r[i - 2..i] == "AZ" {
          OccursShift([s[0]], rest, "MST", i);
          assert i - 1 >= 2;
          SliceShift([s[0]], rest, i - 2, i);
        }
      }
    }
  }

  /** Removing brackets keeps a zone name that was written out. */
  lemma StillNamesMst(timePart: string)
    requires Contains(timePart, "MST")
    ensures Contains(Replace(Replace(timePart, "[", ""), "]", ""), "MST")
  {
    ReplaceCharIsWithout(timePart, '[');
    ReplaceCharIsWithout(Without(timePart, '['), ']');
    assert "[" == ['['] && "]" == [']'];
    WithoutKeepsContains(timePart, "MST", '[');
    WithoutKeepsContains(Without(timePart, '['), "MST", ']');
  }

  /** The Arizona case: a time naming "MST" at a reactor without daylight
      saving time is read with the fixed-offset zone "AZMST", and no bare
      "MST" reaches the parser. */
  lemma ArizonaTime(datePart: string, timePart: string)
    requires HasDigit(timePart) && Contains(timePart, "MST")
    ensures var r := ConvertTime(datePart, Some(timePart), false);
      r.Instant? && Contains(r.stamp, "AZMST")
      && MstTagged(r.stamp)
  {
    var s := datePart + " " + Replace(Replace(timePart, "[", ""), "]", "");
    StillNamesMst(timePart);
    ContainsInSuffix(datePart + " ", Replace(Replace(timePart, "[", ""), "]", ""), "MST");
    ReplaceIntroduces(s, "MST", "AZMST");
    RelabelledMstIsTagged(s);
    assert ConvertTime(datePart, Some(timePart), false).stamp == Replace(s, "MST", "AZMST");
  }
}
