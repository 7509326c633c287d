/** The year digest of scripts/events_scraper.py: which links of a digest
    page name daily event pages (parse_event_digest), how they are made
    absolute, and the page date that fetch_all takes from a page URL. */
module ScraperDigest {
  import opened Wrappers
  import opened Text

  /** `re.compile(r'^\d{8}en\.html$')` finds the href: eight ASCII digits,
      then "en.html", then the end of the string or a newline that ends
      it (the `$` of a pattern without MULTILINE). */
  predicate IsDigestHref(h: string)
  {
    && (|h| == 15 || (|h| == 16 && h[15] == '\n'))
    && AllDigits(h[..8]) && h[8..15] == "en.html"
  }

  /** The length of the directory part of a URL: up to and including its
      last '/', or 0 without one. */
  function DirEnd(s: string): (n: nat)
    ensures n <= |s|
    ensures n > 0 ==> s[n - 1] == '/'
    ensures forall k | n <= k < |s| :: s[k] != '/'
    decreases |s|
  {
    if |s| == 0 then 0
    else if s[|s| - 1] == '/' then |s|
    else DirEnd(s[..|s| - 1])
  }

  /** `urlparse.urljoin(base, href)` for a relative href that is a plain
      file name: the base's directory, then href. */
  function UrlJoin(base: string, href: string): (r: string)
    ensures |href| <= |r| && r[|r| - |href|..] == href
    ensures var n := |r| - |href|;
      n <= |base| && r[..n] == base[..n] && (n > 0 ==> r[n - 1] == '/')
      && forall k | n <= k < |base| :: base[k] != '/'
    ensures |base| > 0 && base[|base| - 1] == '/' ==> r == base + href
  {
    base[..DirEnd(base)] + href
  }

  /** The daily pages a digest at url links to, in link order; hrefs are
      the href attributes of its `<a>` tags (None for a tag without one). */
  function DigestPages(url: string, hrefs: seq<Option<string>>): seq<string>
    decreases |hrefs|
  {
    if |hrefs| == 0 then []
    else
      var rest := DigestPages(url, hrefs[..|hrefs| - 1]);
      var h := hrefs[|hrefs| - 1];
      if h.Some? && IsDigestHref(h.value) then rest + [UrlJoin(url, h.value)] else rest
  }

  /** parse_event_digest: the loop appending each matching link, made
      absolute, to event_pages. */
  method ParseEventDigest(url: string, hrefs: seq<Option<string>>) returns (pages: seq<string>)
    ensures pages == DigestPages(url, hrefs)
  {
    pages := [];
    var i := 0;
    while i < |hrefs|
      invariant 0 <= i <= |hrefs|
      invariant pages == DigestPages(url, hrefs[..i])
    {
      assert hrefs[..i + 1][..i] == hrefs[..i];
      var h := hrefs[i];
      if h.Some? && IsDigestHref(h.value) {
        pages := pages + [UrlJoin(url, h.value)];
      }
      i := i + 1;
    }
    assert hrefs[..i] == hrefs;
  }

  /** Every page comes from a matching link. */
  lemma {:induction false} DigestPagesSound(url: string, hrefs: seq<Option<string>>, p: string)
    requires p in DigestPages(url, hrefs)
    ensures exists k | 0 <= k < |hrefs| ::
      hrefs[k].Some? && IsDigestHref(hrefs[k].value) && p == UrlJoin(url, hrefs[k].value)
    decreases |hrefs|
  {
    var front := hrefs[..|hrefs| - 1];
    var h := hrefs[|hrefs| - 1];
    if !(h.Some? && IsDigestHref(h.value) && p == UrlJoin(url, h.value)) {
      DigestPagesSound(url, front, p);
      var k :| 0 <= k < |front| && front[k].Some? && IsDigestHref(front[k].value) && p == UrlJoin(url, front[k].value);
      assert hrefs[k] == front[k];
    }
  }

  /** Every matching link gives a page. */
  lemma {:induction false} DigestPagesComplete(url: string, hrefs: seq<Option<string>>, k: nat)
    requires k < |hrefs| && hrefs[k].Some? && IsDigestHref(hrefs[k].value)
    ensures UrlJoin(url, hrefs[k].value) in DigestPages(url, hrefs)
    decreases |hrefs|
  {
    var front := hrefs[..|hrefs| - 1];
    if k < |hrefs| - 1 {
      assert front[k] == hrefs[k];
      DigestPagesComplete(url, front, k);
    }
  }

  /** Link order is kept: the pages of two runs of links are the pages of
      the first followed by those of the second. */
  lemma {:induction false} DigestPagesAppend(url: string, a: seq<Option<string>>, b: seq<Option<string>>)
    ensures DigestPages(url, a + b) == DigestPages(url, a) + DigestPages(url, b)
    decreases |b|
  {
    if |b| == 0 {
      assert a + b == a;
    } else {
      var front := b[..|b| - 1];
      assert (a + b)[..|a + b| - 1] == a + front;
      assert (a + b)[|a + b| - 1] == b[|b| - 1];
      DigestPagesAppend(url, a, front);
    }
  }

  // ---------------------------------------------------------------------------
  // Page dates

  /** `url.split('/')[-1].replace('en.html', '')` */
  function UrlDate(url: string): string
  {
    var parts := Split(url, "/");
    Replace(parts[|parts| - 1], "en.html", "")
  }

  /** The last piece of a split at '/' is what follows the last '/'. */
  lemma {:induction false} SplitLast(p: string, h: string)
    requires '/' !in h
    ensures var parts := Split(p + "/" + h, "/"); parts[|parts| - 1] == h
    decreases |p|
  {
    var s := p + "/" + h;
    assert OccursAt(s, "/", |p|);
    var i := Find(s, "/").value;
    assert i <= |p|;
    var tail := Split(s[i + 1..], "/");
    assert Split(s, "/") == [s[..i]] + tail;
    if i == |p| {
      assert s[i + 1..] == h;
      ContainsChar(h, '/');
      assert "/" == ['/'];
      assert tail == [h];
    } else {
      assert s[i + 1..] == p[i + 1..] + "/" + h;
      SplitLast(p[i + 1..], h);
    }
  }

  /** A digest link holds no '/', and removing "en.html" leaves its
      digits and what `$` let through after them. */
  lemma DigestHrefDate(h: string)
    requires IsDigestHref(h)
    ensures '/' !in h
    ensures Replace(h, "en.html", "") == h[..8] + h[15..]
  {
    var d, t := h[..8], h[15..];
    assert forall k | 0 <= k < 8 :: IsDigit(d[k]);
    assert h == d + "en.html" + t by {
      assert h[8..15] == "en.html";
    }
    assert forall k | 8 <= k < 15 :: h[k] == "en.html"[k - 8];
    assert 'e' !in d;
    ReplaceSkip(d, "en.html" + t, "en.html", "");
    ReplaceLead(t, "en.html", "");
    assert 'e' !in t;
    AbsentFirstChar(t, "en.html");
    ReplaceAbsent(t, "en.html", "");
    assert d + ("en.html" + t) == h;
  }

  /** The date of a daily page linked from a digest whose URL ends in '/'
      is the link's eight digits, with the newline `$` lets through kept. */
  lemma DigestPageDate(base: string, h: string)
    requires |base| > 0 && base[|base| - 1] == '/'
    requires IsDigestHref(h)
    ensures UrlDate(UrlJoin(base, h)) == h[..8] + h[15..]
    ensures |h| == 15 ==> UrlDate(UrlJoin(base, h)) == h[..8]
  {
    var p := base[..|base| - 1];
    assert base == p + "/";
    DigestHrefDate(h);
    SplitLast(p, h);
    assert UrlJoin(base, h) == p + "/" + h;
  }
}
