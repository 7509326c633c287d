/** Strings as the Python 2 scripts see them: character classes of the `re`
    module, `in`, `find`, `replace`, `split`, `strip`, `upper`, `int()` and
    `unicode()` of an integer, and the two ways a leading `(.+)` / `(.+?)`
    group of a regular expression chooses where it ends. */
module Text {
  import opened Wrappers

  // ---------------------------------------------------------------------------
  // Character classes

  /** `\d` (ASCII digits) */
  predicate IsDigit(c: char) { '0' <= c <= '9' }

  /** `\s` in a pattern compiled without re.UNICODE: [ \t\n\r\f\v] */
  predicate IsSpace(c: char)
  {
    c == ' ' || c == '\t' || c == '\n' || c == '\r' || c == '\U{B}' || c == '\U{C}'
  }

  /** Whitespace of Python 2.7's unicode type: `\s` under re.UNICODE, and what
      `unicode.strip()` and `int()` skip. */
  predicate IsUnicodeSpace(c: char)
  {
    ('\U{9}' <= c <= '\U{D}') || ('\U{1C}' <= c <= '\U{20}') || c == '\U{85}' || c == '\U{A0}'
    || c == '\U{1680}' || c == '\U{180E}' || ('\U{2000}' <= c <= '\U{200A}')
    || c == '\U{2028}' || c == '\U{2029}' || c == '\U{202F}' || c == '\U{205F}' || c == '\U{3000}'
  }

  /** `\w` (ASCII letters, digits and underscore) */
  predicate IsWordChar(c: char)
  {
    ('a' <= c <= 'z') || ('A' <= c <= 'Z') || IsDigit(c) || c == '_'
  }

  predicate AllDigits(s: string) { forall i | 0 <= i < |s| :: IsDigit(s[i]) }

  /** A character `(.)` cannot match. */
  const Newline: char := '\n'

  // ---------------------------------------------------------------------------
  // Searching

  predicate StartsWith(s: string, p: string) { |p| <= |s| && s[..|p|] == p }

  /** sub occurs in s starting at index i */
  predicate OccursAt(s: string, sub: string, i: int)
  {
    0 <= i && i + |sub| <= |s| && s[i..i + |sub|] == sub
  }

  /** Python's `s.find(sub)`, with None for -1 */
  function Find(s: string, sub: string): (r: Option<nat>)
    ensures r.Some? ==> OccursAt(s, sub, r.value)
    ensures r.Some? ==> forall j | 0 <= j < r.value :: !OccursAt(s, sub, j)
    ensures r.None? ==> forall j :: !OccursAt(s, sub, j)
    decreases |s|
  {
    if StartsWith(s, sub) then Some(0)
    else if |s| == 0 then None
    else
      var rest := Find(s[1..], sub);
      assert forall j | j > 0 :: OccursAt(s, sub, j) <==> OccursAt(s[1..], sub, j - 1) by {
        forall j | j > 0 ensures OccursAt(s, sub, j) <==> OccursAt(s[1..], sub, j - 1) {
          if j + |sub| <= |s| {
            assert s[1..][j - 1..j - 1 + |sub|] == s[j..j + |sub|];
          }
        }
      }
      assert !OccursAt(s, sub, 0);
      match rest
      case None => None
      case Some(k) => Some(k + 1)
  }

  /** Python's `sub in s` */
  predicate Contains(s: string, sub: string) { Find(s, sub).Some? }

  lemma ContainsIff(s: string, sub: string)
    ensures Contains(s, sub) <==> exists i :: OccursAt(s, sub, i)
  {
  }

  /** For a one-character needle, `in` on strings is membership. */
  lemma ContainsChar(s: string, c: char)
    ensures Contains(s, [c]) <==> c in s
  {
    if c in s {
      var i :| 0 <= i < |s| && s[i] == c;
      assert s[i..i + 1] == [c];
      assert OccursAt(s, [c], i);
      assert Find(s, [c]).Some?;
    }
    if Contains(s, [c]) {
      var i := Find(s, [c]).value;
      assert OccursAt(s, [c], i);
      assert s[i..i + 1] == [c];
      assert s[i] == c;
    }
  }

  /** Index of the first newline, or |s|: a greedy or lazy `(.+)` ends at or
      before it. */
  function LineEnd(s: string): (n: nat)
    ensures n <= |s|
    ensures forall i | 0 <= i < n :: s[i] != Newline
    ensures n < |s| ==> s[n] == Newline
  {
    match Find(s, [Newline])
    case None =>
      assert forall i | 0 <= i < |s| :: s[i] != Newline by {
        forall i | 0 <= i < |s| ensures s[i] != Newline {
          assert s[i] == Newline ==> OccursAt(s, [Newline], i);
        }
      }
      |s|
    case Some(i) =>
      assert s[i..i + 1] == [Newline];
      assert forall j | 0 <= j < i :: s[j] != Newline by {
        forall j | 0 <= j < i ensures s[j] != Newline {
          assert s[j] == Newline ==> OccursAt(s, [Newline], j);
        }
      }
      i
  }

  /** The end k' of a greedy group `(.+)` at the start of a pattern: the largest
      k' in [1, k] at which the rest of the pattern (tail) matches. */
  function LastFrom(s: string, k: nat, tail: (string, nat) -> bool): (r: Option<nat>)
    ensures r.Some? ==> 1 <= r.value <= k && tail(s, r.value)
    ensures r.Some? ==> forall j: nat :: r.value < j <= k ==> !tail(s, j)
    ensures r.None? ==> forall j: nat :: 1 <= j <= k ==> !tail(s, j)
  {
    if k == 0 then None else if tail(s, k) then Some(k) else LastFrom(s, k - 1, tail)
  }

  /** The end of a lazy group `(.+?)`: the smallest j in [i, k] at which the
      rest of the pattern matches. */
  function FirstFrom(s: string, i: nat, k: nat, tail: (string, nat) -> bool): (r: Option<nat>)
    ensures r.Some? ==> i <= r.value <= k && tail(s, r.value)
    ensures r.Some? ==> forall j: nat :: i <= j < r.value ==> !tail(s, j)
    ensures r.None? ==> forall j: nat :: i <= j <= k ==> !tail(s, j)
    decreases k - i
  {
    if k < i then None else if tail(s, i) then Some(i) else FirstFrom(s, i + 1, k, tail)
  }

  /** The greedy end, known from where the tail matches */
  lemma LastFromIs(s: string, k: nat, tail: (string, nat) -> bool, j: nat)
    requires 1 <= j <= k && tail(s, j)
    requires forall i: nat | j < i <= k :: !tail(s, i)
    ensures LastFrom(s, k, tail) == Some(j)
    decreases k
  {
    if k > j {
      LastFromIs(s, k - 1, tail, j);
    }
  }

  /** The lazy group ends at n when the tail holds there and nowhere
      between i and n. */
  lemma FirstFromIs(s: string, i: nat, k: nat, tail: (string, nat) -> bool, n: nat)
    requires i <= n <= k && tail(s, n)
    requires forall j: nat :: i <= j < n ==> !tail(s, j)
    ensures FirstFrom(s, i, k, tail) == Some(n)
  {
    var r := FirstFrom(s, i, k, tail);
    if r.Some? {
      assert !(r.value < n);
    }
  }

  /** The first index at or after i whose character is not in the class:
      where a greedy `\s+`, `\d+` or `\w+` run starting at i stops. */
  function RunEnd(s: string, i: nat, inClass: char -> bool): (j: nat)
    requires i <= |s|
    ensures i <= j <= |s|
    ensures forall k | i <= k < j :: inClass(s[k])
    ensures j < |s| ==> !inClass(s[j])
    decreases |s| - i
  {
    if i < |s| && inClass(s[i]) then RunEnd(s, i + 1, inClass) else i
  }

  // ---------------------------------------------------------------------------
  // Rewriting

  /** Python's `s.replace(target, replacement)`: every non-overlapping
      occurrence, scanning left to right (target is never empty here). */
  function Replace(s: string, target: string, replacement: string): (r: string)
    requires |target| > 0
    decreases |s|
  {
    if |s| == 0 then []
    else if StartsWith(s, target) then replacement + Replace(s[|target|..], target, replacement)
    else [s[0]] + Replace(s[1..], target, replacement)
  }

  /** Replacing a string that does not occur changes nothing. */
  lemma {:induction false} ReplaceAbsent(s: string, target: string, replacement: string)
    requires |target| > 0 && !Contains(s, target)
    ensures Replace(s, target, replacement) == s
    decreases |s|
  {
    if |s| > 0 {
      assert !OccursAt(s, target, 0);
      assert !StartsWith(s, target);
      ReplaceAbsent(s[1..], target, replacement);
    }
  }

  /** s with every c removed (an independent reference for `replace(c, '')`) */
  function Without(s: string, c: char): (r: string)
    ensures c !in r
    ensures forall x :: x in r <==> x in s && x != c
  {
    if s == [] then [] else (if s[0] == c then [] else [s[0]]) + Without(s[1..], c)
  }

  lemma {:induction false} ReplaceCharIsWithout(s: string, c: char)
    ensures Replace(s, [c], []) == Without(s, c)
  {
    if s != [] {
      ReplaceCharIsWithout(s[1..], c);
    }
  }

  /** A string without sub's first character has no occurrence of sub. */
  lemma AbsentFirstChar(s: string, sub: string)
    requires |sub| > 0 && sub[0] !in s
    ensures !Contains(s, sub)
  {
    forall i | 0 <= i ensures !OccursAt(s, sub, i) {
      if i + |sub| <= |s| {
        assert s[i..i + |sub|][0] == s[i];
      }
    }
  }

  /** An occurrence inside b is an occurrence inside a + b. */
  lemma ContainsInSuffix(a: string, b: string, sub: string)
    requires Contains(b, sub)
    ensures Contains(a + b, sub)
  {
    var i := Find(b, sub).value;
    var s := a + b;
    assert s[|a| + i..|a| + i + |sub|] == b[i..i + |sub|];
    assert OccursAt(s, sub, |a| + i);
  }

  /** Past a prefix a, a slice of a + b is a slice of b. */
  lemma SliceShift(a: string, b: string, i: int, j: int)
    requires |a| <= i <= j <= |a| + |b|
    ensures (a + b)[i..j] == b[i - |a|..j - |a|]
  {
  }

  /** Past a prefix a, occurrences in a + b are occurrences in b. */
  lemma OccursShift(a: string, b: string, sub: string, i: int)
    requires i >= |a|
    ensures OccursAt(a + b, sub, i) <==> OccursAt(b, sub, i - |a|)
  {
    if i + |sub| <= |a| + |b| {
      SliceShift(a, b, i, i + |sub|);
    }
  }

  /** A prefix test on a string with a known first character */
  lemma StartsWithCons(c: char, t: string, p: string)
    requires |p| > 0
    ensures StartsWith([c] + t, p) <==> c == p[0] && StartsWith(t, p[1..])
  {
    var s := [c] + t;
    if |p| <= |s| {
      assert s[..|p|] == [c] + t[..|p| - 1];
      assert p == [p[0]] + p[1..];
    }
  }

  /** The first character of a replacement result */
  lemma ReplaceHead(s: string, target: string, replacement: string)
    requires |target| > 0 && |replacement| > 0 && |s| > 0
    ensures Replace(s, target, replacement)[0]
      == if StartsWith(s, target) then replacement[0] else s[0]
  {
  }

  /** A prefix lacking target's first character is copied unchanged. */
  lemma {:induction false} ReplaceSkip(a: string, b: string, target: string, replacement: string)
    requires |target| > 0 && target[0] !in a
    ensures Replace(a + b, target, replacement) == a + Replace(b, target, replacement)
    decreases |a|
  {
    var s := a + b;
    if |a| == 0 {
      assert s == b;
    } else {
      assert s[0] == a[0];
      assert |target| <= |s| ==> s[..|target|][0] == a[0];
      assert s[1..] == a[1..] + b;
      ReplaceSkip(a[1..], b, target, replacement);
    }
  }

  /** A leading target is replaced. */
  lemma ReplaceLead(b: string, target: string, replacement: string)
    requires |target| > 0
    ensures Replace(target + b, target, replacement) == replacement + Replace(b, target, replacement)
  {
    var s := target + b;
    assert s[..|target|] == target;
    assert s[|target|..] == b;
  }

  /** Deleting a leading label from a value that does not repeat it leaves
      the value. */
  lemma RemoveLabel(tag: string, v: string)
    requires |tag| > 0 && !Contains(v, tag)
    ensures Replace(tag + v, tag, "") == v
  {
    ReplaceLead(v, tag, "");
    ReplaceAbsent(v, tag, "");
  }

  /** Replacing an occurring target leaves the replacement in the result. */
  lemma {:induction false} ReplaceIntroduces(s: string, target: string, replacement: string)
    requires |target| > 0 && Contains(s, target)
    ensures Contains(Replace(s, target, replacement), replacement)
    decreases |s|
  {
    var r := Replace(s, target, replacement);
    var i := Find(s, target).value;
    if StartsWith(s, target) {
      assert r[..|replacement|] == replacement;
      assert OccursAt(r, replacement, 0);
    } else {
      assert i > 0;
      assert s[1..][i - 1..i - 1 + |target|] == s[i..i + |target|];
      assert OccursAt(s[1..], target, i - 1);
      ReplaceIntroduces(s[1..], target, replacement);
      var rest := Replace(s[1..], target, replacement);
      var j := Find(rest, replacement).value;
      assert r == [s[0]] + rest;
      assert r[j + 1..j + 1 + |replacement|] == rest[j..j + |replacement|];
      assert OccursAt(r, replacement, j + 1);
    }
  }

  /** Removing every target never lengthens a string, and shortens it exactly
      when the target occurs. */
  lemma {:induction false} RemoveShortens(s: string, target: string)
    requires |target| > 0
    ensures |Replace(s, target, [])| <= |s|
    ensures Contains(s, target) <==> |Replace(s, target, [])| < |s|
    decreases |s|
  {
    if |s| == 0 {
      assert !OccursAt(s, target, 0);
    } else if StartsWith(s, target) {
      assert OccursAt(s, target, 0);
      RemoveShortens(s[|target|..], target);
    } else {
      RemoveShortens(s[1..], target);
      assert !OccursAt(s, target, 0);
      forall i | OccursAt(s, target, i) ensures OccursAt(s[1..], target, i - 1) {
        assert s[1..][i - 1..i - 1 + |target|] == s[i..i + |target|];
      }
      forall i | OccursAt(s[1..], target, i) ensures OccursAt(s, target, i + 1) {
        assert s[1..][i..i + |target|] == s[i + 1..i + 1 + |target|];
      }
    }
  }

  /** Python 2 `s.upper()` on the ASCII letters (the only ones `\w` lets through) */
  function Upper(s: string): (r: string)
    ensures |r| == |s|
    ensures forall i | 0 <= i < |s| :: !('a' <= r[i] <= 'z')
    ensures forall i | 0 <= i < |s| :: ('a' <= s[i] <= 'z') || r[i] == s[i]
  {
    seq(|s|, i requires 0 <= i < |s| => if 'a' <= s[i] <= 'z' then (s[i] as int - 32) as char else s[i])
  }

  lemma {:induction false} WithoutConcat(a: string, b: string, c: char)
    ensures Without(a + b, c) == Without(a, c) + Without(b, c)
    decreases |a|
  {
    if a == [] {
      assert a + b == b;
    } else {
      assert (a + b)[0] == a[0];
      assert (a + b)[1..] == a[1..] + b;
      WithoutConcat(a[1..], b, c);
    }
  }

  lemma {:induction false} WithoutAbsent(s: string, c: char)
    requires c !in s
    ensures Without(s, c) == s
  {
    if s != [] {
      WithoutAbsent(s[1..], c);
    }
  }

  /** Removing a character that sub lacks keeps every occurrence of sub. */
  lemma WithoutKeepsContains(s: string, sub: string, c: char)
    requires c !in sub && Contains(s, sub)
    ensures Contains(Without(s, c), sub)
  {
    var i := Find(s, sub).value;
    var a, rest := s[..i], s[i + |sub|..];
    assert s == a + sub + rest;
    WithoutConcat(a + sub, rest, c);
    WithoutConcat(a, sub, c);
    WithoutAbsent(sub, c);
    var w := Without(s, c);
    var n := |Without(a, c)|;
    assert w == Without(a, c) + sub + Without(rest, c);
    assert w[n..n + |sub|] == sub;
    assert OccursAt(w, sub, n);
  }

  // ---------------------------------------------------------------------------
  // Splitting

  /** Python's `s.split(sep)` for a non-empty separator. */
  function Split(s: string, sep: string): (parts: seq<string>)
    requires |sep| > 0
    ensures |parts| >= 1
    ensures forall k | 0 <= k < |parts| :: !Contains(parts[k], sep)
    decreases |s|
  {
    match Find(s, sep)
    case None => [s]
    case Some(i) =>
      assert !Contains(s[..i], sep) by {
        if Contains(s[..i], sep) {
          var j := Find(s[..i], sep).value;
          assert s[..i][j..j + |sep|] == s[j..j + |sep|];
          assert OccursAt(s, sep, j);
        }
      }
      [s[..i]] + Split(s[i + |sep|..], sep)
  }

  /** Python's `sep.join(parts)` */
  function Join(parts: seq<string>, sep: string): string
  {
    if |parts| == 0 then []
    else if |parts| == 1 then parts[0]
    else parts[0] + sep + Join(parts[1..], sep)
  }

  /** Joining the pieces of a split with the same separator gives back the input. */
  lemma {:induction false} JoinSplit(s: string, sep: string)
    requires |sep| > 0
    ensures Join(Split(s, sep), sep) == s
    decreases |s|
  {
    match Find(s, sep)
    case None =>
    case Some(i) =>
      var rest := s[i + |sep|..];
      var tail := Split(rest, sep);
      assert Split(s, sep) == [s[..i]] + tail;
      assert ([s[..i]] + tail)[1..] == tail;
      JoinSplit(rest, sep);
      assert Join(Split(s, sep), sep) == s[..i] + sep + Join(tail, sep);
      assert s == s[..i] + sep + rest;
  }

  /** Splitting on a character that no part contains gives the parts back. */
  lemma {:induction false} SplitJoinChar(parts: seq<string>, c: char)
    requires |parts| >= 1
    requires forall k | 0 <= k < |parts| :: c !in parts[k]
    ensures Split(Join(parts, [c]), [c]) == parts
  {
    var s := Join(parts, [c]);
    if |parts| == 1 {
      ContainsChar(parts[0], c);
      assert parts == [parts[0]];
    } else {
      var p := parts[0];
      var rest := Join(parts[1..], [c]);
      assert s == p + [c] + rest;
      SplitAtFirst(p, c, rest);
      assert forall k | 0 <= k < |parts[1..]| :: c !in parts[1..][k] by {
        forall k | 0 <= k < |parts[1..]| ensures c !in parts[1..][k] {
          assert parts[1..][k] == parts[k + 1];
        }
      }
      SplitJoinChar(parts[1..], c);
      assert parts == [p] + parts[1..];
    }
  }

  /** The first piece of a split on c ends at the first c. */
  lemma SplitAtFirst(p: string, c: char, rest: string)
    requires c !in p
    ensures Split(p + [c] + rest, [c]) == [p] + Split(rest, [c])
  {
    var s := p + [c] + rest;
    assert OccursAt(s, [c], |p|) by { assert s[|p|..|p| + 1] == [c]; }
    assert forall j | 0 <= j < |p| :: !OccursAt(s, [c], j) by {
      forall j | 0 <= j < |p| ensures !OccursAt(s, [c], j) {
        assert s[j] == p[j];
      }
    }
    var i := Find(s, [c]).value;
    assert i == |p|;
    assert s[i + 1..] == rest;
    assert s[..i] == p;
  }

  /** Everything before the first sep, and everything after it if there is
      one (Python's `s.split(sep, 1)` as a pair). */
  function SplitFirst(s: string, sep: string): (r: (string, Option<string>))
    requires |sep| > 0
    ensures r.1.None? ==> r.0 == s && !Contains(s, sep)
    ensures r.1.Some? ==> s == r.0 + sep + r.1.value && !Contains(r.0, sep)
  {
    match Find(s, sep)
    case None => (s, None)
    case Some(i) =>
      assert s == s[..i] + sep + s[i + |sep|..];
      assert !Contains(s[..i], sep) by {
        if Contains(s[..i], sep) {
          var j := Find(s[..i], sep).value;
          assert s[..i][j..j + |sep|] == s[j..j + |sep|];
          assert OccursAt(s, sep, j);
        }
      }
      (s[..i], Some(s[i + |sep|..]))
  }

  /** `a + sep + b` splits at the first sep back into a and b when no
      occurrence of sep can start inside a. */
  lemma SplitFirstOfConcat(a: string, b: string, sep: string)
    requires |sep| > 0 && sep[0] !in a
    ensures SplitFirst(a + sep + b, sep) == (a, Some(b))
  {
    var s := a + sep + b;
    assert OccursAt(s, sep, |a|) by { assert s[|a|..|a| + |sep|] == sep; }
    assert forall j | 0 <= j < |a| :: !OccursAt(s, sep, j) by {
      forall j | 0 <= j < |a| ensures !OccursAt(s, sep, j) {
        assert s[j] == a[j];
      }
    }
    var i := Find(s, sep).value;
    assert i == |a|;
    assert s[..|a|] == a;
    assert s[|a| + |sep|..] == b;
  }

  // ---------------------------------------------------------------------------
  // Stripping

  function TrimLeft(s: string): (r: string)
    ensures |r| <= |s| && r == s[|s| - |r|..]
    ensures r == [] || !IsUnicodeSpace(r[0])
  {
    if |s| > 0 && IsUnicodeSpace(s[0]) then TrimLeft(s[1..]) else s
  }

  function TrimRight(s: string): (r: string)
    ensures |r| <= |s| && r == s[..|r|]
    ensures r == [] || !IsUnicodeSpace(r[|r| - 1])
  {
    if |s| > 0 && IsUnicodeSpace(s[|s| - 1]) then TrimRight(s[..|s| - 1]) else s
  }

  /** What TrimLeft drops is whitespace. */
  lemma {:induction false} TrimLeftDropsSpaces(s: string)
    ensures forall i | 0 <= i < |s| - |TrimLeft(s)| :: IsUnicodeSpace(s[i])
    decreases |s|
  {
    if |s| > 0 && IsUnicodeSpace(s[0]) {
      var r := TrimLeft(s[1..]);
      assert TrimLeft(s) == r;
      TrimLeftDropsSpaces(s[1..]);
      forall i | 0 <= i < |s| - |r| ensures IsUnicodeSpace(s[i]) {
        if i > 0 { assert s[i] == s[1..][i - 1]; }
      }
    }
  }

  /** What TrimRight drops is whitespace. */
  lemma {:induction false} TrimRightDropsSpaces(s: string)
    ensures forall i | |TrimRight(s)| <= i < |s| :: IsUnicodeSpace(s[i])
    decreases |s|
  {
    if |s| > 0 && IsUnicodeSpace(s[|s| - 1]) {
      var r := TrimRight(s[..|s| - 1]);
      assert TrimRight(s) == r;
      TrimRightDropsSpaces(s[..|s| - 1]);
      forall i | |r| <= i < |s| ensures IsUnicodeSpace(s[i]) {
        if i < |s| - 1 { assert s[i] == s[..|s| - 1][i]; }
      }
    }
  }

  /** Python's `unicode.strip()` */
  function Strip(s: string): string { TrimRight(TrimLeft(s)) }

  // ---------------------------------------------------------------------------
  // Integers

  function DigitValue(c: char): nat
    requires IsDigit(c)
  {
    c as int - '0' as int
  }

  /** The value of a run of ASCII digits read in base 10 */
  function DigitsValue(d: string): nat
    requires AllDigits(d)
  {
    if |d| == 0 then 0 else DigitsValue(d[..|d| - 1]) * 10 + DigitValue(d[|d| - 1])
  }

  /** Python 2 `int(s)` for a unicode s: surrounding whitespace, an optional
      sign, whitespace again (Python 2's strtol skips it after the sign), then
      one or more decimal digits; anything else is a ValueError (None here). */
  function ParseInt(s: string): Option<int>
  {
    ParseStripped(Strip(s))
  }

  /** `int()` once the surrounding whitespace is gone */
  function ParseStripped(t: string): Option<int>
  {
    if |t| > 0 && (t[0] == '+' || t[0] == '-') then
      var u := TrimLeft(t[1..]);
      if |u| > 0 && AllDigits(u) then
        var v: int := DigitsValue(u);
        Some(if t[0] == '-' then -v else v)
      else None
    else if |t| > 0 && AllDigits(t) then Some(DigitsValue(t))
    else None
  }

  /** One or more decimal digits and nothing else */
  function ParseDigits(u: string): (r: Option<int>)
    ensures r.Some? ==> r.value >= 0
  {
    if |u| > 0 && AllDigits(u) then Some(DigitsValue(u)) else None
  }

  /** Decimal digits of n, most significant first, without leading zeros */
  function NatToString(n: nat): (s: string)
    ensures |s| > 0 && AllDigits(s)
    ensures DigitsValue(s) == n
    ensures n < 10 <==> |s| == 1
  {
    if n < 10 then [('0' as int + n) as char]
    else
      var s := NatToString(n / 10) + [('0' as int + n % 10) as char];
      assert s[..|s| - 1] == NatToString(n / 10);
      s
  }

  /** Python `unicode(n)` of an int */
  function IntToString(n: int): string
  {
    if n < 0 then "-" + NatToString(-n) else NatToString(n)
  }

  /** `int(unicode(n)) == n` */
  lemma ParseIntOfIntToString(n: int)
    ensures ParseInt(IntToString(n)) == Some(n)
  {
    if n < 0 {
      ParseIntOfNegative(n);
    } else {
      ParseIntOfDigits(NatToString(n));
    }
  }

  lemma ParseIntOfNegative(n: int)
    requires n < 0
    ensures ParseInt(IntToString(n)) == Some(n)
  {
    var d := NatToString(-n);
    assert IntToString(n) == "-" + d;
    assert ParseDigits(d) == Some(-n);
    ParseIntMinusOf(n, d);
  }

  lemma ParseIntMinusOf(n: int, d: string)
    requires n < 0 && ParseDigits(d) == Some(-n)
    ensures ParseInt("-" + d) == Some(n)
  {
    ParseIntMinusDigits(d, -n);
  }

  /** A minus sign straight before digits that read as x */
  lemma ParseIntMinusDigits(d: string, x: nat)
    requires ParseDigits(d) == Some(x)
    ensures ParseInt("-" + d) == Some(-(x as int))
  {
    SkipSpaces([], d);
    assert [] + d == d;
    ParseIntSignedTrimmed(d, d, x);
  }

  /** A plain run of digits is read as its value. */
  lemma ParseIntOfDigits(d: string)
    requires |d| > 0 && AllDigits(d)
    ensures ParseInt(d) == Some(DigitsValue(d))
  {
    assert !IsUnicodeSpace(d[0]) && !IsUnicodeSpace(d[|d| - 1]);
    assert TrimLeft(d) == d;
    assert TrimRight(d) == d;
    var t := Strip(d);
    assert t == d;
    assert !(t[0] == '+' || t[0] == '-');
  }

  /** Whitespace between the sign and the digits is skipped: `int(u'- 5')`
      is -5 in Python 2. */
  lemma ParseIntSpaceAfterSign(sp: string, d: string, x: nat)
    requires forall i | 0 <= i < |sp| :: IsUnicodeSpace(sp[i])
    requires ParseDigits(d) == Some(x)
    ensures ParseInt("-" + (sp + d)) == Some(-(x as int))
    ensures ParseInt("+" + (sp + d)) == Some(x)
  {
    SkipSpaces(sp, d);
    ParseIntSignedTrimmed(sp + d, d, x);
  }

  /** A sign, then text whose leading whitespace run ends at the digits d */
  lemma ParseIntSignedTrimmed(rest: string, d: string, x: nat)
    requires ParseDigits(d) == Some(x) && TrimLeft(rest) == d
    ensures ParseInt("-" + rest) == Some(-(x as int))
    ensures ParseInt("+" + rest) == Some(x)
  {
    assert rest[|rest| - 1] == d[|d| - 1];
    assert IsDigit(d[|d| - 1]);
    ParseIntMinusRest(rest, x);
    ParseIntPlusRest(rest, x);
  }

  /** A sign, then text int() reads as x once its leading whitespace goes */
  lemma ParseIntMinusRest(rest: string, x: nat)
    requires |rest| > 0 && !IsUnicodeSpace(rest[|rest| - 1])
    requires ParseDigits(TrimLeft(rest)) == Some(x)
    ensures ParseInt("-" + rest) == Some(-(x as int))
  {
    var t := "-" + rest;
    assert t[0] == '-' && t[1..] == rest && t[|t| - 1] == rest[|rest| - 1];
    ParseIntMinusText(t, x);
  }

  lemma ParseIntMinusText(t: string, x: int)
    requires |t| > 0 && t[0] == '-' && !IsUnicodeSpace(t[|t| - 1])
    requires ParseDigits(TrimLeft(t[1..])) == Some(x)
    ensures ParseInt(t) == Some(-x)
  {
    StripKeeps(t);
    ParseStrippedMinus(t, x);
  }

  lemma ParseIntPlusRest(rest: string, x: nat)
    requires |rest| > 0 && !IsUnicodeSpace(rest[|rest| - 1])
    requires ParseDigits(TrimLeft(rest)) == Some(x)
    ensures ParseInt("+" + rest) == Some(x)
  {
    var t := "+" + rest;
    assert t[0] == '+' && t[1..] == rest && t[|t| - 1] == rest[|rest| - 1];
    ParseIntPlusText(t, x);
  }

  lemma ParseIntPlusText(t: string, x: int)
    requires |t| > 0 && t[0] == '+' && !IsUnicodeSpace(t[|t| - 1])
    requires ParseDigits(TrimLeft(t[1..])) == Some(x)
    ensures ParseInt(t) == Some(x)
  {
    StripKeeps(t);
    ParseStrippedPlus(t, x);
  }

  lemma ParseStrippedMinus(t: string, x: int)
    requires |t| > 0 && t[0] == '-' && ParseDigits(TrimLeft(t[1..])) == Some(x)
    ensures ParseStripped(t) == Some(-x)
  {
  }

  lemma ParseStrippedPlus(t: string, x: int)
    requires |t| > 0 && t[0] == '+' && ParseDigits(TrimLeft(t[1..])) == Some(x)
    ensures ParseStripped(t) == Some(x)
  {
  }

  /** TrimLeft drops exactly a leading whitespace run before a digit. */
  lemma {:induction false} SkipSpaces(sp: string, d: string)
    requires forall i | 0 <= i < |sp| :: IsUnicodeSpace(sp[i])
    requires |d| > 0 && IsDigit(d[0])
    ensures TrimLeft(sp + d) == d
    decreases |sp|
  {
    if sp == [] {
      assert sp + d == d;
      assert !IsUnicodeSpace(d[0]);
    } else {
      var t := sp + d;
      assert t[0] == sp[0];
      assert t[1..] == sp[1..] + d;
      SkipSpaces(sp[1..], d);
    }
  }

  /** A string with no whitespace at either end is its own strip(). */
  lemma StripKeeps(t: string)
    requires |t| > 0 && !IsUnicodeSpace(t[0]) && !IsUnicodeSpace(t[|t| - 1])
    ensures Strip(t) == t
  {
    assert TrimLeft(t) == t;
  }

  /** A single digit is written as itself. */
  lemma DigitToString(n: nat)
    requires 1 <= n <= 9
    ensures IntToString(n) == [('0' as int + n) as char]
    ensures IsDigit(IntToString(n)[0]) && DigitValue(IntToString(n)[0]) == n
  {
  }

}
