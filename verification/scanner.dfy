/** The section scanner of `File.parse` (core.py:77-81): the pattern
    `\&([a-z]+(?:_[1-9]\d*)?)=((?:(?!&\w+).)*)` applied with `re.finditer`
    and `re.S` over the whole text. A section starts at '&', a key and '=';
    its value runs up to the first '&' followed by a word character, or to
    the end of the text. After a match the scan resumes where the value
    ends; where nothing matches it moves on by one character, so text
    outside the sections is dropped. */
module Scanner {
  import opened Wrappers
  import opened Text

  // ---------------------------------------------------------------------
  // Keys
  // ---------------------------------------------------------------------

  /** `[a-z]+(?:_[1-9]\d*)?`: lower-case letters, optionally followed by an
      underscore and a positive number without leading zeros. */
  predicate ValidKey(k: string)
  {
    (|k| > 0 && AllIn(k, Lower)) || exists n :: 0 < n < |k| && SuffixSplit(k, n)
  }

  /** `k[..n]` is the letters, `k[n]` the underscore, `k[n + 1..]` the number. */
  predicate SuffixSplit(k: string, n: int)
  {
    0 < n < |k| - 1 && AllIn(k[..n], Lower) && k[n] == '_' && CanonicalPositive(k[n + 1..])
  }

  predicate IsKeyChar(c: char)
  {
    InClass(c, Lower) || InClass(c, Digit) || c == '_'
  }

  /** A key starts with a letter and holds only letters, digits and '_'; so
      it holds neither '&' nor '='. */
  lemma ValidKeyChars(k: string)
    requires ValidKey(k)
    ensures InClass(k[0], Lower)
    ensures forall x :: 0 <= x < |k| ==> IsKeyChar(k[x])
  {
    if !(|k| > 0 && AllIn(k, Lower)) {
      var n :| 0 < n < |k| && SuffixSplit(k, n);
      assert k[0] == k[..n][0];
      forall x | 0 <= x < |k| ensures IsKeyChar(k[x]) {
        if x < n {
          assert k[x] == k[..n][x];
        } else if x > n {
          assert k[x] == k[n + 1..][x - n - 1];
        }
      }
    }
  }

  /** A name of letters, '_' and a suffix form a key exactly when the suffix
      is a positive number without leading zeros. */
  lemma SuffixedKey(p: string, t: string)
    requires |p| > 0 && AllIn(p, Lower)
    ensures ValidKey(p + "_" + t) <==> CanonicalPositive(t)
  {
    var k := p + "_" + t;
    var n := |p|;
    assert k[..n] == p && k[n] == '_' && k[n + 1..] == t;
    assert !InClass(k[n], Lower);
    forall m | 0 < m < |k| && m != n ensures !SuffixSplit(k, m) {
      if m < n {
        assert k[m] == p[m];
      } else {
        assert k[..m][n] == '_';
      }
    }
    if CanonicalPositive(t) {
      assert SuffixSplit(k, n);
    }
  }

  /** Where the key that starts at `i` ends: the index of the '=' after it.
      The greedy `[a-z]+` and `\d*` cannot give back characters here, since
      a letter or digit is neither '_' nor '='. */
  function MatchKey(s: string, i: nat): (r: Option<nat>)
    requires i <= |s|
    ensures r.Some? ==> i < r.value < |s|
  {
    var l := RunEnd(s, i, Lower);
    if l == i then None
    else if l < |s| && s[l] == '=' then Some(l)
    else if l + 1 < |s| && s[l] == '_' && IsNonZeroDigit(s[l + 1]) then
      var d := RunEnd(s, l + 2, Digit);
      if d < |s| && s[d] == '=' then Some(d) else None
    else None
  }

  /** A key of the suffixed form, read off the characters of `s`. */
  lemma SuffixSplitChars(s: string, i: nat, j: nat, n: int)
    requires i <= j <= |s|
    ensures SuffixSplit(s[i..j], n) <==>
      0 < n && i + n + 1 < j
      && (forall x :: i <= x < i + n ==> InClass(s[x], Lower))
      && s[i + n] == '_' && IsNonZeroDigit(s[i + n + 1])
      && (forall x :: i + n + 2 <= x < j ==> InClass(s[x], Digit))
  {
    var k := s[i..j];
    if 0 < n < |k| - 1 {
      assert k[..n] == s[i..i + n];
      assert k[n + 1..] == s[i + n + 1..j];
      assert forall x :: i <= x < i + n ==> s[x] == s[i..i + n][x - i];
      assert forall x :: i + n + 1 <= x < j ==> s[x] == s[i + n + 1..j][x - i - n - 1];
    }
  }

  /** A key of the plain form, read off the characters of `s`. */
  lemma PlainKeyChars(s: string, i: nat, j: nat)
    requires i <= j <= |s|
    ensures AllIn(s[i..j], Lower) <==> forall x :: i <= x < j ==> InClass(s[x], Lower)
  {
    assert forall x :: i <= x < j ==> s[x] == s[i..j][x - i];
  }

  /** What `MatchKey` finds is a key followed by '='. */
  lemma MatchKeySound(s: string, i: nat, j: nat)
    requires i <= |s| && MatchKey(s, i) == Some(j)
    ensures s[j] == '=' && ValidKey(s[i..j])
  {
    var l := RunEnd(s, i, Lower);
    if l == j {
      PlainKeyChars(s, i, j);
    } else {
      SuffixSplitChars(s, i, j, l - i);
    }
  }

  /** Every key followed by '=' is found by `MatchKey`. */
  lemma MatchKeyComplete(s: string, i: nat, j: nat)
    requires i < j < |s| && s[j] == '=' && ValidKey(s[i..j])
    ensures MatchKey(s, i) == Some(j)
  {
    var k := s[i..j];
    if |k| > 0 && AllIn(k, Lower) {
      PlainKeyChars(s, i, j);
      RunEndAt(s, i, Lower, j);
    } else {
      var n :| 0 < n < |k| && SuffixSplit(k, n);
      SuffixSplitChars(s, i, j, n);
      RunEndAt(s, i, Lower, i + n);
      RunEndAt(s, i + n + 2, Digit, j);
    }
  }

  /** `MatchKey` finds the '=' at `j` exactly when the text between is a key. */
  lemma MatchKeySpec(s: string, i: nat, j: nat)
    requires i < j < |s|
    ensures MatchKey(s, i) == Some(j) <==> s[j] == '=' && ValidKey(s[i..j])
  {
    if MatchKey(s, i) == Some(j) {
      MatchKeySound(s, i, j);
    }
    if s[j] == '=' && ValidKey(s[i..j]) {
      MatchKeyComplete(s, i, j);
    }
  }

  // ---------------------------------------------------------------------
  // Values
  // ---------------------------------------------------------------------

  /** The value stops before `x`: at `x` the look-ahead `&\w+` succeeds, that
      is '&' followed by a word character. */
  predicate BoundaryAt(s: string, x: int)
  {
    0 <= x && x + 1 < |s| && s[x] == '&' && IsWordChar(s[x + 1])
  }

  /** `s` holds no '&' immediately followed by a word character. */
  predicate NoBoundary(s: string)
  {
    forall x :: 0 <= x < |s| ==> !BoundaryAt(s, x)
  }

  /** `e` is where the greedy `(?:(?!&\w+).)*` starting at `j` stops: the
      first boundary at or after `j`, or the end of the text. */
  predicate IsValueEnd(s: string, j: int, e: int)
  {
    0 <= j <= e <= |s| && (e == |s| || BoundaryAt(s, e)) && forall x :: j <= x < e ==> !BoundaryAt(s, x)
  }

  function ValueEnd(s: string, j: nat): (e: nat)
    requires j <= |s|
    ensures IsValueEnd(s, j, e)
    decreases |s| - j
  {
    if j == |s| || BoundaryAt(s, j) then j else ValueEnd(s, j + 1)
  }

  /** The end of a value is determined by where it starts. */
  lemma ValueEndUnique(s: string, j: int, e1: int, e2: int)
    requires IsValueEnd(s, j, e1) && IsValueEnd(s, j, e2)
    ensures e1 == e2
  {
  }

  /** A value holds no boundary of its own: the '&' that ends it belongs
      to the text after it. */
  lemma ValueHasNoBoundary(s: string, j: int, e: int)
    requires IsValueEnd(s, j, e)
    ensures NoBoundary(s[j..e])
  {
    var v := s[j..e];
    forall x | 0 <= x < |v| ensures !BoundaryAt(v, x) {
      assert !BoundaryAt(s, j + x);
      assert v[x] == s[j + x];
      if x + 1 < |v| {
        assert v[x + 1] == s[j + x + 1];
      }
    }
  }

  // ---------------------------------------------------------------------
  // Sections
  // ---------------------------------------------------------------------

  /** A match of the section pattern: '&' at `amp`, the key up to `eq`, '='
      at `eq`, and the value from `eq + 1` up to `end`. */
  datatype Span = Span(amp: nat, eq: nat, end: nat)

  predicate Placed(s: string, sp: Span)
  {
    sp.amp < sp.eq < sp.end <= |s|
  }

  /** `match.group(1)` */
  function KeyOf(s: string, sp: Span): string
    requires Placed(s, sp)
  {
    s[sp.amp + 1..sp.eq]
  }

  /** `match.group(2)` */
  function ValueOf(s: string, sp: Span): string
    requires Placed(s, sp)
  {
    s[sp.eq + 1..sp.end]
  }

  /** '&' at `p`, a key, and '=' at `j`: a section header. */
  predicate HeaderAt(s: string, p: int, j: int)
  {
    0 <= p && p + 1 < j < |s| && s[p] == '&' && s[j] == '=' && ValidKey(s[p + 1..j])
  }

  /** A section starts at `p`: an '&' stands there and the matcher finds a
      key and '=' after it. */
  predicate SectionStartsAt(s: string, p: int)
  {
    0 <= p < |s| && s[p] == '&' && MatchKey(s, p + 1).Some?
  }

  /** A section header is also where a value before it stops. */
  lemma HeaderIsBoundary(s: string, p: int, j: int)
    ensures HeaderAt(s, p, j) ==> BoundaryAt(s, p)
  {
    if HeaderAt(s, p, j) {
      ValidKeyChars(s[p + 1..j]);
      assert s[p + 1] == s[p + 1..j][0];
    }
  }

  /** A section starts at `p` exactly when a section header stands there:
      the section pattern matches at `p`. */
  lemma SectionStartsAtHeader(s: string, p: int)
    ensures SectionStartsAt(s, p) <==> exists j :: p < j < |s| && HeaderAt(s, p, j)
  {
    if SectionStartsAt(s, p) {
      var j := MatchKey(s, p + 1).value;
      MatchKeySound(s, p + 1, j);
      assert HeaderAt(s, p, j);
    }
    if exists j :: p < j < |s| && HeaderAt(s, p, j) {
      var j :| p < j < |s| && HeaderAt(s, p, j);
      MatchKeyComplete(s, p + 1, j);
    }
  }

  /** A span is a whole match of the section pattern. */
  predicate IsSection(s: string, sp: Span)
  {
    Placed(s, sp) && HeaderAt(s, sp.amp, sp.eq) && IsValueEnd(s, sp.eq + 1, sp.end)
  }

  /** The match of the section pattern at a position where a section
      starts: the key runs to the '=' the matcher finds, the value to the
      next boundary. */
  function SpanAt(s: string, i: int): (sp: Span)
    requires SectionStartsAt(s, i)
    ensures sp.amp == i && IsSection(s, sp)
  {
    var j := MatchKey(s, i + 1).value;
    MatchKeySound(s, i + 1, j);
    Span(i, j, ValueEnd(s, j + 1))
  }

  /** `re.finditer` from position `i`: the matches, left to right. */
  function Scan(s: string, i: nat): (spans: seq<Span>)
    requires i <= |s|
    ensures forall k :: 0 <= k < |spans| ==> i <= spans[k].amp && Placed(s, spans[k])
    decreases |s| - i
  {
    if i == |s| then []
    else if SectionStartsAt(s, i) then [SpanAt(s, i)] + Scan(s, SpanAt(s, i).end)
    else Scan(s, i + 1)
  }

  /** No section starts inside a section: the key holds no '&', and the
      value holds no '&' followed by a word character, as every header
      starts with one. */
  lemma NoSectionInside(s: string, i: nat, j: nat, e: nat, p: nat)
    requires HeaderAt(s, i, j) && IsValueEnd(s, j + 1, e) && i < p < e
    ensures !SectionStartsAt(s, p)
  {
    if p < j {
      ValidKeyChars(s[i + 1..j]);
      assert s[p] == s[i + 1..j][p - i - 1];
    }
    forall j' | p < j' < |s| ensures !HeaderAt(s, p, j') {
      HeaderIsBoundary(s, p, j');
    }
    SectionStartsAtHeader(s, p);
  }

  /** Every span `Scan` returns is a whole match of the section pattern. */
  lemma {:induction false} ScanSections(s: string, i: nat)
    requires i <= |s|
    ensures forall k :: 0 <= k < |Scan(s, i)| ==> IsSection(s, Scan(s, i)[k])
    decreases |s| - i
  {
    if i < |s| {
      if SectionStartsAt(s, i) {
        ScanSections(s, SpanAt(s, i).end);
      } else {
        ScanSections(s, i + 1);
      }
    }
  }

  /** The spans come left to right and do not overlap. */
  lemma {:induction false} ScanOrdered(s: string, i: nat)
    requires i <= |s|
    ensures forall k, l :: 0 <= k < l < |Scan(s, i)| ==> Scan(s, i)[k].end <= Scan(s, i)[l].amp
    decreases |s| - i
  {
    if i < |s| {
      if SectionStartsAt(s, i) {
        ScanOrdered(s, SpanAt(s, i).end);
      } else {
        ScanOrdered(s, i + 1);
      }
    }
  }

  /** The spans in `spans` start at exactly the positions from `i` on where
      a section starts. */
  predicate StartsExactly(s: string, i: nat, spans: seq<Span>)
  {
    forall p :: i <= p < |s| ==>
      (SectionStartsAt(s, p) <==> exists k :: 0 <= k < |spans| && spans[k].amp == p)
  }

  /** A section found at `i` followed by the sections found from its end. */
  lemma StartsExactlyCons(s: string, i: nat, j: nat, e: nat, rest: seq<Span>)
    requires HeaderAt(s, i, j) && IsValueEnd(s, j + 1, e)
    requires StartsExactly(s, e, rest)
    requires forall k :: 0 <= k < |rest| ==> e <= rest[k].amp
    ensures StartsExactly(s, i, [Span(i, j, e)] + rest)
  {
    var spans := [Span(i, j, e)] + rest;
    forall p | i <= p < |s|
      ensures SectionStartsAt(s, p) <==> exists k :: 0 <= k < |spans| && spans[k].amp == p
    {
      if p == i {
        SectionStartsAtHeader(s, i);
        assert spans[0].amp == i;
      } else if p < e {
        NoSectionInside(s, i, j, e, p);
        forall k | 0 <= k < |spans| ensures spans[k].amp != p {
          if k > 0 { assert spans[k] == rest[k - 1]; }
        }
      } else {
        assert SectionStartsAt(s, p) <==> exists k :: 0 <= k < |rest| && rest[k].amp == p;
        if exists k :: 0 <= k < |rest| && rest[k].amp == p {
          var k :| 0 <= k < |rest| && rest[k].amp == p;
          assert spans[k + 1] == rest[k];
        }
        if exists k :: 0 <= k < |spans| && spans[k].amp == p {
          var k :| 0 <= k < |spans| && spans[k].amp == p;
          assert k > 0 && spans[k] == rest[k - 1];
        }
      }
    }
  }

  /** A position where no section starts, before all of `spans`. */
  lemma StartsExactlySkip(s: string, i: nat, spans: seq<Span>)
    requires !SectionStartsAt(s, i)
    requires StartsExactly(s, i + 1, spans)
    requires forall k :: 0 <= k < |spans| ==> i + 1 <= spans[k].amp
    ensures StartsExactly(s, i, spans)
  {
    forall p | i <= p < |s|
      ensures SectionStartsAt(s, p) <==> exists k :: 0 <= k < |spans| && spans[k].amp == p
    {
      if p == i {
        forall k | 0 <= k < |spans| ensures spans[k].amp != p {
        }
        assert !exists k :: 0 <= k < |spans| && spans[k].amp == p;
      } else {
        assert i + 1 <= p;
      }
    }
  }

  /** The spans start at exactly the positions where a section header
      stands: no header is skipped, and everything outside the spans (text
      before the first header, text after an '&' that does not start a key)
      is dropped. */
  lemma {:induction false} ScanFindsEverySection(s: string, i: nat)
    requires i <= |s|
    ensures StartsExactly(s, i, Scan(s, i))
    decreases |s| - i
  {
    if i < |s| {
      if SectionStartsAt(s, i) {
        var sp := SpanAt(s, i);
        ScanFindsEverySection(s, sp.end);
        StartsExactlyCons(s, i, sp.eq, sp.end, Scan(s, sp.end));
      } else {
        ScanFindsEverySection(s, i + 1);
        StartsExactlySkip(s, i, Scan(s, i + 1));
      }
    }
  }

  /** Where no section header stands, the scan moves on without output. */
  lemma {:induction false} ScanSkips(s: string, i: nat, p: nat)
    requires i <= p <= |s|
    requires forall q :: i <= q < p ==> !SectionStartsAt(s, q)
    ensures Scan(s, i) == Scan(s, p)
    decreases p - i
  {
    if i < p {
      ScanSkips(s, i + 1, p);
    }
  }

  /** Any part of a text without boundaries has none either. */
  lemma NoBoundaryPart(v: string, a: nat, b: nat)
    requires NoBoundary(v) && a <= b <= |v|
    ensures NoBoundary(v[a..b])
  {
    forall x | 0 <= x < b - a ensures !BoundaryAt(v[a..b], x) {
      assert !BoundaryAt(v, a + x);
    }
  }

  /** A value, once stripped, still holds no '&' followed by a word
      character. */
  lemma StrippedValue(s: string, sp: Span)
    requires Placed(s, sp) && IsValueEnd(s, sp.eq + 1, sp.end)
    ensures NoBoundary(Strip(ValueOf(s, sp)))
  {
    var v := ValueOf(s, sp);
    ValueHasNoBoundary(s, sp.eq + 1, sp.end);
    NoBoundaryPart(v, StripStart(v), StripEnd(v));
  }

  /** The key of a section found by the scan is well-formed. */
  lemma ScannedKey(s: string, n: nat)
    requires n < |Scan(s, 0)|
    ensures ValidKey(KeyOf(s, Scan(s, 0)[n]))
  {
    ScanSections(s, 0);
    assert IsSection(s, Scan(s, 0)[n]);
  }

  /** The value of a section found by the scan, once stripped, holds no
      '&' followed by a word character. */
  lemma ScannedValue(s: string, n: nat)
    requires n < |Scan(s, 0)|
    ensures NoBoundary(Strip(ValueOf(s, Scan(s, 0)[n])))
  {
    ScanSections(s, 0);
    StrippedValue(s, Scan(s, 0)[n]);
  }
}
