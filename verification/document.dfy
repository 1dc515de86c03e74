/** The document view of core.py: `Content` (core.py:86-99), `File`
    (core.py:29-62) and `File.parse` (core.py:64-84), which chains the mask
    pass, the section scanner, the unmask pass and `strip()`. */
module Document {
  import opened Wrappers
  import opened Dicts
  import opened Text
  import opened Masking
  import opened Scanner

  /** `Content`: one key and the text stored under it. */
  datatype Content = Content(key: string, data: string)

  /** `File`: the entries of a chart file, by key. */
  datatype File = File(entries: map<string, Content>)

  /** Every entry carries the key it is stored under. */
  predicate WellKeyed(f: File)
  {
    forall k :: k in f.entries ==> f.entries[k].key == k
  }

  /** `File(entries)` (core.py:34-35): one `Content` per pair. */
  function FromEntries(m: map<string, string>): (f: File)
    ensures f.entries.Keys == m.Keys
    ensures WellKeyed(f)
    ensures forall k :: k in m ==> f.entries[k].data == m[k]
  {
    File(map k | k in m :: Content(k, m[k]))
  }

  /** `str(content)` (core.py:97-99): the entry written back as `&key=data`.
      Nothing is escaped on the way out. */
  function Render(c: Content): string
  {
    "&" + c.key + "=" + c.data
  }

  // ---------------------------------------------------------------------
  // Difficulty views
  // ---------------------------------------------------------------------

  /** `f'lv_{diff_id}'` */
  function LevelKey(id: int): string
  {
    "lv_" + IntToDecimal(id)
  }

  /** `f'inote_{diff_id}'` */
  function ChartKey(id: int): string
  {
    "inote_" + IntToDecimal(id)
  }

  /** `File.difficulty(diff_id)` (core.py:37-41): the entry under `lv_<id>`,
      or `None`. */
  function Difficulty(f: File, id: int): (r: Option<Content>)
    ensures r.Some? <==> LevelKey(id) in f.entries
    ensures r.Some? ==> r.value == f.entries[LevelKey(id)]
  {
    Get(f.entries, LevelKey(id))
  }

  /** Every key whose first six characters are `inote_` goes on with a
      positive decimal number written without leading zeros. `int(k[6:], 10)`
      in `difficulties` raises or reads other spellings (`inote_01`,
      `inote_+1`) otherwise; such files are outside the model. */
  predicate ChartKeysCanonical(f: File)
  {
    forall k :: k in f.entries && HasPrefix(k, "inote_") ==> CanonicalPositive(k[6..])
  }

  /** `File.difficulties` (core.py:43-52): the numbers of the charts. */
  function Difficulties(f: File): (ids: set<int>)
    requires ChartKeysCanonical(f)
    ensures forall id :: id in ids <==> id >= 1 && ChartKey(id) in f.entries
  {
    var ids := set k | k in f.entries && HasPrefix(k, "inote_") :: DecimalValue(k[6..]) as int;
    forall id | id in ids ensures id >= 1 && ChartKey(id) in f.entries {
      var k :| k in f.entries && HasPrefix(k, "inote_") && id == DecimalValue(k[6..]) as int;
      NatOfDecimal(k[6..]);
      assert k == "inote_" + k[6..];
    }
    forall id | id >= 1 && ChartKey(id) in f.entries ensures id in ids {
      var k := ChartKey(id);
      DecimalOfNat(id);
      assert HasPrefix(k, "inote_") && k[6..] == NatToDecimal(id);
    }
    ids
  }

  /** `File.charts` (core.py:54-62): each chart number mapped to
      `entries.get('inote_<id>')`; the lookup never misses. */
  function Charts(f: File): (charts: map<int, Option<Content>>)
    requires ChartKeysCanonical(f)
    ensures charts.Keys == Difficulties(f)
    ensures forall id :: id in charts ==> charts[id] == Some(f.entries[ChartKey(id)])
  {
    map id | id in Difficulties(f) :: Get(f.entries, ChartKey(id))
  }

  // ---------------------------------------------------------------------
  // File.parse
  // ---------------------------------------------------------------------

  /** The pair the dictionary comprehension of `parse` makes of one section,
      when the unmask pass leaves its value as it is. */
  function SectionPair(s: string, sp: Span): (string, string)
    requires Placed(s, sp)
  {
    (KeyOf(s, sp), Strip(ValueOf(s, sp)))
  }

  function SectionPairs(s: string, spans: seq<Span>): (ps: seq<(string, string)>)
    requires forall k :: 0 <= k < |spans| ==> Placed(s, spans[k])
    ensures |ps| == |spans|
    ensures forall k :: 0 <= k < |spans| ==> ps[k] == SectionPair(s, spans[k])
  {
    seq(|spans|, k requires 0 <= k < |spans| => SectionPair(s, spans[k]))
  }

  lemma SectionPairsCons(s: string, spans: seq<Span>)
    requires |spans| > 0 && forall k :: 0 <= k < |spans| ==> Placed(s, spans[k])
    ensures SectionPairs(s, spans) == [SectionPair(s, spans[0])] + SectionPairs(s, spans[1..])
  {
    var ps, tail := SectionPairs(s, spans), SectionPairs(s, spans[1..]);
    var cons := [SectionPair(s, spans[0])] + tail;
    forall k | 0 <= k < |ps| ensures ps[k] == cons[k] {
      if k > 0 {
        assert spans[1..][k - 1] == spans[k];
      }
    }
  }

  /** The unmask pass applied to some section's value raises. */
  predicate SomeValueRaises(s: string, spans: seq<Span>)
    requires forall k :: 0 <= k < |spans| ==> Placed(s, spans[k])
  {
    spans != [] &&
    (ContainsMatch(TokenText, ValueOf(s, spans[0])) || SomeValueRaises(s, spans[1..]))
  }

  /** ... that is, some value holds a backslash, 'e' and two more characters. */
  lemma {:induction false} SomeValueRaisesExists(s: string, spans: seq<Span>)
    requires forall k :: 0 <= k < |spans| ==> Placed(s, spans[k])
    ensures SomeValueRaises(s, spans) <==>
      exists k :: 0 <= k < |spans| && ContainsMatch(TokenText, ValueOf(s, spans[k]))
  {
    if spans != [] {
      var rest := spans[1..];
      SomeValueRaisesExists(s, rest);
      if exists k :: 0 <= k < |spans| && ContainsMatch(TokenText, ValueOf(s, spans[k])) {
        var k :| 0 <= k < |spans| && ContainsMatch(TokenText, ValueOf(s, spans[k]));
        if k > 0 {
          assert rest[k - 1] == spans[k];
        }
      }
      if SomeValueRaises(s, rest) {
        var k :| 0 <= k < |rest| && ContainsMatch(TokenText, ValueOf(s, rest[k]));
        assert spans[k + 1] == rest[k];
      }
    }
  }

  /** The body of the dictionary comprehension, section by section: the key,
      and the value through the unmask pass and `strip()`. */
  function CleanPairs(order: ByteOrder, s: string, spans: seq<Span>): Result<seq<(string, string)>>
    requires forall k :: 0 <= k < |spans| ==> Placed(s, spans[k])
  {
    if spans == [] then Ok([])
    else
      match UnmaskPass(order, ValueOf(s, spans[0]))
      case Raised => Raised
      case Ok(v) =>
        match CleanPairs(order, s, spans[1..])
        case Raised => Raised
        case Ok(tail) => Ok([(KeyOf(s, spans[0]), Strip(v))] + tail)
  }

  /** The sections raise exactly when one value does; otherwise every
      section gives its key and its stripped value. */
  lemma {:induction false} CleanPairsSpec(order: ByteOrder, s: string, spans: seq<Span>)
    requires forall k :: 0 <= k < |spans| ==> Placed(s, spans[k])
    ensures CleanPairs(order, s, spans) ==
      if SomeValueRaises(s, spans) then Raised else Ok(SectionPairs(s, spans))
  {
    if spans != [] {
      var rest := spans[1..];
      CleanPairsSpec(order, s, rest);
      SectionPairsCons(s, spans);
    }
  }

  /** `File.parse(raw)` (core.py:64-84). */
  function Parse(order: ByteOrder, raw: string): Result<File>
  {
    match MaskPass(order, raw)
    case Raised => Raised
    case Ok(masked) =>
      match CleanPairs(order, masked, Scan(masked, 0))
      case Raised => Raised
      case Ok(pairs) => Ok(FromEntries(Collect(pairs)))
  }

  /** When parsing raises: the raw text holds '[', one or more '&' and
      "%]", or some section's value, before stripping, holds a backslash,
      'e' and two more characters. */
  predicate ParseRaisesOn(raw: string)
  {
    ContainsMatch(EscapeRun, raw) || SomeValueRaises(raw, Scan(raw, 0))
  }

  /** Parsing raises exactly on the texts above and otherwise gives the
      sections of the raw text itself: neither pass changes anything, so
      the result does not depend on the byte order of the tokens. */
  lemma ParseResult(order: ByteOrder, raw: string)
    ensures Parse(order, raw) ==
      if ParseRaisesOn(raw) then Raised
      else Ok(FromEntries(Collect(SectionPairs(raw, Scan(raw, 0)))))
  {
    if !ContainsMatch(EscapeRun, raw) {
      CleanPairsSpec(order, raw, Scan(raw, 0));
    }
  }

  /** Text in which no section starts parses to an empty file, unless the
      mask pass rejects it. */
  lemma ParseWithoutSections(order: ByteOrder, raw: string)
    requires forall p :: 0 <= p < |raw| ==> !SectionStartsAt(raw, p)
    requires !ContainsMatch(EscapeRun, raw)
    ensures Parse(order, raw) == Ok(File(map[]))
  {
    ScanSkips(raw, 0, |raw|);
    ParseResult(order, raw);
    assert SectionPairs(raw, []) == [];
    assert FromEntries(Collect<string, string>([])) == File(map[]);
  }

  /** The keys of the file are the keys of the sections. */
  lemma SectionsKeys(s: string)
    ensures var f := FromEntries(Collect(SectionPairs(s, Scan(s, 0))));
      forall k :: k in f.entries <==> exists n :: 0 <= n < |Scan(s, 0)| && KeyOf(s, Scan(s, 0)[n]) == k
  {
    var spans := Scan(s, 0);
    var ps := SectionPairs(s, spans);
    var f := FromEntries(Collect(ps));
    forall k ensures k in f.entries <==> exists n :: 0 <= n < |spans| && KeyOf(s, spans[n]) == k {
      if exists n :: 0 <= n < |spans| && KeyOf(s, spans[n]) == k {
        var n :| 0 <= n < |spans| && KeyOf(s, spans[n]) == k;
        assert ps[n].0 == k;
      }
    }
  }

  /** Every entry is stored under a well-formed key, and its text is
      stripped and holds no '&' followed by a word character. */
  lemma SectionsEntries(s: string)
    ensures var f := FromEntries(Collect(SectionPairs(s, Scan(s, 0))));
      WellKeyed(f) &&
      forall k :: k in f.entries ==>
        ValidKey(k) && Trimmed(f.entries[k].data) && NoBoundary(f.entries[k].data)
  {
    var spans := Scan(s, 0);
    var ps := SectionPairs(s, spans);
    var f := FromEntries(Collect(ps));
    forall k | k in f.entries
      ensures ValidKey(k) && Trimmed(f.entries[k].data) && NoBoundary(f.entries[k].data)
    {
      CollectValueFrom(ps, k);
      var n :| 0 <= n < |ps| && ps[n] == (k, Collect(ps)[k]);
      ScannedKey(s, n);
      ScannedValue(s, n);
    }
  }

  /** A repeated key keeps the text of its last section. */
  lemma SectionsLastWins(s: string, n: nat)
    requires n < |Scan(s, 0)|
    requires forall m :: n < m < |Scan(s, 0)| ==> KeyOf(s, Scan(s, 0)[m]) != KeyOf(s, Scan(s, 0)[n])
    ensures var f := FromEntries(Collect(SectionPairs(s, Scan(s, 0))));
      KeyOf(s, Scan(s, 0)[n]) in f.entries &&
      f.entries[KeyOf(s, Scan(s, 0)[n])].data == Strip(ValueOf(s, Scan(s, 0)[n]))
  {
    CollectLastWins(SectionPairs(s, Scan(s, 0)), n);
  }

  // ---------------------------------------------------------------------
  // Keys and the difficulty views
  // ---------------------------------------------------------------------

  /** A file whose keys are all well-formed gives every `inote_` key a
      canonical number, so `difficulties` reads each of them. */
  lemma ValidKeysCanonical(f: File)
    requires forall k :: k in f.entries ==> ValidKey(k)
    ensures ChartKeysCanonical(f)
  {
    forall k | k in f.entries && HasPrefix(k, "inote_") ensures CanonicalPositive(k[6..]) {
      assert k == "inote" + "_" + k[6..];
      SuffixedKey("inote", k[6..]);
    }
  }

  /** No well-formed key is `lv_<id>` for an `id` below 1, so such a
      difficulty is never found in a file with well-formed keys. */
  lemma NoLevelBelowOne(f: File, id: int)
    requires forall k :: k in f.entries ==> ValidKey(k)
    requires id < 1
    ensures Difficulty(f, id) == None
  {
    var t := IntToDecimal(id);
    assert LevelKey(id) == "lv" + "_" + t;
    SuffixedKey("lv", t);
    if id < 0 {
      assert t[0] == '-';
    } else {
      assert t == "0";
    }
  }

  /** What a successful parse gives: every entry under a well-formed key,
      its text stripped and free of '&' followed by a word character, and
      every chart number readable. */
  lemma ParsedFile(order: ByteOrder, raw: string, f: File)
    requires Parse(order, raw) == Ok(f)
    ensures WellKeyed(f)
    ensures forall k :: k in f.entries ==>
      ValidKey(k) && Trimmed(f.entries[k].data) && NoBoundary(f.entries[k].data)
    ensures ChartKeysCanonical(f)
  {
    ParseResult(order, raw);
    SectionsEntries(raw);
    ValidKeysCanonical(f);
  }

  /** The chart views of a parsed file: every chart number is at least 1,
      and `charts` finds the chart stored under each of them. */
  lemma ParsedCharts(order: ByteOrder, raw: string, f: File)
    requires Parse(order, raw) == Ok(f)
    ensures ChartKeysCanonical(f)
    ensures forall id :: id in Difficulties(f) ==> id >= 1 && ChartKey(id) in f.entries
    ensures forall id :: id in Difficulties(f) ==>
      id in Charts(f) && Charts(f)[id] == Some(f.entries[ChartKey(id)])
  {
    ParsedFile(order, raw, f);
  }

  // ---------------------------------------------------------------------
  // Writing an entry back
  // ---------------------------------------------------------------------

  /** The rendered entry holds no '[': neither '&', a key character, '='
      nor the text is one, so the mask pass finds nothing. */
  lemma RenderHasNoEscapeRun(c: Content)
    requires ValidKey(c.key) && !ContainsMatch(EscapeRun, c.data)
    ensures !ContainsMatch(EscapeRun, Render(c))
  {
    var s := Render(c);
    var h := |c.key| + 2;
    ValidKeyChars(c.key);
    forall q, e | 0 <= q < e <= |s| ensures !Matches(EscapeRun, s[q..e]) {
      if q < h {
        if 0 < q < h - 1 {
          assert s[q] == c.key[q - 1];
        }
        assert s[q..e][0] == s[q];
      } else {
        assert s[q..e] == c.data[q - h..e - h];
      }
    }
  }

  /** The scan finds exactly one section in a rendered entry, covering it
      all. */
  lemma RenderScan(c: Content)
    requires ValidKey(c.key) && NoBoundary(c.data)
    ensures Scan(Render(c), 0) == [Span(0, |c.key| + 1, |Render(c)|)]
  {
    var s := Render(c);
    var j := |c.key| + 1;
    assert s[1..j] == c.key;
    MatchKeyComplete(s, 1, j);
    forall x | j + 1 <= x < |s| ensures !BoundaryAt(s, x) {
      assert !BoundaryAt(c.data, x - j - 1);
      assert s[x] == c.data[x - j - 1];
      if x + 1 < |s| {
        assert s[x + 1] == c.data[x - j];
      }
    }
    ValueEndUnique(s, j + 1, ValueEnd(s, j + 1), |s|);
  }

  /** The one section of a rendered entry holds its text, so the unmask
      pass leaves it be. */
  lemma RenderNotRaising(c: Content)
    requires ValidKey(c.key) && NoBoundary(c.data) && !ContainsMatch(TokenText, c.data)
    ensures !SomeValueRaises(Render(c), Scan(Render(c), 0))
  {
    var s := Render(c);
    RenderScan(c);
    assert ValueOf(s, Span(0, |c.key| + 1, |s|)) == c.data;
  }

  /** The section spanning a whole rendered entry gives its key and its text. */
  lemma RenderPair(c: Content)
    requires ValidKey(c.key) && Trimmed(c.data)
    ensures Placed(Render(c), Span(0, |c.key| + 1, |Render(c)|))
    ensures SectionPair(Render(c), Span(0, |c.key| + 1, |Render(c)|)) == (c.key, c.data)
  {
    var s := Render(c);
    var sp := Span(0, |c.key| + 1, |s|);
    assert ValueOf(s, sp) == c.data;
    assert KeyOf(s, sp) == c.key;
    StripExact([], c.data, []);
    assert [] + c.data + [] == c.data;
  }

  /** The one section of a rendered entry gives its key and its text. */
  lemma RenderPairs(c: Content)
    requires ValidKey(c.key) && Trimmed(c.data) && NoBoundary(c.data)
    ensures SectionPairs(Render(c), Scan(Render(c), 0)) == [(c.key, c.data)]
  {
    RenderScan(c);
    RenderPair(c);
  }

  /** A single pair makes a file of one entry. */
  lemma SingleEntry(k: string, d: string)
    ensures FromEntries(Collect([(k, d)])) == File(map[k := Content(k, d)])
  {
    assert Collect([(k, d)]) == map[k := d];
  }

  /** `str(content)` read back by `parse` gives the entry again, provided
      its key is well-formed and its text is stripped, holds no '&'
      followed by a word character, and holds no text either pass rejects.
      The text is written out verbatim: nothing is escaped. */
  lemma ParseRenderRoundTrip(order: ByteOrder, c: Content)
    requires ValidKey(c.key) && Trimmed(c.data) && NoBoundary(c.data)
    requires !ContainsMatch(TokenText, c.data) && !ContainsMatch(EscapeRun, c.data)
    ensures Parse(order, Render(c)) == Ok(File(map[c.key := c]))
  {
    RenderHasNoEscapeRun(c);
    RenderNotRaising(c);
    RenderPairs(c);
    SingleEntry(c.key, c.data);
    ParseResult(order, Render(c));
  }

  /** The text `use \& for ampersand` passes both passes untouched and has
      no boundary in it. */
  lemma BackslashAmpersandText(d: string)
    requires d == "use \\& for ampersand"
    ensures Trimmed(d) && NoBoundary(d)
    ensures !ContainsMatch(TokenText, d) && !ContainsMatch(EscapeRun, d)
  {
    forall x | 0 <= x < |d| ensures !BoundaryAt(d, x) {
      if d[x] == '&' {
        assert x == 5;
      }
    }
    forall q, e | 0 <= q < e <= |d|
      ensures !Matches(TokenText, d[q..e]) && !Matches(EscapeRun, d[q..e])
    {
      assert d[q..e][0] == d[q];
      if d[q] == '\\' && e - q > 1 {
        assert q == 4;
        assert d[q..e][1] == d[5];
      }
    }
  }

  /** The entry `comment` with that text meets the round trip's conditions. */
  lemma BackslashAmpersandEntry(c: Content)
    requires c == Content("comment", "use \\& for ampersand")
    ensures ValidKey(c.key) && Trimmed(c.data) && NoBoundary(c.data)
    ensures !ContainsMatch(TokenText, c.data) && !ContainsMatch(EscapeRun, c.data)
  {
    assert AllIn(c.key, Lower);
    BackslashAmpersandText(c.data);
  }

  /** That entry renders as the raw text read in below. */
  lemma BackslashAmpersandRender(c: Content, raw: string)
    requires c == Content("comment", "use \\& for ampersand")
    requires raw == "&comment=use \\& for ampersand"
    ensures Render(c) == raw
  {
    assert "&" + "comment" == "&comment";
    assert "&comment" + "=" == "&comment=";
    assert "&comment=" + c.data == raw;
  }

  /** A backslash before '&' is not an escape: `\&` is not a bracketed run,
      so the mask pass leaves it, and it stays in the text as it is. */
  lemma BackslashAmpersandKept(order: ByteOrder, raw: string)
    requires raw == "&comment=use \\& for ampersand"
    ensures Parse(order, raw) == Ok(File(map["comment" := Content("comment", "use \\& for ampersand")]))
  {
    var c := Content("comment", "use \\& for ampersand");
    BackslashAmpersandEntry(c);
    BackslashAmpersandRender(c, raw);
    ParseRenderRoundTrip(order, c);
  }

  /** A `\&` followed by a word character is still a boundary: in
      `&a=x\&y` the value stops before the '&', and `&y` starts no section. */
  lemma BackslashWordScan(raw: string)
    requires raw == "&a=x\\&y"
    ensures Scan(raw, 0) == [Span(0, 2, 5)]
  {
    assert raw[1..2] == "a" && AllIn(raw[1..2], Lower);
    MatchKeyComplete(raw, 1, 2);
    assert BoundaryAt(raw, 5);
    ValueEndUnique(raw, 3, ValueEnd(raw, 3), 5);
    assert SpanAt(raw, 0) == Span(0, 2, 5);
    SectionStartsAtHeader(raw, 5);
    assert !SectionStartsAt(raw, 6);
    ScanSkips(raw, 5, 7);
  }

  /** Neither pass matches in `&a=x\&y`, and its value is already stripped. */
  lemma BackslashWordClean(raw: string)
    requires raw == "&a=x\\&y"
    ensures raw[3..5] == "x\\" && Strip(raw[3..5]) == raw[3..5]
    ensures !ContainsMatch(EscapeRun, raw) && !ContainsMatch(TokenText, raw[3..5])
  {
    forall q, e | 0 <= q < e <= |raw| ensures !Matches(EscapeRun, raw[q..e]) {
      assert raw[q..e][0] == raw[q];
    }
    StripExact([], raw[3..5], []);
    assert [] + raw[3..5] + [] == raw[3..5];
  }

  /** `&a=x\&y` parses to the one entry `a` with the text `x\`: the
      backslash stays, the '&' after it ends the value, and `&y` is dropped. */
  lemma BackslashWordEndsValue(order: ByteOrder, raw: string)
    requires raw == "&a=x\\&y"
    ensures Parse(order, raw) == Ok(File(map["a" := Content("a", "x\\")]))
  {
    var sp := Span(0, 2, 5);
    BackslashWordScan(raw);
    BackslashWordClean(raw);
    assert KeyOf(raw, sp) == "a" && ValueOf(raw, sp) == raw[3..5];
    assert SectionPairs(raw, [sp]) == [("a", "x\\")];
    assert !SomeValueRaises(raw, [sp]);
    SingleEntry("a", "x\\");
    ParseResult(order, raw);
  }

  /** In `&t=a\&lv_1=3` the '&' after the backslash begins a section of
      its own: the scan finds `t` with the value `a\`, then `lv_1`. */
  lemma BackslashWordStartsSection(s: string)
    requires s == "&t=a\\&lv_1=3"
    ensures Scan(s, 0) == [Span(0, 2, 5), Span(5, 10, 12)]
  {
    assert s[1..2] == "t" && AllIn(s[1..2], Lower);
    MatchKeyComplete(s, 1, 2);
    assert s[6..10] == "lv" + "_" + "1";
    assert CanonicalPositive("1");
    SuffixedKey("lv", "1");
    MatchKeyComplete(s, 6, 10);
    assert BoundaryAt(s, 5);
    ValueEndUnique(s, 3, ValueEnd(s, 3), 5);
    assert SpanAt(s, 0) == Span(0, 2, 5);
    ValueEndUnique(s, 11, ValueEnd(s, 11), 12);
    assert SpanAt(s, 5) == Span(5, 10, 12);
    assert Scan(s, 12) == [];
    assert Scan(s, 5) == [Span(5, 10, 12)];
  }

  /** The text `[&%]` is what the mask pattern matches; it is no key of the
      escape table, so parsing a file that holds it raises. */
  lemma BracketRunRaises(order: ByteOrder, raw: string)
    requires raw == "&title=[&%]"
    ensures Parse(order, raw) == Raised
  {
    assert raw[7..11] == "[&%]";
    assert Matches(EscapeRun, raw[7..11]);
    ParseResult(order, raw);
  }
}
