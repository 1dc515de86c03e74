# maidata-reader core in Dafny

This project models `src/maidata_reader/core.py`, the whole logic of a
reader for simai chart files (`maidata.txt`). A chart file is a sequence
of sections `&key=value`. `File.parse` turns the raw text into a
dictionary of `Content(key, data)` entries in four steps:

1. a mask substitution over the whole text;
2. a `re.finditer` scan for sections;
3. an unmask substitution over each value;
4. `strip()` of each value.

`File` then offers the views `difficulty`, `difficulties` and `charts`.
`Content.__str__` writes an entry back as `&key=data`.

The model is pure, as the module is: datatypes, functions and lemmas, in
six modules.

- `Wrappers`: `Option` for `dict.get`. `Result` for a computation that
  returns or raises.
- `Dicts`: the dictionary a comprehension builds from a sequence of pairs,
  where the last write wins.
- `Text`: the character classes of the patterns, `str.strip()`, and
  decimal numerals (`str(int)` and `int(s, 10)`).
- `Masking`: `MASKED_CHARS` and `MASKED_TUPLES`, the two dictionaries
  built in `_left_mask` and `_right_mask`, and the two `re.sub` passes.
- `Scanner`: the key grammar `[a-z]+(?:_[1-9]\d*)?`, where a value ends
  (before the first `&` followed by a word character), and the
  left-to-right scan with `finditer` semantics.
- `Document`: `Content`, `File`, its views, `parse`, and `str(content)`.

The passes are modelled as the code is written.

- The mask pattern `\[&+%\]` matches a literal `[`, one or more `&`, then
  `%]`. Such a text is never a key of the table in `_left_mask`, whose keys
  are backslash escapes. So every match raises `KeyError`.
- The unmask pattern `\\e.{2}` matches a backslash, `e` and two more
  characters. The table in `_right_mask` is keyed by `bytes`, so every
  match raises as well.
- Each pass is therefore the identity or a failure. `parse` raises exactly
  on the texts `ParseRaisesOn` describes. Otherwise it returns the sections
  of the raw text itself, whatever the byte order of the tokens.

The docstrings of `_left_mask` (core.py:11-16) and `_right_mask`
(core.py:20-25) describe an escaping in which a backslash-escaped reserved
character is turned into a token before the scan and turned back after it.
The patterns at core.py:71 and core.py:79 never perform it, and the model
follows the code:

- `\&` stays in the text verbatim (`Document.BackslashAmpersandKept`).
  The backslash does not protect the `&` from the scanner either: a `\&`
  followed by a word character still ends the value at the `&`
  (`Document.BackslashWordEndsValue`), and may begin a new `&key=` section
  there (`Document.BackslashWordStartsSection`).
  Were a token ever looked up, the right table would map it back to the
  two-character escape, not to the bare character (`Masking.TablesInverse`).
- `parse` raises on `[&%]` in the raw text (`Document.BracketRunRaises`),
  and on a backslash, `e` and two more characters in a value
  (`Document.ParseResult`).
- The token's code is packed with `struct.pack('=bH', …)`, in native byte
  order. The model takes the byte order as a parameter.

## Model

| member | source | states |
|---|---|---|
| Masking.MaskedTuples | src/maidata_reader/core.py:5-9 | `MASKED_TUPLES`, built from `MASKED_CHARS`; no contract of its own, characterized by `MaskedTuplesShape`. |
| Masking.MaskedTuplesShape | src/maidata_reader/core.py:5-9 | There are four tuples. The i-th pairs the escape `\` + `MASKED_CHARS[i]` with a 3-byte token: byte 27, then 257 + i packed in the given byte order. The escapes are pairwise distinct, and so are the tokens. |
| Masking.Pack16 | src/maidata_reader/core.py:7 | Packing a 16-bit code gives two bytes that unpack to it again, in either byte order. |
| Masking.LeftTable | src/maidata_reader/core.py:17 | The dictionary built in `_left_mask`; characterized by `LeftTableContents`. |
| Masking.RightTable | src/maidata_reader/core.py:26 | The dictionary built in `_right_mask`; characterized by `RightTableContents`. |
| Masking.LeftTableContents | src/maidata_reader/core.py:17 | The table of `_left_mask` has exactly the four escapes as keys, each mapped to its own token. |
| Masking.RightTableContents | src/maidata_reader/core.py:26 | The table of `_right_mask` has exactly the four tokens as keys, each mapped to its own escape. |
| Masking.TablesInverse | src/maidata_reader/core.py:17-27 | The two tables are mutual inverses in both directions. A token maps back to the two-character escape, never to the bare character. |
| Masking.MatchAt | src/maidata_reader/core.py:71 | A match found at `i` ends after `i` and within the text. |
| Masking.MatchAtSpec | src/maidata_reader/core.py:71 | The matcher finds a match from `i` to `e` exactly when `s[i..e]` matches the pattern: `\[&+%\]` for the mask pass (line 79), `\\e.{2}` with `re.S` for the unmask pass (line 71). |
| Masking.Replacement | src/maidata_reader/core.py:17-18 | The callback's lookup `_map[match.group(0)]` (also lines 26-27), and `re.sub`'s use of what it returns; characterized by `ReplacementRaises`. |
| Masking.ReplacementRaises | src/maidata_reader/core.py:17-18 | Every text either pattern matches is missing from the table its callback looks it up in, so the callback raises. This holds for the right table (lines 26-27) too. |
| Masking.Sub | src/maidata_reader/core.py:79 | `re.sub` with a callback, from position `i`, as at lines 70-74 and 79; characterized by `SubIdentityOrRaise`. |
| Masking.SubIdentityOrRaise | src/maidata_reader/core.py:79 | `re.sub` from position `i` raises exactly when some part of `s[i..]` matches the pattern. Otherwise it returns `s[i..]` unchanged. The same holds for the unmask pass at line 71. |
| Masking.MaskPass | src/maidata_reader/core.py:79 | The mask pass over the raw text raises iff the text contains `[`, one or more `&`, then `%]`. Otherwise it returns the text unchanged. |
| Masking.UnmaskPass | src/maidata_reader/core.py:70-75 | The unmask pass over a value raises iff the value contains a backslash, `e` and two more characters. Otherwise it returns the value unchanged. |
| Scanner.ValidKey | src/maidata_reader/core.py:78 | The key grammar `[a-z]+(?:_[1-9]\d*)?`; characterized by `MatchKeySpec`, `SuffixedKey` and `ValidKeyChars`. |
| Scanner.ValidKeyChars | src/maidata_reader/core.py:78 | A key starts with a lower-case letter and holds only letters, digits and `_`. |
| Scanner.SuffixedKey | src/maidata_reader/core.py:78 | Letters + `_` + t form a key iff t is a positive decimal without a leading zero. |
| Scanner.MatchKey | src/maidata_reader/core.py:78 | The `=` found after a key lies after its start and within the text. |
| Scanner.SuffixSplitChars | src/maidata_reader/core.py:78 | The suffixed form of a key, read off the characters of the text. |
| Scanner.PlainKeyChars | src/maidata_reader/core.py:78 | The plain form `[a-z]+`, read off the characters of the text. |
| Scanner.MatchKeySound | src/maidata_reader/core.py:78 | What the key matcher finds is a key followed by `=`. |
| Scanner.MatchKeyComplete | src/maidata_reader/core.py:78 | Every key followed by `=` is found. |
| Scanner.MatchKeySpec | src/maidata_reader/core.py:78 | The key matcher stops at the `=` at `j` iff `s[j] == '='` and `s[i..j]` matches the key grammar. |
| Scanner.ValueEnd | src/maidata_reader/core.py:78 | The greedy value `(?:(?!&\w+).)*` stops at the first `&` followed by a word character, or at the end of the text. Newlines are included (`re.S`). |
| Scanner.ValueEndUnique | src/maidata_reader/core.py:78 | The end of a value is determined by where it starts. |
| Scanner.ValueHasNoBoundary | src/maidata_reader/core.py:78 | A value holds no `&` followed by a word character. |
| Scanner.HeaderIsBoundary | src/maidata_reader/core.py:78 | A section header `&key=` is also where a value before it stops. |
| Scanner.SectionStartsAtHeader | src/maidata_reader/core.py:78 | A section starts at `p` exactly when `&`, a key and `=` stand there. |
| Scanner.SpanAt | src/maidata_reader/core.py:78 | Where a section starts, the match spans `&`, the key, `=` and the whole value. |
| Scanner.Scan | src/maidata_reader/core.py:77-81 | Every match `finditer` yields from `i` lies at or after `i`, within the text. |
| Scanner.NoSectionInside | src/maidata_reader/core.py:77-81 | No section starts inside another section's key or value. |
| Scanner.ScanSections | src/maidata_reader/core.py:77-81 | Every span the scan yields is a whole match of the section pattern. |
| Scanner.ScanOrdered | src/maidata_reader/core.py:77-81 | The matches come left to right and do not overlap. |
| Scanner.StartsExactlyCons | src/maidata_reader/core.py:77-81 | A match, followed by the matches from its end, starts at exactly the section starts from its own start. |
| Scanner.StartsExactlySkip | src/maidata_reader/core.py:77-81 | A position where no section starts adds no match. |
| Scanner.ScanFindsEverySection | src/maidata_reader/core.py:77-81 | The scan yields a match at exactly the positions where a section starts. Text before the first section, or after an `&` that starts no section, is dropped. |
| Scanner.ScanSkips | src/maidata_reader/core.py:77-81 | Where no section starts, the scan moves on and yields nothing. |
| Scanner.StrippedValue | src/maidata_reader/core.py:70-78 | A value, once stripped, holds no `&` followed by a word character. |
| Scanner.ScannedKey | src/maidata_reader/core.py:77-81 | The key of every match (`match.group(1)`) is well-formed. |
| Scanner.ScannedValue | src/maidata_reader/core.py:70-81 | The stripped value of every match holds no `&` followed by a word character. |
| Text.RunEnd | src/maidata_reader/core.py:75 | The longest run of a class from `i`: all its characters are in the class, and the next one is not. |
| Text.RunEndAt | src/maidata_reader/core.py:75 | A maximal run from `i` is the one `RunEnd` finds. |
| Text.RunStart | src/maidata_reader/core.py:75 | The longest run of a class ending at `j`, scanning from the right. |
| Text.RunStartAt | src/maidata_reader/core.py:75 | A maximal run ending at `j` is the one `RunStart` finds. |
| Text.StripEnd | src/maidata_reader/core.py:75 | The end of the stripped text lies between its start and the end of the text. |
| Text.Strip | src/maidata_reader/core.py:75 | `strip()` gives a text with no whitespace at either end. |
| Text.StripExact | src/maidata_reader/core.py:75 | `strip()` removes exactly the surrounding whitespace and keeps the inside, interior whitespace included. |
| Text.NatToDecimal | src/maidata_reader/core.py:41 | `str(n)` is a non-empty string of digits, with no leading zero when n > 0. |
| Text.DecimalOfNat | src/maidata_reader/core.py:49 | `int(str(n), 10) == n`, and `str(n)` is canonical for n > 0. |
| Text.NatOfDecimal | src/maidata_reader/core.py:49 | For a canonical positive numeral s, `int(s, 10) >= 1` and `str(int(s, 10)) == s`. |
| Dicts.Collect | src/maidata_reader/core.py:69-82 | A dict comprehension over pairs has a key iff some pair carries it. |
| Dicts.CollectLastWins | src/maidata_reader/core.py:69-82 | The value stored under a key is that of the last pair carrying it. |
| Dicts.CollectValueFrom | src/maidata_reader/core.py:69-82 | Every stored key/value is one of the pairs. |
| Dicts.CollectDistinct | src/maidata_reader/core.py:17 | With distinct keys, every pair is stored as it is. |
| Document.FromEntries | src/maidata_reader/core.py:34-35 | `File(entries)` has the same keys. Each entry carries its own key and the given text. |
| Document.Difficulty | src/maidata_reader/core.py:37-41 | `difficulty(id)` is the entry under `lv_<str(id)>`, or `None` iff that key is absent. |
| Document.Difficulties | src/maidata_reader/core.py:43-52 | With canonical `inote_` suffixes: id is in `difficulties` iff id >= 1 and `inote_<str(id)>` is a key. |
| Document.Charts | src/maidata_reader/core.py:54-62 | `charts` has exactly the ids of `difficulties` as keys. Each maps to the entry under `inote_<id>`, which is always present. |
| Document.SectionPairsCons | src/maidata_reader/core.py:69-75 | The pairs of the sections are those of the first, then those of the rest. |
| Document.SomeValueRaisesExists | src/maidata_reader/core.py:70-75 | The unmask pass raises on some section iff some value holds a backslash, `e` and two more characters. |
| Document.CleanPairs | src/maidata_reader/core.py:69-75 | The body of the dictionary comprehension, section by section; characterized by `CleanPairsSpec`. |
| Document.CleanPairsSpec | src/maidata_reader/core.py:69-82 | The comprehension raises exactly when some value's unmask pass does. Otherwise it gives every section's key and stripped value. |
| Document.Parse | src/maidata_reader/core.py:64-84 | `File.parse`: the mask pass, the scan, the unmask pass and `strip()`, then `File(entries)`; characterized by `ParseResult`, `ParsedFile` and `ParseRenderRoundTrip`. |
| Document.ParseResult | src/maidata_reader/core.py:64-84 | `parse` raises exactly when the raw text holds `[`, `&`…, `%]` or some value holds `\e` and two more characters. Otherwise neither pass changes the text, and it gives the file of the sections of the raw text itself, in either byte order. A `\&` is no escape: the scanner treats its `&` like any other. |
| Document.ParseWithoutSections | src/maidata_reader/core.py:69-84 | A text in which no section starts parses to an empty file, unless the mask pass rejects it. |
| Document.SectionsKeys | src/maidata_reader/core.py:69-82 | The keys of the parsed file are exactly the keys of the matches. |
| Document.SectionsEntries | src/maidata_reader/core.py:69-82 | Every entry is stored under a well-formed key, and its text is stripped and holds no `&` followed by a word character. |
| Document.SectionsLastWins | src/maidata_reader/core.py:69-82 | A key keeps the stripped value of its last section. |
| Document.ValidKeysCanonical | src/maidata_reader/core.py:43-52 | Well-formed keys give every `inote_` key a canonical number. |
| Document.NoLevelBelowOne | src/maidata_reader/core.py:37-41 | With well-formed keys, `difficulty(id)` is `None` for every id < 1. |
| Document.ParsedFile | src/maidata_reader/core.py:64-84 | A parsed file is well keyed, its keys match the key grammar, and its texts are stripped and free of `&` followed by a word character. Its `inote_` numbers are readable. |
| Document.ParsedCharts | src/maidata_reader/core.py:43-62 | In a parsed file, every chart number is at least 1, and `charts` maps it to the entry under `inote_<id>`. |
| Document.Render | src/maidata_reader/core.py:97-99 | `str(content)` as `&key=data`; characterized by `ParseRenderRoundTrip`. |
| Document.RenderHasNoEscapeRun | src/maidata_reader/core.py:97-99 | A rendered entry gives the mask pass nothing to match, when its text does not. |
| Document.RenderScan | src/maidata_reader/core.py:97-99 | A rendered entry is scanned as one section spanning all of it. |
| Document.RenderNotRaising | src/maidata_reader/core.py:97-99 | The unmask pass does not raise on a rendered entry whose text gives it nothing to match. |
| Document.RenderPairs | src/maidata_reader/core.py:97-99 | A rendered entry is scanned as one section, which gives back exactly its key and its text (through the helper `RenderPair`). |
| Document.SingleEntry | src/maidata_reader/core.py:34-35 | One pair makes a file of one entry. |
| Document.ParseRenderRoundTrip | src/maidata_reader/core.py:97-99 | For a well-formed key and a stripped text, with no `&`+word character, no `\e..` and no `[&…%]`: `parse(str(Content(k, d)))` is exactly `{k: Content(k, d)}`. |
| Document.BackslashAmpersandKept | src/maidata_reader/core.py:64-84 | Parsing `&comment=use \& for ampersand` gives the entry `comment` with the text `use \& for ampersand`: the backslash is kept. The helpers `BackslashAmpersandText`, `BackslashAmpersandEntry` and `BackslashAmpersandRender` split this one example for the solver. |
| Document.BackslashWordEndsValue | src/maidata_reader/core.py:64-84 | Parsing `&a=x\&y` gives the one entry `a` with the text `x\`: the `&` after the backslash is followed by a word character, so it ends the value (line 78), and `&y` starts no section and is dropped. |
| Document.BackslashWordStartsSection | src/maidata_reader/core.py:77-81 | In `&t=a\&lv_1=3` the scan finds two sections: `t` with the value `a\`, then `lv_1` with the value `3`. |
| Document.BracketRunRaises | src/maidata_reader/core.py:79 | Parsing `&title=[&%]` raises, because `[&%]` is no key of the escape table (line 17-18). |

## Left out

- Unicode classes: `\w` and `\d` are modelled on ASCII (a letter, a digit or `_`; `0`-`9`). Unicode digits after `[1-9]` in a key suffix are not modelled. `strip()` uses the fixed list of characters that `str.isspace` accepts.
- The general `re` engine and its flags: only the three patterns of `parse` are modelled, each by a hand-written matcher.
- Native byte order: `struct.pack('=bH', …)` is a parameter (`ByteOrder`). The signed `b` format only packs 27 here.
- `KeyError` and `TypeError` are one outcome, `Raised`. The model does not say which exception a failing pass raises.
- Document.Difficulties: requires every `inote_` suffix to be a canonical positive decimal. `int(k[6:], 10)` also reads `inote_01` or `inote_+1`, and raises `ValueError` on `inote_x`, for a `File` built directly. `Document.ParsedCharts` shows that parsed files always meet the condition.
- Document.Charts: the same condition as `Document.Difficulties`.
- Document.ParsedCharts: does not model CPython's limit on converting between `int` and decimal text (`sys.get_int_max_str_digits()`, 4300 digits by default). A parsed key `inote_<n>` whose number has more digits makes `difficulties` and `charts` raise `ValueError` at core.py:49, where the model returns a set and a map. Integers in the model are unbounded.
- Document.Difficulty: the same limit: formatting `lv_{diff_id}` at core.py:41 raises `ValueError` for a number of more than 4300 digits, where the model looks the key up.
- Document.Difficulties and Document.Charts: the same limit applies to `int(k[6:], 10)` at core.py:49.
- Text.DecimalOfNat: states `int(str(n), 10) == n` for every natural number, without the digit limit above.
- `sorted(...)` inside `frozenset` at core.py:48 has no effect on the result, so `difficulties` is a set.
- The dataclass-generated `__eq__` and `__repr__`, `__all__` and the imports: datatype equality stands in for `__eq__`.
- The order of `File.entries`: a Python dict keeps insertion order, so a repeated key keeps the position of its first section and the text of its last. The model's `map` is unordered. No operation of the module depends on that order.
- `File` is a datatype: `entries` is assigned once in `__init__` and never mutated, so no object identity is modelled.
