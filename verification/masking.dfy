/** The masking table of core.py (MASKED_CHARS, MASKED_TUPLES, `_left_mask`,
    `_right_mask`) and the two `re.sub` passes that use it.

    The passes are modelled as the code is written. The mask pattern
    `\[&+%\]` matches a literal '[', one or more '&', then "%]"; the unmask
    pattern `\\e.{2}` matches a backslash, 'e' and two more characters. No
    text either pattern matches is a key of the dictionary its callback looks
    up (the left table is keyed by two-character escapes, the right table by
    bytes), so every match raises and a pass either returns its input
    unchanged or raises. */
module Masking {
  import opened Wrappers
  import opened Dicts
  import opened Text

  type byte = x: int | 0 <= x < 256

  /** The native byte order `struct.pack('=...')` uses; it is a property of
      the machine, so the model takes it as a parameter. */
  datatype ByteOrder = LittleEndian | BigEndian

  /** The Python values stored in the two tables: text and byte strings. A
      `str` never equals a `bytes`. */
  datatype PyObj = Str(s: string) | Bytes(b: seq<byte>)

  /** MASKED_CHARS */
  const MaskedChars: seq<char> := ['&', '+', '%', '\\']

  /** The first byte of every token: `struct.pack('b', 27)`. */
  const TokenTag: byte := 27

  /** `struct.pack('=H', v)`: an unsigned 16-bit value as two bytes. */
  function Pack16(order: ByteOrder, v: nat): (r: seq<byte>)
    requires v < 0x1_0000
    ensures |r| == 2 && Unpack16(order, r) == v
  {
    match order
    case LittleEndian => [v % 256, v / 256]
    case BigEndian => [v / 256, v % 256]
  }

  /** `struct.unpack('=H', b)`. */
  function Unpack16(order: ByteOrder, b: seq<byte>): nat
    requires |b| == 2
  {
    match order
    case LittleEndian => b[1] as int * 256 + b[0] as int
    case BigEndian => b[0] as int * 256 + b[1] as int
  }

  /** The escaped form of the i-th masked character: a backslash and the
      character. */
  function Escape(i: nat): string
    requires i < |MaskedChars|
  {
    ['\\', MaskedChars[i]]
  }

  /** `struct.pack('=bH', 27, 257 + i)`. */
  function Token(order: ByteOrder, i: nat): seq<byte>
    requires i < |MaskedChars|
  {
    [TokenTag] + Pack16(order, 257 + i)
  }

  /** MASKED_TUPLES */
  function MaskedTuples(order: ByteOrder): seq<(string, seq<byte>)>
  {
    seq(|MaskedChars|, i requires 0 <= i < |MaskedChars| => (Escape(i), Token(order, i)))
  }

  /** The pairs `(k, v) for k, v in MASKED_TUPLES` that `_left_mask` turns
      into a dictionary. */
  function LeftPairs(order: ByteOrder): (ps: seq<(PyObj, PyObj)>)
    ensures |ps| == 4
    ensures forall i :: 0 <= i < 4 ==> ps[i] == (Str(Escape(i)), Bytes(Token(order, i)))
  {
    var tuples := MaskedTuples(order);
    seq(|tuples|, i requires 0 <= i < |tuples| => (Str(tuples[i].0), Bytes(tuples[i].1)))
  }

  /** The pairs `(v, k) for k, v in MASKED_TUPLES` that `_right_mask` turns
      into a dictionary. */
  function RightPairs(order: ByteOrder): (ps: seq<(PyObj, PyObj)>)
    ensures |ps| == 4
    ensures forall i :: 0 <= i < 4 ==> ps[i] == (Bytes(Token(order, i)), Str(Escape(i)))
  {
    var tuples := MaskedTuples(order);
    seq(|tuples|, i requires 0 <= i < |tuples| => (Bytes(tuples[i].1), Str(tuples[i].0)))
  }

  /** The dictionary `_left_mask` builds: `{k: v for k, v in MASKED_TUPLES}`. */
  function LeftTable(order: ByteOrder): map<PyObj, PyObj>
  {
    Collect(LeftPairs(order))
  }

  /** The dictionary `_right_mask` builds: `{v: k for k, v in MASKED_TUPLES}`. */
  function RightTable(order: ByteOrder): map<PyObj, PyObj>
  {
    Collect(RightPairs(order))
  }

  /** The four escapes are distinct. */
  lemma EscapesDistinct()
    ensures forall i, j :: 0 <= i < j < 4 ==> Escape(i) != Escape(j)
  {
    forall i, j | 0 <= i < j < 4 ensures Escape(i) != Escape(j) {
      assert Escape(i)[1] != Escape(j)[1];
    }
  }

  /** Each token is byte 27 followed by its code, packed in `order`. */
  lemma TokenShape(order: ByteOrder, i: nat)
    requires i < 4
    ensures |Token(order, i)| == 3 && Token(order, i)[0] == 27
    ensures Unpack16(order, Token(order, i)[1..]) == 257 + i
  {
    assert Token(order, i)[1..] == Pack16(order, 257 + i);
  }

  /** The four tokens are distinct, in either byte order. */
  lemma TokensDistinct(order: ByteOrder)
    ensures forall i, j :: 0 <= i < j < 4 ==> Token(order, i) != Token(order, j)
  {
    forall i, j | 0 <= i < j < 4 ensures Token(order, i) != Token(order, j) {
      TokenShape(order, i);
      TokenShape(order, j);
    }
  }

  /** The escapes are four distinct two-character strings starting with a
      backslash; the tokens are four distinct three-byte strings starting
      with byte 27 and carrying the 16-bit codes 257..260, in either byte
      order. */
  lemma MaskedTuplesShape(order: ByteOrder)
    ensures |MaskedTuples(order)| == 4
    ensures forall i :: 0 <= i < 4 ==> MaskedTuples(order)[i] == (Escape(i), Token(order, i))
    ensures forall i :: 0 <= i < 4 ==>
      |Escape(i)| == 2 && Escape(i)[0] == '\\' && Escape(i)[1] == MaskedChars[i]
    ensures forall i :: 0 <= i < 4 ==>
      |Token(order, i)| == 3 && Token(order, i)[0] == 27
      && Unpack16(order, Token(order, i)[1..]) == 257 + i
    ensures forall i, j :: 0 <= i < j < 4 ==> Escape(i) != Escape(j) && Token(order, i) != Token(order, j)
  {
    forall i | 0 <= i < 4
      ensures |Token(order, i)| == 3 && Token(order, i)[0] == 27
      ensures Unpack16(order, Token(order, i)[1..]) == 257 + i
    {
      TokenShape(order, i);
    }
    EscapesDistinct();
    TokensDistinct(order);
  }

  /** The left table holds exactly the four escapes, each mapped to its
      token. */
  lemma LeftTableContents(order: ByteOrder)
    ensures forall x :: x in LeftTable(order) <==> exists i :: 0 <= i < 4 && x == Str(Escape(i))
    ensures forall i :: 0 <= i < 4 ==>
      Str(Escape(i)) in LeftTable(order) && LeftTable(order)[Str(Escape(i))] == Bytes(Token(order, i))
  {
    var ps := LeftPairs(order);
    EscapesDistinct();
    forall i, j | 0 <= i < j < |ps| ensures ps[i].0 != ps[j].0 {
    }
    CollectDistinct(ps);
    forall x ensures x in LeftTable(order) <==> exists i :: 0 <= i < 4 && x == Str(Escape(i)) {
      if exists i :: 0 <= i < 4 && x == Str(Escape(i)) {
        var i :| 0 <= i < 4 && x == Str(Escape(i));
        assert ps[i].0 == x;
      }
    }
  }

  /** The right table holds exactly the four tokens, each mapped back to its
      escape. */
  lemma RightTableContents(order: ByteOrder)
    ensures forall y :: y in RightTable(order) <==> exists i :: 0 <= i < 4 && y == Bytes(Token(order, i))
    ensures forall i :: 0 <= i < 4 ==>
      Bytes(Token(order, i)) in RightTable(order) && RightTable(order)[Bytes(Token(order, i))] == Str(Escape(i))
  {
    var ps := RightPairs(order);
    TokensDistinct(order);
    forall i, j | 0 <= i < j < |ps| ensures ps[i].0 != ps[j].0 {
    }
    CollectDistinct(ps);
    forall y ensures y in RightTable(order) <==> exists i :: 0 <= i < 4 && y == Bytes(Token(order, i)) {
      if exists i :: 0 <= i < 4 && y == Bytes(Token(order, i)) {
        var i :| 0 <= i < 4 && y == Bytes(Token(order, i));
        assert ps[i].0 == y;
      }
    }
  }

  /** The two tables are mutual inverses. The right table maps a token back
      to the two-character escape, not to the bare character. */
  lemma TablesInverse(order: ByteOrder)
    ensures forall x :: x in LeftTable(order) ==>
      LeftTable(order)[x] in RightTable(order) && RightTable(order)[LeftTable(order)[x]] == x
    ensures forall y :: y in RightTable(order) ==>
      RightTable(order)[y] in LeftTable(order) && LeftTable(order)[RightTable(order)[y]] == y
    ensures forall i :: 0 <= i < 4 ==> RightTable(order)[Bytes(Token(order, i))] != Str([MaskedChars[i]])
  {
    LeftTableContents(order);
    RightTableContents(order);
    forall x | x in LeftTable(order)
      ensures LeftTable(order)[x] in RightTable(order) && RightTable(order)[LeftTable(order)[x]] == x
    {
      var i :| 0 <= i < 4 && x == Str(Escape(i));
    }
    forall y | y in RightTable(order)
      ensures RightTable(order)[y] in LeftTable(order) && LeftTable(order)[RightTable(order)[y]] == y
    {
      var i :| 0 <= i < 4 && y == Bytes(Token(order, i));
    }
    forall i | 0 <= i < 4 ensures RightTable(order)[Bytes(Token(order, i))] != Str([MaskedChars[i]]) {
      assert |Escape(i)| == 2;
    }
  }

  // ---------------------------------------------------------------------
  // The two substitution passes
  // ---------------------------------------------------------------------

  /** The two patterns passed to `re.sub`. */
  datatype Pattern =
    | EscapeRun   // `\[&+%\]`, over the whole raw text (core.py:79)
    | TokenText   // `\\e.{2}`, with '.' matching newlines, over each value (core.py:71)

  /** The texts a pattern matches, as a whole. */
  predicate Matches(p: Pattern, m: string)
  {
    match p
    case EscapeRun =>
      |m| >= 4 && m[0] == '[' && (forall k :: 1 <= k < |m| - 2 ==> m[k] == '&')
      && m[|m| - 2] == '%' && m[|m| - 1] == ']'
    case TokenText =>
      |m| == 4 && m[0] == '\\' && m[1] == 'e'
  }

  /** Where a match of `p` that starts at `i` ends, if one does. */
  function MatchAt(p: Pattern, s: string, i: nat): (r: Option<nat>)
    requires i <= |s|
    ensures r.Some? ==> i < r.value <= |s|
  {
    match p
    case EscapeRun =>
      if i < |s| && s[i] == '[' then
        var a := RunEnd(s, i + 1, Amp);
        if a > i + 1 && a + 1 < |s| && s[a] == '%' && s[a + 1] == ']' then
          Some(a + 2)
        else None
      else None
    case TokenText =>
      if i + 4 <= |s| && s[i] == '\\' && s[i + 1] == 'e' then Some(i + 4) else None
  }

  /** `MatchAt` finds exactly the matches that start at `i`. */
  lemma MatchAtSpec(p: Pattern, s: string, i: nat, e: nat)
    requires i < e <= |s|
    ensures MatchAt(p, s, i) == Some(e) <==> Matches(p, s[i..e])
  {
    var m := s[i..e];
    if p == EscapeRun && Matches(p, m) {
      forall k | i + 1 <= k < e - 2 ensures s[k] == '&' {
        assert s[k] == m[k - i];
      }
      assert s[e - 2] == m[|m| - 2];
      assert RunEnd(s, i + 1, Amp) == e - 2;
    }
  }

  /** Some part of `s[i..]` matches `p`. */
  predicate ContainsMatchFrom(p: Pattern, s: string, i: nat)
  {
    exists q, e :: i <= q < e <= |s| && Matches(p, s[q..e])
  }

  predicate ContainsMatch(p: Pattern, s: string)
  {
    ContainsMatchFrom(p, s, 0)
  }

  /** The dictionary the callback for `p` looks its match up in. */
  function Table(p: Pattern, order: ByteOrder): map<PyObj, PyObj>
  {
    match p
    case EscapeRun => LeftTable(order)
    case TokenText => RightTable(order)
  }

  /** The callback (`_left_mask` or `_right_mask`) followed by `re.sub`'s use
      of its result: `_map[match.group(0)]` raises when the matched `str` is
      not a key, and a replacement that is not a `str` raises as well. */
  function Replacement(p: Pattern, order: ByteOrder, m: string): Result<string>
  {
    var found: Option<PyObj> := Get(Table(p, order), Str(m));
    match found
    case None => Raised
    case Some(Str(t)) => Ok(t)
    case Some(Bytes(_)) => Raised
  }

  /** No text either pattern matches is a key of its callback's table, so
      every callback call raises. */
  lemma ReplacementRaises(p: Pattern, order: ByteOrder, m: string)
    requires Matches(p, m)
    ensures Replacement(p, order, m) == Raised
  {
    if p == EscapeRun {
      LeftTableContents(order);
      forall i | 0 <= i < 4 ensures Str(m) != Str(Escape(i)) {
        assert Escape(i)[0] != m[0];
      }
    } else {
      RightTableContents(order);
    }
  }

  /** `re.sub(pattern, callback, s[i..])`: the text is scanned left to right;
      each match is replaced by the callback's result, the text between
      matches is copied. */
  function Sub(p: Pattern, order: ByteOrder, s: string, i: nat): Result<string>
    requires i <= |s|
    decreases |s| - i
  {
    if i == |s| then Ok([])
    else
      match MatchAt(p, s, i)
      case Some(e) =>
        (match Replacement(p, order, s[i..e])
         case Raised => Raised
         case Ok(t) =>
           match Sub(p, order, s, e)
           case Raised => Raised
           case Ok(rest) => Ok(t + rest))
      case None =>
        match Sub(p, order, s, i + 1)
        case Raised => Raised
        case Ok(rest) => Ok([s[i]] + rest)
  }

  /** A substitution pass raises exactly when the pattern occurs in the text,
      and otherwise returns the text unchanged. */
  lemma {:induction false} SubIdentityOrRaise(p: Pattern, order: ByteOrder, s: string, i: nat)
    requires i <= |s|
    ensures Sub(p, order, s, i) == if ContainsMatchFrom(p, s, i) then Raised else Ok(s[i..])
    decreases |s| - i
  {
    if i < |s| {
      match MatchAt(p, s, i)
      case Some(e) =>
        MatchAtSpec(p, s, i, e);
        ReplacementRaises(p, order, s[i..e]);
      case None =>
        SubIdentityOrRaise(p, order, s, i + 1);
        if ContainsMatchFrom(p, s, i) {
          var q, e :| i <= q < e <= |s| && Matches(p, s[q..e]);
          if q == i {
            MatchAtSpec(p, s, i, e);
          }
          assert ContainsMatchFrom(p, s, i + 1);
        }
        assert [s[i]] + s[i + 1..] == s[i..];
    }
  }

  /** `re.sub(r'\[&+%\]', _left_mask, raw)` (core.py:79): raises when the raw
      text holds '[', one or more '&', then "%]"; otherwise leaves it as it
      is, so the escapes `\&`, `\+`, `\%` and `\\` are not masked. */
  function MaskPass(order: ByteOrder, raw: string): (r: Result<string>)
    ensures r == if ContainsMatch(EscapeRun, raw) then Raised else Ok(raw)
  {
    SubIdentityOrRaise(EscapeRun, order, raw, 0);
    Sub(EscapeRun, order, raw, 0)
  }

  /** `re.sub(r'\\e.{2}', _right_mask, value, flags=re.S)` (core.py:70-74):
      raises when the value holds a backslash, 'e' and two more characters;
      otherwise leaves it as it is. */
  function UnmaskPass(order: ByteOrder, value: string): (r: Result<string>)
    ensures r == if ContainsMatch(TokenText, value) then Raised else Ok(value)
  {
    SubIdentityOrRaise(TokenText, order, value, 0);
    Sub(TokenText, order, value, 0)
  }
}
