/** Character classes, whitespace trimming and decimal numerals, as the
    regular expressions and string methods of core.py use them. */
module Text {

  /** The character classes the patterns and `strip()` of core.py are
      built from. */
  datatype CharClass =
    | Lower      // [a-z]
    | Digit      // \d, restricted to ASCII digits
    | Amp        // the literal '&'
    | Space      // what str.isspace accepts

  predicate InClass(c: char, cls: CharClass)
  {
    match cls
    case Lower => 'a' <= c <= 'z'
    case Digit => '0' <= c <= '9'
    case Amp => c == '&'
    case Space => IsSpace(c)
  }

  /** [1-9] */
  predicate IsNonZeroDigit(c: char)
  {
    '1' <= c <= '9'
  }

  /** \w, restricted to ASCII: a letter, a digit or the underscore. */
  predicate IsWordChar(c: char)
  {
    'a' <= c <= 'z' || 'A' <= c <= 'Z' || '0' <= c <= '9' || c == '_'
  }

  /** The characters Python's `str.isspace` accepts, which `str.strip()`
      removes. */
  predicate IsSpace(c: char)
  {
    '\t' <= c <= '\r' || '\U{1c}' <= c <= ' ' || c == '\U{85}' || c == '\U{a0}'
    || c == '\U{1680}' || '\U{2000}' <= c <= '\U{200a}' || c == '\U{2028}' || c == '\U{2029}'
    || c == '\U{202f}' || c == '\U{205f}' || c == '\U{3000}'
  }

  predicate AllIn(s: string, cls: CharClass)
  {
    forall i :: 0 <= i < |s| ==> InClass(s[i], cls)
  }

  predicate AllSpace(s: string)
  {
    forall i :: 0 <= i < |s| ==> IsSpace(s[i])
  }

  /** The end of the longest run of `cls` characters starting at `i`: the
      greedy repetition `cls*`. */
  function RunEnd(s: string, i: nat, cls: CharClass): (e: nat)
    requires i <= |s|
    ensures i <= e <= |s|
    ensures forall k :: i <= k < e ==> InClass(s[k], cls)
    ensures e == |s| || !InClass(s[e], cls)
    decreases |s| - i
  {
    if i < |s| && InClass(s[i], cls) then RunEnd(s, i + 1, cls) else i
  }

  /** A run of `cls` characters from `i` to `e` that cannot be extended is
      the one `RunEnd` finds. */
  lemma RunEndAt(s: string, i: nat, cls: CharClass, e: nat)
    requires i <= e <= |s|
    requires forall k :: i <= k < e ==> InClass(s[k], cls)
    requires e == |s| || !InClass(s[e], cls)
    ensures RunEnd(s, i, cls) == e
  {
  }

  /** The start of the longest run of `cls` characters that ends at `j` and
      does not reach below `lo`: the same scan, from the right. */
  function RunStart(s: string, lo: nat, j: nat, cls: CharClass): (b: nat)
    requires lo <= j <= |s|
    ensures lo <= b <= j
    ensures forall k :: b <= k < j ==> InClass(s[k], cls)
    ensures b == lo || !InClass(s[b - 1], cls)
    decreases j - lo
  {
    if lo < j && InClass(s[j - 1], cls) then RunStart(s, lo, j - 1, cls) else j
  }

  /** A run of `cls` characters from `b` to `j` that cannot be extended to
      the left within `lo` is the one `RunStart` finds. */
  lemma RunStartAt(s: string, lo: nat, j: nat, cls: CharClass, b: nat)
    requires lo <= b <= j <= |s|
    requires forall k :: b <= k < j ==> InClass(s[k], cls)
    requires b == lo || !InClass(s[b - 1], cls)
    ensures RunStart(s, lo, j, cls) == b
  {
  }

  predicate HasPrefix(s: string, p: string)
  {
    |p| <= |s| && s[..|p|] == p
  }

  // ---------------------------------------------------------------------
  // str.strip()
  // ---------------------------------------------------------------------

  /** No whitespace at either end. */
  predicate Trimmed(s: string)
  {
    s == [] || (!IsSpace(s[0]) && !IsSpace(s[|s| - 1]))
  }

  /** Where the stripped text starts: after the leading whitespace. */
  function StripStart(s: string): nat
  {
    RunEnd(s, 0, Space)
  }

  /** Where the stripped text ends: before the trailing whitespace, never
      before it starts. */
  function StripEnd(s: string): (hi: nat)
    ensures StripStart(s) <= hi <= |s|
  {
    RunStart(s, StripStart(s), |s|, Space)
  }

  /** `s.strip()`: the text between the leading and the trailing whitespace. */
  function Strip(s: string): (r: string)
    ensures Trimmed(r)
  {
    s[StripStart(s)..StripEnd(s)]
  }

  /** Strip removes exactly the surrounding whitespace and keeps the inside,
      interior whitespace included. */
  lemma StripExact(a: string, m: string, b: string)
    requires AllSpace(a) && AllSpace(b) && Trimmed(m)
    ensures Strip(a + m + b) == m
  {
    var t := a + m + b;
    if m == [] {
      forall k | 0 <= k < |t| ensures InClass(t[k], Space) {
        if k >= |a| { assert t[k] == b[k - |a|]; }
      }
      RunEndAt(t, 0, Space, |t|);
      assert t[|t|..|t|] == m;
    } else {
      forall k | 0 <= k < |a| ensures InClass(t[k], Space) {
        assert t[k] == a[k];
      }
      assert t[|a|] == m[0];
      RunEndAt(t, 0, Space, |a|);
      var hi := |a| + |m|;
      forall k | hi <= k < |t| ensures InClass(t[k], Space) {
        assert t[k] == b[k - hi];
      }
      assert t[hi - 1] == m[|m| - 1];
      RunStartAt(t, |a|, |t|, Space, hi);
      assert t[|a|..hi] == m;
    }
  }

  // ---------------------------------------------------------------------
  // Decimal numerals: str(int) and int(s, 10)
  // ---------------------------------------------------------------------

  /** [1-9]\d* : a positive integer written without leading zeros. */
  predicate CanonicalPositive(s: string)
  {
    |s| > 0 && IsNonZeroDigit(s[0]) && AllIn(s, Digit)
  }

  function DigitChar(d: nat): char
    requires d < 10
  {
    "0123456789"[d]
  }

  function DigitValue(c: char): nat
    requires '0' <= c <= '9'
  {
    (c as int - '0' as int) as nat
  }

  /** `str(n)` for a natural number. */
  function NatToDecimal(n: nat): (r: string)
    ensures |r| > 0 && AllIn(r, Digit)
    ensures n > 0 ==> IsNonZeroDigit(r[0])
  {
    if n < 10 then [DigitChar(n)] else NatToDecimal(n / 10) + [DigitChar(n % 10)]
  }

  /** `str(i)` for any integer: negative numbers carry a minus sign. */
  function IntToDecimal(i: int): string
  {
    if i < 0 then "-" + NatToDecimal(-i) else NatToDecimal(i)
  }

  /** `int(s, 10)` for a string of ASCII digits. */
  function DecimalValue(s: string): nat
    requires AllIn(s, Digit)
  {
    if s == [] then 0 else DecimalValue(s[..|s| - 1]) * 10 + DigitValue(s[|s| - 1])
  }

  /** str then int gives the number back, and str writes a positive number
      in canonical form. */
  lemma {:induction false} DecimalOfNat(n: nat)
    ensures DecimalValue(NatToDecimal(n)) == n
    ensures n > 0 ==> CanonicalPositive(NatToDecimal(n))
  {
    var r := NatToDecimal(n);
    if n >= 10 {
      DecimalOfNat(n / 10);
      assert r[..|r| - 1] == NatToDecimal(n / 10);
    }
  }

  /** Appending digit `d` to the numeral of `q` gives `q * 10 + d`, whose
      quotient and remainder by ten give `q` and `d` back. */
  lemma DigitAppended(q: nat, d: nat)
    requires q >= 1 && d < 10
    ensures (q * 10 + d) / 10 == q && (q * 10 + d) % 10 == d && q * 10 + d >= 10
  {
  }

  /** int then str gives a canonical numeral back, and its value is positive. */
  lemma {:induction false} NatOfDecimal(s: string)
    requires CanonicalPositive(s)
    ensures DecimalValue(s) >= 1
    ensures NatToDecimal(DecimalValue(s)) == s
  {
    if |s| > 1 {
      var t := s[..|s| - 1];
      assert CanonicalPositive(t) by {
        forall i | 0 <= i < |t| ensures InClass(t[i], Digit) {
          assert t[i] == s[i];
        }
      }
      NatOfDecimal(t);
      var d := DigitValue(s[|s| - 1]);
      assert DigitChar(d) == s[|s| - 1];
      var v := DecimalValue(s);
      assert v == DecimalValue(t) * 10 + d;
      DigitAppended(DecimalValue(t), d);
      assert NatToDecimal(v) == NatToDecimal(v / 10) + [DigitChar(v % 10)];
      assert s == t + [s[|s| - 1]];
    } else {
      assert DigitChar(DigitValue(s[0])) == s[0];
    }
  }
}
