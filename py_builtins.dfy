/**
 * The few Python built-ins the gadget engine relies on, with the semantics
 * of CPython: `str.strip()`, `str.join`, slicing `s[a:b]`, `range(a, b, k)`
 * with a positive step, and the format specification `#08x`.
 */
module PyBuiltins {
  import opened Wrappers

  // ---------------------------------------------------------------------
  // str.strip()
  // ---------------------------------------------------------------------

  /** `c.isspace()` for a Python `str` character. */
  predicate IsSpace(c: char) {
    c == ' ' || ('\t' <= c <= '\r') || ('\U{1c}' <= c <= '\U{1f}')
    || c == '\U{85}' || c == '\U{a0}' || c == '\U{1680}'
    || ('\U{2000}' <= c <= '\U{200a}') || c == '\U{2028}' || c == '\U{2029}'
    || c == '\U{202f}' || c == '\U{205f}' || c == '\U{3000}'
  }

  predicate AllSpace(s: string) {
    forall k :: 0 <= k < |s| ==> IsSpace(s[k])
  }

  /** Neither the first nor the last character is whitespace. */
  predicate Trimmed(s: string) {
    s == [] || (!IsSpace(s[0]) && !IsSpace(s[|s| - 1]))
  }

  /** `s.lstrip()` */
  function StripLeft(s: string): string
    decreases |s|
  {
    if |s| > 0 && IsSpace(s[0]) then StripLeft(s[1..]) else s
  }

  /** `s.rstrip()` */
  function StripRight(s: string): string
    decreases |s|
  {
    if |s| > 0 && IsSpace(s[|s| - 1]) then StripRight(s[..|s| - 1]) else s
  }

  /** `s.strip()` */
  function Strip(s: string): string {
    StripRight(StripLeft(s))
  }

  /** `lstrip` removes a whitespace prefix and stops at the first other character. */
  lemma {:induction false} StripLeftSpec(s: string)
    ensures |StripLeft(s)| <= |s| && StripLeft(s) == s[|s| - |StripLeft(s)|..]
    ensures AllSpace(s[..|s| - |StripLeft(s)|])
    ensures StripLeft(s) == [] || !IsSpace(StripLeft(s)[0])
    decreases |s|
  {
    if |s| > 0 && IsSpace(s[0]) {
      var t := s[1..];
      StripLeftSpec(t);
      var r := StripLeft(t);
      assert StripLeft(s) == r;
      assert s[|s| - |r|..] == t[|t| - |r|..];
      assert s[..|s| - |r|] == [s[0]] + t[..|t| - |r|];
    } else {
      assert StripLeft(s) == s;
    }
  }

  /** `rstrip` removes a whitespace suffix and stops at the last other character. */
  lemma {:induction false} StripRightSpec(s: string)
    ensures |StripRight(s)| <= |s| && StripRight(s) == s[..|StripRight(s)|]
    ensures AllSpace(s[|StripRight(s)|..])
    ensures StripRight(s) == [] || !IsSpace(StripRight(s)[|StripRight(s)| - 1])
    decreases |s|
  {
    if |s| > 0 && IsSpace(s[|s| - 1]) {
      var t := s[..|s| - 1];
      StripRightSpec(t);
      var r := StripRight(t);
      assert StripRight(s) == r;
      assert s[..|r|] == t[..|r|];
      assert s[|r|..] == t[|r|..] + [s[|s| - 1]];
    } else {
      assert StripRight(s) == s;
    }
  }

  /**
   * `s.strip()` is `s` with its leading and trailing whitespace removed,
   * which determines it uniquely: the result is trimmed, lies in `s` between
   * two all-whitespace parts, and is `s` itself when `s` is trimmed.
   */
  lemma StripSpec(s: string)
    ensures Trimmed(Strip(s))
    ensures exists a :: 0 <= a && a + |Strip(s)| <= |s| && s[a..a + |Strip(s)|] == Strip(s)
                      && AllSpace(s[..a]) && AllSpace(s[a + |Strip(s)|..])
    ensures Trimmed(s) ==> Strip(s) == s
  {
    var l := StripLeft(s);
    var r := StripRight(l);
    StripLeftSpec(s);
    StripRightSpec(l);
    var a := |s| - |l|;
    assert s[a..a + |r|] == r;
    assert s[a + |r|..] == l[|r|..];
    assert r != [] ==> r[0] == l[0];
    if Trimmed(s) && s != [] {
      assert l == s;
      assert r == s;
    }
  }

  // ---------------------------------------------------------------------
  // str.join
  // ---------------------------------------------------------------------

  /** `sep.join(xs)` */
  function Join(sep: string, xs: seq<string>): string
  {
    if |xs| == 0 then ""
    else if |xs| == 1 then xs[0]
    else xs[0] + sep + Join(sep, xs[1..])
  }

  /** The total length of the strings of `xs`. */
  function TotalLength(xs: seq<string>): nat {
    if xs == [] then 0 else |xs[0]| + TotalLength(xs[1..])
  }

  /** The joined text holds every item and one separator between each two neighbours. */
  lemma {:induction false} JoinLength(sep: string, xs: seq<string>)
    ensures xs == [] ==> Join(sep, xs) == ""
    ensures xs != [] ==> |Join(sep, xs)| == TotalLength(xs) + |sep| * (|xs| - 1)
    decreases |xs|
  {
    if |xs| > 1 {
      JoinLength(sep, xs[1..]);
      MulShift(|xs| - 1, |sep|);
    }
  }

  /** Joining one more item appends a separator and the item. */
  lemma {:induction false} JoinSnoc(sep: string, xs: seq<string>, y: string)
    requires xs != []
    ensures Join(sep, xs + [y]) == Join(sep, xs) + sep + y
    decreases |xs|
  {
    var ys := xs + [y];
    assert ys[0] == xs[0] && ys[1..] == xs[1..] + [y];
    if |xs| == 1 {
      assert ys[1..] == [y];
    } else {
      JoinSnoc(sep, xs[1..], y);
    }
  }

  // ---------------------------------------------------------------------
  // Slicing
  // ---------------------------------------------------------------------

  /** How a slice bound `x` is normalised against a sequence of length `n`. */
  function SliceBound(x: int, n: nat): (r: nat)
    ensures r <= n
  {
    if x < 0 then (if x + n < 0 then 0 else x + n)
    else if x > n then n
    else x
  }

  /** `s[a:b]`: negative bounds count from the end, bounds past the end are clamped. */
  function Slice<T>(s: seq<T>, a: int, b: int): seq<T>
  {
    var lo := SliceBound(a, |s|);
    var hi := SliceBound(b, |s|);
    if lo < hi then s[lo..hi] else []
  }

  /**
   * A window `s[i:i+w]` at a non-negative offset is the part of `s[i..i+w]`
   * that exists: shorter (possibly empty) when it runs past the end, never an error.
   */
  lemma SliceWindow<T>(s: seq<T>, i: int, w: nat)
    requires 0 <= i
    ensures var r := Slice(s, i, i + w);
            && |r| <= w
            && (i + w <= |s| ==> r == s[i..i + w])
            && (i <= |s| < i + w ==> r == s[i..])
            && (|s| <= i ==> r == [])
  {
  }

  // ---------------------------------------------------------------------
  // range(a, stop, k) for k > 0
  // ---------------------------------------------------------------------

  /** `list(range(a, stop, k))` for a positive step `k`. */
  function Range(a: int, stop: int, k: nat): seq<int>
    requires k > 0
    decreases stop - a
  {
    if a >= stop then [] else [a] + Range(a + k, stop, k)
  }

  /**
   * The elements of `range(a, stop, k)` are exactly `a, a+k, a+2k, ...` while
   * below `stop`: the j-th is `a + j*k`, all are below `stop`, the next one
   * would not be, and they are strictly increasing.
   */
  lemma {:induction false} RangeElements(a: int, stop: int, k: nat)
    requires k > 0
    ensures var r := Range(a, stop, k);
            && (forall j :: 0 <= j < |r| ==> r[j] == a + j * k && a <= r[j] < stop)
            && a + |r| * k >= stop
            && (forall j, l :: 0 <= j < l < |r| ==> r[j] < r[l])
    decreases stop - a
  {
    var r := Range(a, stop, k);
    if a < stop {
      var t := Range(a + k, stop, k);
      RangeElements(a + k, stop, k);
      assert r == [a] + t;
      forall j | 0 < j < |r|
        ensures r[j] == a + j * k
      {
        assert r[j] == t[j - 1];
        MulShift(j, k);
      }
      MulShift(|r|, k);
    }
  }

  lemma MulShift(j: int, k: int)
    ensures k + (j - 1) * k == j * k
  {
  }

  // ---------------------------------------------------------------------
  // f"{n:#08x}"
  // ---------------------------------------------------------------------

  function HexDigit(d: nat): (c: char)
    requires d < 16
  {
    "0123456789abcdef"[d]
  }

  /** The value of a lower-case hexadecimal digit; `None` for any other character. */
  function HexValue(c: char): (r: Option<nat>)
    ensures r.Some? ==> r.value < 16
  {
    if '0' <= c <= '9' then Some(c as int - '0' as int)
    else if 'a' <= c <= 'f' then Some(c as int - 'a' as int + 10)
    else None
  }

  /** `format(n, "x")` for `n >= 0`: lower-case hexadecimal, no leading zeros. */
  function HexDigits(n: nat): (r: string)
    ensures |r| > 0
    decreases n
  {
    if n < 16 then [HexDigit(n)] else HexDigits(n / 16) + [HexDigit(n % 16)]
  }

  /** `int(s, 16)` restricted to lower-case digits; the empty string reads as 0. */
  function ParseHex(s: string): Option<nat>
  {
    if s == [] then Some(0)
    else match ParseHex(s[..|s| - 1])
      case None => None
      case Some(v) =>
        match HexValue(s[|s| - 1])
        case None => None
        case Some(d) => Some(v * 16 + d)
  }

  function Zeros(n: nat): (r: string)
    ensures |r| == n
  {
    if n == 0 then "" else Zeros(n - 1) + "0"
  }

  /**
   * `f"{n:#08x}"`: a sign for negative numbers, then `0x`, then zeros, then the
   * hexadecimal digits of `|n|`; the width 8 counts the sign and the `0x`.
   */
  function FormatHex08(n: int): string
  {
    var digits := HexDigits(if n < 0 then -n else n);
    var sign := if n < 0 then "-" else "";
    var pad := if |sign| + 2 + |digits| < 8 then 8 - |sign| - 2 - |digits| else 0;
    sign + "0x" + Zeros(pad) + digits
  }

  /** Reads back a number written by `FormatHex08`. */
  function ParseFormatted(s: string): Option<int>
  {
    if |s| >= 3 && s[..3] == "-0x" then
      match ParseHex(s[3..])
      case None => None
      case Some(v) => Some(-(v as int))
    else if |s| >= 2 && s[..2] == "0x" then
      match ParseHex(s[2..])
      case None => None
      case Some(v) => Some(v)
    else None
  }

  lemma {:induction false} ParseHexDigits(n: nat)
    ensures ParseHex(HexDigits(n)) == Some(n)
    decreases n
  {
    var s := HexDigits(n);
    if n < 16 {
      assert s[..|s| - 1] == [];
      HexDigitValue(n);
    } else {
      ParseHexDigits(n / 16);
      assert s[..|s| - 1] == HexDigits(n / 16);
      HexDigitValue(n % 16);
      assert s[|s| - 1] == HexDigit(n % 16);
      assert (n / 16) * 16 + n % 16 == n;
    }
  }

  lemma HexDigitValue(d: nat)
    requires d < 16
    ensures HexValue(HexDigit(d)) == Some(d)
  {
  }

  lemma {:induction false} ParseHexLeadingZeros(k: nat, s: string)
    ensures ParseHex(Zeros(k) + s) == ParseHex(s)
    decreases |s|, k
  {
    if s == [] {
      assert Zeros(k) + s == Zeros(k);
      if k > 0 {
        ParseHexLeadingZeros(k - 1, s);
        assert Zeros(k)[..k - 1] == Zeros(k - 1) + s;
      }
    } else {
      var t := Zeros(k) + s;
      ParseHexLeadingZeros(k, s[..|s| - 1]);
      assert t[..|t| - 1] == Zeros(k) + s[..|s| - 1];
      assert t[|t| - 1] == s[|s| - 1];
    }
  }

  /** The digits part of `FormatHex08(n)`: zeros, then the digits of `|n|`. */
  lemma FormatHex08Shape(n: int)
    ensures var m: nat := if n < 0 then -n else n;
            var sign := if n < 0 then "-0x" else "0x";
            var pad := if |sign| + |HexDigits(m)| < 8 then 8 - |sign| - |HexDigits(m)| else 0;
            FormatHex08(n) == sign + (Zeros(pad) + HexDigits(m))
  {
  }

  lemma ParseFormattedNonNegative(rest: string, v: nat)
    requires ParseHex(rest) == Some(v)
    ensures ParseFormatted("0x" + rest) == Some(v)
  {
    var f := "0x" + rest;
    assert f[..2] == "0x" && f[2..] == rest;
    assert f[0] == '0';
  }

  lemma ParseFormattedNegative(rest: string, v: nat)
    requires ParseHex(rest) == Some(v)
    ensures ParseFormatted("-0x" + rest) == Some(-(v as int))
  {
    var f := "-0x" + rest;
    assert f[..3] == "-0x" && f[3..] == rest;
  }

  /**
   * The report's address column is at least 8 characters wide, starts with
   * `0x` (after a `-` for a negative number) and reads back as the number.
   */
  lemma FormatHex08RoundTrip(n: int)
    ensures |FormatHex08(n)| >= 8
    ensures n >= 0 ==> FormatHex08(n)[..2] == "0x"
    ensures n < 0 ==> FormatHex08(n)[..3] == "-0x"
    ensures ParseFormatted(FormatHex08(n)) == Some(n)
  {
    var m: nat := if n < 0 then -n else n;
    var digits := HexDigits(m);
    var sign := if n < 0 then "-0x" else "0x";
    var pad := if |sign| + |digits| < 8 then 8 - |sign| - |digits| else 0;
    var rest := Zeros(pad) + digits;
    FormatHex08Shape(n);
    assert FormatHex08(n) == sign + rest;
    ParseHexDigits(m);
    ParseHexLeadingZeros(pad, digits);
    if n < 0 {
      ParseFormattedNegative(rest, m);
    } else {
      ParseFormattedNonNegative(rest, m);
    }
  }
}
