/** Token-level text handling used by the graph file reader: splitting a line
    on single spaces, reading an unsigned machine integer the way Rust's
    `usize::from_str` does, rendering a natural number in decimal, and the
    syntax of a floating-point literal accepted by `f64::from_str` (the value
    of a coordinate is not modelled, only whether it is well formed). */
module Lexing {

  import opened Wrappers

  /** Largest value of a 64-bit `usize`. */
  const USIZE_MAX: nat := 0xFFFF_FFFF_FFFF_FFFF

  /** Largest value of an `i64`. */
  const I64_MAX: nat := 0x7FFF_FFFF_FFFF_FFFF

  type usize = n: nat | n <= USIZE_MAX

  // ---------------------------------------------------------------------
  // Splitting on a separator (`str::split(" ")`)
  // ---------------------------------------------------------------------

  /** The pieces of `s` between occurrences of `sep`; like `str::split` with a
      one-character pattern, an empty string yields one empty piece and two
      adjacent separators yield an empty piece between them. */
  function SplitOn(s: string, sep: char): (r: seq<string>)
    ensures |r| >= 1
    ensures forall i :: 0 <= i < |r| ==> sep !in r[i]
    decreases |s|
  {
    if |s| == 0 then [""]
    else
      var rest := SplitOn(s[1..], sep);
      if s[0] == sep then [""] + rest
      else [[s[0]] + rest[0]] + rest[1..]
  }

  /** The inverse of `SplitOn`: the pieces glued back with `sep` between them. */
  function JoinOn(pieces: seq<string>, sep: char): string
    requires |pieces| >= 1
  {
    if |pieces| == 1 then pieces[0]
    else pieces[0] + [sep] + JoinOn(pieces[1..], sep)
  }

  /** Splitting loses nothing: gluing the pieces back gives the line. */
  lemma {:induction false} JoinSplit(s: string, sep: char)
    ensures JoinOn(SplitOn(s, sep), sep) == s
    decreases |s|
  {
    if |s| > 0 {
      JoinSplit(s[1..], sep);
      var rest := SplitOn(s[1..], sep);
      if s[0] != sep {
        if |rest| == 1 {
          assert s == [s[0]] + s[1..];
        } else {
          assert JoinOn(rest, sep) == rest[0] + [sep] + JoinOn(rest[1..], sep);
          assert s == [s[0]] + s[1..];
        }
      } else {
        assert s == [sep] + s[1..];
      }
    }
  }

  /** Splitting a glued sequence of separator-free pieces gives the pieces back. */
  lemma {:induction false} SplitJoin(pieces: seq<string>, sep: char)
    requires |pieces| >= 1
    requires forall i :: 0 <= i < |pieces| ==> sep !in pieces[i]
    ensures SplitOn(JoinOn(pieces, sep), sep) == pieces
    decreases |pieces|, |pieces[0]|
  {
    var p := pieces[0];
    if |pieces| == 1 {
      SplitNoSep(p, sep);
    } else if |p| == 0 {
      var tail := JoinOn(pieces[1..], sep);
      assert JoinOn(pieces, sep) == [sep] + tail;
      assert ([sep] + tail)[1..] == tail;
      SplitJoin(pieces[1..], sep);
      assert pieces == [""] + pieces[1..];
    } else {
      var shorter := [p[1..]] + pieces[1..];
      assert forall i :: 0 <= i < |shorter| ==> sep !in shorter[i] by {
        forall i | 0 <= i < |shorter|
          ensures sep !in shorter[i]
        {
          if i == 0 {
            assert forall k :: 0 <= k < |p[1..]| ==> p[1..][k] == p[k + 1];
          } else {
            assert shorter[i] == pieces[i];
          }
        }
      }
      SplitJoin(shorter, sep);
      assert JoinOn(shorter, sep) == p[1..] + [sep] + JoinOn(pieces[1..], sep);
      var whole := JoinOn(pieces, sep);
      assert whole == p + [sep] + JoinOn(pieces[1..], sep);
      assert whole[0] == p[0];
      assert whole[1..] == JoinOn(shorter, sep);
      assert p == [p[0]] + p[1..];
    }
  }

  lemma {:induction false} SplitNoSep(s: string, sep: char)
    requires sep !in s
    ensures SplitOn(s, sep) == [s]
    decreases |s|
  {
    if |s| > 0 {
      assert sep !in s[1..] by {
        assert forall k :: 0 <= k < |s[1..]| ==> s[1..][k] == s[k + 1];
      }
      SplitNoSep(s[1..], sep);
      assert s == [s[0]] + s[1..];
    }
  }

  // ---------------------------------------------------------------------
  // Unsigned integers (`usize::from_str`) and their decimal rendering
  // ---------------------------------------------------------------------

  predicate IsDigit(c: char) {
    '0' <= c <= '9'
  }

  predicate AllDigits(s: string) {
    forall i :: 0 <= i < |s| ==> IsDigit(s[i])
  }

  function DigitValue(c: char): nat
    requires IsDigit(c)
  {
    c as nat - '0' as nat
  }

  function DigitChar(d: nat): (c: char)
    requires d < 10
    ensures IsDigit(c) && DigitValue(c) == d
  {
    (('0' as nat) + d) as char
  }

  /** The value of a string of decimal digits, most significant first. */
  function DigitsValue(s: string): nat
    requires AllDigits(s)
  {
    if |s| == 0 then 0 else DigitsValue(s[..|s| - 1]) * 10 + DigitValue(s[|s| - 1])
  }

  /** The part of an integer literal after an optional leading `+`. */
  function UnsignedDigits(s: string): string {
    if |s| > 0 && s[0] == '+' then s[1..] else s
  }

  /** `usize::from_str`: an optional `+`, then at least one ASCII digit, and a
      value that fits in 64 bits; anything else (empty, a sign alone, a `-`,
      a space, an overflow) is a parse error, here `None`. */
  function ParseUsize(s: string): (r: Option<usize>)
    ensures r.Some? ==> |UnsignedDigits(s)| > 0 && AllDigits(UnsignedDigits(s))
    ensures r.Some? ==> r.value == DigitsValue(UnsignedDigits(s))
    ensures (|UnsignedDigits(s)| > 0 && AllDigits(UnsignedDigits(s))
             && DigitsValue(UnsignedDigits(s)) <= USIZE_MAX) ==> r.Some?
  {
    var digits := UnsignedDigits(s);
    if |digits| == 0 || !AllDigits(digits) then None
    else if DigitsValue(digits) > USIZE_MAX then None
    else Some(DigitsValue(digits))
  }

  /** The shortest decimal rendering of `n` (no sign, no leading zero). */
  function NatToString(n: nat): (s: string)
    ensures |s| > 0 && AllDigits(s)
    ensures s[0] != '+' && s[0] != '#' && ' ' !in s
  {
    if n < 10 then [DigitChar(n)] else NatToString(n / 10) + [DigitChar(n % 10)]
  }

  /** Reading a rendered number gives the number back. */
  lemma {:induction false} DecimalRoundTrip(n: nat)
    ensures DigitsValue(NatToString(n)) == n
  {
    if n >= 10 {
      DecimalRoundTrip(n / 10);
      var s := NatToString(n);
      assert s[..|s| - 1] == NatToString(n / 10);
    }
  }

  /** `usize::from_str` accepts what `NatToString` renders, for every `usize`. */
  lemma ParseRendered(n: usize)
    ensures ParseUsize(NatToString(n)) == Some(n)
  {
    DecimalRoundTrip(n);
  }

  // ---------------------------------------------------------------------
  // Floating-point literal syntax (`f64::from_str`)
  // ---------------------------------------------------------------------

  function LowerAscii(s: string): (r: string)
    ensures |r| == |s|
  {
    if |s| == 0 then []
    else [if 'A' <= s[0] <= 'Z' then (s[0] as int + 32) as char else s[0]] + LowerAscii(s[1..])
  }

  /** The index of the first occurrence of `c` or `d` in `s`. */
  function IndexOfEither(s: string, c: char, d: char): (r: Option<nat>)
    ensures r.Some? ==> r.value < |s| && (s[r.value] == c || s[r.value] == d)
    ensures r.Some? ==> forall k :: 0 <= k < r.value ==> s[k] != c && s[k] != d
    ensures r.None? ==> forall k :: 0 <= k < |s| ==> s[k] != c && s[k] != d
  {
    if |s| == 0 then None
    else if s[0] == c || s[0] == d then Some(0)
    else match IndexOfEither(s[1..], c, d)
      case None => None
      case Some(k) => Some(k + 1)
  }

  /** Digits, optionally with one `.`, and at least one digit overall. */
  predicate IsMantissa(m: string) {
    match IndexOfEither(m, '.', '.')
    case None => |m| > 0 && AllDigits(m)
    case Some(k) => AllDigits(m[..k]) && AllDigits(m[k + 1..]) && |m| > 1
  }

  /** An optional sign followed by at least one digit. */
  predicate IsExponent(x: string) {
    var digits := if |x| > 0 && (x[0] == '+' || x[0] == '-') then x[1..] else x;
    |digits| > 0 && AllDigits(digits)
  }

  /** A decimal number with an optional exponent introduced by `e` or `E`. */
  predicate IsDecimalNumber(b: string) {
    match IndexOfEither(b, 'e', 'E')
    case None => IsMantissa(b)
    case Some(k) => IsMantissa(b[..k]) && IsExponent(b[k + 1..])
  }

  /** The grammar `f64::from_str` accepts: an optional sign, then `inf`,
      `infinity` or `nan` in any letter case, or a decimal number. */
  predicate IsFloatLiteral(s: string) {
    var body := if |s| > 0 && (s[0] == '+' || s[0] == '-') then s[1..] else s;
    LowerAscii(body) in {"inf", "infinity", "nan"} || IsDecimalNumber(body)
  }
}
