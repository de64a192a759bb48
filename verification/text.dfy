/**
 * The few pieces of Rust's string library the core relies on: trimming a
 * repeated character, splitting on a separator, parsing an unsigned integer
 * (`from_str_radix`, `str::parse`) and the decimal formatting of `{}` and
 * `{:02}`.
 */
module Text {
  import opened Wrappers

  /** `str::trim_start_matches(c)`: drop every leading `c`. */
  function TrimStartMatches(s: string, c: char): (r: string)
    ensures |r| <= |s|
  {
    if s != [] && s[0] == c then TrimStartMatches(s[1..], c) else s
  }

  /** What is left is a suffix that does not start with `c`, and only `c`s were dropped. */
  lemma {:induction false} TrimStartMatchesIs(s: string, c: char)
    ensures var r := TrimStartMatches(s, c);
      r == s[|s| - |r|..] && (r == [] || r[0] != c) &&
      forall k :: 0 <= k < |s| - |r| ==> s[k] == c
  {
    if s != [] && s[0] == c {
      TrimStartMatchesIs(s[1..], c);
    }
  }

  /** `str::trim_end_matches(c)`: drop every trailing `c`. */
  function TrimEndMatches(s: string, c: char): (r: string)
    ensures |r| <= |s|
  {
    if s != [] && s[|s| - 1] == c then TrimEndMatches(s[..|s| - 1], c) else s
  }

  /** What is left is a prefix that does not end with `c`, and only `c`s were dropped. */
  lemma {:induction false} TrimEndMatchesIs(s: string, c: char)
    ensures var r := TrimEndMatches(s, c);
      r == s[..|r|] && (r == [] || r[|r| - 1] != c) &&
      forall k :: |r| <= k < |s| ==> s[k] == c
  {
    if s != [] && s[|s| - 1] == c {
      TrimEndMatchesIs(s[..|s| - 1], c);
    }
  }

  /** Text after a non-empty trimmed prefix is kept as it is. */
  lemma {:induction false} TrimStartAppend(s: string, t: string, c: char)
    requires TrimStartMatches(s, c) != []
    ensures TrimStartMatches(s + t, c) == TrimStartMatches(s, c) + t
  {
    assert s != [] && (s + t)[0] == s[0];
    if s[0] == c {
      assert (s + t)[1..] == s[1..] + t;
      TrimStartAppend(s[1..], t, c);
    }
  }

  /** Joins parts with a separator: the inverse of `Split`. */
  function Join(parts: seq<string>, sep: char): string
    requires |parts| >= 1
  {
    if |parts| == 1 then parts[0] else parts[0] + [sep] + Join(parts[1..], sep)
  }

  /**
   * `str::split(sep)` collected into a vector: at least one part, no part
   * holds the separator, and joining the parts gives back the input.
   */
  function Split(s: string, sep: char): (parts: seq<string>)
    ensures |parts| >= 1
    ensures forall k, j :: 0 <= k < |parts| && 0 <= j < |parts[k]| ==> parts[k][j] != sep
    ensures Join(parts, sep) == s
  {
    if s == [] then [[]]
    else
      var rest := Split(s[1..], sep);
      if s[0] == sep then
        assert [sep] + s[1..] == s;
        [[]] + rest
      else
        var parts := [[s[0]] + rest[0]] + rest[1..];
        assert parts[1..] == rest[1..];
        assert Join(parts, sep) == s by {
          if |rest| == 1 {
            assert [s[0]] + s[1..] == s;
          } else {
            assert Join(rest, sep) == rest[0] + [sep] + Join(rest[1..], sep);
            assert [s[0]] + (rest[0] + [sep] + Join(rest[1..], sep)) == [s[0]] + rest[0] + [sep] + Join(rest[1..], sep);
            assert [s[0]] + s[1..] == s;
          }
        }
        parts
  }

  /** A text without the separator is one part. */
  lemma {:induction false} SplitNoSeparator(s: string, sep: char)
    requires forall k :: 0 <= k < |s| ==> s[k] != sep
    ensures Split(s, sep) == [s]
  {
    if s != [] {
      SplitNoSeparator(s[1..], sep);
      assert [s[0]] + s[1..] == s;
    }
  }

  /** A separator-free head followed by the separator splits off as the first part. */
  lemma {:induction false} SplitHead(a: string, b: string, sep: char)
    requires forall k :: 0 <= k < |a| ==> a[k] != sep
    ensures Split(a + [sep] + b, sep) == [a] + Split(b, sep)
  {
    if a == [] {
      assert a + [sep] + b == [sep] + b;
      assert ([sep] + b)[1..] == b;
    } else {
      assert (a + [sep] + b)[1..] == a[1..] + [sep] + b;
      assert (a + [sep] + b)[0] == a[0];
      SplitHead(a[1..], b, sep);
      assert [a[0]] + a[1..] == a;
    }
  }

  // ---------------------------------------------------------------- digits

  predicate IsDecimalDigit(ch: char) { '0' <= ch <= '9' }

  /** `char::to_digit(radix)` for a radix between 2 and 36. */
  function ToDigit(ch: char, radix: nat): (r: Option<nat>)
    requires 2 <= radix <= 36
    ensures r.Some? ==> r.value < radix
    ensures IsDecimalDigit(ch) && radix >= 10 ==> r == Some((ch - '0') as nat)
  {
    var v: int :=
      if '0' <= ch <= '9' then (ch - '0') as int
      else if 'a' <= ch <= 'z' then (ch - 'a') as int + 10
      else if 'A' <= ch <= 'Z' then (ch - 'A') as int + 10
      else radix;
    if v < radix then Some(v) else None
  }

  /**
   * The value of a digit string, most significant digit first, or `None` as
   * soon as one character is not a digit of the radix.
   */
  function DigitsValue(ds: string, radix: nat): Option<nat>
    requires 2 <= radix <= 36
  {
    if ds == [] then Some(0)
    else
      match (DigitsValue(ds[..|ds| - 1], radix), ToDigit(ds[|ds| - 1], radix))
      case (Some(high), Some(d)) => MulNonNegative(high, radix); Some(high * radix + d)
      case _ => None
  }

  lemma MulNonNegative(a: nat, b: nat)
    ensures a * b >= 0
  {
  }

  /**
   * `from_str_radix` for an unsigned type whose largest value is `max`: an
   * optional leading '+', then at least one digit, and a value that fits.
   */
  function ParseUnsigned(s: string, radix: nat, max: nat): (r: Option<nat>)
    requires 2 <= radix <= 36
    ensures r.Some? ==> r.value <= max
    ensures r.Some? ==> s != [] && s != "+"
  {
    if s == [] then None
    else
      var ds := if s[0] == '+' then s[1..] else s;
      if ds == [] then None
      else
        match DigitsValue(ds, radix)
        case Some(v) => if v > max then None else Some(v)
        case None => None
  }

  // ------------------------------------------------------------ formatting

  function DecimalDigit(d: nat): (ch: char)
    requires d < 10
    ensures IsDecimalDigit(ch) && (ch - '0') as nat == d
  {
    ('0' as int + d) as char
  }

  /** `{}` for an unsigned value: decimal digits, no leading zero. */
  function NatToDecimal(n: nat): (s: string)
    ensures |s| >= 1
    ensures forall k :: 0 <= k < |s| ==> IsDecimalDigit(s[k])
    ensures n < 10 <==> |s| == 1
    ensures |s| > 1 ==> s[0] != '0'
  {
    if n < 10 then [DecimalDigit(n)] else NatToDecimal(n / 10) + [DecimalDigit(n % 10)]
  }

  /** `{}` for a signed value. */
  function IntToDecimal(i: int): (s: string)
    ensures |s| >= 1
    ensures i < 0 <==> s[0] == '-'
  {
    if i < 0 then "-" + NatToDecimal(-i) else NatToDecimal(i)
  }

  /** `{:02}`: at least two digits, zero-padded. */
  function Pad2(n: nat): (s: string)
    ensures forall k :: 0 <= k < |s| ==> IsDecimalDigit(s[k])
    ensures n < 100 ==> |s| == 2
  {
    if n < 10 then [DecimalDigit(0)] + NatToDecimal(n) else NatToDecimal(n)
  }

  /** Reading back what `{}` wrote gives the number. */
  lemma {:induction false} NatToDecimalValue(n: nat)
    ensures DigitsValue(NatToDecimal(n), 10) == Some(n)
  {
    var s := NatToDecimal(n);
    if n >= 10 {
      NatToDecimalValue(n / 10);
      assert s[..|s| - 1] == NatToDecimal(n / 10);
    }
  }

  /** Decimal formatting round-trips through `str::parse`. */
  lemma ParseNatToDecimal(n: nat, max: nat)
    requires n <= max
    ensures ParseUnsigned(NatToDecimal(n), 10, max) == Some(n)
  {
    NatToDecimalValue(n);
  }

  /** Zero-padded formatting round-trips through `str::parse`. */
  lemma ParsePad2(n: nat, max: nat)
    requires n <= max
    ensures ParseUnsigned(Pad2(n), 10, max) == Some(n)
  {
    NatToDecimalValue(n);
    var s := Pad2(n);
    if n < 10 {
      assert s[..1] == [DecimalDigit(0)];
      assert DigitsValue(s[..1], 10) == Some(0) by {
        assert s[..1][..0] == [];
      }
    }
  }

  /** Distinct numbers are written differently. */
  lemma NatToDecimalInjective(a: nat, b: nat)
    requires NatToDecimal(a) == NatToDecimal(b)
    ensures a == b
  {
    NatToDecimalValue(a);
    NatToDecimalValue(b);
  }

  /** Distinct signed numbers are written differently. */
  lemma IntToDecimalInjective(a: int, b: int)
    requires IntToDecimal(a) == IntToDecimal(b)
    ensures a == b
  {
    if a < 0 {
      assert IntToDecimal(a)[1..] == NatToDecimal(-a);
      assert IntToDecimal(b)[1..] == NatToDecimal(-b);
      NatToDecimalInjective(-a, -b);
    } else {
      NatToDecimalInjective(a, b);
    }
  }

  /** Distinct values below 100 are padded differently. */
  lemma Pad2Injective(a: nat, b: nat)
    requires Pad2(a) == Pad2(b)
    ensures a == b
  {
    ParsePad2(a, a + b);
    ParsePad2(b, a + b);
  }

  // ------------------------------------------------------------------- hex

  /** The lower-case hexadecimal digits, by value. */
  const HEX_DIGITS: string := "0123456789abcdef"

  /** Two lower-case hexadecimal digits for a byte, as in "#2ea043". */
  function HexByte(v: nat): (s: string)
    requires v < 256
    ensures |s| == 2
  {
    [HEX_DIGITS[v / 16], HEX_DIGITS[v % 16]]
  }

  /** A lower-case hexadecimal digit reads back as its value. */
  lemma HexDigitValue(d: nat)
    requires d < 16
    ensures ToDigit(HEX_DIGITS[d], 16) == Some(d)
  {
    if d < 10 {
      assert HEX_DIGITS[d] == '0' + d as char;
    } else {
      assert HEX_DIGITS[d] == 'a' + (d - 10) as char;
    }
  }

  /** Lower-case hex digits read back with `from_str_radix(_, 16)`. */
  lemma ParseHexByte(v: nat)
    requires v < 256
    ensures ParseUnsigned(HexByte(v), 16, 255) == Some(v)
  {
    var hi, lo := v / 16, v % 16;
    HexDigitValue(hi);
    HexDigitValue(lo);
    TwoDigitsValue(HEX_DIGITS[hi], HEX_DIGITS[lo], 16);
  }

  /** The value of a two-digit string. */
  lemma TwoDigitsValue(a: char, b: char, radix: nat)
    requires 2 <= radix <= 36 && ToDigit(a, radix).Some? && ToDigit(b, radix).Some?
    ensures DigitsValue([a, b], radix) == Some(ToDigit(a, radix).value * radix + ToDigit(b, radix).value)
  {
    var s := [a, b];
    assert DigitsValue([a], radix) == Some(ToDigit(a, radix).value) by {
      assert [a][..0] == [];
    }
    assert s[..|s| - 1] == [a];
  }

}
