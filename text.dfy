/** The string operations the handlers rely on, with Python's meaning:
    `str.strip()`, decimal digits and `str(int)`, and zero padding; plus the
    splitting on a one-character separator that matches the numeric fields
    of a `strptime` format, and the joining that builds `str(date)` and
    `str(timedelta)`. */
module Text {

  /** Python's `str.isspace()`: the characters `str.strip()` removes. */
  predicate IsSpace(c: char)
  {
    || ('\t' <= c <= '\r')
    || ('\U{1C}' <= c <= ' ')
    || c == '\U{85}' || c == '\U{A0}' || c == '\U{1680}'
    || ('\U{2000}' <= c <= '\U{200A}')
    || c == '\U{2028}' || c == '\U{2029}' || c == '\U{202F}' || c == '\U{205F}' || c == '\U{3000}'
  }

  predicate AllSpace(s: string)
  {
    forall i :: 0 <= i < |s| ==> IsSpace(s[i])
  }

  /** `s.lstrip()`. */
  function StripLeft(s: string): string
  {
    if s != [] && IsSpace(s[0]) then StripLeft(s[1..]) else s
  }

  /** `s.rstrip()`. */
  function StripRight(s: string): string
  {
    if s != [] && IsSpace(s[|s| - 1]) then StripRight(s[..|s| - 1]) else s
  }

  /** `s.lstrip()` leaves the suffix after the leading white space. */
  lemma {:induction false} StripLeftMeaning(s: string)
    ensures var r := StripLeft(s);
            |r| <= |s| && r == s[|s| - |r|..] && AllSpace(s[..|s| - |r|]) && (r != [] ==> !IsSpace(r[0]))
  {
    if s != [] && IsSpace(s[0]) {
      StripLeftMeaning(s[1..]);
      var r := StripLeft(s);
      assert s[..|s| - |r|] == [s[0]] + s[1..][..|s| - 1 - |r|];
    }
  }

  /** `s.rstrip()` leaves the prefix before the trailing white space. */
  lemma {:induction false} StripRightMeaning(s: string)
    ensures var r := StripRight(s);
            |r| <= |s| && r == s[..|r|] && AllSpace(s[|r|..]) && (r != [] ==> !IsSpace(r[|r| - 1]))
  {
    if s != [] && IsSpace(s[|s| - 1]) {
      StripRightMeaning(s[..|s| - 1]);
      var r := StripRight(s);
      assert s[|r|..] == s[..|s| - 1][|r|..] + [s[|s| - 1]];
    }
  }

  /** `s.strip()`. */
  function Strip(s: string): string
  {
    StripRight(StripLeft(s))
  }

  /** What `s.strip()` leaves: the middle of `s` between white space at both
      ends, empty exactly when `s` is all white space. */
  lemma StripMeaning(s: string)
    ensures Strip(s) == [] <==> AllSpace(s)
    ensures var r := Strip(s); r != [] ==> !IsSpace(r[0]) && !IsSpace(r[|r| - 1])
    ensures var r := Strip(s);
            exists i :: 0 <= i <= |s| - |r| && r == s[i..i + |r|] && AllSpace(s[..i]) && AllSpace(s[i + |r|..])
  {
    var left := StripLeft(s);
    StripLeftMeaning(s);
    StripRightMeaning(left);
    StripSlice(s, left, StripRight(left), |s| - |left|);
  }

  lemma StripSlice(s: string, left: string, r: string, i: nat)
    requires |left| <= |s| && left == s[|s| - |left|..] && AllSpace(s[..|s| - |left|]) && (left != [] ==> !IsSpace(left[0]))
    requires |r| <= |left| && r == left[..|r|] && AllSpace(left[|r|..]) && (r != [] ==> !IsSpace(r[|r| - 1]))
    requires i == |s| - |left|
    ensures r == [] <==> AllSpace(s)
    ensures 0 <= i <= |s| - |r| && r == s[i..i + |r|] && AllSpace(s[..i]) && AllSpace(s[i + |r|..])
  {
    assert r == s[i..i + |r|];
    assert s[i + |r|..] == left[|r|..];
    if r == [] {
      assert left == [];
      assert s == s[..i];
    } else {
      assert s[i] == r[0];
    }
  }

  /** Stripping text that is already stripped changes nothing: a name stored
      by a registration handler is found again when it is typed back. */
  lemma StripIdempotent(s: string)
    ensures Strip(Strip(s)) == Strip(s)
  {
    StripMeaning(s);
    var r := Strip(s);
    if r != [] {
      assert StripLeft(r) == r;
      assert StripRight(r) == r;
    }
  }

  predicate IsDigit(c: char)
  {
    '0' <= c <= '9'
  }

  predicate AllDigits(s: string)
  {
    forall i :: 0 <= i < |s| ==> IsDigit(s[i])
  }

  function DigitChar(d: nat): (c: char)
    requires d < 10
  {
    (d + '0' as int) as char
  }

  function DigitValue(c: char): nat
    requires IsDigit(c)
  {
    c as int - '0' as int
  }

  /** The number a string of decimal digits denotes, as `int(s)` reads it. */
  function DigitsValue(s: string): nat
    requires AllDigits(s)
  {
    if s == [] then 0 else DigitsValue(s[..|s| - 1]) * 10 + DigitValue(s[|s| - 1])
  }

  /** `str(n)` for a non-negative integer. */
  function NatToString(n: nat): string
  {
    if n < 10 then [DigitChar(n)] else NatToString(n / 10) + [DigitChar(n % 10)]
  }

  /** `str(n)` is decimal digits, with no leading zero, reading back as `n`. */
  lemma {:induction false} NatToStringMeaning(n: nat)
    ensures var s := NatToString(n);
            1 <= |s| && AllDigits(s) && (|s| > 1 ==> s[0] != '0') && DigitsValue(s) == n
  {
    if n >= 10 {
      NatToStringMeaning(n / 10);
      var s := NatToString(n);
      assert s[..|s| - 1] == NatToString(n / 10);
    }
  }

  /** `str(n)` for any integer: a minus sign, then the digits of `|n|`. */
  function IntToString(n: int): (s: string)
    ensures s != []
    ensures s[0] == '-' <==> n < 0
  {
    NatToStringMeaning(if n < 0 then -n else n);
    if n < 0 then "-" + NatToString(-n) else NatToString(n)
  }

  /** Different integers print differently. */
  lemma IntToStringInjective(m: int, n: int)
    requires IntToString(m) == IntToString(n)
    ensures m == n
  {
    if m < 0 {
      assert NatToString(-m) == IntToString(m)[1..] == NatToString(-n);
      NatToStringMeaning(-m);
      NatToStringMeaning(-n);
    } else {
      assert NatToString(m) == NatToString(n);
      NatToStringMeaning(m);
      NatToStringMeaning(n);
    }
  }

  function Pow10(k: nat): nat
  {
    if k == 0 then 1 else 10 * Pow10(k - 1)
  }

  /** A number below 10^k prints in at most k digits. */
  lemma {:induction false} NatToStringLength(n: nat, k: nat)
    requires 1 <= k && n < Pow10(k)
    ensures |NatToString(n)| <= k
  {
    if n >= 10 {
      assert k >= 2;
      assert n / 10 < Pow10(k - 1);
      NatToStringLength(n / 10, k - 1);
    }
  }

  /** A zero in front of a digit string does not change the number it denotes. */
  lemma {:induction false} LeadingZero(s: string)
    requires AllDigits(s)
    ensures AllDigits("0" + s) && DigitsValue("0" + s) == DigitsValue(s)
  {
    if s != [] {
      var t := "0" + s;
      assert t[..|t| - 1] == "0" + s[..|s| - 1];
      LeadingZero(s[..|s| - 1]);
    }
  }

  /** `"%0*d" % (width, n)`: the digits of `n` left-padded with zeros to
      `width` characters. */
  function PadDigits(n: nat, width: nat): string
    decreases width
  {
    if width <= |NatToString(n)| then NatToString(n) else "0" + PadDigits(n, width - 1)
  }

  /** The padded digits still read back as `n`, and are `width` long unless
      `n` needs more. */
  lemma {:induction false} PadDigitsMeaning(n: nat, width: nat)
    ensures var s := PadDigits(n, width);
            AllDigits(s) && DigitsValue(s) == n
            && |s| == if |NatToString(n)| < width then width else |NatToString(n)|
    decreases width
  {
    NatToStringMeaning(n);
    if width > |NatToString(n)| {
      PadDigitsMeaning(n, width - 1);
      LeadingZero(PadDigits(n, width - 1));
    }
  }

  /** The position of the first `c` in `s`, or `|s|` when there is none. */
  function IndexOf(s: string, c: char): (i: nat)
    ensures i <= |s|
    ensures i < |s| ==> s[i] == c
    ensures forall k :: 0 <= k < i ==> s[k] != c
  {
    if s == [] || s[0] == c then 0 else 1 + IndexOf(s[1..], c)
  }

  /** The pieces between the separators, possibly empty: how the `strptime`
      model cuts "2024-05-01" or "9:30" into its numeric fields. */
  function Split(s: string, sep: char): (parts: seq<string>)
    ensures |parts| >= 1
    ensures forall k :: 0 <= k < |parts| ==> sep !in parts[k]
    decreases |s|
  {
    var i := IndexOf(s, sep);
    if i == |s| then [s] else [s[..i]] + Split(s[i + 1..], sep)
  }

  /** The pieces with the separator between them: how `str(date)` and
      `str(timedelta)` put their padded fields together. */
  function Join(parts: seq<string>, sep: char): string
    requires |parts| >= 1
  {
    if |parts| == 1 then parts[0] else parts[0] + [sep] + Join(parts[1..], sep)
  }

  /** The first separator of `p + [sep] + rest` is the one after `p`. */
  lemma IndexOfAfter(p: string, sep: char, rest: string)
    requires sep !in p
    ensures IndexOf(p + [sep] + rest, sep) == |p|
  {
    var s := p + [sep] + rest;
    assert s[|p|] == sep;
  }

  /** Splitting undoes joining pieces that hold no separator. */
  lemma {:induction false} SplitJoin(parts: seq<string>, sep: char)
    requires |parts| >= 1
    requires forall k :: 0 <= k < |parts| ==> sep !in parts[k]
    ensures Split(Join(parts, sep), sep) == parts
  {
    var p := parts[0];
    assert sep !in p;
    if |parts| > 1 {
      var rest := Join(parts[1..], sep);
      var s := p + [sep] + rest;
      assert Join(parts, sep) == s;
      IndexOfAfter(p, sep, rest);
      assert s[..|p|] == p && s[|p| + 1..] == rest;
      SplitJoin(parts[1..], sep);
      assert Split(s, sep) == [p] + parts[1..];
      assert [p] + parts[1..] == parts;
    }
  }
}
