/** Text helpers used across the model: digit strings in base 10 and 16, splitting on and
    joining with a separator character. */
module Text {
  import opened Wrappers

  /** The value of one digit character in `base` (10 or 16; hex digits in either case). */
  function DigitValue(c: char, base: nat): (r: Option<nat>)
    requires base == 10 || base == 16
    ensures r.Some? ==> r.value < base
  {
    if '0' <= c <= '9' then Some(c as nat - '0' as nat)
    else if base == 16 && 'a' <= c <= 'f' then Some(c as nat - 'a' as nat + 10)
    else if base == 16 && 'A' <= c <= 'F' then Some(c as nat - 'A' as nat + 10)
    else None
  }

  /** The lower-case digit character for `d`. */
  function DigitChar(d: nat): char
    requires d < 16
  {
    if d < 10 then ('0' as nat + d) as char else ('a' as nat + d - 10) as char
  }

  predicate IsDigits(s: string, base: nat)
    requires base == 10 || base == 16
  {
    forall i :: 0 <= i < |s| ==> DigitValue(s[i], base).Some?
  }

  /** The value of a string of digits, most significant first. */
  function DigitsValue(s: string, base: nat): nat
    requires base == 10 || base == 16
    requires IsDigits(s, base)
  {
    if s == [] then 0
    else DigitsValue(s[..|s| - 1], base) * base + DigitValue(s[|s| - 1], base).value
  }

  /** A non-empty run of digits and its value, as `parseInt` reads a string that is
      nothing but digits; anything else is `None`. */
  function ParseDigits(s: string, base: nat): (r: Option<nat>)
    requires base == 10 || base == 16
    ensures r.Some? <==> s != [] && IsDigits(s, base)
  {
    if s != [] && IsDigits(s, base) then Some(DigitsValue(s, base)) else None
  }

  /** The shortest digit string for `n` (no leading zeros; "0" for zero), lower-case. */
  function FormatNat(n: nat, base: nat): (s: string)
    requires base == 10 || base == 16
    ensures s != [] && IsDigits(s, base)
    ensures forall i :: 0 <= i < |s| ==> s[i] != '.' && s[i] != ':' && s[i] != '/' && s[i] != '-'
    ensures |s| > 1 ==> s[0] != '0'
  {
    if n < base then [DigitChar(n)]
    else FormatNat(n / base, base) + [DigitChar(n % base)]
  }

  lemma DigitRoundTrip(d: nat, base: nat)
    requires base == 10 || base == 16
    requires d < base
    ensures DigitValue(DigitChar(d), base) == Some(d)
  {
  }

  /** Reading back what `FormatNat` wrote gives the number again. */
  lemma {:induction false} ParseFormat(n: nat, base: nat)
    requires base == 10 || base == 16
    ensures ParseDigits(FormatNat(n, base), base) == Some(n)
  {
    var s := FormatNat(n, base);
    if n < base {
      DigitRoundTrip(n, base);
      assert s[..|s| - 1] == [];
      assert DigitsValue(s, base) == DigitsValue([], base) * base + n;
    } else {
      ParseFormat(n / base, base);
      DigitRoundTrip(n % base, base);
      assert s[..|s| - 1] == FormatNat(n / base, base);
    }
  }

  /** The decimal text of an integer, with a leading '-' when negative. */
  function IntToString(n: int): (s: string)
    ensures s != []
  {
    if n < 0 then "-" + FormatNat(-n, 10) else FormatNat(n, 10)
  }

  /** `String.prototype.split` on one separator character: always at least one piece. */
  function Split(s: string, sep: char): (r: seq<string>)
    ensures |r| >= 1
    ensures forall i :: 0 <= i < |r| ==> sep !in r[i]
  {
    if s == [] then [""]
    else
      var rest := Split(s[1..], sep);
      if s[0] == sep then [""] + rest
      else [[s[0]] + rest[0]] + rest[1..]
  }

  /** `Array.prototype.join` with a separator. */
  function Join(parts: seq<string>, sep: string): string
  {
    if |parts| == 0 then ""
    else if |parts| == 1 then parts[0]
    else parts[0] + sep + Join(parts[1..], sep)
  }

  lemma {:induction false} SplitPrefix(a: string, b: string, sep: char)
    requires sep !in a
    ensures Split(a + b, sep) == [a + Split(b, sep)[0]] + Split(b, sep)[1..]
  {
    if a != [] {
      assert (a + b)[1..] == a[1..] + b;
      SplitPrefix(a[1..], b, sep);
      assert [a[0]] + (a[1..] + Split(b, sep)[0]) == a + Split(b, sep)[0];
    } else {
      var r := Split(b, sep);
      assert a + b == b;
      assert a + r[0] == r[0];
      assert r == [r[0]] + r[1..];
    }
  }

  /** Splitting what `Join` glued back together gives the pieces again. */
  lemma {:induction false} SplitJoin(parts: seq<string>, sep: char)
    requires |parts| >= 1
    requires forall i :: 0 <= i < |parts| ==> sep !in parts[i]
    ensures Split(Join(parts, [sep]), sep) == parts
  {
    if |parts| == 1 {
      SplitPrefix(parts[0], "", sep);
      assert parts[0] + "" == parts[0];
    } else {
      var tail := Join(parts[1..], [sep]);
      SplitJoin(parts[1..], sep);
      assert Join(parts, [sep]) == parts[0] + ([sep] + tail);
      SplitPrefix(parts[0], [sep] + tail, sep);
      assert ([sep] + tail)[1..] == tail;
      assert Split([sep] + tail, sep) == [""] + parts[1..];
      assert parts[0] + "" == parts[0];
    }
  }

  lemma {:induction false} SplitWithout(s: string, sep: char)
    requires sep !in s
    ensures Split(s, sep) == [s]
  {
    SplitPrefix(s, "", sep);
    assert s + "" == s;
  }
}
