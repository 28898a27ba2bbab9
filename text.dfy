/**
  The handful of Python string operations the configuration store and the
  web handlers rely on: `str.split`, the `','.join` that undoes it, `str(n)`
  and `"%x"` digit strings, `str.zfill`, `str.lower` and `str.replace(sub, '')`.
*/
module Text {

  // ---------------------------------------------------------------------
  // str.split(sep) and its inverse
  // ---------------------------------------------------------------------

  /** Python's `s.split(sep)` for a one-character separator: every
      separator cuts, so `""` gives `[""]` and `"a,,b"` gives `["a", "", "b"]`. */
  function Split(s: string, sep: char): (parts: seq<string>)
    ensures |parts| >= 1
    ensures forall i :: 0 <= i < |parts| ==> sep !in parts[i]
    ensures s == [] ==> parts == [[]]
  {
    if s == [] then [[]]
    else
      var rest := Split(s[1..], sep);
      if s[0] == sep then [[]] + rest
      else [[s[0]] + rest[0]] + rest[1..]
  }

  /** `sep.join(parts)`. */
  function Join(parts: seq<string>, sep: char): string
    requires |parts| >= 1
  {
    if |parts| == 1 then parts[0] else parts[0] + [sep] + Join(parts[1..], sep)
  }

  /** Splitting loses nothing: joining the pieces gives the string back. */
  lemma {:induction false} JoinSplit(s: string, sep: char)
    ensures Join(Split(s, sep), sep) == s
  {
    if s != [] {
      var rest := Split(s[1..], sep);
      JoinSplit(s[1..], sep);
      if s[0] == sep {
        assert ([[]] + rest)[1..] == rest;
      } else if |rest| == 1 {
        assert [s[0]] + rest[0] == s;
      } else {
        var parts := [[s[0]] + rest[0]] + rest[1..];
        assert parts[1..] == rest[1..];
        assert Join(rest, sep) == rest[0] + [sep] + Join(rest[1..], sep);
      }
    }
  }

  /** A separator-free prefix glues onto the first piece of the rest. */
  lemma {:induction false} SplitPrefix(p: string, t: string, sep: char)
    requires sep !in p
    ensures Split(p + t, sep) == [p + Split(t, sep)[0]] + Split(t, sep)[1..]
  {
    if p != [] {
      var ts := Split(t, sep);
      assert (p + t)[1..] == p[1..] + t;
      SplitPrefix(p[1..], t, sep);
      var rest := Split(p[1..] + t, sep);
      assert rest[0] == p[1..] + ts[0];
      assert rest[1..] == ts[1..];
      assert [p[0]] + (p[1..] + ts[0]) == p + ts[0];
    } else {
      var ts := Split(t, sep);
      assert p + t == t && p + ts[0] == ts[0];
      assert [ts[0]] + ts[1..] == ts;
    }
  }

  /** Joining separator-free pieces and splitting again gives the pieces back. */
  lemma {:induction false} SplitJoin(parts: seq<string>, sep: char)
    requires |parts| >= 1
    requires forall i :: 0 <= i < |parts| ==> sep !in parts[i]
    ensures Split(Join(parts, sep), sep) == parts
  {
    if |parts| == 1 {
      SplitPrefix(parts[0], [], sep);
      assert parts[0] + [] == parts[0];
    } else {
      var t := Join(parts[1..], sep);
      SplitJoin(parts[1..], sep);
      assert Split([sep] + t, sep) == [[]] + Split(t, sep);
      assert parts[0] + [sep] + t == parts[0] + ([sep] + t);
      SplitPrefix(parts[0], [sep] + t, sep);
      assert parts[0] + [] == parts[0];
      assert [parts[0]] + parts[1..] == parts;
    }
  }

  // ---------------------------------------------------------------------
  // Digit strings: str(n) in base 10, "%x" in base 16
  // ---------------------------------------------------------------------

  /** A valid base for digit strings. */
  predicate IsBase(base: nat) { base == 10 || base == 16 }

  /** The digit character of `d`: `0`-`9`, then lower-case `a`-`f`. */
  function DigitChar(d: nat): (c: char)
    requires d < 16
  {
    if d < 10 then ('0' as int + d) as char else ('a' as int + d - 10) as char
  }

  /** Whether `c` is a digit of `base` (lower-case letters only, as `%x` prints). */
  predicate IsDigit(c: char, base: nat)
  {
    ('0' <= c <= '9' && (c as int - '0' as int) < base)
    || ('a' <= c <= 'f' && (c as int - 'a' as int) + 10 < base)
  }

  /** The value of a digit character. */
  function DigitValue(c: char, base: nat): (d: nat)
    requires IsDigit(c, base)
    ensures d < base && d < 16 && DigitChar(d) == c
  {
    if '0' <= c <= '9' then c as int - '0' as int else c as int - 'a' as int + 10
  }

  /** Digit characters and digit values are in one-to-one correspondence. */
  lemma DigitCharValue(d: nat, base: nat)
    requires IsBase(base) && d < base
    ensures IsDigit(DigitChar(d), base) && DigitValue(DigitChar(d), base) == d
  {
  }

  predicate AllDigits(s: string, base: nat)
  {
    forall i :: 0 <= i < |s| ==> IsDigit(s[i], base)
  }

  /** The digits of `n` in `base`, most significant first, without leading
      zeros (`"0"` for zero): what `str(n)` and `"%x" % n` print. */
  function Digits(n: nat, base: nat): (s: string)
    requires IsBase(base)
    ensures |s| >= 1 && AllDigits(s, base)
    ensures n > 0 ==> s[0] != '0'
  {
    if n < base then [DigitChar(n)] else Digits(n / base, base) + [DigitChar(n % base)]
  }

  /** The number a digit string denotes. */
  function ValueOf(s: string, base: nat): nat
    requires AllDigits(s, base)
  {
    if s == [] then 0 else ValueOf(s[..|s| - 1], base) * base + DigitValue(s[|s| - 1], base)
  }

  /** Reading the digits back gives the number. */
  lemma {:induction false} DigitsRoundTrip(n: nat, base: nat)
    requires IsBase(base)
    ensures ValueOf(Digits(n, base), base) == n
  {
    var s := Digits(n, base);
    DigitCharValue(n % base, base);
    if n >= base {
      assert s[..|s| - 1] == Digits(n / base, base);
      DigitsRoundTrip(n / base, base);
      assert ValueOf(s, base) == (n / base) * base + n % base;
    } else {
      assert n % base == n;
    }
  }

  /** `n` has at most `k` digits exactly when it is below `base` to the `k`. */
  lemma {:induction false} DigitsLength(n: nat, base: nat, k: nat)
    requires IsBase(base) && k >= 1
    requires n < Pow(base, k)
    ensures |Digits(n, base)| <= k
  {
    if n >= base {
      assert Pow(base, 1) == base;
      assert k >= 2;
      assert Pow(base, k) == base * Pow(base, k - 1);
      assert n / base < Pow(base, k - 1) by {
        DivBelow(n, base, Pow(base, k - 1));
      }
      DigitsLength(n / base, base, k - 1);
    }
  }

  lemma DivBelow(n: nat, base: nat, p: nat)
    requires base > 0 && n < base * p
    ensures n / base < p
  {
  }

  function Pow(base: nat, k: nat): nat
  {
    if k == 0 then 1 else base * Pow(base, k - 1)
  }

  function Repeat(c: char, k: nat): (s: string)
    ensures |s| == k && forall i :: 0 <= i < k ==> s[i] == c
  {
    if k == 0 then [] else [c] + Repeat(c, k - 1)
  }

  /** Leading zeros do not change the value of a digit string. */
  lemma {:induction false} LeadingZeros(k: nat, s: string, base: nat)
    requires IsBase(base) && AllDigits(s, base)
    ensures AllDigits(Repeat('0', k) + s, base)
    ensures ValueOf(Repeat('0', k) + s, base) == ValueOf(s, base)
  {
    var z := Repeat('0', k) + s;
    if s == [] {
      assert z == Repeat('0', k);
      if k > 0 {
        assert z[..|z| - 1] == Repeat('0', k - 1) + [];
        LeadingZeros(k - 1, [], base);
      }
    } else {
      assert z[..|z| - 1] == Repeat('0', k) + s[..|s| - 1];
      LeadingZeros(k, s[..|s| - 1], base);
    }
  }

  /** Python's `s.zfill(width)` for an unsigned digit string: zeros on the left
      up to `width` characters. */
  function ZFill(s: string, width: nat): (r: string)
    ensures |r| == if |s| < width then width else |s|
  {
    if |s| < width then Repeat('0', width - |s|) + s else s
  }

  /** `str(n).zfill(2)`, the format of the hour and minute fields. */
  function TwoDigits(n: nat): (s: string)
  {
    ZFill(Digits(n, 10), 2)
  }

  /** Below 100, `str(n).zfill(2)` is exactly two decimal digits that read back as `n`. */
  lemma TwoDigitsShape(n: nat)
    requires n < 100
    ensures |TwoDigits(n)| == 2 && AllDigits(TwoDigits(n), 10)
    ensures ValueOf(TwoDigits(n), 10) == n
  {
    DigitsLength(n, 10, 2);
    DigitsRoundTrip(n, 10);
    var d := Digits(n, 10);
    LeadingZeros(2 - |d|, d, 10);
  }

  /** `"%06x" % n`: lower-case hex digits, zero-padded to at least six. */
  function Hex06(n: nat): (s: string)
  {
    ZFill(Digits(n, 16), 6)
  }

  /** For a 128-bit number, `"%06x"` gives 6 to 32 lower-case hex digits that read back as `n`. */
  lemma Hex06Shape(n: nat)
    requires n < Pow(16, 32)
    ensures 6 <= |Hex06(n)| <= 32 && AllDigits(Hex06(n), 16)
    ensures ValueOf(Hex06(n), 16) == n
  {
    DigitsLength(n, 16, 32);
    DigitsRoundTrip(n, 16);
    var d := Digits(n, 16);
    if |d| < 6 {
      LeadingZeros(6 - |d|, d, 16);
    }
  }

  // ---------------------------------------------------------------------
  // str.lower and str.replace(sub, '')
  // ---------------------------------------------------------------------

  function LowerChar(c: char): char
  {
    if 'A' <= c <= 'Z' then (c as int - 'A' as int + 'a' as int) as char else c
  }

  /** `s.lower()` on the ASCII letters. */
  function Lower(s: string): (r: string)
    ensures |r| == |s| && forall i :: 0 <= i < |s| ==> r[i] == LowerChar(s[i])
  {
    seq(|s|, i requires 0 <= i < |s| => LowerChar(s[i]))
  }

  /** Whether `sub` occurs in `s` starting at index `i`. */
  predicate OccursAt(sub: string, s: string, i: int)
  {
    0 <= i <= |s| - |sub| && s[i..i + |sub|] == sub
  }

  /** Whether `sub` occurs in `s`. */
  ghost predicate Occurs(sub: string, s: string)
  {
    exists i :: OccursAt(sub, s, i)
  }

  /** `s.replace(sub, '')`: removes the non-overlapping occurrences of `sub`,
      scanning from the left; an empty `sub` leaves `s` as it is. */
  function RemoveAll(s: string, sub: string): (r: string)
    ensures |r| <= |s|
    decreases |s|
  {
    if sub == [] || |s| < |sub| then s
    else if s[..|sub|] == sub then RemoveAll(s[|sub|..], sub)
    else [s[0]] + RemoveAll(s[1..], sub)
  }

  /** Where `sub` does not occur, removing it changes nothing. */
  lemma {:induction false} RemoveAbsent(s: string, sub: string)
    requires !Occurs(sub, s)
    ensures RemoveAll(s, sub) == s
    decreases |s|
  {
    if sub != [] && |s| >= |sub| {
      assert !OccursAt(sub, s, 0);
      assert s[0..0 + |sub|] == s[..|sub|];
      assert !Occurs(sub, s[1..]) by {
        forall i | OccursAt(sub, s[1..], i) ensures OccursAt(sub, s, i + 1) {
          assert s[1..][i..i + |sub|] == s[i + 1..i + 1 + |sub|];
        }
      }
      RemoveAbsent(s[1..], sub);
      assert [s[0]] + s[1..] == s;
    }
  }
}
