/**
 The two pieces of Rust's standard library the decoders lean on, written out:
 `str::split` with a one-character pattern, and `from_str_radix` for an
 unsigned integer type. Both are total; failure is an `Option`.
 */
module Text {
  import opened Types

  /** `s` glued back together with `sep` between consecutive parts. */
  function Join(parts: seq<string>, sep: char): string
    requires |parts| >= 1
  {
    if |parts| == 1 then parts[0] else parts[0] + [sep] + Join(parts[1..], sep)
  }

  /** How many times `c` occurs in `s`. */
  function Occurrences(s: string, c: char): nat {
    if |s| == 0 then 0 else (if s[0] == c then 1 else 0) + Occurrences(s[1..], c)
  }

  /** `s.split(sep)`: the maximal `sep`-free pieces between separators, in
      order, including empty pieces at either end; one more piece than there
      are separators. */
  function Split(s: string, sep: char): (parts: seq<string>)
    ensures |parts| == 1 + Occurrences(s, sep)
    ensures forall i :: 0 <= i < |parts| ==> sep !in parts[i]
    ensures Join(parts, sep) == s
    decreases |s|
  {
    if |s| == 0 then [""]
    else
      var rest := Split(s[1..], sep);
      if s[0] == sep then
        assert s == [sep] + s[1..];
        [""] + rest
      else
        var parts := [[s[0]] + rest[0]] + rest[1..];
        assert parts[1..] == rest[1..];
        assert s == [s[0]] + s[1..];
        parts
  }

  /** Splitting a piece that holds no separator yields that piece alone. */
  lemma {:induction false} SplitWithoutSeparator(s: string, sep: char)
    requires sep !in s
    ensures Split(s, sep) == [s]
    decreases |s|
  {
    if |s| > 0 {
      SplitWithoutSeparator(s[1..], sep);
      assert [s[0]] + s[1..] == s;
    }
  }

  /** Splitting distributes over a separator: the pieces of `a + sep + b` are
      the pieces of `a` followed by the pieces of `b`. */
  lemma {:induction false} SplitAround(a: string, sep: char, b: string)
    ensures Split(a + [sep] + b, sep) == Split(a, sep) + Split(b, sep)
    decreases |a|
  {
    var s := a + [sep] + b;
    if |a| == 0 {
      assert s[1..] == b;
    } else {
      assert s[1..] == a[1..] + [sep] + b;
      SplitAround(a[1..], sep, b);
    }
  }

  /** `Split` undoes `Join` when no part contains the separator. */
  lemma {:induction false} SplitJoin(parts: seq<string>, sep: char)
    requires |parts| >= 1
    requires forall i :: 0 <= i < |parts| ==> sep !in parts[i]
    ensures Split(Join(parts, sep), sep) == parts
    decreases |parts|
  {
    SplitWithoutSeparator(parts[0], sep);
    if |parts| > 1 {
      SplitJoin(parts[1..], sep);
      SplitAround(parts[0], sep, Join(parts[1..], sep));
      assert [parts[0]] + parts[1..] == parts;
    }
  }

  /** `char::to_digit(radix)`: decimal digits, then letters of either case
      standing for 10 upwards, as long as the value is below the radix. */
  function DigitOf(c: char, radix: nat): (d: Option<nat>)
    requires 2 <= radix <= 36
    ensures d.Some? ==> d.value < radix
    ensures d.Some? ==> '0' <= c <= 'z'
  {
    var v :=
      if '0' <= c <= '9' then c as int - '0' as int
      else if 'a' <= c <= 'z' then c as int - 'a' as int + 10
      else if 'A' <= c <= 'Z' then c as int - 'A' as int + 10
      else radix;
    if v < radix then Some(v) else None
  }

  predicate IsDigits(s: string, radix: nat)
    requires 2 <= radix <= 36
  {
    forall i :: 0 <= i < |s| ==> DigitOf(s[i], radix).Some?
  }

  function Pow(base: nat, e: nat): (p: nat)
    ensures base >= 1 ==> p >= 1
  {
    if e == 0 then 1 else base * Pow(base, e - 1)
  }

  lemma {:induction false} PowMono(b: nat, m: nat, n: nat)
    requires b >= 1 && m <= n
    ensures Pow(b, m) <= Pow(b, n)
    decreases n
  {
    if m < n {
      PowMono(b, m, n - 1);
      Grows(b, Pow(b, n - 1));
    }
  }

  lemma Grows(b: nat, q: nat)
    requires b >= 1
    ensures q <= b * q
  {
  }

  /** The number a digit string denotes, most significant digit first. */
  function ValueOf(s: string, radix: nat): (v: nat)
    requires 2 <= radix <= 36
    requires IsDigits(s, radix)
    ensures v < Pow(radix, |s|)
    decreases |s|
  {
    if |s| == 0 then 0
    else
      DigitsPrefix(s, radix);
      var hi := ValueOf(s[..|s| - 1], radix);
      var d := DigitOf(s[|s| - 1], radix).value;
      DigitStep(hi, d, radix, |s|);
      hi * radix + d
  }

  lemma DigitsPrefix(s: string, radix: nat)
    requires 2 <= radix <= 36 && |s| >= 1 && IsDigits(s, radix)
    ensures IsDigits(s[..|s| - 1], radix) && DigitOf(s[|s| - 1], radix).Some?
  {
    assert forall i :: 0 <= i < |s| - 1 ==> s[..|s| - 1][i] == s[i];
  }

  /** Appending a digit below `radix` to a number below `radix^(n-1)` stays
      below `radix^n`. */
  lemma DigitStep(hi: nat, d: nat, radix: nat, n: nat)
    requires n >= 1 && hi < Pow(radix, n - 1) && d < radix
    ensures 0 <= hi * radix + d < Pow(radix, n)
  {
    var p := Pow(radix, n - 1);
    assert Pow(radix, n) == radix * p;
    MulLe(hi + 1, p, radix);
    assert (hi + 1) * radix == hi * radix + radix;
  }

  lemma MulLe(a: nat, b: nat, c: nat)
    requires a <= b
    ensures a * c <= b * c && a * c <= c * b
  {
  }

  /** Splitting off the last digit of a number below `radix * p`. */
  lemma LastDigit(x: nat, radix: nat, p: nat)
    requires radix >= 1 && x < radix * p
    ensures x / radix < p
    ensures x == (x / radix) * radix + x % radix
  {
    var q := x / radix;
    assert q * radix <= x;
    CancelFactor(q, p, radix);
  }

  lemma CancelFactor(q: nat, p: nat, radix: nat)
    requires q * radix < p * radix
    ensures q < p
  {
  }

  /** The digits `from_str_radix` reads: the text without one leading `+`. */
  function Unsigned(s: string): string {
    if |s| > 0 && s[0] == '+' then s[1..] else s
  }

  /** `uN::from_str_radix(s, radix)` for an unsigned type whose maximum is
      `max`: an optional single `+`, then one or more digits, and a value
      that does not exceed `max`. A lone sign, an empty string, a `-`, a
      non-digit or an overflow all fail. */
  function ParseUnsigned(s: string, radix: nat, max: nat): (r: Option<nat>)
    requires 2 <= radix <= 36
    ensures r.Some? <==>
      |Unsigned(s)| >= 1 && IsDigits(Unsigned(s), radix) && ValueOf(Unsigned(s), radix) <= max
    ensures r.Some? ==> r.value <= max
    ensures r.Some? ==> r.value == ValueOf(Unsigned(s), radix)
    ensures r.Some? ==> '-' !in s
  {
    if |s| == 0 then None
    else if |s| == 1 && (s[0] == '+' || s[0] == '-') then None
    else
      var digits := Unsigned(s);
      if IsDigits(digits, radix) && ValueOf(digits, radix) <= max then
        assert s == digits || s == ['+'] + digits;
        assert forall i :: 0 <= i < |digits| ==> digits[i] != '-';
        Some(ValueOf(digits, radix))
      else None
  }

  /** The lower-case digit character for `d`. */
  function DigitChar(d: nat): (c: char)
    requires d < 36
    ensures forall radix :: d < radix <= 36 && 2 <= radix ==> DigitOf(c, radix) == Some(d)
    ensures c != '+' && c != '/' && c != ';'
  {
    if d < 10 then ('0' as int + d) as char else ('a' as int + d - 10) as char
  }

  /** `x` written with exactly `k` digits (leading zeros as needed). */
  function Digits(x: nat, k: nat, radix: nat): (s: string)
    requires 2 <= radix <= 36
    requires x < Pow(radix, k)
    ensures |s| == k
    ensures IsDigits(s, radix)
    ensures ValueOf(s, radix) == x
    ensures forall i :: 0 <= i < |s| ==> s[i] != '+' && s[i] != '/' && s[i] != ';'
    decreases k
  {
    if k == 0 then ""
    else
      SplitLastDigit(x, k, radix);
      var d := x % radix;
      var hi := x / radix;
      var front := Digits(hi, k - 1, radix);
      var c := DigitChar(d);
      AppendDigit(front, c, hi, d, x, radix);
      front + [c]
  }

  lemma SplitLastDigit(x: nat, k: nat, radix: nat)
    requires 2 <= radix && 1 <= k && x < Pow(radix, k)
    ensures 0 <= x / radix < Pow(radix, k - 1) && 0 <= x % radix < radix
    ensures x == (x / radix) * radix + x % radix
  {
    LastDigit(x, radix, Pow(radix, k - 1));
  }

  /** Appending a digit multiplies the value by the radix and adds it. */
  lemma AppendDigit(front: string, c: char, hi: nat, d: nat, x: nat, radix: nat)
    requires 2 <= radix <= 36 && IsDigits(front, radix) && DigitOf(c, radix) == Some(d)
    requires ValueOf(front, radix) == hi && x == hi * radix + d
    requires forall i :: 0 <= i < |front| ==> front[i] != '+' && front[i] != '/' && front[i] != ';'
    requires c != '+' && c != '/' && c != ';'
    ensures IsDigits(front + [c], radix)
    ensures ValueOf(front + [c], radix) == x
    ensures forall i :: 0 <= i < |front| + 1 ==>
      (front + [c])[i] != '+' && (front + [c])[i] != '/' && (front + [c])[i] != ';'
  {
    var s := front + [c];
    assert s[..|s| - 1] == front;
    assert s[|s| - 1] == c;
  }

  /** Parsing undoes `Digits`, whatever the number of leading zeros. */
  lemma ParseDigits(x: nat, k: nat, radix: nat, max: nat)
    requires 2 <= radix <= 36
    requires 1 <= k && x < Pow(radix, k) && x <= max
    ensures ParseUnsigned(Digits(x, k, radix), radix, max) == Some(x)
  {
    var s := Digits(x, k, radix);
    assert Unsigned(s) == s;
  }

  /** A single leading `+` is accepted and otherwise ignored. */
  lemma LeadingPlusAccepted(digits: string, radix: nat, max: nat)
    requires 2 <= radix <= 36
    requires |digits| >= 1 && IsDigits(digits, radix)
    ensures ParseUnsigned(['+'] + digits, radix, max) == ParseUnsigned(digits, radix, max)
  {
    assert Unsigned(['+'] + digits) == digits;
    assert DigitOf(digits[0], radix).Some?;
  }
}
