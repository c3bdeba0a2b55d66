/**
  Decimal numbers in text: the digit-run parsers the chat programs call
  (the kernel's `simple_strtol` with base 10 and ISO C's `atoi`, section
  7.22.1.2 of ISO/IEC 9899:2011), the 32-bit `pid_t` they store the result
  in, and a printer used to state round trips.
 */
module Decimal {
  import opened CString

  predicate IsDigit(c: char)
  {
    '0' <= c <= '9'
  }

  function DigitValue(c: char): (d: nat)
    requires IsDigit(c)
    ensures d < 10
  {
    c as int - '0' as int
  }

  function DigitChar(d: nat): (c: char)
    requires d < 10
    ensures IsDigit(c) && DigitValue(c) == d
  {
    ('0' as int + d) as char
  }

  predicate AllDigits(s: seq<char>)
  {
    forall i :: 0 <= i < |s| ==> IsDigit(s[i])
  }

  /** The value of a digit string, most significant digit first. */
  function Value(s: seq<char>): nat
    requires AllDigits(s)
  {
    if |s| == 0 then 0 else Value(s[..|s| - 1]) * 10 + DigitValue(s[|s| - 1])
  }

  /** The length of the maximal run of digits at the start of `s`. */
  function DigitRun(s: seq<char>): (k: nat)
    ensures k <= |s| && AllDigits(s[..k])
    ensures k < |s| ==> !IsDigit(s[k])
  {
    if |s| == 0 || !IsDigit(s[0]) then 0
    else
      var k := DigitRun(s[1..]);
      assert s[..k + 1] == [s[0]] + s[1..][..k];
      k + 1
  }

  /** A parsed number and the index of the first character the parser did
      not consume (`endp - cp` for `simple_strtol`). */
  datatype Parse = Parse(value: int, stop: nat)

  /** `simple_strtol(cp, &endp, 10)`: an optional `'-'` then the maximal run
      of digits. No whitespace is skipped; with no digits the value is 0 and
      `endp` points just past the sign, if any. The value is the
      mathematical one (see `ToInt32` for the store into a `pid_t`). */
  function StrTol(s: seq<char>): (r: Parse)
    ensures var sign := if |s| > 0 && s[0] == '-' then 1 else 0;
            && sign <= r.stop <= |s|
            && AllDigits(s[sign..r.stop])
            && (r.stop < |s| ==> !IsDigit(s[r.stop]))
            && r.value == (if sign == 1 then -(Value(s[1..r.stop]) as int) else Value(s[..r.stop]))
  {
    if |s| > 0 && s[0] == '-' then
      var k := DigitRun(s[1..]);
      assert s[1..1 + k] == s[1..][..k];
      Parse(-(Value(s[1..][..k]) as int), 1 + k)
    else
      var k := DigitRun(s);
      Parse(Value(s[..k]), k)
  }

  /** ISO C `atoi`: leading white space is skipped, then an optional sign
      and the maximal run of digits; no digits gives 0. */
  function Atoi(s: seq<char>): (v: int)
    ensures |s| > 0 && !IsSpace(s[0]) && !IsDigit(s[0]) && s[0] != '-' && s[0] != '+' ==> v == 0
    ensures (forall i :: 0 <= i < |s| ==> IsSpace(s[i])) ==> v == 0
  {
    if |s| == 0 then 0
    else if IsSpace(s[0]) then Atoi(s[1..])
    else Signed(s)
  }

  /** The value of the digit run at the start of `t`. */
  function Leading(t: seq<char>): nat
  {
    Value(t[..DigitRun(t)])
  }

  /** An optional sign and the digit run after it. */
  function Signed(t: seq<char>): int
    requires |t| > 0
  {
    if t[0] == '-' then -(Leading(t[1..]) as int)
    else if t[0] == '+' then Leading(t[1..])
    else Leading(t)
  }

  /** The value `atoi` gives: past the leading white space, an optional
      sign and then the value of the maximal digit run. */
  lemma {:induction false} AtoiValue(s: seq<char>)
    ensures var i := SpaceRun(s);
            i < |s| ==>
              var t := s[i..];
              && (t[0] == '-' ==> Atoi(s) == -(Value(t[1..][..DigitRun(t[1..])]) as int))
              && (t[0] == '+' ==> Atoi(s) == Value(t[1..][..DigitRun(t[1..])]))
              && (t[0] != '-' && t[0] != '+' ==> Atoi(s) == Value(t[..DigitRun(t)]))
  {
    if |s| > 0 && IsSpace(s[0]) {
      AtoiValue(s[1..]);
      assert s[1..][SpaceRun(s[1..])..] == s[SpaceRun(s)..];
    } else if |s| > 0 {
      assert s[0..] == s;
    }
  }

  const TWO32: int := 0x1_0000_0000
  const INT32_MIN: int := -0x8000_0000
  const INT32_MAX: int := 0x7FFF_FFFF

  /** The value a 32-bit two's-complement `pid_t` holds after the
      assignment of `v`: the unique value in range congruent to `v`
      modulo 2^32. */
  function ToInt32(v: int): (r: int)
    ensures INT32_MIN <= r <= INT32_MAX
    ensures (r - v) % TWO32 == 0
  {
    var m := v % TWO32;
    if m > INT32_MAX then m - TWO32 else m
  }

  lemma ToInt32Identity(v: int)
    requires INT32_MIN <= v <= INT32_MAX
    ensures ToInt32(v) == v
  {
    if v < 0 {
      assert v % TWO32 == v + TWO32;
    }
  }

  /** The decimal digits of `n` without leading zeros (as `printf("%d")`). */
  function Digits(n: nat): (s: seq<char>)
    ensures |s| > 0 && AllDigits(s)
  {
    if n < 10 then [DigitChar(n)] else Digits(n / 10) + [DigitChar(n % 10)]
  }

  lemma {:induction false} ValueOfDigits(n: nat)
    ensures Value(Digits(n)) == n
  {
    var s := Digits(n);
    if n >= 10 {
      assert s[..|s| - 1] == Digits(n / 10);
      ValueOfDigits(n / 10);
    }
  }

  lemma DigitsHaveNoNul(n: nat)
    ensures NUL !in Digits(n)
  {
    assert !IsDigit(NUL);
  }

  /** The digit run of a digit string followed by a non-digit is that string. */
  lemma {:induction false} DigitRunOfDigits(d: seq<char>, rest: seq<char>)
    requires AllDigits(d)
    requires rest == [] || !IsDigit(rest[0])
    ensures DigitRun(d + rest) == |d|
  {
    if |d| > 0 {
      assert (d + rest)[1..] == d[1..] + rest;
      DigitRunOfDigits(d[1..], rest);
    } else {
      assert d + rest == rest;
    }
  }

  /** Cutting a string at a non-digit (or at its end) keeps its digit run. */
  lemma {:induction false} DigitRunPrefix(t: seq<char>, k: nat)
    requires k <= |t| && (k == |t| || !IsDigit(t[k]))
    ensures DigitRun(t[..k]) == DigitRun(t)
    decreases k
  {
    if k > 0 {
      if IsDigit(t[0]) {
        DigitRunPrefix(t[1..], k - 1);
        assert t[..k][1..] == t[1..][..k - 1];
      } else {
        assert t[..k][0] == t[0];
      }
    }
  }



  /** The number read from a string cut at a non-digit is the number read
      from the whole string. */
  lemma DigitRunKept(t: seq<char>, k: nat)
    requires k <= |t| && (k == |t| || !IsDigit(t[k]))
    ensures Value(t[..k][..DigitRun(t[..k])]) == Value(t[..DigitRun(t)])
  {
    DigitRunPrefix(t, k);
    assert t[..k][..DigitRun(t)] == t[..DigitRun(t)];
  }

  /** `atoi` skips the leading white space. */
  lemma {:induction false} AtoiSkipsSpace(s: seq<char>)
    ensures Atoi(s) == Atoi(s[SpaceRun(s)..])
  {
    if |s| > 0 && IsSpace(s[0]) {
      AtoiSkipsSpace(s[1..]);
      assert s[1..][SpaceRun(s[1..])..] == s[SpaceRun(s)..];
    } else {
      assert s[0..] == s;
    }
  }

  /** Cutting a token at white space does not change what `atoi` reads. */
  lemma AtoiCut(t: seq<char>, k: nat)
    requires 0 < k <= |t| && !IsSpace(t[0]) && (k == |t| || IsSpace(t[k]))
    ensures Atoi(t[..k]) == Atoi(t)
  {
    var w := t[..k];
    assert w[0] == t[0];
    if t[0] == '-' || t[0] == '+' {
      assert w[1..] == t[1..][..k - 1];
      DigitRunKept(t[1..], k - 1);
    } else {
      DigitRunKept(t, k);
    }
  }

  /** `simple_strtol` reads back a printed number and stops right after it. */
  lemma StrTolRoundTrip(n: nat, rest: seq<char>)
    requires rest == [] || !IsDigit(rest[0])
    ensures StrTol(Digits(n) + rest) == Parse(n, |Digits(n)|)
  {
    var d := Digits(n);
    var s := d + rest;
    assert IsDigit(s[0]);
    DigitRunOfDigits(d, rest);
    assert s[..|d|] == d;
    ValueOfDigits(n);
  }

  /** `atoi` reads back a printed number followed by any non-digit, with
      or without a sign or leading white space. */
  lemma AtoiRoundTrip(n: nat, rest: seq<char>)
    requires rest == [] || !IsDigit(rest[0])
    ensures Atoi(Digits(n) + rest) == n
    ensures Atoi(['-'] + (Digits(n) + rest)) == -(n as int)
    ensures Atoi(['+'] + (Digits(n) + rest)) == n
    ensures Atoi([' '] + (Digits(n) + rest)) == n
  {
    AtoiPlain(n, rest);
    AtoiAfterMinus(Digits(n) + rest);
    AtoiAfterPlus(Digits(n) + rest);
    AtoiAfterSpace(Digits(n) + rest);
  }


  lemma AtoiPlain(n: nat, rest: seq<char>)
    requires rest == [] || !IsDigit(rest[0])
    ensures Atoi(Digits(n) + rest) == n
  {
    var d := Digits(n);
    var s := d + rest;
    DigitRunOfDigits(d, rest);
    assert s[..|d|] == d;
    ValueOfDigits(n);
    assert IsDigit(s[0]) && SpaceRun(s) == 0 && s[0..] == s;
  }

  /** A sign or a space in front of a string that starts with a digit. */
  lemma AtoiAfterMinus(s: seq<char>)
    requires |s| > 0 && IsDigit(s[0])
    ensures Atoi(['-'] + s) == -Atoi(s)
  {
    assert (['-'] + s)[1..] == s;
  }

  lemma AtoiAfterPlus(s: seq<char>)
    requires |s| > 0 && IsDigit(s[0])
    ensures Atoi(['+'] + s) == Atoi(s)
  {
    assert (['+'] + s)[1..] == s;
  }

  lemma AtoiAfterSpace(s: seq<char>)
    ensures Atoi([' '] + s) == Atoi(s)
  {
    assert ([' '] + s)[1..] == s;
  }




}
