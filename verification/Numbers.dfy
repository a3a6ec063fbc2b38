/** Printing and parsing integers (Kernel/src/kfuncs.c:731-804 and 835-916). A string is the sequence of its characters
    before the terminating NUL. */
module Numbers {
  import opened Arithmetic
  import opened Common

  const I64_MIN := -0x8000_0000_0000_0000
  const I64_MAX := 0x7FFF_FFFF_FFFF_FFFF

  /** The signed words are those of two's complement. */
  lemma {:induction false} SignedRange()
    ensures I64_MAX - I64_MIN == U64_MAX && I64_MIN == -I64_MAX - 1
  {
  }

  // ----- digits -----

  /** kchar_to_digit. */
  function DigitOf(c: char): int {
    if '0' <= c <= '9' then c as int - '0' as int
    else if 'a' <= c <= 'z' then c as int - 'a' as int + 10
    else if 'A' <= c <= 'Z' then c as int - 'A' as int + 10
    else -1
  }

  function CharOf(digit: nat, caps: bool): char
    requires digit < 36
  {
    if digit < 10 then ('0' as int + digit) as char
    else ((if caps then 'A' else 'a') as int + digit - 10) as char
  }

  lemma {:induction false} DigitRoundTrip(digit: nat, caps: bool)
    requires digit < 36
    ensures DigitOf(CharOf(digit, caps)) == digit
  {
  }

  predicate IsDigit(c: char, base: nat) { 0 <= DigitOf(c) < base }

  predicate BaseOk(base: int) { 2 <= base <= 36 }

  // ----- what a digit string means -----

  function Push(v: nat, base: nat, digit: nat): nat { v * base + digit }

  predicate AllDigits(s: string, base: nat) { forall i | 0 <= i < |s| :: IsDigit(s[i], base) }

  /** The value of a string of digits. */
  function Value(s: string, base: nat): nat
    requires AllDigits(s, base)
  {
    if s == [] then 0 else assert IsDigit(s[|s| - 1], base); Push(Value(s[..|s| - 1], base), base, DigitOf(s[|s| - 1]))
  }

  /** How many leading characters are digits. */
  function DigitCount(s: string, base: nat): (n: nat)
    ensures n <= |s| && forall i | 0 <= i < n :: IsDigit(s[i], base)
    ensures n < |s| ==> !IsDigit(s[n], base)
    decreases |s|
  {
    if s == [] || !IsDigit(s[0], base) then 0 else 1 + DigitCount(s[1..], base)
  }

  function Prefix(s: string, base: nat): (p: string)
    ensures AllDigits(p, base)
  {
    s[..DigitCount(s, base)]
  }

  lemma {:induction false} PushGrows(v: nat, base: nat, digit: nat)
    requires base >= 1
    ensures v <= Push(v, base, digit)
  {
    assert v * 1 <= v * base;
  }

  lemma {:induction false} PushUndone(v: nat, base: nat)
    requires base >= 1
    ensures Push(v / base, base, v % base) == v
  {
  }

  lemma {:induction false} ValueAppend(t: string, c: char, base: nat)
    requires AllDigits(t, base) && IsDigit(c, base)
    ensures AllDigits(t + [c], base) && Value(t + [c], base) == Push(Value(t, base), base, DigitOf(c))
  {
    assert (t + [c])[..|t|] == t;
  }

  lemma {:induction false} ValueGrows(s: string, k: nat, base: nat)
    requires k <= |s| && base >= 1 && AllDigits(s, base)
    ensures Value(s[..k], base) <= Value(s, base)
    decreases |s|
  {
    if k < |s| {
      var t := s[..|s| - 1];
      ValueGrows(t, k, base);
      assert t[..k] == s[..k];
      PushGrows(Value(t, base), base, DigitOf(s[|s| - 1]));
    } else {
      assert s[..k] == s;
    }
  }

  lemma {:induction false} CountIs(s: string, n: nat, base: nat)
    requires n <= |s| && (forall i | 0 <= i < n :: IsDigit(s[i], base)) && (n < |s| ==> !IsDigit(s[n], base))
    ensures DigitCount(s, base) == n
    decreases n
  {
    if n == 0 {
    } else {
      CountIs(s[1..], n - 1, base);
    }
  }

  // ----- the parsers -----

  function Unsigned(s: string): string { if s != [] && s[0] == '+' then s[1..] else s }

  /** The guard before each multiplication says exactly whether the next value leaves 64 bits. */
  lemma {:induction false} GuardIsExact(r: nat, d: nat, base: nat)
    requires d < base <= 36 && base >= 2
    ensures r > (U64_MAX - d) / base <==> r * base + d > U64_MAX
  {
    var q := (U64_MAX - d) / base;
    if r > q {
      assert r * base >= (q + 1) * base;
    } else {
      assert r * base <= q * base;
    }
  }

  lemma {:induction false} NextValue(s: string, i: nat, base: nat)
    requires i < |s| && AllDigits(s[..i], base) && IsDigit(s[i], base)
    ensures AllDigits(s[..i + 1], base) && Value(s[..i + 1], base) == Push(Value(s[..i], base), base, DigitOf(s[i]))
  {
    assert s[..i + 1][..i] == s[..i];
  }

  /** The shared loop: the value of the digit prefix, or None where it leaves 64 bits. */
  method ParseDigits(s: string, base: nat) returns (r: Option<nat>)
    requires BaseOk(base)
    ensures r == if Value(Prefix(s, base), base) <= U64_MAX then Some(Value(Prefix(s, base), base)) else None
  {
    var result: nat := 0;
    var i := 0;
    while i < |s| && IsDigit(s[i], base)
      invariant i <= |s| && forall k | 0 <= k < i :: IsDigit(s[k], base)
      invariant result == Value(s[..i], base) && result <= U64_MAX
    {
      var digit := DigitOf(s[i]);
      GuardIsExact(result, digit, base);
      NextValue(s, i, base);
      if result > (U64_MAX - digit) / base {
        PrefixHolds(s, i + 1, base);
        return None;
      }
      result := result * base + digit;
      i := i + 1;
    }
    CountIs(s, i, base);
    return Some(result);
  }

  lemma {:induction false} PrefixHolds(s: string, k: nat, base: nat)
    requires k <= |s| && base >= 1 && forall i | 0 <= i < k :: IsDigit(s[i], base)
    ensures Value(s[..k], base) <= Value(Prefix(s, base), base)
  {
    var p := Prefix(s, base);
    assert |p| >= k;
    assert p[..k] == s[..k];
    ValueGrows(p, k, base);
  }

  /** kstr_to_u64: the longest digit prefix after an optional plus sign, clamped to 64 bits; 0 for a base that is not 2
      to 36. */
  method StrToU64(s: string, base: int) returns (r: nat)
    ensures !BaseOk(base) ==> r == 0
    ensures BaseOk(base) ==> r == ParsedU64(s, base)
  {
    if !BaseOk(base) {
      return 0;
    }
    var v := ParseDigits(Unsigned(s), base);
    return if v.Some? then v.value else U64_MAX;
  }

  function ParsedU64(s: string, base: nat): nat { Min(Value(Prefix(Unsigned(s), base), base), U64_MAX) }

  function Clamp(x: int): int { if x < I64_MIN then I64_MIN else if x > I64_MAX then I64_MAX else x }

  function ParsedI64(s: string, base: nat): int {
    if s != [] && s[0] == '-' then Clamp(0 - Value(Prefix(s[1..], base), base))
    else Clamp(Value(Prefix(Unsigned(s), base), base))
  }

  /** kstr_to_i64: the same with a sign, clamped at both ends. */
  method StrToI64(s: string, base: int) returns (r: int)
    ensures !BaseOk(base) ==> r == 0
    ensures BaseOk(base) ==> r == ParsedI64(s, base)
  {
    if !BaseOk(base) {
      return 0;
    }
    var neg, rest := false, s;
    if s != [] && s[0] == '-' {
      neg, rest := true, s[1..];
    } else if s != [] && s[0] == '+' {
      rest := s[1..];
    }
    var v := ParseDigits(rest, base);
    if v.None? {
      return if neg then I64_MIN else I64_MAX;
    }
    if neg {
      return if v.value > I64_MAX + 1 then I64_MIN else -v.value;
    }
    return if v.value > I64_MAX then I64_MAX else v.value;
  }

  // ----- the printers -----

  /** The digits of `v`, highest first. */
  function Digits(v: nat, base: nat, caps: bool): (s: string)
    requires BaseOk(base)
    ensures |s| > 0
    decreases v
  {
    (if v < base then [] else Digits(v / base, base, caps)) + [CharOf(v % base, caps)]
  }

  function Reverse(s: string): (r: string)
    ensures |r| == |s| && forall i | 0 <= i < |s| :: r[i] == s[|s| - 1 - i]
  {
    seq(|s|, i requires 0 <= i < |s| => s[|s| - 1 - i])
  }

  /** The sign and the magnitude that ki64_to_str prints. */
  function Magnitude(v: int, base: nat): nat
    requires I64_MIN <= v <= I64_MAX
  {
    if v >= 0 then v else if base == 10 then -v else v + U64
  }

  function PrintedI64(v: int, base: nat, caps: bool): string
    requires I64_MIN <= v <= I64_MAX && BaseOk(base)
  {
    (if base == 10 && v < 0 then "-" else "") + Digits(Magnitude(v, base), base, caps)
  }

  /** The digits of `v`, lowest first. */
  function LowFirst(v: nat, base: nat, caps: bool): (s: string)
    requires BaseOk(base)
    decreases v
  {
    [CharOf(v % base, caps)] + if v < base then [] else LowFirst(v / base, base, caps)
  }

  lemma {:induction false} LowFirstIsReverse(v: nat, base: nat, caps: bool)
    requires BaseOk(base)
    ensures LowFirst(v, base, caps) == Reverse(Digits(v, base, caps))
    decreases v
  {
    LastDigit(v, base);
    if v >= base {
      LowFirstIsReverse(v / base, base, caps);
      ReverseAppend(Digits(v / base, base, caps), CharOf(v % base, caps));
    } else {
      ReverseAppend([], CharOf(v % base, caps));
    }
  }

  lemma {:induction false} ReverseAppend(s: string, c: char)
    ensures Reverse(s + [c]) == [c] + Reverse(s)
  {
  }

  lemma {:induction false} LastDigit(v: nat, base: nat)
    requires BaseOk(base)
    ensures v < base <==> v / base == 0
    ensures v >= base ==> v / base < v
  {
  }

  /** What is still to come after the quotient `val`; nothing after zero. */
  function Rest(val: nat, base: nat, caps: bool): string
    requires BaseOk(base)
  {
    if val == 0 then "" else LowFirst(val, base, caps)
  }

  lemma {:induction false} LowFirstStep(v: nat, base: nat, caps: bool)
    requires BaseOk(base)
    ensures LowFirst(v, base, caps) == [CharOf(v % base, caps)] + Rest(v / base, base, caps)
  {
    LastDigit(v, base);
  }

  /** One turn of the digit loop. */
  method PutDigit(val: nat, buf: array<char>, n: nat, base: nat, caps: bool, ghost rest: string)
    returns (next: nat, ghost rest': string)
    requires BaseOk(base) && n < buf.Length && rest == LowFirst(val, base, caps)
    modifies buf
    ensures rest' == Rest(next, base, caps) && (next > 0 ==> next < val)
    ensures buf[..n + 1] + rest' == old(buf[..n]) + rest
    ensures forall i | n < i < buf.Length :: buf[i] == old(buf[i])
  {
    LastDigit(val, base);
    LowFirstStep(val, base, caps);
    buf[n] := CharOf(val % base, caps);
    next := val / base;
    rest' := Rest(next, base, caps);
    assert buf[..n + 1] == old(buf[..n]) + [buf[n]];
  }

  /** The digit loop: lowest digit first. It stops as soon as the buffer is full. */
  method FillDigits(v: nat, buf: array<char>, max: nat, base: nat, caps: bool, ghost all: string)
    returns (ok: bool, n: nat)
    requires BaseOk(base) && 0 < max <= buf.Length && all == LowFirst(v, base, caps)
    modifies buf
    ensures n <= max && ok == (|all| < max)
    ensures ok ==> n == |all| && buf[..n] == all
    ensures forall i | n <= i < buf.Length :: buf[i] == old(buf[i])
  {
    ghost var rest;
    var val: nat;
    val, rest := PutDigit(v, buf, 0, base, caps, all);
    n := 1;
    while n < max && val != 0
      invariant 0 < n <= max && rest == Rest(val, base, caps)
      invariant buf[..n] + rest == all
      invariant forall i | n <= i < buf.Length :: buf[i] == old(buf[i])
      decreases max - n
    {
      val, rest := PutDigit(val, buf, n, base, caps, rest);
      n := n + 1;
    }
    ok := n < max;
  }

  /** The swap loop that turns the buffer round. */
  method TurnRound(buf: array<char>, n: nat)
    requires n <= buf.Length
    modifies buf
    ensures buf[..n] == Reverse(old(buf[..n]))
    ensures forall i | n <= i < buf.Length :: buf[i] == old(buf[i])
  {
    var start, end: int := 0, n - 1;
    while start < end
      invariant 0 <= start && start + end == n - 1
      invariant forall i | 0 <= i < n && (i < start || i > end) :: buf[i] == old(buf[n - 1 - i])
      invariant forall i | start <= i <= end && i < n :: buf[i] == old(buf[i])
      invariant forall i | n <= i < buf.Length :: buf[i] == old(buf[i])
    {
      buf[start], buf[end] := buf[end], buf[start];
      start, end := start + 1, end - 1;
    }
  }

  lemma {:induction false} ReverseTwice(s: string)
    ensures Reverse(Reverse(s)) == s
  {
  }

  /** The buffer holds `s`, a NUL, and behind it what it held before. */
  twostate predicate Holds(buf: array<char>, s: string)
    reads buf
  {
    && |s| < buf.Length && buf[..|s|] == s && buf[|s|] == '\0'
    && forall i | |s| < i < buf.Length :: buf[i] == old(buf[i])
  }

  /** ku64_to_str. It succeeds if and only if the buffer has room for the digits and two characters more. */
  method U64ToStr(v: nat, buf: array<char>, max: nat, base: nat, caps: bool) returns (ok: bool)
    requires BaseOk(base) && v < U64 && max <= buf.Length
    modifies buf
    ensures ok == (|Digits(v, base, caps)| + 2 <= max)
    ensures ok ==> Holds(buf, Digits(v, base, caps))
    ensures forall i | max <= i < buf.Length :: buf[i] == old(buf[i])
  {
    if max == 0 {
      return false;
    }
    var n: nat;
    LowFirstIsReverse(v, base, caps);
    ok, n := FillDigits(v, buf, max, base, caps, Reverse(Digits(v, base, caps)));
    if !ok {
      return false;
    }
    ok := Finish(buf, n, max, Digits(v, base, caps));
  }

  /** ki64_to_str. */
  method I64ToStr(v: int, buf: array<char>, max: nat, base: nat, caps: bool) returns (ok: bool)
    requires BaseOk(base) && I64_MIN <= v <= I64_MAX && max <= buf.Length
    modifies buf
    ensures ok == (|PrintedI64(v, base, caps)| + 2 <= max)
    ensures ok ==> Holds(buf, PrintedI64(v, base, caps))
    ensures forall i | max <= i < buf.Length :: buf[i] == old(buf[i])
  {
    if max == 0 {
      return false;
    }
    var neg := base == 10 && v < 0;
    var val: nat := if neg then -(v + 1) + 1 else if v < 0 then v + U64 else v;
    var n: nat;
    LowFirstIsReverse(val, base, caps);
    ok, n := FillDigits(val, buf, max, base, caps, Reverse(Digits(val, base, caps)));
    if !ok {
      return false;
    }
    assert val == Magnitude(v, base);
    PrintedReversed(v, base, caps);
    if neg {
      buf[n] := '-';
      n := n + 1;
      if n == max {
        return false;
      }
      assert buf[..n] == buf[..n - 1] + "-";
    }
    ok := Finish(buf, n, max, PrintedI64(v, base, caps));
  }

  lemma {:induction false} PrintedReversed(v: int, base: nat, caps: bool)
    requires BaseOk(base) && I64_MIN <= v <= I64_MAX
    ensures var digits, neg := Digits(Magnitude(v, base), base, caps), base == 10 && v < 0;
            && |PrintedI64(v, base, caps)| == |digits| + (if neg then 1 else 0)
            && Reverse(PrintedI64(v, base, caps)) == if neg then Reverse(digits) + "-" else Reverse(digits)
  {
    var digits := Digits(Magnitude(v, base), base, caps);
    assert Reverse("-" + digits) == Reverse(digits) + "-";
    assert "" + digits == digits;
  }

  /** The end that both printers share: the NUL and the swap loop. */
  method Finish(buf: array<char>, n: nat, max: nat, ghost s: string) returns (ok: bool)
    requires n < max <= buf.Length && buf[..n] == Reverse(s)
    modifies buf
    ensures ok == (n + 1 < max) && (ok ==> |s| == n && buf[..n] == s && buf[n] == '\0')
    ensures forall i | n < i < buf.Length :: buf[i] == old(buf[i])
  {
    buf[n] := '\0';
    if n + 1 == max {
      return false;
    }
    TurnRound(buf, n);
    ReverseTwice(s);
    return true;
  }

  // ----- they undo each other -----

  lemma {:induction false} DigitsMean(v: nat, base: nat, caps: bool)
    requires BaseOk(base)
    ensures AllDigits(Digits(v, base, caps), base) && Value(Digits(v, base, caps), base) == v
    decreases v
  {
    DigitRoundTrip(v % base, caps);
    PushUndone(v, base);
    LastDigit(v, base);
    if v >= base {
      DigitsMean(v / base, base, caps);
      ValueAppend(Digits(v / base, base, caps), CharOf(v % base, caps), base);
    } else {
      ValueAppend([], CharOf(v % base, caps), base);
    }
  }

  /** Reading what was printed, up to anything that is not a digit, gives the number back. */
  lemma {:induction false} PrefixOfDigits(v: nat, base: nat, caps: bool, rest: string)
    requires BaseOk(base) && (rest == [] || !IsDigit(rest[0], base))
    ensures Prefix(Digits(v, base, caps) + rest, base) == Digits(v, base, caps)
    ensures Value(Prefix(Digits(v, base, caps) + rest, base), base) == v
  {
    DigitsMean(v, base, caps);
    CountIs(Digits(v, base, caps) + rest, |Digits(v, base, caps)|, base);
  }

  lemma {:induction false} FirstIsDigit(v: nat, base: nat, caps: bool, rest: string)
    requires BaseOk(base)
    ensures (Digits(v, base, caps) + rest)[0] != '+' && (Digits(v, base, caps) + rest)[0] != '-'
  {
    DigitsMean(v, base, caps);
    assert IsDigit(Digits(v, base, caps)[0], base);
  }

  /** kstr_to_u64 undoes ku64_to_str in every base, and stops at whatever follows the digits. */
  lemma {:induction false} U64RoundTrip(v: nat, base: nat, caps: bool, rest: string)
    requires BaseOk(base) && v < U64 && (rest == [] || !IsDigit(rest[0], base))
    ensures ParsedU64(Digits(v, base, caps) + rest, base) == v
  {
    PrefixOfDigits(v, base, caps, rest);
    FirstIsDigit(v, base, caps, rest);
  }

  lemma {:induction false} NegativeRead(m: nat, base: nat, caps: bool, rest: string)
    requires BaseOk(base) && (rest == [] || !IsDigit(rest[0], base))
    ensures ParsedI64("-" + Digits(m, base, caps) + rest, base) == Clamp(0 - m)
  {
    assert "-" + Digits(m, base, caps) + rest == "-" + (Digits(m, base, caps) + rest);
    BehindSign(Digits(m, base, caps) + rest, base);
    PrefixOfDigits(m, base, caps, rest);
  }

  lemma {:induction false} BehindSign(s: string, base: nat)
    requires BaseOk(base)
    ensures ParsedI64("-" + s, base) == Clamp(0 - Value(Prefix(s, base), base))
  {
    assert ("-" + s)[1..] == s;
  }

  lemma {:induction false} PositiveRead(m: nat, base: nat, caps: bool, rest: string)
    requires BaseOk(base) && (rest == [] || !IsDigit(rest[0], base))
    ensures ParsedI64(Digits(m, base, caps) + rest, base) == Clamp(m)
  {
    PrefixOfDigits(m, base, caps, rest);
    FirstIsDigit(m, base, caps, rest);
  }

  /** kstr_to_i64 undoes ki64_to_str if and only if the base is ten or the number is not negative: in other bases a
      negative number is printed as its 64-bit pattern, which reads back as the largest signed number. */
  lemma {:induction false} I64RoundTripIff(v: int, base: nat, caps: bool, rest: string)
    requires BaseOk(base) && I64_MIN <= v <= I64_MAX && (rest == [] || !IsDigit(rest[0], base))
    ensures ParsedI64(PrintedI64(v, base, caps) + rest, base) == v <==> base == 10 || v >= 0
  {
    var m := Magnitude(v, base);
    NegativeRead(m, base, caps, rest);
    PositiveRead(m, base, caps, rest);
    assert "" + Digits(m, base, caps) == Digits(m, base, caps);
  }

  // ----- what is printed has only one form -----

  /** The letters are of the requested case. */
  predicate InCase(s: string, caps: bool) {
    forall i | 0 <= i < |s| :: if caps then !('a' <= s[i] <= 'z') else !('A' <= s[i] <= 'Z')
  }

  /** A number in `base`: digits of one case, without a leading zero. */
  predicate Numeral(s: string, base: nat, caps: bool) {
    s != [] && AllDigits(s, base) && InCase(s, caps) && (|s| > 1 ==> s[0] != '0')
  }

  lemma {:induction false} CharIsDigit(digit: nat, caps: bool, c: char)
    requires digit < 36 && DigitOf(c) == digit && InCase([c], caps)
    ensures CharOf(digit, caps) == c
  {
    assert [c][0] == c;
  }

  lemma {:induction false} CharInCase(digit: nat, caps: bool)
    requires digit < 36
    ensures InCase([CharOf(digit, caps)], caps) && (digit > 0 ==> CharOf(digit, caps) != '0')
  {
  }

  lemma {:induction false} ValueIsPositive(s: string, base: nat)
    requires base >= 2 && s != [] && AllDigits(s, base) && s[0] != '0'
    ensures Value(s, base) > 0
  {
    assert IsDigit(s[0], base) && s[..1][..0] == [];
    ValueGrows(s, 1, base);
  }

  lemma {:induction false} DigitsAreNumeral(v: nat, base: nat, caps: bool)
    requires BaseOk(base)
    ensures Numeral(Digits(v, base, caps), base, caps) && (v > 0 ==> Digits(v, base, caps)[0] != '0')
    decreases v
  {
    DigitsMean(v, base, caps);
    CharInCase(v % base, caps);
    LastDigit(v, base);
    if v >= base {
      DigitsAreNumeral(v / base, base, caps);
      CasesJoin(Digits(v / base, base, caps), [CharOf(v % base, caps)], caps);
    } else {
      assert Digits(v, base, caps) == [CharOf(v % base, caps)];
    }
  }

  lemma {:induction false} CasesJoin(s: string, t: string, caps: bool)
    requires InCase(s, caps) && InCase(t, caps)
    ensures InCase(s + t, caps)
  {
  }

  lemma {:induction false} PushParts(v: nat, base: nat, q: nat, digit: nat)
    requires digit < base && v == Push(q, base, digit)
    ensures v / base == q && v % base == digit
  {
    PushIs(q, base, digit);
    DivUnique(v, base, q, digit);
    assert v == base * (v / base) + v % base;
  }

  lemma {:induction false} PushIs(q: nat, base: nat, digit: nat)
    ensures Push(q, base, digit) == base * q + digit
  {
  }

  /** What ku64_to_str prints is the only numeral of the number in its base and case. */
  lemma {:induction false} OnlyNumeral(v: nat, base: nat, caps: bool, s: string)
    requires BaseOk(base) && Numeral(s, base, caps) && Value(s, base) == v
    ensures s == Digits(v, base, caps)
    decreases |s|
  {
    var front, c := s[..|s| - 1], s[|s| - 1];
    assert s == front + [c] && IsDigit(c, base);
    PushParts(v, base, Value(front, base), DigitOf(c));
    assert InCase([c], caps);
    CharIsDigit(v % base, caps, c);
    if front == [] {
      assert v < base;
    } else {
      ValueIsPositive(front, base);
      LastDigit(v, base);
      OnlyNumeral(v / base, base, caps, front);
    }
  }

  /** One plus sign in front changes nothing. */
  lemma {:induction false} PlusIsSkipped(s: string, base: nat)
    requires BaseOk(base) && (s == [] || (s[0] != '+' && s[0] != '-'))
    ensures ParsedU64("+" + s, base) == ParsedU64(s, base) && ParsedI64("+" + s, base) == ParsedI64(s, base)
  {
    assert ("+" + s)[1..] == s;
  }

  /** A second sign ends the number before it has begun. */
  lemma {:induction false} SecondSignStops(s: string, base: nat, first: char, second: char)
    requires BaseOk(base) && first in {'+', '-'} && second in {'+', '-'}
    ensures ParsedI64([first, second] + s, base) == 0 && (first == '+' ==> ParsedU64([first, second] + s, base) == 0)
  {
    var rest := [second] + s;
    assert ([first, second] + s)[1..] == rest;
    CountIs(rest, 0, base);
  }
}
