/** Number printing of lib/print.c and lib/util.c: digits written backwards into a buffer that is reversed in place. */
module NumberPrint {
  import opened Bits

  const NUL: char := 0 as char
  const DIGITS: string := "0123456789ABCDEF"
  const LEAST_INT: int := -0x8000_0000

  // ----- numerals and what they mean

  /** The digits of a number, most significant first; none for zero. */
  function Digits(value: nat, base: nat): string
    requires 2 <= base <= 16
    decreases value
  {
    if value == 0 then "" else
      Smaller(value, base);
      Digits(value / base, base) + [DIGITS[value % base]]
  }

  lemma Smaller(value: nat, base: nat)
    requires base >= 2 && value > 0
    ensures 0 <= value / base < value && value == value / base * base + value % base
  {
  }

  function Numeral(value: nat, base: nat): string
    requires 2 <= base <= 16
  {
    if value == 0 then "0" else Digits(value, base)
  }

  /** The value of a digit, if it is one in that base. */
  function DigitValue(c: char): int {
    if '0' <= c <= '9' then c as int - '0' as int
    else if 'A' <= c <= 'F' then c as int - 'A' as int + 10
    else -1
  }

  predicate IsDigit(c: char, base: nat) { 0 <= DigitValue(c) < base }

  /** Reading a string of digits from the left. */
  function Parse(s: string, base: nat): int {
    if s == "" then 0 else Parse(s[..|s| - 1], base) * base + DigitValue(s[|s| - 1])
  }

  /** Well-formed: digits only, at least one, and no leading zero but for "0" itself. */
  predicate WellFormed(s: string, base: nat) {
    s != "" && (forall c <- s :: IsDigit(c, base)) && (s[0] == '0' ==> s == "0")
  }

  lemma DigitRoundTrip(d: nat)
    requires d < 16
    ensures DigitValue(DIGITS[d]) == d
    ensures DIGITS[d] == '0' <==> d == 0
    ensures DIGITS[d] as int == if d < 10 then '0' as int + d else 'A' as int + d - 10
  {
  }

  lemma DigitCharOf(c: char)
    requires 0 <= DigitValue(c) < 16
    ensures DIGITS[DigitValue(c)] == c
  {
  }

  lemma {:induction false} DigitsMean(value: nat, base: nat)
    requires 2 <= base <= 16
    ensures Parse(Digits(value, base), base) == value
    ensures forall c <- Digits(value, base) :: IsDigit(c, base)
    ensures value > 0 ==> Digits(value, base) != "" && Digits(value, base)[0] != '0'
    decreases value
  {
    if value > 0 {
      Smaller(value, base);
      DigitsMean(value / base, base);
      DigitRoundTrip(value % base);
      hide DigitValue;
      var front := Digits(value / base, base);
      assert Digits(value, base)[..|front|] == front;
      if value / base == 0 {
        assert value % base == value;
      }
    }
  }

  /** A well-formed string of digits with the value v is the numeral of v, and the numeral is one. */
  lemma NumeralIff(s: string, base: nat, value: nat)
    requires 2 <= base <= 16
    ensures WellFormed(s, base) && Parse(s, base) == value <==> s == Numeral(value, base)
  {
    DigitsMean(value, base);
    DigitRoundTrip(0);
    assert ""+ "0" == "0" && "0"[..0] == "";
    if WellFormed(s, base) && Parse(s, base) == value {
      if s != "0" { DigitsOfParse(s, base); }
    }
  }

  lemma {:induction false} DigitsOfParse(s: string, base: nat)
    requires 2 <= base <= 16
    requires forall c <- s :: IsDigit(c, base)
    requires s != "" ==> s[0] != '0'
    ensures Parse(s, base) >= 0 && (s != "" ==> Parse(s, base) > 0)
    ensures Digits(Parse(s, base), base) == s
    decreases |s|
  {
    if s != "" {
      var front, last := s[..|s| - 1], s[|s| - 1];
      DigitsOfParse(front, base);
      assert IsDigit(last, base);
      DigitCharOf(last);
      assert s == front + [last];
      LastDigit(Parse(front, base), DigitValue(last), base);
      if front == "" {
        assert DigitValue('0') == 0;
        assert DIGITS[0] == '0';
        assert last == s[0] != '0';
      }
    }
  }

  lemma LastDigit(q: nat, d: nat, base: nat)
    requires 2 <= base && d < base
    ensures (q * base + d) / base == q && (q * base + d) % base == d
    ensures q > 0 ==> q * base + d > 0
  {
    DivModUnique(q * base + d, base, q, d);
  }

  function Power(base: nat, k: nat): nat { if k == 0 then 1 else base * Power(base, k - 1) }

  /** k digits are enough for every value below the k-th power of the base, and only for those. */
  lemma {:induction false} LengthIff(value: nat, base: nat, k: nat)
    requires 2 <= base <= 16
    ensures |Digits(value, base)| <= k <==> value < Power(base, k)
    decreases k
  {
    if value > 0 && k > 0 {
      Smaller(value, base);
      LengthIff(value / base, base, k - 1);
      Below(value, base, Power(base, k - 1));
    } else if value == 0 {
      PowerPositive(base, k);
    }
  }

  /** The k-th digit from the right is the one for value / base^k % base. */
  lemma {:induction false} DigitAt(value: nat, base: nat, k: nat)
    requires 2 <= base <= 16 && k < |Digits(value, base)|
    ensures Power(base, k) > 0
    ensures Digits(value, base)[|Digits(value, base)| - 1 - k] == DIGITS[value / Power(base, k) % base]
  {
    PowerPositive(base, k);
    if k > 0 {
      Smaller(value, base);
      DigitAt(value / base, base, k - 1);
      DivideTwice(value, base, Power(base, k - 1));
    }
  }

  lemma DivideTwice(value: nat, base: nat, p: nat)
    requires base > 0 && p > 0
    ensures base * p > 0 && value / (base * p) == value / base / p
  {
    Euclid(value, base);
    Euclid(value / base, p);
    Nested(value, base, p, value / base, value % base, value / base / p, value / base % p);
  }

  lemma Euclid(a: nat, b: nat)
    requires b > 0
    ensures a == a / b * b + a % b && 0 <= a / b && 0 <= a % b < b
  {
  }

  lemma Nested(value: nat, base: nat, p: nat, v: nat, d: nat, q: nat, r: nat)
    requires d < base && r < p && value == v * base + d && v == q * p + r
    ensures base * p > 0 && value / (base * p) == q
  {
    Scaled(base, p, q, r);
    DivModUnique(value, base * p, q, base * r + d);
  }

  lemma Scaled(base: nat, p: nat, q: nat, r: nat)
    ensures base * (q * p + r) == q * (base * p) + base * r
    ensures base > 0 && p > 0 ==> base * p > 0
    ensures r < p ==> base * r + base <= base * p
  {
    assert base * (q * p) == q * (base * p);
    assert r < p ==> base * (r + 1) <= base * p;
  }

  lemma Below(value: nat, base: nat, p: nat)
    requires base >= 2
    ensures value / base < p <==> value < base * p
  {
    if value == 0 {
      assert 0 < p <==> 0 < base * p by { BelowProduct(0, 0, base, p); }
    } else {
      Smaller(value, base);
      BelowProduct(value / base, value % base, base, p);
    }
  }

  lemma BelowProduct(q: nat, r: nat, base: nat, p: nat)
    requires r < base
    ensures q < p <==> q * base + r < base * p
  {
    if q < p {
      assert (q + 1) * base <= p * base;
    } else {
      assert q * base >= p * base;
    }
  }

  lemma {:induction false} PowerPositive(base: nat, k: nat)
    requires base >= 1
    ensures Power(base, k) > 0
  {
    if k > 0 { PowerPositive(base, k - 1); }
  }

  // ----- strings in place

  /** `strlen`. */
  method Strlen(s: array<char>) returns (n: nat)
    requires NUL in s[..]
    ensures n < s.Length && s[n] == NUL && forall k :: 0 <= k < n ==> s[k] != NUL
  {
    n := 0;
    while s[n] != NUL
      invariant n <= s.Length && NUL in s[n..] && forall k :: 0 <= k < n ==> s[k] != NUL
      decreases s.Length - n
    {
      assert s[n..] == [s[n]] + s[n + 1..];
      n := n + 1;
    }
  }

  function Backwards(s: string): (r: string)
    ensures |r| == |s|
  {
    seq(|s|, i requires 0 <= i < |s| => s[|s| - 1 - i])
  }

  /** `reverse`: the text before the terminator turns around in place, the rest of the buffer stays. */
  method Reverse(s: array<char>, ghost n: nat)
    requires n < s.Length && s[n] == NUL && NUL !in s[..n]
    modifies s
    ensures s[..n] == Backwards(old(s[..n])) && s[n..] == old(s[n..])
  {
    ghost var was := s[..n];
    assert forall k :: 0 <= k < n ==> s[k] == was[k];
    var length := Strlen(s);
    var i, j := 0, length as int - 1;
    while i < j
      invariant 0 <= i <= n && j == n - 1 - i && i <= j + 1
      invariant forall k :: 0 <= k < i || j < k < n ==> s[k] == was[n - 1 - k]
      invariant forall k :: i <= k <= j ==> s[k] == was[k]
      invariant s[n..] == old(s[n..])
    {
      var c := s[i];
      s[i] := s[j];
      s[j] := c;
      i, j := i + 1, j - 1;
    }
    assert forall k :: 0 <= k < n ==> s[k] == was[n - 1 - k];
  }

  // ----- printing

  /** The digits still to be stored, the ones already in the buffer read backwards behind them. */
  lemma StoreDigit(value: nat, base: nat, buffer: string)
    requires 2 <= base <= 16 && value > 0
    ensures 0 <= value / base
    ensures Digits(value / base, base) + Backwards(buffer + [DIGITS[value % base]])
         == Digits(value, base) + Backwards(buffer)
  {
    var c := DIGITS[value % base];
    assert Backwards(buffer + [c]) == [c] + Backwards(buffer);
    Smaller(value, base);
  }

  lemma BackwardsTwice(s: string)
    ensures Backwards(Backwards(s)) == s
  {
  }

  /** The digits of a number contain no terminator. */
  lemma NoTerminator(value: nat, base: nat)
    requires 2 <= base <= 16
    ensures NUL !in Digits(value, base)
  {
    DigitsMean(value, base);
    assert !IsDigit(NUL, base);
  }

  /** The digit loop of `print_uint`, `print_int` and `print_hex`, least significant digit first. Its guard stops it
      after so many digits; numbers with no more are stored whole. */
  method StoreDigits(buffer: array<char>, value: nat, base: nat, guard: nat) returns (i: nat)
    requires 2 <= base <= 16 && |Digits(value, base)| <= guard < buffer.Length
    modifies buffer
    ensures i == |Digits(value, base)| && buffer[..i] == Backwards(Digits(value, base))
    ensures forall k :: i <= k < buffer.Length ==> buffer[k] == old(buffer[k])
  {
    var v: nat := value;
    i := 0;
    assert Digits(v, base) + Backwards(buffer[..0]) == Digits(v, base);
    while v > 0 && i < guard
      invariant i <= guard && Digits(v, base) + Backwards(buffer[..i]) == Digits(value, base)
      invariant forall k :: i <= k < buffer.Length ==> buffer[k] == old(buffer[k])
      decreases guard - i
    {
      ghost var before := buffer[..i];
      StoreDigit(v, base, before);
      hide Digits, Backwards;
      buffer[i] := DIGITS[v % base];
      assert buffer[..i + 1] == before + [DIGITS[v % base]];
      i := i + 1;
      v := v / base;
    }
    assert |Digits(v, base)| + i == |Digits(value, base)|;
    assert Digits(v, base) == "";
    BackwardsTwice(buffer[..i]);
    assert "" + Backwards(buffer[..i]) == Backwards(buffer[..i]);
  }

  /** The characters put on the screen one by one up to the terminator. */
  method Characters(s: array<char>, ghost n: nat) returns (out: string)
    requires n < s.Length && s[n] == NUL && NUL !in s[..n]
    ensures out == s[..n]
  {
    out := "";
    var p: nat := 0;
    assert forall k :: 0 <= k < n ==> s[k] == s[..n][k];
    while s[p] != NUL
      invariant p <= n && out == s[..p]
      decreases n - p
    {
      assert s[..p + 1] == s[..p] + [s[p]];
      out := out + [s[p]];
      p := p + 1;
    }
  }

  lemma BackwardsHasNone(s: string)
    requires NUL !in s
    ensures NUL !in Backwards(s)
  {
  }

  /** The digits of a number as the three functions print them, with room for `guard` digits and a terminator. */
  method Emit(value: nat, base: nat, guard: nat) returns (out: string)
    requires 2 <= base <= 16 && value < Power(base, guard)
    ensures out == Digits(value, base)
  {
    LengthIff(value, base, guard);
    NoTerminator(value, base);
    BackwardsHasNone(Digits(value, base));
    BackwardsTwice(Digits(value, base));
    hide Digits, Backwards, Power;
    var buffer := new char[guard + 1](_ => NUL);
    var i := StoreDigits(buffer, value, base, guard);
    Reverse(buffer, i);
    assert buffer[i] == buffer[i..][0];
    out := Characters(buffer, i);
  }

  const INT_DIGITS: nat := 11
  const UINT_DIGITS: nat := 10
  const HEX_DIGITS: nat := 8

  lemma GuardsSuffice()
    ensures 0x1_0000_0000 <= Power(10, UINT_DIGITS) <= Power(10, INT_DIGITS)
    ensures 0x1_0000_0000 == Power(16, HEX_DIGITS)
  {
    assert Power(10, 5) == 100000 && Power(16, 4) == 0x1_0000;
  }

  /** `print_uint`. */
  method PrintUint(value: u32) returns (out: string)
    ensures out == Numeral(value, 10)
    ensures WellFormed(out, 10) && Parse(out, 10) == value
  {
    NumeralIff(Numeral(value, 10), 10, value);
    if value == 0 { return "0"; }
    GuardsSuffice();
    hide Power;
    out := Emit(value, 10, UINT_DIGITS);
  }

  /** `print_hex`. */
  method PrintHex(value: u32) returns (out: string)
    ensures out == "0x" + Numeral(value, 16)
    ensures WellFormed(out[2..], 16) && Parse(out[2..], 16) == value
  {
    NumeralIff(Numeral(value, 16), 16, value);
    out := "0x";
    if value == 0 { return out + "0"; }
    GuardsSuffice();
    hide Power;
    var digits := Emit(value, 16, HEX_DIGITS);
    out := out + digits;
  }

  predicate IsInt(value: int) { LEAST_INT <= value < 0x8000_0000 }

  /** Negation of a 32-bit int: the least one has no opposite. */
  function Negated(value: int): int { if value == LEAST_INT then value else -value }

  function SignedNumeral(value: int): string {
    if value < 0 then "-" + Numeral(-value, 10) else Numeral(value, 10)
  }

  /** The value a signed decimal string stands for, when it is one. */
  predicate Denotes(s: string, value: int) {
    if s != "" && s[0] == '-' then WellFormed(s[1..], 10) && s != "-0" && value == -Parse(s[1..], 10)
    else WellFormed(s, 10) && value == Parse(s, 10)
  }

  /** A string denotes an int exactly when it is the int's numeral, sign included. */
  lemma SignedNumeralIff(s: string, value: int)
    ensures Denotes(s, value) <==> s == SignedNumeral(value)
  {
    assert Parse("0", 10) == 0 by { assert "0"[..0] == ""; }
    hide Parse, Digits, Numeral, WellFormed;
    if s != "" && s[0] == '-' {
      var t := s[1..];
      assert s == "-" + t;
      assert "-" + "0" == "-0";
      assert value < 0 ==> ("-" + Numeral(-value, 10))[1..] == Numeral(-value, 10);
      NumeralIff(t, 10, if value < 0 then -value else 0);
      if value >= 0 {
        NoSign(value);
        if WellFormed(t, 10) { NotNegative(t); }
      }
    } else if value >= 0 {
      NumeralIff(s, 10, value);
    } else if WellFormed(s, 10) {
      NotNegative(s);
    }
  }

  lemma NoSign(value: nat)
    ensures Numeral(value, 10) != "" && Numeral(value, 10)[0] != '-'
  {
    NumeralIff(Numeral(value, 10), 10, value);
    assert !IsDigit('-', 10);
  }

  lemma NotNegative(s: string)
    requires WellFormed(s, 10)
    ensures Parse(s, 10) >= 0
    ensures s != "0" ==> Parse(s, 10) > 0
  {
    if s != "0" { DigitsOfParse(s, 10); }
  }

  /** `print_int`. For the least int the digit loop never starts and only the sign appears. */
  method PrintInt(value: int) returns (out: string)
    requires IsInt(value)
    ensures out == if value == LEAST_INT then "-" else SignedNumeral(value)
    ensures Denotes(out, value) <==> value != LEAST_INT
  {
    SignedNumeralIff(if value == LEAST_INT then "-" else SignedNumeral(value), value);
    out := "";
    if value == 0 { return "0"; }
    var v := value;
    if v < 0 {
      out := out + "-";
      v := Negated(v);
    }
    GuardsSuffice();
    hide Power;
    if v > 0 {
      var digits := Emit(v, 10, INT_DIGITS);
      out := out + digits;
    }
  }
}
