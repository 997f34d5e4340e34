/** Decimal numbers as text: itoa and atoi (shell.c), str_append_dec (debug_panel.c). */
module Decimal {
  import opened Wrappers

  predicate IsDigit(ch: char) {
    '0' <= ch <= '9'
  }

  function DigitOf(d: nat): (ch: char)
    requires d < 10
    ensures IsDigit(ch)
  {
    '0' + d as char
  }

  function ValueOf(ch: char): nat
    requires IsDigit(ch)
  {
    ch as nat - '0' as nat
  }

  // The numeral of n without leading zeros; empty for 0.
  function Digits(n: nat): (s: string)
    ensures forall ch | ch in s :: IsDigit(ch)
  {
    if n == 0 then "" else Digits(n / 10) + [DigitOf(n % 10)]
  }

  function Numeral(n: nat): string {
    if n == 0 then "0" else Digits(n)
  }

  // What the digits of s stand for, in unbounded arithmetic.
  function Value(s: string): nat
    requires forall ch | ch in s :: IsDigit(ch)
  {
    if s == "" then 0 else Value(s[..|s| - 1]) * 10 + ValueOf(s[|s| - 1])
  }

  lemma {:induction false} ValueOfDigits(n: nat)
    ensures Value(Digits(n)) == n
  {
    if n > 0 {
      ValueOfDigits(n / 10);
      assert Digits(n)[..|Digits(n)| - 1] == Digits(n / 10);
    }
  }

  // Each character of the numeral is the decimal digit of its place, and there is no leading zero.
  lemma NumeralDigits(n: nat, i: nat)
    requires i < |Numeral(n)|
    ensures Numeral(n)[i] as int == 48 + n / Pow10(|Numeral(n)| - 1 - i) % 10
  {
    if n > 0 {
      DigitAt(n, i);
    }
  }

  lemma {:induction false} DigitAt(n: nat, i: nat)
    requires i < |Digits(n)|
    ensures Digits(n)[i] as int == 48 + n / Pow10(|Digits(n)| - 1 - i) % 10
  {
    var k := |Digits(n)| - 1 - i;
    if k == 0 {
      assert Pow10(0) == 1;
    } else {
      DigitAt(n / 10, i);
      NestedQuotient(n, Pow10(k - 1));
    }
  }

  lemma NestedQuotient(n: nat, d: nat)
    requires d > 0
    ensures n / (10 * d) == n / 10 / d
  {
    var q, r := n / 10 / d, n / 10 % d;
    assert n / 10 == q * d + r;
    assert n == 10 * (q * d + r) + n % 10;
    assert n == q * (10 * d) + (10 * r + n % 10);
    QuotientOf(n, 10 * d, q, 10 * r + n % 10);
  }

  lemma QuotientOf(n: nat, d: nat, q: nat, r: nat)
    requires d > 0 && n == q * d + r && r < d
    ensures n / d == q
  {
    var p := n / d;
    assert n == p * d + n % d;
    if p < q {
      InOrder(p, q, d);
    } else if p > q {
      InOrder(q, p, d);
    }
  }

  lemma InOrder(p: nat, q: nat, d: nat)
    requires p < q
    ensures p * d + d <= q * d
  {
    assert q * d == p * d + d + (q - p - 1) * d;
  }

  lemma NumeralStarts(n: nat)
    ensures |Numeral(n)| >= 1 && (n == 0 ==> Numeral(n) == "0") && (n > 0 ==> Numeral(n)[0] != '0')
  {
    if n > 0 {
      FirstDigit(n);
    }
  }

  lemma {:induction false} FirstDigit(n: nat)
    requires n > 0
    ensures |Digits(n)| >= 1 && Digits(n)[0] != '0'
  {
    if n >= 10 {
      FirstDigit(n / 10);
    }
  }

  // The number a string of digits stands for: ten times the number of its front, and the last digit.
  lemma ValueOfSnoc(s: string, ch: char)
    requires (forall x | x in s :: IsDigit(x)) && 48 <= ch as int <= 57
    ensures IsDigit(ch) && Value([]) == 0 && Value(s + [ch]) == 10 * Value(s) + (ch as int - 48)
  {
    assert (s + [ch])[..|s|] == s;
  }

  function Pow10(k: nat): (p: nat)
    ensures p > 0
  {
    if k == 0 then 1 else 10 * Pow10(k - 1)
  }

  lemma {:induction false} DigitCount(n: nat, k: nat)
    requires n < Pow10(k)
    ensures |Digits(n)| <= k
    decreases k
  {
    if n > 0 {
      DigitCount(n / 10, k - 1);
    }
  }

  lemma TwentyDigits()
    ensures U64 <= Pow10(20)
  {
    assert Pow10(5) == 100000;
    assert Pow10(10) == 10000000000;
    assert Pow10(15) == 1000000000000000;
  }

  // ---- The methods ----

  // Writes the digits of val, least significant first, as the loops of itoa and str_append_dec do.
  method Peel(val: nat, tmp: array<char>) returns (len: nat)
    requires 0 < val < U64 && tmp.Length >= 20
    modifies tmp
    ensures len == |Digits(val)| <= 20 && forall j | 0 <= j < len :: tmp[j] == Digits(val)[len - 1 - j]
  {
    hide Digits, Pow10, DigitOf;
    TwentyDigits();
    DigitCount(val, 20);
    len := 0;
    var rest: nat := val;
    DigitsUnfold(val);
    while rest > 0
      invariant len + |Digits(rest)| == |Digits(val)|
      invariant Digits(val)[..|Digits(rest)|] == Digits(rest)
      invariant forall j | 0 <= j < len :: tmp[j] == Digits(val)[|Digits(val)| - 1 - j]
    {
      OneDigitLess(Digits(val), rest);
      tmp[len] := DigitOf(rest % 10);
      len := len + 1;
      rest := rest / 10;
    }
    DigitsUnfold(0);
  }

  // Of a numeral that starts with rest, the last digit of rest goes next.
  lemma OneDigitLess(s: string, rest: nat)
    requires rest > 0 && |Digits(rest)| <= |s| && s[..|Digits(rest)|] == Digits(rest)
    ensures |Digits(rest)| == |Digits(rest / 10)| + 1
    ensures s[|Digits(rest)| - 1] == DigitOf(rest % 10) && s[..|Digits(rest / 10)|] == Digits(rest / 10)
  {
    hide Digits;
    DigitsUnfold(rest);
    assert s[|Digits(rest)| - 1] == Digits(rest)[|Digits(rest)| - 1];
    assert s[..|Digits(rest)| - 1] == Digits(rest)[..|Digits(rest)| - 1];
  }

  lemma DigitsUnfold(n: nat)
    ensures n == 0 ==> Digits(n) == ""
    ensures n > 0 ==> Digits(n) == Digits(n / 10) + [DigitOf(n % 10)]
  {
  }

  // itoa: the numeral and a terminator, at most 21 characters, in a buffer that has room for them.
  method Itoa(val: nat, buf: array<char>) returns (len: nat)
    requires val < U64 && |Numeral(val)| < buf.Length
    modifies buf
    ensures len == |Numeral(val)| <= 20 && buf[..len] == Numeral(val) && buf[len] == '\0'
    ensures buf[len + 1..] == old(buf[len + 1..])
  {
    if val == 0 {
      buf[0] := '0';
      buf[1] := '\0';
      return 1;
    }
    var tmp := new char[20];
    var i := Peel(val, tmp);
    ghost var n := i;
    var p := 0;
    while i > 0
      modifies buf
      invariant 0 <= i <= n && p == n - i
      invariant buf[..p] == Digits(val)[..p]
      invariant buf[n + 1..] == old(buf[n + 1..])
    {
      i := i - 1;
      buf[p] := tmp[i];
      p := p + 1;
    }
    buf[p] := '\0';
    return p;
  }

  // The leading digits of a string.
  function DigitPrefix(s: string): (p: string)
    ensures forall ch | ch in p :: IsDigit(ch)
  {
    if s == "" || !IsDigit(s[0]) then "" else [s[0]] + DigitPrefix(s[1..])
  }

  lemma {:induction false} PrefixEnds(s: string, k: nat)
    requires k <= |s| && (forall j | 0 <= j < k :: IsDigit(s[j])) && (k < |s| ==> !IsDigit(s[k]))
    ensures DigitPrefix(s) == s[..k]
  {
    if k > 0 {
      PrefixEnds(s[1..], k - 1);
    }
  }

  // atoi, of a string that ends in a character that is no digit: the value of its leading digits, modulo 2^64.
  method Atoi(str: string) returns (res: nat)
    requires exists j :: 0 <= j < |str| && !IsDigit(str[j])
    ensures res == Value(DigitPrefix(str)) % U64
  {
    res := 0;
    var i := 0;
    while IsDigit(str[i])
      invariant i < |str| && forall j | 0 <= j < i :: IsDigit(str[j])
      invariant res == Value(str[..i]) % U64
      decreases |str| - i
    {
      assert str[..i + 1][..i] == str[..i];
      WrapStep(Value(str[..i]), ValueOf(str[i]));
      res := (res * 10 + ValueOf(str[i])) % U64;
      i := i + 1;
    }
    PrefixEnds(str, i);
  }

  lemma WrapStep(v: nat, d: nat)
    ensures (v % U64 * 10 + d) % U64 == (v * 10 + d) % U64
  {
    var k := v / U64;
    assert v * 10 + d == (v % U64 * 10 + d) + U64 * (10 * k);
  }

  // atoi gives back what itoa wrote, for every 64-bit number.
  lemma AtoiOfItoa(val: nat, str: string)
    requires val < U64 && |Numeral(val)| < |str|
    requires str[..|Numeral(val)|] == Numeral(val) && !IsDigit(str[|Numeral(val)|])
    ensures Value(DigitPrefix(str)) % U64 == val
  {
    hide Numeral, Value, DigitPrefix;
    var n := Numeral(val);
    NumeralValue(val);
    forall j | 0 <= j < |n|
      ensures IsDigit(str[j])
    {
      assert str[j] == n[j] && n[j] in n;
    }
    PrefixEnds(str, |n|);
  }

  lemma NumeralValue(val: nat)
    ensures (forall ch | ch in Numeral(val) :: IsDigit(ch)) && Value(Numeral(val)) == val
  {
    hide Digits;
    if val == 0 {
      assert Value("0"[..0]) == 0;
    } else {
      ValueOfDigits(val);
    }
  }

  function Room(pos: nat, cap: nat): nat {
    if pos + 1 < cap then cap - 1 - pos else 0
  }

  // str_append_dec appends the longest prefix of the numeral that fits before the last byte of the buffer, and
  // writes nothing else.
  method AppendDec(buf: array<char>, pos: nat, cap: nat, value: nat) returns (end: nat)
    requires cap <= buf.Length && value < U64
    modifies buf
    ensures end == pos + if |Numeral(value)| <= Room(pos, cap) then |Numeral(value)| else Room(pos, cap)
    ensures forall j | 0 <= j < buf.Length :: buf[j] == if pos <= j < end then Numeral(value)[j - pos] else old(buf[j])
    ensures pos <= end <= pos + |Numeral(value)| && (pos < end ==> end < cap)
    ensures end < pos + |Numeral(value)| ==> cap <= end + 1
  {
    hide Digits;
    end := pos;
    if value == 0 {
      if end + 1 < cap {
        buf[end] := '0';
        end := end + 1;
      }
      return;
    }
    var tmp := new char[24];
    var len := Peel(value, tmp);
    DigitsUnfold(value);
    while len > 0 && end + 1 < cap
      modifies buf
      invariant 0 <= len <= |Digits(value)| && end == pos + |Digits(value)| - len
      invariant end == pos || end < cap
      invariant forall j | 0 <= j < buf.Length ::
                  buf[j] == if pos <= j < end then Digits(value)[j - pos] else old(buf[j])
    {
      len := len - 1;
      buf[end] := tmp[len];
      end := end + 1;
    }
  }
}
