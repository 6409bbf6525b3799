/** Numbers as digit strings: how the bridge prints them and how the library reads them back. */
module Digits {
  import opened Words

  datatype Parsed = Invalid | Number(value: nat)

  predicate Base(b: nat) {
    b == 10 || b == 16
  }

  /** A digit as `std::uppercase` prints it. */
  function DigitChar(d: nat): char
    requires d < 16
  {
    if d < 10 then '0' + d as char else 'A' + (d - 10) as char
  }

  /** `oss << n`, in decimal or with `std::hex << std::uppercase`. */
  function Print(n: nat, base: nat): (s: string)
    requires Base(base)
    ensures |s| > 0
  {
    if n < base then [DigitChar(n)] else Print(n / base, base) + [DigitChar(n % base)]
  }

  /** The value of a character as a digit; 16 if it is none. Both cases are read. */
  function DigitValue(c: char): nat {
    if '0' <= c <= '9' then c as nat - '0' as nat
    else if 'A' <= c <= 'F' then c as nat - 'A' as nat + 10
    else if 'a' <= c <= 'f' then c as nat - 'a' as nat + 10
    else 16
  }

  predicate IsDigit(c: char, base: nat) {
    DigitValue(c) < base
  }

  predicate AllDigits(s: string, base: nat) {
    forall k | 0 <= k < |s| :: IsDigit(s[k], base)
  }

  function ValueOf(s: string, base: nat): nat
    requires Base(base) && AllDigits(s, base)
  {
    if s == "" then 0 else ValueOf(s[..|s| - 1], base) * base + DigitValue(s[|s| - 1])
  }

  // ----- std::stoul -----

  predicate IsSpace(c: char) {
    c == ' ' || '\t' as int <= c as int <= '\r' as int
  }

  function SkipSpaces(s: string): string {
    if s != "" && IsSpace(s[0]) then SkipSpaces(s[1..]) else s
  }

  /** The longest prefix of digits. */
  function Leading(s: string, base: nat): (p: string)
    ensures AllDigits(p, base)
  {
    if s != "" && IsDigit(s[0], base) then [s[0]] + Leading(s[1..], base) else ""
  }

  predicate HexPrefixed(s: string) {
    |s| >= 3 && s[0] == '0' && (s[1] == 'x' || s[1] == 'X') && IsDigit(s[2], 16)
  }

  /** `std::stoul`: leading white space, a sign, `0x` in base 16, then digits, and anything after them;
      without a digit or beyond 64 bits it throws. A minus sign negates in 64 bits. */
  function Stoul(s: string, base: nat): (r: Parsed)
    requires Base(base)
    ensures r.Number? ==> r.value < TWO64
  {
    var t := SkipSpaces(s);
    var negative := t != "" && t[0] == '-';
    var u := if t != "" && (t[0] == '-' || t[0] == '+') then t[1..] else t;
    var v := if base == 16 && HexPrefixed(u) then u[2..] else u;
    var digits := Leading(v, base);
    if digits == "" then Invalid
    else
      var n := ValueOf(digits, base);
      if n >= TWO64 then Invalid else Number(if negative && n > 0 then TWO64 - n else n)
  }

  // ----- printing is undone by reading -----

  lemma DigitRoundTrip(d: nat)
    requires d < 16
    ensures DigitValue(DigitChar(d)) == d
  {
  }

  lemma {:induction false} ValueOfPrint(n: nat, base: nat)
    requires Base(base)
    ensures AllDigits(Print(n, base), base) && ValueOf(Print(n, base), base) == n
  {
    if n < base {
      DigitRoundTrip(n);
      assert Print(n, base)[..0] == "";
      assert ValueOf("", base) == 0;
    } else {
      ValueOfPrint(n / base, base);
      DigitRoundTrip(n % base);
      var s := Print(n, base);
      assert s[..|s| - 1] == Print(n / base, base);
    }
  }

  /** Different numbers print differently. */
  lemma PrintInjective(a: nat, b: nat, base: nat)
    requires Base(base) && Print(a, base) == Print(b, base)
    ensures a == b
  {
    ValueOfPrint(a, base);
    ValueOfPrint(b, base);
  }

  lemma {:induction false} LeadingOfDigits(s: string, base: nat)
    requires AllDigits(s, base)
    ensures Leading(s, base) == s
  {
    if s != "" {
      LeadingOfDigits(s[1..], base);
    }
  }

  /** Digits have neither white space, nor a sign, nor a prefix in front of them. */
  lemma NothingToSkip(s: string, base: nat)
    requires Base(base) && s != "" && AllDigits(s, base)
    ensures SkipSpaces(s) == s && s[0] != '-' && s[0] != '+' && !HexPrefixed(s)
  {
  }

  /** `stoul` reads back what was printed. */
  lemma StoulOfPrint(n: nat, base: nat)
    requires Base(base) && n < TWO64
    ensures Stoul(Print(n, base), base) == Number(n)
  {
    var s := Print(n, base);
    ValueOfPrint(n, base);
    NothingToSkip(s, base);
    LeadingOfDigits(s, base);
  }
}
