/** The textual form of a message id (bridge/dbc/dbc.h). */
module MessageId {
  import opened Digits

  const SOURCES: nat := 0x100
  const ADDRESSES: nat := 0x1_0000_0000

  datatype Id = Id(source: nat, address: nat)

  predicate Valid(id: Id) {
    id.source < SOURCES && id.address < ADDRESSES
  }

  /** What anything unreadable becomes. */
  const DEFAULT := Id(0, 0)

  function ToString(id: Id): string {
    Print(id.source, 10) + ":" + Print(id.address, 16)
  }

  /** `str.find(':')`; the length if there is none. */
  function FindColon(s: string): (p: nat)
    ensures p <= |s| && (p < |s| ==> s[p] == ':') && forall k | 0 <= k < p :: s[k] != ':'
  {
    if s == "" || s[0] == ':' then 0 else 1 + FindColon(s[1..])
  }

  /** `fromString`. */
  function FromString(s: string): (id: Id)
    ensures Valid(id)
  {
    var p := FindColon(s);
    if p == |s| then DEFAULT
    else
      var source, address := Stoul(s[..p], 10), Stoul(s[p + 1..], 16);
      if source.Invalid? || address.Invalid? || source.value > 255 then DEFAULT
      else Id(source.value, address.value % ADDRESSES)
  }

  lemma NoColon(n: nat)
    ensures forall k | 0 <= k < |Print(n, 10)| :: Print(n, 10)[k] != ':'
  {
  }

  /** Every id is read back from its text. */
  lemma RoundTrip(id: Id)
    requires Valid(id)
    ensures FromString(ToString(id)) == id
  {
    var left, right := Print(id.source, 10), Print(id.address, 16);
    var s := ToString(id);
    NoColon(id.source);
    assert FindColon(s) == |left| by {
      assert s[|left|] == ':' && forall k | 0 <= k < |left| :: s[k] == left[k];
    }
    assert s[..|left|] == left && s[|left| + 1..] == right;
    StoulOfPrint(id.source, 10);
    StoulOfPrint(id.address, 16);
  }

  /** Different ids have different texts. */
  lemma TextsDiffer(a: Id, b: Id)
    requires Valid(a) && Valid(b) && ToString(a) == ToString(b)
    ensures a == b
  {
    RoundTrip(a);
    RoundTrip(b);
  }

  // ----- what the text is -----

  predicate Decimal(s: string) {
    s != "" && forall k | 0 <= k < |s| :: s[k] in "0123456789"
  }

  predicate Hexadecimal(s: string) {
    s != "" && forall k | 0 <= k < |s| :: s[k] in "0123456789ABCDEF"
  }

  function Digit(c: char): nat {
    if '0' <= c <= '9' then c as nat - 48 else if 'A' <= c <= 'F' then c as nat - 55 else 0
  }

  /** The number that digits of a base stand for. */
  function Number(s: string, base: nat): nat {
    if s == "" then 0 else base * Number(s[..|s| - 1], base) + Digit(s[|s| - 1])
  }

  predicate NoLeadingZero(s: string) {
    |s| > 1 ==> s[0] != '0'
  }

  lemma DigitPrinted(d: nat)
    requires d < 16
    ensures Digit(DigitChar(d)) == d && DigitChar(d) in "0123456789ABCDEF" && (d < 10 ==> DigitChar(d) in "0123456789")
    ensures d > 0 ==> DigitChar(d) != '0'
  {
    assert DigitChar(d) == "0123456789ABCDEF"[d];
    if d < 10 {
      assert DigitChar(d) == "0123456789"[d];
    }
  }

  lemma {:induction false} Printed(n: nat, base: nat)
    requires Base(base)
    ensures var s := Print(n, base);
      Number(s, base) == n && NoLeadingZero(s) && (if base == 10 then Decimal(s) else Hexadecimal(s))
      && (n > 0 ==> s[0] != '0')
  {
    if n < base {
      DigitPrinted(n);
      assert Print(n, base)[..0] == "";
    } else {
      Printed(n / base, base);
      DigitPrinted(n % base);
      assert Print(n, base)[..|Print(n, base)| - 1] == Print(n / base, base);
    }
  }

  /** The text is the source in decimal, a colon, and the address in upper-case hexadecimal, without leading zeros. */
  lemma TextMeans(id: Id)
    ensures
      var s := ToString(id);
      exists p: nat :: p < |s| && s[p] == ':'
        && Decimal(s[..p]) && NoLeadingZero(s[..p]) && Number(s[..p], 10) == id.source
        && Hexadecimal(s[p + 1..]) && NoLeadingZero(s[p + 1..]) && Number(s[p + 1..], 16) == id.address
  {
    var s, p := ToString(id), |Print(id.source, 10)|;
    assert s[..p] == Print(id.source, 10) && s[p + 1..] == Print(id.address, 16);
    Printed(id.source, 10);
    Printed(id.address, 16);
  }
}
