/** VIN assembly from three multiplexed segments (`TeslaVinUpdater`, bridge/car/cars/tesla.h). */
module TeslaVin {
  import opened Bits
  import opened Messages

  const SEGMENTS: nat := 3
  const VIN_LENGTH: nat := 17

  /** What one run sees: `getRaw`'s answer for each segment. */
  type Sight = s: seq<Option<nat>> | |s| == SEGMENTS witness [None, None, None]

  /** First payload byte of segment `i`; earlier bytes must be zero. */
  function TextStart(i: nat): nat {
    if i == 0 then 4 else 0
  }

  function VinOffset(i: nat): nat {
    if i == 0 then 0 else if i == 1 then 3 else 10
  }

  function TextLength(i: nat): nat {
    7 - TextStart(i)
  }

  /** Byte `b` of a raw value: `static_cast<char>(raw >> (8 * b))`. */
  function ByteAt(raw: nat, b: nat): nat {
    if b == 0 then raw % 256 else ByteAt(raw / 256, b - 1)
  }

  /** `isVinChar`, by character code. */
  predicate IsVinCode(c: nat) {
    '0' as nat <= c <= '9' as nat
    || ('A' as nat <= c <= 'Z' as nat && c != 'I' as nat && c != 'O' as nat && c != 'Q' as nat)
  }

  /** The characters ISO 3779 permits in a VIN. */
  predicate Permitted(c: char) {
    c in PERMITTED
  }

  const PERMITTED := "0123456789ABCDEFGHJKLMNPRSTUVWXYZ"

  lemma ListedIsCode(k: nat)
    requires k < |PERMITTED|
    ensures IsVinCode(PERMITTED[k] as nat)
  {
  }

  lemma CodeIsListed(c: nat)
    requires c < 256 && IsVinCode(c)
    ensures Permitted(c as char)
  {
    var k := if c <= '9' as nat then c - '0' as nat
             else if c < 'I' as nat then c - 'A' as nat + 10
             else if c < 'O' as nat then c - 'A' as nat + 9
             else if c < 'Q' as nat then c - 'A' as nat + 8
             else c - 'A' as nat + 7;
    assert PERMITTED[k] == c as char;
  }

  /** The code's ranges are the standard's list. */
  lemma VinCodesArePermitted(c: nat)
    requires c < 256
    ensures IsVinCode(c) <==> Permitted(c as char)
  {
    if IsVinCode(c) {
      CodeIsListed(c);
    }
    if Permitted(c as char) {
      var k :| 0 <= k < |PERMITTED| && PERMITTED[k] == c as char;
      ListedIsCode(k);
    }
  }

  predicate ValidRaw(i: nat, raw: nat) {
    && (forall b | 0 <= b < TextStart(i) :: ByteAt(raw, b) == 0)
    && forall b | TextStart(i) <= b < 7 :: IsVinCode(ByteAt(raw, b))
  }

  lemma {:induction false} ByteBound(raw: nat, b: nat)
    ensures ByteAt(raw, b) < 256
  {
    if b > 0 {
      ByteBound(raw / 256, b - 1);
    }
  }

  /** The characters a segment's raw value spells. */
  function Text(i: nat, raw: nat): (t: string)
    ensures |t| == TextLength(i)
  {
    seq(TextLength(i), k requires 0 <= k < TextLength(i) =>
      (ByteBound(raw, TextStart(i) + k); ByteAt(raw, TextStart(i) + k) as char))
  }

  // ----- the history -----

  /** Segment `i` is seen valid at run `n`. */
  predicate ValidAt(log: seq<Sight>, i: nat, n: nat)
    requires i < SEGMENTS && n < |log|
  {
    log[n][i].Some? && ValidRaw(i, log[n][i].value)
  }

  /** The text of segment `i` the first time it was seen valid. */
  function FirstText(log: seq<Sight>, i: nat): (t: Option<string>)
    requires i < SEGMENTS
    ensures t.Some? ==> |t.value| == TextLength(i)
  {
    if log == [] then None
    else
      var n := |log| - 1;
      var before := FirstText(log[..n], i);
      if before.Some? then before
      else if ValidAt(log, i, n) then Some(Text(i, log[n][i].value))
      else None
  }

  /** The VIN a history of runs leads to. */
  function Vin(log: seq<Sight>): string {
    if FirstText(log, 0).Some? && FirstText(log, 1).Some? && FirstText(log, 2).Some?
    then FirstText(log, 0).value + FirstText(log, 1).value + FirstText(log, 2).value
    else ""
  }

  predicate NeverValid(log: seq<Sight>, i: nat)
    requires i < SEGMENTS
  {
    forall n | 0 <= n < |log| :: !ValidAt(log, i, n)
  }

  /** `FirstText` is what its name says. */
  lemma {:induction false} FirstTextIsFirst(log: seq<Sight>, i: nat)
    requires i < SEGMENTS
    ensures FirstText(log, i) == None <==> NeverValid(log, i)
    ensures FirstText(log, i).Some? ==>
              exists n :: 0 <= n < |log| && ValidAt(log, i, n) && FirstText(log, i).value == Text(i, log[n][i].value)
                          && forall k | 0 <= k < n :: !ValidAt(log, i, k)
  {
    if log != [] {
      var n := |log| - 1;
      FirstTextIsFirst(log[..n], i);
      forall k | 0 <= k < n ensures ValidAt(log, i, k) == ValidAt(log[..n], i, k) {
      }
      if FirstText(log[..n], i).Some? {
        var k :| 0 <= k < n && ValidAt(log[..n], i, k) && FirstText(log[..n], i).value == Text(i, log[..n][k][i].value)
                 && forall l | 0 <= l < k :: !ValidAt(log[..n], i, l);
        assert ValidAt(log, i, k) && forall l | 0 <= l < k :: !ValidAt(log, i, l);
      }
    }
  }

  lemma {:induction false} FirstTextStays(log: seq<Sight>, more: seq<Sight>, i: nat)
    requires i < SEGMENTS && FirstText(log, i).Some?
    ensures FirstText(log + more, i) == FirstText(log, i)
  {
    if more == [] {
      assert log + more == log;
    } else {
      var n := |more| - 1;
      FirstTextStays(log, more[..n], i);
      assert (log + more)[..|log + more| - 1] == log + more[..n];
    }
  }

  /** The VIN is empty until each segment has been seen valid, in whatever order, and no longer. */
  lemma EmptyUntilComplete(log: seq<Sight>)
    ensures Vin(log) == "" <==> exists i: nat :: i < SEGMENTS && NeverValid(log, i)
  {
    forall i: nat | i < SEGMENTS ensures FirstText(log, i) == None <==> NeverValid(log, i) {
      FirstTextIsFirst(log, i);
    }
    if Vin(log) == "" {
      assert NeverValid(log, 0) || NeverValid(log, 1) || NeverValid(log, 2);
    }
  }

  /** Once there, it never changes, whatever the bus shows afterwards. */
  lemma NeverChanges(log: seq<Sight>, more: seq<Sight>)
    requires Vin(log) != ""
    ensures Vin(log + more) == Vin(log)
  {
    FirstTextStays(log, more, 0);
    FirstTextStays(log, more, 1);
    FirstTextStays(log, more, 2);
  }

  lemma TextPermitted(i: nat, raw: nat)
    requires ValidRaw(i, raw)
    ensures forall k | 0 <= k < TextLength(i) :: Permitted(Text(i, raw)[k])
  {
    forall k | 0 <= k < TextLength(i) ensures Permitted(Text(i, raw)[k]) {
      ByteBound(raw, TextStart(i) + k);
      VinCodesArePermitted(ByteAt(raw, TextStart(i) + k));
    }
  }

  /** A VIN is 17 permitted characters. */
  lemma SeventeenPermitted(log: seq<Sight>)
    requires Vin(log) != ""
    ensures |Vin(log)| == VIN_LENGTH && forall k | 0 <= k < VIN_LENGTH :: Permitted(Vin(log)[k])
  {
    forall i: nat | i < SEGMENTS ensures forall k | 0 <= k < TextLength(i) :: Permitted(FirstText(log, i).value[k]) {
      FirstTextIsFirst(log, i);
      var n :| 0 <= n < |log| && ValidAt(log, i, n) && FirstText(log, i).value == Text(i, log[n][i].value);
      TextPermitted(i, log[n][i].value);
    }
  }

  // ----- what a VIN spells -----

  function Power256(b: nat): nat {
    if b == 0 then 1 else 256 * Power256(b - 1)
  }

  lemma {:induction false} PowerPositive(b: nat)
    ensures Power256(b) > 0
  {
    if b > 0 {
      PowerPositive(b - 1);
    }
  }

  /** Byte `b` of a number, from the lowest. */
  function ByteOf(raw: nat, b: nat): (r: nat)
    ensures r < 256
  {
    PowerPositive(b);
    raw / Power256(b) % 256
  }

  lemma DivideTwice(n: nat, x: nat)
    requires x > 0
    ensures n / 256 / x == n / (256 * x)
  {
    var q := n / (256 * x);
    var r := n % (256 * x);
    assert n == q * (256 * x) + r == 256 * (q * x) + r;
    assert n / 256 == q * x + r / 256;
    assert r / 256 < x;
    OneQuotient(x, q, r / 256, n / 256 / x, n / 256 % x);
  }

  lemma {:induction false} ByteAtIs(raw: nat, b: nat)
    ensures ByteAt(raw, b) == ByteOf(raw, b)
  {
    if b > 0 {
      ByteAtIs(raw / 256, b - 1);
      PowerPositive(b - 1);
      DivideTwice(raw, Power256(b - 1));
    }
  }

  /** A segment is shown whose bytes below `from` are 0 and whose others, up to the seventh, are permitted characters. */
  predicate Good(shown: Option<nat>, from: nat) {
    && shown.Some? && (forall b | 0 <= b < from :: ByteOf(shown.value, b) == 0)
    && forall b | from <= b < 7 :: ByteOf(shown.value, b) as char in "0123456789ABCDEFGHJKLMNPRSTUVWXYZ"
  }

  /** Run `n` is the first that shows segment `i` good. */
  predicate FirstGood(log: seq<Sight>, i: nat, from: nat, n: nat)
    requires i < SEGMENTS
  {
    n < |log| && Good(log[n][i], from) && forall k | 0 <= k < n :: !Good(log[k][i], from)
  }

  /** `vin` is the seventeen characters that the first good A, B and C show: three of A, from its fifth byte, and
      seven of B and of C each, from their lowest. */
  predicate SpelledBy(vin: string, a: nat, b: nat, c: nat) {
    && |vin| == 17
    && (forall k | 0 <= k < 3 :: vin[k] as nat == ByteOf(a, 4 + k))
    && (forall k | 0 <= k < 7 :: vin[3 + k] as nat == ByteOf(b, k))
    && forall k | 0 <= k < 7 :: vin[10 + k] as nat == ByteOf(c, k)
  }

  ghost predicate NeverGood(log: seq<Sight>, i: nat, from: nat)
    requires i < SEGMENTS
  {
    forall n | 0 <= n < |log| :: !Good(log[n][i], from)
  }

  /** What a history of runs spells: nothing until all three segments have been good. */
  ghost predicate Spells(log: seq<Sight>, vin: string) {
    && (vin == "" <==> NeverGood(log, 0, 4) || NeverGood(log, 1, 0) || NeverGood(log, 2, 0))
    && forall a: nat, b: nat, c: nat | FirstGood(log, 0, 4, a) && FirstGood(log, 1, 0, b) && FirstGood(log, 2, 0, c) ::
         SpelledBy(vin, log[a][0].value, log[b][1].value, log[c][2].value)
  }

  /** `vin` is not what the history spells. */
  ghost predicate Misspells(log: seq<Sight>, vin: string) {
    !Spells(log, vin)
  }

  lemma GoodIffValid(i: nat, raw: nat)
    requires i < SEGMENTS
    ensures Good(Some(raw), if i == 0 then 4 else 0) <==> ValidRaw(i, raw)
  {
    forall b: nat | b < 7 ensures ByteAt(raw, b) == ByteOf(raw, b)
                          && (IsVinCode(ByteAt(raw, b)) <==> Permitted(ByteOf(raw, b) as char)) {
      ByteAtIs(raw, b);
      VinCodesArePermitted(ByteAt(raw, b));
    }
  }

  lemma GoodAt(log: seq<Sight>, i: nat)
    requires i < SEGMENTS
    ensures forall n: nat | n < |log| :: Good(log[n][i], if i == 0 then 4 else 0) <==> ValidAt(log, i, n)
  {
    forall n: nat | n < |log| && log[n][i].Some? ensures Good(log[n][i], if i == 0 then 4 else 0) <==> ValidAt(log, i, n) {
      GoodIffValid(i, log[n][i].value);
    }
  }

  /** The text is that of the first good sight. */
  lemma TextOfFirstGood(log: seq<Sight>, i: nat, n: nat)
    requires i < SEGMENTS && FirstGood(log, i, if i == 0 then 4 else 0, n)
    ensures FirstText(log, i) == Some(Text(i, log[n][i].value))
    ensures forall k | 0 <= k < TextLength(i) :: Text(i, log[n][i].value)[k] as nat == ByteOf(log[n][i].value, TextStart(i) + k)
  {
    GoodAt(log, i);
    FirstTextIsFirst(log, i);
    assert ValidAt(log, i, n);
    var m :| 0 <= m < |log| && ValidAt(log, i, m) && FirstText(log, i).value == Text(i, log[m][i].value)
             && forall k | 0 <= k < m :: !ValidAt(log, i, k);
    assert m == n;
    forall k | 0 <= k < TextLength(i) ensures Text(i, log[n][i].value)[k] as nat == ByteOf(log[n][i].value, TextStart(i) + k) {
      ByteAtIs(log[n][i].value, TextStart(i) + k);
    }
  }

  lemma NeverGoodIff(log: seq<Sight>, i: nat)
    requires i < SEGMENTS
    ensures NeverGood(log, i, if i == 0 then 4 else 0) <==> FirstText(log, i) == None
  {
    GoodAt(log, i);
    FirstTextIsFirst(log, i);
  }

  lemma FirstGoodSpell(log: seq<Sight>, a: nat, b: nat, c: nat)
    requires FirstGood(log, 0, 4, a) && FirstGood(log, 1, 0, b) && FirstGood(log, 2, 0, c)
    ensures SpelledBy(Vin(log), log[a][0].value, log[b][1].value, log[c][2].value)
  {
    TextOfFirstGood(log, 0, a);
    TextOfFirstGood(log, 1, b);
    TextOfFirstGood(log, 2, c);
  }

  /** The VIN is empty until all three segments have been shown good, and then spells the first good A, B and C in
      this order. */
  lemma VinSpells(log: seq<Sight>)
    ensures Spells(log, Vin(log))
  {
    NeverGoodIff(log, 0);
    NeverGoodIff(log, 1);
    NeverGoodIff(log, 2);
    forall a: nat, b: nat, c: nat | FirstGood(log, 0, 4, a) && FirstGood(log, 1, 0, b) && FirstGood(log, 2, 0, c)
      ensures SpelledBy(Vin(log), log[a][0].value, log[b][1].value, log[c][2].value)
    {
      FirstGoodSpell(log, a, b, c);
    }
  }

  lemma VinIsNotMisspelt(log: seq<Sight>)
    ensures !Misspells(log, Vin(log))
  {
    VinSpells(log);
  }
}
