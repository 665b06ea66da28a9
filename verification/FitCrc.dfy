/**
 * The two checksums of a FIT file, CRC-16/ARC (packages/import/src/fit-prescan.ts), and which damage their verdicts
 * notice.
 */
module FitCrc {
  import opened Common
  import opened FitFormat

  // ---------------------------------------------------------------- the checksum

  /** Bitwise exclusive or. */
  function Xor(a: nat, b: nat): nat
    decreases a + b
  {
    if a == 0 && b == 0 then 0 else (a + b) % 2 + 2 * Xor(a / 2, b / 2)
  }

  const POLYNOMIAL: nat := 0xA001
  const BITS: nat := 8

  function BitStep(v: nat): nat { if v % 2 == 1 then Xor(v / 2, POLYNOMIAL) else v / 2 }

  function BitSteps(v: nat, n: nat): nat { if n == 0 then v else BitStep(BitSteps(v, n - 1)) }

  /** The checksum of the bytes from `start` up to `end`. */
  function Crc(b: seq<Byte>, start: nat, end: nat): nat
    requires start <= end <= |b|
  {
    if end == start then 0 else BitSteps(Xor(Crc(b, start, end - 1), b[end - 1]), BITS)
  }

  /** The eight steps of one byte. */
  method ShiftBits(mixed: nat) returns (value: nat)
    ensures value == BitSteps(mixed, BITS)
  {
    value := mixed;
    for bit := 0 to BITS
      invariant value == BitSteps(mixed, bit)
    {
      value := if value % 2 == 1 then Xor(value / 2, POLYNOMIAL) else value / 2;
    }
  }

  method CalculateFitCrc(b: seq<Byte>, start: nat, end: nat) returns (crc: nat)
    requires start <= end <= |b|
    ensures crc == Crc(b, start, end)
  {
    crc := 0;
    for i := start to end
      invariant crc == Crc(b, start, i)
    {
      crc := ShiftBits(Xor(crc, b[i]));
    }
  }

  /** The two bytes from here on, low byte first. */
  function Declared(b: seq<Byte>, at: nat): nat
    requires at + 2 <= |b|
  {
    b[at] + 256 * b[at + 1]
  }

  /** Whether the checksum declared at `at` is that of everything before it; one declared as zero is not checked. */
  function Verdict(b: seq<Byte>, at: nat): Option<bool>
    requires at + 2 <= |b|
  {
    if Declared(b, at) == 0 then None else Some(Declared(b, at) == Crc(b, 0, at))
  }

  // ---------------------------------------------------------------- exclusive or

  lemma {:induction false} XorInjective(a: nat, b: nat, x: nat)
    requires Xor(a, x) == Xor(b, x)
    ensures a == b
    decreases a + b + x
  {
    if a + b + x > 0 {
      XorInjective(a / 2, b / 2, x / 2);
    }
  }

  lemma {:induction false} XorCommutes(a: nat, b: nat)
    ensures Xor(a, b) == Xor(b, a)
    decreases a + b
  {
    if a + b > 0 { XorCommutes(a / 2, b / 2); }
  }

  function Pow2(k: nat): nat { if k == 0 then 1 else 2 * Pow2(k - 1) }

  lemma {:induction false} XorBelow(a: nat, b: nat, k: nat)
    requires a < Pow2(k) && b < Pow2(k)
    ensures Xor(a, b) < Pow2(k)
    decreases k
  {
    if k > 0 { XorBelow(a / 2, b / 2, k - 1); }
  }

  /** The top bit of one operand stays when the other is shorter. */
  lemma {:induction false} XorKeepsTop(a: nat, b: nat, k: nat)
    requires a < Pow2(k) <= b < 2 * Pow2(k)
    ensures Pow2(k) <= Xor(a, b)
    decreases k
  {
    if k > 0 { XorKeepsTop(a / 2, b / 2, k - 1); }
  }

  lemma Sizes()
    ensures Pow2(8) == 256 && Pow2(15) == 32768 && Pow2(16) == 65536
  {
  }

  // ---------------------------------------------------------------- steps lose nothing

  lemma BitStepBelow(v: nat)
    requires v < 65536
    ensures BitStep(v) < 65536 && (v % 2 == 1 <==> BitStep(v) >= 32768)
  {
    Sizes();
    XorBelow(v / 2, POLYNOMIAL, 16);
    XorKeepsTop(v / 2, POLYNOMIAL, 15);
  }

  lemma BitStepInjective(v: nat, w: nat)
    requires v < 65536 && w < 65536 && BitStep(v) == BitStep(w)
    ensures v == w
  {
    BitStepBelow(v);
    BitStepBelow(w);
    if v % 2 == 1 { XorInjective(v / 2, w / 2, POLYNOMIAL); }
  }

  lemma {:induction false} BitStepsBelow(v: nat, n: nat)
    requires v < 65536
    ensures BitSteps(v, n) < 65536
  {
    if n > 0 {
      BitStepsBelow(v, n - 1);
      BitStepBelow(BitSteps(v, n - 1));
    }
  }

  lemma {:induction false} BitStepsInjective(v: nat, w: nat, n: nat)
    requires v < 65536 && w < 65536 && BitSteps(v, n) == BitSteps(w, n)
    ensures v == w
    decreases n
  {
    if n > 0 {
      BitStepsBelow(v, n - 1);
      BitStepsBelow(w, n - 1);
      BitStepInjective(BitSteps(v, n - 1), BitSteps(w, n - 1));
      BitStepsInjective(v, w, n - 1);
    }
  }

  ghost predicate IsBytes(b: seq<Byte>) { forall i :: 0 <= i < |b| ==> b[i] < 256 }

  lemma {:induction false} CrcBelow(b: seq<Byte>, start: nat, end: nat)
    requires IsBytes(b) && start <= end <= |b|
    ensures Crc(b, start, end) < 65536
    decreases end
  {
    if start < end {
      CrcBelow(b, start, end - 1);
      MixedBelow(Crc(b, start, end - 1), b[end - 1]);
      BitStepsBelow(Xor(Crc(b, start, end - 1), b[end - 1]), BITS);
    }
  }

  lemma MixedBelow(c: nat, x: Byte)
    requires c < 65536 && x < 256
    ensures Xor(c, x) < 65536
  {
    Sizes();
    XorBelow(c, x, 16);
  }

  /** The same byte keeps different checksums apart, and different bytes turn the same checksum into different ones. */
  lemma MixedApart(c: nat, d: nat, x: Byte, y: Byte, n: nat)
    requires c < 65536 && d < 65536 && x < 256 && y < 256 && (c == d <==> x != y)
    ensures BitSteps(Xor(c, x), n) != BitSteps(Xor(d, y), n)
  {
    MixedBelow(c, x);
    MixedBelow(d, y);
    if BitSteps(Xor(c, x), n) == BitSteps(Xor(d, y), n) {
      BitStepsInjective(Xor(c, x), Xor(d, y), n);
      if x == y {
        XorInjective(c, d, x);
      } else {
        XorCommutes(c, x);
        XorCommutes(c, y);
        XorInjective(x, y, c);
      }
    }
  }

  // ---------------------------------------------------------------- what a verdict tells

  /** The two byte strings differ at `at` and nowhere else. */
  ghost predicate DifferOnlyAt(b: seq<Byte>, c: seq<Byte>, at: nat) {
    && |b| == |c| && at < |b| && b[at] != c[at]
    && forall i :: 0 <= i < |b| && i != at ==> b[i] == c[i]
  }

  lemma {:induction false} SameBytesSameCrc(b: seq<Byte>, c: seq<Byte>, start: nat, end: nat)
    requires start <= end <= |b| && end <= |c| && forall i :: start <= i < end ==> b[i] == c[i]
    ensures Crc(b, start, end) == Crc(c, start, end)
    decreases end
  {
    if start < end { SameBytesSameCrc(b, c, start, end - 1); }
  }

  /** One changed byte changes the checksum of every stretch that contains it. */
  lemma {:induction false} OneByteChangesCrc(b: seq<Byte>, c: seq<Byte>, at: nat, start: nat, end: nat)
    requires IsBytes(b) && IsBytes(c) && DifferOnlyAt(b, c, at) && start <= at < end <= |b|
    ensures Crc(b, start, end) != Crc(c, start, end)
    decreases end
  {
    if at == end - 1 {
      SameBytesSameCrc(b, c, start, at);
    } else {
      OneByteChangesCrc(b, c, at, start, end - 1);
    }
    CrcBelow(b, start, end - 1);
    CrcBelow(c, start, end - 1);
    MixedApart(Crc(b, start, end - 1), Crc(c, start, end - 1), b[end - 1], c[end - 1], BITS);
  }

  /**
   * When a checksum is right, changing any one byte it covers, or one of its own two, is noticed, unless the change
   * leaves the declared checksum zero.
   */
  lemma OneWrongByteIsNoticed(b: seq<Byte>, c: seq<Byte>, at: nat, i: nat)
    requires IsBytes(b) && IsBytes(c) && DifferOnlyAt(b, c, i) && i < at + 2 <= |b|
    requires Verdict(b, at) == Some(true)
    ensures Verdict(c, at) == if Declared(c, at) == 0 then None else Some(false)
  {
    if i < at { OneByteChangesCrc(b, c, i, 0, at); } else { SameBytesSameCrc(b, c, 0, at); }
  }
}
