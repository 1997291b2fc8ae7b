/**
 * The initrd's tar header and `Tar::GetSize`, which turns the 12-byte octal
 * `size` field of a ustar header into a byte count.
 *
 * `GetSize` accumulates in a `size_t` but scales each digit by an
 * `unsigned int` place value, so every term is reduced modulo 2^32 before it
 * is added. The method GetSize models that code as written; GetSizeWide is the
 * same loop with a 64-bit place value, which computes the octal value the
 * field denotes.
 */
module Tar {
  import opened Common

  // ------------------------------------------------------- header layout

  /** Field widths of `struct tar_header`, in declaration order. */
  const FILENAME_LEN: nat := 100
  const MODE_LEN: nat := 8
  const UID_LEN: nat := 8
  const GID_LEN: nat := 8
  const SIZE_LEN: nat := 12
  const MTIME_LEN: nat := 12
  const CHKSUM_LEN: nat := 8

  /** Byte offset of `size` within the header, and the header's length. */
  const SIZE_OFFSET: nat := FILENAME_LEN + MODE_LEN + UID_LEN + GID_LEN
  const HEADER_LEN: nat := SIZE_OFFSET + SIZE_LEN + MTIME_LEN + CHKSUM_LEN + 1

  /** `typeflag` values the initrd distinguishes. */
  const TAR_TYPE_FILE: byte := 0
  const TAR_TYPE_HARD_LNK: byte := 0x31
  const TAR_TYPE_SYMLNK: byte := 0x32
  const TAR_TYPE_CHAR_SPECIAL: byte := 0x33
  const TAR_TYPE_BLOCK_SPECIAL: byte := 0x34
  const TAR_TYPE_DIR: byte := 0x35

  /** `struct tar_header`: its fields as byte strings of the declared widths. */
  datatype Header = Header(
    filename: seq<byte>, mode: seq<byte>, uid: seq<byte>, gid: seq<byte>,
    size: seq<byte>, mtime: seq<byte>, chksum: seq<byte>, typeflag: byte)

  predicate WellSized(h: Header) {
    |h.filename| == FILENAME_LEN && |h.mode| == MODE_LEN && |h.uid| == UID_LEN &&
    |h.gid| == GID_LEN && |h.size| == SIZE_LEN && |h.mtime| == MTIME_LEN &&
    |h.chksum| == CHKSUM_LEN
  }

  /** The header as it lies in memory: the fields back to back, unpadded. */
  function Layout(h: Header): (b: seq<byte>)
    requires WellSized(h)
    ensures |b| == HEADER_LEN
    ensures b[SIZE_OFFSET..SIZE_OFFSET + SIZE_LEN] == h.size
    ensures b[HEADER_LEN - 1] == h.typeflag
  {
    var b := h.filename + h.mode + h.uid + h.gid + h.size + h.mtime + h.chksum + [h.typeflag];
    assert b[SIZE_OFFSET..SIZE_OFFSET + SIZE_LEN] == h.size;
    b
  }

  /** Reading a header out of the first HEADER_LEN bytes of `b`. */
  function Fields(b: seq<byte>): (h: Header)
    requires |b| >= HEADER_LEN
    ensures WellSized(h)
    ensures h.size == b[SIZE_OFFSET..SIZE_OFFSET + SIZE_LEN]
  {
    Header(b[0..100], b[100..108], b[108..116], b[116..124],
           b[124..136], b[136..148], b[148..156], b[156])
  }

  /** Reading back a laid-out header gives the same header. */
  lemma FieldsOfLayout(h: Header)
    requires WellSized(h)
    ensures Fields(Layout(h)) == h
  {
    var b := Layout(h);
    assert b[0..100] == h.filename;
    assert b[100..108] == h.mode;
    assert b[108..116] == h.uid;
    assert b[116..124] == h.gid;
    assert b[136..148] == h.mtime;
    assert b[148..156] == h.chksum;
  }

  /** Laying out the header read from some bytes gives those bytes back. */
  lemma LayoutOfFields(b: seq<byte>)
    requires |b| >= HEADER_LEN
    ensures Layout(Fields(b)) == b[..HEADER_LEN]
  {
    var h := Fields(b);
    assert b[..HEADER_LEN] == b[0..100] + b[100..108] + b[108..116] + b[116..124] +
      b[124..136] + b[136..148] + b[148..156] + [b[156]];
  }

  // --------------------------------------------------------- digit values

  /** A `char` read from memory: signed on x86_64. */
  function SignedChar(c: byte): int {
    if c < 128 then c else c - 256
  }

  /** `field[j-1] - '0'`, which is negative or above 7 for a non-digit. */
  function Digit(c: byte): (d: int)
    ensures -304 <= d < 80
  {
    SignedChar(c) - 0x30
  }

  predicate IsOctalDigit(c: byte) {
    0x30 <= c <= 0x37
  }

  /** `in[0] .. in[10]` are all octal digits. */
  predicate OctalField(field: seq<byte>)
    requires |field| >= DIGITS
  {
    forall i :: 0 <= i < DIGITS ==> IsOctalDigit(field[i])
  }

  function Pow8(n: nat): (p: nat)
    ensures p >= 1
  {
    if n == 0 then 1 else 8 * Pow8(n - 1)
  }

  /** `d * 8^n`, written as `n` multiplications by 8 so that sums of place values stay linear. */
  function Scale(d: int, n: nat): int {
    if n == 0 then d else 8 * Scale(d, n - 1)
  }

  lemma {:induction false} ScaleIsProduct(d: int, n: nat)
    ensures Scale(d, n) == d * Pow8(n)
  {
    if n > 0 {
      ScaleIsProduct(d, n - 1);
      assert d * Pow8(n) == 8 * (d * Pow8(n - 1));
    }
  }

  lemma {:induction false} ScaleAdd(a: int, b: int, n: nat)
    ensures Scale(a + b, n) == Scale(a, n) + Scale(b, n)
  {
    if n > 0 {
      ScaleAdd(a, b, n - 1);
    }
  }

  lemma {:induction false} ScaleShift(a: int, n: nat)
    ensures Scale(8 * a, n) == Scale(a, n + 1)
  {
    if n > 0 {
      ScaleShift(a, n - 1);
    }
  }

  lemma {:induction false} ScaleZero(n: nat)
    ensures Scale(0, n) == 0
  {
    if n > 0 {
      ScaleZero(n - 1);
    }
  }

  /** An octal digit at place value 8^n contributes at most 7 * 8^n. */
  lemma {:induction false} ScaleBounds(d: int, n: nat)
    requires 0 <= d <= 7
    ensures 0 <= Scale(d, n) <= 7 * Pow8(n)
  {
    if n > 0 {
      ScaleBounds(d, n - 1);
    }
  }

  /** The leading digit's place value, 8^10 = 2^30. */
  lemma ScaleLead(d: int)
    ensures Scale(d, DIGITS - 1) == d * 0x4000_0000
  {
    ScaleIsProduct(d, DIGITS - 1);
    Pow8Ten();
  }

  /**
   * The number the first `n` bytes denote: read left to right as a
   * big-endian base-8 numeral (Horner's rule), byte `n - 1` least significant.
   */
  function Octal(s: seq<byte>, n: nat): int
    requires n <= |s|
  {
    if n == 0 then 0 else 8 * Octal(s, n - 1) + Digit(s[n - 1])
  }

  /** A numeral of `n` octal digits is below 8^n. */
  lemma {:induction false} OctalBounds(s: seq<byte>, n: nat)
    requires n <= |s| && forall i :: 0 <= i < n ==> IsOctalDigit(s[i])
    ensures 0 <= Octal(s, n) < Pow8(n)
  {
    if n > 0 {
      OctalBounds(s, n - 1);
      assert IsOctalDigit(s[n - 1]);
    }
  }

  // ----------------------------------------------------- the loop, exact

  /** Number of field bytes `GetSize` reads: `field[0] .. field[10]`. */
  const DIGITS: nat := 11

  /**
   * Σ_{k <= i < 11} (field[i] - '0') * 8^(10 - i): what the loop adds for the
   * positions it has visited once `j == k`, in unbounded arithmetic.
   */
  function ExactFrom(field: seq<byte>, k: nat): int
    requires k <= DIGITS <= |field|
    decreases DIGITS - k
  {
    if k == DIGITS then 0 else Scale(Digit(field[k]), DIGITS - 1 - k) + ExactFrom(field, k + 1)
  }

  /** The loop's right-to-left sum agrees with the left-to-right numeral. */
  lemma {:induction false} ExactFromIsOctal(field: seq<byte>, k: nat)
    requires k <= DIGITS <= |field|
    ensures Octal(field, DIGITS) == Scale(Octal(field, k), DIGITS - k) + ExactFrom(field, k)
    decreases DIGITS - k
  {
    if k < DIGITS {
      ExactFromIsOctal(field, k + 1);
      ScaleAdd(8 * Octal(field, k), Digit(field[k]), DIGITS - 1 - k);
      ScaleShift(Octal(field, k), DIGITS - 1 - k);
    }
  }

  lemma ExactIsOctal(field: seq<byte>)
    requires DIGITS <= |field|
    ensures ExactFrom(field, 0) == Octal(field, DIGITS)
  {
    ExactFromIsOctal(field, 0);
    ScaleZero(DIGITS);
  }

  // ------------------------------------------------ the loop, as written

  /** `(field[j-1] - '0') * count` with an `unsigned int` count: modulo 2^32. */
  function Term32(c: byte, count: nat): (t: nat)
    ensures t < U32
  {
    (Digit(c) * count) % U32
  }

  /**
   * What `GetSize` has accumulated for positions k .. 10: each digit's term
   * (field[i] - '0') * 8^(10-i) reduced modulo 2^32. At most eleven terms
   * below 2^32 each never reach 2^64, so the `size_t` additions never wrap.
   */
  function AsWrittenFrom(field: seq<byte>, k: nat): (r: nat)
    requires k <= DIGITS <= |field|
    ensures r <= (DIGITS - k) * (U32 - 1)
    decreases DIGITS - k
  {
    if k == DIGITS then 0
    else Scale(Digit(field[k]), DIGITS - 1 - k) % U32 + AsWrittenFrom(field, k + 1)
  }

  /** The `unsigned int` place value after one more step is 8^(11-j+1) modulo 2^32. */
  lemma CountStep(j: nat)
    requires 1 <= j <= DIGITS
    ensures (Pow8(DIGITS - j) % U32 * 8) % U32 == Pow8(DIGITS - (j - 1)) % U32
  {
    ModTimes8(Pow8(DIGITS - j), Pow8(DIGITS - (j - 1)));
  }

  lemma ModTimes8(p: int, p8: int)
    requires p8 == p * 8
    ensures (p % U32 * 8) % U32 == p8 % U32
  {
    var q, r := p / U32, p % U32;
    assert p8 == q * 8 * U32 + r * 8;
  }

  /** Two sums that stay below 2^64 are not reduced. */
  lemma NoWrap64(a: int, t: int)
    requires 0 <= a <= DIGITS * (U32 - 1) && 0 <= t < U32
    ensures (a + t) % U64 == a + t
  {
  }

  /** Multiplying by the place value reduced modulo 2^32 gives the same term modulo 2^32. */
  lemma TermScale(c: byte, n: nat)
    ensures Term32(c, Pow8(n) % U32) == Scale(Digit(c), n) % U32
  {
    ScaleIsProduct(Digit(c), n);
    MulMod(Digit(c), Pow8(n));
  }

  lemma MulMod(d: int, p: nat)
    ensures (d * (p % U32)) % U32 == (d * p) % U32
  {
    var q, r := p / U32, p % U32;
    assert d * p == (d * q) * U32 + d * r;
  }

  lemma AsWrittenStep(field: seq<byte>, j: nat)
    requires 1 <= j <= DIGITS <= |field|
    ensures AsWrittenFrom(field, j - 1) ==
            AsWrittenFrom(field, j) + Term32(field[j - 1], Pow8(DIGITS - j) % U32)
  {
    assert DIGITS - 1 - (j - 1) == DIGITS - j;
    TermScale(field[j - 1], DIGITS - j);
  }

  /** One position of each sum, unfolded. */
  lemma AsWrittenHead(field: seq<byte>, k: nat)
    requires k < DIGITS <= |field|
    ensures AsWrittenFrom(field, k) == Scale(Digit(field[k]), DIGITS - 1 - k) % U32 + AsWrittenFrom(field, k + 1)
    ensures ExactFrom(field, k) == Scale(Digit(field[k]), DIGITS - 1 - k) + ExactFrom(field, k + 1)
  {
  }

  lemma ModAdd(a: int, b: int)
    ensures (a % U64 + b) % U64 == (a + b) % U64
  {
    var q := a / U64;
    assert a == q * U64 + a % U64;
    assert a + b == q * U64 + (a % U64 + b);
  }

  /** The state of `GetSize` with `j` digits still to read: the sum so far and the `unsigned int` place value. */
  predicate Reading(field: seq<byte>, j: nat, size: nat, count: nat)
    requires |field| >= DIGITS
  {
    j <= DIGITS && size == AsWrittenFrom(field, j) && count == Pow8(DIGITS - j) % U32
  }

  /** One iteration of the loop of `GetSize`. */
  lemma ReadingStep(field: seq<byte>, j: nat, size: nat, count: nat)
    requires |field| >= DIGITS && 1 <= j && Reading(field, j, size, count)
    ensures Reading(field, j - 1, (size + Term32(field[j - 1], count)) % U64, (count * 8) % U32)
  {
    AsWrittenStep(field, j);
    CountStep(j);
    NoWrap64(size, Term32(field[j - 1], count));
  }

  /** `Tar::GetSize`, as written: `size_t` sum, `unsigned int` place value. */
  method GetSize(field: seq<byte>) returns (size: nat)
    requires |field| >= DIGITS
    ensures size == AsWrittenFrom(field, 0)
  {
    size := 0;
    var j: nat := DIGITS;
    var count: nat := 1;
    while j > 0
      invariant Reading(field, j, size, count)
      decreases j
    {
      ReadingStep(field, j, size, count);
      size := (size + Term32(field[j - 1], count)) % U64;
      j, count := j - 1, (count * 8) % U32;
    }
  }

  /** The state of the loop with a 64-bit place value. */
  predicate WideReading(field: seq<byte>, j: nat, size: nat, count: nat)
    requires |field| >= DIGITS
  {
    j <= DIGITS && size == ExactFrom(field, j) % U64 && count == Pow8(DIGITS - j)
  }

  lemma WideStep(field: seq<byte>, j: nat, size: nat, count: nat)
    requires |field| >= DIGITS && 1 <= j && WideReading(field, j, size, count)
    ensures WideReading(field, j - 1, (size + Digit(field[j - 1]) * count) % U64, count * 8)
  {
    ExactStep(field, j);
    ModAdd(ExactFrom(field, j), Digit(field[j - 1]) * count);
  }

  lemma ExactStep(field: seq<byte>, j: nat)
    requires 1 <= j <= DIGITS <= |field|
    ensures ExactFrom(field, j - 1) == ExactFrom(field, j) + Digit(field[j - 1]) * Pow8(DIGITS - j)
  {
    AsWrittenHead(field, j - 1);
    ScaleIsProduct(Digit(field[j - 1]), DIGITS - 1 - (j - 1));
  }

  /** The same loop with a `size_t` place value: the evidently intended sum. */
  method GetSizeWide(field: seq<byte>) returns (size: nat)
    requires |field| >= DIGITS
    ensures size == Octal(field, DIGITS) % U64
  {
    size := 0;
    var j: nat := DIGITS;
    var count: nat := 1;
    while j > 0
      invariant WideReading(field, j, size, count)
      decreases j
    {
      WideStep(field, j, size, count);
      size := (size + Digit(field[j - 1]) * count) % U64;
      j, count := j - 1, count * 8;
    }
    ExactIsOctal(field);
  }

  // ------------------------------------------------------------ properties

  /** With octal digits only, the exact sum over positions k.. stays below 8^(11-k). */
  lemma {:induction false} ExactFromBounds(field: seq<byte>, k: nat)
    requires k <= DIGITS <= |field| && OctalField(field)
    ensures 0 <= ExactFrom(field, k) < Pow8(DIGITS - k)
    decreases DIGITS - k
  {
    if k < DIGITS {
      ExactFromBounds(field, k + 1);
      assert IsOctalDigit(field[k]);
      ScaleBounds(Digit(field[k]), DIGITS - 1 - k);
      assert Pow8(DIGITS - k) == 8 * Pow8(DIGITS - 1 - k);
    }
  }

  /** Below the leading digit no term or partial sum wraps. */
  lemma {:induction false} AsWrittenExactBelowLead(field: seq<byte>, k: nat)
    requires 1 <= k <= DIGITS <= |field| && OctalField(field)
    ensures AsWrittenFrom(field, k) == ExactFrom(field, k)
    decreases DIGITS - k
  {
    if k < DIGITS {
      AsWrittenExactBelowLead(field, k + 1);
      BelowLeadStep(field, k);
    }
  }

  lemma BelowLeadStep(field: seq<byte>, k: nat)
    requires 1 <= k < DIGITS <= |field| && OctalField(field)
    requires AsWrittenFrom(field, k + 1) == ExactFrom(field, k + 1)
    ensures AsWrittenFrom(field, k) == ExactFrom(field, k)
  {
    assert IsOctalDigit(field[k]);
    ScaleBounds(Digit(field[k]), DIGITS - 1 - k);
    ExactFromBounds(field, k + 1);
    ExactFromBounds(field, k);
    Pow8Small(DIGITS - k);
    AsWrittenHead(field, k);
    NoWrapSum(Scale(Digit(field[k]), DIGITS - 1 - k), AsWrittenFrom(field, k + 1), ExactFrom(field, k + 1));
  }

  /** A term and a rest that together stay below 2^30 are reduced by neither modulus. */
  lemma NoWrapSum(t: int, w: int, e: int)
    requires w == e && 0 <= t && 0 <= e && t + e < 0x4000_0000
    ensures t % U32 + w == t + e
  {
  }

  lemma {:induction false} Pow8Small(n: nat)
    requires n <= 10
    ensures Pow8(n) <= 0x4000_0000
    ensures n <= 9 ==> Pow8(n) <= 0x800_0000
    decreases 10 - n
  {
    if n < 10 {
      Pow8Small(n + 1);
    } else {
      Pow8Ten();
    }
  }

  /**
   * For a field of octal digits the code yields the field's value modulo
   * 2^32: the leading digit's term, 8^10 times the digit, loses its bit 32.
   */
  lemma AsWrittenIsOctalMod32(field: seq<byte>)
    requires |field| >= DIGITS && OctalField(field)
    ensures AsWrittenFrom(field, 0) == Octal(field, DIGITS) % U32
  {
    LeadTerm(field);
    LeadValue(field);
    SameMod(AsWrittenFrom(field, 0), Octal(field, DIGITS), Digit(field[0]) * 0x4000_0000 + ExactFrom(field, 1));
  }

  lemma SameMod(a: int, x: int, y: int)
    requires a == y % U32 && x == y
    ensures a == x % U32
  {
  }

  /** The leading digit is 0..7 and the rest of the value is below 8^10. */
  lemma LeadParts(field: seq<byte>)
    requires |field| >= DIGITS && OctalField(field)
    ensures 0 <= Digit(field[0]) <= 7 && 0 <= ExactFrom(field, 1) < 0x4000_0000
  {
    assert IsOctalDigit(field[0]);
    ExactFromBounds(field, 1);
    Pow8Ten();
  }

  /** The code's sum: the leading digit's term and the exact rest, reduced modulo 2^32. */
  lemma LeadTerm(field: seq<byte>)
    requires |field| >= DIGITS && OctalField(field)
    ensures AsWrittenFrom(field, 0) == (Digit(field[0]) * 0x4000_0000 + ExactFrom(field, 1)) % U32
  {
    LeadParts(field);
    AsWrittenExactBelowLead(field, 1);
    ScaleLead(Digit(field[0]));
    AsWrittenHead(field, 0);
    LeadWrap(Scale(Digit(field[0]), DIGITS - 1), Digit(field[0]), AsWrittenFrom(field, 1), ExactFrom(field, 1));
  }


  /** The field's value, split the same way. */
  lemma LeadValue(field: seq<byte>)
    requires |field| >= DIGITS
    ensures Octal(field, DIGITS) == Digit(field[0]) * 0x4000_0000 + ExactFrom(field, 1)
  {
    ScaleLead(Digit(field[0]));
    ExactIsOctal(field);
  }

  lemma Pow8Ten()
    ensures Pow8(9) == 0x800_0000 && Pow8(10) == 0x4000_0000
  {
    assert Pow8(2) == 64;
    assert Pow8(5) == 32768;
    assert Pow8(10) == 8 * 8 * 8 * 8 * 8 * Pow8(5);
  }

  /** Dropping bit 32 of the leading term is reducing the whole value modulo 2^32. */
  lemma LeadWrap(t: int, d: int, w: int, rest: int)
    requires t == d * 0x4000_0000 && w == rest
    requires 0 <= d <= 7 && 0 <= rest < 0x4000_0000
    ensures t % U32 + w == (d * 0x4000_0000 + rest) % U32
  {
    if d >= 4 {
      assert (d * 0x4000_0000) % U32 == (d - 4) * 0x4000_0000;
      assert (d * 0x4000_0000 + rest) % U32 == (d - 4) * 0x4000_0000 + rest;
    }
  }

  /** The intended reading: a field of octal digits yields exactly its value, below 8^11. */
  lemma WideIsOctal(field: seq<byte>)
    requires |field| >= DIGITS && OctalField(field)
    ensures 0 <= Octal(field, DIGITS) < Pow8(DIGITS)
    ensures Octal(field, DIGITS) % U64 == Octal(field, DIGITS)
  {
    OctalBounds(field, DIGITS);
    assert Pow8(DIGITS) < U64 by { Pow8Ten(); }
  }

  /** The code as written never exceeds 2^32 - 1 on a field of octal digits. */
  lemma AsWrittenBounds(field: seq<byte>)
    requires |field| >= DIGITS && OctalField(field)
    ensures AsWrittenFrom(field, 0) < U32 && AsWrittenFrom(field, 0) < Pow8(DIGITS)
  {
    AsWrittenIsOctalMod32(field);
    WideIsOctal(field);
    Pow8Ten();
  }

  /** A field of eleven '0' characters gives 0. */
  lemma ZerosGiveZero(field: seq<byte>)
    requires |field| >= DIGITS && forall i :: 0 <= i < DIGITS ==> field[i] == 0x30
    ensures AsWrittenFrom(field, 0) == 0
  {
    ZerosField(field);
    AsWrittenIsOctalMod32(field);
  }

  lemma ZerosField(field: seq<byte>)
    requires |field| >= DIGITS && forall i :: 0 <= i < DIGITS ==> field[i] == 0x30
    ensures OctalField(field) && Octal(field, DIGITS) == 0
  {
    ZerosOctal(field, DIGITS);
  }

  lemma {:induction false} ZerosOctal(s: seq<byte>, n: nat)
    requires n <= |s| && forall i :: 0 <= i < n ==> s[i] == 0x30
    ensures Octal(s, n) == 0
  {
    if n > 0 {
      ZerosOctal(s, n - 1);
    }
  }

  /** Only `field[0] .. field[10]` are read: the terminator byte `field[11]` never matters. */
  lemma {:induction false} IgnoresTerminator(a: seq<byte>, b: seq<byte>, k: nat)
    requires DIGITS <= |a| && DIGITS <= |b| && a[..DIGITS] == b[..DIGITS] && k <= DIGITS
    ensures AsWrittenFrom(a, k) == AsWrittenFrom(b, k)
    decreases DIGITS - k
  {
    if k < DIGITS {
      assert a[k] == a[..DIGITS][k] == b[..DIGITS][k] == b[k];
      IgnoresTerminator(a, b, k + 1);
    }
  }

  /**
   * A 4 GiB file, size field "40000000000": the field denotes 2^32 but the
   * code as written reports 0.
   */
  lemma FourGiBReadsAsZero(field: seq<byte>)
    requires |field| >= DIGITS && field[0] == 0x34
    requires forall i :: 1 <= i < DIGITS ==> field[i] == 0x30
    ensures Octal(field, DIGITS) == U32
    ensures AsWrittenFrom(field, 0) == 0
  {
    FourGiBField(field);
    AsWrittenIsOctalMod32(field);
  }

  lemma FourGiBField(field: seq<byte>)
    requires |field| >= DIGITS && field[0] == 0x34
    requires forall i :: 1 <= i < DIGITS ==> field[i] == 0x30
    ensures OctalField(field) && Octal(field, DIGITS) == U32
  {
    assert IsOctalDigit(field[0]);
    ZerosFrom(field, 1);
    LeadValue(field);
  }

  lemma {:induction false} ZerosFrom(field: seq<byte>, k: nat)
    requires 1 <= k <= DIGITS <= |field| && forall i :: 1 <= i < DIGITS ==> field[i] == 0x30
    ensures ExactFrom(field, k) == 0
    decreases DIGITS - k
  {
    if k < DIGITS {
      ZerosFrom(field, k + 1);
      ScaleZero(DIGITS - 1 - k);
    }
  }
}
