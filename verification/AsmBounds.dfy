/**
 Operand ranges: the assembler's bounds and low-bit mask for a field against the values the
 disassembler makes of the field's bits by extending, shifting and adding the offset.
 */
module AsmBounds {
  import opened Basics
  import opened Words

  /** The range of a 64-bit unsigned integer. */
  const WORD: nat := 0x1_0000_0000_0000_0000

  datatype Field = Field(size: nat, shift: nat, offset: nat, signed: bool, unsignedUpper: bool)
  datatype Info = Info(lower: nat, upper: nat, mask: nat)

  function Wrap(n: int, m: nat): (r: nat)
    requires m > 0
    ensures r < m
  {
    n % m
  }

  /** A bit pattern of the given range read as a two's-complement number. */
  function AsSigned(u: nat, range: nat): int { if 2 * u < range then u else u - range }

  // ----- the assembler: getFieldData and the range check -----

  function FieldInfo(f: Field): Info
    requires f.size + f.shift > 0
  {
    var mask := if f.shift > 0 then Pow2(f.shift) - 1 else 0;
    if f.signed then
      var upper := Wrap(Pow2(f.size + f.shift - 1) - 1, WORD);
      Info(WORD - 1 - upper, if f.unsignedUpper then Wrap(Pow2(f.size + f.shift) - 1, WORD) else upper, mask)
    else
      Info(Wrap(f.offset, WORD), Wrap(Wrap(Pow2(f.size + f.shift) - 1, WORD) + f.offset, WORD), mask)
  }

  function Abs(n: int): nat { if n < 0 then -n else n }

  /** The range check on a 64-bit pattern; a mask of ones tests the remainder by the next power of two. */
  predicate Accepts(f: Field, u: nat)
    requires f.size + f.shift > 0
  {
    var info := FieldInfo(f);
    var v, lower, upper := AsSigned(u, WORD), AsSigned(info.lower, WORD), AsSigned(info.upper, WORD);
    && (if f.signed && !f.unsignedUpper then lower <= v <= upper
        else if f.signed then lower <= v && (info.upper != 0 ==> Abs(v) <= info.upper)
        else info.lower <= u <= info.upper)
    && u % (info.mask + 1) == 0
  }

  // ----- the disassembler: genGetModifiedField -----

  /** The bits of a field, extended, shifted and offset, as a pattern of the type they end in. */
  function Decode(f: Field, nia: nat, raw: nat): nat {
    var extended := if f.signed && 2 * raw >= Pow2(f.size) then Wrap(raw - Pow2(f.size), Pow2(nia)) else raw;
    var width := if f.signed then nia else f.size + f.shift;
    var shifted := if f.shift > 0 then Wrap(extended * Pow2(f.shift), Pow2(width)) else extended;
    if f.offset > 0 then Wrap(shifted + f.offset, Pow2(nia)) else shifted
  }

  /** The number a decoded pattern stands for. */
  function Value(f: Field, nia: nat, raw: nat): int {
    if f.signed then AsSigned(Decode(f, nia, raw), Pow2(nia)) else Decode(f, nia, raw)
  }

  /** Some bits of the field decode to the number. */
  ghost predicate Produced(f: Field, nia: nat, v: int) {
    exists raw: nat :: raw < Pow2(f.size) && Value(f, nia, raw) == v
  }

  /** Both tools agree on the field: for every number, accepted exactly when produced. */
  ghost predicate Agree(f: Field, nia: nat)
    requires f.size + f.shift > 0
  {
    forall u: nat :: u < WORD ==>
      (Accepts(f, u) <==> Produced(f, nia, if f.signed then AsSigned(u, WORD) else u))
  }

  /** Size and shift below 64, and every value within the width of an address. */
  ghost predicate Fits(f: Field, nia: nat) {
    && f.size > 0 && 2 * Pow2(f.size + f.shift) <= WORD && Pow2(nia) <= WORD && nia > 0
    && if f.signed then 2 * f.offset + Pow2(f.size + f.shift) <= Pow2(nia)
       else f.offset + Pow2(f.size + f.shift) <= Pow2(nia)
  }

  // ----- arithmetic -----

  lemma MulNonNeg(a: int, k: int)
    requires a >= 0 && k >= 0
    ensures a * k >= 0
  {
  }

  lemma Distribute(a: int, b: int, k: int)
    ensures (a + b) * k == a * k + b * k
  {
  }

  lemma MulLess(r: int, s: int, k: int)
    requires k > 0 && r < s
    ensures r * k <= s * k - k
  {
    MulNonNeg(s - 1 - r, k);
    Distribute(s - 1 - r, r, k);
    Distribute(s - 1, 1, k);
  }

  lemma MulAtMost(r: int, s: int, k: int)
    requires k >= 0 && r <= s
    ensures r * k <= s * k
  {
    MulNonNeg(s - r, k);
    Distribute(s - r, r, k);
  }

  lemma WrapSmall(n: int, m: nat)
    requires 0 <= n < m
    ensures Wrap(n, m) == n
  {
  }

  lemma WrapNegative(n: int, m: nat)
    requires 0 - m <= n < 0
    ensures Wrap(n, m) == n + m
  {
    assert (n + m) % m == n % m;
  }

  lemma WrapMul(n: int, k: nat, m: nat)
    requires m > 0
    ensures Wrap(Wrap(n, m) * k, m) == Wrap(n * k, m)
  {
    var q := n / m;
    assert Wrap(n, m) == n - q * m;
    assert Wrap(n, m) * k == n * k - (q * k) * m;
    ModShift(n * k, q * k, m);
  }

  lemma ModShift(n: int, q: int, m: nat)
    requires m > 0
    ensures (n - q * m) % m == n % m
  {
    Distribute(n / m - q, q, m);
    RemainderIs(n - q * m, m, n / m - q, n % m);
  }

  /** A wrapped number read back as signed. */
  lemma SignedBack(n: int, m: nat)
    requires m > 0 && m % 2 == 0 && 0 - m <= 2 * n < m
    ensures AsSigned(Wrap(n, m), m) == n
  {
    if n >= 0 { WrapSmall(n, m); } else { WrapNegative(n, m); }
  }

  /** Adding to a wrapped number. */
  lemma WrapAdd(n: int, k: int, m: nat)
    requires m > 0
    ensures Wrap(Wrap(n, m) + k, m) == Wrap(n + k, m)
  {
    var q := n / m;
    assert Wrap(n, m) + k == (n + k) - q * m;
    ModShift(n + k, q, m);
  }

  // ----- what the disassembler produces -----

  /** The number the bits of the field themselves stand for. */
  function Number(f: Field, raw: nat): int { if f.signed then AsSigned(raw, Pow2(f.size)) else raw }

  lemma UnsignedValue(f: Field, nia: nat, raw: nat)
    requires Fits(f, nia) && !f.signed && raw < Pow2(f.size)
    ensures Value(f, nia, raw) == raw * Pow2(f.shift) + f.offset
  {
    Pow2Add(f.size, f.shift);
    MulLess(raw, Pow2(f.size), Pow2(f.shift));
    MulNonNeg(raw, Pow2(f.shift));
    WrapSmall(raw * Pow2(f.shift), Pow2(f.size + f.shift));
    WrapSmall(raw * Pow2(f.shift) + f.offset, Pow2(nia));
    assert f.shift == 0 ==> raw * Pow2(f.shift) == raw;
  }

  lemma SignedDecode(f: Field, nia: nat, raw: nat, n: int)
    requires f.signed && raw < Pow2(f.size) <= Pow2(nia) && n == Number(f, raw)
    ensures Decode(f, nia, raw) == Wrap(n * Pow2(f.shift) + f.offset, Pow2(nia))
  {
    var m, k := Pow2(nia), Pow2(f.shift);
    if n >= 0 { WrapSmall(n, m); }
    WrapMul(n, k, m);
    assert f.shift == 0 ==> n * k == n;
    WrapAdd(n * k, f.offset, m);
  }

  lemma ScaleHalf(n: int, s: int, k: int)
    requires k > 0 && 0 - s <= 2 * n < s
    ensures 0 - s * k <= 2 * (n * k) <= s * k - k
  {
    MulLess(2 * n, s, k);
    MulAtMost(0 - s, 2 * n, k);
    Distribute(n, n, k);
    Distribute(s, 0 - s, k);
  }

  lemma HalfRange(n: int, offset: nat, s: int, k: int, sk: int, m: nat)
    requires k > 0 && 0 - s <= 2 * n < s && sk == s * k && 2 * offset + sk <= m
    ensures 0 - m <= 2 * (n * k + offset) < m
  {
    ScaleHalf(n, s, k);
  }

  lemma NumberRange(f: Field, raw: nat, n: int)
    requires f.signed && raw < Pow2(f.size) && n == Number(f, raw)
    ensures 0 - Pow2(f.size) <= 2 * n < Pow2(f.size)
  {
  }

  lemma SizeBelow(f: Field)
    ensures Pow2(f.size + f.shift) == Pow2(f.size) * Pow2(f.shift)
    ensures Pow2(f.size) <= Pow2(f.size + f.shift) && Pow2(f.shift) <= Pow2(f.size + f.shift)
  {
    Pow2Add(f.size, f.shift);
    MulAtMost(1, Pow2(f.shift), Pow2(f.size));
    MulAtMost(1, Pow2(f.size), Pow2(f.shift));
  }

  lemma SignedValue(f: Field, nia: nat, raw: nat)
    requires Fits(f, nia) && f.signed && raw < Pow2(f.size)
    ensures Value(f, nia, raw) == Number(f, raw) * Pow2(f.shift) + f.offset
  {
    var n: int := Number(f, raw);
    SizeBelow(f);
    assert Pow2(f.size) <= Pow2(nia);
    SignedDecode(f, nia, raw, n);
    NumberRange(f, raw, n);
    HalfRange(n, f.offset, Pow2(f.size), Pow2(f.shift), Pow2(f.size + f.shift), Pow2(nia));
    ReadBack(f, nia, raw, n * Pow2(f.shift) + f.offset);
  }

  lemma ReadBack(f: Field, nia: nat, raw: nat, x: int)
    requires f.signed && nia > 0 && 0 - Pow2(nia) <= 2 * x < Pow2(nia) && Decode(f, nia, raw) == Wrap(x, Pow2(nia))
    ensures Value(f, nia, raw) == x
  {
    SignedBack(x, Pow2(nia));
  }

  // ----- unsigned fields -----

  lemma UnsignedInfo(f: Field, nia: nat)
    requires Fits(f, nia) && !f.signed
    ensures FieldInfo(f) == Info(f.offset, Pow2(f.size + f.shift) - 1 + f.offset, Pow2(f.shift) - 1)
  {
    var w := Pow2(f.size + f.shift);
    WrapSmall(w - 1, WORD);
    WrapSmall(f.offset, WORD);
    WrapSmall(w - 1 + f.offset, WORD);
  }

  lemma UnsignedAccepts(f: Field, nia: nat, u: nat)
    requires Fits(f, nia) && !f.signed
    ensures Accepts(f, u) <==> f.offset <= u < f.offset + Pow2(f.size + f.shift) && u % Pow2(f.shift) == 0
  {
    UnsignedInfo(f, nia);
  }

  lemma UnsignedProduced(f: Field, nia: nat, u: nat)
    requires Fits(f, nia) && !f.signed && f.offset % Pow2(f.shift) == 0
    ensures Accepts(f, u) <==> Produced(f, nia, u)
  {
    UnsignedAccepts(f, nia, u);
    SizeBelow(f);
    if Accepts(f, u) {
      var raw := Quotient(u, f.offset, Pow2(f.size), Pow2(f.shift));
      UnsignedValue(f, nia, raw);
    }
    if Produced(f, nia, u) {
      var raw: nat :| raw < Pow2(f.size) && Value(f, nia, raw) == u;
      UnsignedValue(f, nia, raw);
      Shifted(raw, f.offset, Pow2(f.size), Pow2(f.shift));
    }
  }

  lemma Shifted(raw: nat, offset: nat, s: nat, k: nat)
    requires k > 0 && raw < s && offset % k == 0
    ensures offset <= raw * k + offset < offset + s * k && (raw * k + offset) % k == 0
  {
    MulLess(raw, s, k);
    MulNonNeg(raw, k);
    ModShift(raw * k + offset, raw, k);
  }

  /** Two multiples are a multiple apart. */
  lemma Quotient(u: int, offset: int, s: int, k: nat) returns (q: int)
    requires k > 0 && offset <= u < offset + s * k && u % k == 0 && offset % k == 0
    ensures 0 <= q < s && q * k + offset == u
  {
    q := u / k - offset / k;
    Distribute(u / k - offset / k, offset / k, k);
    if q < 0 { MulAtMost(q, -1, k); }
    if q >= s { MulAtMost(s, q, k); }
  }

  /** For an unsigned field the tools agree exactly when the offset is a multiple of the shift's power of two. */
  lemma UnsignedAgreeIff(f: Field, nia: nat)
    requires Fits(f, nia) && !f.signed
    ensures Agree(f, nia) <==> f.offset % Pow2(f.shift) == 0
  {
    if f.offset % Pow2(f.shift) == 0 {
      forall u: nat | u < WORD
        ensures Accepts(f, u) <==> Produced(f, nia, u)
      {
        UnsignedProduced(f, nia, u);
      }
    } else {
      UnsignedAccepts(f, nia, f.offset);
      UnsignedValue(f, nia, 0);
      assert Produced(f, nia, f.offset);
    }
  }

  // ----- signed fields -----

  lemma WordIsPower()
    ensures Pow2(64) == WORD
  {
    Pow2Of32();
    Squared(32, 0x1_0000_0000, 64, WORD);
  }

  lemma WordMultiple(n: nat) returns (q: nat)
    requires Pow2(n) < WORD
    ensures WORD == q * Pow2(n)
  {
    WordIsPower();
    if n <= 64 {
      Pow2Add(64 - n, n);
      q := Pow2(64 - n);
    } else {
      Pow2Add(n - 64, 64);
      MulAtMost(1, Pow2(n - 64), WORD);
    }
  }

  /** The low bits of a pattern are those of the number it stands for. */
  lemma LowBits(u: nat, n: nat)
    requires Pow2(n) < WORD
    ensures u % Pow2(n) == AsSigned(u, WORD) % Pow2(n)
  {
    var q := WordMultiple(n);
    ModShift(u, q, Pow2(n));
  }

  /** Half the range of the shifted field. */
  function Half(f: Field): nat
    requires f.size + f.shift > 0
  {
    Pow2(f.size + f.shift - 1)
  }

  lemma SignedInfo(f: Field, nia: nat)
    requires Fits(f, nia) && f.signed
    ensures FieldInfo(f) ==
            Info(WORD - Half(f), if f.unsignedUpper then 2 * Half(f) - 1 else Half(f) - 1, Pow2(f.shift) - 1)
  {
    WrapSmall(Half(f) - 1, WORD);
    WrapSmall(2 * Half(f) - 1, WORD);
  }

  lemma SignedAccepts(f: Field, nia: nat, u: nat, v: int)
    requires Fits(f, nia) && f.signed && u < WORD && v == AsSigned(u, WORD)
    ensures
      Accepts(f, u) <==>
        0 - Half(f) <= v < (if f.unsignedUpper then 2 * Half(f) else Half(f)) && v % Pow2(f.shift) == 0
  {
    SizeBelow(f);
    LowBits(u, f.shift);
    SignedInfo(f, nia);
  }

  /** The bits of a number of the field's range. */
  lemma RawOf(f: Field, n: int, h: nat) returns (raw: nat)
    requires f.signed && f.size > 0 && h == Pow2(f.size - 1) && 0 - h <= n < h
    ensures raw < Pow2(f.size) && Number(f, raw) == n
  {
    raw := if n >= 0 then n else n + 2 * h;
  }

  /** A multiple of `k` by a factor between `-h` and `h`. */
  ghost predicate IsMultiple(v: int, h: nat, k: nat) { exists n: int :: 0 - h <= n < h && n * k == v }

  lemma SignedProduced(f: Field, nia: nat, v: int)
    requires Fits(f, nia) && f.signed
    ensures Produced(f, nia, v) <==> IsMultiple(v - f.offset, Pow2(f.size - 1), Pow2(f.shift))
  {
    var h, k := Pow2(f.size - 1), Pow2(f.shift);
    if Produced(f, nia, v) {
      var raw: nat :| raw < Pow2(f.size) && Value(f, nia, raw) == v;
      SignedValue(f, nia, raw);
      var n: int := Number(f, raw);
      assert 0 - h <= n < h && n * k == v - f.offset;
    }
    if IsMultiple(v - f.offset, h, k) {
      var n: int :| 0 - h <= n < h && n * k == v - f.offset;
      var raw := RawOf(f, n, h);
      SignedValue(f, nia, raw);
    }
  }

  lemma Bracket(n: int, h: nat, k: nat, v: int)
    requires k > 0 && n * k == v && 0 - h * k <= v < h * k
    ensures 0 - h <= n < h
  {
    if n >= h { MulAtMost(h, n, k); }
    if n < 0 - h {
      MulLess(n, 0 - h, k);
      Distribute(h, 0 - h, k);
    }
  }

  lemma Bounded(n: int, h: nat, k: nat)
    requires k > 0 && 0 - h <= n < h
    ensures 0 - h * k <= n * k < h * k && (n * k) % k == 0
  {
    MulAtMost(0 - h, n, k);
    MulLess(n, h, k);
    Distribute(h, 0 - h, k);
    RemainderIs(n * k, k, n, 0);
  }

  lemma MultipleIff(v: int, h: nat, k: nat)
    requires k > 0
    ensures IsMultiple(v, h, k) <==> 0 - h * k <= v < h * k && v % k == 0
  {
    if IsMultiple(v, h, k) {
      var n: int :| 0 - h <= n < h && n * k == v;
      Bounded(n, h, k);
    }
    if 0 - h * k <= v < h * k && v % k == 0 {
      Bracket(v / k, h, k, v);
    }
  }

  lemma HalfIs(f: Field)
    requires f.size > 0
    ensures Half(f) == Pow2(f.size - 1) * Pow2(f.shift) && Half(f) % Pow2(f.shift) == 0
    ensures (0 - Half(f)) % Pow2(f.shift) == 0
  {
    var h: int, k: nat := Pow2(f.size - 1), Pow2(f.shift);
    Pow2Add(f.size - 1, f.shift);
    RemainderIs(h * k, k, h, 0);
    Distribute(h, 0 - h, k);
    RemainderIs(0 - h * k, k, 0 - h, 0);
  }

  /** A signed field produces the multiples between its bounds, moved by the offset. */
  lemma SignedProducedIff(f: Field, nia: nat, v: int)
    requires Fits(f, nia) && f.signed
    ensures Produced(f, nia, v) <==>
            0 - Half(f) <= v - f.offset < Half(f) && (v - f.offset) % Pow2(f.shift) == 0
  {
    SignedProduced(f, nia, v);
    HalfIs(f);
    MultipleIff(v - f.offset, Pow2(f.size - 1), Pow2(f.shift));
  }

  lemma SignedAgrees(f: Field, nia: nat, u: nat)
    requires Fits(f, nia) && f.signed && u < WORD && f.offset == 0 && !f.unsignedUpper
    ensures Accepts(f, u) <==> Produced(f, nia, AsSigned(u, WORD))
  {
    SignedAccepts(f, nia, u, AsSigned(u, WORD));
    SignedProducedIff(f, nia, AsSigned(u, WORD));
  }

  /** An offset moves the smallest accepted number out of reach. */
  lemma OffsetDisagrees(f: Field, nia: nat)
    requires Fits(f, nia) && f.signed && f.offset > 0
    ensures !Agree(f, nia)
  {
    var v := 0 - Half(f);
    var u: nat := WORD - Half(f);
    HalfIs(f);
    SignedAccepts(f, nia, u, v);
    SignedProducedIff(f, nia, v);
    assert Accepts(f, u) && !Produced(f, nia, AsSigned(u, WORD));
  }

  /** An unsigned upper bound lets through a number one step above the largest. */
  lemma UpperDisagrees(f: Field, nia: nat)
    requires Fits(f, nia) && f.signed && f.offset == 0 && f.unsignedUpper
    ensures !Agree(f, nia)
  {
    var u: nat := Half(f);
    HalfIs(f);
    SignedAccepts(f, nia, u, u);
    SignedProducedIff(f, nia, u);
    assert Accepts(f, u) && !Produced(f, nia, AsSigned(u, WORD));
  }

  /** For a signed field the tools agree exactly without an offset and without an unsigned upper bound. */
  lemma SignedAgreeIff(f: Field, nia: nat)
    requires Fits(f, nia) && f.signed
    ensures Agree(f, nia) <==> f.offset == 0 && !f.unsignedUpper
  {
    if f.offset > 0 {
      OffsetDisagrees(f, nia);
    } else if f.unsignedUpper {
      UpperDisagrees(f, nia);
    } else {
      forall u: nat | u < WORD
        ensures Accepts(f, u) <==> Produced(f, nia, AsSigned(u, WORD))
      {
        SignedAgrees(f, nia, u);
      }
    }
  }
}
