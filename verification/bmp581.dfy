/**
 The BMP581 pressure sensor driver's register layer: `CBits` bit fields
 read and written over I2C, the two's-complement decoding of the 24-bit
 raw readings, and the validating setters for power mode, oversampling,
 IIR filter and output data rate.

 The sensor's register file is a total map from register address to byte;
 an I2C `readfrom_mem` of `n` bytes reads consecutive addresses and a
 `writeto_mem` overwrites consecutive addresses and is also recorded in a
 write log, so that the order of bus writes can be stated.
 */
module Bmp581 {
  import opened Bytes
  import opened Maybe

  type Registers = nat -> byte

  /** One `writeto_mem(address, register, bytes)` transaction. */
  datatype Write = Write(register: nat, bytes: seq<byte>)

  datatype Device = Device(regs: Registers, writes: seq<Write>)

  datatype Error =
    | ValueError     // a setter's value is not one of its allowed settings
    | OverflowError  // `int.to_bytes` cannot fit the merged register

  type Result<+T> = Outcome<T, Error>

  /** `CBits(num_bits, register_address, start_bit, register_width, lsb_first)` */
  datatype Field = Field(numBits: nat, register: nat, startBit: nat, width: nat, lsbFirst: bool)
  {
    /** The field lies inside its register. */
    predicate Fits()
    {
      startBit + numBits <= 8 * width
    }
  }

  // Register addresses.
  const IntStatus: nat := 0x27
  const DspConfig: nat := 0x30
  const DspIir: nat := 0x31
  const OsrConf: nat := 0x36
  const OdrConfig: nat := 0x37
  const CmdRegister: nat := 0x7E

  // The driver's fields.
  const CmdField := Field(8, CmdRegister, 0, 1, true)
  const DataReadyField := Field(1, IntStatus, 0, 1, true)
  const PowerModeField := Field(2, OdrConfig, 0, 1, true)
  const TemperatureOversampleField := Field(3, OsrConf, 0, 1, true)
  const PressureOversampleField := Field(3, OsrConf, 3, 1, true)
  const OutputDataRateField := Field(5, OdrConfig, 2, 1, true)
  const PressureEnabledField := Field(1, OsrConf, 6, 1, true)
  const IirField := Field(3, DspIir, 3, 1, true)
  const IirTempField := Field(3, DspIir, 0, 1, true)
  const IirControlField := Field(8, DspConfig, 0, 1, true)
  const TemperatureField := Field(24, 0x1D, 0, 3, true)
  const PressureField := Field(24, 0x20, 0, 3, true)

  // Power modes; `power_mode_values` is 0 .. 3.
  const Standby: nat := 0x00
  const Normal: nat := 0x01
  const Forced: nat := 0x02
  const NonStop: nat := 0x03
  const PowerModeCount: nat := 4
  /** Both oversample-rate tables and the IIR coefficient table have eight entries. */
  const OversampleCount: nat := 8
  const IirCount: nat := 8
  /** `range(0, 32)` */
  const OutputDataRateCount: nat := 32

  /*
   * Arithmetic facts about division by a power of two.
   */

  lemma DivBound(x: nat, a: nat, b: nat)
    requires a > 0
    requires x < a * b
    ensures x / a < b
  {
    MulMonotone(a, b, x / a);
  }

  lemma Pow2Byte(w: nat)
    requires w >= 1
    ensures Pow2(8 * w) == 256 * Pow2(8 * (w - 1))
  {
    var e := 8 * (w - 1);
    assert 8 * w == 8 + e;
    Pow2Add(8, e);
    assert Pow2(8) == 256;
  }

  lemma Pow2Table()
    ensures Pow2(0) == 1 && Pow2(2) == 4 && Pow2(3) == 8 && Pow2(5) == 32 && Pow2(8) == 256
    ensures Pow2(16) == 0x1_0000 && Pow2(23) == 0x80_0000 && Pow2(24) == 0x100_0000
  {
    assert Pow2(8) == 256;
    Pow2Add(8, 8);
    Pow2Add(16, 8);
  }

  /** A negative number above `-m` has Euclidean remainder `val` modulo `m`. */
  lemma NegativeMod(val: nat, m: nat)
    requires val < m
    ensures (val - m) % m == val
  {
    var q := (val - m) / m;
    MulMonotone(m, 0, q);
    MulMonotone(m, q, -2);
    assert m * -2 == -2 * m;
  }

  /*
   * The mask.
   */

  /** `bit_mask = ((1 << num_bits) - 1) << start_bit` */
  function Mask(f: Field): nat
  {
    (Pow2(f.numBits) - 1) * Pow2(f.startBit)
  }

  /** The set bits of the mask are exactly bits `startBit .. startBit + numBits - 1`. */
  lemma MaskSelectsField(f: Field)
    ensures Mask(f) % Pow2(f.startBit) == 0
    ensures (Mask(f) / Pow2(f.startBit)) % Pow2(f.numBits) == Pow2(f.numBits) - 1
    ensures Mask(f) / Pow2(f.startBit) / Pow2(f.numBits) == 0
  {
    var p, q := Pow2(f.startBit), Pow2(f.numBits);
    var m: nat := q - 1;
    assert Mask(f) == Scaled(p, 0, m);
    ScaledParts(p, 0, m);
    SmallMod(m, q);
  }

  /*
   * Byte order.
   */

  /** The register value when the bytes are folded from the last to the first (`lsb_first`). */
  function FromLE(b: seq<byte>): nat
  {
    if |b| == 0 then 0 else b[0] + 256 * FromLE(b[1..])
  }

  /** The register value when the bytes are folded from the first to the last. */
  function FromBE(b: seq<byte>): nat
  {
    if |b| == 0 then 0 else 256 * FromBE(b[..|b| - 1]) + b[|b| - 1]
  }

  function ToLE(x: nat, w: nat): (r: seq<byte>)
    ensures |r| == w
  {
    if w == 0 then [] else [x % 256] + ToLE(x / 256, w - 1)
  }

  /** `x.to_bytes(w, "big")` for an `x` that fits. */
  function ToBE(x: nat, w: nat): (r: seq<byte>)
    ensures |r| == w
  {
    if w == 0 then [] else ToBE(x / 256, w - 1) + [x % 256]
  }

  lemma {:induction false} FromLEBound(b: seq<byte>)
    ensures FromLE(b) < Pow2(8 * |b|)
  {
    if |b| > 0 {
      FromLEBound(b[1..]);
      Pow2Byte(|b|);
    }
  }

  lemma {:induction false} FromBEBound(b: seq<byte>)
    ensures FromBE(b) < Pow2(8 * |b|)
  {
    if |b| > 0 {
      FromBEBound(b[..|b| - 1]);
      Pow2Byte(|b|);
    }
  }

  lemma {:induction false} LittleEndianRoundTrip(x: nat, w: nat)
    requires x < Pow2(8 * w)
    ensures FromLE(ToLE(x, w)) == x
  {
    if w > 0 {
      Pow2Byte(w);
      DivBound(x, 256, Pow2(8 * (w - 1)));
      LittleEndianRoundTrip(x / 256, w - 1);
      assert ToLE(x, w)[1..] == ToLE(x / 256, w - 1);
    }
  }

  lemma {:induction false} BigEndianRoundTrip(x: nat, w: nat)
    requires x < Pow2(8 * w)
    ensures FromBE(ToBE(x, w)) == x
  {
    if w > 0 {
      Pow2Byte(w);
      DivBound(x, 256, Pow2(8 * (w - 1)));
      BigEndianRoundTrip(x / 256, w - 1);
      assert ToBE(x, w)[..w - 1] == ToBE(x / 256, w - 1);
    }
  }

  function Assemble(b: seq<byte>, lsbFirst: bool): (r: nat)
    ensures r < Pow2(8 * |b|)
  {
    if lsbFirst then FromLEBound(b); FromLE(b) else FromBEBound(b); FromBE(b)
  }

  function Disassemble(x: nat, w: nat, lsbFirst: bool): (r: seq<byte>)
    ensures |r| == w
  {
    if lsbFirst then ToLE(x, w) else ToBE(x, w)
  }

  lemma ByteOrderRoundTrip(x: nat, w: nat, lsbFirst: bool)
    requires x < Pow2(8 * w)
    ensures Assemble(Disassemble(x, w, lsbFirst), lsbFirst) == x
  {
    if lsbFirst {
      LittleEndianRoundTrip(x, w);
    } else {
      BigEndianRoundTrip(x, w);
    }
  }

  /*
   * The bus.
   */

  /** `readfrom_mem(address, register, n)` */
  function ReadBytes(regs: Registers, register: nat, n: nat): (r: seq<byte>)
    ensures |r| == n
    ensures forall i :: 0 <= i < n ==> r[i] == regs(register + i)
  {
    seq(n, i requires 0 <= i < n => regs(register + i))
  }

  /** The register file after `writeto_mem(address, register, bytes)`. */
  function WriteBytes(regs: Registers, register: nat, bytes: seq<byte>): Registers
  {
    (a: nat) => if register <= a < register + |bytes| then bytes[a - register] else regs(a)
  }

  lemma ReadAfterWrite(regs: Registers, register: nat, bytes: seq<byte>)
    ensures ReadBytes(WriteBytes(regs, register, bytes), register, |bytes|) == bytes
  {
  }

  /** A write leaves the addresses it does not cover as they were. */
  lemma ReadAroundWrite(regs: Registers, register: nat, bytes: seq<byte>, other: nat, n: nat)
    requires other + n <= register || register + |bytes| <= other
    ensures ReadBytes(WriteBytes(regs, register, bytes), other, n) == ReadBytes(regs, other, n)
  {
  }

  /** The value `__get__` and `__set__` assemble from the field's bytes. */
  function RegisterValue(regs: Registers, f: Field): (r: nat)
    ensures r < Pow2(8 * f.width)
  {
    Assemble(ReadBytes(regs, f.register, f.width), f.lsbFirst)
  }

  /** `CBits.__get__`: `(reg & bit_mask) >> start_bit`. */
  function GetField(regs: Registers, f: Field): (r: nat)
    ensures r < Pow2(f.numBits)
  {
    (RegisterValue(regs, f) / Pow2(f.startBit)) % Pow2(f.numBits)
  }

  /*
   * `__set__`: clear the field, OR in the shifted value, write the bytes back.
   */

  /** Python's `|` on non-negative integers, bit by bit. */
  function BitOr(a: nat, b: nat): nat
    decreases a + b
  {
    if a == 0 then b
    else if b == 0 then a
    else (if a % 2 == 1 || b % 2 == 1 then 1 else 0) + 2 * BitOr(a / 2, b / 2)
  }

  /** `lo + p * x`: the number whose digits from `p` upward are `x` and below `p` are `lo`. */
  function Scaled(p: nat, lo: nat, x: nat): nat
  {
    lo + p * x
  }

  /** The register's bits below the field. */
  function Below(reg: nat, f: Field): nat
  {
    reg % Pow2(f.startBit)
  }

  /** The register's bits above the field, shifted down. */
  function Above(reg: nat, f: Field): nat
  {
    Shift(Shift(reg, Pow2(f.startBit)), Pow2(f.numBits))
  }

  /** `x >> k` with `p == 2^k`. */
  function Shift(x: nat, p: nat): nat
    requires p >= 1
  {
    x / p
  }

  /** The bits above the field, of which the register has `8 * width - startBit - numBits`. */
  function Headroom(f: Field): nat
    requires f.Fits()
  {
    Pow2(8 * f.width - f.startBit - f.numBits)
  }

  /** `reg & ~bit_mask`: the bits below and above the field, with the field zeroed. */
  function ClearField(reg: nat, f: Field): nat
  {
    Scaled(Pow2(f.startBit), Below(reg, f), Scaled(Pow2(f.numBits), 0, Above(reg, f)))
  }

  /** `(reg & ~bit_mask) | (value << start_bit)`; `value` is not masked. */
  function Merge(reg: nat, f: Field, value: nat): nat
  {
    BitOr(ClearField(reg, f), Scaled(Pow2(f.startBit), 0, value))
  }

  /**
   `__set__` writing the merged register in the byte order `lsbOut`.
   A negative value makes the merged register negative, and `to_bytes`
   rejects it as it rejects a register that does not fit in `width` bytes.
   */
  function SetFieldWith(dev: Device, f: Field, value: int, lsbOut: bool): Result<Device>
  {
    if value < 0 then Fail(OverflowError)
    else
      var merged := Merge(RegisterValue(dev.regs, f), f, value);
      if merged >= Pow2(8 * f.width) then Fail(OverflowError)
      else
        var bytes := Disassemble(merged, f.width, lsbOut);
        Ok(Device(WriteBytes(dev.regs, f.register, bytes), dev.writes + [Write(f.register, bytes)]))
  }

  /** `CBits.__set__` as written: the bytes always go out big-endian. */
  function SetFieldAsWritten(dev: Device, f: Field, value: int): Result<Device>
  {
    SetFieldWith(dev, f, value, false)
  }

  /** `CBits.__set__` writing the bytes back in the order they were read. */
  function SetField(dev: Device, f: Field, value: int): Result<Device>
  {
    SetFieldWith(dev, f, value, f.lsbFirst)
  }

  lemma ScaledParts(p: nat, lo: nat, x: nat)
    requires lo < p
    ensures Scaled(p, lo, x) / p == x
    ensures Scaled(p, lo, x) % p == lo
  {
    DivMulAdd(lo, x, p);
  }

  lemma SmallMod(x: nat, p: nat)
    requires x < p
    ensures x / p == 0 && x % p == x
  {
    ScaledParts(p, x, 0);
  }

  lemma ScaledHalve(p: nat, lo: nat, x: nat)
    ensures Scaled(2 * p, lo, x) == lo % 2 + 2 * Scaled(p, lo / 2, x)
  {
    assert (2 * p) * x == 2 * (p * x);
  }

  lemma ScaledBound(p: nat, lo: nat, x: nat, y: nat)
    requires lo < p
    requires x < y
    ensures Scaled(p, lo, x) < p * y
  {
    MulMonotone(p, x + 1, y);
    assert p * (x + 1) == p * x + p;
  }

  /** One step of `BitOr`: the low bits combine and the rest is OR-ed one place up. */
  lemma BitOrDoubled(i: nat, j: nat, a: nat, b: nat)
    requires i < 2 && j < 2
    ensures BitOr(i + 2 * a, j + 2 * b) == (if i == 1 || j == 1 then 1 else 0) + 2 * BitOr(a, b)
  {
    if i + 2 * a != 0 && j + 2 * b != 0 {
      assert (i + 2 * a) / 2 == a && (j + 2 * b) / 2 == b;
    }
  }

  /** OR of a multiple of `2^k` and a number below `2^k` is their sum. */
  lemma {:induction false} BitOrBelow(q: nat, b: nat, k: nat)
    requires b < Pow2(k)
    ensures BitOr(Scaled(Pow2(k), 0, q), b) == Scaled(Pow2(k), b, q)
    decreases k
  {
    if k == 0 {
      assert b == 0;
    } else {
      var p := Pow2(k - 1);
      calc {
        BitOr(Scaled(Pow2(k), 0, q), b);
        { ScaledHalve(p, 0, q); }
        BitOr(0 + 2 * Scaled(p, 0, q), b % 2 + 2 * (b / 2));
        { BitOrDoubled(0, b % 2, Scaled(p, 0, q), b / 2); }
        b % 2 + 2 * BitOr(Scaled(p, 0, q), b / 2);
        { BitOrBelow(q, b / 2, k - 1); }
        b % 2 + 2 * Scaled(p, b / 2, q);
        { ScaledHalve(p, b, q); }
        Scaled(Pow2(k), b, q);
      }
    }
  }

  /** OR-ing a value below `2^n` into a cleared field of width `n` at bit `s` adds it. */
  lemma {:induction false} BitOrField(lo: nat, v: nat, hi: nat, s: nat, n: nat)
    requires lo < Pow2(s)
    requires v < Pow2(n)
    ensures BitOr(Scaled(Pow2(s), lo, Scaled(Pow2(n), 0, hi)), Scaled(Pow2(s), 0, v))
         == Scaled(Pow2(s), lo, Scaled(Pow2(n), v, hi))
    decreases s
  {
    var x, y := Scaled(Pow2(n), 0, hi), Scaled(Pow2(n), v, hi);
    if s == 0 {
      BitOrBelow(hi, v, n);
    } else {
      var p := Pow2(s - 1);
      calc {
        BitOr(Scaled(Pow2(s), lo, x), Scaled(Pow2(s), 0, v));
        { ScaledHalve(p, lo, x); ScaledHalve(p, 0, v); }
        BitOr(lo % 2 + 2 * Scaled(p, lo / 2, x), 0 + 2 * Scaled(p, 0, v));
        { BitOrDoubled(lo % 2, 0, Scaled(p, lo / 2, x), Scaled(p, 0, v)); }
        lo % 2 + 2 * BitOr(Scaled(p, lo / 2, x), Scaled(p, 0, v));
        { BitOrField(lo / 2, v, hi, s - 1, n); }
        lo % 2 + 2 * Scaled(p, lo / 2, y);
        { ScaledHalve(p, lo, y); }
        Scaled(Pow2(s), lo, y);
      }
    }
  }

  /**
   For a value below `2^numBits`, the merged register holds the value in
   the field and every bit below and above the field as before.
   */
  lemma MergeKeepsOtherBits(reg: nat, f: Field, value: nat)
    requires value < Pow2(f.numBits)
    ensures var m, p, q := Merge(reg, f, value), Pow2(f.startBit), Pow2(f.numBits);
      && m % p == reg % p
      && (m / p) % q == value
      && m / p / q == reg / p / q
  {
    var p, q := Pow2(f.startBit), Pow2(f.numBits);
    var lo, hi := Below(reg, f), Above(reg, f);
    var y := Scaled(q, value, hi);
    var m := Merge(reg, f, value);
    assert m == Scaled(p, lo, y) by {
      BitOrField(lo, value, hi, f.startBit, f.numBits);
    }
    assert m / p == y && m % p == lo by {
      ScaledParts(p, lo, y);
    }
    assert y % q == value && y / q == hi by {
      ScaledParts(q, value, hi);
    }
  }

  /** The merged register fits in the register's bytes when the field does. */
  lemma RegisterSplits(f: Field)
    requires f.Fits()
    ensures Pow2(8 * f.width) == Pow2(f.startBit) * (Pow2(f.numBits) * Headroom(f))
  {
    Pow2Add(f.startBit, 8 * f.width - f.startBit);
    Pow2Add(f.numBits, 8 * f.width - f.startBit - f.numBits);
  }

  lemma AboveBound(reg: nat, f: Field)
    requires f.Fits()
    requires reg < Pow2(8 * f.width)
    ensures Above(reg, f) < Headroom(f)
  {
    var p, q, rest := Pow2(f.startBit), Pow2(f.numBits), Headroom(f);
    var a := Shift(reg, p);
    assert a < q * rest by {
      RegisterSplits(f);
      DivBound(reg, p, q * rest);
    }
    DivBound(a, q, rest);
  }

  lemma MergeFits(reg: nat, f: Field, value: nat)
    requires f.Fits()
    requires reg < Pow2(8 * f.width)
    requires value < Pow2(f.numBits)
    ensures Merge(reg, f, value) < Pow2(8 * f.width)
  {
    var p, q, rest := Pow2(f.startBit), Pow2(f.numBits), Headroom(f);
    var lo, hi := Below(reg, f), Above(reg, f);
    var y := Scaled(q, value, hi);
    assert Merge(reg, f, value) == Scaled(p, lo, y) by {
      BitOrField(lo, value, hi, f.startBit, f.numBits);
    }
    assert y < q * rest by {
      AboveBound(reg, f);
      ScaledBound(q, value, hi, rest);
    }
    ScaledBound(p, lo, y, q * rest);
    RegisterSplits(f);
  }

  /** `after` is the log `before` followed by writes to the registers `targets`, in order. */
  predicate Appended(before: seq<Write>, after: seq<Write>, targets: seq<nat>)
  {
    && |after| == |before| + |targets|
    && after[..|before|] == before
    && forall i :: 0 <= i < |targets| ==> after[|before| + i].register == targets[i]
  }

  lemma AppendedChain(a: seq<Write>, b: seq<Write>, c: seq<Write>, t1: seq<nat>, t2: seq<nat>)
    requires Appended(a, b, t1) && Appended(b, c, t2)
    ensures Appended(a, c, t1 + t2)
  {
    assert c[..|a|] == c[..|b|][..|a|];
    forall i | 0 <= i < |t1 + t2|
      ensures c[|a| + i].register == (t1 + t2)[i]
    {
      if i < |t1| {
        assert c[|a| + i] == c[..|b|][|a| + i] == b[|a| + i];
      } else {
        assert c[|a| + i] == c[|b| + (i - |t1|)];
      }
    }
  }

  /** The write goes to the field's own register and leaves every other address alone. */
  lemma SetFieldWrites(dev: Device, f: Field, value: int, lsbOut: bool)
    requires SetFieldWith(dev, f, value, lsbOut).Ok?
    ensures var d := SetFieldWith(dev, f, value, lsbOut).value;
      && Appended(dev.writes, d.writes, [f.register])
      && forall a: nat :: (a < f.register || f.register + f.width <= a) ==> d.regs(a) == dev.regs(a)
  {
    var d := SetFieldWith(dev, f, value, lsbOut).value;
    assert d.writes[|dev.writes| + 0].register == f.register;
  }

  /**
   Get after set, for any width and either byte order, once the bytes are
   written back in the order they are read.
   */
  lemma GetAfterSet(dev: Device, f: Field, value: int)
    requires f.Fits()
    requires 0 <= value < Pow2(f.numBits)
    ensures SetField(dev, f, value).Ok?
    ensures var regs := SetField(dev, f, value).value.regs;
      && GetField(regs, f) == value
      && RegisterValue(regs, f) % Pow2(f.startBit) == RegisterValue(dev.regs, f) % Pow2(f.startBit)
      && RegisterValue(regs, f) / Pow2(f.startBit) / Pow2(f.numBits)
         == RegisterValue(dev.regs, f) / Pow2(f.startBit) / Pow2(f.numBits)
  {
    var reg := RegisterValue(dev.regs, f);
    var m := Merge(reg, f, value);
    MergeKeepsOtherBits(reg, f, value);
    MergeFits(reg, f, value);
    var bytes := Disassemble(m, f.width, f.lsbFirst);
    var regs := WriteBytes(dev.regs, f.register, bytes);
    ReadAfterWrite(dev.regs, f.register, bytes);
    ByteOrderRoundTrip(m, f.width, f.lsbFirst);
    assert RegisterValue(regs, f) == m;
  }

  /** Setting a field never disturbs a field of another register. */
  lemma SetFieldKeepsOtherRegister(dev: Device, f: Field, value: int, g: Field)
    requires SetField(dev, f, value).Ok?
    requires g.register + g.width <= f.register || f.register + f.width <= g.register
    ensures GetField(SetField(dev, f, value).value.regs, g) == GetField(dev.regs, g)
  {
    var bytes := Disassemble(Merge(RegisterValue(dev.regs, f), f, value), f.width, f.lsbFirst);
    ReadAroundWrite(dev.regs, f.register, bytes, g.register, g.width);
  }

  /** For one-byte registers both byte orders give the same byte. */
  lemma SingleByteOrder(x: nat, lsbFirst: bool)
    ensures Disassemble(x, 1, lsbFirst) == Disassemble(x, 1, false) == [x % 256]
  {
  }

  /**
   `__set__` as written is right for one-byte registers: a value below
   `2^numBits` reads back unchanged, and the write is the same as the
   corrected one.
   */
  lemma SingleByteGetAfterSet(dev: Device, f: Field, value: int)
    requires f.width == 1 && f.Fits()
    requires 0 <= value < Pow2(f.numBits)
    ensures SetFieldAsWritten(dev, f, value).Ok?
    ensures GetField(SetFieldAsWritten(dev, f, value).value.regs, f) == value
    ensures SetFieldAsWritten(dev, f, value).value.writes == SetField(dev, f, value).value.writes
  {
    var m := Merge(RegisterValue(dev.regs, f), f, value);
    SingleByteOrder(m, f.lsbFirst);
    GetAfterSet(dev, f, value);
  }

  /** A two-byte little-endian field: the kind `__set__` as written gets wrong. */
  const WideField := Field(16, 0x20, 0, 2, true)

  /** When the merged register fits, the register's bytes read back as written. */
  lemma SetFieldReadBack(dev: Device, f: Field, value: int, lsbOut: bool)
    requires value >= 0
    requires Merge(RegisterValue(dev.regs, f), f, value) < Pow2(8 * f.width)
    ensures SetFieldWith(dev, f, value, lsbOut).Ok?
    ensures ReadBytes(SetFieldWith(dev, f, value, lsbOut).value.regs, f.register, f.width)
         == Disassemble(Merge(RegisterValue(dev.regs, f), f, value), f.width, lsbOut)
  {
    var bytes := Disassemble(Merge(RegisterValue(dev.regs, f), f, value), f.width, lsbOut);
    ReadAfterWrite(dev.regs, f.register, bytes);
  }

  /** A zeroed register reads as zero, and merging `value` at bit 0 into it gives `value`. */
  lemma MergeIntoBlank(regs: Registers, f: Field, value: nat)
    requires f.startBit == 0 && f.width <= 2
    requires ReadBytes(regs, f.register, f.width) == Zeros(f.width)
    ensures RegisterValue(regs, f) == 0
    ensures Merge(0, f, value) == value
  {
    assert FromLE(Zeros(0)) == 0 && FromBE(Zeros(0)) == 0;
    assert FromLE(Zeros(1)) == 0 && FromBE(Zeros(1)) == 0;
    assert FromLE(Zeros(2)) == 0 && FromBE(Zeros(2)) == 0 by {
      assert Zeros(2)[1..] == Zeros(1) && Zeros(2)[..1] == Zeros(1);
    }
    assert ClearField(0, f) == 0;
    assert Scaled(Pow2(0), 0, value) == value;
  }

  lemma BlankWideField(dev: Device)
    requires ReadBytes(dev.regs, WideField.register, 2) == [0, 0]
    ensures RegisterValue(dev.regs, WideField) == 0 && Merge(0, WideField, 1) == 1
  {
    assert Zeros(2) == [0, 0];
    MergeIntoBlank(dev.regs, WideField, 1);
  }

  lemma OneBigEndian()
    ensures Disassemble(1, 2, false) == [0, 1]
  {
    assert ToBE(0, 0) == [];
    assert ToBE(0, 1) == [0];
  }

  lemma WideFieldStoresBigEndian(dev: Device, value: int)
    requires ReadBytes(dev.regs, WideField.register, 2) == [0, 0]
    requires value == 1
    ensures SetFieldAsWritten(dev, WideField, value).Ok?
    ensures ReadBytes(SetFieldAsWritten(dev, WideField, value).value.regs, WideField.register, 2) == [0, 1]
  {
    BlankWideField(dev);
    OneBigEndian();
    assert Pow2(8 * WideField.width) == 0x1_0000 by {
      Pow2Table();
    }
    SetFieldReadBack(dev, WideField, 1, false);
  }

  lemma BlankPowerMode(dev: Device)
    requires dev.regs(OdrConfig) == 0
    ensures RegisterValue(dev.regs, PowerModeField) == 0 && Merge(0, PowerModeField, 4) == 4
  {
    assert ReadBytes(dev.regs, OdrConfig, 1) == [0] == Zeros(1);
    MergeIntoBlank(dev.regs, PowerModeField, 4);
  }

  lemma OversizeValueStored(dev: Device, value: int)
    requires dev.regs(OdrConfig) == 0
    requires value == 4
    ensures SetField(dev, PowerModeField, value).Ok?
    ensures ReadBytes(SetField(dev, PowerModeField, value).value.regs, OdrConfig, 1) == [4]
  {
    BlankPowerMode(dev);
    assert Disassemble(4, 1, true) == [4];
    assert Pow2(8 * PowerModeField.width) == 256 by {
      Pow2Table();
    }
    SetFieldReadBack(dev, PowerModeField, 4, true);
  }

  /**
   `__set__` as written on a two-byte `lsb_first` field: setting 1 over a
   zeroed register stores the bytes `00 01`, which the getter reads back
   as 256.
   */
  lemma AsWrittenSwapsWideField(dev: Device, value: int)
    requires ReadBytes(dev.regs, WideField.register, 2) == [0, 0]
    requires value == 1
    ensures SetFieldAsWritten(dev, WideField, value).Ok?
    ensures GetField(SetFieldAsWritten(dev, WideField, value).value.regs, WideField) == 256
  {
    var f := WideField;
    WideFieldStoresBigEndian(dev, value);
    var regs := SetFieldAsWritten(dev, f, value).value.regs;
    assert RegisterValue(regs, f) == 256 by {
      assert [0, 1][1..] == [1];
      assert [1][1..] == [];
    }
    assert GetField(regs, f) == 256 by {
      Pow2Table();
      ScaledParts(Pow2(0), 0, 256);
      SmallMod(256, Pow2(16));
    }
  }

  /** The corrected setter reads the same field back as 1. */
  lemma CorrectedKeepsWideField(dev: Device, value: int)
    requires value == 1
    ensures SetField(dev, WideField, value).Ok?
    ensures GetField(SetField(dev, WideField, value).value.regs, WideField) == 1
  {
    Pow2Table();
    GetAfterSet(dev, WideField, value);
  }

  /**
   The value is not masked: 4 written to the two-bit power-mode field of
   a zeroed register lands in bit 2, the low bit of the output data rate.
   */
  lemma OversizeValueSpills(dev: Device, value: int)
    requires dev.regs(OdrConfig) == 0
    requires value == 4
    ensures SetField(dev, PowerModeField, value).Ok?
    ensures GetField(SetField(dev, PowerModeField, value).value.regs, PowerModeField) == 0
    ensures GetField(SetField(dev, PowerModeField, value).value.regs, OutputDataRateField) == 1
  {
    var f := PowerModeField;
    OversizeValueStored(dev, value);
    var regs := SetField(dev, f, value).value.regs;
    assert RegisterValue(regs, f) == 4 && RegisterValue(regs, OutputDataRateField) == 4 by {
      assert FromLE([4]) == 4;
    }
    assert GetField(regs, OutputDataRateField) == 1 by {
      Pow2Table();
      ScaledParts(Pow2(2), 0, 1);
      SmallMod(1, Pow2(5));
    }
    assert GetField(regs, f) == 0 by {
      Pow2Table();
      ScaledParts(Pow2(0), 0, 4);
      ScaledParts(Pow2(2), 0, 1);
    }
  }

  /*
   * Raw readings.
   */

  /** `_twos_comp(val, bits)`: subtract `2^bits` when bit `bits - 1` is set. */
  function TwosComp(val: nat, bits: nat): int
    requires bits >= 1
  {
    if (val / Pow2(bits - 1)) % 2 == 1 then val - Pow2(bits) else val
  }

  /**
   On a `bits`-wide unsigned value the result is a signed `bits`-wide value,
   equal to the input exactly when the sign bit is clear, and congruent to
   it modulo `2^bits`.
   */
  lemma TwosCompRange(val: nat, bits: nat)
    requires bits >= 1
    requires val < Pow2(bits)
    ensures -(Pow2(bits - 1) as int) <= TwosComp(val, bits) < Pow2(bits - 1)
    ensures TwosComp(val, bits) == val <==> val < Pow2(bits - 1)
    ensures TwosComp(val, bits) % Pow2(bits) == val
  {
    var p := Pow2(bits - 1);
    assert Pow2(bits) == 2 * p;
    if val < p {
      ScaledParts(p, val, 0);
      ScaledParts(2 * p, val, 0);
    } else {
      ScaledParts(p, val - p, 1);
      NegativeMod(val, 2 * p);
    }
  }

  /** The raw temperature reading as a signed 24-bit value. */
  function TemperatureRaw(regs: Registers): (r: int)
    ensures -0x80_0000 <= r < 0x80_0000
  {
    var raw := GetField(regs, TemperatureField);
    Pow2Table();
    TwosCompRange(raw, 24);
    TwosComp(raw, 24)
  }

  /** The raw pressure reading as a signed 24-bit value. */
  function PressureRaw(regs: Registers): (r: int)
    ensures -0x80_0000 <= r < 0x80_0000
  {
    var raw := GetField(regs, PressureField);
    Pow2Table();
    TwosCompRange(raw, 24);
    TwosComp(raw, 24)
  }

  /*
   * Validating setters.
   */

  /** Reject a value outside `0 .. count - 1` with `ValueError`, otherwise set the field. */
  function SetValidated(dev: Device, f: Field, value: int, count: nat): Result<Device>
  {
    if 0 <= value < count then SetField(dev, f, value) else Fail(ValueError)
  }

  lemma SetValidatedSpec(dev: Device, f: Field, value: int, count: nat)
    requires f.Fits() && count <= Pow2(f.numBits)
    ensures var r := SetValidated(dev, f, value, count);
      && (r.Ok? <==> 0 <= value < count)
      && (r.Fail? ==> r.error == ValueError)
      && (r.Ok? ==> GetField(r.value.regs, f) == value)
      && (r.Ok? ==> Appended(dev.writes, r.value.writes, [f.register]))
      && (r.Ok? ==> forall a: nat :: (a < f.register || f.register + f.width <= a) ==> r.value.regs(a) == dev.regs(a))
      && (r.Ok? ==> RegisterValue(r.value.regs, f) % Pow2(f.startBit) == RegisterValue(dev.regs, f) % Pow2(f.startBit))
      && (r.Ok? ==> RegisterValue(r.value.regs, f) / Pow2(f.startBit) / Pow2(f.numBits)
                    == RegisterValue(dev.regs, f) / Pow2(f.startBit) / Pow2(f.numBits))
  {
    if 0 <= value < count {
      GetAfterSet(dev, f, value);
      SetFieldWrites(dev, f, value, f.lsbFirst);
    }
  }

  /**
   Setting field `f` keeps a field `g` of the same one-byte register that
   lies wholly below it.
   */
  lemma KeepsLowerField(dev: Device, f: Field, g: Field, value: int)
    requires f.Fits() && f.width == 1 && g.width == 1
    requires g.register == f.register && g.lsbFirst == f.lsbFirst
    requires g.startBit == 0 && g.numBits == f.startBit
    ensures 0 <= value < Pow2(f.numBits) ==>
      SetField(dev, f, value).Ok? && GetField(SetField(dev, f, value).value.regs, g) == GetField(dev.regs, g)
  {
    if 0 <= value < Pow2(f.numBits) {
      GetAfterSet(dev, f, value);
      LowerFieldBits(SetField(dev, f, value).value.regs, f, g);
      LowerFieldBits(dev.regs, f, g);
    }
  }

  /** A field at bit 0 that ends where `f` starts reads the bits below `f`. */
  lemma LowerFieldBits(regs: Registers, f: Field, g: Field)
    requires g.register == f.register && g.width == f.width && g.lsbFirst == f.lsbFirst
    requires g.startBit == 0 && g.numBits == f.startBit
    ensures GetField(regs, g) == RegisterValue(regs, f) % Pow2(f.startBit)
  {
    assert RegisterValue(regs, g) == RegisterValue(regs, f);
    assert Pow2(0) == 1;
  }

  /** A field that starts where `f` (at bit 0) ends reads bits above `f`. */
  lemma UpperFieldBits(regs: Registers, f: Field, g: Field)
    requires g.register == f.register && g.width == f.width && g.lsbFirst == f.lsbFirst
    requires f.startBit == 0 && g.startBit == f.numBits
    ensures GetField(regs, g)
      == (RegisterValue(regs, f) / Pow2(f.startBit) / Pow2(f.numBits)) % Pow2(g.numBits)
  {
    assert RegisterValue(regs, g) == RegisterValue(regs, f);
    assert Pow2(0) == 1;
  }

  /**
   Setting field `f` at bit 0 keeps a field `g` of the same one-byte
   register that starts right above it.
   */
  lemma KeepsUpperField(dev: Device, f: Field, g: Field, value: int)
    requires f.Fits() && f.width == 1 && g.width == 1
    requires g.register == f.register && g.lsbFirst == f.lsbFirst
    requires f.startBit == 0 && g.startBit == f.numBits
    ensures 0 <= value < Pow2(f.numBits) ==>
      SetField(dev, f, value).Ok? && GetField(SetField(dev, f, value).value.regs, g) == GetField(dev.regs, g)
  {
    if 0 <= value < Pow2(f.numBits) {
      GetAfterSet(dev, f, value);
      UpperFieldBits(SetField(dev, f, value).value.regs, f, g);
      UpperFieldBits(dev.regs, f, g);
    }
  }

  /** Setting the power mode keeps bits 2 .. 7 of ODR_CONFIG, so the output data rate. */
  lemma PowerModeKeepsRate(dev: Device, value: int)
    ensures var r := SetValidated(dev, PowerModeField, value, PowerModeCount);
      r.Ok? ==>
        && RegisterValue(r.value.regs, PowerModeField) / 4 == RegisterValue(dev.regs, PowerModeField) / 4
        && GetField(r.value.regs, OutputDataRateField) == GetField(dev.regs, OutputDataRateField)
  {
    var r := SetValidated(dev, PowerModeField, value, PowerModeCount);
    if r.Ok? {
      Pow2Table();
      SetValidatedSpec(dev, PowerModeField, value, PowerModeCount);
      assert RegisterValue(r.value.regs, OutputDataRateField) == RegisterValue(r.value.regs, PowerModeField);
      assert RegisterValue(dev.regs, OutputDataRateField) == RegisterValue(dev.regs, PowerModeField);
    }
  }

  /** Setting the output data rate keeps bit 7 of ODR_CONFIG, which no field of the driver covers. */
  lemma OutputDataRateKeepsTopBit(dev: Device, value: int)
    ensures var r := SetValidated(dev, OutputDataRateField, value, OutputDataRateCount);
      r.Ok? ==>
        RegisterValue(r.value.regs, OutputDataRateField) / 128 == RegisterValue(dev.regs, OutputDataRateField) / 128
  {
    var r := SetValidated(dev, OutputDataRateField, value, OutputDataRateCount);
    if r.Ok? {
      Pow2Table();
      SetValidatedSpec(dev, OutputDataRateField, value, OutputDataRateCount);
      var x, x' := RegisterValue(dev.regs, OutputDataRateField), RegisterValue(r.value.regs, OutputDataRateField);
      assert x / 128 == x / 4 / 32 && x' / 128 == x' / 4 / 32;
    }
  }

  /** Setting the pressure oversampling keeps bits 6 and 7 of OSR_CONF, so the pressure enable. */
  lemma PressureOversampleKeepsEnable(dev: Device, value: int)
    ensures var r := SetValidated(dev, PressureOversampleField, value, OversampleCount);
      r.Ok? ==>
        && RegisterValue(r.value.regs, PressureOversampleField) / 8 / 8
           == RegisterValue(dev.regs, PressureOversampleField) / 8 / 8
        && GetField(r.value.regs, PressureEnabledField) == GetField(dev.regs, PressureEnabledField)
  {
    var r := SetValidated(dev, PressureOversampleField, value, OversampleCount);
    if r.Ok? {
      Pow2Table();
      SetValidatedSpec(dev, PressureOversampleField, value, OversampleCount);
      var x, x' := RegisterValue(dev.regs, PressureOversampleField), RegisterValue(r.value.regs, PressureOversampleField);
      assert RegisterValue(dev.regs, PressureEnabledField) == x;
      assert RegisterValue(r.value.regs, PressureEnabledField) == x';
      assert x / 64 == x / 8 / 8 && x' / 64 == x' / 8 / 8;
    }
  }

  /** Setting the temperature oversampling keeps bits 3 .. 7 of OSR_CONF, so the pressure enable. */
  lemma TemperatureOversampleKeepsEnable(dev: Device, value: int)
    ensures var r := SetValidated(dev, TemperatureOversampleField, value, OversampleCount);
      r.Ok? ==>
        && RegisterValue(r.value.regs, TemperatureOversampleField) / 8
           == RegisterValue(dev.regs, TemperatureOversampleField) / 8
        && GetField(r.value.regs, PressureEnabledField) == GetField(dev.regs, PressureEnabledField)
  {
    var r := SetValidated(dev, TemperatureOversampleField, value, OversampleCount);
    if r.Ok? {
      Pow2Table();
      SetValidatedSpec(dev, TemperatureOversampleField, value, OversampleCount);
      var x, x' := RegisterValue(dev.regs, TemperatureOversampleField), RegisterValue(r.value.regs, TemperatureOversampleField);
      assert RegisterValue(dev.regs, PressureEnabledField) == x;
      assert RegisterValue(r.value.regs, PressureEnabledField) == x';
      assert x / 64 == x / 8 / 8 && x' / 64 == x' / 8 / 8;
    }
  }

  /** The `power_mode` setter. */
  function SetPowerMode(dev: Device, value: int): (r: Result<Device>)
    ensures r.Ok? <==> 0 <= value < PowerModeCount
    ensures r.Fail? ==> r.error == ValueError
    ensures r.Ok? ==> GetField(r.value.regs, PowerModeField) == value
    ensures r.Ok? ==> Appended(dev.writes, r.value.writes, [OdrConfig])
    ensures r.Ok? ==> forall a: nat :: a != OdrConfig ==> r.value.regs(a) == dev.regs(a)
    // bits 2 .. 7 of ODR_CONFIG, among them the output data rate, are kept
    ensures r.Ok? ==> RegisterValue(r.value.regs, PowerModeField) / 4 == RegisterValue(dev.regs, PowerModeField) / 4
    ensures r.Ok? ==> GetField(r.value.regs, OutputDataRateField) == GetField(dev.regs, OutputDataRateField)
  {
    Pow2Table();
    SetValidatedSpec(dev, PowerModeField, value, PowerModeCount);
    PowerModeKeepsRate(dev, value);
    SetValidated(dev, PowerModeField, value, PowerModeCount)
  }

  /** The `pressure_oversample_rate` setter. */
  function SetPressureOversampleRate(dev: Device, value: int): (r: Result<Device>)
    ensures r.Ok? <==> 0 <= value < OversampleCount
    ensures r.Fail? ==> r.error == ValueError
    ensures r.Ok? ==> GetField(r.value.regs, PressureOversampleField) == value
    ensures r.Ok? ==> GetField(r.value.regs, TemperatureOversampleField) == GetField(dev.regs, TemperatureOversampleField)
    // bits 6 and 7 of OSR_CONF, among them the pressure-enable bit, are kept
    ensures r.Ok? ==> RegisterValue(r.value.regs, PressureOversampleField) / 8 / 8
                      == RegisterValue(dev.regs, PressureOversampleField) / 8 / 8
    ensures r.Ok? ==> GetField(r.value.regs, PressureEnabledField) == GetField(dev.regs, PressureEnabledField)
  {
    Pow2Table();
    SetValidatedSpec(dev, PressureOversampleField, value, OversampleCount);
    KeepsLowerField(dev, PressureOversampleField, TemperatureOversampleField, value);
    PressureOversampleKeepsEnable(dev, value);
    SetValidated(dev, PressureOversampleField, value, OversampleCount)
  }

  /** The `temperature_oversample_rate` setter. */
  function SetTemperatureOversampleRate(dev: Device, value: int): (r: Result<Device>)
    ensures r.Ok? <==> 0 <= value < OversampleCount
    ensures r.Fail? ==> r.error == ValueError
    ensures r.Ok? ==> GetField(r.value.regs, TemperatureOversampleField) == value
    ensures r.Ok? ==> GetField(r.value.regs, PressureOversampleField) == GetField(dev.regs, PressureOversampleField)
    // bits 3 .. 7 of OSR_CONF, among them the pressure-enable bit, are kept
    ensures r.Ok? ==> RegisterValue(r.value.regs, TemperatureOversampleField) / 8
                      == RegisterValue(dev.regs, TemperatureOversampleField) / 8
    ensures r.Ok? ==> GetField(r.value.regs, PressureEnabledField) == GetField(dev.regs, PressureEnabledField)
  {
    Pow2Table();
    SetValidatedSpec(dev, TemperatureOversampleField, value, OversampleCount);
    KeepsUpperField(dev, TemperatureOversampleField, PressureOversampleField, value);
    TemperatureOversampleKeepsEnable(dev, value);
    SetValidated(dev, TemperatureOversampleField, value, OversampleCount)
  }

  /** The `output_data_rate` setter. */
  function SetOutputDataRate(dev: Device, value: int): (r: Result<Device>)
    ensures r.Ok? <==> 0 <= value < OutputDataRateCount
    ensures r.Fail? ==> r.error == ValueError
    ensures r.Ok? ==> GetField(r.value.regs, OutputDataRateField) == value
    ensures r.Ok? ==> Appended(dev.writes, r.value.writes, [OdrConfig])
    ensures r.Ok? ==> forall a: nat :: a != OdrConfig ==> r.value.regs(a) == dev.regs(a)
    // the power mode in bits 0 and 1 and bit 7 of ODR_CONFIG are kept
    ensures r.Ok? ==> GetField(r.value.regs, PowerModeField) == GetField(dev.regs, PowerModeField)
    ensures r.Ok? ==> RegisterValue(r.value.regs, OutputDataRateField) / 128
                      == RegisterValue(dev.regs, OutputDataRateField) / 128
  {
    Pow2Table();
    SetValidatedSpec(dev, OutputDataRateField, value, OutputDataRateCount);
    KeepsLowerField(dev, OutputDataRateField, PowerModeField, value);
    OutputDataRateKeepsTopBit(dev, value);
    SetValidated(dev, OutputDataRateField, value, OutputDataRateCount)
  }

  /**
   The `iir_coefficient` setter: validate, drop to standby unless already
   there, write the value to both IIR fields, then write the saved power
   mode back (also when it was standby).
   */
  function SetIirCoefficient(dev: Device, value: int): (r: Result<Device>)
    ensures r.Fail? <==> !(0 <= value < IirCount)
    ensures r.Fail? ==> r.error == ValueError
  {
    IirCoefficientSucceeds(dev, value);
    if !(0 <= value < IirCount) then Fail(ValueError)
    else
      var original := GetField(dev.regs, PowerModeField);
      match EnterStandby(dev, original)
      case Fail(e) => Fail(e)
      case Ok(d1) =>
        match WriteIirFields(d1, value)
        case Fail(e) => Fail(e)
        case Ok(d3) => SetPowerMode(d3, original)
  }

  /** Drop to standby unless the saved mode already is standby. */
  function EnterStandby(dev: Device, original: nat): Result<Device>
  {
    if original != Standby then SetPowerMode(dev, Standby) else Ok(dev)
  }

  /** Write the coefficient to the pressure IIR field, then to the temperature IIR field. */
  function WriteIirFields(dev: Device, value: int): Result<Device>
  {
    match SetField(dev, IirField, value)
    case Fail(e) => Fail(e)
    case Ok(d) => SetField(d, IirTempField, value)
  }

  lemma EnterStandbyWrites(dev: Device, original: nat)
    ensures EnterStandby(dev, original).Ok?
    ensures Appended(dev.writes, EnterStandby(dev, original).value.writes,
      if original != Standby then [OdrConfig] else [])
  {
    if original == Standby {
      assert dev.writes[..|dev.writes|] == dev.writes;
    }
  }

  /** The two IIR writes of the setter: both fields get the value, the power mode is untouched. */
  lemma IirFieldsWritten(d1: Device, value: int)
    requires 0 <= value < IirCount
    ensures WriteIirFields(d1, value).Ok?
    ensures var d3 := WriteIirFields(d1, value).value;
      && GetField(d3.regs, IirField) == value
      && GetField(d3.regs, IirTempField) == value
      && GetField(d3.regs, PowerModeField) == GetField(d1.regs, PowerModeField)
      && Appended(d1.writes, d3.writes, [DspIir, DspIir])
  {
    Pow2Table();
    GetAfterSet(d1, IirField, value);
    SetFieldWrites(d1, IirField, value, true);
    var d2 := SetField(d1, IirField, value).value;
    GetAfterSet(d2, IirTempField, value);
    SetFieldWrites(d2, IirTempField, value, true);
    KeepsUpperField(d2, IirTempField, IirField, value);
    SetFieldKeepsOtherRegister(d1, IirField, value, PowerModeField);
    SetFieldKeepsOtherRegister(d2, IirTempField, value, PowerModeField);
    var d3 := SetField(d2, IirTempField, value).value;
    AppendedChain(d1.writes, d2.writes, d3.writes, [DspIir], [DspIir]);
  }

  /** Writing the power mode leaves both IIR fields as they were. */
  lemma PowerModeKeepsIir(dev: Device, mode: int)
    requires 0 <= mode < PowerModeCount
    ensures SetPowerMode(dev, mode).Ok?
    ensures GetField(SetPowerMode(dev, mode).value.regs, IirField) == GetField(dev.regs, IirField)
    ensures GetField(SetPowerMode(dev, mode).value.regs, IirTempField) == GetField(dev.regs, IirTempField)
  {
    var regs := SetPowerMode(dev, mode).value.regs;
    assert ReadBytes(regs, DspIir, 1) == ReadBytes(dev.regs, DspIir, 1);
    assert RegisterValue(regs, IirField) == RegisterValue(dev.regs, IirField);
    assert RegisterValue(regs, IirTempField) == RegisterValue(dev.regs, IirTempField);
  }

  /** Every step of a valid IIR update succeeds. */
  lemma IirCoefficientSucceeds(dev: Device, value: int)
    ensures 0 <= value < IirCount ==>
      && EnterStandby(dev, GetField(dev.regs, PowerModeField)).Ok?
      && WriteIirFields(EnterStandby(dev, GetField(dev.regs, PowerModeField)).value, value).Ok?
  {
    if 0 <= value < IirCount {
      EnterStandbyWrites(dev, GetField(dev.regs, PowerModeField));
      IirFieldsWritten(EnterStandby(dev, GetField(dev.regs, PowerModeField)).value, value);
    }
  }

  /**
   A valid IIR update leaves both IIR fields holding the value and the
   power mode as it was.
   */
  lemma IirCoefficientSpec(dev: Device, value: int)
    requires 0 <= value < IirCount
    ensures var r := SetIirCoefficient(dev, value).value;
      && GetField(r.regs, IirField) == value
      && GetField(r.regs, IirTempField) == value
      && GetField(r.regs, PowerModeField) == GetField(dev.regs, PowerModeField)
  {
    var original := GetField(dev.regs, PowerModeField);
    assert original < PowerModeCount by {
      Pow2Table();
    }
    EnterStandbyWrites(dev, original);
    var d1 := EnterStandby(dev, original).value;
    IirFieldsWritten(d1, value);
    PowerModeKeepsIir(WriteIirFields(d1, value).value, original);
  }

  /** The standby write (when needed) and the two IIR writes, in order. */
  lemma StandbyThenIirWrites(dev: Device, value: int, original: nat)
    requires 0 <= value < IirCount
    requires original == GetField(dev.regs, PowerModeField)
    ensures EnterStandby(dev, original).Ok?
    ensures WriteIirFields(EnterStandby(dev, original).value, value).Ok?
    ensures Appended(dev.writes, WriteIirFields(EnterStandby(dev, original).value, value).value.writes,
      (if original != Standby then [OdrConfig] else []) + [DspIir, DspIir])
  {
    EnterStandbyWrites(dev, original);
    var d1 := EnterStandby(dev, original).value;
    IirFieldsWritten(d1, value);
    AppendedChain(dev.writes, d1.writes, WriteIirFields(d1, value).value.writes,
      if original != Standby then [OdrConfig] else [], [DspIir, DspIir]);
  }

  /** With the standby and IIR steps done, the setter's result is the restoring power-mode write. */
  lemma IirCoefficientUnfold(dev: Device, value: int, d3: Device)
    requires 0 <= value < IirCount
    requires EnterStandby(dev, GetField(dev.regs, PowerModeField)).Ok?
    requires WriteIirFields(EnterStandby(dev, GetField(dev.regs, PowerModeField)).value, value) == Ok(d3)
    ensures SetPowerMode(d3, GetField(dev.regs, PowerModeField)).Ok?
    ensures SetIirCoefficient(dev, value) == SetPowerMode(d3, GetField(dev.regs, PowerModeField))
  {
    assert GetField(dev.regs, PowerModeField) < PowerModeCount by {
      Pow2Table();
    }
  }

  /**
   On a valid IIR update the bus sees a standby write (only when the mode
   was not standby), the two IIR writes, and the power-mode restore, in
   that order.
   */
  lemma IirCoefficientWriteOrder(dev: Device, value: int)
    requires 0 <= value < IirCount
    ensures Appended(dev.writes, SetIirCoefficient(dev, value).value.writes,
      (if GetField(dev.regs, PowerModeField) != Standby then [OdrConfig] else [])
      + [DspIir, DspIir, OdrConfig])
  {
    var original := GetField(dev.regs, PowerModeField);
    StandbyThenIirWrites(dev, value, original);
    var d3 := WriteIirFields(EnterStandby(dev, original).value, value).value;
    IirCoefficientUnfold(dev, value, d3);
    var front: seq<nat> := (if original != Standby then [OdrConfig] else []) + [DspIir, DspIir];
    AppendedChain(dev.writes, d3.writes, SetPowerMode(d3, original).value.writes, front, [OdrConfig]);
    assert front + [OdrConfig] == (if original != Standby then [OdrConfig] else []) + [DspIir, DspIir, OdrConfig];
  }
}
