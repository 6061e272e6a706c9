/** CRC-16 of the reader protocol (Crc16.Compute): the reflected CCITT
    polynomial 0x8408, register preset to 0xFFFF, no final XOR
    (the CRC-16/MCRF4XX parameter set). */
module Crc16 {


  const Polynomial: bv16 := 0x8408
  const Initial: bv16 := 0xFFFF

  /** One shift of the register: shift right, and fold the polynomial in
      when the bit shifted out was set. */
  function Shift(crc: bv16): bv16 {
    if crc & 1 != 0 then (crc >> 1) ^ Polynomial else crc >> 1
  }

  /** The register after n shifts. */
  function ShiftN(crc: bv16, n: nat): bv16 {
    if n == 0 then crc else Shift(ShiftN(crc, n - 1))
  }

  /** One input byte: XOR it into the register, then eight shifts. */
  function UpdateByte(crc: bv16, b: bv8): bv16 {
    ShiftN(crc ^ (b as bv16), 8)
  }

  /** The register after feeding `data` to a register holding `crc`: a left
      fold of UpdateByte. */
  function Continue(crc: bv16, data: seq<bv8>): bv16 {
    if data == [] then crc else UpdateByte(Continue(crc, data[..|data| - 1]), data[|data| - 1])
  }

  /** The CRC of a byte sequence, as Compute returns it. */
  function Crc(data: seq<bv8>): bv16 {
    Continue(Initial, data)
  }

  /** The CRC is a left fold: the CRC of a concatenation continues the
      register from the CRC of the first part over the second part. */
  lemma {:induction false} ContinueAppend(crc: bv16, a: seq<bv8>, b: seq<bv8>)
    ensures Continue(crc, a + b) == Continue(Continue(crc, a), b)
  {
    if b == [] {
      assert a + b == a;
    } else {
      var b' := b[..|b| - 1];
      assert (a + b)[..|a + b| - 1] == a + b';
      ContinueAppend(crc, a, b');
    }
  }

  lemma CrcAppend(a: seq<bv8>, b: seq<bv8>)
    ensures Crc(a + b) == Continue(Crc(a), b)
  {
    ContinueAppend(Initial, a, b);
  }

  /** The CRC of no bytes is the preset 0xFFFF: there is no final XOR. */
  lemma CrcEmpty()
    ensures Crc([]) == 0xFFFF
  {
  }

  /** Crc16.Compute: a foreach over the bytes with a nested eight-step loop
      updating the register in place. */
  method Compute(data: seq<bv8>) returns (crc: bv16)
    ensures crc == Crc(data)
  {
    crc := Initial;
    for k := 0 to |data|
      invariant crc == Continue(Initial, data[..k])
    {
      ghost var before := crc;
      crc := crc ^ (data[k] as bv16);
      ghost var mixed := crc;
      for i := 0 to 8
        invariant crc == ShiftN(mixed, i)
      {
        var lsb := crc & 0x0001 != 0;
        crc := crc >> 1;
        if lsb {
          crc := crc ^ Polynomial;
        }
      }
      assert data[..k + 1][..k] == data[..k];
    }
    assert data[..|data|] == data;
  }

  /** Eight shifts written out, so that a concrete register can be
      evaluated step by step. */
  lemma {:induction false} ShiftEight(crc: bv16)
    ensures ShiftN(crc, 8) == Shift(Shift(Shift(Shift(Shift(Shift(Shift(Shift(crc))))))))
  {
    assert ShiftN(crc, 1) == Shift(crc);
    assert ShiftN(crc, 2) == Shift(Shift(crc));
    assert ShiftN(crc, 3) == Shift(Shift(Shift(crc)));
    assert ShiftN(crc, 4) == Shift(Shift(Shift(Shift(crc))));
    assert ShiftN(crc, 5) == Shift(Shift(Shift(Shift(Shift(crc)))));
    assert ShiftN(crc, 6) == Shift(Shift(Shift(Shift(Shift(Shift(crc))))));
    assert ShiftN(crc, 7) == Shift(Shift(Shift(Shift(Shift(Shift(Shift(crc)))))));
  }

  /** Appending one byte to the input feeds that byte to the register. */
  lemma ContinueSnoc(crc: bv16, data: seq<bv8>, b: bv8)
    ensures Continue(crc, data + [b]) == UpdateByte(Continue(crc, data), b)
  {
    assert (data + [b])[..|data|] == data;
  }

  /** One more input byte, with its eight shifts written out, so that a
      concrete register can be evaluated byte by byte. */
  lemma CrcSnoc(data: seq<bv8>, b: bv8)
    ensures Crc(data + [b]) == Shift(Shift(Shift(Shift(Shift(Shift(Shift(Shift(Crc(data) ^ (b as bv16)))))))))
  {
    ContinueSnoc(Initial, data, b);
    ShiftEight(Crc(data) ^ (b as bv16));
  }

  // ---------------------------------------------------------------------
  // Error detection: a shift loses no information, so two registers that
  // differ stay different through any further input, and changing any
  // byte of the input changes the CRC.
  // ---------------------------------------------------------------------

  lemma LowBit(x: bv16)
    ensures x & 1 == 0 || x & 1 == 1
  {
  }

  /** Equal low bits: the same fold on both sides, so the rest must differ. */
  lemma ShiftInjectiveSame(x: bv16, y: bv16)
    requires x != y && x & 1 == y & 1
    ensures Shift(x) != Shift(y)
  {
    assert x >> 1 != y >> 1;
  }

  /** Different low bits: only one side gets the polynomial's top bit. */
  lemma ShiftInjectiveDiffer(x: bv16, y: bv16)
    requires x & 1 == 1 && y & 1 == 0
    ensures Shift(x) != Shift(y)
  {
    assert Shift(x) & 0x8000 == 0x8000;
    assert Shift(y) & 0x8000 == 0;
  }

  /** A shift is one-to-one: the register before it can be recovered. */
  lemma ShiftInjective(x: bv16, y: bv16)
    requires x != y
    ensures Shift(x) != Shift(y)
  {
    LowBit(x);
    LowBit(y);
    if x & 1 == y & 1 {
      ShiftInjectiveSame(x, y);
    } else if x & 1 == 1 {
      ShiftInjectiveDiffer(x, y);
    } else {
      ShiftInjectiveDiffer(y, x);
    }
  }

  /** Eight shifts, as one input byte takes, are one-to-one too. */
  lemma ShiftEightInjective(x: bv16, y: bv16)
    requires x != y
    ensures ShiftN(x, 8) != ShiftN(y, 8)
  {
    ShiftEight(x);
    ShiftEight(y);
    ShiftInjective(x, y);
    ShiftInjective(Shift(x), Shift(y));
    ShiftInjective(Shift(Shift(x)), Shift(Shift(y)));
    ShiftInjective(Shift(Shift(Shift(x))), Shift(Shift(Shift(y))));
    ShiftInjective(Shift(Shift(Shift(Shift(x)))), Shift(Shift(Shift(Shift(y)))));
    ShiftInjective(Shift(Shift(Shift(Shift(Shift(x))))), Shift(Shift(Shift(Shift(Shift(y))))));
    ShiftInjective(Shift(Shift(Shift(Shift(Shift(Shift(x)))))), Shift(Shift(Shift(Shift(Shift(Shift(y)))))));
    ShiftInjective(Shift(Shift(Shift(Shift(Shift(Shift(Shift(x))))))), Shift(Shift(Shift(Shift(Shift(Shift(Shift(y))))))));
  }

  /** Feeding the same byte to two different registers leaves them different. */
  lemma UpdateByteInjective(u1: bv16, u2: bv16, b: bv8)
    requires u1 != u2
    ensures UpdateByte(u1, b) != UpdateByte(u2, b)
  {
    ShiftEightInjective(u1 ^ (b as bv16), u2 ^ (b as bv16));
  }

  /** Feeding two different bytes to one register gives different registers. */
  lemma UpdateByteDistinguishes(u: bv16, b1: bv8, b2: bv8)
    requires b1 != b2
    ensures UpdateByte(u, b1) != UpdateByte(u, b2)
  {
    assert b1 as bv16 != b2 as bv16;
    ShiftEightInjective(u ^ (b1 as bv16), u ^ (b2 as bv16));
  }

  /** Two different registers fed the same bytes stay different. */
  lemma {:induction false} ContinueInjective(c1: bv16, c2: bv16, data: seq<bv8>)
    requires c1 != c2
    ensures Continue(c1, data) != Continue(c2, data)
  {
    if data != [] {
      var init := data[..|data| - 1];
      ContinueInjective(c1, c2, init);
      UpdateByteInjective(Continue(c1, init), Continue(c2, init), data[|data| - 1]);
    }
  }

  /** Single-byte error detection: XORing any non-zero error pattern into
      one byte of the input, wherever it lies, changes the CRC. */
  lemma ErrorChangesCrc(before: seq<bv8>, b: bv8, error: bv8, after: seq<bv8>)
    requires error != 0
    ensures Crc(before + [b ^ error] + after) != Crc(before + [b] + after)
  {
    var r := Crc(before);
    assert b ^ error != b;
    ContinueAppend(Initial, before + [b ^ error], after);
    ContinueAppend(Initial, before + [b], after);
    ContinueSnoc(Initial, before, b ^ error);
    ContinueSnoc(Initial, before, b);
    UpdateByteDistinguishes(r, b ^ error, b);
    ContinueInjective(UpdateByte(r, b ^ error), UpdateByte(r, b), after);
  }
}
