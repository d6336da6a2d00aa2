/** The register codec: Modbus holding registers are 16-bit words, and wider
    values are packed into consecutive registers most significant word first.
    The Home Assistant client and the test script combine words with `|`
    (`Join32`, `Join64`); the standalone controller combines them with `+`
    (`Int32FromRegisters`, `Int64FromRegisters`).  The lemmas here show the two
    agree and that splitting a value back into words inverts the packing. */
module Codec {
  import opened Bits

  /** One holding register. */
  type Word = x: nat | x < 0x1_0000

  const TwoTo16: nat := 0x1_0000
  const TwoTo32: nat := 0x1_0000_0000
  const TwoTo48: nat := 0x1_0000_0000_0000
  const TwoTo64: nat := 0x1_0000_0000_0000_0000

  /** Every entry of a payload fits in one register. */
  predicate AllWords(values: seq<nat>) {
    forall i :: 0 <= i < |values| ==> values[i] < TwoTo16
  }

  /** A register write: start address and the values written from there on. */
  datatype Write = Write(address: nat, values: seq<nat>)

  /** `(w0 << 16) | w1`: the big-endian 32-bit value held by two registers. */
  function Join32(w0: Word, w1: Word): (r: nat)
    ensures r == w0 * TwoTo16 + w1
    ensures r < TwoTo32
  {
    Pow2Values();
    OrLow(w0, 16, w1);
    BitOr(Shl(w0, 16), w1)
  }

  /** `(w0 << 48) | (w1 << 32) | (w2 << 16) | w3`, evaluated left to right as
      Python does: the big-endian 64-bit value held by four registers. */
  function Join64(w0: Word, w1: Word, w2: Word, w3: Word): (r: nat)
    ensures r == w0 * TwoTo48 + w1 * TwoTo32 + w2 * TwoTo16 + w3
    ensures r < TwoTo64
  {
    OrChainIsSum(w0, w1, w2, w3);
    BitOr(BitOr(BitOr(Shl(w0, 48), Shl(w1, 32)), Shl(w2, 16)), w3)
  }

  /** Each `|` in the chain adds a word below the bits already set. */
  lemma OrChainIsSum(w0: Word, w1: Word, w2: Word, w3: Word)
    ensures BitOr(BitOr(BitOr(Shl(w0, 48), Shl(w1, 32)), Shl(w2, 16)), w3)
            == w0 * TwoTo48 + w1 * TwoTo32 + w2 * TwoTo16 + w3
  {
    Pow2Values();
    var hi2 := w0 * TwoTo16 + w1;
    var hi3 := hi2 * TwoTo16 + w2;
    assert Shl(w0, 48) == w0 * Pow2(48);
    assert Shl(w1, 32) < Pow2(48);
    OrLow(w0, 48, Shl(w1, 32));
    var ab := BitOr(Shl(w0, 48), Shl(w1, 32));
    assert ab == hi2 * Pow2(32);
    assert Shl(w2, 16) < Pow2(32);
    OrLow(hi2, 32, Shl(w2, 16));
    var abc := BitOr(ab, Shl(w2, 16));
    assert abc == hi3 * Pow2(16);
    OrLow(hi3, 16, w3);
  }

  /** `int16(val)`: `val & 0xFFFF`. */
  function Int16(v: nat): (r: Word)
    ensures r == v % TwoTo16
  {
    AndMask16(v);
    BitAnd(v, Mask16)
  }

  /** `int32_from_registers(regs)`: `(regs[0] << 16) + regs[1]`.  Indexing
      past the end raises in the source, so two registers are required. */
  function Int32FromRegisters(regs: seq<Word>): (r: nat)
    requires |regs| >= 2
    ensures r == Join32(regs[0], regs[1])
  {
    Pow2Values();
    Shl(regs[0], 16) + regs[1]
  }

  /** `int64_from_registers(regs)`:
      `(regs[0] << 48) + (regs[1] << 32) + (regs[2] << 16) + regs[3]`. */
  function Int64FromRegisters(regs: seq<Word>): (r: nat)
    requires |regs| >= 4
    ensures r == Join64(regs[0], regs[1], regs[2], regs[3])
  {
    Pow2Values();
    Shl(regs[0], 48) + Shl(regs[1], 32) + Shl(regs[2], 16) + regs[3]
  }

  /** `[(v >> 16) & 0xFFFF, v & 0xFFFF]`: the two registers written for a
      32-bit value; bits above the 32nd are masked away. */
  function SplitWords(v: nat): (ws: seq<Word>)
    ensures |ws| == 2
    ensures ws[0] * TwoTo16 + ws[1] == v % TwoTo32
  {
    Pow2Values();
    AndMask16(Shr(v, 16));
    AndMask16(v);
    ModMul(v, TwoTo16, TwoTo16);
    [BitAnd(Shr(v, 16), Mask16), BitAnd(v, Mask16)]
  }

  /** Splitting a 32-bit value and joining the halves gives the value back. */
  lemma SplitThenJoin(v: nat)
    requires v < TwoTo32
    ensures Int32FromRegisters(SplitWords(v)) == v
  {
    var ws := SplitWords(v);
    DivModUnique(v, TwoTo32, 0, v);
    assert Int32FromRegisters(ws) == ws[0] * TwoTo16 + ws[1];
  }

  /** Joining two registers and splitting the result gives them back. */
  lemma JoinThenSplit(w0: Word, w1: Word)
    ensures SplitWords(Join32(w0, w1)) == [w0, w1]
  {
    var v := Join32(w0, w1);
    var ws := SplitWords(v);
    DivModUnique(v, TwoTo32, 0, v);
    DivModUnique(v, TwoTo16, w0, w1);
    DivModUnique(v, TwoTo16, ws[0], ws[1]);
    assert ws[0] == w0 && ws[1] == w1;
  }

  /** The four registers holding a 64-bit value, most significant first. */
  function Words64(e: nat): (ws: seq<Word>)
    ensures |ws| == 4
  {
    [(e / TwoTo48) % TwoTo16, (e / TwoTo32) % TwoTo16, (e / TwoTo16) % TwoTo16, e % TwoTo16]
  }

  /** A 64-bit energy value is decomposed back into exactly the four
      registers it was assembled from. */
  lemma Join64ThenSplit(w0: Word, w1: Word, w2: Word, w3: Word)
    ensures Words64(Join64(w0, w1, w2, w3)) == [w0, w1, w2, w3]
  {
    var e := Join64(w0, w1, w2, w3);
    DivModUnique(e, TwoTo16, w0 * TwoTo32 + w1 * TwoTo16 + w2, w3);
    DivModUnique(e, TwoTo32, w0 * TwoTo16 + w1, w2 * TwoTo16 + w3);
    DivModUnique(e, TwoTo48, w0, w1 * TwoTo32 + w2 * TwoTo16 + w3);
    DivModUnique(w0 * TwoTo32 + w1 * TwoTo16 + w2, TwoTo16, w0 * TwoTo16 + w1, w2);
    DivModUnique(w0 * TwoTo16 + w1, TwoTo16, w0, w1);
    DivModUnique(w0, TwoTo16, 0, w0);
  }

  /** Two register quadruples that decode to the same energy are equal. */
  lemma Join64Injective(a: seq<Word>, b: seq<Word>)
    requires |a| == 4 && |b| == 4
    requires Join64(a[0], a[1], a[2], a[3]) == Join64(b[0], b[1], b[2], b[3])
    ensures a == b
  {
    Join64ThenSplit(a[0], a[1], a[2], a[3]);
    Join64ThenSplit(b[0], b[1], b[2], b[3]);
    assert a == [a[0], a[1], a[2], a[3]];
    assert b == [b[0], b[1], b[2], b[3]];
  }
}
