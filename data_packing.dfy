/** The 256-bit flow-index word: a timestamp, a flow rate and two deposits
    packed into one unsigned integer by shifts, ORs and masks.

      bits 224..255  timestamp     (32 bits, stored verbatim)
      bits 128..223  flow rate     (96 bits, stored verbatim)
      bits  64..127  deposit       (its low 32 bits dropped first)
      bits   0..63   owed deposit  (its low 32 bits dropped first)

    Encode performs no range check, exactly like the code it models, so the
    field widths appear as preconditions of the lemmas about it. */
module DataPacking {
  import opened Bits

  /** The tuple that decode returns. */
  datatype FlowIndex = FlowIndex(timestamp: nat, flowRate: nat, deposit: nat, owedDeposit: nat)

  /** The widths the layout gives the four inputs of Encode: 32 bits for the
      timestamp, 96 for the flow rate and for each deposit before clipping. */
  predicate InRange(timestamp: nat, flowRate: nat, deposit: nat, owedDeposit: nat)
  {
    timestamp < Pow2(32) && flowRate < Pow2(96) && deposit < Pow2(96) && owedDeposit < Pow2(96)
  }

  /** What a deposit is worth once its low 32 bits are gone: rounded down to a
      multiple of 2**32, never up, and short of the amount by less than 2**32. */
  function Clip(amount: nat): (r: nat)
    ensures r <= amount && amount - r < Pow2(32)
    ensures r % Pow2(32) == 0
  {
    LowMod(amount, 32);
    ShrShlLow(amount, 32);
    ShlMultiple(Shr(amount, 32), 32);
    amount - amount % Pow2(32)
  }

  /** `encode`: the OR of the timestamp moved up to bit 224, the flow rate moved up
      to bit 128, the deposit with its low 32 bits dropped moved up to bit 64, and
      the owed deposit with its low 32 bits dropped. */
  function Encode(timestamp: nat, flowRate: nat, deposit: nat, owedDeposit: nat): (r: nat)
  {
    Or(Or(Or(Shl(timestamp, 224), Shl(flowRate, 128)), Shl(Shr(deposit, 32), 64)), Shr(owedDeposit, 32))
  }

  /** `decode`: shifts and masks each field back out and re-widens the deposits
      with `<< 32`. The timestamp is not masked, so only a word below 2**256
      guarantees a 32-bit timestamp; the other fields are bounded for any word. */
  function Decode(word: nat): (r: FlowIndex)
    ensures r.flowRate < Pow2(96)
    ensures r.deposit < Pow2(96) && r.deposit % Pow2(32) == 0
    ensures r.owedDeposit < Pow2(96) && r.owedDeposit % Pow2(32) == 0
    ensures word < Pow2(256) ==> r.timestamp < Pow2(32)
  {
    var timestamp := Shr(word, 224);
    var flowRate := And(Shr(word, 128), Pow2(96) - 1);
    var deposit := And(Shr(word, 64), Pow2(64) - 1);
    var owedDeposit := And(word, Pow2(64) - 1);
    AndLowMask(Shr(word, 128), 96);
    AndLowMask(Shr(word, 64), 64);
    AndLowMask(word, 64);
    StoredDepositFits(deposit);
    StoredDepositFits(owedDeposit);
    ShlMultiple(deposit, 32);
    ShlMultiple(owedDeposit, 32);
    ShrBound(word, 32, 224, 256);
    FlowIndex(timestamp, flowRate, Shl(deposit, 32), Shl(owedDeposit, 32))
  }

  /** A stored 64-bit deposit field, re-widened by `<< 32`, fits in 96 bits, and
      `>> 32` brings it back. */
  lemma StoredDepositFits(x: nat)
    requires x < Pow2(64)
    ensures Shl(x, 32) < Pow2(96) && Shr(Shl(x, 32), 32) == x
  {
    var y := Shl(x, 32);
    ShlAddBound(x, 0, 64, 32, 96);
    ShlAddSplit(x, 0, 32);
    assert y + 0 == y;
  }

  /** The four stored fields laid end to end: ((t << 96 + f) << 64 + d) << 64 + o. */
  function Packed(t: nat, f: nat, d: nat, o: nat): (r: nat)
  {
    Shl(Shl(Shl(t, 96) + f, 64) + d, 64) + o
  }

  /** The OR of the four shifted fields is their sum, nested as
      ((timestamp << 96 + flow rate) << 64 + deposit >> 32) << 64 + owed deposit >> 32,
      because no two fields share a bit. The timestamp may be of any size. */
  lemma EncodeLayout(timestamp: nat, flowRate: nat, deposit: nat, owedDeposit: nat)
    requires flowRate < Pow2(96) && deposit < Pow2(96) && owedDeposit < Pow2(96)
    ensures Shr(deposit, 32) < Pow2(64) && Shr(owedDeposit, 32) < Pow2(64)
    ensures Encode(timestamp, flowRate, deposit, owedDeposit)
         == Packed(timestamp, flowRate, Shr(deposit, 32), Shr(owedDeposit, 32))
  {
    ShrBound(deposit, 64, 32, 96);
    ShrBound(owedDeposit, 64, 32, 96);
    var d, o := Shr(deposit, 32), Shr(owedDeposit, 32);
    FieldsAreSum(timestamp, flowRate, d, o);
    assert Encode(timestamp, flowRate, deposit, owedDeposit)
        == Or(Or(Or(Shl(timestamp, 224), Shl(flowRate, 128)), Shl(d, 64)), o);
  }

  /** The OR-of-fields step of EncodeLayout, on the already clipped deposits. */
  lemma FieldsAreSum(t: nat, f: nat, d: nat, o: nat)
    requires f < Pow2(96) && d < Pow2(64) && o < Pow2(64)
    ensures Or(Or(Or(Shl(t, 224), Shl(f, 128)), Shl(d, 64)), o) == Packed(t, f, d, o)
  {
    var hi1 := Shl(t, 96) + f;
    var hi2 := Shl(hi1, 64) + d;
    AdjacentFields(t, f, 96, 128, 224);
    assert Or(Shl(t, 224), Shl(f, 128)) == Shl(hi1, 128);
    AdjacentFields(hi1, d, 64, 64, 128);
    assert Or(Shl(hi1, 128), Shl(d, 64)) == Shl(hi2, 64);
    OrShifted(hi2, o, 64);
  }

  /** With every field in range the word fits in 256 bits. */
  lemma EncodeFits(timestamp: nat, flowRate: nat, deposit: nat, owedDeposit: nat)
    requires InRange(timestamp, flowRate, deposit, owedDeposit)
    ensures Encode(timestamp, flowRate, deposit, owedDeposit) < Pow2(256)
  {
    EncodeLayout(timestamp, flowRate, deposit, owedDeposit);
    PackedFits(timestamp, flowRate, Shr(deposit, 32), Shr(owedDeposit, 32));
  }

  /** Fields of 32, 96, 64 and 64 bits laid end to end fill at most 256 bits. */
  lemma PackedFits(t: nat, f: nat, d: nat, o: nat)
    requires t < Pow2(32) && f < Pow2(96) && d < Pow2(64) && o < Pow2(64)
    ensures Packed(t, f, d, o) < Pow2(256)
  {
    var hi1 := Shl(t, 96) + f;
    var hi2 := Shl(hi1, 64) + d;
    ShlAddBound(t, f, 32, 96, 128);
    ShlAddBound(hi1, d, 128, 64, 192);
    ShlAddBound(hi2, o, 192, 64, 256);
  }

  /** Decode reads the fields straight off the word: everything from bit 224 up,
      then the 96, 64 and 64 bits below it, the deposits shifted back up by 32. */
  lemma DecodeFields(word: nat)
    ensures Decode(word)
         == FlowIndex(Shr(word, 224), Low(Shr(word, 128), 96),
                      Shl(Low(Shr(word, 64), 64), 32), Shl(Low(word, 64), 32))
  {
    AndLowMask(Shr(word, 128), 96);
    AndLowMask(Shr(word, 64), 64);
    AndLowMask(word, 64);
  }

  /** Each field of a packed word can be read back from it. */
  lemma PackedSplit(t: nat, f: nat, d: nat, o: nat)
    requires f < Pow2(96) && d < Pow2(64) && o < Pow2(64)
    ensures var w := Packed(t, f, d, o);
            Shr(w, 224) == t && Low(Shr(w, 128), 96) == f
            && Low(Shr(w, 64), 64) == d && Low(w, 64) == o
  {
    var w := Packed(t, f, d, o);
    PackedLow(t, f, d, o);
    PackedHigh(Shl(t, 96) + f, d, o, w);
    ShlAddSplit(t, f, 96);
    ShrShr(w, 128, 96, 224);
  }

  /** The owed-deposit and deposit fields of a packed word, and the two words above them. */
  lemma PackedLow(t: nat, f: nat, d: nat, o: nat)
    requires d < Pow2(64) && o < Pow2(64)
    ensures var hi := Shl(Shl(t, 96) + f, 64) + d;
            Shr(Packed(t, f, d, o), 64) == hi && Low(Packed(t, f, d, o), 64) == o
            && Shr(hi, 64) == Shl(t, 96) + f && Low(hi, 64) == d
  {
    var hi := Shl(Shl(t, 96) + f, 64) + d;
    ShlAddSplit(hi, o, 64);
    ShlAddSplit(Shl(t, 96) + f, d, 64);
  }

  /** Shifting a packed word down by 128 is shifting down by 64 twice. */
  lemma PackedHigh(top: nat, d: nat, o: nat, w: nat)
    requires Shr(w, 64) == Shl(top, 64) + d && d < Pow2(64)
    ensures Shr(w, 128) == top
  {
    ShrShr(w, 64, 64, 128);
    ShlAddSplit(top, d, 64);
  }

  /** Every word is the packing of the fields read off it. */
  lemma PackedJoin(w: nat)
    ensures Packed(Shr(w, 224), Low(Shr(w, 128), 96), Low(Shr(w, 64), 64), Low(w, 64)) == w
  {
    var top, mid := Shr(w, 128), Shr(w, 64);
    ShrShr(w, 128, 96, 224);
    ShrShlLow(top, 96);
    ShrShr(w, 64, 64, 128);
    ShrShlLow(mid, 64);
    ShrShlLow(w, 64);
    PackedOf(Shr(w, 224), Low(top, 96), Low(mid, 64), Low(w, 64), top, mid, w);
  }

  /** Packed, one field at a time. */
  lemma PackedOf(t: nat, f: nat, d: nat, o: nat, top: nat, mid: nat, w: nat)
    requires Shl(t, 96) + f == top && Shl(top, 64) + d == mid && Shl(mid, 64) + o == w
    ensures Packed(t, f, d, o) == w
  {
  }

  /** Decoding an encoded word gives back the timestamp and the flow rate exactly
      and each deposit rounded down to a multiple of 2**32. The timestamp needs no
      bound: decode does not mask it. */
  lemma DecodeEncode(timestamp: nat, flowRate: nat, deposit: nat, owedDeposit: nat)
    requires flowRate < Pow2(96) && deposit < Pow2(96) && owedDeposit < Pow2(96)
    ensures Decode(Encode(timestamp, flowRate, deposit, owedDeposit))
         == FlowIndex(timestamp, flowRate, Clip(deposit), Clip(owedDeposit))
  {
    EncodeLayout(timestamp, flowRate, deposit, owedDeposit);
    var d, o := Shr(deposit, 32), Shr(owedDeposit, 32);
    PackedSplit(timestamp, flowRate, d, o);
    DecodeFields(Packed(timestamp, flowRate, d, o));
    ClipIsShift(deposit);
    ClipIsShift(owedDeposit);
  }

  /** `amount >> 32 << 32` is Clip(amount). */
  lemma ClipIsShift(amount: nat)
    ensures Shl(Shr(amount, 32), 32) == Clip(amount)
  {
    ShrShlLow(amount, 32);
    LowMod(amount, 32);
  }

  /** Encoding a decoded word loses no bit. This holds for every word, whatever its
      size, because decode does not mask the timestamp. */
  lemma EncodeDecode(word: nat)
    ensures var r := Decode(word); Encode(r.timestamp, r.flowRate, r.deposit, r.owedDeposit) == word
  {
    var r := Decode(word);
    DecodeFields(word);
    var d, o := Low(Shr(word, 64), 64), Low(word, 64);
    StoredDepositFits(d);
    StoredDepositFits(o);
    EncodeLayout(r.timestamp, r.flowRate, r.deposit, r.owedDeposit);
    PackedJoin(word);
  }

  /** A deposit that is already a multiple of 2**32 (zero among them) survives the
      round trip exactly, and so the whole record does. */
  lemma ExactRoundTrip(timestamp: nat, flowRate: nat, deposit: nat, owedDeposit: nat)
    requires flowRate < Pow2(96) && deposit < Pow2(96) && owedDeposit < Pow2(96)
    requires deposit % Pow2(32) == 0 && owedDeposit % Pow2(32) == 0
    ensures Decode(Encode(timestamp, flowRate, deposit, owedDeposit))
         == FlowIndex(timestamp, flowRate, deposit, owedDeposit)
  {
    DecodeEncode(timestamp, flowRate, deposit, owedDeposit);
  }

  /** The four fields occupy disjoint bits: changing one in-range input changes the
      decoded value of that field alone. */
  lemma FieldsIndependent(t: nat, f: nat, d: nat, o: nat, t': nat, f': nat, d': nat, o': nat)
    requires f < Pow2(96) && d < Pow2(96) && o < Pow2(96)
    requires f' < Pow2(96) && d' < Pow2(96) && o' < Pow2(96)
    ensures Decode(Encode(t', f, d, o)) == Decode(Encode(t, f, d, o)).(timestamp := t')
    ensures Decode(Encode(t, f', d, o)) == Decode(Encode(t, f, d, o)).(flowRate := f')
    ensures Decode(Encode(t, f, d', o)) == Decode(Encode(t, f, d, o)).(deposit := Clip(d'))
    ensures Decode(Encode(t, f, d, o')) == Decode(Encode(t, f, d, o)).(owedDeposit := Clip(o'))
  {
    DecodeEncode(t, f, d, o);
    DecodeEncode(t', f, d, o);
    DecodeEncode(t, f', d, o);
    DecodeEncode(t, f, d', o);
    DecodeEncode(t, f, d, o');
  }

  /** Clipping is idempotent: encoding a decoded record and decoding again gives
      the same record as the first decode. */
  lemma DecodeIdempotent(word: nat)
    ensures var r := Decode(word);
            Decode(Encode(r.timestamp, r.flowRate, r.deposit, r.owedDeposit)) == r
  {
    EncodeDecode(word);
  }

  /** The round trip that `main` runs, on its own constants. */
  lemma MainExample()
    ensures Decode(Encode(1618876800, 1234000000000000000000, 5678000000000000000000, 9012000000000000000000))
         == FlowIndex(1618876800, 1234000000000000000000, 5677999999997114843136, 9011999999997109075968)
  {
    DecodeEncode(1618876800, 1234000000000000000000, 5678000000000000000000, 9012000000000000000000);
  }

  /** Nothing stops an oversized input: a flow rate of 2**96 bleeds into the
      timestamp, and the word decodes as timestamp 1 with a flow rate of 0. */
  lemma OversizedFlowRate()
    ensures Encode(0, Pow2(96), 0, 0) == Encode(1, 0, 0, 0)
    ensures Decode(Encode(0, Pow2(96), 0, 0)) == FlowIndex(1, 0, 0, 0)
  {
    ShlMul(1, 96);
    ShlShl(1, 96, 128, 224);
    assert Shl(0, 224) == 0 && Shl(0, 128) == 0 && Shr(0, 32) == 0 && Shl(0, 64) == 0;
    assert Encode(0, Pow2(96), 0, 0) == Shl(1, 224);
    DecodeEncode(1, 0, 0, 0);
  }
}
