# Flow-index word codec

This project models the 256-bit flow-index word of the constant-flow
distribution agreement scripts, and proves what its codec promises. `encode`
packs four unsigned integers into one word:

| bits | field | stored as |
|---|---|---|
| 224..255 | timestamp | verbatim (32 bits) |
| 128..223 | flow rate | verbatim (96 bits) |
| 64..127 | deposit | low 32 bits dropped, then 64 bits |
| 0..63 | owed deposit | low 32 bits dropped, then 64 bits |

`decode` shifts and masks the fields back out, and moves the two deposits back
up by 32 bits. The deposits therefore come back rounded down to a multiple of
2^32.

Words are unbounded naturals, as Python integers are. The module `Bits`
defines Python's operators on non-negative integers one binary digit at a time:
`<<` is `Shl`, `>>` is `Shr`, `|` is `Or`, `&` is `And`, and the low digits
are `Low`. Lemmas tie these to ordinary arithmetic: `Shl` multiplies by a
power of two, `Shr` divides by it, and a mask keeps the remainder. Further
lemmas tie `Or` and `And` to the bitwise disjunction and conjunction of
digits. The module `DataPacking` holds the record (`FlowIndex`), `Encode`,
`Decode`, the rounding of a deposit (`Clip`), and the properties of the round
trip.

`Encode` is total, as the Python function is: it checks no range. An
oversized input bleeds into the neighbouring field, as `OversizedFlowRate`
shows. The field widths are therefore preconditions of the lemmas about
`Encode`, not of `Encode` itself.

The code clips a deposit by dropping a fixed 32 low bits, reports no error,
and packs only the flow-index record.

## Model

| member | source | states |
|---|---|---|
| DataPacking.EncodeLayout | docs/scripts/data_packing.py:3 | with the flow rate and both deposits below 2^96, the OR of the four shifted fields equals the fields laid end to end as a sum; the clipped deposits fit in 64 bits; the timestamp may be any size |
| DataPacking.FieldsAreSum | docs/scripts/data_packing.py:3 | an OR of fields in disjoint bit ranges equals their sum |
| DataPacking.EncodeFits | docs/scripts/data_packing.py:3 | with the timestamp below 2^32 and the other three inputs below 2^96, the encoded word is below 2^256 |
| DataPacking.PackedFits | docs/scripts/data_packing.py:3 | fields of 32, 96, 64 and 64 bits laid end to end stay below 2^256 |
| DataPacking.OversizedFlowRate | docs/scripts/data_packing.py:3 | without a range check, a flow rate of 2^96 encodes to the same word as timestamp 1, and that word decodes as timestamp 1 with flow rate 0 |
| DataPacking.Clip | docs/scripts/data_packing.py:8-9 | a deposit that loses its low 32 bits is rounded down, never up: it is at most the amount, short of it by less than 2^32, and a multiple of 2^32 |
| DataPacking.ClipIsShift | docs/scripts/data_packing.py:3 | `amount >> 32 << 32` is the rounded-down deposit Clip(amount) |
| DataPacking.StoredDepositFits | docs/scripts/data_packing.py:8-9 | a stored 64-bit deposit field moved up by 32 bits stays below 2^96, and moving it back down gives the field back |
| DataPacking.Decode | docs/scripts/data_packing.py:5-10 | for any word, the decoded flow rate is below 2^96 and both deposits are below 2^96 and multiples of 2^32; for a word below 2^256 the timestamp is below 2^32 |
| DataPacking.DecodeFields | docs/scripts/data_packing.py:6-9 | decode reads the timestamp from bit 224 up, and the flow rate, the deposit and the owed deposit as the low 96, 64 and 64 bits of the word shifted down by 128, 64 and 0 |
| DataPacking.PackedSplit | docs/scripts/data_packing.py:6-9 | each field of a packed word is read back exactly by the shifts and masks decode uses |
| DataPacking.PackedJoin | docs/scripts/data_packing.py:6-9 | every word is the packing of the four fields read off it |
| DataPacking.DecodeEncode | docs/scripts/data_packing.py:2-10 | with the flow rate and both deposits below 2^96, decode(encode(t, f, d, o)) returns t and f exactly, and Clip(d) and Clip(o); the timestamp needs no bound |
| DataPacking.ExactRoundTrip | docs/scripts/data_packing.py:2-10 | deposits that are multiples of 2^32, zero included, round-trip exactly, and so does the whole record |
| DataPacking.EncodeDecode | docs/scripts/data_packing.py:2-10 | for every word, of any size, encode(decode(w)) == w: decoding loses no bit |
| DataPacking.FieldsIndependent | docs/scripts/data_packing.py:2-9 | with in-range inputs, changing one input changes only that field of the decoded record |
| DataPacking.DecodeIdempotent | docs/scripts/data_packing.py:2-10 | encoding a decoded record and decoding it again gives the same record |
| DataPacking.MainExample | docs/scripts/data_packing.py:12-20 | on main's constants, the round trip returns the timestamp and flow rate unchanged and the deposits 5677999999997114843136 and 9011999999997109075968 |
| Bits.OrBit | docs/scripts/data_packing.py:3 | each binary digit of the OR of a and b is 1 exactly when that digit of a or of b is 1 |
| Bits.AndBit | docs/scripts/data_packing.py:7-9 | each binary digit of `a & b` is 1 exactly when that digit of a and of b is 1 |
| Bits.AndLowMask | docs/scripts/data_packing.py:7-9 | `x & (2**k - 1)` keeps exactly the k low binary digits of x |
| Bits.LowMod | docs/scripts/data_packing.py:7-9 | the k low binary digits of x are x modulo 2^k |
| Bits.ShlMul | docs/scripts/data_packing.py:3 | `x << k` is x times 2^k |
| Bits.ShrDiv | docs/scripts/data_packing.py:6 | `x >> k` is x divided by 2^k, rounded down |
| Bits.ShrShlLow | docs/scripts/data_packing.py:3 | `(x >> k) << k` plus the k low digits of x is x |
| Bits.OrShifted | docs/scripts/data_packing.py:3 | the OR of `x << k` and y is `(x << k) + y` when y is below 2^k |
| Bits.AdjacentFields | docs/scripts/data_packing.py:3 | the OR of `hi << t` and `lo << s` is `((hi << (t - s)) + lo) << s` when lo fits in the t - s bits between them |
| Bits.ShlAddSplit | docs/scripts/data_packing.py:6-9 | `(hi << k) + lo` with lo below 2^k splits back into hi (by `>> k`) and lo (by its k low digits) |
| Bits.ShlMultiple | docs/scripts/data_packing.py:8-9 | `x << k` is a multiple of 2^k |

## Left out

- Encode: carries no precondition and no postcondition of its own. The Python function checks no range, so the field widths are requires clauses of EncodeLayout, EncodeFits, DecodeEncode and the lemmas built on them. What encode computes is stated by EncodeLayout.
- The test harness test/ConstantFlowDistributionAgreement.test.js is not part of this model. It deploys a contract whose source is not available, calls it over the network and only logs the results.
- The FlowSubscriptionData record and the unit-count fields are not part of this model. They appear only as inputs to that contract, and the code gives them no bit layout.
- main's printing and hexadecimal formatting (docs/scripts/data_packing.py:22-30) are console output. main's constants are checked by MainExample.
- Negative or signed values are not modelled. The code has no sign handling, so every field is a natural number.
