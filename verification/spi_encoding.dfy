/**
 * The pure encoders of the SPI test-vector builder: the active-level mapping `__b10`,
 * the word formatter `i2hexStr` (optionally bit-reversed for LSB-first links) and the
 * 32-bit DIN word that `writeCSV` packs from chip ID, command, payload and addressing type.
 */
module SpiEncoding {
  import opened Numerals

  /** The interface parameters (`spiParam`). */
  datatype SpiParam = SpiParam(
    rstPin: string,
    cePin: string,
    clkPin: string,
    otherPins: seq<string>,
    ceActiveHigh: bool,
    rstActiveHigh: bool,
    cidle: string,        // the idle clock entry, as `str()` prints it
    lsbFirst: bool,
    wordsize: nat)

  /** The Python exceptions the builder can raise. */
  datatype Error = KeyError(key: string) | IndexError | ValueError

  datatype Result<T> = Ok(value: T) | Err(error: Error)

  /** `__b10`: 1 when the logical value i matches the active level xnor, else 0. */
  function B10(i: bool, xnor: bool): (r: nat)
    ensures r <= 1
    ensures r == 1 <==> i == xnor
  {
    if i then (if xnor then 1 else 0) else (if xnor then 0 else 1)
  }

  /** Python's `int(b)` for a pin level stored as a bool. */
  function IntOf(b: bool): nat {
    if b then 1 else 0
  }

  /**
   * Mapping a level through `__b10` twice with the same active level gives back the
   * logical value: what `wReset` stores for the reset pin, `writeCSV` prints as the
   * logical reset value (levels are read by truthiness, level != 0).
   */
  lemma B10Twice(b: bool, activeHigh: bool)
    ensures B10(B10(b, activeHigh) != 0, activeHigh) == IntOf(b)
  {
  }

  // ---------------------------------------------------------------------------------------
  // i2hexStr

  /**
   * The bit reversal of lines 53-54 on a non-negative number: the binary digits of i,
   * zero-padded to wordsize, read backwards.
   */
  function BitReverse(i: nat, wordsize: nat): nat {
    Value(Reverse(ZeroPad(Digits(i, 2), wordsize)), 2)
  }

  /**
   * `int('{:0{w}b}'.format(i)[::-1], 2)`; None where Python raises ValueError
   * (a negative i: the reversed string ends in '-').
   */
  function ReverseBits(i: int, wordsize: nat): Option<nat> {
    ParseInt(Reverse(FormatInt(i, 2, wordsize)), 2)
  }

  /** `i2hexStr`: "0x" and the upper-case hex digits of the (possibly bit-reversed) word. */
  function I2HexStr(p: SpiParam, i: int): Result<string> {
    if p.lsbFirst then
      match ReverseBits(i, p.wordsize)
      case None => Err(ValueError)
      case Some(b) => Ok(HexField(b, p.wordsize / 4))
    else
      Ok(HexField(i, p.wordsize / 4))
  }

  /** `'0x{:0{width}X}'.format(b)`. */
  function HexField(b: int, width: int): string {
    "0x" + FormatInt(b, 16, width)
  }

  /** The reversal fails exactly on negative input and otherwise computes BitReverse. */
  lemma ReverseBitsSpec(i: int, wordsize: nat)
    ensures i < 0 ==> ReverseBits(i, wordsize) == None
    ensures i >= 0 ==> ReverseBits(i, wordsize) == Some(BitReverse(i, wordsize))
  {
    var s := FormatInt(i, 2, wordsize);
    if i < 0 {
      var r := Reverse(s);
      assert r[|r| - 1] == '-';
      assert CharDigit(r[|r| - 1]) >= 2;
    } else {
      var ds := ZeroPad(Digits(i, 2), wordsize);
      assert Reverse(s) == Render(Reverse(ds));
      ParseRender(Reverse(ds), 2);
    }
  }

  /**
   * Reversing a word of wordsize bits twice gives it back, and the reversal stays in range.
   * With wordsize 0 the only word is 0, which Python formats as "0" and reverses to 0.
   */
  lemma BitReverseInvolution(i: nat, wordsize: nat)
    requires i < Pow(2, wordsize)
    ensures BitReverse(i, wordsize) < Pow(2, wordsize)
    ensures BitReverse(BitReverse(i, wordsize), wordsize) == i
  {
    if wordsize == 0 {
      assert i == 0 && Digits(0, 2) == [0];
      assert ZeroPad([0], 0) == [0] && Reverse([0]) == [0];
      assert Value([0], 2) == 0;
      return;
    }
    var ds := ZeroPad(Digits(i, 2), wordsize);
    assert |ds| == wordsize && AllBelow(ds, 2) by {
      DigitsLength(i, 2, wordsize);
      PaddedDigitsBelow(Digits(i, 2), wordsize, 2);
    }
    assert Value(ds, 2) == i by {
      ValueZeroPad(Digits(i, 2), wordsize, 2);
      ValueOfDigits(i, 2);
    }
    ReverseTwice(ds);
  }

  /** Reading a digit string backwards, re-padding and reading backwards again is the identity. */
  lemma ReverseTwice(ds: seq<nat>)
    requires |ds| >= 1 && AllBelow(ds, 2)
    ensures Value(Reverse(ds), 2) < Pow(2, |ds|)
    ensures Value(Reverse(ZeroPad(Digits(Value(Reverse(ds), 2), 2), |ds|)), 2) == Value(ds, 2)
  {
    var r := Reverse(ds);
    assert AllBelow(r, 2);
    ValueBound(r, 2);
    DigitsOfValue(r, 2);
    ReverseReverse(ds);
  }

  /**
   * On an LSB-first link, the bit-reversed word is printed as the MSB-first link prints
   * the word itself: the two settings agree up to the reversal.
   */
  lemma I2HexStrLsbFirst(p: SpiParam, i: nat)
    requires p.lsbFirst && i < Pow(2, p.wordsize)
    ensures I2HexStr(p, BitReverse(i, p.wordsize)) == I2HexStr(p.(lsbFirst := false), i)
  {
    ReverseBitsSpec(BitReverse(i, p.wordsize), p.wordsize);
    BitReverseInvolution(i, p.wordsize);
  }

  /** The word i2hexStr prints: i itself, or its bit reversal on an LSB-first link. */
  function PrintedWord(p: SpiParam, i: int): int {
    if p.lsbFirst && i >= 0 then BitReverse(i, p.wordsize) else i
  }

  /** i2hexStr fails exactly for a negative word on an LSB-first link. */
  lemma I2HexStrFails(p: SpiParam, i: int)
    ensures I2HexStr(p, i).Err? <==> p.lsbFirst && i < 0
  {
    ReverseBitsSpec(i, p.wordsize);
  }

  /**
   * A hex field of a non-negative b is "0x" and at least width upper-case hex digits that
   * parse back to b.
   */
  lemma HexFieldShape(b: nat, width: int)
    ensures |HexField(b, width)| >= 2 + width && HexField(b, width)[..2] == "0x"
    ensures forall k :: 2 <= k < |HexField(b, width)| ==> IsUpperHexDigit(HexField(b, width)[k])
    ensures ParseInt(HexField(b, width)[2..], 16) == Some(b)
  {
    var f := FormatInt(b, 16, width);
    var s := HexField(b, width);
    assert s[2..] == f;
    FormatLength(b, 16, width);
    FormatDigits(b, 16, width);
    FormatParse(b, 16, width);
    assert forall k :: 2 <= k < |s| ==> s[k] == f[k - 2];
  }

  /**
   * A hex field of a negative b is "0x-" and then the digits of -b, one column narrower
   * (so FormatParse recovers -b from it).
   */
  lemma HexFieldNegative(b: int, width: int)
    requires b < 0
    ensures HexField(b, width) == "0x-" + FormatInt(-b, 16, width - 1)
  {
    FormatNegative(b, 16, width);
  }

  /** Whenever it succeeds, i2hexStr prints the hex field of the (possibly reversed) word. */
  lemma I2HexStrPrints(p: SpiParam, i: int)
    requires !(p.lsbFirst && i < 0)
    ensures I2HexStr(p, i) == Ok(HexField(PrintedWord(p, i), p.wordsize / 4))
  {
    ReverseBitsSpec(i, p.wordsize);
  }

  // ---------------------------------------------------------------------------------------
  // DIN packing

  /** Python's `|` on non-negative integers, bit by bit from the least significant. */
  function Or(a: nat, b: nat): nat
    decreases a + b
  {
    if a == 0 then b
    else if b == 0 then a
    else 2 * Or(a / 2, b / 2) + (if a % 2 == 1 || b % 2 == 1 then 1 else 0)
  }

  lemma {:induction false} OrComm(a: nat, b: nat)
    ensures Or(a, b) == Or(b, a)
    decreases a + b
  {
    if a != 0 && b != 0 {
      OrComm(a / 2, b / 2);
    }
  }

  /** OR with a number whose low k bits are clear adds: the bit ranges are disjoint. */
  lemma {:induction false} OrDisjoint(a: nat, c: nat, k: nat)
    requires a < Pow(2, k)
    ensures Or(a, c * Pow(2, k)) == a + c * Pow(2, k)
    decreases k
  {
    if k > 0 && a != 0 && c != 0 {
      var h := Pow(2, k - 1);
      var b := c * Pow(2, k);
      assert b == 2 * (c * h);
      assert b / 2 == c * h && b % 2 == 0;
      OrDisjoint(a / 2, c, k - 1);
    }
  }

  /** `din = chipID<<1 | command<<9 | payload<<16 | IDType` (line 393). */
  function Din(chipID: nat, command: nat, payload: nat, idType: nat): nat {
    Or(Or(Or(chipID * 2, command * 512), payload * 65536), idType)
  }

  /** The field limits `writeCSV` checks before packing (lines 384-391). */
  predicate DinFieldsFit(chipID: nat, command: nat, payload: nat, idType: nat) {
    idType <= 1 && payload <= 0xFFFF && command <= 0x7F && chipID <= 0xFF
  }

  /** Within the limits the four fields occupy disjoint bit ranges: OR is a sum, below 2^32. */
  lemma DinIsSum(chipID: nat, command: nat, payload: nat, idType: nat)
    requires DinFieldsFit(chipID, command, payload, idType)
    ensures Din(chipID, command, payload, idType) ==
      idType + chipID * 2 + command * 512 + payload * 65536
    ensures Din(chipID, command, payload, idType) < 0x1_0000_0000
  {
    assert Pow(2, 1) == 2 && Pow(2, 9) == 512 && Pow(2, 16) == 65536;
    var x1 := chipID * 2 + command * 512;
    assert Or(chipID * 2, command * 512) == x1 by {
      OrDisjoint(chipID * 2, command, 9);
    }
    var x2 := x1 + payload * 65536;
    assert Or(x1, payload * 65536) == x2 by {
      OrDisjoint(x1, payload, 16);
    }
    var high := chipID + command * 256 + payload * 32768;
    assert x2 == high * 2;
    assert Or(x2, idType) == idType + x2 by {
      OrComm(x2, idType);
      OrDisjoint(idType, high, 1);
    }
  }

  /** Within the limits every field decodes back from the DIN word. */
  lemma DinDecode(chipID: nat, command: nat, payload: nat, idType: nat)
    requires DinFieldsFit(chipID, command, payload, idType)
    ensures Din(chipID, command, payload, idType) % 2 == idType
    ensures Din(chipID, command, payload, idType) / 2 % 256 == chipID
    ensures Din(chipID, command, payload, idType) / 512 % 128 == command
    ensures Din(chipID, command, payload, idType) / 65536 == payload
  {
    DinIsSum(chipID, command, payload, idType);
    var din := Din(chipID, command, payload, idType);
    var low := chipID * 2 + idType;
    assert din == (chipID + command * 256 + payload * 32768) * 2 + idType;
    DivModUnique(chipID + command * 256 + payload * 32768, idType, 2);
    DivModUnique(command + payload * 128, chipID, 256);
    assert din == (command + payload * 128) * 512 + low;
    DivModUnique(command + payload * 128, low, 512);
    DivModUnique(payload, command, 128);
    assert din == payload * 65536 + (low + command * 512);
    DivModUnique(payload, low + command * 512, 65536);
  }
}
