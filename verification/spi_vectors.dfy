/**
 * The SPI test-vector builder (`SPI2CSV`): an output buffer of vector entries that `w`,
 * `wReset`, `wCommentLine` and `flush` extend or reset, a pin-state map that `pinDeposit`
 * updates, and `writeCSV`, which renders the buffer as the lines of a CSV file.
 *
 * Pin levels are kept as integers: the source stores Python booleans and the 0/1 results of
 * `__b10` in the same maps, and reads them back by truthiness (level != 0).
 */
module SpiVectors {
  import opened Numerals
  import opened SpiEncoding
  import opened CsvText

  /** One address entry of a register: `[address, rw, base, wordsize]`. */
  datatype Field = Field(address: nat, rw: string, base: nat, wordsize: nat)

  /** A `regDict` value; an empty address list is None. */
  datatype Reg = Reg(acacia: Option<Field>, spi: Option<Field>, help: string, omit: nat)

  /** The command part of a `w` entry. */
  datatype Command = Command(chipID: nat, command: nat, payload: nat, mask: nat, idType: nat)

  /**
   * One entry of the output buffer: a `{'commentLine': ...}` entry, or a vector with its pin
   * levels, its clock entry, and (first entry of `w`) a command and (first entry of `w` and
   * `wReset`) a comment. No operation sets the `measure` and `repeat` keys.
   */
  datatype Entry =
    | CommentLine(text: string)
    | Vector(pins: map<string, int>, sclk: string, cmd: Option<Command>, comment: Option<string>)

  /** The `data` argument of `w`: a register name or a number. */
  datatype Data = Name(key: string) | Number(n: nat)

  /** `'{:d} cycles'.format(clkc)`. */
  function Cycles(clkc: int): string {
    Decimal(clkc) + " cycles"
  }

  /** The pins every vector and the pin state carry: reset, chip enable and the other pins. */
  function Required(p: SpiParam): set<string> {
    {p.rstPin, p.cePin} + set q | q in p.otherPins
  }

  /** The two entries `w` appends: chip enable inactive while clocking, then active and idle. */
  function WLines(p: SpiParam, pinState: map<string, int>, c: Command, clkc: int, comment: string)
    : seq<Entry>
  {
    [Vector(pinState[p.cePin := IntOf(!p.ceActiveHigh)], Cycles(clkc), Some(c), Some(comment)),
     Vector(pinState[p.cePin := IntOf(p.ceActiveHigh)], p.cidle, None, None)]
  }

  /** The two entries `wReset` appends: reset released while clocking, then asserted. */
  function ResetLines(p: SpiParam, pinState: map<string, int>, clkc: int, comment: string)
    : seq<Entry>
  {
    [Vector(pinState[p.cePin := IntOf(!p.ceActiveHigh)][p.rstPin := B10(false, p.rstActiveHigh)],
            Cycles(clkc), None, Some(comment)),
     Vector(pinState[p.cePin := IntOf(p.ceActiveHigh)][p.rstPin := B10(true, p.rstActiveHigh)],
            p.cidle, None, None)]
  }

  // ---------------------------------------------------------------------------------------
  // CSV rendering

  /** The header fields: reset, the other pins, chip enable, then the fixed columns. */
  function HeaderFields(p: SpiParam): (fs: seq<string>)
    ensures |fs| == |p.otherPins| + 12
  {
    [p.rstPin] + p.otherPins +
    [p.cePin, "measure", "repeat", p.clkPin, "din", "mask", "addr_type", "CHIP ID", "CMD",
     "DATA", "Comment"]
  }

  /** `'{:1d}'.format(__b10(level, activeHigh))`, or blank when the entry has no such pin. */
  function PinField(pins: map<string, int>, pin: string, activeHigh: bool): string {
    if pin in pins then FormatInt(B10(pins[pin] != 0, activeHigh), 10, 1) else ""
  }

  /** The pin of pin column k: reset, then the other pins, then chip enable. */
  function ColumnPin(p: SpiParam, k: nat): string
    requires k < |p.otherPins| + 2
  {
    if k == 0 then p.rstPin else if k == |p.otherPins| + 1 then p.cePin else p.otherPins[k - 1]
  }

  /** The active level pin column k is printed against: the other pins count as active high. */
  function ColumnActiveHigh(p: SpiParam, k: nat): bool
    requires k < |p.otherPins| + 2
  {
    if k == 0 then p.rstActiveHigh else if k == |p.otherPins| + 1 then p.ceActiveHigh else true
  }

  /** The pin columns of a vector row. */
  function PinColumns(p: SpiParam, pins: map<string, int>): (fs: seq<string>)
    ensures |fs| == |p.otherPins| + 2
  {
    seq(|p.otherPins| + 2, k requires 0 <= k < |p.otherPins| + 2 =>
      PinField(pins, ColumnPin(p, k), ColumnActiveHigh(p, k)))
  }

  /** The pin columns sit under the header fields that name their pins. */
  lemma PinColumnsUnderHeader(p: SpiParam, k: nat)
    requires k < |p.otherPins| + 2
    ensures HeaderFields(p)[k] == ColumnPin(p, k)
  {
    if 0 < k <= |p.otherPins| {
      assert HeaderFields(p)[k] == ([p.rstPin] + p.otherPins)[k];
    }
  }

  /**
   * Column k of the six DIN columns of a command: packed word, mask, addressing type, chip,
   * command and data.
   */
  function CommandField(c: Command, k: nat): string {
    if k == 0 then HexField(Din(c.chipID, c.command, c.payload, c.idType), 8)
    else if k == 1 then HexField(c.mask, 4)
    else if k == 2 then FormatInt(c.idType, 10, 1)
    else if k == 3 then HexField(c.chipID, 4)
    else if k == 4 then "0b" + FormatInt(c.command, 2, 7)
    else HexField(c.payload, 8)
  }

  /** The six DIN columns of a vector, blank when it carries no command. */
  function CommandFields(cmd: Option<Command>): (fs: seq<string>)
    ensures |fs| == 6
  {
    match cmd
    case None => ["", "", "", "", "", ""]
    case Some(c) => seq(6, k requires 0 <= k < 6 => CommandField(c, k))
  }

  /**
   * The fields of a vector row, column for column under the header: the pin columns, the
   * never-set measure and repeat columns, the clock entry, the DIN columns and the comment.
   */
  function RowFields(p: SpiParam, pins: map<string, int>, sclk: string, cmd: Option<Command>,
                     comment: Option<string>): (fs: seq<string>)
    ensures |fs| == |HeaderFields(p)|
  {
    PinColumns(p, pins) + ["", "", sclk] + CommandFields(cmd) +
    [if comment.Some? then comment.value else ""]
  }

  /** Where each group of columns sits in a vector row. */
  lemma RowFieldsAt(p: SpiParam, pins: map<string, int>, sclk: string, cmd: Option<Command>,
                    comment: Option<string>)
    ensures var fs, n := RowFields(p, pins, sclk, cmd, comment), |p.otherPins|;
      fs[..n + 2] == PinColumns(p, pins) && fs[n + 2] == "" && fs[n + 3] == "" &&
      fs[n + 4] == sclk && fs[n + 5..n + 11] == CommandFields(cmd) &&
      fs[n + 11] == (if comment.Some? then comment.value else "")
  {
    var n := |p.otherPins|;
    var a := PinColumns(p, pins) + ["", "", sclk];
    var b := a + CommandFields(cmd);
    assert b[..n + 2] == PinColumns(p, pins);
    assert b[n + 5..n + 11] == CommandFields(cmd);
  }

  /** The CSV line of one buffer entry. */
  function CsvLine(p: SpiParam, e: Entry): string {
    match e
    case CommentLine(text) => text + "\n"
    case Vector(pins, sclk, cmd, comment) => Join(RowFields(p, pins, sclk, cmd, comment)) + "\n"
  }

  /** One CSV line per buffer entry, in buffer order. */
  function CsvRows(p: SpiParam, buf: seq<Entry>): (rows: seq<string>)
    ensures |rows| == |buf|
    ensures forall k :: 0 <= k < |buf| ==> rows[k] == CsvLine(p, buf[k])
  {
    if buf == [] then []
    else CsvRows(p, buf[..|buf| - 1]) + [CsvLine(p, buf[|buf| - 1])]
  }

  /** The lines `writeCSV` writes for a buffer: the header, then one line per entry. */
  function CsvLines(p: SpiParam, buf: seq<Entry>): (lines: seq<string>)
    ensures |lines| == |buf| + 1
  {
    [Join(HeaderFields(p)) + "\n"] + CsvRows(p, buf)
  }

  /** A bit is printed by `'{:1d}'` as the single character 0 or 1. */
  lemma FormatBit(b: nat)
    requires b <= 1
    ensures FormatInt(b, 10, 1) == if b == 1 then "1" else "0"
  {
    assert Digits(b, 10) == [b];
    assert ZeroPad([b], 1) == [b];
  }

  /** A pin the entry carries is printed as 0 or 1, by whether its level matches the active one. */
  lemma PinFieldBit(pins: map<string, int>, pin: string, activeHigh: bool)
    requires pin in pins
    ensures PinField(pins, pin, activeHigh) == if (pins[pin] != 0) == activeHigh then "1" else "0"
  {
    FormatBit(B10(pins[pin] != 0, activeHigh));
  }

  /** A non-negative number formatted in a base up to 16 holds digits only. */
  lemma FormatNoComma(n: nat, base: nat, width: int)
    requires 2 <= base <= 16
    ensures NoComma(FormatInt(n, base, width))
  {
    FormatDigits(n, base, width);
  }

  lemma PrefixedNoComma(prefix: string, n: nat, base: nat, width: int)
    requires 2 <= base <= 16 && NoComma(prefix)
    ensures NoComma(prefix + FormatInt(n, base, width))
  {
    FormatNoComma(n, base, width);
    NoCommaConcat(prefix, FormatInt(n, base, width));
  }

  lemma CommandFieldNoComma(c: Command, k: nat)
    ensures NoComma(CommandField(c, k))
  {
    if k == 0 {
      PrefixedNoComma("0x", Din(c.chipID, c.command, c.payload, c.idType), 16, 8);
    } else if k == 1 {
      PrefixedNoComma("0x", c.mask, 16, 4);
    } else if k == 2 {
      FormatNoComma(c.idType, 10, 1);
    } else if k == 3 {
      PrefixedNoComma("0x", c.chipID, 16, 4);
    } else if k == 4 {
      PrefixedNoComma("0b", c.command, 2, 7);
    } else {
      PrefixedNoComma("0x", c.payload, 16, 8);
    }
  }

  lemma CommandFieldsNoComma(cmd: Option<Command>)
    ensures FieldsNoComma(CommandFields(cmd))
  {
    if cmd.Some? {
      forall k | 0 <= k < 6 ensures NoComma(CommandField(cmd.value, k)) {
        CommandFieldNoComma(cmd.value, k);
      }
    }
  }

  lemma PinColumnsNoComma(p: SpiParam, pins: map<string, int>)
    ensures FieldsNoComma(PinColumns(p, pins))
  {
    forall k | 0 <= k < |p.otherPins| + 2
      ensures NoComma(PinField(pins, ColumnPin(p, k), ColumnActiveHigh(p, k)))
    {
      if ColumnPin(p, k) in pins {
        PinFieldBit(pins, ColumnPin(p, k), ColumnActiveHigh(p, k));
      }
    }
  }

  /**
   * A vector row has as many columns as the header, and reading the line back by commas gives
   * back its fields, as long as the clock entry and the comment hold no comma.
   */
  lemma RowColumns(p: SpiParam, pins: map<string, int>, sclk: string, cmd: Option<Command>,
                   comment: Option<string>)
    requires NoComma(sclk) && (comment.Some? ==> NoComma(comment.value))
    ensures |RowFields(p, pins, sclk, cmd, comment)| == |HeaderFields(p)|
    ensures Split(Join(RowFields(p, pins, sclk, cmd, comment))) ==
      RowFields(p, pins, sclk, cmd, comment)
  {
    PinColumnsNoComma(p, pins);
    CommandFieldsNoComma(cmd);
    FieldsNoCommaConcat(PinColumns(p, pins), ["", "", sclk]);
    FieldsNoCommaConcat(PinColumns(p, pins) + ["", "", sclk], CommandFields(cmd));
    FieldsNoCommaConcat(PinColumns(p, pins) + ["", "", sclk] + CommandFields(cmd),
                        [if comment.Some? then comment.value else ""]);
    SplitJoin(RowFields(p, pins, sclk, cmd, comment));
  }

  /** Pin column k of a row prints pin ColumnPin(p, k) against its active level. */
  lemma RowPinColumn(p: SpiParam, pins: map<string, int>, sclk: string, cmd: Option<Command>,
                     comment: Option<string>, k: nat)
    requires k < |p.otherPins| + 2
    ensures RowFields(p, pins, sclk, cmd, comment)[k] ==
      PinField(pins, ColumnPin(p, k), ColumnActiveHigh(p, k))
  {
    RowFieldsAt(p, pins, sclk, cmd, comment);
    var fs := RowFields(p, pins, sclk, cmd, comment);
    assert fs[k] == fs[..|p.otherPins| + 2][k];
  }

  /** DIN column k of a row (k < 6) is column k of the command's fields. */
  lemma RowCommandColumn(p: SpiParam, pins: map<string, int>, sclk: string, cmd: Option<Command>,
                         comment: Option<string>, k: nat)
    requires k < 6
    ensures RowFields(p, pins, sclk, cmd, comment)[|p.otherPins| + 5 + k] ==
      CommandFields(cmd)[k]
  {
    RowFieldsAt(p, pins, sclk, cmd, comment);
    var fs, n := RowFields(p, pins, sclk, cmd, comment), |p.otherPins|;
    assert fs[n + 5 + k] == fs[n + 5..n + 11][k];
  }

  /**
   * The CSV rows of the two entries of `w` toggle chip enable: its column reads 0 and then 1,
   * whatever its active level.
   */
  lemma WLinesChipEnable(p: SpiParam, pinState: map<string, int>, c: Command, clkc: int,
                         comment: string)
    ensures var e := WLines(p, pinState, c, clkc, comment);
      RowFields(p, e[0].pins, e[0].sclk, e[0].cmd, e[0].comment)[|p.otherPins| + 1] == "0" &&
      RowFields(p, e[1].pins, e[1].sclk, e[1].cmd, e[1].comment)[|p.otherPins| + 1] == "1"
  {
    var e := WLines(p, pinState, c, clkc, comment);
    var n := |p.otherPins|;
    RowPinColumn(p, e[0].pins, e[0].sclk, e[0].cmd, e[0].comment, n + 1);
    RowPinColumn(p, e[1].pins, e[1].sclk, e[1].cmd, e[1].comment, n + 1);
    PinFieldBit(e[0].pins, p.cePin, p.ceActiveHigh);
    PinFieldBit(e[1].pins, p.cePin, p.ceActiveHigh);
  }

  /**
   * The first CSV row of `w` carries the packed DIN word in hex (DinDecode recovers the four
   * fields from it); the second row carries no command.
   */
  lemma WLinesDin(p: SpiParam, pinState: map<string, int>, c: Command, clkc: int,
                  comment: string)
    ensures var e := WLines(p, pinState, c, clkc, comment);
      RowFields(p, e[0].pins, e[0].sclk, e[0].cmd, e[0].comment)[|p.otherPins| + 5] ==
        HexField(Din(c.chipID, c.command, c.payload, c.idType), 8)
    ensures var e := WLines(p, pinState, c, clkc, comment);
      RowFields(p, e[1].pins, e[1].sclk, e[1].cmd, e[1].comment)
        [|p.otherPins| + 5..|p.otherPins| + 11] == ["", "", "", "", "", ""]
  {
    var e := WLines(p, pinState, c, clkc, comment);
    RowCommandColumn(p, e[0].pins, e[0].sclk, e[0].cmd, e[0].comment, 0);
    RowFieldsAt(p, e[1].pins, e[1].sclk, e[1].cmd, e[1].comment);
  }

  /**
   * The reset column of the two CSV rows of `wReset` reads 0 and then 1, whatever the reset
   * pin's active level.
   */
  lemma ResetLinesReset(p: SpiParam, pinState: map<string, int>, clkc: int, comment: string)
    ensures var e := ResetLines(p, pinState, clkc, comment);
      RowFields(p, e[0].pins, e[0].sclk, e[0].cmd, e[0].comment)[0] == "0" &&
      RowFields(p, e[1].pins, e[1].sclk, e[1].cmd, e[1].comment)[0] == "1"
  {
    var e := ResetLines(p, pinState, clkc, comment);
    RowPinColumn(p, e[0].pins, e[0].sclk, e[0].cmd, e[0].comment, 0);
    RowPinColumn(p, e[1].pins, e[1].sclk, e[1].cmd, e[1].comment, 0);
    B10Twice(false, p.rstActiveHigh);
    B10Twice(true, p.rstActiveHigh);
    PinFieldBit(e[0].pins, p.rstPin, p.rstActiveHigh);
    PinFieldBit(e[1].pins, p.rstPin, p.rstActiveHigh);
  }

  /**
   * The chip-enable column of the two CSV rows of `wReset` reads 0 and then 1, whatever its
   * active level, provided reset and chip enable are different pins.
   */
  lemma ResetLinesChipEnable(p: SpiParam, pinState: map<string, int>, clkc: int, comment: string)
    requires p.rstPin != p.cePin
    ensures var e := ResetLines(p, pinState, clkc, comment);
      RowFields(p, e[0].pins, e[0].sclk, e[0].cmd, e[0].comment)[|p.otherPins| + 1] == "0" &&
      RowFields(p, e[1].pins, e[1].sclk, e[1].cmd, e[1].comment)[|p.otherPins| + 1] == "1"
  {
    var e := ResetLines(p, pinState, clkc, comment);
    var n := |p.otherPins|;
    assert e[0].pins[p.cePin] == IntOf(!p.ceActiveHigh);
    assert e[1].pins[p.cePin] == IntOf(p.ceActiveHigh);
    RowPinColumn(p, e[0].pins, e[0].sclk, e[0].cmd, e[0].comment, n + 1);
    RowPinColumn(p, e[1].pins, e[1].sclk, e[1].cmd, e[1].comment, n + 1);
    PinFieldBit(e[0].pins, p.cePin, p.ceActiveHigh);
    PinFieldBit(e[1].pins, p.cePin, p.ceActiveHigh);
  }

  // ---------------------------------------------------------------------------------------
  // The builder

  /**
   * One step of the population loop over the pins still to visit (todo): a pin the entry does
   * not set takes its level from the state, a pin it sets keeps the entry's level.
   */
  lemma PopulateStep(state: map<string, int>, over: map<string, int>, todo: set<string>,
                     pin: string)
    requires pin in todo && todo <= state.Keys
    ensures pin in (state - todo) + over <==> pin in over
    ensures pin !in over ==>
      ((state - todo) + over)[pin := state[pin]] == (state - (todo - {pin})) + over
    ensures pin in over ==> (state - todo) + over == (state - (todo - {pin})) + over
  {
    var a, b := (state - todo) + over, (state - (todo - {pin})) + over;
    if pin !in over {
      assert a[pin := state[pin]].Keys == b.Keys;
    } else {
      assert a.Keys == b.Keys;
    }
  }

  /** One step of `pinDeposit`: the pin visited takes its new level. */
  lemma DepositStep(state: map<string, int>, pinDict: map<string, int>, todo: set<string>,
                    pin: string)
    requires pin in todo && todo <= pinDict.Keys
    ensures (state + (pinDict - todo))[pin := pinDict[pin]] ==
      state + (pinDict - (todo - {pin}))
  {
    var a, b := (state + (pinDict - todo))[pin := pinDict[pin]], state + (pinDict - (todo - {pin}));
    assert a.Keys == b.Keys;
  }

  /** Python's `dict` literal merged over the state: the literal's pins win. */
  lemma OverrideOne(state: map<string, int>, k: string, v: int)
    ensures state + map[k := v] == state[k := v]
  {
  }

  lemma OverrideTwo(state: map<string, int>, k1: string, v1: int, k2: string, v2: int)
    ensures state + map[k1 := v1, k2 := v2] == state[k1 := v1][k2 := v2]
  {
    var a, b := state + map[k1 := v1, k2 := v2], state[k1 := v1][k2 := v2];
    assert a.Keys == b.Keys;
  }

  lemma NothingLeft(state: map<string, int>, over: map<string, int>)
    ensures (state - {}) + over == state + over
  {
    assert state - {} == state;
  }

  /**
   * Lines 235-239 and 324-328: fills the two entry pin maps with the level of every pin of the
   * pin state that they do not set themselves.
   */
  method PopulateOtherPins(state: map<string, int>, pins0: map<string, int>,
                           pins1: map<string, int>)
    returns (p0: map<string, int>, p1: map<string, int>)
    requires pins0.Keys == pins1.Keys
    ensures p0 == state + pins0 && p1 == state + pins1
  {
    p0, p1 := pins0, pins1;
    var todo := state.Keys;
    assert (state - todo) + pins0 == pins0 && (state - todo) + pins1 == pins1;
    while todo != {}
      invariant todo <= state.Keys
      invariant p0 == (state - todo) + pins0
      invariant p1 == (state - todo) + pins1
      decreases |todo|
    {
      var pin :| pin in todo;
      PopulateStep(state, pins0, todo, pin);
      PopulateStep(state, pins1, todo, pin);
      if pin !in p0 {
        p0 := p0[pin := state[pin]];
        p1 := p1[pin := state[pin]];
      }
      todo := todo - {pin};
    }
    NothingLeft(state, pins0);
    NothingLeft(state, pins1);
  }

  /** A CSV line grown field by field with `oline + ',' + field`, as `writeCSV` does. */
  method JoinFields(fs: seq<string>) returns (line: string)
    requires |fs| >= 1
    ensures line == Join(fs)
  {
    line := fs[0];
    assert line == Join(fs[..1]);
    for k := 0 to |fs| - 1
      invariant line == Join(fs[..k + 1])
    {
      JoinPrefix(fs, k);
      line := line + "," + fs[k + 1];
    }
    assert fs[..|fs|] == fs;
  }

  class Spi2Csv {
    const spiParam: SpiParam
    const cmdDict: map<string, nat>
    const regDict: map<string, Reg>
    var oBuf: seq<Entry>
    var pinState: map<string, int>

    /**
     * The pin state covers every pin of the header, and so does every vector in the buffer:
     * no pin column of a vector row is ever blank.
     */
    ghost predicate Valid()
      reads this
    {
      Required(spiParam) <= pinState.Keys &&
      forall e :: e in oBuf && e.Vector? ==> Required(spiParam) <= e.pins.Keys
    }

    /** `__init__`: an empty buffer, and reset, chip enable and every other pin at level 0. */
    constructor(p: SpiParam, cmds: map<string, nat>, regs: map<string, Reg>)
      ensures spiParam == p && cmdDict == cmds && regDict == regs
      ensures oBuf == [] && pinState.Keys == Required(p)
      ensures forall q :: q in pinState ==> pinState[q] == 0
      ensures Valid()
    {
      spiParam, cmdDict, regDict := p, cmds, regs;
      oBuf := [];
      var pins := map[p.rstPin := 0, p.cePin := 0];
      for i := 0 to |p.otherPins|
        invariant pins.Keys == {p.rstPin, p.cePin} + set q | q in p.otherPins[..i]
        invariant forall q :: q in pins ==> pins[q] == 0
      {
        assert p.otherPins[..i + 1] == p.otherPins[..i] + [p.otherPins[i]];
        pins := pins[p.otherPins[i] := 0];
      }
      assert p.otherPins[..|p.otherPins|] == p.otherPins;
      pinState := pins;
    }

    /** The payload of `w`: the number, or the SPI address of the named register. */
    function Payload(data: Data): (r: Result<nat>)
      ensures data.Number? ==> r == Ok(data.n)
      ensures data.Name? && data.key !in regDict ==> r == Err(KeyError(data.key))
      ensures data.Name? && data.key in regDict && regDict[data.key].spi.None? ==> r == Err(IndexError)
      ensures data.Name? && data.key in regDict && regDict[data.key].spi.Some? ==>
        r == Ok(regDict[data.key].spi.value.address)
    {
      match data
      case Number(n) => Ok(n)
      case Name(key) =>
        if key !in regDict then Err(KeyError(key))
        else if regDict[key].spi.None? then Err(IndexError)
        else Ok(regDict[key].spi.value.address)
    }

    /**
     * `w`: appends the two entries of one SPI transaction. A command missing from `cmdDict`,
     * a register missing from `regDict` or a register without an SPI address raises, and the
     * buffer is left as it was. The source's defaults make a call `w(id, cmd)` the call
     * W(id, cmd, Number(0), 0, 32, "", 1).
     */
    method W(id: nat, cmd: string, data: Data, mask: nat, clkc: int, comment: string, idType: nat)
      returns (r: Result<seq<Entry>>)
      requires Valid()
      modifies this
      ensures Valid() && pinState == old(pinState)
      ensures cmd !in cmdDict ==> r == Err(KeyError(cmd)) && oBuf == old(oBuf)
      ensures cmd in cmdDict && Payload(data).Err? ==>
        r == Err(Payload(data).error) && oBuf == old(oBuf)
      ensures cmd in cmdDict && Payload(data).Ok? ==>
        oBuf == old(oBuf) + WLines(spiParam, pinState,
          Command(id, cmdDict[cmd], Payload(data).value, mask, idType), clkc, comment) &&
        r == Ok(oBuf)
    {
      var ce := spiParam.cePin;
      var pins0, pins1 := PopulateOtherPins(pinState, map[ce := IntOf(!spiParam.ceActiveHigh)],
                                            map[ce := IntOf(spiParam.ceActiveHigh)]);
      OverrideOne(pinState, ce, IntOf(!spiParam.ceActiveHigh));
      OverrideOne(pinState, ce, IntOf(spiParam.ceActiveHigh));
      var sclk0 := Cycles(clkc);
      if cmd !in cmdDict {
        return Err(KeyError(cmd));
      }
      var command := cmdDict[cmd];
      var payload := Payload(data);
      if payload.Err? {
        return Err(payload.error);
      }
      var lines := [Vector(pins0, sclk0, Some(Command(id, command, payload.value, mask, idType)),
                           Some(comment)),
                    Vector(pins1, spiParam.cidle, None, None)];
      oBuf := oBuf + lines;
      r := Ok(oBuf);
    }

    /** `wReset`: appends the two entries of a reset pulse (defaults clkc = 1300, comment = ''). */
    method WReset(clkc: int, comment: string) returns (buf: seq<Entry>)
      requires Valid()
      modifies this
      ensures Valid() && pinState == old(pinState)
      ensures oBuf == old(oBuf) + ResetLines(spiParam, pinState, clkc, comment) && buf == oBuf
    {
      var ce, rst := spiParam.cePin, spiParam.rstPin;
      var pins0, pins1 := PopulateOtherPins(pinState,
        map[ce := IntOf(!spiParam.ceActiveHigh), rst := B10(false, spiParam.rstActiveHigh)],
        map[ce := IntOf(spiParam.ceActiveHigh), rst := B10(true, spiParam.rstActiveHigh)]);
      OverrideTwo(pinState, ce, IntOf(!spiParam.ceActiveHigh),
                  rst, B10(false, spiParam.rstActiveHigh));
      OverrideTwo(pinState, ce, IntOf(spiParam.ceActiveHigh),
                  rst, B10(true, spiParam.rstActiveHigh));
      var lines := [Vector(pins0, Cycles(clkc), None, Some(comment)),
                    Vector(pins1, spiParam.cidle, None, None)];
      oBuf := oBuf + lines;
      buf := oBuf;
    }

    /**
     * `pinDeposit`: every pin of pinDict takes its new level, a pin the state did not know
     * included (the source only prints an error for it); every other pin keeps its level.
     */
    method PinDeposit(pinDict: map<string, int>) returns (state: map<string, int>)
      requires Valid()
      modifies this
      ensures Valid() && oBuf == old(oBuf)
      ensures pinState == old(pinState) + pinDict && state == pinState
    {
      var todo := pinDict.Keys;
      assert pinState == old(pinState) + (pinDict - todo);
      while todo != {}
        invariant todo <= pinDict.Keys && Valid() && oBuf == old(oBuf)
        invariant pinState == old(pinState) + (pinDict - todo)
        decreases |todo|
      {
        var pin :| pin in todo;
        DepositStep(old(pinState), pinDict, todo, pin);
        pinState := pinState[pin := pinDict[pin]];
        todo := todo - {pin};
      }
      assert pinDict - todo == pinDict;
      state := pinState;
    }

    /** `wCommentLine`: appends one comment entry. */
    method WCommentLine(line: string) returns (buf: seq<Entry>)
      requires Valid()
      modifies this
      ensures Valid() && pinState == old(pinState)
      ensures oBuf == old(oBuf) + [CommentLine(line)] && buf == oBuf
    {
      oBuf := oBuf + [CommentLine(line)];
      buf := oBuf;
    }

    /** `flush`: empties the buffer. */
    method Flush() returns (buf: seq<Entry>)
      requires Valid()
      modifies this
      ensures Valid() && pinState == old(pinState)
      ensures oBuf == [] && buf == []
    {
      oBuf := [];
      buf := oBuf;
    }

    /** The first line of the CSV file (lines 344-350). */
    method Header() returns (line: string)
      ensures line == Join(HeaderFields(spiParam)) + "\n"
    {
      line := JoinFields(HeaderFields(spiParam));
      line := line + "\n";
    }

    /** The line of one buffer entry (lines 356-413). */
    method Row(e: Entry) returns (line: string)
      ensures line == CsvLine(spiParam, e)
    {
      if e.CommentLine? {
        return e.text + "\n";
      }
      line := JoinFields(RowFields(spiParam, e.pins, e.sclk, e.cmd, e.comment));
      line := line + "\n";
    }

    /** `writeCSV`: the header line, then one line per buffer entry (the file write left out). */
    method WriteCsv() returns (lines: seq<string>)
      ensures lines == CsvLines(spiParam, oBuf)
    {
      var header := Header();
      lines := [header];
      for k := 0 to |oBuf|
        invariant lines == CsvLines(spiParam, oBuf[..k])
      {
        var row := Row(oBuf[k]);
        assert oBuf[..k + 1][..k] == oBuf[..k];
        lines := lines + [row];
      }
      assert oBuf[..|oBuf|] == oBuf;
    }

    /** In a valid builder every pin column of every vector row reads 0 or 1, never blank. */
    lemma PinColumnsFilled(k: nat, j: nat)
      requires Valid() && k < |oBuf| && oBuf[k].Vector? && j < |spiParam.otherPins| + 2
      ensures var e := oBuf[k];
        RowFields(spiParam, e.pins, e.sclk, e.cmd, e.comment)[j] == "0" ||
        RowFields(spiParam, e.pins, e.sclk, e.cmd, e.comment)[j] == "1"
    {
      var e := oBuf[k];
      var p := spiParam;
      assert e in oBuf;
      if 0 < j <= |p.otherPins| {
        assert p.otherPins[j - 1] in set q | q in p.otherPins;
      }
      assert ColumnPin(p, j) in e.pins;
      PinFieldBit(e.pins, ColumnPin(p, j), ColumnActiveHigh(p, j));
      RowPinColumn(p, e.pins, e.sclk, e.cmd, e.comment, j);
    }
  }
}
