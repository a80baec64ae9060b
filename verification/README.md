# Artwork stripe scanner and SPI test-vector builder, in Dafny

This project models two small tools and proves properties of the models.

**The AP-layer artwork converter** (`AP_art/AL_AP_artwork_stripes.py`) turns a
thresholded raster into rectangles that obey two design rules.
- The raster `ka1[x, y]` has 10 oversampled columns per 5 um stripe and 0.5 um cells.
- Once per stripe, the converter scans column `10 * iq` with a two-state automaton:
  - `gap_pol` holds the polarity, feature or gap;
  - `gap_counter` is a run counter that starts at 4.
- The run counter restarts at 0 on every change of state. A feature that would close when it
  is at most `DRC_WIDTH` um wide is healed, and one that would open at most `DRC_GAP` um
  after the previous feature is suppressed. Accepted features and gaps are therefore at least
  `2*DRC_WIDTH+1` and `2*DRC_GAP+1` cells long.
- The stripe's first run is the exception: the counter starts at 4, so a feature that starts
  at cell 0 can close after 2 cells (1 um), and a stripe that starts with a gap can open its
  first feature after a single background cell. The gap rule therefore bounds only the gaps
  between features, not the leading gap.
- The polarity after every cell is written into `kd[iq, y]` as 0 or 255.
- Every feature run that closes is appended to the boundary list as a nanometre rectangle.
- Columns outside the first `2*DRC_WIDTH` of each stripe are then cleared. The preview
  raster uses the same mask.

Where the model sits:
- `StripeAutomaton` holds the automaton as pure functions: `Step`, `StateAfter`, the cleaned
  row `Cleaned`, the accepted `Segments` and the `Boundary` list. Its lemmas state the
  design rules.
- `Artwork` is the imperative scan over `array2` values. Its loops are proved against those
  functions.

**The SPI test-vector builder** (`SPIboy/src/SPI2CSV.py`, class `SPI2CSV`) keeps an output
buffer of vector entries and a pin-state map.
- `w` appends the two entries of one SPI transaction.
- `wReset` appends the two entries of a reset pulse.
- `wCommentLine` appends a comment entry, and `flush` empties the buffer.
- `pinDeposit` sets pin levels.
- `writeCSV` renders the buffer as CSV lines. For each entry it prints the pin columns
  against their active levels, the clock entry, the packed 32-bit DIN word with its fields,
  and the comment.
- `writeRegDict` lists the registers. Rows flagged as omitted are compacted into summary
  rows.

The modules are:
- `SpiEncoding`: `__b10`, `i2hexStr` and the DIN packing.
- `SpiVectors`: the buffer entries, the CSV rows and the class `Spi2Csv`.
- `RegListing`: the omit compaction.
- `CsvText`: the comma-joined lines.
- `Numerals`: Python's integer formatting and parsing.

## Model

| member | source | states |
|---|---|---|
| StripeAutomaton.Cleaned | AP_art/AL_AP_artwork_stripes.py:50-78 | the cleaned row has one cell per scanned cell; cell j is the polarity after cell j |
| StripeAutomaton.TracksStep | AP_art/AL_AP_artwork_stripes.py:50-78 | one step of the automaton keeps its counter invariant and keeps the closed segments within the width and gap rules |
| StripeAutomaton.ConsistentAfter | AP_art/AL_AP_artwork_stripes.py:46-78 | after any prefix of the stripe, the counter and the closed segments satisfy the rule invariant |
| StripeAutomaton.SegmentsRuleCompliant | AP_art/AL_AP_artwork_stripes.py:44-72 | every segment has y0 < y1 < stripe length; a mid-stripe segment spans at least 2*DRC_WIDTH+1 cells; the initial run ends at cell 2 or later; consecutive segments are at least 2*DRC_GAP+1 cells apart |
| StripeAutomaton.CompliantOrdered | AP_art/AL_AP_artwork_stripes.py:57-72 | in a rule-compliant list, every earlier segment ends before any later one starts |
| StripeAutomaton.SegmentsOrdered | AP_art/AL_AP_artwork_stripes.py:57-72 | the segments of a stripe are pairwise disjoint and strictly increasing |
| StripeAutomaton.OpenRunInCleaned | AP_art/AL_AP_artwork_stripes.py:53-61 | while a feature is open, the cleaned row is foreground from its start y0 and background just before y0 |
| StripeAutomaton.SegmentsAreClosedRunsUpTo | AP_art/AL_AP_artwork_stripes.py:50-78 | the segments closed within the first n cells are exactly the maximal foreground runs of the cleaned row that end before cell n |
| StripeAutomaton.SegmentsAreClosedRuns | AP_art/AL_AP_artwork_stripes.py:50-78 | the segments are exactly the maximal 255-runs of the cleaned row that are followed by a background cell; a run still open at the last cell is never emitted |
| StripeAutomaton.Overrides | AP_art/AL_AP_artwork_stripes.py:57-75 | a cleaned cell differs from the observed cell exactly when the step heals or suppresses; healing renders foreground, suppression renders background, and both only increment the counter |
| StripeAutomaton.StepOnRendered | AP_art/AL_AP_artwork_stripes.py:51-78 | feeding a step the cell it renders gives the same step |
| StripeAutomaton.SameStatesOnCleaned | AP_art/AL_AP_artwork_stripes.py:50-78 | scanning the cleaned row passes through the same states and closes the same segments as scanning the raw column |
| StripeAutomaton.CleanIdempotent | AP_art/AL_AP_artwork_stripes.py:50-78 | cleaning a cleaned row changes nothing, and the cleaned row yields the same segments |
| StripeAutomaton.StripeRectsShaped | AP_art/AL_AP_artwork_stripes.py:72 | the rectangles of stripe iq have x0 = 5000*iq and x1 - x0 = DRC_WIDTH*1000; 0 <= y0 < y1; increasing y order without overlap |
| StripeAutomaton.AppendStripe | AP_art/AL_AP_artwork_stripes.py:37-72 | appending the next stripe's rectangles keeps the boundary list shaped and ordered |
| StripeAutomaton.BoundaryShapeUpTo | AP_art/AL_AP_artwork_stripes.py:37-72 | after any number of stripes, the boundary list is shaped and ordered |
| StripeAutomaton.BoundaryShape | AP_art/AL_AP_artwork_stripes.py:37-72 | every rectangle starts on a 5 um boundary, is DRC_WIDTH um wide and has positive height; the list is ordered by stripe, then by y, without overlap |
| Artwork.ScanStripe | AP_art/AL_AP_artwork_stripes.py:46-78 | the inner loop returns the rectangles of the stripe's segments and writes the cleaned row as 0/255 into kd[iq]; every other row of kd is unchanged |
| Artwork.ConvertStripes | AP_art/AL_AP_artwork_stripes.py:33-80 | kd is new, with one row per stripe holding that stripe's cleaned row read from the original raster; the boundary list is the specification's Boundary; ka1 is cleared exactly in the columns with x % 10 >= 2*DRC_WIDTH |
| Artwork.ScanColumns | AP_art/AL_AP_artwork_stripes.py:37-80 | the loop over the columns fills kd stripe by stripe, clears the masked columns and builds the boundary list |
| Artwork.ScanColumn | AP_art/AL_AP_artwork_stripes.py:37-80 | one pass scans stripe i/10 when i % 10 == 0, reading the column before any clearing, then clears column i if i % 10 >= 2*DRC_WIDTH |
| Artwork.ClearColumn | AP_art/AL_AP_artwork_stripes.py:79-80 | column x becomes all background; every other cell is unchanged |
| Artwork.Preview | AP_art/AL_AP_artwork_stripes.py:84-88 | preview column i is row i/10 of kd when i % 10 < 2*DRC_WIDTH, and 0 otherwise |
| SpiEncoding.B10 | SPIboy/src/SPI2CSV.py:292-302 | `__b10` returns 1 if i == xnor, else 0 |
| SpiEncoding.B10Twice | SPIboy/src/SPI2CSV.py:318-321 | mapping a level through `__b10` twice with the same active level gives back the logical value |
| SpiEncoding.ReverseBitsSpec | SPIboy/src/SPI2CSV.py:52-54 | the LSB-first reversal raises ValueError exactly on a negative word; otherwise it reads the wordsize-padded binary digits backwards |
| SpiEncoding.BitReverseInvolution | SPIboy/src/SPI2CSV.py:52-54 | for 0 <= i < 2^wordsize, the reversal stays below 2^wordsize, and reversing twice gives i |
| SpiEncoding.ReverseTwice | SPIboy/src/SPI2CSV.py:52-54 | reading a bit string backwards, re-padding and reading backwards again is the identity |
| SpiEncoding.I2HexStrLsbFirst | SPIboy/src/SPI2CSV.py:44-55 | on an LSB-first link, the reversed word prints as the MSB-first link prints the word itself |
| SpiEncoding.I2HexStrFails | SPIboy/src/SPI2CSV.py:44-55 | `i2hexStr` fails exactly for a negative word on an LSB-first link |
| SpiEncoding.I2HexStrPrints | SPIboy/src/SPI2CSV.py:44-55 | when it succeeds, `i2hexStr` prints the hex field of the possibly reversed word, wordsize>>2 digits wide |
| SpiEncoding.HexFieldShape | SPIboy/src/SPI2CSV.py:55 | a non-negative hex field is "0x" then at least `width` upper-case hex digits, which parse back to the number |
| SpiEncoding.HexFieldNegative | SPIboy/src/SPI2CSV.py:55 | a negative hex field is "0x-" then the magnitude's digits, one column narrower |
| SpiEncoding.OrDisjoint | SPIboy/src/SPI2CSV.py:393 | OR with a number whose low k bits are clear is addition |
| SpiEncoding.DinIsSum | SPIboy/src/SPI2CSV.py:384-393 | within the checked limits, the DIN word is IDType + 2*chipID + 512*command + 65536*payload and is below 2^32 |
| SpiEncoding.DinDecode | SPIboy/src/SPI2CSV.py:384-393 | within the checked limits, IDType, chipID, command and payload decode back from the DIN word |
| Numerals.ValueOfDigits | SPIboy/src/SPI2CSV.py:53-55 | the digits of n denote n |
| Numerals.DigitsOfValue | SPIboy/src/SPI2CSV.py:53-54 | a digit string with leading zeros is the zero-padded digits of its value |
| Numerals.DigitsLength | SPIboy/src/SPI2CSV.py:53 | a number below base^w has at most w digits |
| Numerals.ValueBound | SPIboy/src/SPI2CSV.py:54 | w digits denote a number below base^w |
| Numerals.ParseRender | SPIboy/src/SPI2CSV.py:54 | parsing rendered digits gives back their value |
| Numerals.FormatParse | SPIboy/src/SPI2CSV.py:53-55 | formatting a non-negative number and parsing it back gives the number |
| Numerals.FormatLength | SPIboy/src/SPI2CSV.py:53-55 | a formatted number is at least `width` characters long |
| Numerals.FormatDigits | SPIboy/src/SPI2CSV.py:55 | a non-negative number formats as upper-case digits only |
| Numerals.FormatNegative | SPIboy/src/SPI2CSV.py:53-55 | a negative number formats as '-' then its magnitude, one column narrower |
| CsvText.SplitJoin | SPIboy/src/SPI2CSV.py:356-413 | splitting a comma-joined line gives back its fields when no field holds a comma |
| CsvText.SplitAppend | SPIboy/src/SPI2CSV.py:366-410 | appending ',' and a comma-free field appends one field |
| CsvText.JoinPrefix | SPIboy/src/SPI2CSV.py:366-410 | growing a joined prefix by one field is `oline + ',' + field` |
| SpiVectors.HeaderFields | SPIboy/src/SPI2CSV.py:342-349 | the header has one column per other pin plus 12 |
| SpiVectors.PinColumnsUnderHeader | SPIboy/src/SPI2CSV.py:344-373 | pin column k of a row sits under the header field naming its pin |
| SpiVectors.RowFields | SPIboy/src/SPI2CSV.py:356-410 | a vector row has exactly as many fields as the header |
| SpiVectors.RowFieldsAt | SPIboy/src/SPI2CSV.py:359-410 | the pin columns, measure, repeat, clock, the six DIN columns and the comment sit at their header positions |
| SpiVectors.CsvRows | SPIboy/src/SPI2CSV.py:353-413 | one CSV line per buffer entry, in buffer order |
| SpiVectors.CsvLines | SPIboy/src/SPI2CSV.py:350-413 | the header line, then one line per entry |
| SpiVectors.FormatBit | SPIboy/src/SPI2CSV.py:360-371 | a bit prints as the single character 0 or 1 |
| SpiVectors.PinFieldBit | SPIboy/src/SPI2CSV.py:359-373 | a pin the entry carries prints 1 exactly when its level matches the column's active level, else 0 |
| SpiVectors.CommandFieldsNoComma | SPIboy/src/SPI2CSV.py:383-405 | the DIN columns hold no comma |
| SpiVectors.PinColumnsNoComma | SPIboy/src/SPI2CSV.py:359-373 | the pin columns hold no comma |
| SpiVectors.RowColumns | SPIboy/src/SPI2CSV.py:356-413 | a vector line splits back into exactly its header-aligned fields when the clock entry and comment hold no comma |
| SpiVectors.RowPinColumn | SPIboy/src/SPI2CSV.py:359-373 | pin column k prints its pin against that pin's active level |
| SpiVectors.RowCommandColumn | SPIboy/src/SPI2CSV.py:383-405 | DIN column k of a row is column k of the command's fields |
| SpiVectors.WLinesChipEnable | SPIboy/src/SPI2CSV.py:231-232 | the two rows of `w` print chip enable as 0 then 1, whatever its active level |
| SpiVectors.WLinesDin | SPIboy/src/SPI2CSV.py:383-405 | the first row of `w` carries the packed DIN word in hex; the second row's DIN columns are blank |
| SpiVectors.ResetLinesReset | SPIboy/src/SPI2CSV.py:316-321 | the two rows of `wReset` print reset as 0 then 1, whatever its active level |
| SpiVectors.ResetLinesChipEnable | SPIboy/src/SPI2CSV.py:316-321 | the two rows of `wReset` print chip enable as 0 then 1, when reset and chip enable are different pins |
| SpiVectors.PopulateOtherPins | SPIboy/src/SPI2CSV.py:235-239 | both entry maps become the pin state overridden by the entry's own pins |
| SpiVectors.JoinFields | SPIboy/src/SPI2CSV.py:344-349 | the line grown field by field is the comma join of the fields |
| SpiVectors.Spi2Csv.constructor | SPIboy/src/SPI2CSV.py:30-40 | empty buffer; reset, chip enable and every other pin start at level 0, and no other pin is known |
| SpiVectors.Spi2Csv.W | SPIboy/src/SPI2CSV.py:218-274 | on success, exactly the two `w` entries are appended and earlier entries are kept; an unknown command or register raises and leaves the buffer as it was; the pin state is unchanged |
| SpiVectors.Spi2Csv.WReset | SPIboy/src/SPI2CSV.py:304-331 | exactly the two reset entries are appended and earlier entries are kept; the pin state is unchanged |
| SpiVectors.Spi2Csv.PinDeposit | SPIboy/src/SPI2CSV.py:280-285 | every pin of pinDict takes its new level, unknown pins included; every other pin keeps its level; the buffer is unchanged |
| SpiVectors.Spi2Csv.WCommentLine | SPIboy/src/SPI2CSV.py:287-289 | exactly one comment entry is appended at the end |
| SpiVectors.Spi2Csv.Flush | SPIboy/src/SPI2CSV.py:194-200 | the buffer is empty; the pin state is unchanged |
| SpiVectors.Spi2Csv.Header | SPIboy/src/SPI2CSV.py:342-349 | the first line is the comma join of the header fields |
| SpiVectors.Spi2Csv.Row | SPIboy/src/SPI2CSV.py:353-413 | the line of a comment entry is its text; a vector's line is the join of its row fields |
| SpiVectors.Spi2Csv.WriteCsv | SPIboy/src/SPI2CSV.py:333-418 | the header line, then one line per buffer entry in order |
| SpiVectors.Spi2Csv.PinColumnsFilled | SPIboy/src/SPI2CSV.py:359-373 | in every vector the builder produces, every pin column reads 0 or 1 and is never blank |
| RegListing.MarkOmitted | SPIboy/src/SPI2CSV.py:152-157 | omit bit 0 marks the row omitted and replaces its address and name with '...'; bit 1 replaces the help text; every other column, and the name and address when bit 0 is clear, are kept |
| RegListing.Summary | SPIboy/src/SPI2CSV.py:170 | a summary row is never an omitted row and has a blank address and help |
| RegListing.Render | SPIboy/src/SPI2CSV.py:165-177 | one printed row per listing entry, in order |
| RegListing.CompactStep | SPIboy/src/SPI2CSV.py:165-177 | each row prints what one pass of the loop appends, then the rest follows |
| RegListing.CompactRows | SPIboy/src/SPI2CSV.py:160-177 | the purge/count loop prints exactly the compacted listing |
| RegListing.SkipRun | SPIboy/src/SPI2CSV.py:166-168 | a leading run of m omitted rows only lengthens the pending run by m |
| RegListing.CompactRunClosed | SPIboy/src/SPI2CSV.py:166-177 | a maximal run of m omitted rows followed by a kept row becomes one gap of m, then that row |
| RegListing.CompactRunTrailing | SPIboy/src/SPI2CSV.py:160-177 | a listing that ends in omitted rows leaves nothing for them |
| RegListing.CompactAfterKept | SPIboy/src/SPI2CSV.py:160-177 | after a kept row, the rest compacts independently of what came before |
| RegListing.CompactKeepsNamed | SPIboy/src/SPI2CSV.py:160-177 | the kept rows are exactly the non-omitted rows, in their original order |
| RegListing.CompactKeepsOnlyNamed | SPIboy/src/SPI2CSV.py:160-177 | no kept row is an omitted row |
| RegListing.CompactHidesOmitted | SPIboy/src/SPI2CSV.py:160-177 | no printed row is an omitted row |
| RegListing.CompactIdentity | SPIboy/src/SPI2CSV.py:160-177 | a listing without omitted rows prints unchanged |
| RegListing.CompactIdempotent | SPIboy/src/SPI2CSV.py:160-177 | compacting the printed listing again changes nothing |
| RegListing.CompactShorter | SPIboy/src/SPI2CSV.py:160-177 | the compacted listing has at most one entry per row, plus one for a run pending at the start |
| RegListing.CompactAccounts | SPIboy/src/SPI2CSV.py:160-177 | when the listing does not end in an omitted row, the kept rows and gap counts account for every register |
| RegListing.TrailingRunUnaccounted | SPIboy/src/SPI2CSV.py:160-177 | a trailing run of omitted rows is lost: the compacted listing accounts for fewer registers than the listing has |
| RegListing.CompactAllStep | SPIboy/src/SPI2CSV.py:165-177 | the row-by-row step of the corrected compaction |
| RegListing.CompactAllAccounts | SPIboy/src/SPI2CSV.py:160-177 | the corrected compaction accounts for every register and keeps exactly the non-omitted rows in order |
| RegListing.CompactAllAgrees | SPIboy/src/SPI2CSV.py:160-177 | the corrected and the original compaction agree on every listing that does not end in an omitted row |
| RegListing.CompactAllRows | SPIboy/src/SPI2CSV.py:160-177 | the loop with the trailing summary prints exactly the corrected compaction |

Artwork.Column and Artwork.Grid are the array views the loop contracts
use, and Artwork.StripesOf picks column 10*iq of that view for stripe iq; their contracts
only spell out their definitions. SpiVectors.Spi2Csv.Payload is the payload lookup of
lines 262-267; its behaviour (the number itself, or the register's SPI address, KeyError or
IndexError) is stated by the contract of SpiVectors.Spi2Csv.W, which uses it. Artwork.StripesStartedNext, SpiEncoding.OrComm and the CsvText comma search
(LastComma, LastCommaBelow) are arithmetic and string helpers of the proofs above. The comma
search belongs to the reader Split, which exists only to state the SplitJoin round trip.

## Left out

- Image loading, greyscale conversion, the float-scaled PIL resizes and the `> 128` threshold (`AL_AP_artwork_stripes.py` lines 23-32) are not modelled. The model starts from the thresholded boolean raster.
- The `gdspy` library, the `input()` prompts and `plt.imsave` are foreign calls or I/O and are left out. This includes the library load, the float rectangles with the `1000 - y` flip, and writing the GDS and SVG files.
- Artwork.Preview: models the NEAREST resize of line 84 as the replication `kd_pil[i, y] = kd[i / 10, y]`. That is what the resize does for an exact factor of 10. The PIL call itself is not modelled.
- Artwork.ConvertStripes: requires a raster width that is a multiple of 10 (line 29 always builds it so). It also requires at least one row when there is a stripe, since line 47 reads cell 0 of every scanned column.
- File writes, the `tabulate`/`csv` calls, every `print` warning and error, and `showOBuf` are left out. The ERROR prints for over-long DIN fields do not stop `writeCSV`; the model computes the DIN word for any non-negative fields.
- SpiVectors.Command: chip ID, command, payload, mask and ID type are non-negative. Python's `<<` and hex formatting of negative values are not modelled for the DIN columns.
- SpiVectors.Entry: pin levels are integers. The source stores Python booleans and `__b10`'s 0/1 in the same maps, and reads them back by truthiness.
- SpiVectors.Entry: the `measure` and `repeat` keys are never set by any operation, so their columns are always blank.
- SpiVectors.Spi2Csv.W: the clock-count warnings (lines 243-248) are prints only and are left out. The identical branches for IDType at lines 254-259 collapse into one.
- SpiVectors.Spi2Csv: `w` and `wReset` rebind `oBuf` to a new list, while `wCommentLine` appends in place. Aliasing of returned buffer references is not modelled; every operation returns the new buffer as a value.
- SpiVectors.Spi2Csv.Payload: a `data` argument of another Python type leaves `payload` unset in the source. The model only has names and numbers.
- SpiVectors.ResetLinesChipEnable: requires distinct reset and chip-enable pins. When they are the same pin, the reset entry's level wins in the source's dict literal.
- The register-row formatting and sorting of `writeRegDict` (lines 76-158) are not modelled, except the omit marking (MarkOmitted).
- The `NameError` when `omitEnable` is False (`lines_out1` is undefined at lines 183 and 187) is not modelled; only the compaction is.
- Line 163 sets an unused `Count = 0` (capital C). The loop only reads `count` after setting it at line 174, so the typo is harmless and not modelled.

## Findings

| source | as written | input that shows it | evidently intended | confidence | as-written member | corrected member |
|---|---|---|---|---|---|---|
| SPIboy/src/SPI2CSV.py:160-177 | a run of omitted rows at the end of the listing is dropped with no summary row, because the loop only writes a summary when a non-omitted row ends the run | a listing whose last row is omitted, e.g. one register with omit bit 0 set: the compacted listing is empty and accounts for 0 of 1 registers | every run of omitted rows gets a summary row, so that the listing accounts for every register | not executed | RegListing.TrailingRunUnaccounted (on RegListing.CompactRows) | RegListing.CompactAllRows, RegListing.CompactAllAccounts |
