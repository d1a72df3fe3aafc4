# Glider firmware and waveform tools: a Dafny model

Glider is an open e-paper monitor: an STM32 (and an RP2040 variant) board
that takes video over DisplayPort Alt Mode on USB-C or HDMI and drives an
electrophoretic panel, plus host-side tools that convert panel waveform
files. This project models the parts of it that are plain logic over
integers and buffers, and proves what they compute:

- **USB Power Delivery policy** (`fw/User/usbpd/usb_pd_policy.c`): the
  sink's choice of source capability (PDO), the current and voltage it
  derives, the request (RDO) it builds and the source-side check of a
  request (sections 6.4.1 and 6.4.2 of USB Power Delivery 3.0); the DFP's
  alternate-mode discovery tables (SVIDs, modes, active-mode slots); the
  structured-VDM dispatcher with its ACK/NAK/BUSY replies (section 6.4.4);
  the DisplayPort responder of this adapter and the DFP's pin-assignment
  precedence (VESA DisplayPort Alt Mode on USB Type-C).
  Modules `PdSink`, `PdDfp`, `PdSvdm`.
- **Waveform tools** (`utils/*`): the WBF dumper's checksummed 24-bit
  pointers, RLE block decoder, table-id assignment, nibble unpacking and
  CRC-32 (reflected 0xEDB88320, as in ISO 3309) (`WbfDump`); the flash
  image decompressor (`WbfFlash`); the MXC assembler's range parsing, LUT
  fill, nibble packing and offset-table layout (`MxcAsm`) and the MXC
  dumper that reads it back (`MxcDump`); little- and big-endian integer
  bytes (`WaveBytes`); the CSV field parser and the newline splitter,
  quoting as in section 2 of RFC 4180 (`Csv`, `CsvSplit`); atoi and
  friends (`CText`).
- **Shell**: the command tokenizer and help ordering (`ShellCommand`,
  `ShellHelp`), the line editor with its history (`LineEditor`), the
  escape-sequence key translator (ECMA-48 CSI, cursor position report per
  section 8.3.14 of ECMA-48) (`ShellPlatform`), terminal cursor
  bookkeeping (`Term`) and strdup/strndup (`ShellString`).
- **XMODEM/YMODEM** (`Xmodem`): CRC-16/CCITT and checksum block checks,
  packet framing, the packet-number acceptance rule, the start-byte
  synchronisation of both sides and the retry loops.
- **Small firmware state**: the syslog ring with drop-oldest (`SysLog`),
  the button debounce state machines of both boards (`Button`), EDID
  field packing, checksum and the I2C address counter (`Edid`), SPI-flash
  page chunking, erase and status decoding (`SpiFlash`), the SPI
  prescaler choice and the hex USB serial (`BoardSupport`) and the VCOM
  PWM level (`Power`).

Code that updates state in place is modelled as classes with `modifies`
clauses and arrays (the PD tables, the syslog ring, the line editor, the
terminal, the key translator, the XMODEM receiver and transmitter, the
button scanner, the EDID buffers); loops are methods with invariants,
each proved against a specification function whose own properties are
proved as lemmas. Calls into the hardware or the rest of the firmware
(the voltage-validity hook, the VDM version, the alternate-mode driver's
enter/status/config/attention hooks, the received bytes of a serial line,
flash erase results, allocation) are parameters.

Where the code and its evident intent disagree, the model carries both:
a member for the code as written with a lemma that exhibits the
difference, and the corrected definition that the rest of the model
uses (see "## Findings").

## Model

| member | source | states |
|---|---|---|
| BoardSupport.PrescalerFastestNotAbove | fw/User/board.c:75-94 | the divisor chosen is one the SPI offers; the clock it gives does not exceed the target (down to the slowest divisor), and half that divisor would give a clock at or above the target |
| BoardSupport.PrescalerMonotone | fw/User/board.c:75-94 | a higher target frequency never gets a larger divisor |
| BoardSupport.SpiHandle.SwitchFreq | fw/User/board.c:75-94 | the handle's prescaler becomes the divisor selected for the target, one the SPI offers |
| BoardSupport.HexDigitValue | fw/User/board.c:42-45 | the hex table's character for every nibble decodes back to that nibble |
| BoardSupport.UidBytesRoundTrip | fw/User/board.c:33-34 | the four bytes the id occupies in memory recompose the 32-bit id, least significant first |
| BoardSupport.SerialDecodes | fw/User/board.c:40-49 | serial characters 2i and 2i+1 are the high and the low nibble of id byte i |
| BoardSupport.PutByte | fw/User/board.c:41-48 | writes units 2i and 2i+1 with byte i's two hex digits, high nibble first, and no other unit |
| BoardSupport.UsbSerial | fw/User/board.c:29-51 | returns twice the number of id bytes that fit (at most 4, at most max_chars / 2), never above max_chars; exactly those units hold the serial and the rest of the descriptor is unchanged |
| Power.VcomLevelRounds | fw/power.c:49-62 | inside the adjustable range a setting's level stands for a voltage at most 10 mV above it; below the range the level is 0 and above it 255 |
| Power.VcomLevelMonotone | fw/power.c:49-62 | a higher VCOM setting never gives a lower PWM level |
| Power.LevelVoltageRoundTrip | fw/power.c:49-62 | setting the voltage a level stands for gives that level back |
| ShellString.StrLen | fw/User/shell/shell_string.c:31 | the result is the position of the first NUL |
| ShellString.TerminatedContents | fw/User/shell/shell_string.c:31-36 | a NUL-free string followed by its terminator has that string's length and contents |
| ShellString.StrLenOf | fw/User/shell/shell_string.c:31 | the scan stops at the first NUL |
| ShellString.CopyPrefix | fw/User/shell/shell_string.c:35 | a fresh buffer of the requested length whose first size characters are the source's |
| ShellString.StrDup | fw/User/shell/shell_string.c:26-37 | null exactly when the allocation fails; otherwise a fresh buffer holding the string and its NUL |
| ShellString.StrNDup | fw/User/shell/shell_string.c:39-53 | null exactly when the allocation fails; otherwise a fresh buffer of the first min(n, strlen) characters and a NUL |
| ShellString.DupSameString | fw/User/shell/shell_string.c:26-37 | the copy strdup makes reads as the same string |
| ShellString.NDupPrefix | fw/User/shell/shell_string.c:39-53 | the copy strndup makes reads as the first min(n, strlen) characters of the string |
| Button.Run | fw/User/button.c:52-113 | one event per tick |
| Button.EventsFollowTicks | fw/User/button.c:76-95 | a long press is only ever reported on a tick where the button is pressed and a short press only on one where it is released |
| Button.RunAppend | fw/User/button.c:52-113 | running two stretches of scan ticks is running the first and then the second from the state and counter where the first ended |
| Button.DebounceRun | fw/User/button.c:62-75 | while a press is still shorter than the short threshold nothing is reported and the button stays first-pressed, counting ticks |
| Button.DebounceToHolding | fw/User/button.c:62-70 | after short pressed ticks the button is holding with its counter reset, having reported nothing |
| Button.HoldRun | fw/User/button.c:76-85 | while held, the long press is reported once, at the tick where the counter equals the long threshold, and nothing else is |
| Button.HoldThenRelease | fw/User/button.c:76-95 | a hold followed by a release reports the long press if the threshold was reached, otherwise a short press exactly when the release rule says so, and ends released |
| Button.SettleRun | fw/User/button.c:96-109 | after a release, unpressed ticks report nothing and return the button to idle exactly when the release threshold is reached |
| Button.PressFromFirst | fw/User/button.c:56-95 | a press that ends before the short threshold goes back to idle unreported; a longer one reports what its holding phase reports |
| Button.PressFromIdle | fw/User/button.c:56-61 | the first pressed tick from idle reports nothing and the press goes on exactly as from first-pressed with the counter at 0 |
| Button.PressReports | fw/User/button.c:52-113 | a press of n ticks from idle reports nothing up to the short threshold, a long press once the long threshold is reached while held, and otherwise a short press exactly when the release rule holds |
| Button.PressLostAsWritten | fw/User/button.c:80-91 | as written, a press held for exactly short + long ticks is reported neither as short nor as long, on both boards (fw/button.c:31-33 thresholds) |
| Button.EveryPressReported | fw/User/button.c:76-95 | with the corrected release comparison every press that outlasts the debounce is reported exactly once |
| Button.PackUnpack | fw/User/button.c:115-120 | the packed value gives back the first button's event in bits 0-1 and the second's in bits 2-3 |
| Button.Buttons.ScanSingle | fw/User/button.c:52-113 | the scanned button takes the state, counter and event of one tick of the state machine; the other button is unchanged |
| Button.Buttons.ButtonScan | fw/User/button.c:115-120 | both buttons advance one tick on their pins' levels compared with the pressed level, and the result packs both events |
| CText.DigitChar | utils/mxc_waveform_asm/main.c:182-188 | the digit written for a value below ten is a digit that atoi reads back as that value |
| CText.LeadingDigits | utils/mxc_waveform_asm/main.c:182-188 | atoi's digits are the longest prefix of digits: all digits, followed by a non-digit or the end |
| CText.SkipSpace | utils/mxc_waveform_asm/main.c:182-188 | atoi skips exactly the leading white space: what remains is a suffix that is empty or starts with a non-space |
| CText.DecimalValueOf | utils/mxc_waveform_asm/main.c:182-188 | the decimal digits of a number have that number as their value |
| CText.LeadingDigitsOf | utils/mxc_waveform_asm/main.c:182-188 | atoi's scan of digits followed by a non-digit stops exactly after the digits |
| CText.AtoiDecimal | utils/mxc_waveform_asm/main.c:182-188 | atoi of a number's decimal digits, whatever non-digit text follows, is that number |
| CText.AtoiNegative | utils/mxc_waveform_asm/main.c:182-188 | atoi of a minus sign and a number's digits is the negated number |
| CText.IndexOf | utils/mxc_waveform_asm/main.c:180 | strchr: None when the character is absent, otherwise its first position |
| Csv.FieldCount | utils/mxc_waveform_asm/csv.c:14-47 | count_fields returns -1 (an unterminated quote) or at least one field |
| Csv.FieldsFromCount | utils/mxc_waveform_asm/csv.c:14-47 | the fields parse_csv splits exist exactly when count_fields succeeds, one more than the unquoted commas |
| Csv.FieldsMatchCount | utils/mxc_waveform_asm/csv.c:54-63 | parse_csv fails exactly when count_fields returns -1, and otherwise yields count_fields fields |
| Csv.EscapeRead | utils/mxc_waveform_asm/csv.c:81-98 | inside quotes a doubled quote reads as one quote and the closing quote ends the quoted part, so an escaped field reads back as itself |
| Csv.EncodeRowParses | utils/mxc_waveform_asm/csv.c:54-143 | any row of fields, each quoted with its quotes doubled and joined with commas, parses back to exactly those fields |
| Csv.QuotedCommaAndQuote | utils/mxc_waveform_asm/csv.c:54-143 | a comma and a doubled quote inside quotes stay in the field: "a,""b","c" is two fields |
| Csv.OpenQuoteFails | utils/mxc_waveform_asm/csv.c:42-44 | a line with an unterminated quote is rejected by both count_fields and parse_csv |
| Csv.CountFields | utils/mxc_waveform_asm/csv.c:14-47 | the scan returns the field count of the line, or -1 |
| Csv.Terminated | utils/mxc_waveform_asm/csv.c:140 | the array holds the fields in order followed by the NULL terminator |
| Csv.ParseCsv | utils/mxc_waveform_asm/csv.c:54-143 | NULL exactly when the line has an unterminated quote; otherwise a fresh array of the line's fields in order, NULL-terminated |
| Csv.ParseStep | utils/mxc_waveform_asm/csv.c:80-138 | one character of the parse moves forward and keeps the fields stored so far plus those still to come equal to the line's fields |
| Edid.Negate8 | fw/User/edid.c:117 | the byte ~c + 1 is the one that brings c to zero modulo 256 |
| Edid.FixChecksum | fw/User/edid.c:112-118 | only the checksum byte changes, and the covered bytes plus it sum to zero modulo 256 |
| Edid.HighNibblesSplit | fw/User/edid.c:92 | the packed byte holds the first value's bits 8-11 in its high half and the second's in its low half |
| Edid.LowNibblesSplit | fw/User/edid.c:98 | the byte holds VFP's low four bits in the high half and VSYNC's in the low half |
| Edid.TopBitsSplit | fw/User/edid.c:99-100 | for six-bit VFP and VSYNC the byte holds their bits 4-5 at bits 2-3 and 0-1 |
| Edid.TimingBytesLaidOut | fw/User/edid.c:88-103 | the fifteen descriptor bytes hold every field's low byte and high bits where the detailed timing descriptor of EDID 1.3 puts them |
| Edid.TimingLowBytes | fw/User/edid.c:88-103 | the descriptor's low bytes are the fields' low eight bits |
| Edid.TimingHighBits | fw/User/edid.c:92-103 | the descriptor's packed bytes carry the fields' high bits |
| Edid.ClockFromBytes | fw/User/edid.c:88-89 | the pixel clock read back from bytes 54-55 is the configured clock in units of 10 kHz |
| Edid.HorizontalFromBytes | fw/User/edid.c:90-92 | the active and blanking widths read back are the configured ones |
| Edid.VerticalFromBytes | fw/User/edid.c:93-95 | the active and blanking heights read back are the configured ones |
| Edid.SizeFromBytes | fw/User/edid.c:101-103 | the image size in millimetres reads back as configured |
| Edid.SixBitJoin | fw/User/edid.c:98-100 | the six-bit VFP and VSYNC are recovered from their low nibbles and their two top bits |
| Edid.PorchFromBytes | fw/User/edid.c:96-100 | the front porches and sync widths read back are the configured ones |
| Edid.DecodeLaidOut | fw/User/edid.c:88-103 | bytes laid out for a configuration decode to that configuration's timing |
| Edid.TimingRoundTrip | fw/User/edid.c:88-103 | decoding the descriptor edid_init writes gives back every timing field of a configuration that fits the field widths |
| Edid.BigEndianRoundTrip | fw/User/edid.c:107-110 | the serial bytes 12-15, most significant first, recompose the board id |
| Edid.UserTemplateShape | fw/User/edid.c:31-80 | the template is 128 bytes with the fixed header, EDID version 1.3 and no extensions |
| Edid.WriteBytes | fw/User/edid.c:84-110 | the bytes are stored at their positions and every other byte is unchanged |
| Edid.UserEdid.constructor | fw/User/edid.c:31-80 | the block starts as the static template |
| Edid.UserEdid.Init | fw/User/edid.c:82-119 | week, year, size in cm, the timing descriptor and the big-endian id are written; no other byte before the checksum changes; the whole block sums to zero modulo 256 |
| Edid.FoldedSerial | fw/edid.c:118-122 | the four serial bytes are the XOR of the id's first and last four bytes |
| Edid.HighAddressReadsOutsideAsWritten | fw/edid.c:97-104 | as written, address 127 reads edid[128], the last byte, but an address byte of 128 or more reads past the 129-byte array |
| Edid.ServedSnoc | fw/edid.c:99-105 | one more request serves the byte at the next address, wrapping after 127 |
| Edid.PicoEdid.constructor | fw/edid.c:37-87 | the image starts as given, with the address at 0 |
| Edid.PicoEdid.Init | fw/edid.c:114-131 | the serial bytes become the folded id, nothing else in the block changes, and the block sums to zero modulo 256 |
| Edid.PicoEdid.Receive | fw/edid.c:94-98 | a written byte becomes the address, reduced below 128 (corrected) |
| Edid.PicoEdid.Request | fw/edid.c:99-105 | a request serves the block's byte at the address and advances it, wrapping at 128 |
| Edid.PicoEdid.RequestMany | fw/edid.c:99-105 | k requests serve k consecutive bytes of the block from the address, wrapping at 128, and leave the address k further on |
| LineEditor.SwapInBuffer | fw/User/shell/linenoise.c:232-234 | swapping two buffer cells transposes the two characters of the line around the cursor and leaves the rest of the buffer, introducing no new character |
| LineEditor.RemoveUndoesInsert | fw/User/shell/linenoise.c:213-221 | deleting the character just inserted gives the line back; the insertion adds exactly that character at the cursor |
| LineEditor.SwapAroundPermutes | fw/User/shell/linenoise.c:224-237 | a transposition keeps the line's length and characters, and transposing twice gives the line back |
| LineEditor.PushedKeepsNewest | fw/User/shell/linenoise.c:423-430 | adding a line to a full history drops the oldest: the history is the newest max entries of the old history followed by the line |
| LineEditor.PushAll | fw/User/shell/linenoise.c:412-437 | the history never grows beyond max_histories entries |
| LineEditor.PushAllFirstPiece | fw/User/shell/linenoise.c:412-437 | adding a text adds its first line (when non-empty or forced) and then the rest after the newline |
| LineEditor.PushAllKeepsNewest | fw/User/shell/linenoise.c:394-440 | adding a series of lines keeps exactly the newest max_histories of the old entries and the new lines |
| LineEditor.PiecesOfOneLine | fw/User/shell/linenoise.c:414-416 | a text without a newline adds itself, or nothing when it is empty and not forced |
| LineEditor.PiecesShape | fw/User/shell/linenoise.c:412-437 | every added entry is newline-free, made of the text's characters, and non-empty unless empty lines are forced |
| LineEditor.PushedNulFree | fw/User/shell/linenoise.c:418-430 | the entries stay NUL-free strings and the history does not shrink |
| LineEditor.PushFirstPiece | fw/User/shell/linenoise.c:413-436 | one pass of the loop adds the first line and leaves a strictly shorter rest whose pieces complete the same history |
| LineEditor.AddPieces | fw/User/shell/linenoise.c:394-440 | the loop adds exactly the text's lines (empty ones only when forced), keeping at most max_histories entries, none shrinking the history |
| LineEditor.ShiftRight | fw/User/shell/linenoise.c:347 | memmove moves the characters from the cursor to the end one place right and leaves the others |
| LineEditor.ShiftLeft | fw/User/shell/linenoise.c:216 | memmove moves the characters after a position one place left and leaves the others |
| LineEditor.InsertedText | fw/User/shell/linenoise.c:345-353 | after the shift and the store the line is the old line with the character inserted at the cursor |
| LineEditor.Editor.constructor | fw/User/shell/linenoise.c:451-471 | a fresh context starts a new line on its first prompt, with an empty history of max_histories entries |
| LineEditor.Editor.AddHistory | fw/User/shell/linenoise.c:394-449 | returns 0 and changes nothing when history is off; otherwise 1, with the text's lines pushed onto the history |
| LineEditor.Editor.StartLine | fw/User/shell/linenoise.c:163-181 | a new line starts empty with the cursor and history index at 0, and an empty entry is pushed as the current line |
| LineEditor.Editor.Finish | fw/User/shell/linenoise.c:198-211 | Enter, Ctrl-C and Ctrl-Z drop the current-line entry, end the line and return the length, LINENOISE_CTRL_C or LINENOISE_CTRL_Z |
| LineEditor.Editor.Insert | fw/User/shell/linenoise.c:321-355 | a printable character is inserted at the cursor, which moves right, when there is room; otherwise nothing changes |
| LineEditor.Editor.Backspace | fw/User/shell/linenoise.c:213-222 | the character before the cursor is removed and the cursor moves left; at the start nothing changes |
| LineEditor.Editor.Delete | fw/User/shell/linenoise.c:285-294 | the character under the cursor is removed and the cursor stays; at the end nothing changes |
| LineEditor.Editor.Transpose | fw/User/shell/linenoise.c:224-238 | the characters around the cursor (the last two at the end of the line) are swapped and the cursor moves past them; a line shorter than two or a cursor at 0 is unchanged |
| LineEditor.Editor.MoveCursor | fw/User/shell/linenoise.c:240-304 | left and right move the cursor by one within the line, Home and End to its ends; the text is unchanged |
| LineEditor.Editor.Kill | fw/User/shell/linenoise.c:306-316 | Ctrl-U empties the line; Ctrl-K cuts it at the cursor |
| LineEditor.Editor.Load | fw/User/shell/linenoise.c:278-280 | strncpy of a history entry: the buffer holds the entry cut to buflen and a NUL |
| LineEditor.Editor.HistoryMove | fw/User/shell/linenoise.c:258-283 | with more than one entry the current text is saved into its entry, and the index moves one step, clamped to the history, showing the chosen entry with the cursor at its end; otherwise nothing changes |
| LineEditor.Editor.HandleKey | fw/User/shell/linenoise.c:196-356 | the line ends exactly on Enter, Ctrl-C or Ctrl-Z, returning the length or the key's code; any other key keeps the cursor within the line and the line within buflen |
| MxcAsm.ParseRange | utils/mxc_waveform_asm/main.c:174-190 | both ends are the atoi value of the text before the colon and after it; without a colon the range is the single value |
| MxcAsm.IndexOfAfterDigits | utils/mxc_waveform_asm/main.c:180 | strchr finds the colon right after the leading digits |
| MxcAsm.ParseRangeOfRange | utils/mxc_waveform_asm/main.c:174-190 | the text "a:b" parses back to the range (a, b) |
| MxcAsm.ParseRangeOfValue | utils/mxc_waveform_asm/main.c:174-190 | the text "a" parses back to the range (a, a) |
| MxcAsm.LutIndexFields | utils/mxc_waveform_asm/main.c:220-223 | the table index frame*256 + dst*16 + src gives back frame, source and destination levels |
| MxcAsm.LutIndexOfFields | utils/mxc_waveform_asm/main.c:220-223 | every table index is the index of its own frame, source and destination, so each entry has exactly one address |
| MxcAsm.ApplyRow | utils/mxc_waveform_asm/main.c:214-226 | applying one CSV row keeps the table's size |
| MxcAsm.LoadedLut | utils/mxc_waveform_asm/main.c:192-232 | the loaded table has 256 entries per frame |
| MxcAsm.LoadedLutEntry | utils/mxc_waveform_asm/main.c:192-232 | each table entry is the value the last row covering it wrote, or the prefill value when no row covers it |
| MxcAsm.ShortRowPassesGuardAsWritten | utils/mxc_waveform_asm/main.c:217-219 | as written: the row "0,0" passes the guard on field i for a one-frame table although field i+2, the value read, does not exist |
| MxcAsm.FillSource | utils/mxc_waveform_asm/main.c:216-224 | one source level's destination entries in the range get the value, every other entry is unchanged |
| MxcAsm.FillFrame | utils/mxc_waveform_asm/main.c:216-225 | one frame's entries in the source and destination ranges get the value, every other entry is unchanged |
| MxcAsm.FillRow | utils/mxc_waveform_asm/main.c:214-226 | every frame's covered entries get that frame's value from the row, the rest are unchanged |
| MxcAsm.RowApplied | utils/mxc_waveform_asm/main.c:214-226 | the array after filling a row is the table the row specifies |
| MxcAsm.LoadedPrefix | utils/mxc_waveform_asm/main.c:204-228 | loading one more CSV line extends the table loaded so far by that line's row |
| MxcAsm.LoadWaveform | utils/mxc_waveform_asm/main.c:192-232 | fails exactly when a used line has too few frame fields (the corrected guard); on success the array holds the table the lines specify |
| MxcAsm.PackPairNibbles | utils/mxc_waveform_asm/main.c:249-255 | the EPDCv2 packed byte holds the first entry in its high nibble and the second in its low nibble |
| MxcAsm.LutBytes | utils/mxc_waveform_asm/main.c:245-258 | an EPDCv1 table is copied at full size, an EPDCv2 table at half size |
| MxcAsm.LutBytesPairs | utils/mxc_waveform_asm/main.c:249-255 | each packed byte's high and low nibbles are the two entries it packs |
| MxcAsm.CopyLut | utils/mxc_waveform_asm/main.c:245-258 | the destination at the offset holds the packed table and nothing else in it changes |
| MxcAsm.CopyBytes | utils/mxc_waveform_asm/main.c:246-248 | the EPDCv1 copy places the table at the offset and leaves the rest unchanged |
| MxcAsm.PackLut | utils/mxc_waveform_asm/main.c:249-256 | the EPDCv2 copy places the nibble-packed table at the offset and leaves the rest unchanged |
| MxcAsm.BlockHoldsTable | utils/mxc_waveform_asm/main.c:358-367 | a data block is its 8-byte frame count plus exactly the packed table of its frames |
| MxcAsm.Layout | utils/mxc_waveform_asm/main.c:344-373 | each mode offset and each data offset is where the layout places that table or block, and the total is the file size |
| MxcAsm.LayoutStep | utils/mxc_waveform_asm/main.c:360-371 | one mode's pass records its mode offset and data offsets and advances to the next mode's start |
| MxcAsm.LayoutMode | utils/mxc_waveform_asm/main.c:364-370 | one mode's data offsets follow each other block by block; other modes' offsets are unchanged |
| MxcAsm.BlocksGrow | utils/mxc_waveform_asm/main.c:364-370 | a block ends no later than any later block of the same mode starts |
| MxcAsm.ModeStartGrows | utils/mxc_waveform_asm/main.c:360-371 | a mode's table and blocks end no later than any later mode starts |
| MxcAsm.ModeTableFirst | utils/mxc_waveform_asm/main.c:356-362 | every mode's temperature table lies after the mode table |
| MxcAsm.BlockInMode | utils/mxc_waveform_asm/main.c:360-371 | every data block lies inside its own mode's region |
| MxcAsm.LayoutDisjoint | utils/mxc_waveform_asm/main.c:344-373 | data blocks are in order and never overlap, and a block ends before any later mode starts |
| MxcAsm.LayoutFits | utils/mxc_waveform_asm/main.c:344-373 | every block lies after the mode table and inside the file whose size the layout computes |
| MxcAsm.CountField | utils/mxc_waveform_asm/main.c:382-383 | for 1 to 256 ranges or modes, the 8-bit field plus one is the count |
| WaveBytes.ReadUint4 | utils/mxc_waveform_dump/main.c:75-82 | a nibble read is a four-bit value |
| WaveBytes.ReadUint4Pair | utils/mxc_waveform_dump/main.c:75-82 | an even address reads a byte's low half and the next odd address its high half |
| WaveBytes.ReadUint4Covers | utils/wbf_waveform_dump/main.c:156-163 | a byte is exactly the pair of its two nibble reads, so nibble access loses nothing |
| WaveBytes.LeValueBound | utils/mxc_waveform_dump/main.c:64-73 | an n-byte little-endian value is below 256^n |
| WaveBytes.LeValueOfBytes | utils/mxc_waveform_asm/main.c:163-172 | the n little-endian bytes of a value below 256^n read back to the value |
| WaveBytes.LeBytesOfValue | utils/mxc_waveform_dump/main.c:64-73 | every byte string is the little-endian encoding of its own value |
| WaveBytes.LeBytesAt | utils/mxc_waveform_asm/main.c:163-172 | byte k of the encoding is the value shifted right by 8k, masked to eight bits |
| WaveBytes.ReadUint64Le | utils/mxc_waveform_dump/main.c:64-73 | the eight shifted bytes combine to the little-endian value of the first eight bytes |
| WaveBytes.WriteUint64Le | utils/mxc_waveform_asm/main.c:163-172 | the eight bytes at the offset become the value's little-endian encoding and nothing else changes |
| WaveBytes.LeBytesShifts | utils/mxc_waveform_asm/main.c:163-172 | the encoding is the eight masked right shifts the writer stores |
| WaveBytes.ReadWriteUint64 | utils/mxc_waveform_asm/main.c:163-172 | reading back what write_uint64_le stores gives the value |
| WaveBytes.BeValueOfBytes | utils/wbf_flash_decompress/main.c:33-51 | the big-endian bytes of a value below 256^n read back to the value |
| WaveBytes.BeBytesOfValue | utils/wbf_flash_decompress/main.c:33-51 | every byte string is the big-endian encoding of its own value |
| MxcDump.DumpCount | utils/mxc_waveform_dump/main.c:205-208 | a mode or range count read from an eight-bit field is between 1 and 256 |
| MxcDump.DumpCountOfField | utils/mxc_waveform_dump/main.c:205-208 | the asm's count field reads back to the count exactly when there are 1 to 256 |
| MxcDump.DataOffsetOfAssembled | utils/mxc_waveform_dump/main.c:220 | the dumper looks for the offset tables where the asm places them |
| MxcDump.ReadBack | utils/mxc_waveform_dump/main.c:64-73 | eight bytes holding a value's encoding read back to the value |
| MxcDump.DumpReadsModeTable | utils/mxc_waveform_dump/main.c:238-245 | reading mode i's entry of a laid-out file gives the offset the asm gave that mode |
| MxcDump.DumpReadsTempTable | utils/mxc_waveform_dump/main.c:250-254 | reading a mode's temperature table gives each block's offset from the layout |
| MxcDump.DumpReadsFrameCount | utils/mxc_waveform_dump/main.c:255-257 | reading at a block's offset gives that block's frame count |
| MxcDump.DumpPhases | utils/mxc_waveform_dump/main.c:84-103 | luts[k][y][x] is the table entry for frame k, source y and destination x, read as a nibble for version 2 and a byte otherwise |
| MxcDump.DumpPhase | utils/mxc_waveform_dump/main.c:90-102 | one frame's sixteen by sixteen entries are filled and every other frame is unchanged |
| MxcDump.DumpColumn | utils/mxc_waveform_dump/main.c:92-100 | one destination level's sixteen entries are filled and nothing else changes |
| MxcDump.PackedNibble | utils/mxc_waveform_dump/main.c:75-82 | in a table packed by the asm, nibble a holds the entry of a's partner in its byte |
| MxcDump.PairNibbles | utils/mxc_waveform_dump/main.c:75-82 | byte m of the packed table reads entry 2m+1 at the even nibble and entry 2m at the odd one |
| MxcDump.AssembledBlockDumps | utils/mxc_waveform_dump/main.c:84-103 | as written: a version 1 block dumps back in place, while a version 2 block dumps every entry as its partner |
| MxcDump.LowFirstNibble | utils/mxc_waveform_dump/main.c:75-82 | with the low-half-first packing every nibble reads back its own entry |
| MxcDump.CorrectedBlockDumps | utils/mxc_waveform_dump/main.c:84-103 | a version 2 block packed low half first dumps back to its table with every entry in place |
| MxcDump.AssembledBlockFrames | utils/mxc_waveform_dump/main.c:255 | the frame count at the head of an assembled block reads back |
| MxcAsm.LowFirstBytes | utils/mxc_waveform_asm/main.c:249-256 | the corrected version 2 packing keeps one byte per pair of entries |
| WbfFlash.ReadUint16Be | utils/wbf_flash_decompress/main.c:33-37 | the two shifted bytes combine to their big-endian value |
| WbfFlash.ReadUint16Le | utils/wbf_flash_decompress/main.c:39-43 | the two shifted bytes combine to their little-endian value |
| WbfFlash.ReadUint32Be | utils/wbf_flash_decompress/main.c:45-51 | the four shifted bytes combine to their big-endian value |
| WbfFlash.BeValueDigits | utils/wbf_flash_decompress/main.c:33-51 | the big-endian value of two or four bytes is the weighted sum of the bytes |
| WbfFlash.ReadersInvert | utils/wbf_flash_decompress/main.c:33-51 | each reader gives back the value whose encoding it reads |
| WbfFlash.ReadersDetermineBytes | utils/wbf_flash_decompress/main.c:33-51 | each reader's value re-encodes to exactly the bytes it read, so no two inputs read alike |
| WbfFlash.HeaderCheckWrapsAsWritten | utils/wbf_flash_decompress/main.c:96-99 | as written: a compressed length of 0xFFFFFFF0 passes the size check of a 16-byte file because the 32-bit sum wraps to 0 |
| WbfFlash.CheckHeader | utils/wbf_flash_decompress/main.c:96-109 | accepted exactly when header and compressed data fit the file and the version is 1; "larger" exactly when the file is longer; too small exactly when they do not fit |
| WbfFlash.CheckHeaderAgrees | utils/wbf_flash_decompress/main.c:96-109 | when the sum does not wrap the check as written and the corrected check agree |
| WbfFlash.TokenAtBytes | utils/wbf_flash_decompress/main.c:119-122 | a token's four bytes read back as that token wherever they sit |
| WbfFlash.Copied | utils/wbf_flash_decompress/main.c:126-129 | the copy loop appends exactly len bytes |
| WbfFlash.CopiedBytes | utils/wbf_flash_decompress/main.c:126-129 | the copy keeps the output so far, and each new byte repeats the byte offset places back, or is 0 for offset 0 |
| WbfFlash.ApplyToken | utils/wbf_flash_decompress/main.c:116-131 | a token applies exactly when it has no copy or its copy source starts inside the output |
| WbfFlash.ApplyTokenGrows | utils/wbf_flash_decompress/main.c:124-130 | an applied token keeps the output, adds len copied bytes and ends with its literal byte |
| WbfFlash.LiteralToken | utils/wbf_flash_decompress/main.c:126-130 | a token with len 0 appends its byte whatever its offset |
| WbfFlash.RunToken | utils/wbf_flash_decompress/main.c:126-129 | a copy from offset 1 right after a literal repeats that literal n times |
| WbfFlash.InflateGrows | utils/wbf_flash_decompress/main.c:116-131 | decoding never shrinks the output |
| WbfFlash.EncodeTokens | utils/wbf_flash_decompress/main.c:119-122 | every token takes four bytes of the stream |
| WbfFlash.TokenAtEncoded | utils/wbf_flash_decompress/main.c:119-122 | token k of an encoded stream is read back at byte 4k |
| WbfFlash.InflateEncodedFrom | utils/wbf_flash_decompress/main.c:116-131 | decoding an encoded stream from token k applies the tokens from k on |
| WbfFlash.InflateEncoded | utils/wbf_flash_decompress/main.c:116-131 | decoding an encoded token stream applies its tokens in order |
| WbfFlash.Literals | utils/wbf_flash_decompress/main.c:126-130 | the literal encoding has one len-0 token per byte |
| WbfFlash.ApplyLiterals | utils/wbf_flash_decompress/main.c:126-130 | applying literal tokens appends exactly their bytes |
| WbfFlash.LiteralRoundTrip | utils/wbf_flash_decompress/main.c:116-131 | any byte string encoded as literals decodes back to itself |
| WbfFlash.ApplyFullTokens | utils/wbf_flash_decompress/main.c:124-130 | every full token (len 255) adds 256 bytes |
| WbfFlash.InflateOverrunsBufferAsWritten | utils/wbf_flash_decompress/main.c:112-131 | as written: 4097 full tokens decode past the 1 MiB decomp_buffer, which the loop never checks |
| WbfFlash.CopySourceWrapsAsWritten | utils/wbf_flash_decompress/main.c:126-128 | as written: a first token with offset 1 and len 1 reads at index 0xFFFFFFFF, outside the buffer |
| WbfFlash.Decompress | utils/wbf_flash_decompress/main.c:89-131 | header errors exactly as the corrected check reports them; on success the buffer holds the decoded stream, within 1 MiB; a bad copy source, a token cut off by the end of the file and a full buffer are reported as such |
| WbfFlash.CopyToken | utils/wbf_flash_decompress/main.c:116-131 | one token written into the buffer extends the contents exactly as ApplyToken does, and the space after stays zero |
| WbfDump.ReadPointer | utils/wbf_waveform_dump/main.c:147-154 | a pointer's address is the 24-bit little-endian value of its first three bytes |
| WbfDump.AddressBound | utils/wbf_waveform_dump/main.c:147-154 | a three-byte address is below 2^24 |
| WbfDump.EncodePointer | utils/wbf_waveform_dump/main.c:147-154 | a pointer takes four bytes |
| WbfDump.ReadEncodedPointer | utils/wbf_waveform_dump/main.c:147-154 | an encoded pointer reads back to its address with a matching checksum |
| WbfDump.CheckedPointerIsEncoded | utils/wbf_waveform_dump/main.c:147-154 | four bytes whose checksum matches are exactly the encoding of the address they read as |
| WbfDump.ComputeCrcTable | utils/wbf_waveform_dump/main.c:166-181 | every entry n of the table is the CRC-32 of byte n by eight reflected shift steps with polynomial 0xEDB88320 |
| WbfDump.TableIndex | utils/wbf_waveform_dump/main.c:196 | the table index is below 256 |
| WbfDump.CharBitsIndex | utils/wbf_waveform_dump/main.c:183-196 | the sign extension of the signed char disappears under the mask, so the index is the low byte of register xor byte |
| WbfDump.TableLookup | utils/wbf_waveform_dump/main.c:196 | a lookup in a computed table is the byte step of the CRC |
| WbfDump.MaskMask | utils/wbf_waveform_dump/main.c:187-199 | the pre- and post-inversion undo each other |
| WbfDump.CrcRegisterConcat | utils/wbf_waveform_dump/main.c:183-200 | running the register over a and then b is running it over a + b |
| WbfDump.Crc32UpdateConcat | utils/wbf_waveform_dump/main.c:183-200 | continuing a CRC over b after a gives the CRC of a + b, which the two-call file check relies on |
| WbfDump.CheckValueEntries | utils/wbf_waveform_dump/main.c:166-181 | the table entries the check string uses have the standard CRC-32 values |
| WbfDump.CheckValueSteps | utils/wbf_waveform_dump/main.c:196 | the nine table steps of "123456789" from the inverted zero register |
| WbfDump.CheckValueRegister3 | utils/wbf_waveform_dump/main.c:183-200 | the register after "123" |
| WbfDump.CheckValueRegister6 | utils/wbf_waveform_dump/main.c:183-200 | the register after "123456" |
| WbfDump.CheckValueRegister9 | utils/wbf_waveform_dump/main.c:183-200 | the register after "123456789" |
| WbfDump.Crc32CheckValue | utils/wbf_waveform_dump/main.c:183-200 | update_crc from 0 gives the CRC-32 check value 0xCBF43926 for "123456789", as ISO 3309 defines it |
| WbfDump.Zeros | utils/wbf_waveform_dump/main.c:190-194 | n zero bytes |
| WbfDump.InputAt | utils/wbf_waveform_dump/main.c:190-194 | the CRC's input has len bytes: the buffer's, or zeros for a NULL buffer |
| WbfDump.RegisterStep | utils/wbf_waveform_dump/main.c:191-197 | one more byte is one more table step |
| WbfDump.UpdateCrc | utils/wbf_waveform_dump/main.c:183-200 | the loop computes the CRC-32 continued over the buffer's first len bytes, or over zeros for NULL, and over nothing for len <= 0 |
| WbfDump.SecondPassLength | utils/wbf_waveform_dump/main.c:325 | filesize - 4 in 32 bits converted to int: the size less 4 when that fits, otherwise negative |
| WbfDump.FileCrc | utils/wbf_waveform_dump/main.c:319-327 | no check for size 0; otherwise the CRC-32 of four zero bytes followed by the file from byte 4 up to the reported size |
| WbfDump.Run | utils/wbf_waveform_dump/main.c:499-501 | a run is n copies of the byte |
| WbfDump.DecodeRle | utils/wbf_waveform_dump/main.c:482-503 | a decoded block uses at least its end marker and no more input than there is |
| WbfDump.PrependPrepend | utils/wbf_waveform_dump/main.c:482-503 | decoding two pieces one after the other is decoding them together |
| WbfDump.DecodeTable | utils/wbf_waveform_dump/main.c:472-508 | on success the buffer holds the reference decoding, the checksum is the byte sum of the block and "ok" exactly when the next byte equals it; Truncated only when the reference decoding is undefined or its checksum byte lies past the file; Overflow only when it is undefined or exceeds 1 MiB |
| WbfDump.DecodeLoop | utils/wbf_waveform_dump/main.c:482-503 | the loop reaches the end marker with the reference decoding, or reports the input's end or the buffer's |
| WbfDump.DecodeToken | utils/wbf_waveform_dump/main.c:483-502 | one input byte toggles the mode, ends the block, or writes its raw byte or run, and keeps the loop invariant |
| WbfDump.DecodeRaw | utils/wbf_waveform_dump/main.c:492-494 | a raw byte is appended, or the buffer is full |
| WbfDump.DecodeRun | utils/wbf_waveform_dump/main.c:495-502 | a run of count + 1 copies is appended, or the input or buffer ends |
| WbfDump.ProgressStart | utils/wbf_waveform_dump/main.c:478-482 | the loop invariant holds before the first byte |
| WbfDump.ProgressAtEnd | utils/wbf_waveform_dump/main.c:482-503 | input that ends before the end marker has no decoding |
| WbfDump.SumStep | utils/wbf_waveform_dump/main.c:484 | the running checksum adds each byte mod 256 |
| WbfDump.StepToggle | utils/wbf_waveform_dump/main.c:485-488 | 0xFC flips the mode and keeps the invariant |
| WbfDump.StepEnd | utils/wbf_waveform_dump/main.c:489-491 | 0xFF ends the block with the output so far and the block's byte sum |
| WbfDump.StepRaw | utils/wbf_waveform_dump/main.c:492-494 | a raw byte keeps the invariant |
| WbfDump.StepShortRun | utils/wbf_waveform_dump/main.c:495-498 | a run byte without its count has no decoding |
| WbfDump.StepRun | utils/wbf_waveform_dump/main.c:495-502 | a byte and count keep the invariant with count + 1 copies appended |
| WbfDump.ProgressGrows | utils/wbf_waveform_dump/main.c:482-503 | the final decoding is at least as long as the output so far |
| WbfDump.WriteRun | utils/wbf_waveform_dump/main.c:499-501 | the run is appended after the buffer's first bytes |
| WbfDump.EncodeRuns | utils/wbf_waveform_dump/main.c:495-502 | each run takes a byte and a count |
| WbfDump.DecodeEncodedRuns | utils/wbf_waveform_dump/main.c:482-503 | encoded runs followed by 0xFF decode back to their expansion |
| WbfDump.DecodeRawTail | utils/wbf_waveform_dump/main.c:489-494 | raw bytes without markers followed by 0xFF decode to themselves |
| WbfDump.DecodeRawBlock | utils/wbf_waveform_dump/main.c:485-494 | 0xFC, raw bytes and 0xFF decode to the raw bytes |
| WbfDump.ExpandFullRuns | utils/wbf_waveform_dump/main.c:499-501 | full runs expand to 256 bytes each |
| WbfDump.RleOverrunsBufferAsWritten | utils/wbf_waveform_dump/main.c:472-502 | as written: 4097 full runs decode past the 1 MiB derle_buffer, which the loop never checks |
| WbfDump.FirstSeenDistinct | utils/wbf_waveform_dump/main.c:442-466 | the table offsets have no duplicates and are exactly the addresses seen |
| WbfDump.FindTable | utils/wbf_waveform_dump/main.c:450-455 | -1 exactly when the address is not among the known tables; otherwise the first table with that address |
| WbfDump.AssignTableIds | utils/wbf_waveform_dump/main.c:442-466 | the offsets are the addresses in order of first appearance, and each entry's id names a table at its address |
| WbfDump.AssignTableId | utils/wbf_waveform_dump/main.c:446-465 | one more entry keeps both facts |
| WbfDump.FirstSeenSnoc | utils/wbf_waveform_dump/main.c:457-462 | a new address is appended and a known one changes nothing |
| WbfDump.FirstSeenPrefix | utils/wbf_waveform_dump/main.c:442-466 | the tables of a prefix are a prefix of all the tables |
| WbfDump.SameAddressSameId | utils/wbf_waveform_dump/main.c:442-466 | two entries share an id exactly when they share an address |
| WbfDump.Bpp | utils/wbf_waveform_dump/main.c:309-317 | 4 or 5 bits per pixel, and 5 for ACeP |
| WbfDump.PhasesPerByte | utils/wbf_waveform_dump/main.c:509 | 2 or 4 phases per byte |
| WbfDump.FramesFit | utils/wbf_waveform_dump/main.c:509-512 | the counted phases fit the decoded table and less than one phase is left over |
| WbfDump.Unpack | utils/wbf_waveform_dump/main.c:221-230 | a byte unpacks into ppb fields, each below 4 or 16 |
| WbfDump.UnpackRepack | utils/wbf_waveform_dump/main.c:221-230 | the unpacked fields repack to the byte |
| WbfDump.RepackUnpack | utils/wbf_waveform_dump/main.c:221-230 | fields in range pack into a byte that unpacks to them |
| WbfDump.DumpPhases | utils/wbf_waveform_dump/main.c:210-232 | luts[i][y][x] is field y mod ppb of the table byte for phase i, source state x and destination state y |
| WbfDump.UnpackPhase | utils/wbf_waveform_dump/main.c:218-232 | one phase's cells are filled, other phases unchanged, and the read pointer moves one phase on |
| WbfDump.UnpackColumn | utils/wbf_waveform_dump/main.c:219-231 | one source state's cells are filled, all others unchanged |
| WbfDump.LutByteBound | utils/wbf_waveform_dump/main.c:218-221 | every byte the loops read lies inside the counted phases |
| WbfDump.UnpackByte | utils/wbf_waveform_dump/main.c:221-230 | one byte's fields land in ppb consecutive destination cells and nothing else changes |
| SpiFlash.Chunks | fw/User/spiflash.c:270-324 | the first program command starts at the write address, and there is always at least one |
| SpiFlash.ChunksJoin | fw/User/spiflash.c:298-322 | the chunks written, in order, are exactly the data |
| SpiFlash.ChunksInPages | fw/User/spiflash.c:274-322 | no chunk crosses a 256-byte page boundary and each starts where the previous one ended |
| SpiFlash.ChunkCount | fw/User/spiflash.c:274-322 | the number of program commands is the number of pages the range touches |
| SpiFlash.ChunksStep | fw/User/spiflash.c:274-321 | the first chunk runs to the end of the page or the data, and any later chunk starts on a page boundary |
| SpiFlash.ProgressStep | fw/User/spiflash.c:298-322 | every pass after the first programs a non-empty chunk and stays within the range |
| SpiFlash.ChunksAdvance | fw/User/spiflash.c:318-322 | one pass of the loop emits the next chunk of the page split and moves to a page boundary or the end |
| SpiFlash.ChunksStepAt | fw/User/spiflash.c:318-321 | the chunk split of the rest of the data, at an offset |
| SpiFlash.NextSize | fw/User/spiflash.c:320 | the loop's size for the next chunk equals the room left in the page, capped by the data left |
| SpiFlash.Write | fw/User/spiflash.c:270-325 | the program commands issued are exactly the page-aligned chunks of the data |
| SpiFlash.EraseCovers | fw/User/spiflash.c:497-505 | the erase count is the fewest 4 KiB blocks covering the length, and 0 for length 0 |
| SpiFlash.EraseBlocks | fw/User/spiflash.c:500-503 | one subsector erase per block at addr + 4096 i, in order, and "failed" exactly when some erase failed |
| SpiFlash.EraseAsWritten | fw/User/spiflash.c:497-505 | as written: the same erases, and 0 is returned even when erases fail |
| SpiFlash.Erase | fw/User/spiflash.c:497-505 | the same erases, and 0 exactly when every erase succeeded, -1 otherwise |
| SpiFlash.SectorAddressInDevice | fw/User/spiflash.c:353-362 | the address of a sector in the device lies in the device, on a sector boundary, and gives back its sector |
| SpiFlash.StatusByBits | fw/User/spiflash.c:403-433 | error when any error bit is set; else suspended when a suspend bit is set; else ready exactly when the ready bit is set and busy otherwise; a failed read gives 255, none of these |
| SpiFlash.BitsOfByte | fw/User/spiflash.c:426-432 | each flag mask test is the test of its bits |
| CsvSplit.LinesFit | utils/mxc_waveform_asm/split.c:14-82 | the second pass never yields more lines than the first pass counted |
| CsvSplit.LinesNonEmpty | utils/mxc_waveform_asm/split.c:55-61 | no line yielded is empty: an empty line ends the list |
| CsvSplit.LinesJoin | utils/mxc_waveform_asm/split.c:37-82 | when every counted line is yielded, joining them with newlines gives back the text |
| CsvSplit.MovedAhead | utils/mxc_waveform_asm/split.c:39 | advancing the pointer keeps the text |
| CsvSplit.EndOfText | utils/mxc_waveform_asm/split.c:55-82 | at the terminator the line so far is added unless it is empty |
| CsvSplit.TerminatedPrefix | utils/mxc_waveform_asm/split.c:59-81 | the buffer holds the lines followed by NULL |
| CsvSplit.JoinOfLines | utils/mxc_waveform_asm/split.c:9-86 | when no empty line cuts the text short, the lines join back to the text |
| CsvSplit.QuotedNewlineKept | utils/mxc_waveform_asm/split.c:16-51 | a newline inside quotes does not split a line |
| CsvSplit.EmptyLineStops | utils/mxc_waveform_asm/split.c:58-61 | an empty line ends the output, dropping every line after it |
| CsvSplit.CountLines | utils/mxc_waveform_asm/split.c:14-29 | the first pass counts one more line than there are unquoted newlines |
| CsvSplit.SplitOnUnescapedNewlines | utils/mxc_waveform_asm/split.c:9-86 | the result has room for the counted lines and holds the lines of the text followed by NULL |
| CsvSplit.SplitStep | utils/mxc_waveform_asm/split.c:39-82 | one character of the second pass keeps the split so far consistent, or finishes the result |
| SysLog.Advance | fw/User/syslog.c:73-76 | the next slot is one on, wrapping to 0 after the last |
| SysLog.RingIndex | fw/User/syslog.c:179-184 | the slot of the k-th oldest line is inside the ring |
| SysLog.AppendedKeepsNewest | fw/User/syslog.c:73-84 | after a print the log holds the newest 99 lines ever printed, the new line last |
| SysLog.TrimTrailing | fw/User/syslog.c:192-198 | trimming only removes characters from the end |
| SysLog.TrimTrailingShape | fw/User/syslog.c:192-198 | the trimmed line does not end in whitespace and everything removed was whitespace |
| SysLog.TrimAsWrittenReadsBefore | fw/User/syslog.c:193-197 | as written: the loop runs off the front of the line exactly when the line is all whitespace; otherwise it trims as intended |
| SysLog.EmptyLineRunsOffAsWritten | fw/User/syslog.c:193-197 | as written: an empty or all-blank line makes the trim read before the buffer |
| SysLog.SplitStamp | fw/User/syslog.c:201-203 | seconds times 1000 plus milliseconds is the stamp, with milliseconds below 1000 |
| SysLog.CopyOut | fw/User/syslog.c:185 | the line holds the text cut to the buffer less one, NUL-terminated |
| SysLog.TrimEnd | fw/User/syslog.c:192-198 | the line becomes its trailing-whitespace trim, stopping at the first character, NUL-terminated |
| SysLog.ShowLine | fw/User/syslog.c:185-198 | the caller's buffer holds the stored text, cut to fit and trimmed, NUL-terminated |
| SysLog.Log.Count | fw/User/syslog.c:42-43 | the ring holds fewer than 100 lines, and none exactly when head equals tail |
| SysLog.Log.Entries | fw/User/syslog.c:42-47 | one entry per line held |
| SysLog.Log.constructor | fw/User/syslog.c:54-64 | an empty log with the counters at 0 |
| SysLog.Log.Print | fw/User/syslog.c:66-101 | the message, cut to 127 characters and stamped, becomes the newest line; the oldest is dropped and counted when the ring was full; the sequence number goes up by one in 32 bits |
| SysLog.Log.PrintedEntries | fw/User/syslog.c:73-89 | the slots after a print hold the previous lines with the new one appended |
| SysLog.Log.RemovedEntries | fw/User/syslog.c:179-184 | advancing tail removes exactly the oldest line |
| SysLog.Log.Next | fw/User/syslog.c:171-210 | an empty log gives nothing and changes nothing; otherwise the oldest line is removed and returned, cut and trimmed, with its stamp split into seconds and milliseconds, and the counters are unchanged |
| Term.EmittedVerbatim | fw/User/shell/term.c:128-148 | text without newlines, or any text in raw mode, is emitted as it is |
| Term.EmittedLength | fw/User/shell/term.c:128-148 | cooked mode emits one extra carriage return per newline and nothing else |
| Term.CyAfterBounds | fw/User/shell/term.c:130-134 | a newline moves cy down but never past the number of lines, and text without a newline leaves it |
| Term.AnsiSeq | fw/User/shell/term.c:20-32 | an escape sequence is at most 13 characters, as the 14-byte buffer cuts it |
| Term.Terminal.constructor | fw/User/shell/term.c:181-193 | the size as given, the cursor at the origin, cooked mode |
| Term.Terminal.PutCh | fw/User/shell/term.c:128-138 | a newline in cooked mode emits a carriage return first, resets cx and moves cy down while below the last line; any other character is emitted as it is |
| Term.Terminal.PutStr | fw/User/shell/term.c:141-148 | the characters are put one by one, in order |
| Term.Terminal.Ansi | fw/User/shell/term.c:20-32 | ESC [ and the body, cut to fit, are emitted; the cursor is unchanged |
| Term.Terminal.ClrScr | fw/User/shell/term.c:35-39 | ESC [ 2 J is emitted and the cursor goes to the origin |
| Term.Terminal.ClrEol | fw/User/shell/term.c:42-45 | ESC [ K is emitted and the cursor is unchanged |
| Term.Terminal.GotoXY | fw/User/shell/term.c:48-53 | ESC [ y ; x H is emitted and the cursor is at (x, y) |
| Term.Terminal.Up | fw/User/shell/term.c:56-60 | ESC [ n A is emitted and cy goes up by n in 32-bit arithmetic |
| Term.Terminal.Down | fw/User/shell/term.c:63-67 | ESC [ n B is emitted and cy goes down by n in 32-bit arithmetic |
| Term.Terminal.RightAsWritten | fw/User/shell/term.c:70-74 | as written: ESC [ n C moves the screen cursor right while cx goes back by n |
| Term.Terminal.LeftAsWritten | fw/User/shell/term.c:77-81 | as written: ESC [ n D moves the screen cursor left while cx goes forward by n |
| Term.Terminal.Right | fw/User/shell/term.c:70-74 | ESC [ n C is emitted and cx goes forward by n |
| Term.Terminal.Left | fw/User/shell/term.c:77-81 | ESC [ n D is emitted and cx goes back by n |
| Term.Terminal.SetSize | fw/User/shell/term.c:99-104 | the new size is stored and ESC [ 8 ; lines ; cols t is emitted |
| Term.Terminal.SetMode | fw/User/shell/term.c:106-113 | the mode becomes the old mode with the given bits set or cleared, nothing else changes |
| Term.ModeAfterChangesOnly | fw/User/shell/term.c:106-113 | setting or clearing changes exactly the given bits |
| Term.ModeAfterMask | fw/User/shell/term.c:106-113 | the given bits end all set or all clear |
| Term.ModeAfterOutside | fw/User/shell/term.c:106-113 | every other bit keeps its value |
| Term.RightTracksBackwardAsWritten | fw/User/shell/term.c:70-81 | as written: from column 0 one step right gives cx 0xFFFFFFFF, where the corrected move gives 1 |
| Term.RightLeftRoundTrip | fw/User/shell/term.c:70-81 | a corrected move right then left returns cx, and without wrap the move right adds delta |
| ShellCommand.BlankControls | fw/User/shell/shell.c:309-316 | the line with every carriage return, newline and tab made a space |
| ShellCommand.BlankedShape | fw/User/shell/shell.c:309-316 | same length, no control blank left, every other character unchanged |
| ShellCommand.GlueGlue | fw/User/shell/shell.c:320-338 | gluing two prefixes in turn is gluing them together |
| ShellCommand.MarkQuotedSpaces | fw/User/shell/shell.c:318-343 | the quote pass's result: spaces inside quotes marked, or an error for an unterminated quote |
| ShellCommand.MarkFromShape | fw/User/shell/shell.c:320-338 | the quote pass only turns spaces into the marker and keeps the length |
| ShellCommand.MarkFromUnquoted | fw/User/shell/shell.c:320-338 | a line without quotes passes the quote pass unchanged |
| ShellCommand.CollapseSpaces | fw/User/shell/shell.c:345-353 | the line with every run of spaces made one space |
| ShellCommand.NoDoubleSpaceSlice | fw/User/shell/shell.c:345-353 | a piece of a line without double spaces has none either |
| ShellCommand.CollapseFromShape | fw/User/shell/shell.c:345-353 | the collapsed line has no two spaces in a row |
| ShellCommand.CollapseKeepsNonSpaces | fw/User/shell/shell.c:345-353 | collapsing keeps every other character in order |
| ShellCommand.CollapseFromFixed | fw/User/shell/shell.c:345-353 | a line without double spaces is left as it is |
| ShellCommand.CollapseIdempotent | fw/User/shell/shell.c:345-353 | collapsing twice is collapsing once |
| ShellCommand.Fields | fw/User/shell/shell.c:372-388 | cutting at spaces gives at least one word |
| ShellCommand.FieldsJoin | fw/User/shell/shell.c:372-388 | the words join back with single spaces to the line and contain no space |
| ShellCommand.FieldsNonEmpty | fw/User/shell/shell.c:357-388 | a trimmed line without double spaces cuts into non-empty words |
| ShellCommand.TrimmedShape | fw/User/shell/shell.c:357-365 | dropping one leading and one trailing space leaves a non-empty line with no space at either end |
| ShellCommand.SplitArgs | fw/User/shell/shell.c:367-393 | accepted exactly when there are at most SHELL_MAX_ARGS words, and then argv is the words |
| ShellCommand.RestoreUndoesMark | fw/User/shell/shell.c:399-404 | putting the spaces back undoes the quote pass |
| ShellCommand.UnquoteQuoted | fw/User/shell/shell.c:405-410 | a word in matching quotes loses exactly them |
| ShellCommand.FixArgs | fw/User/shell/shell.c:395-411 | each argument gets its spaces back and loses matching outer quotes |
| ShellCommand.CommandIndexFrom | fw/User/shell/shell.c:413-430 | the first entry with the name, searching from k, or the NULL entry when none matches |
| ShellCommand.FindCommand | fw/User/shell/shell.c:413-430 | the loop finds the table position of the name, or the NULL entry |
| ShellCommand.ExecuteCommand | fw/User/shell/shell.c:297-433 | the outcome of the whole pipeline: empty, bad quote, too many arguments, unknown, or the command to run with its arguments |
| ShellCommand.TokenizeWords | fw/User/shell/shell.c:367-411 | a command that reaches the table has 1 to SHELL_MAX_ARGS arguments, cut from the cleaned line into non-empty words that join back to it |
| ShellCommand.BlankLineIgnored | fw/User/shell/shell.c:345-355 | a line of blanks runs nothing |
| ShellCommand.AllSpacesCollapse | fw/User/shell/shell.c:345-355 | a line of spaces collapses to one space |
| ShellCommand.ExitStopsShell | fw/User/shell/shell.c:491-494 | the matched command has no handler exactly when it is "exit", which ends shell_poll |
| ShellCommand.RunMatchesEntry | fw/User/shell/shell.c:423-428 | a command that runs is the table entry its first argument names |
| ShellCommand.ExitOnlyAtEnd | fw/User/shell/shell.c:100-119 | "exit" is the last entry and no other |
| ShellHelp.StrLessAsymmetric | fw/User/shell/shell.c:182 | strcmp's order never has both a < b and b < a |
| ShellHelp.StrLessTransitive | fw/User/shell/shell.c:182 | strcmp's order is transitive |
| ShellHelp.StrLessTotal | fw/User/shell/shell.c:182 | any two names are equal or ordered one way |
| ShellHelp.NotLessTransitive | fw/User/shell/shell.c:182 | "not less" is transitive too |
| ShellHelp.SortedThroughout | fw/User/shell/shell.c:176-205 | keys sorted pair by pair are sorted throughout |
| ShellHelp.Keys | fw/User/shell/shell.c:179-182 | one name per index |
| ShellHelp.Swap | fw/User/shell/shell.c:184-185 | a swap keeps the length |
| ShellHelp.BelowSwap | fw/User/shell/shell.c:184-185 | swapping two neighbours leaves how many keys lie below any outside name |
| ShellHelp.SwapDecreases | fw/User/shell/shell.c:182-186 | swapping an out-of-order pair removes at least one inversion, so the sort ends |
| ShellHelp.SwapKeepsIndices | fw/User/shell/shell.c:184-185 | a swap keeps the indices distinct and in range |
| ShellHelp.SwapAdjacent | fw/User/shell/shell.c:184-185 | the array becomes the swapped sequence |
| ShellHelp.CompareAndSwap | fw/User/shell/shell.c:179-187 | swapped exactly when the pair was out of order, which removes an inversion; otherwise nothing changes |
| ShellHelp.Pass | fw/User/shell/shell.c:176-204 | a pass that swaps removes inversions, and one that does not leaves the order sorted |
| ShellHelp.Alphabetize | fw/User/shell/shell.c:145-207 | the indices are a permutation sorted by command name, with the NULL entry's index last |
| ShellHelp.HelpOrderSorted | fw/User/shell/shell.c:234-245 | the help listing walks the names in non-decreasing order |
| ShellPlatform.PlainKeyPrintable | fw/User/shell/shell_platform.c:120-121 | a byte outside an escape is returned as itself exactly when it is printable |
| ShellPlatform.PlainKeyControls | fw/User/shell/shell_platform.c:126-155 | carriage return, tab, the two backspaces and the control codes give their keys |
| ShellPlatform.HomeEndMissedAsWritten | fw/User/shell/shell_platform.c:80-96 | as written: ESC [ 1 ~ and ESC [ 4 ~ give no key, while ESC [ 49 ~ gives Home |
| ShellPlatform.HomeEndRecognised | fw/User/shell/shell_platform.c:80-96 | with the corrected comparison ESC [ 1 ~ is Home and ESC [ 4 ~ is End |
| ShellPlatform.Semicolon | fw/User/shell/shell_platform.c:98-103 | the corrected count stays below the number of parameter slots |
| ShellPlatform.FifthParameterAsWritten | fw/User/shell/shell_platform.c:98-103 | as written: a fourth ';' moves the parameter count to 4, one past the table |
| ShellPlatform.Translator.constructor | fw/User/shell/shell_platform.c:22-26 | no escape in progress, empty parameters |
| ShellPlatform.Translator.Translate | fw/User/shell/shell_platform.c:20-158 | outside an escape a byte gives its plain key or starts an escape; ESC ESC is Esc; ESC [ A..D are the arrows; a digit starts the parameters; other bytes cancel |
| ShellPlatform.Translator.ReadParameter | fw/User/shell/shell_platform.c:68-114 | digits append up to the size limit; ';' moves to the next parameter; '~' gives the key of the parameters; 'R' with two parameters sets the terminal's lines and columns |
| Xmodem.Crc16Concat | fw/User/xmodem/xmodem.c:73-91 | the CRC of a concatenation is the CRC of the second part continued from the CRC of the first |
| Xmodem.Crc16CheckValue | fw/User/xmodem/xmodem.c:73-91 | the CRC of the nine digits "123456789" is 0x31C3, the CRC-16/XMODEM check value |
| Xmodem.Crc16Ccitt | fw/User/xmodem/xmodem.c:73-91 | the shift-and-xor loop over the buffer yields the CRC-16 of the whole buffer |
| Xmodem.Check | fw/User/xmodem/xmodem.c:97-116 | true exactly when the block's trailer matches: the big-endian CRC in CRC mode, the additive 8-bit checksum otherwise |
| Xmodem.Trailer | fw/User/xmodem/xmodem.c:289-300 | the trailer the sender appends is two bytes in CRC mode and one otherwise |
| Xmodem.BlockValidIffTrailer | fw/User/xmodem/xmodem.c:97-116 | a block with trailer t passes the receiver's check if and only if t is the trailer the sender computes for it |
| Xmodem.PreviousOfNext | fw/User/xmodem/xmodem.c:189-204 | stepping the 8-bit packet number forward and then back gives the number again, wrap-around included |
| Xmodem.AcceptedAgrees | fw/User/xmodem/xmodem.c:189-191 | while the expected number is not 0 the acceptance test as written and the corrected one agree |
| Xmodem.RepeatAfterWrapRefusedAsWritten | fw/User/xmodem/xmodem.c:189-191 | once the expected number has wrapped to 0 a repeat of packet 255 is refused as written and accepted by the corrected test |
| Xmodem.Padded | fw/User/xmodem/xmodem.c:280-288 | the data block holds the chunk followed by padding: zero bytes in YMODEM, CTRL-Z otherwise |
| Xmodem.SentPacketAccepted | fw/User/xmodem/xmodem.c:266-300 | every packet the transmitter frames has the length the receiver reads, a start byte for its block size, passes the receiver's acceptance test for its number and carries the chunk |
| Xmodem.AwaitFrom | fw/User/xmodem/xmodem.c:142-171 | a start byte heard is one of the expected ones and was read just before the returned position; silence consumes between one and two reads per remaining try |
| Xmodem.Await | fw/User/xmodem/xmodem.c:142-171 | the synchronisation loop returns what the wait specification gives from the first read on |
| Xmodem.CanceledAfterTwoCans | fw/User/xmodem/xmodem.c:160-166 | the wait ends canceled only when two CAN bytes were read in a row |
| Xmodem.SilenceGivesUp | fw/User/xmodem/xmodem.c:142-178 | with no input at all the wait gives up after MAXSYNCTRETRY timed-out reads |
| Xmodem.ReadPacket | fw/User/xmodem/xmodem.c:180-187 | a packet is read exactly when every byte of its length arrives in time, and then holds the start byte followed by those bytes |
| Xmodem.Receiver.constructor | fw/User/xmodem/xmodem.c:130-139 | the receiver starts at packet 1 (0 in YMODEM), nothing stored and MAXRETRANS retries left |
| Xmodem.Receiver.Synchronize | fw/User/xmodem/xmodem.c:141-178 | the sync phase starts a packet on SOH or STX, ends with the length on EOT, -1 on CAN CAN, -2 with three CANs on silence, after falling back once from YMODEM-G to CRC mode |
| Xmodem.Receiver.OnPacket | fw/User/xmodem/xmodem.c:189-220 | an accepted new packet stores up to the destination size and advances the number; a repeat only costs a retry, -3 when retries run out; ACK goes out unless in YMODEM-G, and in YMODEM mode the control block then ends the call with the length; anything else is NAKed |
| Xmodem.BlockSize | fw/User/xmodem/xmodem.c:268-277 | the block size is 1024 only in 1K mode with more than 128 bytes left, 128 otherwise |
| Xmodem.BuildPacket | fw/User/xmodem/xmodem.c:266-300 | the transmit buffer holds the framed packet for the chunk: header, padded data and trailer |
| Xmodem.FillData | fw/User/xmodem/xmodem.c:280-288 | the data area holds the padded chunk and the header bytes are untouched |
| Xmodem.WriteTrailer | fw/User/xmodem/xmodem.c:289-300 | the bytes after the data hold the trailer of the data, which is left as it was |
| Xmodem.SendWithRetries | fw/User/xmodem/xmodem.c:301-329 | the retry loop for one packet returns what the send specification gives over the replies read |
| Xmodem.SentWithinRetries | fw/User/xmodem/xmodem.c:301-324 | a packet counts as sent only after at most MAXRETRANS transmissions |
| Xmodem.SilenceFails | fw/User/xmodem/xmodem.c:301-329 | with every reply timing out the sender gives up with the transmit error |
| Xmodem.FinishTransfer | fw/User/xmodem/xmodem.c:334-345 | the end of a transfer returns the length sent when one of the first ten EOTs is acknowledged, -5 otherwise |
| Xmodem.StagedChunk | fw/User/xmodem/xmodem.c:268-300 | a buffer holding the framed next chunk is a staged packet for the remaining bytes |
| Xmodem.FetchPacket | fw/User/xmodem/xmodem.c:268-300 | a packet is staged exactly when bytes remain, and the buffer is left alone at the end |
| Xmodem.Transmitter.constructor | fw/User/xmodem/xmodem.c:227-232 | the transmitter starts at packet 1 (0 in YMODEM), nothing sent and the check mode unknown |
| Xmodem.Transmitter.Synchronize | fw/User/xmodem/xmodem.c:235-264 | the sync phase starts on G, C or NAK choosing YMODEM-G, CRC or checksum mode, -1 on CAN CAN, -2 on silence |
| Xmodem.Transmitter.OnStart | fw/User/xmodem/xmodem.c:238-247 | only G, C and NAK start a transfer, each selecting its check mode |
| Xmodem.Transmitter.NextPacket | fw/User/xmodem/xmodem.c:267-300 | a packet for the remaining bytes is staged exactly when bytes remain |
| Xmodem.Transmitter.OnAck | fw/User/xmodem/xmodem.c:308-311 | an acknowledgement advances the packet number by one (mod 256) and the length by the block size |
| Xmodem.Code | fw/User/xmodem/xmodem.c:159-344 | every error is returned as a code from -1 to -5 |
| Xmodem.CodesDistinct | fw/User/xmodem/xmodem.c:159-344 | distinct errors have distinct codes, and no code equals a length |
| PdSink.SelectionUnique | fw/User/usbpd/usb_pd_policy.c:81-140 | the selection rule (first eligible object of strictly greatest rated power, 0 when none offers power) determines one index |
| PdSink.ExtractPdoPower | fw/User/usbpd/usb_pd_policy.c:142-163 | the voltage is the object's 50 mV field; no voltage gives no current; the current never exceeds the board maximum, its product with the voltage never exceeds the board's maximum power nor, for a Battery object, the offered power, nor, otherwise, the offered current |
| PdSink.BatteryCurrent | fw/User/usbpd/usb_pd_policy.c:154-156 | the Battery current keeps within the board's current, the board's power and the power offered |
| PdSink.FixedCurrent | fw/User/usbpd/usb_pd_policy.c:157-162 | the Fixed/Variable current keeps within the board's current, the offered current and the board's power |
| PdSink.CurrentWithinPower | fw/User/usbpd/usb_pd_policy.c:159 | a current at most cap / mv draws at most cap at mv |
| PdSink.ExtractPdoPowerAsWritten | fw/User/usbpd/usb_pd_policy.c:142-163 | as written the voltage is the same and the current within the board maximum; for Fixed/Variable objects it agrees with the corrected extraction |
| PdSink.BatteryCurrentAsWritten | fw/User/usbpd/usb_pd_policy.c:154-156 | the Battery branch as written never exceeds the board's maximum current |
| PdSink.CappedPowerAsWritten | fw/User/usbpd/usb_pd_policy.c:155-156 | as written min(1000 * uw, PD_MAX_POWER_MW) is the board maximum whenever the object offers any power, after 32-bit wrap-around |
| PdSink.WrapNeverSmall | fw/User/usbpd/usb_pd_policy.c:155-156 | 250000000 times a nonzero 10-bit power field never wraps below 15000 modulo 2^32 |
| PdSink.BatteryCapIgnoresPower | fw/User/usbpd/usb_pd_policy.c:154-156 | as written the Battery current depends on the offered power only through whether it is zero |
| PdSink.BatteryPowerIgnoredAsWritten | fw/User/usbpd/usb_pd_policy.c:154-156 | a 5 V, 1 W Battery object gets 3000 mA as written where the offered power allows 200 mA |
| PdSink.PackRdo | fw/User/usbpd/usb_pd_policy.c:213-218 | the packed request reads back the object position, operating and maximum fields and mismatch flag it was built from, without the give-back flag |
| PdSink.CheckRequestedVoltage | fw/User/usbpd/usb_pd_policy.c:26-69 | a request is accepted exactly when its position names an advertised object, its operating current fits the object's current and so does its maximum unless it flags a mismatch |
| PdSink.BoardRejectsOtherPositions | fw/User/usbpd/usb_pd_policy.c:62-69 | with the board's one advertised object every position other than 1 is refused |
| PdSink.SinkPort.constructor | fw/User/usbpd/usb_pd_policy.c:75-79 | no capabilities received and the voltage cap at the board maximum |
| PdSink.SinkPort.ProcessSourceCap | fw/User/usbpd/usb_pd_policy.c:222-242 | the stored capabilities become the ones received; older entries beyond them and the voltage cap are kept |
| PdSink.SinkPort.SetMaxVoltage | fw/User/usbpd/usb_pd_policy.c:247-250 | the voltage cap becomes the value given and the capabilities are kept |
| PdSink.SinkPort.FindPdoIndex | fw/User/usbpd/usb_pd_policy.c:81-140 | the loop returns the index the selection rule defines, within the received capabilities, with that object's value |
| PdSink.SinkPort.BuildRequest | fw/User/usbpd/usb_pd_policy.c:165-220 | the request names object 1 for vSafe5V and otherwise the selected object under the voltage cap, and is the request that object calls for |
| PdSink.RequestFor | fw/User/usbpd/usb_pd_policy.c:183-218 | the request names the object, carries the extracted current and voltage, flags a mismatch exactly below the operating power, sets both current fields to the current (Fixed/Variable) or the power (Battery) and no give-back |
| PdSink.BuiltRequestAccepted | fw/User/usbpd/usb_pd_policy.c:26-60 | a Fixed/Variable request the sink builds from a source's capabilities passes that source's check |
| PdSvdm.Or3 | fw/User/usbpd/usb_pd_policy.c:718 | or-ing two version numbers below 8 (below 4) gives one below 8 (below 4) |
| PdSvdm.Decode | fw/User/usbpd/usb_pd_policy.c:660-661 | the header fields read back from a VDM header word are in range and are the word's bit fields |
| PdSvdm.DecodeEncodeHigh | fw/User/usbpd/usb_pd_policy.c:660-666 | encoding a header puts its version and upper reserved bits back where decoding reads them |
| PdSvdm.DecodeEncodeLow | fw/User/usbpd/usb_pd_policy.c:660-666 | encoding a header puts its lower reserved bit and command back where decoding reads them |
| PdSvdm.DecodeEncode | fw/User/usbpd/usb_pd_policy.c:660-666 | decoding an encoded header gives the header back |
| PdSvdm.EncodeDecode | fw/User/usbpd/usb_pd_policy.c:660-666 | encoding a decoded word gives the word back |
| PdSvdm.OrVersion | fw/User/usbpd/usb_pd_policy.c:718 | stamping the port's VDM version keeps a header in range |
| PdSvdm.InitReply | fw/User/usbpd/usb_pd_policy.c:705-718 | a reply is ACK for a positive size, NAK for 0 and BUSY for a negative one, at least one object long, with only the command type and version changed |
| PdSvdm.BusyResend | fw/User/usbpd/usb_pd_policy.c:797-815 | a BUSY answer is resent exactly for the three discovery commands |
| PdSvdm.IdentityIsModalAdapter | fw/User/usbpd/usb_pd_policy.c:1045-1074 | the identity header names an alternate-mode adapter with modal support under Google's VID, and the SVID object names DisplayPort alone |
| PdSvdm.DpStatusWord | fw/User/usbpd/usb_pd_policy.c:1087-1094 | the status object says UFP_D connected, no multi-function preference, no exit request or IRQ, and HPD high and enabled exactly when DP is enabled |
| PdSvdm.UfpRespond | fw/User/usbpd/usb_pd_policy.c:1061-1152 | the responder's answer per command: identity, the DisplayPort SVID, the DP mode for the DP SVID only, enter and status only for the DP SVID and position 1, config and exit always acknowledged, everything else NAKed; other words unchanged |
| PdSvdm.ResponderGetsPinC | fw/User/usbpd/usb_pd_policy.c:511-540 | a DFP that discovers this adapter's mode chooses pin assignment C whatever the adapter reports |
| PdSvdm.VdmPort.constructor | fw/User/usbpd/usb_pd_policy.c:1041-1042 | no alternate mode entered and DP not enabled |
| PdSvdm.VdmPort.AltMode | fw/User/usbpd/usb_pd_policy.c:1141-1144 | the responder reports the mode it has entered, whatever SVID is asked |
| PdSvdm.VdmPort.EnterModeResponse | fw/User/usbpd/usb_pd_policy.c:1129-1139 | entry is acknowledged exactly for the DisplayPort SVID at position 1, which then becomes the entered mode |
| PdSvdm.VdmPort.ExitModeResponse | fw/User/usbpd/usb_pd_policy.c:1146-1152 | exit is always acknowledged and leaves no mode entered and DP disabled |
| PdSvdm.VdmPort.DpConfigResponse | fw/User/usbpd/usb_pd_policy.c:1099-1107 | a configuration is acknowledged and enables DP when it selects a DP role; DP once enabled stays enabled |
| PdSvdm.VdmPort.InitRespond | fw/User/usbpd/usb_pd_policy.c:669-708 | the payload and size are the responder's answer for the command, with the mode and DP state updated as the answer says |
| PdSvdm.VdmPort.Svdm | fw/User/usbpd/usb_pd_policy.c:658-826 | an initiator message gets the responder's answer under the reply type and the port's version; an attention is consumed with no reply; an ACK drives discovery on a DFP; a BUSY resends discovery; a NAK or an unknown type gets no reply |
| PdSvdm.OposOfPositionIsZero | fw/User/usbpd/usb_pd_policy.c:761 | a bare object position read as a header has position field 0 |
| PdSvdm.ConsumeAttention | fw/User/usbpd/usb_pd_policy.c:479-490 | the payload becomes what the attention hook of the matching entered mode makes of it, or stays as it was |
| PdSvdm.WithVersion | fw/User/usbpd/usb_pd_policy.c:795 | stamping the version changes the decoded header only by or-ing in the version |
| PdSvdm.StampVersion | fw/User/usbpd/usb_pd_policy.c:794-795 | only the header word changes and it gets the port's version |
| PdSvdm.AckRespond | fw/User/usbpd/usb_pd_policy.c:719-795 | on a UFP an ACK gets no reply; on a DFP identity leads to the SVID request, SVIDs to a modes request while SVIDs remain, and config, exit and attention get no reply |
| PdSvdm.DfpAck | fw/User/usbpd/usb_pd_policy.c:725-792 | per command, the DFP's follow-up: the next discovery request; after the last Discover Modes the default mode's Enter Mode request and slots as EnterRequest gives them on the slots held before, sent exactly when nonzero; the status and config hooks of an entered mode; or no reply |
| PdDfp.Header | fw/User/usbpd/usb_pd_policy.c:308-347 | a header built from SVID, position, type and command reads back those fields as a structured VDM |
| PdDfp.DiscoverSvidsRequest | fw/User/usbpd/usb_pd_policy.c:306-310 | the request is a structured Discover SVIDs initiator for the PD SID |
| PdDfp.UnpackSvids | fw/User/usbpd/usb_pd_policy.c:318-336 | the SVIDs a response carries are at most two per object |
| PdDfp.UnpackSvidsSpec | fw/User/usbpd/usb_pd_policy.c:318-336 | every SVID listed is the nonzero half-word at its place, and the list stops at the first zero half-word |
| PdDfp.SvidScanOverreadsAsWritten | fw/User/usbpd/usb_pd_policy.c:318-336 | a response filled with SVIDs makes the loop as written go past the six objects it carries |
| PdDfp.SvidScanOverflowsAsWritten | fw/User/usbpd/usb_pd_policy.c:318-336 | starting from an odd count the loop as written steps over the table-end test and writes past the sixteen slots |
| PdDfp.HighestPin | fw/User/usbpd/usb_pd_policy.c:539 | the highest set bit of a pin mask: zero only for zero, otherwise a single pin of the mask above every other |
| PdDfp.PinMode | fw/User/usbpd/usb_pd_policy.c:511-540 | the pin assignment chosen is one the mode offers, never a Gen 2 one, multi-function only when preferred, C or D over E or F, and none only when nothing survives |
| PdDfp.PinModeAllReceptacle | fw/User/usbpd/usb_pd_policy.c:511-540 | a receptacle offering C, D and E with no multi-function preference gets C |
| PdDfp.PinModeAllReceptacleMf | fw/User/usbpd/usb_pd_policy.c:511-540 | the same receptacle preferring multi-function gets D |
| PdDfp.ModeLookupDerefsNullAsWritten | fw/User/usbpd/usb_pd_policy.c:365-374 | as written the lookup in a freshly reset table dereferences the empty first slot's function pointer |
| PdDfp.AppendSvids | fw/User/usbpd/usb_pd_policy.c:318-336 | appending SVIDs keeps the table's size |
| PdDfp.AppendSvidsAt | fw/User/usbpd/usb_pd_policy.c:318-336 | slots from the start count on hold the appended SVIDs in order; other slots are unchanged |
| PdDfp.AppendKeepsModes | fw/User/usbpd/usb_pd_policy.c:318-336 | appending SVIDs changes no slot's modes |
| PdDfp.UnpackAt | fw/User/usbpd/usb_pd_policy.c:318-336 | the SVIDs from an object on are its upper half, then its lower half, then the rest, stopping at a zero |
| PdDfp.UnpackAtHalf | fw/User/usbpd/usb_pd_policy.c:324-332 | a half-word is zero exactly where the SVID list ends, and below that it is the listed SVID |
| PdDfp.ScanStep | fw/User/usbpd/usb_pd_policy.c:324-334 | one half-word of the loop either ends the scan where the list ends or stores the next SVID |
| PdDfp.ScanFinish | fw/User/usbpd/usb_pd_policy.c:318-336 | when the loop stops, it has stored as many SVIDs as the list holds or the table has room for |
| PdDfp.ScanSvids | fw/User/usbpd/usb_pd_policy.c:318-336 | the count grows by the SVIDs listed, up to the table's room, and the table holds them appended after the old count |
| PdDfp.FirstPair | fw/User/usbpd/usb_pd_policy.c:406-424 | the pair found lies within the supported modes and the discovered entries |
| PdDfp.FirstPairSpec | fw/User/usbpd/usb_pd_policy.c:406-424 | the scan's pair matches and no pair scanned before it does; with none found, no pair from the start on matches |
| PdDfp.Allocate | fw/User/usbpd/usb_pd_policy.c:390-424 | the slots stay consistent and the slot given is -1 or a taken one |
| PdDfp.EnterRequestShape | fw/User/usbpd/usb_pd_policy.c:430-456 | a built request is an Enter Mode initiator for the SVID asked at the entered position; an opos past PDO_MODES builds none; the slots stay consistent |
| PdDfp.EnteredModeReported | fw/User/usbpd/usb_pd_policy.c:383-388 | after a mode is entered for a nonzero SVID, pd_alt_mode for that SVID reports the position the request carries |
| PdDfp.PolicyEngine.constructor | fw/User/usbpd/usb_pd_policy.c:275-278 | the discovery state starts reset |
| PdDfp.PolicyEngine.Init | fw/User/usbpd/usb_pd_policy.c:275-278 | re-initialising resets all discovery state |
| PdDfp.PolicyEngine.ConsumeIdentity | fw/User/usbpd/usb_pd_policy.c:280-304 | the identity objects received (at most its size) are stored and every other piece of discovery state is reset |
| PdDfp.PolicyEngine.ConsumeSvids | fw/User/usbpd/usb_pd_policy.c:312-340 | the SVIDs of the response are appended after those already known, up to the table's room, and nothing else changes |
| PdDfp.PolicyEngine.DiscoverModes | fw/User/usbpd/usb_pd_policy.c:342-349 | a Discover Modes request for the current SVID exists exactly while SVIDs remain to query |
| PdDfp.PolicyEngine.ConsumeModes | fw/User/usbpd/usb_pd_policy.c:351-363 | the current SVID's mode count becomes cnt - 1 and its first modes the ones received; the index moves to the next SVID; nothing else changes |
| PdDfp.PolicyEngine.GetModeIdx | fw/User/usbpd/usb_pd_policy.c:365-374 | the first allocated slot running the SVID, or -1 when none does |
| PdDfp.PolicyEngine.AltMode | fw/User/usbpd/usb_pd_policy.c:383-388 | the entered position of the SVID's slot, -1 exactly when it has none |
| PdDfp.PolicyEngine.AllocateMode | fw/User/usbpd/usb_pd_policy.c:390-424 | an existing slot is reused; with no room -1; otherwise the first supported SVID among those discovered (matching the one asked for) takes the next slot, and -1 only when none matches; the result and slots are Allocate's |
| PdDfp.PolicyEngine.EnterMode | fw/User/usbpd/usb_pd_policy.c:430-456 | with Allocate's slot r: a request is built exactly when r is not -1, the position is 0 or within the SVID's mode count, and the enter hook accepts that mode's capabilities; it is then the Enter Mode header for the slot's SVID at that position (default 1); the slot's position is set whenever it fits, even when the hook refuses; the discovery tables and identity are unchanged; request and slots are EnterRequest's on the state before |
| PdDfp.PolicyEngine.EnterSlot | fw/User/usbpd/usb_pd_policy.c:441-455 | for an allocated slot: a request exactly when the position is 0 or within the mode count and the hook accepts that mode's capabilities, then the Enter Mode header for the slot's SVID at that position; the position is stored whenever it fits; nothing else changes |
| PdDfp.PolicyEngine.ExitMode | fw/User/usbpd/usb_pd_policy.c:542-576 | SVID 0 resets everything and returns 0; otherwise 1 exactly when the slot for the SVID has that position entered, which is then cleared; nothing else changes |
| PdDfp.PolicyEngine.DpPinMode | fw/User/usbpd/usb_pd_policy.c:511-540 | with no DisplayPort slot no pin is chosen; otherwise the pin the entered mode's capabilities give |
| PdDfp.PolicyEngine.DpCapsIndexAsWritten | fw/User/usbpd/usb_pd_policy.c:513-519 | as written the capability read is at position minus one, -1 when the mode has been exited |
| PdDfp.PolicyEngine.ExitedModeReadsBeforeTableAsWritten | fw/User/usbpd/usb_pd_policy.c:511-519 | after exit the code as written reads the word before the mode table; the corrected lookup chooses no pin |

## Left out

- Hardware transport and chip sequencing (I2C, SPI/QSPI register commands, DMA completion, PWM output, GPIO reads): the model takes their results as parameters and says what is sent.
- usb_pd.h and button.h are not part of this model: the PD bit layouts follow USB Power Delivery 3.0 (PDO type in bits 31:30, RDO position in 30:28, capability mismatch bit 26, VDM header fields), and the button thresholds are the literals in fw/User/button.c and fw/button.c.
- CPRINTF/syslog_printf logging, the console dump_pe, host commands, pd_set_vbus_discharge (mutex and GPIO), pd_charge_from_device and the charge-manager calls: output or foreign calls with no effect on the modelled state.
- pd_is_valid_input_voltage, pd_get_vdo_ver and the alternate-mode driver's enter/exit/status/config/attention hooks are parameters; one hook set (`PdSvdm.ModeFx`) stands for the driver of the one supported mode, DisplayPort, and the hook's writes through the payload pointer are its returned payload.
- The per-port arrays of usb_pd_policy.c are one object per port (`PdSink.SinkPort`, `PdDfp.PolicyEngine`): the firmware has a single port.
- PdDfp.PolicyEngine.ConsumeModes: requires svidIdx < 16; dfp_consume_modes as written writes svids[16] past the table when a Discover Modes ACK arrives after the sixteenth SVID, which is not modelled.
- PdSvdm.VdmPort.Svdm: inherits ConsumeModes' svidIdx < 16 for a Discover Modes ACK on a DFP only; every other message is covered in every state.
- PdSvdm.AckRespond: the same svidIdx < 16 only for a Discover Modes ACK on a DFP.
- PdSvdm.DfpAck: the same svidIdx < 16 only for a Discover Modes ACK.
- MxcAsm.LoadWaveform: requires every parsed source/destination range to lie in 0..15; load_waveform_csv writes lut[i*256 + dst*16 + src] for any range, so out-of-range values alias other cells or run past the table, which is not modelled.
- SpiFlash.Write: the -1 returns of spif_write when write-enable, the command, the DMA transmit or the ready poll fails (fw/User/spiflash.c:303-316) are not modelled; the method states the program commands issued when every step succeeds.
- SpiFlash.Write: requires addr + size + 256 < 2^32, so the 32-bit current_addr never wraps; the C would wrap to address 0 past the top of the address space.
- SpiFlash.Erase: the success of each block erase is the parameter `ok`; erase timing and the status polling inside spif_erase_block are left out. spif_erase_block (fw/User/spiflash.c:327-351) returns -1 on a failure but has no return statement on success, so its value is then undefined; the corrected Erase takes it to return 0 there.
- Csv.ParseCsv: a failed malloc in parse_csv (which returns NULL) is not modelled; allocation always succeeds.
- CsvSplit.SplitOnUnescapedNewlines: a failed malloc in split_on_unescaped_newlines is not modelled; allocation always succeeds.
- free_csv_line only releases memory and is not modelled.
- WbfFlash.Decompress: requires at least 8 bytes; the C reads the two 4-byte header words of any file (utils/wbf_flash_decompress/main.c:89-92), past the end of a shorter one.
- WbfFlash.Decompress: stops with InputEnds where the C would read a token past the end of file_buffer (utils/wbf_flash_decompress/main.c:117-121); the C has no such outcome and reads on.
- WbfDump.DecodeTable: stops with Truncated where the C goes on reading `*ptr++` past the end of the file, for a token, a run count or the checksum byte (utils/wbf_waveform_dump/main.c:483-505); the C has no such outcome.
- WbfDump.FileCrc: requires the file to hold the 4 + (filesize - 4) bytes the second pass reads; the C reads past its buffer when the header's file size exceeds the data read, which is not modelled.
- LineEditor.Editor.HandleKey: a key code of 256 or more is ignored (not inserted); the C passes it to isprint, whose result is undefined there.
- LineEditor: refreshLine's screen output, linenoise_getline's terminal reads and the buffer allocation of linenoise_init are I/O and are left out; the editing keys, the history ring and the line buffer are modelled.
- ShellHelp.Alphabetize: requires at least two command names; the C table is fixed and has more, and with one name its bubble sort would not end.
- shell_exec, shell_poll, shell_start and command dispatch through the handler table: console I/O; the tokenizer and the help ordering are modelled.
- term_reset_mode, term_sync_size, term_getch, term_get_lines/cols/cx/cy and term_deinit: output-only, terminal reads or plain accessors.
- syslog_dump, syslog_printf/vprintf and syslog_dump_bytes: formatting and output; the mutex around the ring and the millisecond clock are left out (the clock reading is a parameter).
- SysLog.Log.Print: the 32-bit sequence counter is modelled with wrap-around; the vsnprintf formatting before syslog_print is not.
- Xmodem: flushinput's draining of the line, the timeouts' durations and the storeChunk/fetchChunk callbacks are left out; a read that times out is -1 in the input sequence and stored bytes are a sequence.
- Xmodem.Crc16Ccitt: the shift-and-xor form of crc16_ccitt is not proved equal to the bit-serial CRC-16/CCITT polynomial; the partner properties are the concatenation law, the check value and the sender/receiver agreement.
- WbfDump: the table-driven CRC-32 is not proved equal to the bit-serial polynomial division; the partners are the table's defining property, the update's concatenation law and the ISO 3309 check value.
- The image-writing loops and file I/O of the MXC assembler main (utils/mxc_waveform_asm/main.c:385-417), fread_csv_line and the utilities' printing are left out; the buffers they write are modelled.
- Button: fw/button.c is the same machine as fw/User/button.c with active-low input and other thresholds; it is the board parameter `PICO_BOARD` of one model.
- fw/User/power.c (floating-point rail conversion) is not part of this model; fw/power.c's level computation is modelled with C's truncating division written out.

## Findings

| source | as written | input that shows it | evidently intended | confidence | as-written member | corrected member |
|---|---|---|---|---|---|---|
| fw/User/xmodem/xmodem.c:189-191 | `(unsigned char)packetno-1` is computed in int, so with packetno wrapped to 0 the previous number is -1, never 255 | expected packet 0 after 255 packets; packet 255 arrives again because its ACK was lost | a repeat of the previous packet (255) is acknowledged and skipped | not executed | Xmodem.RepeatAfterWrapRefusedAsWritten | Xmodem.Receiver.OnPacket |
| fw/User/usbpd/usb_pd_policy.c:318-336 | the loop bound `svid_cnt + 12` is re-read while svid_cnt grows, and the slot-16 test only sees even slots | a Discover SVIDs ACK with six words of nonzero SVIDs, on an empty table (reads a seventh word) or with 5 SVIDs known (writes slot 16) | at most the six words of the message are read and at most 16 slots written | not executed | PdDfp.SvidScanOverflowsAsWritten | PdDfp.PolicyEngine.ConsumeSvids |
| fw/User/usbpd/usb_pd_policy.c:365-374 | get_mode_idx reads `amodes[i].fx->svid` for every slot, including free slots whose fx is NULL | any mode lookup on a freshly reset table | only allocated slots (below amode_idx) are searched | not executed | PdDfp.ModeLookupDerefsNullAsWritten | PdDfp.PolicyEngine.GetModeIdx |
| fw/User/usbpd/usb_pd_policy.c:511-519 | the pin mode reads `mode_vdo[opos - 1]` even when the mode was exited and opos is 0 | DP status after pd_dfp_exit_mode on the DisplayPort slot | no pin assignment for a mode not entered | not executed | PdDfp.PolicyEngine.ExitedModeReadsBeforeTableAsWritten | PdDfp.PolicyEngine.DpPinMode |
| fw/User/usbpd/usb_pd_policy.c:154-156 | the Battery branch caps `1000 * uw` (in nW) against PD_MAX_POWER_MW (in mW), so the cap is the board maximum for any nonzero power | Battery PDO 0x40019004 (5 V, 1 W) | current = offered power (capped at the board's) / voltage: 200 mA | not executed | PdSink.BatteryPowerIgnoredAsWritten | PdSink.ExtractPdoPower |
| fw/User/button.c:80-91 | the long press fires only while still pressed at exactly LONG_PRESS_THRESHOLD, and a release at that count is not short either | a press held 52 ticks (fw/User/button.c) or 520 ticks (fw/button.c) | every press past the debounce is reported once, short or long | not executed | Button.PressLostAsWritten | Button.EveryPressReported |
| fw/User/syslog.c:193-197 | the trailing-whitespace trim decrements before testing the start of the line | a stored line that is empty or all blanks | trimming stops at the first character | not executed | SysLog.EmptyLineRunsOffAsWritten | SysLog.TrimEnd |
| fw/User/shell/shell_platform.c:80-96 | `atoi(param)` is compared with the characters '1', '4', '5', '6' | ESC [ 1 ~ (Home) and ESC [ 4 ~ (End) | parameter values 1, 4, 5, 6 select Home, End, Page Up, Page Down | not executed | ShellPlatform.HomeEndMissedAsWritten | ShellPlatform.HomeEndRecognised |
| fw/User/shell/shell_platform.c:98-103 | each ';' increments param_num with no bound | ESC [ 1 ; 2 ; 3 ; 4 ; 5 | the parameter index stays inside the table | not executed | ShellPlatform.FifthParameterAsWritten | ShellPlatform.Semicolon |
| fw/User/shell/term.c:70-81 | term_right subtracts delta from term_cx and term_left adds it | term_right by 1 at column 0 | cx follows the cursor: right adds, left subtracts | not executed | Term.RightTracksBackwardAsWritten | Term.RightLeftRoundTrip |
| fw/edid.c:97-104 | the address byte from the host is used unreduced, and the read is edid[addr + 1] of a 129-byte array | the host writes address 128 or more | the address wraps inside the 128-byte block | not executed | Edid.HighAddressReadsOutsideAsWritten | Edid.PicoEdid.Receive |
| utils/wbf_waveform_dump/main.c:472-502 | the RLE loop writes derle_buffer without checking its 1 MiB size | 4097 full runs of 256 bytes | decoding stops with an error when the buffer is full | not executed | WbfDump.RleOverrunsBufferAsWritten | WbfDump.DecodeTable |
| utils/wbf_flash_decompress/main.c:112-131 | the token loop writes decomp_buffer without checking its 1 MiB size | 4097 tokens of 255 copied bytes and a literal each | decompression stops with an error when the buffer is full | not executed | WbfFlash.InflateOverrunsBufferAsWritten | WbfFlash.Decompress |
| utils/wbf_flash_decompress/main.c:126-128 | the copy source `wrptr - offset` is unsigned and wraps when offset exceeds what was written | a first token with offset 1 and length 1 | a copy source before the output is rejected | not executed | WbfFlash.CopySourceWrapsAsWritten | WbfFlash.ApplyToken |
| utils/wbf_flash_decompress/main.c:96-99 | `compressed_len + 16` is a 32-bit sum that wraps | a 16-byte file with compressed length 0xFFFFFFF0 | the header is rejected when the data does not fit the file | not executed | WbfFlash.HeaderCheckWrapsAsWritten | WbfFlash.CheckHeader |
| utils/mxc_waveform_asm/main.c:217-219 | the row-length guard tests field i while the value read is field i + 2 | the row "0,0" for a one-frame table | a row must hold a value for every frame | not executed | MxcAsm.ShortRowPassesGuardAsWritten | MxcAsm.LoadWaveform |
| utils/mxc_waveform_asm/main.c:245-258 | copy_lut packs the first entry of each pair into the high nibble, while utils/mxc_waveform_dump/main.c:75-82 reads an even address from the low nibble | any version 2 block whose paired entries differ | the two tools agree on the nibble order (low half first, as both dumpers read it) | not executed; which tool holds the intended order is not settled by the code | MxcDump.AssembledBlockDumps | MxcDump.CorrectedBlockDumps |
| fw/User/spiflash.c:497-505 | _spiffs_erase sums the erase results into res and returns 0 | a block erase that fails | a failed erase is reported to the file system; this also needs spif_erase_block to return 0 on success, which as written it does not (no return statement) | not executed | SpiFlash.EraseAsWritten | SpiFlash.Erase |
