# SNAP lite-file tools, modelled in Dafny

This project models the integer and string core of `SNAPSXLTools.py`, the
tools that support the reconfigurable SNAP diffractometer. It covers four parts:

- **Super-pixel ids** (`SuperPixel`). `superID` maps a native pixel id on a
  stack of 256 x 256 detector panels to the id of the xdim x ydim block
  ("super-pixel") that contains it. It is modelled as an integer function and
  lifted elementwise over an id array.
- **The lite-file conversion** (`DetectorPanels`, `LiteFile`). `makeLite`
  does nothing when the output file exists. Otherwise it copies the input
  file and builds the list of the 18 panel names. In panel order it overwrites
  each panel's event-id array with its (8, 8) super-pixel ids. Finally it
  rewrites the embedded instrument definition. The data file is a class
  whose fields are the datasets the conversion touches. The file system is a
  class holding a map from path to file image.
- **The instrument-definition (IDF) rewrite** (`InstrumentDefinition`, on top
  of `PyText` and `PyInt`). The text is split on newlines. Each line is
  recognised by the first of seven markers, split on double quotes, and
  fixed spans are overwritten: the panel's first id and id step, the pixel
  count and pitch, and the corner coordinates. The pieces are then joined
  again. Python's `str.split`, `str.join`, `in`, `int()` and `str()` are
  modelled character by character, including the `IndexError` and
  `ValueError` cases the rewrite can raise.
- **The run-state lookup** (`RunState`). `stateFromRunFunction` finds the run's
  NeXus file and tries five instrument logs independently. It then either
  passes them to the state-id generator or reports the missing logs in
  read order, with error value 3.

Notes on the code. The model follows the code as written:

- The "no state" id returned on every failure is the 8-character string
  `'00000-00'` (SNAPSXLTools.py:72, 82, 129). It does not have the shape of a
  real state id: `genSNAPState` returns `digest(8).hex()`, 16 hex characters
  (SNAPSXLTools.py:171).
- The function's header comment gives error value 2 for insufficient log
  data. The code returns 3; 2 is the value for an unopenable NeXus file.
- The pixel-count constants in the IDF rewrite are written out for an (8, 8)
  aggregation. The new first pixel id always scales by 1024/65536, whatever
  `sumNeigh` holds. The model keeps these constants as they are.

## Model

| member | source | states |
|---|---|---|
| SuperPixel.SuperId | SNAPSXLTools.py:307-333 | `superID` on one native id; its meaning is stated by SuperIdInPanel (closed form), SuperIdRange (panel k goes to super panel k), HitIff and FanIn (each super id gathers one xdim x ydim block) and PanelImage (onto 0 .. superN-1) |
| SuperPixel.SuperIdRange | SNAPSXLTools.py:318-333 | a native id in panel k = id div 65536 gets a super id in [k*superN, (k+1)*superN), superN = (256/xdim)*(256/ydim) |
| SuperPixel.SuperIdInPanel | SNAPSXLTools.py:318-333 | the super id is (i div xdim)*superNy + (j div ydim) + k*superN, with (i, j) = divmod(id mod 65536, 256) and both block coordinates in range |
| SuperPixel.SuperIdExamples | SNAPSXLTools.py:318-333 | with xdim = ydim = 8: id 0 goes to 0, id 2048 (i = 8, j = 0) to 32, id 65536 to 1024 |
| SuperPixel.HitIff | SNAPSXLTools.py:321-328 | a panel-0 id maps to super id s exactly when its row lies in s's xdim rows and its column in s's ydim columns |
| SuperPixel.FanIn | SNAPSXLTools.py:321-328 | every super id of a panel is the image of exactly xdim*ydim native ids |
| SuperPixel.PanelImage | SNAPSXLTools.py:318-333 | the native ids of one panel map onto exactly the super ids 0 .. superN-1 |
| SuperPixel.LiteFanIn | SNAPSXLTools.py:321-328 | for (8, 8): 1024 super ids per panel, each hit by 64 native ids |
| SuperPixel.SuperIds | SNAPSXLTools.py:307-340 | the vectorised call: same length as its input, element n is superID of element n |
| SuperPixel.SuperIdsConcat | SNAPSXLTools.py:307-340 | relabelling is elementwise: relabelling a concatenation concatenates the relabellings |
| SuperPixel.SuperIdsWithinPanel | SNAPSXLTools.py:318-333 | an array of native ids of panel k becomes an array of super ids of panel k |
| SuperPixel.HitsInRowsSize | SNAPSXLTools.py:321-328 | the first m native rows of super id s's block hold exactly m*ydim native ids of panel 0 |
| SuperPixel.BlockCorner | SNAPSXLTools.py:321-328 | every super id of panel 0 is the image of some native id of panel 0, the top-left pixel of its block |
| DetectorPanels.Panels | SNAPSXLTools.py:222-225 | the list `detpanel`; PanelNames proves the nested loops build it, PanelNameShape and PanelsFacts give its 18 two-digit names in increasing order |
| DetectorPanels.PanelNames | SNAPSXLTools.py:222-225 | the nested loops build exactly the panel list `Panels()` |
| DetectorPanels.PanelNameShape | SNAPSXLTools.py:222-225 | panel name n is the column digit n div 3 + 1 followed by the row digit n mod 3 + 1 |
| DetectorPanels.PanelsFacts | SNAPSXLTools.py:222-225 | 18 names from "11" to "63"; a string is a panel name exactly when it is two digits, the first 1..6 and the second 1..3; the list is strictly increasing and has no repeats |
| LiteFile.EventIdPath | SNAPSXLTools.py:229 | the event-id dataset path of a panel; EventIdPathInjective shows distinct panels never share a dataset |
| LiteFile.EventIdPathInjective | SNAPSXLTools.py:229 | distinct panels have distinct event-id dataset paths |
| LiteFile.PanelPathsMembers | SNAPSXLTools.py:228-229 | the first n panels' paths are exactly those of panels 0 .. n-1 |
| LiteFile.RelabelStep | SNAPSXLTools.py:228-232 | one loop iteration extends the relabelled prefix by one panel |
| LiteFile.RelabelPresence | SNAPSXLTools.py:228-232 | relabelling keeps the datasets: a panel's array is present exactly when it was at the start |
| LiteFile.PresentFrom | SNAPSXLTools.py:228-229 | the count of leading panels whose dataset exists: all before it exist, the one at it does not |
| LiteFile.PresentFromExact | SNAPSXLTools.py:228-229 | any n with all earlier panels present and panel n absent is that count |
| LiteFile.DataFile.RelabelPixelIds | SNAPSXLTools.py:222-232 | the relabel loop: every panel before the first missing dataset gets its super ids, the rest of the file is unchanged, and the missing panel is reported |
| LiteFile.DataFile.UpdateInstrumentDefinition | SNAPSXLTools.py:245-297 | the IDF dataset is replaced by its rewrite; a missing IDF or a line that cannot be rewritten is reported and the dataset is kept |
| LiteFile.Convert | SNAPSXLTools.py:222-297 | the relabel loop followed by the IDF update, as the image left behind and the failure raised; ConvertSucceeds, ConvertNamesFirstMissingPanel, ConvertRelabels and ConvertKeepsPanels state what it does, CopyAndConvert is the imperative code proved equal to it |
| LiteFile.ConvertSucceeds | SNAPSXLTools.py:222-297 | a conversion succeeds exactly when all 18 panel datasets and the IDF are present and the IDF rewrites |
| LiteFile.ConvertNamesFirstMissingPanel | SNAPSXLTools.py:228-229 | a missing dataset is reported by naming the first panel, in panel order, whose dataset is absent |
| LiteFile.ConvertRelabels | SNAPSXLTools.py:228-232 | same datasets as the source; panels up to the first missing one are relabelled, later panels and non-panel datasets are kept |
| LiteFile.ConvertKeepsPanels | SNAPSXLTools.py:228-232 | after a successful conversion a panel array whose ids all lie in native panel k has the same length and all its ids in super panel k |
| LiteFile.PanelPathsGrow | SNAPSXLTools.py:228-229 | the relabelled paths only grow as the loop advances |
| LiteFile.FileStore.MakeLite | SNAPSXLTools.py:175-297 | an existing output leaves the files untouched; a missing input changes nothing; otherwise the output is the converted copy, written up to the point of failure, and the outcome names the failure |
| LiteFile.FileStore.CopyAndConvert | SNAPSXLTools.py:207-297 | the output path holds exactly the converted image of the source, and the reported failure is the conversion's |
| InstrumentDefinition.RewriteLine | SNAPSXLTools.py:249-294 | the loop body on one line; PanelLineRewrite, PixelLineRewrite, CornerLineRewrite and PlainLineUnchanged state its result for each kind of line, RewriteLineKeepsNewlineFree that it never adds a newline |
| InstrumentDefinition.RewritePanelLine | SNAPSXLTools.py:250-259 | the panel-line branch on the quote-split spans; PanelPartsRewrite states when it raises and which spans it replaces |
| InstrumentDefinition.SetSpans | SNAPSXLTools.py:262-292 | the list assignments of a branch, raising at the first index past the end; SetSpansLength, SetSpansKeepsFree and TwoEdits state its effect |
| InstrumentDefinition.EditLine | SNAPSXLTools.py:261-292 | split on quotes, assign, join; EditLineSpans states that the result splits back into the assigned spans |
| InstrumentDefinition.RewriteIdf | SNAPSXLTools.py:247-296 | the whole text rewrite; RewriteIdfSucceeds, RewriteIdfLines and MarkerFreeTextUnchanged state it line by line, RewriteInstrumentText is the loop proved equal to it |
| InstrumentDefinition.Classify | SNAPSXLTools.py:250-293 | a recognised line contains its marker and none of the markers that come before it in the `elif` chain |
| InstrumentDefinition.Collect | SNAPSXLTools.py:249-294 | gathering per-line results stops at the first failure: success exactly when every result is a success, with the values in order; otherwise the first failing position and its error |
| InstrumentDefinition.RewriteLines | SNAPSXLTools.py:249-294 | success exactly when every line rewrites; then one output line per input line, each that line's rewrite; otherwise the first failing line and its error |
| InstrumentDefinition.RewriteInstrumentText | SNAPSXLTools.py:247-296 | the loop building `newLines` and joining them computes the text rewrite |
| InstrumentDefinition.NewIdStartFacts | SNAPSXLTools.py:255 | the new first id is the old one divided by 64, truncated toward zero; for 65536*k it is 1024*k |
| InstrumentDefinition.SetSpansLength | SNAPSXLTools.py:257-258 | overwriting spans keeps the number of spans |
| InstrumentDefinition.SetSpansKeepsFree | SNAPSXLTools.py:257-258 | overwriting with separator-free values keeps every span separator-free |
| InstrumentDefinition.EditLineSpans | SNAPSXLTools.py:262-292 | a line with overwritten spans splits back into exactly those spans and stays newline-free |
| InstrumentDefinition.PanelLineRewrite | SNAPSXLTools.py:250-259 | a panel line rewrites exactly when it has more than 7 spans and spans 3 and 7 parse as integers; span 3 becomes trunc(idstart/64), span 7 trunc(step/8), all other spans are kept |
| InstrumentDefinition.PanelPartsRewrite | SNAPSXLTools.py:251-259 | on the quote-free spans of a panel line: the rewrite succeeds exactly when spans 3 and 7 exist and parse; the result splits back into the same number of spans with only spans 3 and 7 replaced, and it is newline-free when the spans are |
| InstrumentDefinition.PixelLineRewrite | SNAPSXLTools.py:261-272 | an xpixels or ypixels line rewrites exactly when it has more than 5 spans; spans 1, 3 and 5 become "32", "-0.076632" and "+0.004944", all others are kept |
| InstrumentDefinition.CornerLineRewrite | SNAPSXLTools.py:273-292 | a corner-point line rewrites exactly when it has more than 3 spans; span 1 becomes 0.002472 (left-front-top, right-front-bottom) or -0.002472 (otherwise), span 3 becomes -0.002472, all others are kept |
| InstrumentDefinition.TwoEdits | SNAPSXLTools.py:273-292 | two span assignments raise at the first missing index, or overwrite both spans |
| InstrumentDefinition.PlainLineUnchanged | SNAPSXLTools.py:293-294 | a line with no marker is emitted unchanged |
| InstrumentDefinition.RewriteLineKeepsNewlineFree | SNAPSXLTools.py:249-294 | a rewritten line never contains a newline |
| InstrumentDefinition.RewriteIdfSucceeds | SNAPSXLTools.py:247-296 | the text rewrites exactly when each of its lines does |
| InstrumentDefinition.RewriteIdfLines | SNAPSXLTools.py:247-296 | the new text has as many lines as the old, line n is line n's rewrite, and unmarked lines are unchanged |
| InstrumentDefinition.MarkerFreeTextUnchanged | SNAPSXLTools.py:247-296 | a text whose lines carry no marker comes out identical |
| PyText.Split | SNAPSXLTools.py:247 | `str.split` on one character; SplitShape, SplitFree, SplitPrefixed, SplitKeepsFree, JoinSplit and SplitJoin state its pieces and that Join undoes it |
| PyText.Join | SNAPSXLTools.py:259 | `str.join` with a one-character separator; JoinSplit and SplitJoin state that it and Split are inverse, JoinKeepsFree what it adds |
| PyText.SplitShape | SNAPSXLTools.py:247 | `split` gives one more piece than there are separators, none of them containing the separator |
| PyText.JoinSplit | SNAPSXLTools.py:247-296 | joining the pieces of a split gives back the text, so a split and join with no assignment is the identity |
| PyText.SplitJoin | SNAPSXLTools.py:251-259 | splitting a join of separator-free pieces gives back the pieces |
| PyText.SplitPrefixed | SNAPSXLTools.py:247 | splitting a text that starts with a separator-free head yields that head first |
| PyText.SplitFree | SNAPSXLTools.py:247 | a separator-free text splits into itself |
| PyText.SplitKeepsFree | SNAPSXLTools.py:251 | the pieces of a text free of a character are free of it |
| PyText.JoinKeepsFree | SNAPSXLTools.py:259 | a join of pieces free of a character other than the separator is free of it |
| PyText.Contains | SNAPSXLTools.py:250-293 | `m in s` by a scan; ContainsOccurs states it holds exactly when m occurs at some position |
| PyText.ContainsOccurs | SNAPSXLTools.py:250-293 | `m in s` holds exactly when m occurs in s at some position |
| PyInt.ParseInt | SNAPSXLTools.py:253-254 | `int(s)`, `None` for the ValueError; ParseIntToString states that it reads back every rendering `str(n)` |
| PyInt.ParseIntToString | SNAPSXLTools.py:253-256 | `int(str(n)) == n` for every integer n |
| PyInt.ParseIntRejectsSeparator | SNAPSXLTools.py:253-254 | a number preceded by the control character U+001C is rejected: `int()` strips only space and `\t \n \v \f \r` |
| PyInt.IntToStringInjective | SNAPSXLTools.py:255-256 | distinct integers print differently |
| PyInt.DigitsValueOfNat | SNAPSXLTools.py:253-256 | the digits of a natural number read back as that number |
| PyInt.TruncDiv | SNAPSXLTools.py:255-256 | `int(a / b)`: the remainder is smaller than b in size and has the sign of a |
| PyInt.IntToString | SNAPSXLTools.py:255-256 | `str(n)` is non-empty and starts with '-' exactly for negative n |
| PyInt.StripLeft | SNAPSXLTools.py:253-254 | the result is a suffix of the input, everything removed is whitespace `int()` ignores, and the result does not start with such whitespace |
| PyInt.StripRight | SNAPSXLTools.py:253-254 | the result is a prefix of the input, everything removed is whitespace `int()` ignores, and the result does not end with such whitespace |
| RunState.MissingLogs | SNAPSXLTools.py:88-119 | `missingLogVal` after the five `try` blocks; MissingLogsIff, MissingLogsOrdered and MissingLogsExample state which logs it lists and in what order |
| RunState.MissingLogsIff | SNAPSXLTools.py:90-119 | a log is in `missingLogVal` exactly when its dataset is absent or empty; every read is tried |
| RunState.MissingLogsOrdered | SNAPSXLTools.py:90-119 | `missingLogVal` is in read order (det_arc1, det_arc2, wav, freq, GuideStat), each log at most once |
| RunState.ReadOfLaterLog | SNAPSXLTools.py:90-119 | appending the result of a later read keeps the list in read order |
| RunState.MissingLogsExample | SNAPSXLTools.py:90-119 | with det_arc1 and freq absent and the rest present, the list is ["det_arc1", "freq"] |
| RunState.FirstSample | SNAPSXLTools.py:91 | `f.get(path)[0]` gives a value exactly when the dataset exists and is non-empty |
| RunState.TryRead | SNAPSXLTools.py:90-95 | one `try` block stores the first sample, or appends the log to the missing list and sets `fail` |
| RunState.AllRecordedFacts | SNAPSXLTools.py:88-119 | when nothing is missing, `stateDict` has an entry for every log, holding its first sample |
| RunState.ReadStateLogs | SNAPSXLTools.py:84-119 | the five reads: `missingLogVal` is the missing-log list, `fail` holds exactly when it is non-empty, and without failure `stateDict` holds all five first samples |
| RunState.StateFromRun | SNAPSXLTools.py:36-131 | the error record for each exit (1: IPTS lookup failed, with the run number; 2: file missing, with its name; 3: logs missing, with their keys in read order); failures return "00000-00" and an empty dict; success returns value 0 and the generator's id of the five logs |
| RunState.NexusFileName | SNAPSXLTools.py:74 | the NeXus file name built from the IPTS directory and the run number; NexusFileNameInjective shows distinct runs get distinct files |
| RunState.NexusFileNameInjective | SNAPSXLTools.py:74 | different run numbers give different NeXus file names |
| RunState.KeysAndPathsDistinct | SNAPSXLTools.py:90-119 | the five logs have distinct keys and distinct dataset paths |
| RunState.KeyNames | SNAPSXLTools.py:94-127 | the error parameters list the missing keys in order |

## Left out

- genSNAPState (lines 133-173) is not modelled. It rounds floats, serialises to JSON and hashes with SHAKE-256. `StateFromRun` takes it as a function parameter and passes it the code's arguments, with the integer 0 of `[GuideIn, 0]` written as the real 0.0; `genSNAPState` reads only the first element of that list.
- The HDF5 library, `shutil.copyfile`, `os.mkdir`, `os.path.getsize`, the timers and the prints in `makeLite` and `stateFromRunFunction` are left out. A file is an image holding the event-id arrays and the IDF text. "exists" is membership in the file map.
- Mantid's `GetIPTS` is not modelled. `StateFromRun` receives its result as an option, with `None` standing for the exception.
- `instConfig` (lines 8-32) only loads JSON attributes. It is replaced by a datatype holding the three attributes used.
- zach4snap.py is not part of this model. It is a driver script of Mantid calls with float trigonometry.
- SuperPixel.SuperId takes xdim and ydim to be positive divisors of 256. The code computes `Nx/xdim` and `superFirstPix` in floating point, and only under that condition are those values exact integers. Other factors, which the code's comment allows ("multiples of 2"), are not modelled.
- SuperPixel.SuperId uses unbounded integers. Float exactness beyond 2^53 and numpy integer widths are not modelled.
- InstrumentDefinition.NewIdStart computes `int((idstart/65536)*1024)` and `int(step/8)` exactly, as rational division truncated toward zero. This equals the float computation for magnitudes below 2^53, which are the only ones an IDF holds.
- PyInt.ParseInt accepts what `int()` accepts for ASCII text: surrounding ASCII whitespace (space and `\t \n \v \f \r`, not the control characters U+001C..U+001F), a sign, digits, and single underscores between digits. Non-ASCII digits and whitespace are not modelled, since the IDF is decoded as ASCII. The ASCII decoding itself, including its failure, is not modelled.
- LiteFile.FileStore.MakeLite writes the output entry once, with the final image of the open copy. The intermediate state right after the copy is not observable in the model. When the conversion stops at a missing dataset or an unreadable IDF, the writes already made are kept, as they are in the file the code leaves behind. The exception itself becomes a `Failed` outcome.
- A missing input file makes `os.path.getsize` raise in the code. In the model it is the `SourceMissing` outcome, and nothing is written.
- LiteFile.NexusImage keeps the event ids as integer sequences. The HDF5 dtype of the dataset is not modelled.
- RunState.StateFromRun stores `stateDict` under the five logs of the `StateLog` enumeration, whose `Key` gives the string key the code uses. The log values are reals, and float formatting is not modelled.
- The log-reading `try` blocks catch every exception. Absent and empty datasets are modelled as missing; other objects at these paths (groups, scalar datasets) are not.
