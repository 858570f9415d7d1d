# defmt host and buffer core, modelled in Dafny

This project models three parts of the `defmt` logging toolchain.

- **Interner table construction** (`elf2table/src/lib.rs`, `parse`). The
  `.defmt` section's symbols become an address-to-string map. The ten
  reserved `_defmt_<level>_<start|end>` symbols become the five level
  ranges, and the `_defmt_version_ = …` symbol becomes the version string.
- **Location resolution** (`elf2table/src/lib.rs`, `get_locations`,
  `exprloc2address`, `file_index_to_path`). A depth-first walk over each
  compilation unit's debugging entries keeps a stack of namespace names.
  It turns every `DEFMT_LOG_STATEMENT` variable whose symbol survived
  linking into a file, line and module location, keyed by its address.
- **The `defmt-print` read loop** (`print/src/main.rs`). Bytes arrive in
  reads of at most 1024. They are appended to a buffer and cut at zero
  bytes into frames. Each frame is rzCOBS-decoded, decoded against the
  table and forwarded with its location. The bytes after the last complete
  frame are kept for the next read.
- **The firmware logger** (`firmware/defmt-buffer/src/lib.rs`). Each of
  the 16 interrupt priority levels has its own producer of a framed queue.
  `acquire` takes a 1024-byte grant, `write` appends into it without
  overrunning it, `release` commits the record, or an empty frame on overflow,
  and `init` may run once.

The model is functional: each operation is a pure function over sequences
and maps, or a short method proved equal to one. The modules are:

- `Common`: the `Option`/`Result` wrappers, bytes, and the path operations
  `PathBuf::push` and `Path::strip_prefix`.
- `ElfTable` and `ElfTableProofs`.
- `DwarfLocations`, `DwarfLocationsProofs` and `DwarfUnitsProofs`.
- `StreamDecoder` and `StreamDecoderProofs`.
- `DefmtBuffer` and `DefmtBufferProofs`.

The ELF and DWARF readers, `rzcobs::decode` and `Table::decode` are
inputs. The ELF file arrives as its section names and symbols, and each
unit as its entries in depth-first order. The two decoders are given
functions whose outcomes the loop reacts to. The PRIMASK and BASEPRI
registers are parameters. The queue's grant is a byte sequence, or none
when the queue cannot grant.

## Model

| member | source | states |
|---|---|---|
| Common.PathPush | elf2table/src/lib.rs:297-315 | Pushing an absolute path replaces what was there. Pushing a relative path gives the base's components followed by exactly the pushed ones, keeping the base's root. |
| Common.StripPrefix | print/src/main.rs:93 | Stripping succeeds exactly when the file lies under the base, with the same root and the base's components first. The rest is relative and as long as the components left over. |
| Common.StripThenPush | print/src/main.rs:92-98 | Pushing the stripped rest back onto the base gives the original path, so the shortened path still names the same file. |
| Common.PushThenStrip | print/src/main.rs:93 | Stripping the base off a relative path pushed onto it gives back that relative path. |
| ElfTable.ParseMarkerExact | elf2table/src/lib.rs:66-77 | A symbol name is read as a given level boundary exactly when it is that boundary's reserved name. So a name selects at most one boundary. |
| ElfTable.TrimStartMatches | elf2table/src/lib.rs:52-53 | Trimming removes a prefix made of whole copies of the pattern and leaves a suffix that no longer starts with it. |
| ElfTable.TrimEndMatches | elf2table/src/lib.rs:54 | Trimming leaves a prefix that does not end in the character. Every removed character was that character. |
| ElfTable.VersionRoundTrip | elf2table/src/lib.rs:48-54 | For a `v` that does not end in a quote and does not itself start with a version prefix, a version written as `_defmt_version_ = v`, or quoted as the buggy linker keeps it, is recognised as a version symbol and read back as exactly `v`. The trims are greedy, so any other `v` loses its trailing quotes or its leading prefixes: `_defmt_version_ = 1"` reads back as `1`. |
| ElfTable.DefmtSection | elf2table/src/lib.rs:22-26 | The section found is the first one named `.defmt`. None is found only when no section has that name. |
| ElfTable.Parse | elf2table/src/lib.rs:18-100 | Without a `.defmt` section the result is `Ok(None)`. A table is produced only when that section exists. |
| ElfTableProofs.ScanSymbolEffect | elf2table/src/lib.rs:65-81 | One symbol of the `.defmt` section either overwrites the map at its address or sets its own boundary to its address. Every other map entry and boundary stays as it was. |
| ElfTableProofs.ScanSymbolVersion | elf2table/src/lib.rs:50-63 | A version symbol fails the loop exactly when a version was already seen, and the error names both. Otherwise it records its version, whatever section it is in. |
| ElfTableProofs.ScanVersions | elf2table/src/lib.rs:40-63 | The symbol loop fails exactly when there are two or more version symbols, naming the first two. Otherwise the version it keeps is the only one, if any. |
| ElfTableProofs.ScanEntries | elf2table/src/lib.rs:65-81 | Every non-reserved `.defmt` symbol's address is in the map. Each address maps to the name of the last such symbol at that address. |
| ElfTableProofs.ScanBoundsKeys | elf2table/src/lib.rs:65-77 | A boundary is set exactly when some `.defmt` symbol carries its reserved name. |
| ElfTableProofs.ScanBoundLast | elf2table/src/lib.rs:67-76 | A boundary that is set holds the address of the last symbol carrying its name. |
| ElfTableProofs.ParseOutcome | elf2table/src/lib.rs:22-95 | Given a `.defmt` section, two version symbols fail with both versions named, even when the versions are equal. With at most one version, parsing succeeds exactly when the version and all ten boundaries are present, and otherwise fails with "symbol not found". |
| ElfTableProofs.ParseTableBounds | elf2table/src/lib.rs:85-95 | Each of a table's five ranges runs from the last start symbol to the last end symbol of its level. |
| ElfTableProofs.ParseTable | elf2table/src/lib.rs:40-97 | A table holds the one version symbol's version. Its map has an entry for every non-reserved `.defmt` symbol, and the later symbol wins at a shared address. |
| ElfTableProofs.FinishBounds | elf2table/src/lib.rs:85-95 | A finished table's ranges are exactly the boundaries the loop recorded. |
| DwarfLocations.LastValue | elf2table/src/lib.rs:191-225 | An attribute field is missing exactly when no attribute has that name with a value of the expected form. A value found has that form. |
| DwarfLocations.LastValueIsLast | elf2table/src/lib.rs:191-225 | The value found is the one of the last matching attribute: later matches overwrite earlier ones. |
| DwarfLocations.PopScopes | elf2table/src/lib.rs:171-173 | The pops keep a prefix of the namespace stack. That prefix has length `depth - 1` for a depth in range, is empty at depth 0, and is the whole stack for a larger depth or for a negative depth that wraps around as a `usize`. |
| DwarfLocations.CutAt | elf2table/src/lib.rs:245-248 | The linkage name is cut at its first `@`: the kept part is a prefix with no `@`, and it is followed by an `@` or is the whole name. |
| DwarfLocations.ExprlocToAddress | elf2table/src/lib.rs:320-334 | The result is the address of the first Address operation. The function fails exactly when there is no such operation. |
| DwarfLocations.FileIndexToPath | elf2table/src/lib.rs:275-318 | File index 0 is an error. A path needs the line program and an entry for the index. The path ends with the entry's name, and an absolute name is the whole path. |
| DwarfLocations.VisitVariable | elf2table/src/lib.rs:180-268 | A variable entry never changes the depth or the namespace stack. It never changes or drops a location already found. |
| DwarfLocations.RecordSite | elf2table/src/lib.rs:250-260 | Recording a surviving log statement keeps the depth, the stack and every earlier location. |
| DwarfLocations.VisitEntry | elf2table/src/lib.rs:159-163 | Each step adds the entry's depth change to the running depth. Only namespaces change the stack, and only variables change the locations. |
| DwarfLocations.EnterNamespaceKeeps | elf2table/src/lib.rs:163-179 | A namespace entry changes neither the depth nor the locations. |
| DwarfLocationsProofs.EnterNamespaceFails | elf2table/src/lib.rs:166-175 | A namespace entry fails exactly when one of its names cannot be read, at any depth. |
| DwarfLocationsProofs.EnterNamespaceStack | elf2table/src/lib.rs:163-179 | For a depth `d` from 1 to one more than the stack's length, a nameless namespace leaves the stack alone. A named one leaves the stack's first `d - 1` names followed by its own last name. An unreadable name fails. |
| DwarfLocationsProofs.EnterNamespaceDeep | elf2table/src/lib.rs:163-179 | For a depth more than one beyond the stack's length, as when a namespace sits under a non-namespace entry, nothing is popped until the stack reaches the depth. While the readable names fit, the result is the whole stack followed by those names in order, so a single `DW_AT_name` is appended to the stack. Once they overflow the depth, the result is the whole stack, then the names that fit below the depth, then the last name. A nameless namespace leaves the stack alone, and an unreadable name is an error. |
| DwarfLocationsProofs.VisitVariableSkips | elf2table/src/lib.rs:227-249 | A variable missing any of the five attributes changes nothing. An unreadable name or linkage name is an error. A variable that is not a log statement whose symbol survived linking changes nothing (lines 261-265). |
| DwarfLocationsProofs.VisitVariableInserts | elf2table/src/lib.rs:250-258 | A surviving log statement adds exactly one location. It is at a new address, with the resolved file, the declared line and the stack joined by `::`. |
| DwarfLocationsProofs.VisitVariableCollision | elf2table/src/lib.rs:258-260 | A second surviving log statement at an address already taken is an error naming the address and both locations. |
| DwarfLocationsProofs.VisitVariableStep | elf2table/src/lib.rs:180-268 | A variable entry keeps the earlier locations. It adds nothing, or only the fresh address of a surviving log statement. |
| DwarfLocationsProofs.VisitOtherStep | elf2table/src/lib.rs:159-179 | Any other entry leaves the locations unchanged. |
| DwarfLocationsProofs.VisitEntriesLocations | elf2table/src/lib.rs:159-269 | After a unit's walk, earlier locations are untouched. Every new address belongs to a surviving log statement, and every surviving statement has a location. No two surviving statements share an address. |
| DwarfUnitsProofs.FileIndexToPathLayout | elf2table/src/lib.rs:297-317 | The path is the compilation directory, then the directory, then the name. The compilation directory appears only under a relative directory, and an absolute directory or name discards what comes before it. |
| DwarfLocationsProofs.VisitEntriesFresh | elf2table/src/lib.rs:250-260 | After a successful walk, every surviving log statement has an address the locations did not already hold when the walk began, since such an address is a collision error. |
| DwarfUnitsProofs.VisitUnitLocations | elf2table/src/lib.rs:149-159 | A unit's walk keeps earlier units' locations. It adds locations only for this unit's surviving log statements, and covers all of them. Their addresses are distinct and none was already held by an earlier unit. |
| DwarfUnitsProofs.GetLocationsSites | elf2table/src/lib.rs:117-273 | Every location belongs to a log statement whose symbol survived linking. Every surviving statement of every unit has a location. No two surviving statements share an address, within a unit or across units, because the location map is shared by all units (lines 258-260). |
| StreamDecoder.FirstZero | print/src/main.rs:79 | The position found holds the first zero byte. No position is found exactly when there is no zero byte. |
| StreamDecoder.LocationsIfComplete | print/src/main.rs:54-59 | The in-order, short-circuiting check keeps the location map, unchanged, exactly when every index of the table has an entry. Otherwise the map is dropped for the whole run. |
| StreamDecoder.AllPresentSound | print/src/main.rs:54 | The in-order check that stops at the first missing index accepts exactly when every index is in the map. |
| StreamDecoder.Relative | print/src/main.rs:92-98 | A file under the current directory is shown relative to it, and pushing that onto the directory gives the file back. Any other file is shown unchanged. |
| StreamDecoder.Annotate | print/src/main.rs:86-102 | The event carries its own frame. It is refused exactly when the location map is present but lacks the frame's index, which is the lookup that panics. |
| StreamDecoder.ScanShape | print/src/main.rs:79-131 | The scan leaves a suffix of its window. After draining, the suffix holds no zero byte. After stopping, it starts with a non-empty frame terminated by a zero. |
| StreamDecoder.ScanAdvance | print/src/main.rs:124-130 | Moving the window past a non-halting frame stays within the buffer. The scan from the old window is that frame's events followed by the scan from the new one. |
| StreamDecoder.RetainTail | print/src/main.rs:132-138 | Clearing, or rotating right and truncating, keeps exactly the last `k` bytes in order. |
| StreamDecoder.NextFrame | print/src/main.rs:79-130 | One turn of the inner loop, with the source's guard on the whole buffer length, agrees with the functional scan. It stops with the right events and leftover, or advances past at least one byte. |
| StreamDecoder.Cycle | print/src/main.rs:74-138 | One read cycle forwards exactly the events of scanning the old leftover followed by the new chunk. It stops for the same reason and keeps exactly that scan's leftover. |
| StreamDecoderProofs.ScanByFrames | print/src/main.rs:79-131 | The scan, read frame by frame: a window without a zero yields nothing. An empty or rzCOBS-rejected frame is skipped, and a decoded frame's event comes first. A halting frame stops the scan with the window kept from it. |
| StreamDecoderProofs.ScanStopFrame | print/src/main.rs:112-116 | A scan that stops early stops at a complete frame that halts for exactly that reason. |
| StreamDecoderProofs.StoppedStaysStopped | print/src/main.rs:112 | After a stop, appending more bytes halts again at the same frame with the same reason and yields nothing. |
| StreamDecoderProofs.ScanAppend | print/src/main.rs:73-139 | Splitting the input anywhere changes nothing. Scanning `a + b` gives the events of `a`, then those of scanning `a`'s leftover followed by `b`. |
| StreamDecoderProofs.CycleSettles | print/src/main.rs:73-139 | A cycle that does not end the program leaves a buffer with no complete frame, or one whose first frame still awaits more bytes. |
| StreamDecoderProofs.RunIsOneScan | print/src/main.rs:73-139 | However the input is cut into reads, the loop forwards exactly the events of one scan over everything read, with nothing lost or repeated. It ends the program exactly when, and for the same reason as, that scan hits a malformed frame or a missing location. |
| StreamDecoderProofs.ScanRestAtBoundary | print/src/main.rs:124-138 | The leftover is the whole window or follows a zero byte, so it always starts at a frame boundary. |
| StreamDecoderProofs.NoMissingLocation | print/src/main.rs:54-59 | When the map passed the completeness check and the table yields only its own indices, no scan stops on a missing location: the lookup at line 88 never panics. |
| StreamDecoderProofs.AnnotateSound | print/src/main.rs:88-102 | A forwarded event has no location data when the map was dropped. Otherwise it has its index's line cut to 32 bits, its module, and its file, made relative when under the current directory and unchanged otherwise. |
| StreamDecoderProofs.ScanAnnotated | print/src/main.rs:84-110 | Every event a scan forwards carries its frame's location data in that sense. |
| DefmtBuffer.Write | firmware/defmt-buffer/src/lib.rs:33-43 | Bytes that fit land right after what was written, with the rest of the grant unchanged. Bytes that do not fit are dropped and the cursor moves to the end. The cursor never passes the grant. |
| DefmtBuffer.CopyFromSlice | firmware/defmt-buffer/src/lib.rs:37 | The target range holds the copied bytes, and every byte outside it is unchanged. |
| DefmtBuffer.WriteInPlace | firmware/defmt-buffer/src/lib.rs:33-43 | Computing the free space and copying in place gives the same writer as the functional write. |
| DefmtBuffer.WriteAll | firmware/defmt-buffer/src/lib.rs:33-43 | Successive writes never move the cursor back or past the grant. |
| DefmtBuffer.CommitLength | firmware/defmt-buffer/src/lib.rs:86-93 | The commit is all that was written exactly when that is less than the grant length, or nothing was written. Otherwise it is zero, so a commit never fills the grant. |
| DefmtBuffer.Committed | firmware/defmt-buffer/src/lib.rs:86-93 | The frame handed to the queue is the grant's first commit-length bytes: the written record itself, or an empty frame. |
| DefmtBuffer.Priority | firmware/defmt-buffer/src/lib.rs:57-63 | The priority is below 16. It is 0 when PRIMASK reads `Active`, and otherwise the BASEPRI band `p` with `16p <= basepri < 16p + 16` (same computation at lines 77-83). |
| DefmtBuffer.Boot | firmware/defmt-buffer/src/lib.rs:48-53 | At start-up all 16 writer and producer slots are empty and `init` has not run. |
| DefmtBuffer.Acquire | firmware/defmt-buffer/src/lib.rs:56-74 | Acquiring succeeds exactly when the priority has a producer and the queue grants. Then a fresh writer over the grant fills that priority's slot, and every other slot is unchanged. |
| DefmtBuffer.WriteSlot | firmware/defmt-buffer/src/lib.rs:69-72 | Writing through the handed-out pointer applies `write` to that priority's writer. Every other writer, the producers and the init flag are unchanged. |
| DefmtBuffer.Release | firmware/defmt-buffer/src/lib.rs:76-97 | The priority's slot is empty afterwards, and no other slot changes. A frame is committed exactly when the slot held a writer, and it is that writer's committed frame. |
| DefmtBuffer.Init | firmware/defmt-buffer/src/lib.rs:101-111 | `init` fails exactly when it already ran. Otherwise slot `i` gets producer `i` and the writers are untouched. |
| DefmtBufferProofs.FullStaysFull | firmware/defmt-buffer/src/lib.rs:39-41 | After an overflow, no later write changes the writer. |
| DefmtBufferProofs.WriteAllOutcome | firmware/defmt-buffer/src/lib.rs:33-43 | A log statement's pieces that fit together land one after another after what was written. Otherwise the writer ends up full. |
| DefmtBufferProofs.RecordOutcome | firmware/defmt-buffer/src/lib.rs:86-93 | A record shorter than the 1024-byte grant is committed whole. A longer one is committed as an empty frame, and so is one of exactly 1024 bytes. |
| DefmtBufferProofs.WriteSlotAll | firmware/defmt-buffer/src/lib.rs:33-43 | A log statement's writes through the slot act on that priority's writer only. |
| DefmtBufferProofs.Session | firmware/defmt-buffer/src/lib.rs:56-97 | Acquire, writes and release at one priority commit the record when it is shorter than the grant and an empty frame otherwise. That priority's slot ends empty. |
| DefmtBufferProofs.AcquireBeforeInit | firmware/defmt-buffer/src/lib.rs:66 | Before `init` there is no producer, so logging yields nothing. |
| DefmtBufferProofs.CoherentPreserved | firmware/defmt-buffer/src/lib.rs:48-111 | Boot, `acquire`, `release` and `init` keep the slots well formed, with no producer before `init`. |
| DefmtBufferProofs.InitOnce | firmware/defmt-buffer/src/lib.rs:101-105 | The first `init` after boot succeeds, and any call after a success fails. |

## Left out

- ElfTable.Parse: returns the arguments `parse` passes to `Table::new`. Both the table's construction and its error return (elf2table/src/lib.rs:97-99) are outside the model, because `Table::new` belongs to the decoder crate.
- ElfTable.Parse: the ELF reader's own failure (elf2table/src/lib.rs:20) is not modelled. The file arrives already read as section names and symbols. Symbols without a name are skipped as in line 43.
- DwarfLocations.GetLocations: the structural errors the object and DWARF readers report (elf2table/src/lib.rs:120, 137, 149-159, 166, 191) are not modelled. A unit arrives already read as its entries. Only the empty-unit error of line 155 remains.
- DwarfLocations.FileIndexToPath: a `FileEntry` holds ready-made paths, so the string lookups and lossy conversions at elf2table/src/lib.rs:299-300, 305 and 312-315 cannot fail in the model. Names of entries do model such failures (`Unreadable`); file-table strings do not.
- DwarfLocations.ExprlocToAddress: a location expression arrives as its list of operations. A failed `Operation::parse` (elf2table/src/lib.rs:326-327) is not modelled. Neither is the loop that would spin forever when a parse error consumes nothing.
- DwarfLocations.GetLocations: `dwarf.string` and `from_utf8` are merged into one readable-or-not string value. The `?` on `splitn(..).next()` (line 248) cannot fail and is not modelled. The debugging `println!` lines are left out.
- StreamDecoder.Cycle: a read error from `reader.read` (print/src/main.rs:74) is not modelled. Neither is the loop re-reading forever once the input is exhausted. A read is a chunk of at most 1024 bytes.
- StreamDecoder.Annotate: the file is forwarded as a path and not as the string `display().to_string()` produces (print/src/main.rs:99). Paths are lists of normal components, with no `.`/`..` normalisation and no Windows prefixes.
- StreamDecoder.Annotate: the log output (`log_defmt`, `log::error!`, `log::warn!`) is not modelled. A malformed frame ends the program with an error, modelled as the `Desynchronized` stop. The `locs[&index]` panic is the `MissingLocation` stop.
- StreamDecoderProofs.NoMissingLocation: assumes as a precondition that `Table::decode` only yields indices of the table (`IndicesCover`). `Table::decode` is an input of the model, so this cannot be proved here.
- StreamDecoder.Scan: `rzcobs::decode` and `Table::decode` are given functions. Their internals, and the frame's arguments beyond its index, are outside the model.
- DefmtBuffer.Release: the `debug_assert!` of a second release (firmware/defmt-buffer/src/lib.rs:95) is modelled as the `None` commit, with the slot left empty. The `debug_assert!` on the priority (lines 64, 84) always holds, as `Priority` proves.
- DefmtBuffer.Init: the `panic!` of a second call is modelled as the `InitCalledTwice` error. The atomic swap is one state flag, since there is no concurrency in the model.
- DefmtBuffer.Acquire: requires a granted window to be exactly 1024 bytes. That is bbqueue's contract for `grant(1024)`, and bbqueue is not part of this model. The queue's memory, other failure reasons and the consumer side are left out.
- DefmtBuffer.Acquire: the handed-out `NonNull` pointer is the priority's slot index. Interrupt preemption, the `static mut` aliasing and the register reads themselves are not modelled; the registers are parameters.
