# libsnobol4: a verified model of the pattern engine

libsnobol4 compiles SNOBOL4 patterns to bytecode, runs the bytecode on a backtracking VM, and keeps
faster search paths, a hash table, a pattern cache, a template compiler and UTF-8 text functions beside
it. This project models those parts in Dafny and proves what they promise, over every input, every
subject and every run.

## What is modelled

**Pattern to bytes to verdict.** `Pattern` gives the AST its meaning: the ordered list of states in which
a pattern can match. `Codegen.Emitter` is the emitter with its growing code buffer, backpatched jumps,
label table and class list; each of its methods is proved to append exactly the bytes that the
specification `Translate.Gen` lays out as a tree of instructions (`CodeTree`). `Semantics` and `Machine`
are the dispatch loop with its choice stack. `CodeCorrect`, `GenMeaning`, `FusionPreserves`, `Trailer` and
`EndToEnd` put these together: compile, fuse, store, load and run a pattern, and the verdict, the end
position and the captures are the ones its meaning prescribes. `LoggedMachine` and `LoggedPattern` carry
the same statement down to the loop that logs register writes instead of copying them.

Code and meaning share the single steps, so these are described apart from both: `SetStrings` says which set a
string denotes, `Utf8Text` that the decoder reads what the encoder writes, `ClassCursors` and `CountCursors` where
each operation leaves the cursor and in which order BREAKX offers its stops, `CaptureTexts` that a capture and an
assignment delimit what was matched. `Labels` follows a label from the compiler's table through the image to the
target that GOTO looks up.

**The fusion pass.** `FusionPass` rewrites `SPLIT` over two single-character arms into one class, scanning
the raw bytes from right to left. `FusedScan` proves that this byte scan computes a tree transformation;
`FusionMeaning.FusionExactCondition` says exactly for which pairs of arms the rewrite is invisible, and
`Mimicry` gives patterns whose literal text or loop bounds are mistaken for instructions, and says exactly
which literals survive compilation (`Mimicry.LiteralExact`).
`OrdinaryPatterns.Ordinary` is a condition on the AST alone that rules both problems out.

**Walkers.** The instruction walker of `api.c` and the two binders are written apart from the emitters.
`Walker`, `Binding` and `TemplateBinding` prove them in step: they stop at exactly the emitted
instructions, and binding changes table ids and nothing else. `QuietPatterns.Quiet` is a condition on the
AST, for patterns of every kind, under which the fusion pass cannot disturb this.

**Search.** `MinLength`, `StartBitmap`, `SharedPrefix`, `LeadingLiteral` and `Horspool` are the static
analyses and the skip table, and `SearchMeta` puts them together as they are derived from the bytes of a
program, with the flag that the pattern may match the empty string. `Search.GeneralFallback` is the loop that
uses them. `OrdinarySearch.SearchOrdinary` derives everything from the image of an ordinary pattern and finds
the leftmost match that the pattern means, under conditions that can be checked on pattern and image.
One of them is needed because the flag is not derived for every pattern that can match the empty string:
`EmptyMatches.EmptyAt` is a test on the syntax tree for an empty match in front of a given byte, and
`OrdinarySearch.SearchExact` shows that the search finds everything exactly when the flag is set or all such
bytes are start bytes. `MinAttained` and `StartsAttained` show that minimum and start bytes are not mere bounds:
where literals and single-character classes decide, some match has the minimum's size, and every start byte begins
one. `FusedExec` and `SimdScan` are the segment executor and the window scanner. Where an
analysis or a scanner is not sound as written, the exact condition is proved and a compiled program shows the
failure (`SkippedMatches`, `CrowdedSearch`, `Tabulation`, `BitmapLimits`, `SimdScan.AgreesExactlyOnAscii`).

**Backtracking store.** `Arena` is the page-linked store of choice records with size words at both ends.
`UndoLog` is the machine that keeps scalars and a log index at a choice point, against one that copies
every register. `ChoiceVm.Vm` puts both into objects: fields, trail and arena bytes, each operation tied
to a step of the undo-log machine.

**Tables, cache, batch, text, templates.** `StringTable`, `PatternCache`, `Batch`, `TextFunctions` and the
`Template` modules; `RenderedText` says what each piece of a template writes. `OrdinaryBatch` runs the batch with
the searches of a compiled ordinary pattern.

Where the code and its comments disagree, the model follows the code:

- `REPEAT_INIT` and the position update of `REPEAT_STEP` write registers without a log entry, so replay
  is not bit-exact after them (`UndoLog.LoopInitExact`, `UndoLog.LoopStepExact`, `UndoLog.LoopInitLoses`).
- The machine steps over a literal template key only below 1024 bytes (`TemplateRun.EmitsPiece`,
  `TemplateMeaning.LongKeyTruncates`).
- The VM keeps label targets in sixteen bits, although code offsets have 32 (`Labels.LabelsReadBack`,
  `Labels.FarLabelIsLost`).
- The template binder has the operands of REPEAT_INIT and REPEAT_STEP too short and does not know ANCHOR; templates
  contain none of them (`WalkerLayouts.BinderStepsExact`).
- A pattern that can match the empty string is not always flagged as such: only the first operation, or the
  alternatives of an alternation of literals, are looked at (`OrdinarySearch.SearchExact`,
  `SkippedMatches.EmptyMatchIsSkipped`).
- The prefix of an alternation is taken from its first 64 literals (`CrowdedAlternation.CompiledPrefixExact`,
  `CrowdedAlternation.CrowdedPrefixIsWrong`), and its skip table can shift past a match of a later one
  (`CrowdedSearch.CrowdedSearchExact`, `CrowdedSearch.CrowdIsPassedOver`).
- A tabulation is skipped as if it had no width, by the leading literal and by the start bytes alike
  (`Tabulation.TabPrefixExact`, `BitmapLimits.TabStartsExact`).
- The start bytes of ANY and SPAN are taken from the class below 128, although a class beyond ASCII matches
  whole codepoints (`BitmapLimits.ClassExact`).
- Deleting a key vacates its slot, which can hide other keys (`StringTable.DeletionExact`,
  `StringTable.DeletionHides`).
- An anchored general search moves on to the first offset the start-byte filter lets through
  (`Search.AnchoredAnswersForAnchor`, `SkippedMatches.AnchoredElsewhere`).

## Model

| member | source | states |
|---|---|---|
| Ranges.NormalFormUnique | core/src/compiler_analysis.c:233-251 | two normalized range lists with the same codepoints are the same list |
| Ranges.NormalFormDecidesSet | core/src/compiler_analysis.c:233-251 | normal forms are equal exactly when the sets are |
| CharClasses.NormalizeInPlace | core/src/compiler_analysis.c:233-251 | sorting and merging in place leaves a normal list of the same set at the front of the array |
| CharClasses.ScanSet | core/src/compiler_analysis.c:262-361 | the parse loop over a set string yields the ranges the string lists |
| SetStrings.WrittenReadsBack | core/src/compiler_analysis.c:255-361 | a list of single codepoints and ranges written in UTF-8 is read back as just those ranges, with undecodable bytes behind it ignored, exactly when no single codepoint is followed by a dash and a larger codepoint |
| SetStrings.ClassHasListed | core/src/compiler_analysis.c:255-361 | the class compiled from such a string has exactly the codepoints that are listed or lie in a listed range |
| SetStrings.SpanIsInterval | core/src/compiler_analysis.c:268-282 | lo-hi is the set of the codepoints from lo to hi |
| Utf8Text.PeekReadsBack | core/include/snobol/vm.h:86-125 | the VM's decoder reads every scalar value back from the bytes CHAR writes for it, whatever follows |
| CharClasses.RangeContains | core/src/vm_exec.c:374-397 | the binary search over packed ranges finds a codepoint exactly when the set has it |
| CharClasses.SameIdIffSameClass | core/src/compiler_analysis.c:331-360 | a later registration returns an earlier id exactly when set and case flag agree, and an id keeps its meaning as the table grows |
| CharClasses.ClassTable.AddOrGet | core/src/compiler_analysis.c:253-361 | registering a set string keeps all entries distinct and normalized and returns the class's id |
| CharClasses.ClassTable.AddUnion | core/src/compiler_analysis.c:410-465 | the union registered for two arms is normalized and deduplicated in the same table |
| CodeBuffer.CodeBuf.Ensure | core/src/compiler_analysis.c:31-52 | growing the buffer keeps its contents and makes room |
| CodeBuffer.CodeBuf.Store32 | core/src/compiler_codegen.c:439-487 | backpatching overwrites four bytes and nothing else |
| Bytecode.WalkerMeetsEncoder | core/src/api.c:323-441 | the walker steps over exactly the bytes written for any instruction, inline text and names included |
| Bytecode.WalkVisitsStarts | core/src/api.c:463-503 | walking an encoded listing visits each instruction start and ends at its end |
| WalkerLayouts.WalkerMeetsPiece | core/src/api.c:323-441 | the pattern walker steps over exactly one piece of a compiled template |
| WalkerLayouts.WalkerMeetsDefinition | core/src/api.c:428-441 | and over exactly one dynamic definition, its source and its code |
| Disassembly.InstrReadsBack | core/src/vm_exec.c:587-2540 | every kind of instruction, those the model does not execute included, is read back from its bytes with nothing lost but what does not fit a field |
| CodeMeaning.DecodeMeetsEncoder | core/src/vm_exec.c:587-925 | the VM decodes each modelled instruction to the operands the encoder was given |
| ClassCursors.ClassStepMeans | core/src/vm_exec.c:674-838 | ANY and NOTANY take one unit, SPAN the longest stretch of members and at least one, BREAK stops at the first delimiter or at the end |
| ClassCursors.BreakXOffers | core/src/vm_exec.c:2226-2277 | BREAKX offers, in increasing order, exactly the delimiters at unit boundaries from the cursor on, and then the end of the text |
| ClassCursors.BreakXOffersBytes | core/src/vm_exec.c:2226-2277 | with an ASCII class these are the positions of its bytes from the cursor on, and the size of the subject |
| CountCursors.LenTakesUnits | core/src/vm_exec.c:924-953 | LEN(n) succeeds exactly when the next n units of the text decode, and ends right behind them |
| CountCursors.CountStepMeans | core/src/vm_exec.c:2389-2537 | POS and RPOS hold at one offset, counted in characters from the start or the end; TAB and RTAB move there unless the cursor is behind it, and TAB fails at the end of the subject |
| CaptureTexts.CaptureRecords | core/src/vm_exec.c:840-897 | a capture succeeds where its pattern does, in the same order, and records the stretch that the pattern matched in its register and its variable |
| CaptureTexts.AssignedTextIsMatch | core/src/vm_exec.c:840-920 | behind a captured pattern and an assignment the variable delimits exactly the text that the pattern matched |
| Machine.LoopMatchesEval | core/src/vm_exec.c:555-648 | the dispatch loop with its choice stack halts with a verdict exactly when ordered evaluation ends in it |
| CodeCorrect.CodeRunsAsTree | core/src/compiler_codegen.c:439-487 | running the bytes of a tree ends as the first success of the tree's ordered outcomes, for any continuation |
| Codegen.Emitter.EmitNode | core/src/compiler_codegen.c:626-803 | emission of a node appends exactly its layout, or fails where the specification does |
| Codegen.Emitter.EmitAlt | core/src/compiler_codegen.c:439-487 | an alternation with its three patched jumps is the laid-out SPLIT, left arm, JMP, right arm |
| Codegen.Emitter.EmitLoop | core/src/compiler_codegen.c:567-621 | a repetition body with its patched skip target is the laid-out loop |
| Codegen.Emitter.EmitRepeat | core/src/compiler_codegen.c:567-621 | REPEAT strips nested unbounded repetition and allocates the loop number |
| Codegen.Emitter.EmitArbno | core/src/compiler_codegen.c:489-551 | ARBNO strips directly nested stars and emits an unbounded loop |
| Codegen.Emitter.EmitCaptured | core/src/compiler_codegen.c:553-565 | a capture is its body between CAP_START and CAP_END |
| Codegen.Emitter.EmitLabel | core/src/compiler_codegen.c:733-766 | a label is defined once, at the offset behind its own instruction |
| Codegen.Emitter.GetOrCreateLabel | core/src/compiler_codegen.c:43-82 | a name finds its entry or gets a new one at the end |
| Codegen.Emitter.EmitTableAccess | core/src/compiler_codegen.c:183-212 | a table read captures its key unless it sits in a register, and embeds the name with an unbound id |
| Codegen.Emitter.EmitTableUpdate | core/src/compiler_codegen.c:214-248 | a table write captures key and value and embeds the name with an unbound id |
| Translate.RegistersMeet | core/src/compiler_codegen.c:183-248 | a table instruction names the register that its key was captured in, and a write also the one of its value |
| GenShape.GenIsSound | core/src/compiler_codegen.c:626-803 | emission only extends the class table, keeps it canonical, and every class id in the code has its entry |
| GenMeaning.TreeMeans | core/src/compiler_codegen.c:626-692 | the outcomes of generated code, under any later class table, are the pattern's meaning |
| FusionPass.FindPair | core/src/compiler_analysis.c:479-612 | the in-place parse of a SPLIT recognises exactly the fusable pairs |
| FusionPass.FuseSplitAny | core/src/compiler_analysis.c:581-639 | the pass over the buffer and the class list is the right-to-left scan on values |
| FusedScan.ScanFusesTree | core/src/compiler_analysis.c:581-639 | where only instruction starts are rewritten, the byte scan turns a tree's code into the code of the tree fused innermost first |
| FusionMeaning.FusionExactCondition | core/src/compiler_analysis.c:479-564 | fusing two arms is invisible on every subject and cursor exactly when the pair is harmless |
| FusionMeaning.SafePairAgrees | core/src/compiler_analysis.c:410-465 | on a subject where the pair is safe the fused step is the alternation |
| FusionPreserves.FusePreserves | core/src/compiler_analysis.c:581-639 | fusion keeps the first success from every state, for every continuation, nested chains included |
| FusionStarts.FusesOnlySplits | core/src/compiler_analysis.c:581-639 | on code below 64 KiB of mild instructions the byte scan rewrites SPLIT instructions only |
| FusionSafety.TameIsSafe | core/src/compiler_analysis.c:479-564 | ASCII literals and classes with entries are safe on every subject without overlong spellings |
| OrdinaryPatterns.GenIsFusible | core/src/compiler_codegen.c:626-803 | ordinary patterns generate code that fusion treats safely |
| Mimicry.DecoyBreaks | core/src/compiler_analysis.c:581-639 | a literal whose bytes look like a fusable SPLIT is overwritten, and the compiled pattern rejects its own text |
| Mimicry.LiteralExact | core/src/compiler_analysis.c:581-639 | a compiled literal decides every subject as it means exactly when no position of its laid-out body reads as a fusable SPLIT |
| Mimicry.BoundIsMistaken | core/src/compiler_analysis.c:581-639 | the minimum of a repetition is read as a SPLIT whose targets are the maximum and the end of the loop, and the pass writes over the loop |
| Compiler.Compile | core/src/compiler_codegen.c:343-436 | the whole compilation, class and label sections included, produces the specified image, and fails exactly where that does |
| Compiler.WriteClasses | core/src/compiler_codegen.c:379-415 | class blobs newest first, then the offset table in id order, then the count |
| Trailer.ClassesReadBack | core/src/vm_exec.c:107-191 | every id finds the class it was given for, and no other id finds one |
| Trailer.LoadReadsBack | core/src/vm_exec.c:245-320 | loading a program gives back the class table it was compiled with |
| Trailer.BodyLenReadsBack | core/src/vm_exec.c:193-243 | the end of the instruction stream is recovered exactly |
| Labels.RegisterLabels | core/src/vm_exec.c:2633-2732 | the loop over the label section registers, for every id, the target that its last entry gives |
| Labels.TargetsReadBack | core/src/vm_exec.c:2633-2742 | each id leads to the offset that the compiler's table has for it, cut to sixteen bits, and no other id leads anywhere |
| Labels.LabelsReadBack | core/src/compiler_codegen.c:733-766 | in a compiled image every label id leads behind the LABEL instruction that carries it, where the walk of the body stops too, exactly when that place lies below 64 KiB; other ids lead nowhere |
| Labels.QuietLabels | core/src/compiler_codegen.c:733-766 | in the image of a quiet pattern below 64 KiB every label id leads to its label |
| Labels.FarLabelIsLost | core/src/vm_exec.c:2714-2732 | the target of a compiled label behind a text is its place exactly when the text is short enough for sixteen bits |
| EndToEnd.CompiledPatternRuns | core/src/compiler_codegen.c:343-436 | a compiled, fused and loaded pattern halts with a verdict exactly when that is the verdict it means, from every state, provided fusion was clean on the subject |
| EndToEnd.OrdinaryPatternRuns | core/src/compiler_codegen.c:343-436 | the same without that proviso for ordinary patterns in images below 64 KiB, on every subject without overlong spellings |
| LoggedMachine.LoggedMachineRuns | core/src/vm_exec.c:555-920 | the loop that logs writes and keeps scalars at choice points halts with exactly the verdict of the loop that copies states |
| LoggedPattern.LoggedPatternRuns | core/src/vm_choice.c:178-207 | a compiled pattern on the logging machine has the meant verdict whatever earlier attempts left in the log |
| Walker.JumpsLand | core/src/compiler_codegen.c:439-621 | every jump of emitted code lands on one of its instructions or right behind it |
| Walker.BodyWalks | core/src/api.c:323-441 | walking a body stops at every emitted instruction and ends at its end, and no jump leaves it |
| Walker.WalkerMeetsCompiler | core/src/api.c:443-503 | both hold for every compiled image up to its recovered body length, after fusion |
| Binding.BindInPlace | core/src/api.c:443-505 | the patching walk computes the specified binding and reports its success |
| Binding.BindMeetsCompiler | core/src/api.c:443-505 | binding a compiled image resolves the names in its instructions and touches nothing else |
| Binding.RebindingForgets | core/src/api.c:443-505 | a later binding call undoes an earlier one |
| QuietPatterns.GenIsMild | core/src/compiler_codegen.c:626-803 | quiet patterns of every kind, loops with harmless bounds, tables and output included, generate code that cannot mislead the byte scan |
| QuietPatterns.QuietFusesAtStarts | core/src/compiler_analysis.c:581-639 | in an image below 64 KiB the pass rewrites a quiet pattern's SPLIT instructions only |
| QuietPatterns.QuietWalks | core/src/api.c:323-441 | walking the image of a quiet pattern visits exactly its instructions, and all jumps land on one |
| QuietPatterns.QuietBinds | core/src/api.c:443-505 | binding it resolves the names in its instructions, touches nothing else and succeeds |
| MinLength.ComputeMinLength | core/src/search_meta.c:472-640 | the loop with its recursive branches terminates on any code and computes the specified bound |
| MinLength.WalkIsBound | core/src/search_meta.c:472-640 | every accepting run consumes at least the counted bytes, despite the dead-branch sentinel, the depth cut-off and the step cap |
| MinLength.BranchBound | core/src/search_meta.c:555-586 | the same for the minimum taken over two branches |
| MinAttained.MinimumIsTally | core/src/search_meta.c:472-640 | over every compiled body the walk's minimum is the number that a recursion over the tree gives, output, loops and branches that always fail included, where no way through it meets more than twelve alternations |
| MinAttained.LeastIsAttained | core/src/search_meta.c:472-640 | where literals, LEN and single-character classes decide, some subject of just the derived minimum is matched, and no match of any subject consumes less |
| StartBitmap.ComputeStartBitmap | core/src/search_meta.c:235-457 | the walk with its explicit branch stack sets exactly the specified bits |
| StartBitmap.WalkIsSound | core/src/search_meta.c:235-457 | on code the analysis can follow, an accepting run that consumes anything first consumes a byte of the set, whichever branch it takes |
| StartBitmap.PatientIsSound | core/src/search_meta.c:235-457 | a walk that went on with the branches still stacked at the end of the code would be sound even where control can run off that end |
| StartBitmap.MissIsLost | core/src/search_meta.c:235-457 | even where control can run off the end of the code, a consuming run starts with a byte that the walk sets, or goes on along one of the branches still stacked there |
| StartsAttained.StartsAreFirsts | core/src/search_meta.c:235-457 | over every compiled body with ASCII classes, as long as the walk keeps within its limits, the derived set is the one that a recursion over the tree gives |
| StartsAttained.StartsExact | core/src/search_meta.c:235-457 | on such code that cannot match the empty text a byte is in the derived set exactly when some subject that begins with it is matched |
| CompiledFlow.BodyLosesNothing | core/src/search_meta.c:235-457 | over a compiled body, whatever its instructions, the walk never runs off the end and loses no branch |
| BitmapLimits.ClassExact | core/src/search_meta.c:262-361 | wherever ANY or SPAN succeeds the next byte is one the analysis sets, exactly when the class is ASCII |
| BitmapLimits.CompiledClassExact | core/src/search_meta.c:262-361 | the compiled ANY or SPAN of a set string has sound start bytes exactly when the set is ASCII |
| BitmapLimits.NonAsciiClassIsMissed | core/src/search_meta.c:262-361 | ANY of an accented letter, compiled, matches that letter, whose first byte is not set |
| BitmapLimits.TabStartsExact | core/src/search_meta.c:262-457 | the start bytes of a literal behind TAB or RTAB are sound exactly when the tabulation cannot lead to the literal anywhere but at the start |
| BitmapLimits.CompiledTabExact | core/src/search_meta.c:262-457 | the same for the compiled pattern of a tabulation and a literal |
| BitmapLimits.TabPatternIsMissed | core/src/search_meta.c:262-457 | TAB(1) and x, compiled, match "ax", whose first byte is not set |
| BitmapLimits.PendingBranchIsMissed | core/src/search_meta.c:235-457 | a program on which one branch is still stacked at the end of the code, and a match along it is missed |
| BitmapLimits.CompiledLosesNothing | core/src/search_meta.c:235-457 | on the image of an ordinary pattern nothing is ever stacked there |
| CompiledFlow.BodyIsClosed | core/src/compiler_codegen.c:626-803 | execution cannot leave the instruction starts of a compiled body, and literals are inline |
| CompiledFlow.BodyIsTracked | core/src/search_meta.c:235-457 | with ASCII classes and no tabulation the start-byte analysis can follow a compiled body |
| TrackablePatterns.TrackableCompiles | core/src/compiler_codegen.c:626-803 | patterns without tabulation and with ASCII set strings compile to such a body and class table, after fusion too |
| CompiledBranches.CompiledLeadsForward | core/src/compiler_codegen.c:439-487 | the SPLITs of a compiled body lead forward, so the walks that unfold them end |
| Horspool.BuildSkip | core/src/search_meta.c:2433-2454 | the table built by overwriting holds for each byte the distance from its last inner occurrence to the end |
| Horspool.ShiftIsSafe | core/src/search_meta.c:2433-2454 | no occurrence of the prefix starts strictly between a window and that window shifted by its last byte's entry |
| Horspool.ShiftExact | core/src/search_meta.c:2433-2454 | shifting by the table of a prefix passes over another string on no subject, exactly when each place before the prefix's last one holds in that string a byte that the prefix has again from there on, before its last byte |
| SharedPrefix.CommonIsLongest | core/src/search_meta.c:164-188 | the compared literals all begin with the result, and within the limit no longer string does |
| SharedPrefix.Extract | core/src/search_meta.c:113-189 | the walk over the SPLIT tree with its bounded stack extracts the specified prefix |
| AlternationPrefix.RunsBegin | core/src/search_meta.c:2082-2100 | an accepting run of an alternation passes one of its literals |
| AlternationPrefix.PrefixExact | core/src/search_meta.c:113-189 | the extracted prefix begins every match exactly when the literals beyond the sixty-fourth have it too |
| CrowdedAlternation.CompiledPrefixExact | core/src/search_meta.c:113-189 | the prefix derived from a compiled alternation of literals is what its first sixty-four have in common, and begins every match exactly when all of them begin with it |
| CrowdedAlternation.CrowdedPrefixIsWrong | core/src/search_meta.c:113-189 | sixty-five compiled alternatives whose derived prefix does not begin every match |
| CrowdedSearch.CrowdedSearchExact | core/src/search_tiers.c:3844-3907 | the search with a compiled alternation of literals of two bytes or more, filters and skip table derived, finds everything on every subject exactly when none of the literals can be overlooked by a shift |
| CrowdedSearch.CrowdIsPassedOver | core/src/search_tiers.c:3844-3907 | on "abb" those sixty-five alternatives match at offset 1, and the miss at offset 0 shifts past it |
| LeadingLiteral.FindLeading | core/src/search_meta.c:1780-1852 | the loop over operations without width finds the literal at the root |
| LeadingLiteral.LeadingBegins | core/src/search_meta.c:1780-1852 | unless a tabulation was skipped, every match begins with the leading literal |
| Tabulation.TabPrefixExact | core/src/search_meta.c:1780-1852 | behind TAB or RTAB it does exactly when the tabulation does not move, or stops short of the literal, or the literal starts inside a character |
| SearchMeta.FindEmptyBranch | core/src/search_meta.c:789-822 | the walk over an alternation of literals reports an empty one exactly when there is one |
| SearchMeta.DeriveMayMatchEmpty | core/src/search_meta.c:1780-2074 | the flag as the analysis computes it from the bytes, case by case of the first operation, is the specified one |
| SearchMeta.SkipPrefixLeads | core/src/search_meta.c:2082-2100 | the derived skip prefix begins every match when no tabulation was skipped and later alternatives agree |
| SearchMeta.SkipPrefixSpares | core/src/search_meta.c:2082-2454 | the table of the derived skip prefix spares a string at the start of every match, when no tabulation was skipped and later alternatives are spared, whether or not the prefix begins them |
| SearchMeta.AgreeIsSpared | core/src/search_meta.c:2082-2454 | later alternatives that begin with the extracted prefix are spared, so sparing asks for less than agreeing |
| SearchMeta.DeriveFilters | core/src/search_meta.c:1771-2454 | start bytes, minimum length, prefix and skip table read off any program whose branches lead forward are the specified ones |
| Search.GeneralFallback | core/src/search_tiers.c:3844-3907 | the loop is the filtered scan whatever the filters, and the plain scan when they turn no match away and skip none; anchored, it tries the first offset whose byte passes |
| Search.FilteredIsPlain | core/src/search_tiers.c:3844-3907 | filters that turn no match away, with a table that shifts past none, leave the search with the result of trying every offset |
| Attempts.ScanMeans | core/src/search_tiers.c:3844-3907 | the plain scan over the meant attempts finds the first offset at which the pattern matches, with the end it means, unless it aborts before, and nothing exactly when it matches nowhere |
| Search.FilteredExact | core/src/search_tiers.c:3844-3907 | behind start bytes and a minimum length that turn no match away, the search agrees with trying every offset, from every start, exactly when no miss shifts past a match |
| Search.AnchoredAnswersForAnchor | core/src/search_tiers.c:3844-3907 | for given filters, subject and anchor: the anchored search answers for its anchor, whatever pattern the filters are sound for, exactly when the anchor's byte passes or nothing can match at the first later offset that passes |
| SkippedMatches.AnchoredElsewhere | core/src/search_tiers.c:3844-3907 | the compiled literal b, searched anchored at the start of "ab" with its derived filters, is reported at offset 1 |
| EmptyMatches.EmptyMatchIsForeseen | core/src/vm_exec.c:650-925 | a match of nothing at the start of a subject passes the syntactic test for the subject's first byte |
| EmptyMatches.ForeseenIsMet | core/src/vm_exec.c:650-925 | where the test says so the pattern matches on the subject of that one byte |
| CompiledSearch.ImageFiltersAreSound | core/src/search_meta.c:2146-2164 | on a compiled pattern the start bytes with the derived flag, and the minimum length, hide no match at any offset, when the flag is set or every byte in front of which the pattern can match the empty string is a start byte |
| CompiledPrefix.PrefixHeralds | core/src/search_meta.c:2433-2454 | a prefix that begins every match of the image stands at every offset where the pattern matches |
| CompiledPrefix.PrefixedFiltersAreSound | core/src/search_tiers.c:3844-3907 | all three derived filters together hide no match |
| CompiledPrefix.CompiledSkipsNothing | core/src/search_meta.c:2082-2454 | the table derived from a compiled pattern shifts past no match on any subject, when later alternatives are spared |
| CompiledSearch.FusedTierMeansPattern | core/src/search_fusion.c:65-105 | on an eligible compiled pattern the fused executor returns what the pattern means |
| OrdinarySearch.OrdinaryFiltersAreSound | core/src/search_meta.c:1771-2454 | the same under conditions on the syntax tree, in images below 64 KiB on subjects without overlong spellings |
| OrdinarySearch.SearchExact | core/src/search_meta.c:2146-2164 | where the skip prefix spares later alternatives, as a prefix of one byte always does: with the derived filters the search finds on every such subject what trying every offset finds, exactly when the flag is set or every byte in front of which the pattern can match the empty string is a start byte |
| SkippedMatches.EmptyMatchIsSkipped | core/src/search_meta.c:1814-2074 | x and the rest of the subject, or nothing: the flag is off, and the search passes over the empty match at the start of "a" |
| OrdinarySearch.SearchOrdinary | core/src/search_tiers.c:3844-3907 | deriving flag, filters and skip table and searching with them finds the leftmost offset at which such a pattern matches, with the end it means |
| OrdinarySearch.OrdinaryLogged | core/src/vm_choice.c:178-207 | such a pattern has the meant verdict on the logging machine |
| FusedExec.CheckEligible | core/src/search_meta.c:1331-1513 | the collecting loop yields the specified segments or refuses |
| FusedExec.ExecFusion | core/src/search_fusion.c:65-105 | the cursor loop ends where the segments in order do |
| FusedExec.TierFusion | core/src/search_fusion.c:189-238 | unanchored, the leftmost offset below the subject's end at which the segments match |
| FusedExec.ExecMeetsMachine | core/src/search_fusion.c:65-105 | executor and machine agree on success and end from every state on every subject |
| SimdScan.ExecScalar | core/src/search_simd.c:296-408 | the state-set loop finds the end of the maximal run, or one byte for ANY and NOTANY |
| SimdScan.NibbleLookup | core/src/search_simd.c:568-600 | the nibble-split lookup is membership in the byte set |
| SimdScan.ExecWindowed | core/src/search_simd.c:568-666 | sixteen bytes at a time with a scalar tail finds the same end |
| SimdScan.TierSimd | core/src/search_simd.c:710-822 | the tier reports the first offset that verifies |
| SimdScan.FirstVerifiedIsLeftmost | core/src/search_simd.c:710-822 | which is the leftmost match at or after the start offset |
| SimdScan.AgreesExactlyOnAscii | core/src/search_simd.c:180-286 | for a class of single-byte codepoints the scanner agrees with the VM on every subject exactly when the class is ASCII, for SPAN, BREAK, ANY and NOTANY alike |
| SimdScan.ServesByteClasses | core/src/search_simd.c:180-286 | the scanner serves every operation but BREAKX, on exactly the classes that have members and none beyond a byte |
| Arena.WalkCounts | core/src/vm_choice.c:214-230 | the forward walk over leading words counts the records the trailing words find backwards |
| Arena.OffsetAligned | core/src/vm_choice.c:117-150 | records start at multiples of eight, so payloads do |
| Arena.OffsetCounts | core/src/vm_choice.c:117-150 | a record costs sixteen bytes beyond its payload |
| Arena.ChoiceArena.Alloc | core/src/vm_choice.c:100-150 | pushes one record of the rounded size onto the stack of records, aligned, with the totals kept |
| Arena.ChoiceArena.Store | core/src/vm_choice.c:239-313 | filling the newest payload changes that record and no other |
| Arena.ChoiceArena.Top | core/src/vm_choice.c:315-337 | the trailing word leads to the newest record |
| Arena.ChoiceArena.PopLast | core/src/vm_choice.c:152-175 | drops exactly the newest record, and its page when that becomes empty |
| Arena.ChoiceArena.Reset | core/src/vm_choice.c:81-98 | leaves the first page, empty |
| Arena.ChoiceArena.Depth | core/src/vm_choice.c:214-230 | returns the number of live records |
| UndoLog.RunsAgree | core/src/vm_choice.c:239-337 | over every run of pushes, logged writes, pops, cuts and resets the log machine has the registers and scalars of the copying one |
| UndoLog.ReplaySplits | core/src/vm_capture.c:233-273 | replaying a stretch is replaying its newer and then its older part |
| UndoLog.UnloggedWriteExact | core/src/vm_capture.c:233-273 | an unlogged loop write comes back at a pop exactly when the log since that choice covers the loop or nothing changed |
| UndoLog.LoopInitExact | core/src/vm_exec.c:1100-1132 | entering a loop keeps the machines in agreement exactly when every live choice is covered or the registers already held the initial values |
| UndoLog.LoopInitLoses | core/src/vm_exec.c:1100-1132 | a run in which a pop leaves a counter at 0 where it was 1 when the choice was pushed |
| UndoLog.LoopStepExact | core/src/vm_exec.c:1134-1245 | the exit choice of a continuing round restores the copied registers exactly when the round made no progress; older choices always do |
| UndoLog.RoundsAreCounted | core/src/vm_exec.c:1134-1245 | continuing rounds are counted modulo 2^32, each leaves one choice, and no other loop is touched |
| ChoiceVm.HeaderReadsBack | core/src/vm_choice.c:239-313 | a stored record reads back as what was stored |
| ChoiceVm.UndoTrail.Push | core/src/vm_capture.c:173-188 | growing the trail array keeps its entries and appends one |
| ChoiceVm.Vm.CapStart | core/src/vm_exec.c:840-860 | is a logged write of the log machine |
| ChoiceVm.Vm.CapEnd | core/src/vm_exec.c:863-897 | is two logged writes, the second publishing the variable |
| ChoiceVm.Vm.Assign | core/src/vm_exec.c:899-920 | is one logged write, or nothing out of range |
| ChoiceVm.Vm.PushChoice | core/src/vm_choice.c:239-313 | is the push of the log machine, stored as bytes in the arena |
| ChoiceVm.Vm.TrailReplay | core/src/vm_capture.c:233-273 | the reverse loop over the trail is the replay |
| ChoiceVm.Vm.PopChoice | core/src/vm_choice.c:315-360 | is the pop of the log machine, or fails on an empty stack |
| ChoiceVm.Vm.Fence | core/src/vm_exec.c:2349-2368 | drops all choices and keeps the trail |
| ChoiceVm.Vm.ResetVm | core/src/vm_choice.c:178-207 | is the reset of the log machine, with the trail left as it is |
| ChoiceVm.Vm.RepeatInit | core/src/vm_exec.c:1100-1132 | is the unlogged loop entry, with a skip choice for loops that may run zero times |
| ChoiceVm.Vm.RepeatRound | core/src/vm_exec.c:1134-1245 | is the continuing round with its unlogged position |
| StringTable.HashVectors | core/src/table.c:14-37 | keys hash to the published vectors of 32-bit FNV-1a |
| StringTable.LookupIsContent | core/src/table.c:287-314 | in a sound table a probe finds exactly what the map holds |
| StringTable.FoundExactlyWhenReachable | core/src/table.c:287-314 | a stored key is found exactly when its probe path has no vacancy |
| StringTable.Table.Set | core/src/table.c:182-281 | stores into the map, keeps the size the number of keys, and grows at three quarters |
| StringTable.Table.Get | core/src/table.c:287-314 | returns the last value stored under a key |
| StringTable.Table.Resize | core/src/table.c:41-84 | rehashing keeps the map |
| StringTable.Table.Delete | core/src/table.c:329-359 | vacates the slot of the key that probing finds |
| StringTable.DeletionExact | core/src/table.c:329-359 | vacating a slot keeps the table sound exactly when no other key is reached through it |
| StringTable.DeletionHides | core/src/table.c:329-359 | two keys with one home: deleting the first hides the second, which is still stored |
| StringTable.DeletionRemoves | core/src/table.c:329-359 | the deleted key is gone from the map |
| Batch.BatchRun | core/src/api.c:1602-1728 | the loop terminates with arrays that hold the enumerated matches, capture rows and outputs included, and reports the largest number of variables of any match |
| Batch.EachIsLeftmost | core/src/api.c:1602-1728 | each match is the leftmost from the end of the one before |
| Batch.NothingIsLeft | core/src/api.c:1602-1728 | behind the last match there is no further one |
| Batch.MatchesInOrder | core/src/api.c:1602-1728 | positions strictly increase and matches do not overlap |
| OrdinaryBatch.BatchOrdinary | core/src/api.c:1602-1728 | the batch with the searches of a compiled ordinary pattern records its leftmost matches, one behind the other, with the variables that the pattern means, and leaves none; every capture row locates in the whole subject the text that the variable delimits behind the match's start |
| OrdinaryBatch.ListedOnce | core/src/api.c:1602-1728 | there is only one such list of matches |
| PatternCache.Cache.Get | core/src/dynamic_pattern.c:203-225 | hits exactly the cached sources and hands out one more reference |
| PatternCache.Cache.Put | core/src/dynamic_pattern.c:253-304 | a cached source is left alone; otherwise the first entry goes if the cache is full and the new one is added |
| PatternCache.Cache.EvictOne | core/src/dynamic_pattern.c:227-251 | drops the first entry of the first bucket in use |
| PatternCache.Cache.Remove | core/src/dynamic_pattern.c:306-349 | drops exactly the entry of the source |
| PatternCache.Cache.Clear | core/src/dynamic_pattern.c:351-379 | drops everything, leaving each pattern the references handed out |
| PatternCache.Cache.Release | core/src/dynamic_pattern.c:80-114 | gives one handed-out reference back |
| TextFunctions.SizeOf | core/src/string_fn.c:103-132 | SIZE is the number of units the scan sees |
| TextFunctions.SizeAddsExactly | core/src/string_fn.c:103-132 | SIZE adds up over concatenation, whatever follows, exactly when no codepoint of the first string is cut off |
| TextFunctions.Reverse | core/src/string_fn.c:182-237 | the ASCII path and the two-pass path both reverse the units |
| TextFunctions.ReverseTwice | core/src/string_fn.c:182-237 | on complete codepoints REVERSE is its own inverse and keeps SIZE |
| TextFunctions.ReversalExact | core/src/string_fn.c:182-237 | REVERSE reverses the units exactly when every cut-off lead byte has too little in front of it to complete it; it is then undone by another |
| TextFunctions.ReverseTwiceCutOff | core/src/string_fn.c:182-237 | a string with a cut-off lead byte that REVERSE does not give back |
| TextFunctions.OrdOfChar | core/src/string_fn.c:449-510 | ORD reads back what CHAR wrote, for every scalar value and whatever follows |
| TextFunctions.Lpad | core/src/string_fn.c:380-412 | the pad loop puts the missing width in front |
| TextFunctions.LpadSize | core/src/string_fn.c:380-412 | SIZE of the padded string is the larger of width and SIZE |
| TextFunctions.Rpad | core/src/string_fn.c:414-447 | the pad loop puts the missing width behind |
| TextFunctions.RpadSize | core/src/string_fn.c:414-447 | the same behind a string of complete codepoints |
| TextFunctions.LpadUnits | core/src/string_fn.c:380-412 | the units of the padded string are the missing number of copies of the codepoint, as CHAR writes it, and then those of the string |
| TextFunctions.RpadUnits | core/src/string_fn.c:414-447 | the same behind a string of complete codepoints |
| TextFunctions.Substr | core/src/string_fn.c:246-290 | the two scans cut out the specified stretch |
| TextFunctions.SubstringIsUnits | core/src/string_fn.c:246-290 | SUBSTR is a stretch of the string's units |
| TextFunctions.SubstringsJoin | core/src/string_fn.c:246-290 | cutting at any codepoint loses nothing |
| TextFunctions.Replace | core/src/string_fn.c:292-333 | the loop replaces from left to right without overlap |
| TextFunctions.ReplacedLength | core/src/string_fn.c:292-333 | each replacement changes the length by the difference of the strings |
| TextFunctions.ReplaceBySelf | core/src/string_fn.c:292-333 | replacing a string by itself changes nothing |
| TemplateCompiler.CompileTemplate | core/src/compiler.c:779-1000 | the index-driven scan emits the code of the template's pieces, and refuses exactly an overlong table name |
| TemplateCompiler.EmitKeyRef | core/src/compiler.c:702-777 | the key part emits its table piece, or a dollar sign and a restart behind it |
| TemplateCompiler.ReadNumber | core/src/compiler.c:808-813 | cutting every intermediate value gives the number cut to the field |
| TemplatePrinter.PrintedCompiles | core/src/compiler.c:779-1000 | every list of expressible pieces, written in the documented syntax and compiled, is that list again |
| TemplateMeaning.TextIsVerbatim | core/src/compiler.c:779-1000 | a template in which no dollar sign begins a reference stands for itself |
| TemplateBinder.BindInPlace | core/src/compiler.c:1002-1197 | the patching walk computes the specified binding of arbitrary bytes |
| TemplateBinding.VisitsCompiled | core/src/compiler.c:1002-1197 | the binder stops at exactly the compiled pieces and the end marker |
| TemplateBinding.BindsCompiled | core/src/compiler.c:1002-1197 | only missing ids of listed names change, and the result is -1 exactly when a missing id stays missing |
| TemplateBinding.KeyLengthExact | core/src/compiler.c:1144-1153 | the binder steps over a literal-key piece exactly when the key is shorter than 65536 bytes |
| TemplateBinding.BindInTurns | core/src/compiler.c:1121-1139 | two binding calls do what one call with the joined lists does |
| WalkerLayouts.BinderStepsExact | core/src/compiler.c:1002-1197 | the template binder steps over a pattern instruction exactly unless it is ACCEPT, REPEAT_INIT, REPEAT_STEP or ANCHOR |
| TemplateRun.EmitsPiece | core/src/vm_exec.c:1250-1560 | the VM emits a piece and steps over it exactly when a literal key is shorter than 1024 bytes |
| TemplateRun.RunsCompiled | core/src/vm_exec.c:1250-1560 | running a compiled template emits the text of its pieces in order |
| RenderedText.CaptureMeans | core/src/vm_exec.c:1270-1296 | a captured text is emitted as it is, and a missing capture emits nothing, whatever its format |
| RenderedText.UpperMeans | core/src/vm_exec.c:1452-1572 | upper raises every small letter by its place in the alphabet and keeps every other byte |
| RenderedText.LowerMeans | core/src/vm_exec.c:1452-1572 | lower does the reverse |
| RenderedText.LengthMeans | core/src/vm_exec.c:1452-1572 | length spells the size of the capture in decimal without leading zeros |
| RenderedText.PaddingMeans | core/src/vm_exec.c:1452-1572 | padding reaches the width, at most 1024, with the text at its end and the fill byte everywhere else; a text wide enough stays |
| RenderedText.TableMeans | core/src/vm_exec.c:1358-1451 | a table piece emits the value under its key, both cut at their first zero byte, and nothing for a missing table, key or capture |
| TemplateMeaning.TemplateMeans | core/src/compiler.c:779-1197 | compile, bind and run: the emitted text is that of the pieces with each table found under its listed id |
| TemplateMeaning.LongKeyTruncates | core/src/vm_exec.c:1384-1403 | a key of 1024 bytes or more that begins with the end marker ends the output there |

## Left out

- Matching of REPEAT, ARBNO, BAL, GOTO, EVAL, DYNAMIC, table and output instructions: these are compiled, walked and bound in the model, and their store operations are in `UndoLog` and `ChoiceVm`, but the meaning of patterns that contain them is not stated.
- EndToEnd.CompiledPatternRuns: requires clean fusion on the subject; `OrdinaryPatterns.Ordinary` with `EndToEnd.OrdinaryPatternRuns` is the form that can be checked on the pattern alone.
- Walker.WalkerMeetsCompiler: requires that the pass rewrote at instruction starts only; `QuietPatterns.QuietWalks` has a condition on the pattern instead, which allows an upper bound of a repetition only where the pattern takes up at most three loop numbers and the bounds are harmless.
- Binding.BindMeetsCompiler: the same, with `QuietPatterns.QuietBinds`.
- LoggedPattern.LoggedPatternRuns: speaks of runs whose log stays below 2^32 entries, since log offsets are stored in 32 bits.
- UndoLog.RunsAgree: the same 32-bit bound on the log; the unlogged loop writes are outside it and have their own exact conditions.
- MinLength.WalkIsBound: BAL is not executed in the model.
- OrdinarySearch.SearchExact: patterns with FENCE are outside it, since behind a FENCE it depends on the length of the subject whether an empty match is reached; for them the condition is shown sufficient (`OrdinarySearch.OrdinaryFiltersAreSound`).
- CompiledSearch.ImageFiltersAreSound: patterns with TAB, RTAB, ABORT or classes beyond ASCII are outside it; what happens to TAB, RTAB and such classes is in `BitmapLimits`.
- SearchMeta.FindEmptyBranch: its list of pending branches grows without limit, that of the source has 64 entries.
- SharedPrefix.Extract: requires that branches do not lead back to themselves, and `SearchMeta` that they lead forward, as they do in compiled code; on cyclic SPLITs the source's walk need not end.
- SharedPrefix.LiteralAt: adds offset and length of a literal without the 32-bit wrap-around of the source, and so does `LeadingLiteral.LiteralPrefix`.
- FusedExec.CheckEligible: alternation segments are not collected; a program with a SPLIT is refused.
- SimdScan.ExecWindowed: models the 16-byte window loop; the AVX2 variant does the same with 32 bytes.
- StringTable.Table.Set: values are never null, and the array map is not modelled.
- Batch.BatchRun: the search is a function from offsets to matches.
- OrdinaryBatch.BatchOrdinary: the searches are those of the general tier; what a match writes to the output is a parameter.
- TemplateRun.RunsCompiled: code that is cut off, or holds other than template instructions, has no result.
- TemplateBinder.NameAt: a table instruction cut off right before its name length ends the walk.
- ChoiceVm.Vm.PopChoice: requires log offsets in stack order, which `UndoLog.Agree` keeps in every run.
- ChoiceVm.Vm.PushChoice: record padding is written as zero and words are stored most significant byte first; the greedy-span branch and the counter limits of loops are not modelled.
- Labels.LabelsReadBack: requires that the pass rewrote at instruction starts only, as `Walker.WalkerMeetsCompiler` does; `Labels.QuietLabels` has a condition on the pattern instead.
- MinAttained.LeastIsAttained: SPAN, POS, RPOS, TAB, RTAB and anchors are outside it, since with them the least that the operations take need not be the size of a match; `MinAttained.MinimumIsTally` still counts them.
- MinAttained.MinimumIsTally: with more than twelve alternations on a way, where the source cuts the walk off, only the bound is stated (`MinLength.WalkIsBound`).
- StartsAttained.StartsExact: LEN, SPAN, POS, RPOS, TAB, RTAB and anchors are outside it; `StartsAttained.StartsAreFirsts` covers them.
- CaptureTexts.AssignedTextIsMatch: requires that the captured pattern does not itself capture into the register.
- CharClasses.NormalizeInPlace: the library sort is an insertion sort.
- Compiler.Compile: range counts of a class wrap at 16 bits as in the source; `EndToEnd.FewRanges` excludes that where classes are read back. More than 65535 labels, case-insensitive compilation and the fold tables are not modelled, and children of AST nodes are never null.
- Byte sets are 256 flags rather than packed words, and hash masks are remainders by the power-of-two capacity.
- The lexer, the parser, the required-literal prefilter, tier selection, the DFA, the trie and the pike search.
- Allocation failure, logging, thread-local arenas and freeing of memory.
