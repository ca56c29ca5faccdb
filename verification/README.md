# Verified models of reverse-slop

reverse-slop is a reverse-engineering workbench: a C++ engine that analyses and
patches binary images, and a desktop front end that supervises the engine and
mirrors its output. This project models the parts of it that are hardest to get
right and proves what they promise, in Dafny 4.11.
`dafny verify dfyconfig.toml` checks everything.

## What is where

| file | subject |
|---|---|
| `Words`, `Hex`, `Image` | machine words, hex digits and printed bytes, the address-to-offset map of a PE image |
| `Decoder` | instructions, the linear walk, what is asked of a decoder, and a small decoder that meets it |
| `Journal` | a byte write, the undo journal, replay and undo |
| `Passes`, `XorRegion` | what each patch operation does, as a function of the image |
| `Patcher` | the same operations carried out in place on a byte array |
| `DeadCode` | filling dead code preserves meaning |
| `Regions`, `Redecode`, `Effects` | what the rewriting passes change, and that decoding again finds every instruction |
| `Branches` | forcing branches only takes runs away |
| `Sites`, `Preview` | the anti-debug sites after other passes; dry runs against real runs |
| `WholePass` | the three passes of a full pass together |
| `Reports`, `Scoring` | which sites each pass reports and which bytes it writes there, and what the score counts, in terms of the instructions |
| `Session` | arbitrary sequences of patch operations |
| `Quoting` | quoting a command line, and the Windows rules that read it back |
| `Jobs` | unpack jobs: callers, worker threads and readers |
| `VmTrace` | from an instruction trace to the opcode sequence of a virtual machine |
| `Palette` | fuzzy matching and ranking in the command palette |
| `LibSig` | masked signature scan and enclosing-function search |
| `Packer`, `ImageFindings` | the packer verdict and its sampling; the findings and the verdict in terms of the image |
| `Monitor`, `Handshake` | the endpoint monitor, the line that carries the endpoint, the engine's main loop |
| `OutputLog` | the output pane: live lines, clears, disconnects and replays |
| `Icons` | the icon request queue |

Code that works in place is modelled in place: `Patcher.Patcher` over an array,
`VmTrace.Tracer`, `Palette.Palette`, `Monitor.Engine`, `Handshake.Mirror`,
`OutputLog.OutputStore`, `Icons.IconQueue`, `Jobs.JobRecord` and
`Jobs.JobTable`. Each of their methods is proved equal to a function of the old
state, and the properties are proved about those functions. Concurrency is
modelled as a machine whose steps are the critical sections; the theorems hold
for every interleaving of steps.

## Assumptions

- The instruction decoder is a parameter. `Decoder.IsX86` states what is needed
  of it: an instruction has 1 to 15 bytes and depends only on those bytes; the
  encodings the passes write (Intel SDM volume 2A, chapter 3: NOP, XOR, JMP) and
  the conditional jumps they look for (Jcc) decode as the manual says; a
  time-stamp read is any number of ignored prefixes, then 0F 31; opcode 31 is an
  XOR of two bytes or more. It is needed only where a lemma requires it.
- "Meaning" of a function is the set of its runs as sequences of instructions.
  Control moves by falling through, after an instruction that is not a branch,
  a conditional jump or a call, or to a direct branch target, and every direct
  target inside the function is an instruction start. `DeadCode.OverlapChangesRuns`
  shows that the last condition cannot be dropped.
- The image bytes of a function lie at consecutive file offsets.
  `Image.PeMap.OneSectionIsLinear` derives this for a function inside one
  section of a PE image.
- Where the code reports a detail in words, the model keeps the numbers.

## Where the code does less than it says

Each of these is stated as a lemma, with the exact condition where there is one.

- A second `revert_all` finds an empty journal and clears the stale mark, so the
  indexes can stay built from bytes that are gone (`Session.StaysCurrentIff`,
  `Session.SecondRevertHidesStale`). The comment at
  `src/core/analysis/imgpatch.cpp:548` wants a no-op revert to leave the indexes
  alone.
- `unpack_xor` does not stop the background analysis although the comment at
  `src/core/analysis/imgpatch.cpp:30` says that every write does
  (`Session.WritesAreQuiet`).
- A branch after the opaque-predicate idiom is reported as forced whatever its
  length; only two encodings are rewritten (`Effects.ForcedIff`). The force
  applies to every condition code, so meaning is not claimed to be preserved;
  what holds is that no run is added (`Branches.ForcingOnlyRemovesRuns`).
- Of a time-stamp read with prefixes only the first two bytes are rewritten. With
  exactly one prefix the instruction boundary after it is lost; with two or more
  it is kept, but what is left is still a time-stamp read, although the read is
  reported as gone (`Effects.AntiKeepsStartsIff`, `Effects.ReadSurvivesIff`,
  `Effects.LongerReadSurvives`).
- `finish` counts every reported site as a changed byte and marks the indexes
  stale, in a dry run too (`Preview.DryFullPass`, `Patcher.Patcher.Conclude`).
- A compiled signature compares the lowest bit of each byte only
  (`LibSig.EveryFitOccursIff`); nothing is missed, much is found.
- A trace address up to 255 bytes past a handler's start counts as that handler
  however short it is, unless another claims it (`VmTrace.WindowOverreachIff`).
- For every query length from five on there are commands whose group match
  outranks a title match (`Palette.TitlesFirstIff`).
- The sidecar's own path is read by other rules than its arguments, so a path
  with a quotation mark or a trailing backslash does not survive quoting
  (`Quoting.UnpackCommandReadsBack`).
- The output pane loses lines when a clear is missed while the stream is down,
  when a replay fails, and when a line lands between a replay's request and its
  response (`OutputLog.MissedClearLeavesGap`, `OutputLog.FailedReplayLeavesGap`,
  `OutputLog.LineDuringReplayLosesLines`).
- A replay's lines and its number are read under two locks
  (`src/core/mcp/mcp_tools.cpp:8552-8560`); a line printed in between is claimed by
  the response, dropped when it arrives, and never shown
  (`OutputLog.TornReplayLosesLine`, `OutputLog.MergeKeepsGoodIff`).
- A line is numbered under a lock and queued outside it
  (`src/core/infra/event_bus.cpp:106-117`); of two lines queued in the wrong order
  the first is never shown (`OutputLog.SwappedLinesLoseOne`).
- A restarted engine is noticed only while it has printed fewer lines than the pane
  has seen; afterwards the pane mixes lines of both (`OutputLog.RestartUnnoticed`).
- The reason of a failed start is replaced by a general one as soon as the engine's
  output ends (`Handshake.EngineToFrontEnd`).
- An icon that is shown can be replaced by "no icon" when its path is looked up
  again while its batch is under way (`Icons.SecondFetchLosesIcon`).
- A job that succeeds although cancellation was requested is shown as cancelled
  by the job system and as succeeded by its record (`Jobs.EndsAgreeIff`).
- Each marker string is searched for behind the previous find, so all that occur
  are listed only if places for them can be chosen that rise in the order of the
  list (`Packer.AllListedIff`, `Packer.EarlierMarkerIsMissed`); the verdict does
  not suffer (`Packer.MarkerPacks`).

## Model

| member | source | states |
|---|---|---|
| `DeadCode.NopJunkPreservesRuns` | src/core/analysis/imgpatch.cpp:81-159 | whatever the threshold, with or without aggressive filling, the image before and after the pass has the same runs from the function's entry, through the same instructions |
| `DeadCode.OverlapChangesRuns` | src/core/analysis/imgpatch.cpp:125-155 | a function with a branch into the middle of an instruction where filling does change the runs |
| `DeadCode.FilledIsDead` | src/core/analysis/imgpatch.cpp:131-148 | a filled instruction is never the entry or a branch target, and what precedes it is filled or does not fall through |
| `DeadCode.RunStaysLive` | src/core/analysis/imgpatch.cpp:131-148 | a run of either image never touches a filled instruction |
| `Session.SessionUndo` | src/core/analysis/imgpatch.cpp:38-53 | after any sequence of operations with overlapping writes the journal replayed from the loaded image gives the current one, and reverting gives the loaded image back byte for byte with an empty journal |
| `Session.StaysCurrentIff` | src/core/analysis/imgpatch.cpp:535-553 | wherever the stale mark is clear the indexes describe the current bytes; each operation keeps this exactly unless it is a revert with nothing to undo that meets stale indexes, so always unless a caller reverts with an empty journal while the mark is set |
| `Session.SessionStaysCurrent` | src/core/analysis/imgpatch.cpp:69-75 | the same over whole sessions without such a revert |
| `Session.SecondRevertHidesStale` | src/core/analysis/imgpatch.cpp:547-550 | write, rebuild, revert, revert: the mark is clear and the indexes describe bytes that are gone, for every image and every write that changes a byte |
| `Session.WritesAreQuiet` | src/core/analysis/imgpatch.cpp:30-35 | after every operation but XOR unpacking that changed a byte the background analysis is stopped, and XOR unpacking never stops it; the order of stopping and writing is in the contracts of `Patcher.Patcher`, by way of `SetByte` |
| `Patcher.Patcher.SetByte` | src/core/analysis/imgpatch.cpp:33-51 | the only place where a byte of the image changes; it notes whether the analysis was reading at that moment, and every other method but `UnpackXor` promises that this never happens |
| `Journal.RecordsReplay` | src/core/analysis/imgpatch.cpp:43-51 | a journal that records how one image became another, replayed forwards, gives the second |
| `Journal.RecordsUndo` | src/core/analysis/imgpatch.cpp:538-541 | walked backwards it gives the first, however often an offset was written |
| `Journal.PokeAllHits` | src/core/analysis/imgpatch.cpp:38-53 | after a list of writes a byte holds the value of the last write that lands on it |
| `Journal.PokeAllMisses` | src/core/analysis/imgpatch.cpp:38-53 | a byte no write lands on is unchanged |
| `Journal.OverwriteBack` | src/core/analysis/imgpatch.cpp:516-523 | writing the old bytes back restores the image |
| `Journal.ByteRecorded` | src/core/analysis/imgpatch.cpp:38-53 | a byte write that reaches the file adds one record with its address, place, and the bytes before and after |
| `Journal.RangeRecorded` | src/core/analysis/imgpatch.cpp:516-523 | a range adds one such record for each byte, in order |
| `Image.PeMap.OneSectionIsLinear` | src/core/disasm/pe_parser.cpp:37-46 | addresses inside one section's file-backed part map to consecutive file offsets, when no earlier section claims them |
| `Image.PeMap.OffsetIff` | src/core/disasm/pe_parser.cpp:37-53 | an address maps into the first section whose memory holds it, if before the end of that section's file bytes; of the rest the first 0x400 bytes map to themselves, and nothing else maps |
| `Decoder.Machine.WalkSteps` | src/core/analysis/imgpatch.cpp:55-67 | the n-th decoded instruction is the one found after n steps, and the walk stops only at the cap or where nothing decodes |
| `Decoder.Machine.WholeWalk` | src/core/analysis/imgpatch.cpp:55-67 | the walk the passes take goes on as long as something decodes, for at most 8192 instructions |
| `Decoder.Machine.SameBytesSameInsn` | src/core/analysis/imgpatch.cpp:55-67 | an instruction whose own bytes are untouched decodes as before, whatever else changed |
| `Decoder.ToyIsX86` | src/core/analysis/imgpatch.cpp:61 | a concrete decoder meets everything that is assumed of one |
| `Effects.OpaqueKeepsStart` | src/core/analysis/imgpatch.cpp:200-212 | after forcing jumps every original instruction start is found again at a stated place in the walk, up to the cap of 8192 |
| `Effects.AntiKeepsStartsIff` | src/core/analysis/imgpatch.cpp:242-300 | the anti-debug pass keeps every instruction start exactly when no time-stamp read with one prefix stands before another instruction that the cap leaves room for |
| `Effects.AntiKeepsStart` | src/core/analysis/imgpatch.cpp:242-300 | after the anti-debug pass every start up to the first read with one prefix is found again at a stated place |
| `Effects.AntiLosesStart` | src/core/analysis/imgpatch.cpp:290-297 | the start after the first read with one prefix is never found again, for every function |
| `Effects.ReadSurvivesIff` | src/core/analysis/imgpatch.cpp:290-299 | every reported read becomes a cleared register of two bytes, and its other bytes still hold a time-stamp read exactly when it had two or more prefixes |
| `Effects.LongerReadSurvives` | src/core/analysis/imgpatch.cpp:290-299 | a concrete function, F3 66 0F 31 and a return, whose read is reported and still there |
| `Effects.PrefixedRdtscLosesStart` | src/core/analysis/imgpatch.cpp:290-297 | a concrete function with such a read, whose next start is lost |
| `Effects.FillKeepsStart` | src/core/analysis/imgpatch.cpp:140-148 | the same after dead-code filling |
| `Effects.ForcedIff` | src/core/analysis/imgpatch.cpp:200-214 | a conditional jump right after XOR or TEST of a register with itself becomes an unconditional jump to the same target exactly when it has two bytes, or five or more and opens with 0F; otherwise it stays the conditional jump it was. Only behind the last walked branch can the window to decode the moved jump be missing |
| `Effects.OpaqueChangesReported` | src/core/analysis/imgpatch.cpp:191-214 | every byte the pass changes belongs to a branch it reports |
| `Effects.AntiChangesReported` | src/core/analysis/imgpatch.cpp:257-298 | every byte the anti-debug pass changes belongs to an instruction it reports |
| `Effects.JunkChangesFilled` | src/core/analysis/imgpatch.cpp:142-153 | every byte the junk pass changes belongs to a filled instruction |
| `Reports.OpaqueReportIff` | src/core/analysis/imgpatch.cpp:163-219 | one hit for each conditional jump whose predecessor is XOR or TEST of a register with itself, and nothing else, dry or not |
| `Reports.ForcedBytes` | src/core/analysis/imgpatch.cpp:200-212 | byte by byte what the real pass leaves of every instruction |
| `Reports.JunkReportIff` | src/core/analysis/imgpatch.cpp:81-159 | one hit for each closed run of more no-operations than the clamped threshold, with its start and length, and in aggressive mode one for each unreferenced instruction behind a jump or return, with the bytes its fill covers |
| `Reports.FillIff` | src/core/analysis/imgpatch.cpp:122-155 | an instruction becomes no-operations exactly when the mode is aggressive and a fill reaches it: no return on the way, no target behind the head, less than 64 bytes from it; every other instruction keeps its bytes |
| `Reports.AntiReportIff` | src/core/analysis/imgpatch.cpp:223-304 | one hit for each call or jump through the import slot of a debugger interface, each breakpoint or interrupt and each time-stamp read that the options ask for, and nothing else, dry or not |
| `Reports.AntiBytes` | src/core/analysis/imgpatch.cpp:242-300 | byte by byte what the real pass leaves of every instruction |
| `Reports.WriteBytesIff` | src/core/analysis/imgpatch.cpp:507-533 | a raw write succeeds exactly when the whole range lies in the file, and changes that range only |
| `Reports.RevertAndRebuildReport` | src/core/analysis/imgpatch.cpp:535-663 | a revert reports the length of the journal it empties, a rebuild the number of instructions that decode |
| `Branches.ForcingOnlyRemovesRuns` | src/core/analysis/imgpatch.cpp:200-212 | every run of the patched image from the function's entry, without the addresses of jumps that moved by a byte, is a run of the image before, one that takes each forced branch |
| `Redecode.RewalkKeepsStart` | src/core/analysis/imgpatch.cpp:55-67 | when each instruction becomes no-operations, a shorter jump or a cleared register of the same length, decoding again reaches every original start up to the first one lost |
| `Redecode.RewalkLosesStart` | src/core/analysis/imgpatch.cpp:55-67 | and never the one after a three-byte read of which the last byte survived |
| `Redecode.ForcedJumpKeepsTarget` | src/core/analysis/imgpatch.cpp:205-211 | the short form keeps its target at its own address, the near form one byte later |
| `Redecode.RelTargetShift` | src/core/analysis/imgpatch.cpp:208-211 | a branch moved one byte on and made one byte shorter keeps its target in wrapping arithmetic, 64-bit and 32-bit |
| `Regions.RegionAfter` | src/core/analysis/imgpatch.cpp:195-212 | instruction by instruction writes do not disturb each other, and a byte outside every instruction is untouched |
| `Preview.SameReport` | src/core/analysis/imgpatch.cpp:163-219 | on the same image both rewriting passes report the same addresses and actions, dry or not |
| `Preview.DryFullPass` | src/core/analysis/imgpatch.cpp:598-647 | a dry full pass leaves bytes and journal alone, its second score is what a fresh scoring gives, and it marks the indexes stale as soon as it found a site |
| `Preview.AntiSitesSurvive` | src/core/analysis/imgpatch.cpp:223-304 | the anti-debug sites after the opaque-predicate pass are those before it, up to the last instruction that the cap of 8192 still leaves room for |
| `Preview.PreviewPredictsRealPass` | src/core/analysis/imgpatch.cpp:598-647 | below a score of 50 a dry full pass reports what the real one then does, exactly when no anti-debug site stands so far on that the extra instructions push it behind the cap; the real sites are the front of the dry ones |
| `Preview.PreviewOfHeavyPass` | src/core/analysis/imgpatch.cpp:598-647 | from 50 on the opaque-predicate report is predicted too, and the real anti-debug sites are the predicted ones outside filled instructions, as far as the cap lets the walks get |
| `Sites.SitesSurvive` | src/core/analysis/imgpatch.cpp:242-300 | after any rewriting into jumps and no-operations the anti-debug sites are those at the instructions left alone, up to the last one the cap leaves room for |
| `WholePass.FullPassKeepsStartsIff` | src/core/analysis/imgpatch.cpp:598-647 | the real full pass, all three passes together, keeps every instruction start that the cap leaves room for exactly when no time-stamp read with one prefix stands before one of them, unless the dead-code fill swallowed the read |
| `WholePass.StartSurvives` | src/core/analysis/imgpatch.cpp:598-647 | every start up to the first such read is found again at a stated place |
| `WholePass.FirstPassesOnlyRemoveRuns` | src/core/analysis/imgpatch.cpp:598-647 | every run after forcing jumps and filling dead code, without the addresses of moved jumps, is a run of the original that takes each forced branch |
| `Preview.ScoreBound` | src/core/analysis/imgpatch.cpp:588-593 | the score of every function is at most 85 |
| `Scoring.ScoreIsPoints` | src/core/analysis/imgpatch.cpp:557-594 | ten points for each opaque predicate up to 25, eight for each run of at least four no-operations up to 20, fifteen for each indirect jump up to 25, fifteen for a push before a return |
| `Scoring.FullPassFigures` | src/core/analysis/imgpatch.cpp:598-647 | the first score is that of the function as it was, the second that of the function as the real pass leaves it, and the changed-byte figure counts the sites of the three passes |
| `Preview.AssumptionsMet` | src/core/analysis/imgpatch.cpp:598-647 | one concrete image, with an opaque predicate, meets the assumptions of all the theorems about the passes at once |
| `XorRegion.CyclicTwice` | src/core/analysis/imgpatch.cpp:369-377 | the cyclic mode applied twice gives the region back, for every key |
| `XorRegion.RollingInvertsChain` | src/core/analysis/imgpatch.cpp:380-391 | rolling mode inverts the chained encoding for every length and start key |
| `XorRegion.ChainInvertsRolling` | src/core/analysis/imgpatch.cpp:380-391 | and the encoding inverts rolling mode |
| `XorRegion.BestKey` | src/core/analysis/imgpatch.cpp:344-353 | the least of the keys with the highest score |
| `XorRegion.AutoFailsIff` | src/core/analysis/imgpatch.cpp:354-358 | automatic mode gives up exactly when no key scores 20 |
| `XorRegion.UnpackTwice` | src/core/analysis/imgpatch.cpp:308-406 | unpacking twice with one written key restores every byte while the journal keeps both runs |
| `XorRegion.UnpackRolling` | src/core/analysis/imgpatch.cpp:378-391 | whatever was encoded by chaining from the first byte of a written key is recovered in the image |
| `XorRegion.KeyReadsBack` | src/core/analysis/imgpatch.cpp:320-332 | a key written as digits in either case, with any other text between them, reads back as its bytes; with one digit more there is no key |
| `XorRegion.EveryKeyText` | src/core/analysis/imgpatch.cpp:320-332 | every text is of one of these two forms |
| `XorRegion.UnpackCyclic` | src/core/analysis/imgpatch.cpp:365-377 | with a written key each byte of the region is XORed with the key byte whose turn it is, and nothing else changes |
| `XorRegion.UnpackAuto` | src/core/analysis/imgpatch.cpp:336-377 | automatic mode succeeds exactly when some key turns twenty of the first 256 bytes into common opcodes, and uses the least of the best keys |
| `XorRegion.UnpackErrors` | src/core/analysis/imgpatch.cpp:308-398 | which error is reported, for each input; a failed run changes nothing |
| `Hex.PairReadsBack` | src/core/analysis/imgpatch.cpp:329-331 | two digits printed for a byte, in either case, read back as that byte |
| `Patcher.Patcher.Poke` | src/core/analysis/imgpatch.cpp:38-53 | in place: the new image, journal and marks are those of one write; false exactly when the address is not in the file |
| `Patcher.Patcher.DecodeFn` | src/core/analysis/imgpatch.cpp:55-67 | the decoding loop computes the linear walk |
| `Patcher.Patcher.Conclude` | src/core/analysis/imgpatch.cpp:69-75 | any reported site marks the indexes stale and counts as one changed byte |
| `Patcher.Patcher.NopJunk` | src/core/analysis/imgpatch.cpp:81-159 | in place: state and report are those of the pass the theorems speak of |
| `Patcher.Patcher.FillDead` | src/core/analysis/imgpatch.cpp:140-148 | one fill writes exactly its edit and returns its length |
| `Patcher.Patcher.ResolveOpaque` | src/core/analysis/imgpatch.cpp:163-219 | in place, dry or not: state and report of the opaque-predicate pass |
| `Patcher.Patcher.PatchAntiDebug` | src/core/analysis/imgpatch.cpp:223-304 | in place, dry or not: state and report of the anti-debug pass |
| `Patcher.Patcher.UnpackXor` | src/core/analysis/imgpatch.cpp:308-406 | in place: bytes, journal, marks and result of unpacking, every error case included |
| `Patcher.Patcher.FindKey` | src/core/analysis/imgpatch.cpp:344-353 | the search returns the best key and its score |
| `Patcher.Patcher.WriteBytes` | src/core/analysis/imgpatch.cpp:507-533 | in place: the range is overwritten and journaled byte by byte, or nothing changes |
| `Patcher.Patcher.RevertAll` | src/core/analysis/imgpatch.cpp:535-553 | in place: the backward walk computes the undo of the whole journal |
| `Patcher.Patcher.ObfuscationScore` | src/core/analysis/imgpatch.cpp:557-594 | the counting loop computes the score |
| `Patcher.Patcher.FullPass` | src/core/analysis/imgpatch.cpp:598-647 | in place: state and figures of the whole pass |
| `Patcher.Patcher.Rebuild` | src/core/analysis/imgpatch.cpp:651-663 | re-decoding marks the indexes stale and counts the instructions, or changes nothing |
| `Quoting.QuoteArg` | src/core/analysis/magicmida.cpp:86-105 | the loop with its counter computes the quoted form |
| `Quoting.QuoteRoundTrip` | src/core/analysis/magicmida.cpp:86-105 | every string, quoted, reads back as exactly one argument, itself, under the older and the newer C runtime rule |
| `Quoting.UnpackCommandReadsBack` | src/core/analysis/magicmida.cpp:261-262 | the command line reads back as program, switch and input exactly when the program's path has no quotation mark and no trailing backslash; the input may be any string |
| `Jobs.RunSafe` | src/core/analysis/magicmida.cpp:371-424 | for every interleaving: numbers given out are in the table, snapshots of one job never go backwards and never change after the end, each pairs success with a good result and an end with its final result, and at most 64 jobs are live |
| `Jobs.SubmitIff` | src/core/infra/jobs.cpp:97-130 | a submission is turned away exactly when it would make more than 64 live jobs; otherwise it starts queued under a new number |
| `Jobs.LookupFinds` | src/core/analysis/magicmida.cpp:410-424 | a number once given out is found at every later point |
| `Jobs.EndsAgreeIff` | src/core/infra/jobs.cpp:127-135 | record and job system agree on how a job ended exactly when it did not succeed under a requested cancellation |
| `Jobs.EndsAs` | src/core/infra/jobs.cpp:124-145 | what the record and the job system show at the end, for every result a worker can report |
| `Jobs.JobRecord.Finish` | src/core/analysis/magicmida.cpp:386-394 | result and state are stored together |
| `Jobs.JobTable.GetJob` | src/core/analysis/magicmida.cpp:410-424 | a job is found exactly when it is in the table, and the copy is its record |
| `VmTrace.SlotOwns` | src/core/analysis/devirt.cpp:270-280 | an address belongs to the handler that starts last among those whose window holds it, and to none only if no window does |
| `VmTrace.Tracer.TraceBytecode` | src/core/analysis/devirt.cpp:291-313 | the bytecode is the first `maxOps` items of the rounds' distinct slots in ascending order, the handler addresses match it index by index, and the visits are counted |
| `VmTrace.OneHandlerRounds` | src/core/analysis/devirt.cpp:291-313 | with one handler per round, besides code in no handler's window, and disjoint handlers of at most 256 bytes the bytecode is the sequence of handlers executed |
| `VmTrace.WindowOverreachIff` | src/core/analysis/devirt.cpp:274-278 | for disjoint handlers of at most 256 bytes, an address counts as a handler it does not lie in exactly when it lies in none and, of the handlers whose 256-byte window holds it, that one starts last |
| `Palette.FuzzyScore` | src/ui/command_palette.cpp:49-84 | the loop computes the greedy match |
| `Palette.FuzzyComplete` | src/ui/command_palette.cpp:49-84 | matching succeeds exactly when the pattern is a subsequence, ignoring case |
| `Palette.FuzzyLeftmost` | src/ui/command_palette.cpp:57-76 | the positions increase, pick out the pattern, and are pointwise no later than any other embedding |
| `Palette.FuzzyBounds` | src/ui/command_palette.cpp:61-82 | a match that collects positions scores at least m - 9, one that does not at most 22m - 5 |
| `Palette.FuzzyScoreIs` | src/ui/command_palette.cpp:54-82 | the score is what the positions earn: start, separators, small letter before capital, adjacency, gaps, less the characters before the first, at most ten |
| `Palette.SameLetterIff` | src/ui/command_palette.cpp:42 | ignoring case means equal, or the same letter of the alphabet in two cases |
| `Palette.HitScores` | src/ui/command_palette.cpp:138-147 | a command is ranked by its title if that matches, otherwise by its group a hundred points lower |
| `Palette.Palette.BuildFiltered` | src/ui/command_palette.cpp:128-153 | the list holds every matching command once, ranked by score, ties in registration order |
| `Palette.RankedUnique` | src/ui/command_palette.cpp:149-152 | that describes one list only |
| `Palette.ListedIff` | src/ui/command_palette.cpp:128-147 | a command is listed exactly when the query is a subsequence of its title or its group |
| `Palette.TitlesFirst` | src/ui/command_palette.cpp:140-151 | for queries of one to four characters every title hit comes before every group-only hit |
| `Palette.TitlesFirstIff` | src/ui/command_palette.cpp:140-151 | for queries of m characters title hits come first whatever the commands are exactly when m is at most 4 |
| `Palette.BoundsAreMet` | src/ui/command_palette.cpp:61-82 | for every m from 2 on there are a title that scores m - 9 and a group that scores 22m - 105 |
| `Palette.DrawHighlighted` | src/ui/command_palette.cpp:157-168 | exactly the matched positions are tinted |
| `LibSig.Compile` | src/core/analysis/libsig.cpp:20-49 | the parsing loop accepts exactly the grammar's patterns and produces their bytes and masks |
| `LibSig.PatternReadsBack` | src/core/analysis/libsig.cpp:26-47 | a pattern written as digit pairs and pairs of question marks with blanks between reads back as what it asks for |
| `LibSig.EveryPattern` | src/core/analysis/libsig.cpp:26-47 | whatever is accepted is written that way |
| `LibSig.CompiledAs` | src/core/analysis/libsig.cpp:26-48 | its given bytes are compiled under mask 1, its wildcards to zeros |
| `LibSig.FirstFit` | src/core/analysis/libsig.cpp:92-111 | the least offset at which the masked test holds, or none when it holds nowhere |
| `LibSig.Scan` | src/core/analysis/libsig.cpp:66-116 | per executable section and compiled signature one hit at the leftmost fit, or none |
| `LibSig.ScanIff` | src/core/analysis/libsig.cpp:66-116 | the reported hits are exactly those of each pattern in each executable section the file holds: at the first place that agrees in the lowest bit of every given byte, less the anchor but not below the section's start |
| `LibSig.NoOccurrenceMissed` | src/core/analysis/libsig.cpp:82-113 | wherever a pattern really occurs in a scanned span, the section has a hit for it there or further left |
| `LibSig.EveryFitOccursIff` | src/core/analysis/libsig.cpp:95-96 | every hit is an occurrence only for patterns made of wildcards alone |
| `LibSig.FullMaskIsExact` | src/core/analysis/libsig.cpp:44 | with mask 0xFF every fit is an occurrence |
| `LibSig.EnclosingFunction` | src/core/analysis/libsig.cpp:51-62 | the binary search finds the last function that starts at or before the address, if it reaches it |
| `LibSig.BinaryIsLinear` | src/core/analysis/libsig.cpp:51-62 | for sorted disjoint functions it finds what a linear search finds |
| `Monitor.RunSafe` | app/src-tauri/src/lib.rs:36-76 | in every run: never both endpoint and failure, no sleeper without a wake-up on its way once something is set, and every return is right about what it saw: the endpoint, the failure, or the timeout where neither was set |
| `Monitor.LookMeans` | app/src-tauri/src/lib.rs:36-71 | what a waiter finds after each kind of update: an endpoint always wins, a failure counts only without one, time only where there is neither |
| `Monitor.EndpointStays` | app/src-tauri/src/lib.rs:36-51 | a published endpoint is never lost, and no wait fails after it |
| `Monitor.NoLostWakeup` | app/src-tauri/src/lib.rs:41-74 | once something is set and every notifier is done, no waiter is asleep |
| `Monitor.WaitKeepsDeadline` | app/src-tauri/src/lib.rs:55-74 | whatever wakes it and however often, a wait keeps the deadline of its entry, the time then plus its timeout, and gives up no earlier |
| `Monitor.WaitsEndByDeadline` | app/src-tauri/src/lib.rs:55-75 | if time does not run ahead of threads that can move, every wait is over by that deadline, and one that gives up does so exactly then |
| `Monitor.InstantEnds` | app/src-tauri/src/lib.rs:58-74 | from every state at most two steps per waiter, none of them the clock's, reach an instant at which time may pass |
| `Handshake.ReadyRoundTrip` | app/src-tauri/src/lib.rs:199-209 | the printed ready line reads back as its endpoint exactly when the port is not 0 and the token has no white space; an empty token is fine |
| `Handshake.LineMeans` | app/src-tauri/src/lib.rs:199-217 | what every line does, by its words: a ready line with a port publishes it with the token, one without is a failure that quotes the line, a failure line gives its reason, any other does nothing |
| `Handshake.FieldsReadBack` | app/src-tauri/src/lib.rs:200 | splitting gives back the words whatever white space is between them |
| `Handshake.PortIff` | app/src-tauri/src/lib.rs:203 | a port is read exactly from its decimal spellings, with a plus sign and zeros in front or not, up to 65535 |
| `Handshake.FailureReads` | app/src-tauri/src/lib.rs:212-214 | the reason is what stands behind the keyword, without the white space around it |
| `Handshake.PrintedLines` | src/engine/engine_main.cpp:85-141 | the three lines as they are printed |
| `Handshake.EndpointSurvives` | app/src-tauri/src/lib.rs:210-218 | other lines and the end of the stream never replace a published endpoint |
| `Handshake.ReadStdout` | app/src-tauri/src/lib.rs:197-219 | the reader thread's loop leaves the monitor as the lines say |
| `Handshake.EngineMain` | src/engine/engine_main.cpp:85-141 | a second engine prints the first one's endpoint and leaves; otherwise at most one announcement is printed |
| `Handshake.AnnouncedIff` | src/engine/engine_main.cpp:89-141 | the engine announces exactly what the first turn stands for at which booting has come to an end, if none up to it was asked to quit |
| `Handshake.EngineToFrontEnd` | src/engine/engine_main.cpp:89-141 | from any run of the engine the front end ends up with the endpoint announced, or with the failure that the end of the stream stands for |
| `Handshake.Mirror.Drain` | src/engine/engine_main.cpp:113-121 | every retained line after the last mirrored one is printed once, in order |
| `OutputLog.PaneIsGood` | app/src/store/output.ts:25-67 | in every calm run of all parties, step by step between lock releases (lines numbered, matched to subscribers, queued, taken and delivered; clears; other events; disconnects, hellos; replays that read lines and number separately) the pane holds, unless a clear is on its way to it, a gap-free, duplicate-free block of at most 4096 engine lines that ends at its revision, and when nothing is under way a pane that holds anything holds the newest line |
| `OutputLog.LineKeepsGoodIff` | app/src/store/output.ts:26-37 | a live line keeps the pane good exactly when it is old, the next, or the first one held |
| `OutputLog.NextLine` | app/src/store/output.ts:26-37 | the next line goes behind what is held, of which the newest 4095 stay |
| `OutputLog.MergeKeepsGoodIff` | app/src/store/output.ts:57-63 | a replay keeps it good exactly when its number belongs to its last line, it does not end before what is held, and it starts right after it or replaces it; or when the pane already ends at that number |
| `OutputLog.FreshPaneCatchesUp` | app/src/store/output.ts:42-63 | a pane that starts empty gets everything the engine retains: at most its newest 4096 lines since the last clear |
| `OutputLog.RestartNoticed` | app/src/store/output.ts:42-44 | a pane that has seen more lines than a restarted engine has printed starts over and gets all of them |
| `OutputLog.RestartUnnoticed` | app/src/store/output.ts:42-44 | otherwise, unless the lines happen to agree, it mixes the lines of both engines |
| `OutputLog.BacklogIsNewest` | src/core/infra/event_bus.cpp:48-60 | a subscriber's backlog is the newest 512 frames |
| `OutputLog.MissedClearLeavesGap` | app/src/store/output.ts:39-45 | a clear missed while disconnected, with a line missed on either side of it, always leaves a gap |
| `OutputLog.FailedReplayLeavesGap` | app/src/store/output.ts:64-66 | after a failed replay the next live line leaves a gap |
| `OutputLog.LineDuringReplayLosesLines` | app/src/store/output.ts:57-61 | a line between request and response loses the missed lines for good |
| `OutputLog.TornReplayLosesLine` | src/core/mcp/mcp_tools.cpp:8552-8560 | from every settled state a line numbered between the two reads of a replay is lost for good |
| `OutputLog.SwappedLinesLoseOne` | src/core/infra/event_bus.cpp:106-117 | from every settled state two lines queued in the wrong order lose the first one for good |
| `OutputLog.OutputStore.OnOutput` | app/src/store/output.ts:26-37 | the update a live line makes |
| `OutputLog.OutputStore.OnHello` | app/src/store/output.ts:42-45 | a hello from a restarted engine empties the pane; the cursor to replay from |
| `OutputLog.OutputStore.OnReplay` | app/src/store/output.ts:56-63 | the update a response makes |
| `Icons.NeverStranded` | app/src/lib/icons.ts:47-93 | in every run waiting paths have an armed timer or a flush under way, batches hold 1 to 64 distinct paths, and when nothing is under way everything asked for is cached |
| `Icons.Drains` | app/src/lib/icons.ts:47-79 | without new lookups every step, whatever it is and whatever calls return, brings the queue one closer to the end, and at the end everything asked for is cached |
| `Icons.RunOnceIffPolite` | app/src/lib/icons.ts:81-93 | over a whole run every path is waiting, under way or cached at most once exactly when no path is looked up while its batch is under way |
| `Icons.OnceIffPolite` | app/src/lib/icons.ts:81-93 | the same for one step |
| `Icons.AnswersNeverChange` | app/src/lib/icons.ts:81-93 | in such a run an answer once given never changes |
| `Icons.SecondFetchLosesIcon` | app/src/lib/icons.ts:64-68 | otherwise an icon already shown can be lost |
| `Icons.FillIs` | app/src/lib/icons.ts:60-68 | every path of a batch ends in the cache, on success and on failure, and no other entry changes |
| `Icons.AnswerAfterReply` | app/src/lib/icons.ts:60-93 | after a batch each of its paths is answered with its icon, or as having none; others are answered as before |
| `Icons.BatchTakes` | app/src/lib/icons.ts:47-54 | a batch takes the first 64 waiting paths |
| `Icons.WaitersKeepPlace` | app/src/lib/icons.ts:86-93 | whatever else is asked for, waiting paths keep their places in the queue |
| `Icons.IconQueue.IconFor` | app/src/lib/icons.ts:86-93 | the answer given, and the queue after it |
| `Icons.IconQueue.Fire` | app/src/lib/icons.ts:47-54 | the batch taken, and the queue after it |
| `Icons.IconQueue.Settle` | app/src/lib/icons.ts:60-71 | the cache after the call, and the timer armed again when paths are waiting |
| `Packer.PackedIff` | src/core/analysis/packer.cpp:371-388 | packed exactly when some finding names a family, or the findings weigh 0.55 and one is strong |
| `Packer.PackedMeans` | src/core/analysis/packer.cpp:371-388 | packed images have a strong finding, a family is reported exactly for them, and it is the first of the heaviest findings that name one |
| `Packer.WeakNeverPacks` | src/core/analysis/packer.cpp:373-376 | data entropy, TLS and overlay alone never pack, over any number of sections with any names |
| `Packer.NoPhrase` | src/core/analysis/packer.cpp:378-380 | no section name the loaders produce (`src/core/disasm/pe_parser.cpp:125`, `src/hyperion/core/loader/macho_loader.cpp:606`) contains the words the gate looks for |
| `Packer.StrongIff` | src/core/analysis/packer.cpp:377-384 | so a finding is strong exactly when it is not about data entropy, TLS or an overlay |
| `Packer.Analyze` | src/core/analysis/packer.cpp:158-388 | the accumulating loops compute the verdict over all findings in order |
| `ImageFindings.ReportIff` | src/core/analysis/packer.cpp:158-370 | the report names exactly what the image has, kind by kind, and its confidence is what that weighs, at most 100 |
| `ImageFindings.VerdictIff` | src/core/analysis/packer.cpp:371-388 | an image is packed exactly when something in it names a packer, or it has a strong sign and everything weighs at least 55 |
| `ImageFindings.FamilyIs` | src/core/analysis/packer.cpp:371-388 | the reported family is that of the first heaviest finding that names one; without one a packed image has an unknown family and any other image none |
| `ImageFindings.LoudWritableCodePacks` | src/core/analysis/packer.cpp:201-237 | an executable and writable section of high entropy suffices |
| `Packer.FindBytes` | src/core/analysis/packer.cpp:115-126 | the least offset from the start on at which the bytes occur inside the file |
| `Packer.MarkersFoundIff` | src/core/analysis/packer.cpp:284-300 | some marker is reported exactly when some marker occurs in the file |
| `Packer.MarkerPacks` | src/core/analysis/packer.cpp:284-300 | an image containing any marker is packed |
| `Packer.RealMarkerPacks` | src/core/analysis/packer.cpp:110-114 | a file with any of the ten marker words in it is packed |
| `Packer.MarkerReportedIff` | src/core/analysis/packer.cpp:284-300 | a marker is reported exactly when it occurs at or after the place where its search starts, which is behind the last marker found before it |
| `Packer.AllListedIff` | src/core/analysis/packer.cpp:284-300 | every marker that occurs is reported exactly when places for them can be chosen that rise in the order of the list |
| `Packer.EarlierMarkerIsMissed` | src/core/analysis/packer.cpp:110-114 | in a file that reads ThemidaVMProtect the second marker of the real list is there and not reported |
| `Packer.SampleBounds` | src/core/analysis/packer.cpp:17-36 | sections of up to 256 KiB are counted whole, larger ones through 256 Ki to 512 Ki bytes at multiples of the stride |
| `Packer.Histogram` | src/core/analysis/packer.cpp:17-36 | the loop counts exactly the sampled bytes |

## Left out

- `mapper/`, `driver/`, `src/live/`: operating-system and hardware effects.
- Views, components, themes and the other front-end stores: presentation, or mirrors of the engine's state.
- Zydis, Unicorn, Hyperion, PE parsing: the decoder is a parameter with stated assumptions, the trace and the parsed image are inputs.
- `decode_strings` in `src/core/analysis/imgpatch.cpp`: heuristics that change nothing.
- `classify_handlers`, `classify_handler_insns` and `lift` in `src/core/analysis/devirt.cpp`: labels and text; so is a failed emulation.
- The first loop of `nop_junk`: it fills a list nobody reads. The never-taken branch of `resolve_opaque_predicates`: nothing sets its flag.
- `key_confidence` of XOR unpacking and Shannon entropy: floating point. Entropies are inputs, weights are hundredths; rounding of the sum of weights is not modelled.
- Report texts, logging, file moves, process launch and the parsing of imports; `run` in `src/core/analysis/magicmida.cpp` is its outcome, which is cancelled only if that was requested.
- `jobs` and `shutdown` in `src/core/analysis/magicmida.cpp`, and reaping in `src/core/infra/jobs.cpp`: lists and cancellation over the same table.
- `RebuildCommands` and `Register` in `src/ui/command_palette.cpp`: they build the list that is an input here. Characters are ASCII.
- `parse_sig_set` in `src/core/analysis/libsig.cpp`: JSON.
- Section-name and entry-stub tables of `src/core/analysis/packer.cpp`: the family found is an input.
- Preview.PreviewPredictsRealPass: where the address after the function does not map back into its bytes; `Preview.PreviewOfHeavyPass` and `WholePass.FullPassKeepsStartsIff` likewise.
- Branches.ForcingOnlyRemovesRuns: like the dead-code theorem for functions whose direct targets are instruction starts.
- Packer.FindBytes: stops at the last offset where the bytes fit; the loop in `src/core/analysis/packer.cpp:119` compares once more, past the end.
- Quoting.QuoteRoundTrip: a NUL character in a command line ends it for the process that is started; strings here have none or treat it as any other.
- Handshake.EngineMain: quitting, booting and the server's port are inputs of each turn of the loop.
- OutputLog.PaneIsGood: for calm runs, the runs in which none of the losses above happens and the engine is not restarted; `OutputLog.RestartNoticed` is about restarts.
- Icons.NeverStranded: callbacks told about a batch are lookups right after it; one that throws is not modelled.
- Monitor.WaitsEndByDeadline: scheduling and spurious wake-ups are steps; that time does not overtake a thread that can move is an assumption.
