# Verified model of wsldisk

wsldisk moves, relinks, compacts and reports on the virtual disks that WSL distributions live in. This project models
the parts where a mistake costs a disk or a wrong answer, and proves what they promise. To verify it:

    dafny verify dfyconfig.toml

Nothing here runs the original program. The statements are about the model, whose branches, constants and error cases
follow the cited lines.

## What is proved

**The lifecycle of a disk operation.** `Runner.Run` takes a move, a relink or a compaction through plan, execute, verify
and rollback on a `Machine`: registry, files, WSL and clock. Any call may fail, in the undo entries too, and every call
is written in a journal with the state before and after it. In every state of a move, whatever fails, the whole disk is
at the source or at the target; the source is deleted only as the very last call, right after the distribution started
with the entry rewritten; and a source that is to be kept is still there after a success. A failed execution is taken
back part by part: each registry value, and the files, are as before if the calls that take that part back worked,
whatever happened to the others. When they all worked, nothing is left.

**Agreement with the enumeration.** After a move or a relink, enumerating the registry finds the distribution if and
only if a directory was written, and finds it at exactly the target if and only if an exact condition on the prefix and
the file name holds. A move starts the distribution from the target's file, in whatever spelling, under an exact
condition of its own. A relink to a bare file name, or a move to an empty destination, loses the distribution.

**Compaction.** The disk is opened only when the last thing known is that nobody has it open, after the stop. The wait
is bounded, and never spent while another distribution blocks. WSL is shut down only if that was asked, and otherwise
nothing but the target is stopped. The size before is the last one measured before the opening, and the size after the
one measured once the disk was compacted. The restart happens exactly once if it was asked, whether opening and
compacting worked or not, and is reported as done only if it worked. The trimmed byte count is the number before the
last `bytes` that `fstrim` printed.

**Space accounting.** The sums of `account_for_nesting` and `attribute` are measures of unions of subtrees of a finite
guest tree, exactly when no two outermost entries measure places of which one is in the other. A place is a sequence of
names, and containment of texts is containment of places for all paths without doubled or trailing slashes.

**Edit distance.** The two-row loop computes Levenshtein's recurrence, which is the least number of edits and a metric.

**Codecs.** UTF-8 and UTF-16 conversion round trips exactly on well-formed text and repairs the rest; the distribution
list and the command line read back what was written, the latter exactly when no argument holds a NUL. Both encodings
keep the order of code points, which with the grammar leaves one encoding for each.

**Capture and copy.** Over every interleaving with the child, captured, buffered and unwritten bytes stay the child's
output, in order, and no full pipe stops the child for good: one that runs until it is blocked exits within a number of
waits bounded by its output and the capacity of the pipes. A sparse copy has the original's bytes exactly as far as its
runs were listed, and writes only inside them; the paged list is whole exactly when no page is empty while rows remain.

**Sizes.** The parser accepts exactly the grammatical texts that fit and never leaves 64 bits; what is printed reads
back as no more, and less than a tenth of a unit and a byte less.

## How the system is modelled

- `Machine.World` holds the registry's strings and the files by canonical path. A file is a whole disk, known by the data
  it holds, or the fragment a failed copy left. What a booted guest writes belongs to the same disk, so it is not shown.
- A failed rename, removal or registry write changes nothing; a failed copy may leave a fragment where there was no file.
  No other process touches the two files or the entry between plan and execute.
- Calls that change nothing are in the journal too when their answer matters: the lock, what runs, and a file's size.
- The clock, the child's steps and every Win32 answer are arbitrary. `unsure` counts the questions that got no definite
  answer. In the capture, the copy and the orphan scan what becomes of each call is an input, a schedule of answers.
- The host starts the distribution that a key stands for; names are unique in WSL, so a key stands for its name. A start
  works only if a whole disk is where the registry says.
- A query for allocated ranges says that there is more exactly when rows are left over.
- `du` measures the place that a path names: doubled and trailing slashes do not matter to it, although they do to the
  comparison of paths.
- During a wait of the capture the child may take any steps; an eager one runs until it is blocked or has exited.
- `std::filesystem` operations in `Paths` follow the rules of the C++ standard library on Windows.
- Texts at the Windows edge are sequences of 16-bit units, texts inside are bytes, and 64-bit arithmetic is explicit.

## Where the code differs from what is said about it

- src/lib/model/text.cpp:70-71 says that a malformed sequence consumes the maximal well-formed subpart. It does exactly
  when no second byte is consumed or the second byte may follow the first (`Text.ConsumesTheWellFormedSubpart`); for
  E0 80 it consumes both bytes although the subpart is E0 alone.
- src/lib/model/size.cpp:44-46 says that digits past the ninth cannot change a byte count at any unit. That holds for
  bytes and for no other unit (`Size.CutIsFreeOnlyForBytes`): 0.0009765625k is one byte and reads as none.
- src/lib/ops/relink.cpp:169-171 says that the intended BasePath is never empty. For a target without a directory and an
  unprefixed entry it is, the check accepts it, and the next enumeration skips the distribution
  (`Agreement.BareNameLosesTheDistribution`). The same happens to a move to an empty destination
  (`Agreement.EmptyDestinationLosesTheDistribution`).
- src/lib/ops/usage.h:26-28 and 47 say that no bytes are counted twice. They are for two homes that differ by a trailing
  slash, which give entries for one place under two spellings (`SpaceUsage.SlashCountsTwice`).
- A canonical path is not always its own canonical path: `//?/c:/x` needs two passes (`Paths.CanonicalTwice` gives the
  exact condition).
- The free-space test of src/lib/ops/move.cpp:126 adds in 64 bits, so it asks for 64 MiB more than the disk exactly when
  the sum fits (`Move.RoomForHasMargin`).

## Model

| member | source | states |
|---|---|---|
| Runner.Run | src/lib/ops/runner.cpp:22-56 | Over every fault schedule: each state keeps what the operation promises (a move: the whole disk at source or target); the plan returned is the one for what was found; a refusal changes nothing and, if every question was answered, means the operation is not possible; a dry run changes nothing; an execution fails only after a call that failed or, for a compaction, on a disk that was open; after that every part whose take-back calls worked is as before, and all of it if all worked; a run completes only if the final check holds; a failed check never takes anything back, means for a compaction that the check does not hold, and for a move or relink only follows an unanswered question |
| Runner.IrreversibleStepsAreLast | src/lib/ops/runner.cpp:7-20 | True exactly when no undoable change follows an irreversible step |
| Runner.Operation.IsOrderly | src/lib/ops/runner.cpp:29-36 | No plan of any of the three operations is refused for its order |
| Runner.AllIsBack | src/lib/ops/runner.cpp:44-48 | If every take-back call was good, the machine is exactly as before the run |
| Runner.Operation.Execute | src/lib/ops/runner.cpp:44-49 | Whichever operation it is: every state is safe, the calls are in order, nothing is stopped that was not asked to be, and the result is what was achieved, or a failure that has a cause and that a rollback can start from |
| Runner.Operation.Rollback | src/lib/ops/runner.cpp:45-46 | Every state stays safe, only take-back calls are made, and parts whose calls were good are restored |
| Runner.Operation.AchievedChecks | src/lib/ops/runner.cpp:51-54 | What a move or relink achieves is what its verify looks for |
| Operations.Plan.Mutates | src/lib/ops/operation.cpp:9-11 | True exactly when some step mutates |
| Operations.UndoStack.Push | src/lib/ops/operation.cpp:13-15 | The entry is on top and the others are untouched |
| Operations.UndoStack.Unwind | src/lib/ops/operation.cpp:17-38 | Every entry runs exactly once, most recent first, whichever fail; every part whose own entries worked ends as if all had |
| Operations.UnwindingUndoesARun | src/lib/ops/operation.cpp:17-38 | For a run of any length whose entries each invert their own step, unwinding leads back to the start |
| Operations.SkippingShowsInItsPart | src/lib/ops/operation.cpp:25-36 | An entry that fails shows in no part but its own |
| Operations.WriteIsInverted | src/lib/ops/move.cpp:211-245 | Writing a value back undoes a write exactly when the value pushed is the one that was there |
| Operations.RenameIsInverted | src/lib/ops/move.cpp:176-190 | Moving back undoes a rename exactly when nothing was at the target |
| Operations.CopyIsInverted | src/lib/ops/move.cpp:192-208 | Removing the target undoes a copy exactly when nothing was at the target |
| Move.MoveOperation.Plan | src/lib/ops/move.cpp:54-166 | Asks and changes nothing; the first step moves the disk exactly if the directory is on its own volume and the source need not be kept, and otherwise copies it, with a deletion at the end unless the source is kept; succeeds exactly when the move is possible, if every question was answered; on success the target is free and differs from the source, the distribution is not running, and a copy has the room that the 64-bit sum asks for |
| Move.RoomForHasMargin | src/lib/ops/move.cpp:126-131 | The room a copy asks for is the disk and 64 MiB exactly when the sum fits 64 bits |
| Move.MoveOperation.Transfer | src/lib/ops/move.cpp:168-209 | The directory first, then a rename or a copy with the matching undo entry; on failure no entry, and the files as before if the clean-up of half a copy worked |
| Move.MoveOperation.Repoint | src/lib/ops/move.cpp:211-245 | Both values rewritten, the file name only where there was one; at every point the entries lead back to the start |
| Move.MoveOperation.ProveItBoots | src/lib/ops/move.cpp:247-263 | One start from what the registry says now; good only if the program exits with zero |
| Move.MoveOperation.Execute | src/lib/ops/move.cpp:265-321 | Success: disk at the target, entry new, nothing else changed, started exactly once and from the new entry; a source to be kept is kept; on one volume it became the target; otherwise its deletion was the last call, and it is gone and reported as deleted exactly if that worked. Failure: only after a call that failed, and the entries lead back. Either way no state without the disk |
| Move.MoveOperation.DeleteLeftover | src/lib/ops/move.cpp:289-317 | The source is deleted last, after a good start with the disk at the target; a deletion that fails leaves the move done |
| Move.MoveOperation.Verify | src/lib/ops/move.cpp:323-341 | Done exactly when the target is there and BasePath is the intended one, if every question was answered |
| Move.MoveOperation.Rollback | src/lib/ops/move.cpp:343-345 | Every state keeps the disk, the source is never deleted, and parts whose entries worked are restored |
| Move.TakingBackKeeps | src/lib/ops/move.cpp:181-208 | Any single entry, working or failing, keeps the disk |
| Move.RollbackKeeps | src/lib/ops/move.cpp:343-345 | So does any sequence of entries under any fault schedule |
| Move.KeptByDeleting | src/lib/ops/move.cpp:299-317 | The source may go once the target holds its disk |
| Move.KeptByLitter | src/lib/ops/move.cpp:192-202 | Half a copy, and cleaning it up, take nothing away |
| Repointing.RewrittenIsNew | src/lib/ops/move.cpp:211-245 | Rewriting the entry makes both values new and changes no other value and no file |
| Repointing.KeptByWriting | src/lib/ops/relink.cpp:99-130 | Writing an old or new value leaves each value either old or new and everything else alone |
| Relink.RelinkOperation.Plan | src/lib/ops/relink.cpp:39-92 | Changes nothing; succeeds exactly when the relink is possible, if every question was answered |
| Relink.RelinkOperation.Execute | src/lib/ops/relink.cpp:94-161 | Only the entry's two values ever change; success: both new, and started exactly once and from them; failure: only after a call that failed, and the entries lead back |
| Relink.RelinkOperation.Verify | src/lib/ops/relink.cpp:163-176 | Done exactly when BasePath is the intended one, if the question was answered |
| Relink.RelinkOperation.Rollback | src/lib/ops/relink.cpp:178-180 | Every value whose entry worked is as it was, whichever entries fail |
| Relink.RollbackKeeps | src/lib/ops/relink.cpp:178-180 | In every state of a rollback no file and no other value has changed |
| Agreement.MovedIsFoundAtTarget | src/lib/model/distro.cpp:121-189 | After a move, re-enumeration finds the distribution if and only if a directory was written, and then at exactly the target if and only if the move leads back: the written prefix survives, and the disk has a file name that can be added to the destination, or one with a drive that the destination shares; in either prefix form, with VhdFileName or without; every other distribution is unchanged |
| Agreement.PrefixIsLostButNotTheFile | src/lib/ops/move.cpp:46-52 | An unprefixed entry moved to a prefixed destination leads to another path, which is the same file |
| Agreement.MoveStartsFromTarget | src/lib/ops/move.cpp:247-263 | The smoke test of a move starts from the target's file, so a disk still at the source is untouched, if and only if a condition on the destination, the file name and the entry's form holds; and from some whole disk in any case |
| Agreement.WrittenFileIsTarget | src/lib/ops/move.cpp:36-52 | That condition is exactly when the written entry names the target's file, compared as the tool compares paths |
| Landing.ExtendedLands | src/lib/model/orphans.cpp:69-87 | A prefixed directory that is read without its prefix leads to the same file exactly when the rest is no bare drive, no bare server word and no second prefix |
| Landing.OnAnotherDrive | src/lib/model/distro.cpp:100-104 | Where a file name with a drive replaces the destination, exactly which directories lead to it, by its text and by its file |
| Agreement.EmptyDestinationLosesTheDistribution | src/lib/ops/move.cpp:46-52 | A move to an empty destination writes an empty BasePath, which is the intended one, and the distribution is no longer found |
| Agreement.RelinkedIsFoundAtTarget | src/lib/ops/relink.cpp:29-37 | For any target: after a relink, re-enumeration finds the distribution if and only if a directory was written, and then at exactly the target if and only if the prefix survives, the target is its directory joined with its file name, and that is the name the entry is read with; every other distribution is unchanged |
| Agreement.BareNameLosesTheDistribution | src/lib/ops/relink.cpp:163-176 | A relink to a bare file name writes an empty BasePath, which is what the check compares with, and the distribution is no longer found |
| Agreement.EntryAfterRewrite | src/lib/model/distro.cpp:121-189 | A rewritten entry is usable exactly when the new BasePath is not empty, and then reads as it did with the two values and the path replaced; all other entries read as before |
| Agreement.LeadsToName | src/lib/model/distro.cpp:87-104 | A directory in the entry's prefix form leads to a name inside it exactly when the prefix survives |
| Agreement.EnumeratedIsRegistered | src/lib/model/distro.cpp:121-189 | What the enumeration returns is what the registry says, as the operations require |
| Compact.CompactOperation.Plan | src/lib/ops/compact.cpp:116-157 | Asks and changes nothing; the steps planned; whether the distribution was running, by the snapshot or else by asking; the size before, if it was told; succeeds exactly on a version 2 distribution or a loose file whose disk is there, if every question was answered |
| Compact.CompactOperation.ReleaseDisk | src/lib/ops/compact.cpp:159-257 | Stops first: everything if a shutdown was asked, and otherwise the target alone; succeeds only if the last lock query said no; gives up with DistroBusy only if it said yes, and after the whole timeout if nothing else runs; sleeps only while nothing else runs, at most once per started half second |
| Compact.CompactOperation.WaitUntilFree | src/lib/ops/compact.cpp:193-223 | The polling loop terminates, with the bound on sleeps and a clock that advances at least as far as it sleeps |
| Compact.CompactOperation.RunGuestSteps | src/lib/ops/compact.cpp:259-286 | The trim if asked, then the stop; on success the disk is known to be free and was stopped before that, and the byte count kept is the one a trim that worked has printed |
| Compact.CompactOperation.RequireFreeFile | src/lib/ops/compact.cpp:288-301 | Succeeds only if the lock query said no |
| Compact.CompactOperation.RestartGuest | src/lib/ops/compact.cpp:303-333 | One start; it counts only if the program exits with zero |
| Compact.CompactOperation.RestartIfAsked | src/lib/ops/compact.cpp:339-354 | Exactly one start if it was asked and the distribution was running, none otherwise |
| Compact.CompactOperation.Execute | src/lib/ops/compact.cpp:356-414 | Opened once or not at all: a disk known to be free after the stop is opened, and one that was not opened was open when last asked, or the last call had failed; nothing is stopped but what was asked; compacted if it opened; the size before is the last one told before the opening and the size after the one told after the compaction; then exactly one restart if asked and none if not; success exactly when both worked; completed steps as asked, without the restart exactly if it failed, and what the file shrank by |
| Compact.CompactOperation.CompactReleased | src/lib/ops/compact.cpp:369-414 | From a free disk on: measured, opened, compacted if it opened, measured again if that worked, and restarted exactly once if asked; the restart is among the completed steps only if it worked |
| Compact.CompactOperation.OpenAndCompact | src/lib/ops/compact.cpp:377-403 | The measurements and calls in order, with each size kept from its own measurement |
| Compact.CompactOperation.SizesAround | src/lib/ops/compact.cpp:377-403 | Around the opening, the last answers about the size are those measurements |
| Compact.CompactOperation.Verify | src/lib/ops/compact.cpp:416-428 | Fails exactly when both sizes are known and the file grew |
| Compact.CompactOperation.Reclaimed | src/lib/ops/compact.cpp:65-72 | Known exactly when both sizes are; what was saved, or zero when the file grew |
| Compact.RunFstrim | src/lib/ops/trim.cpp:98-133 | Verbose first; once more without the option exactly when the first failed and its errors hold one of the two spellings of a refused option; good exactly when the last attempt was, and then with the byte count in its output |
| TrimOutput.ParseTrimmedBytes | src/lib/ops/trim.cpp:62-75 | The number right before the last `bytes`, over blanks only; none exactly when no page of that shape is the output, or its number does not fit 64 bits |
| TrimOutput.DigitsBefore | src/lib/ops/trim.cpp:39-59 | The value of the whole run of digits that ends there, or nothing when it is empty or does not fit |
| TrimOutput.PrintedCountIsRead | src/lib/ops/trim.cpp:62-75 | Whatever is printed before and after, a 64-bit count in front of the last `bytes` reads back as itself |
| TrimOutput.ContainsItsParts | src/lib/ops/trim.cpp:30-33 | The errors hold a spelling exactly when they are something, the spelling, and something |
| Containment.ContainmentIsStrictOrder | src/lib/model/catalogue.cpp:24-37 | Path containment is irreflexive and transitive |
| Containment.ContainersFormAChain | src/lib/model/catalogue.cpp:24-37 | The paths that contain a given one are ordered by containment |
| Containment.ContainsAfterSeparator | src/lib/model/catalogue.cpp:24-37 | One path contains another exactly when the other is it, a separator and more, so `/var/log` does not contain `/var/logbook` |
| Containment.TidyPathsSayTheirPlace | src/lib/model/catalogue.cpp:24-37 | For paths without doubled or trailing slashes, containment of the texts is that the names on the way to one begin the names on the way to the other |
| SpaceUsage.SumIsMeasureOfUnion | src/lib/ops/usage.cpp:118-132 | The sum over outermost entries is the size of the covered nodes, each counted once, if and only if no two of those entries measure places of which one is in the other |
| SpaceUsage.AttributionIsMeasureOfUnion | src/lib/ops/usage.cpp:143-166 | What is attributed to a directory is the size of the nodes under it that entries inside it cover, hence no more than its own bytes, if overlaps show in the text of the paths |
| SpaceUsage.Attribute | src/lib/ops/usage.cpp:143-166 | The loop computes that sum and the title of the largest entry inside |
| SpaceUsage.UsageReport.AccountForNesting | src/lib/ops/usage.cpp:118-132 | Marks exactly the entries that contain others and adds up exactly the outermost ones |
| SpaceUsage.UsageReport.MeasureDirectories | src/lib/ops/usage.cpp:231-273 | The rows below the root, largest first, at most `top` of them |
| SpaceUsage.UsageReport.Fill | src/lib/ops/usage.cpp:309-326 | For every finite guest tree the entries measure, the total and every row are measures of unions of its subtrees, even when the list is cut, if overlaps show in the text of the paths |
| SpaceUsage.PlacesShow | src/lib/model/catalogue.cpp:24-37 | Among paths without doubled or trailing slashes every overlap of places shows in the texts exactly when no path repeats |
| SpaceUsage.SlashCountsTwice | src/lib/ops/usage.cpp:87-110 | A home that ends in a slash, beside one that does not, gives two entries for one place, and twice its bytes |
| Containment.ContainedIsInPlace | src/lib/model/catalogue.cpp:24-37 | What one path contains by its text lies in the place it names |
| SpaceUsage.SortByBytes | src/lib/ops/usage.cpp:309-311 | A reordering with the largest first |
| SpaceUsage.TotalIsMeasure | src/lib/ops/usage.cpp:118-132 | The 64-bit total of any reordering of the entries is the size of what they cover |
| SpaceUsage.RowsAreMeasures | src/lib/ops/usage.cpp:231-273 | Every row shown is a measure of what the entries cover below it |
| SpaceUsage.ShownAreTheLargest | src/lib/ops/usage.cpp:309-318 | As many entries as asked for, or all, with the largest first |
| SpaceUsage.RowsAreTheLargest | src/lib/ops/usage.cpp:265-270 | No more rows than asked for, with the largest first |
| SpaceUsage.WrapsAt64Bits | src/lib/ops/usage.cpp:118-132 | The counter holds the sum modulo 2^64 |
| EditDistance.Distance | src/cli/lookup.cpp:19-40 | Two rows, swapped, give the recursive distance, for all strings |
| EditDistance.FillRow | src/cli/lookup.cpp:29-37 | One row of the table from the one before it |
| EditDistance.DistIsZero | src/cli/lookup.cpp:19-40 | Zero exactly on strings equal up to ASCII case |
| EditDistance.DistIsSymmetric | src/cli/lookup.cpp:19-40 | The same both ways |
| EditDistance.TriangleInequality | src/cli/lookup.cpp:19-40 | Never more by way of a third string |
| EditDistance.DistIsFewestEdits | src/cli/lookup.cpp:19-40 | Some script of insertions, deletions and replacements has that length and none is shorter |
| EditDistance.CaseIsFree | src/cli/lookup.cpp:19-34 | Replacing a character costs nothing exactly by itself or by its other ASCII case, and one otherwise |
| EditDistance.NearestNames | src/cli/lookup.cpp:44-59 | Exactly the registered names within the limit, nearest first and then alphabetical |
| EditDistance.SortedIsUnique | src/cli/lookup.cpp:51-57 | That order leaves no choice |
| EditDistance.FirstDifferenceDecides | src/cli/lookup.cpp:51 | Equal distances are in the order of the first byte that differs, a shorter name before its extensions |
| EditDistance.NearIsWithinLimit | src/cli/lookup.cpp:46-50 | A name is offered exactly when it is registered and within the limit |
| CommandLine.BuildCommandLine | src/lib/platform/wsl_host.cpp:78-116 | The loop writes the line the quoting rules define |
| CommandLine.WrittenAsItIs | src/lib/platform/wsl_host.cpp:87-92 | An argument is left unquoted exactly when it is not empty and has no space, tab, line feed, vertical tab or quote |
| CommandLine.AppendEscaped | src/lib/platform/wsl_host.cpp:94-112 | One argument's inside, with the backslashes before a quote doubled |
| CommandLine.ArgumentsSurvive | src/lib/platform/wsl_host.cpp:78-116 | Splitting the line by the CommandLineToArgvW rules, in either dialect of paired quotes, gives back the arguments if and only if none holds a NUL |
| CommandLine.ReadEscaped | src/lib/platform/wsl_host.cpp:94-112 | A quoted argument reads back as itself, trailing backslashes and quotes included |
| PipeCapture.Run.Capture | src/lib/platform/wsl_host.cpp:175-214 | Over every interleaving and every schedule of failing calls nothing is lost, invented or reordered; a success is exactly the child's output on both streams if none of the calls made on the pipes fails in the schedule, otherwise a prefix; a failure is a failed wait, a timeout or an unknown exit code, and the child is killed only on a timeout; the number of waits is bounded by the timeout, and for an eager child without failing calls by its output over the smaller pipe's capacity, so that a timeout long enough for that never strikes |
| PipeCapture.Run.Drain | src/lib/platform/wsl_host.cpp:62-74 | Ends, conserves both streams, and leaves the pipe empty unless one of its calls fails in the schedule |
| PipeCapture.Run.DrainAndWait | src/lib/platform/wsl_host.cpp:185-206 | One pass of the loop: after it an eager child has exited, or has written at least a pipe full more, unless a call fails |
| Text.ToUtf8 | src/lib/model/text.cpp:132-161 | The loop computes the narrowing of any 16-bit text, the units of each code point to its one UTF-8 form (`Utf8KeepsOrder`) |
| Text.ToWide | src/lib/model/text.cpp:163-173 | The loop computes the widening of any bytes, each character to its one UTF-16 form (`Utf16KeepsOrder`) |
| Text.DecodeOne | src/lib/model/text.cpp:88-128 | One step of the decoder at any index of any bytes |
| Text.Utf8KeepsOrder | src/lib/model/text.cpp:18-39 | A larger code point has the later encoding, byte by byte; with the grammar this leaves one encoding for each |
| Text.Utf16KeepsOrder | src/lib/model/text.cpp:41-49 | A code point below U+10000 is one unit, itself; above that the pairs are a high and a low half and keep the order |
| Text.PairIsACodePoint | src/lib/model/text.cpp:41-49 | Every pair of halves stands for a code point, so no other pairs could be meant |
| Text.MalformedIsReplaced | src/lib/model/text.cpp:88-128 | Bytes that begin no character become one U+FFFD for the lead byte and the continuation bytes it claims, as far as they go, and the rest is read by itself |
| Text.LoneSurrogateIsReplaced | src/lib/model/text.cpp:139-156 | Half of a pair that stands alone becomes EF BF BD, and the rest is read by itself |
| Text.WideRoundTrip | src/lib/model/text.cpp:132-173 | Through UTF-8 and back is the identity exactly on well-formed UTF-16 |
| Text.NarrowRoundTrip | src/lib/model/text.cpp:132-173 | Through UTF-16 and back is the identity exactly on well-formed UTF-8 (section 4 of RFC 3629) |
| Text.ConversionsRepair | src/lib/model/text.cpp:132-173 | On any input at all both conversions give well-formed text |
| Text.ChecksAreTheGrammar | src/lib/model/text.cpp:115-126 | The decoder's checks on an assembled value are exactly the grammar of section 4 of RFC 3629 |
| Text.ConsumesTheWellFormedSubpart | src/lib/model/text.cpp:68-128 | A malformed sequence consumes its maximal well-formed subpart exactly when no second byte is consumed or the second byte may follow the first |
| Text.ConsumesMoreThanTheWellFormedSubpart | src/lib/model/text.cpp:68-128 | E0 80 is one that consumes more |
| WslOutput.DecodeUtf16le | src/lib/model/wsl_output.cpp:32-50 | Pairs of bytes as units, without a leading mark and without an odd last byte |
| WslOutput.ParseDistributionList | src/lib/model/wsl_output.cpp:52-67 | The trimmed, non-empty lines in order |
| WslOutput.ListRoundTrip | src/lib/model/wsl_output.cpp:21-67 | A page of names, none with a line feed inside or with a NUL, tab, line feed, carriage return or space at an end, reads back as the names in order, with or without a mark, with blank lines and an odd last byte |
| WslOutput.TrimSays | src/lib/model/wsl_output.cpp:21-28 | Trimming takes those five bytes off both ends, all of them and nothing else |
| SparseCopy.AllocatedRanges | src/lib/platform/filesystem.cpp:317-378 | For every way the queries may be answered, the list they add up to page by page; it is the answer of one unbounded query exactly when no query fails and none that leaves rows over is empty |
| SparseCopy.ListedIsWhole | src/lib/platform/filesystem.cpp:342-376 | That condition, for the list as a function of the answers |
| SparseCopy.StalledListIsShort | src/lib/platform/filesystem.cpp:369-372 | An empty page ends the list early, and a copy that follows it is not the file |
| SparseCopy.CopyJob.CopyRange | src/lib/platform/filesystem.cpp:93-137 | One run copied in chunks, short reads included, and no other byte changed; it succeeds exactly when every call works |
| SparseCopy.CopyFileSparse | src/lib/platform/filesystem.cpp:399-463 | Succeeds exactly when the list does and every later call works; a success is the original in the listed runs and zero outside them, so the original's length and bytes when all runs were listed; every write lies in a run of the original; progress climbs strictly to the total |
| SparseCopy.Destination.Resize | src/lib/platform/filesystem.cpp:76-85 | The length alone; new bytes read as zero |
| Size.ParseSize | src/lib/model/size.cpp:168-200 | Accepts exactly the grammatical texts whose whole part times the unit fits 64 bits, and gives the floor of unit times the number with nine fraction digits |
| Size.SuffixesAre | src/lib/model/size.cpp:17-41 | The sixteen suffixes and no others, each with its power of 1024 as a number |
| Size.DigitsAre | src/lib/model/size.cpp:59-61 | The ten digits and what each stands for |
| Size.TrimmedSays | src/lib/model/size.cpp:67-75 | Trimming takes spaces, tabs, carriage returns and line feeds off both ends, all of them and nothing else |
| Size.SaysOneSize | src/lib/model/size.cpp:168-200 | A text says at most one size |
| Size.ParseWhole | src/lib/model/size.cpp:99-116 | The digits' value, or nothing when there are none or it does not fit |
| Size.ParseFraction | src/lib/model/size.cpp:119-135 | A point and at least one digit, nine of which count |
| Size.ParseMultiplier | src/lib/model/size.cpp:138-155 | The unit of a suffix in any case, after any spaces |
| Size.ScaleFraction | src/lib/model/size.cpp:159-164 | The floor of the exact quotient, with no product leaving 64 bits |
| Size.CheckedMul | src/lib/model/size.cpp:83-88 | The product, or nothing exactly when it does not fit |
| Size.CutCostsLittle | src/lib/model/size.cpp:118-164 | Cutting the fraction costs at most ceil(unit / 10^9) bytes and never adds any |
| Size.CutIsExact | src/lib/model/size.cpp:118-164 | The cut changes nothing exactly when what the dropped digits add does not carry the kept remainder over a byte |
| Size.CutIsFreeOnlyForBytes | src/lib/model/size.cpp:44-46 | Digits past the ninth never change a byte count at a unit exactly when the unit is a byte |
| Size.CutCostsAByte | src/lib/model/size.cpp:44-46 | For every other suffix, a text whose byte count they change |
| Size.TheTenthDigitCounts | src/lib/model/size.cpp:44-46 | 0.0009765625k, whose tenth digit counts |
| Size.FormatSize | src/lib/model/size.cpp:202-244 | The text of the largest unit not above the size, with one decimal rounded down |
| Size.UnitIsTheLargest | src/lib/model/size.cpp:202-244 | Which sizes are printed in which unit |
| Size.PrintedReadsBack | src/lib/model/size.cpp:202-244 | For every 64-bit size, what is printed reads back as at most it, less than a tenth of the unit and one byte short, and exactly below 1024 |
| Size.SecondPrinting | src/lib/model/size.cpp:202-244 | Printing what was read back gives the same text exactly below 1024 or with 0 or 5 tenths |
| Orphans.FindOrphans | src/lib/model/orphans.cpp:139-167 | For any answer to every single listing and measurement: the first unclaimed disk under each canonical path among the readable listings, in scan order, and one warning per failed listing |
| Orphans.FoundWherePatternsLead | src/lib/model/orphans.cpp:93-167 | On a disk that does not change, a path is reported exactly when it is the canonical path of a disk listed in a directory that some pattern stands for, and no distribution claims it |
| Orphans.OneOrphanPerFile | src/lib/model/orphans.cpp:139-167 | No two orphans are the same file, and the files are exactly the unclaimed disks listed |
| Orphans.OverlapAddsNothing | src/lib/model/orphans.cpp:139-167 | Overlapping patterns change nothing |
| Orphans.IsUnclaimedDisk | src/lib/model/orphans.cpp:27-47 | Reports exactly an unclaimed disk not seen before, and remembers it |
| Orphans.IsDiskByName | src/lib/model/orphans.cpp:29-36 | A disk is a file whose name is something followed by `.vhdx` in any case |
| Orphans.CollectUnclaimed | src/lib/model/orphans.cpp:50-65 | One listing more, with what was seen before |
| Orphans.ExpandScanPattern | src/lib/model/orphans.cpp:93-124 | The pattern itself if it has no wildcard; otherwise, in the order of one listing of what is before the first one, each directory there joined with what is behind it; nothing if that cannot be listed |
| Orphans.JoinAllOfNames | src/lib/model/orphans.cpp:97-108 | What is behind the wildcard is the names there with a backslash between them |
| Paths.CanonicalPath | src/lib/model/orphans.cpp:69-87 | The in-place edits compute the canonical form |
| Paths.CanonicalSays | src/lib/model/orphans.cpp:69-87 | Unit by unit: capitals small, slashes backslashes, and nothing gone from the end but separators, all of them but one that is all there is |
| Paths.CanonicalTwice | src/lib/model/orphans.cpp:69-87 | A second pass changes nothing exactly when the first did not uncover another prefix |
| Paths.TwoPassesAreNeeded | src/lib/model/orphans.cpp:69-87 | `//?/c:/x` changes in a second pass |
| Paths.StripUndoesExtending | src/lib/model/distro.cpp:87-98 | The prefix put in front of a directory comes off again exactly when the directory does not begin with `UNC\` |
| Paths.StripKeepsPlain | src/lib/model/distro.cpp:87-98 | A path is left as it is exactly when it has no extended prefix |
| Paths.PrefixesAre | src/lib/model/distro.cpp:87-98 | What each of the two prefixes is and what is left without it |
| Paths.FilenameOfJoin | src/lib/model/distro.cpp:100-104 | The file name of a join is the name joined |
| Distro.Enumerate | src/lib/model/distro.cpp:121-189 | Fails exactly when a read fails; otherwise every subkey in order, a distribution or a warning |
| Distro.ListedInOrder | src/lib/model/distro.cpp:131-187 | Every usable subkey is a distribution and every other a warning, each in the order of the subkeys |
| Distro.MatchesUpToCase | src/lib/model/distro.cpp:25-28 | Two names match exactly when they are the same up to the case of ASCII letters |
| Distro.ReadEntry | src/lib/model/distro.cpp:133-186 | What one subkey says, or the first failed read |
| Distro.EntryReadsItsValues | src/lib/model/distro.cpp:133-186 | Which registry value each field comes from, what an absent one stands for (version 2, no number, no text), and which subkeys are no distribution |
| Distro.KeyReader.Text | src/lib/model/distro.cpp:44-54 | The value, nothing after a failure, and the first failure kept |
| Distro.KeyOfEntry | src/lib/model/distro.cpp:83-85 | The key built from a distribution is the one it came from exactly when the subkey's name is well-formed |
| Distro.RepointedEntry | src/lib/model/distro.cpp:121-189 | Rewriting an entry changes where its disk is and nothing else about it |
| Distro.RepointedToNothing | src/lib/model/distro.cpp:154-165 | An entry that names no directory is a warning and no distribution |
| Distro.OtherEntries | src/lib/model/distro.cpp:121-189 | And nothing about any other distribution |

## Left out

- Win32 calls, handle guards and the mapping of their error codes appear only as calls that work or fail.
- Command-line parsing, JSON, TOML, completion scripts, rendering, progress display, logging and all wording; a step is a
  kind, and warnings in plans are not modelled.
- Two spellings of one file that differ by more than case, separators and the extended prefix: hard links, short names,
  and relative paths are separate files here. So is a directory that stands where a disk is expected.
- What a guest does: `fstrim`, `du`, `df` and booting give arbitrary results, and disk contents after a boot are abstract.
- The compaction inside `virtual_disk`, whose guarantee depends on the kernel.
- The trim operation around `run_fstrim`, and the commands that choose targets for `compact --all`.
- Guest paths with `.`, `..` or symbolic links: two spellings of a guest place that differ by more than slashes are two
  places.
- The parsing of `du` output and of `passwd`: the listings are given.
- A guarantee against a child that writes forever: `drain` has no clock, so the model gives the child finitely many bytes.
- PipeCapture.Run.Capture: a failing pipe call may cut a stream short on a success, as in the source; the contract then
  promises a prefix only.
- Move.MoveOperation.Execute: the record must match the registry, the target must still be free and the volumes must be as
  the plan found them, which the enumeration and the plan establish when nobody else interferes.
- Compact.CompactOperation.Execute: no size may have been measured before the run's own plan, which holds of an operation
  that is run once.
