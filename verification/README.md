# PMFuzz in Dafny

PMFuzz fuzzes programs that use persistent memory (PM). A compiled-in runtime counts PM accesses in a
coverage map and dumps images at failure points; a Python driver runs AFL in two stages, collects
testcases, maps and PM images into directories, and passes each generation of testcases on to the next.
This project models that runtime and that driver and proves what they keep, over every run.

`dafny verify dfyconfig.toml` checks all of it.

| files | what they are about |
|---|---|
| `Bits`, `ShiftRegister`, `PmMap`, `FailurePoints`, `Runtime` | the coverage map: the byte counters of path mode, the one-hot shift registers of baseline mode, the xor edge encoding, and the failure-injection automaton that snapshots the map. `Runtime.PmRuntime` is the code over byte arrays; it refines the automaton on abstract edge counts |
| `Names`, `FileNames`, `Lineage`, `SelectIds`, `StageDirs`, `Examples` | names: the grammar of testcase names, the eight files of a testcase, parents, generations, ids, stage directories, and the documented examples of these |
| `PTimers`, `Scheduler` | persistent timers, and stage 2 as passes over them |
| `Corpus`, `CorpusRuns`, `CorpusCoverage`, `DedupStage` | the corpus stores: what each operation does to them as a function on values, invariants over every run, what the two minimisers do to coverage, and the loops of `dedup.py` proved against those functions |
| `Coverage`, `Cmin`, `DedupEngine`, `CrashSites`, `Listings`, `ListDeletion` | unions of maps, the corpus minimiser, deduplication of map files and of crash sites, listings, deletion by collected index |
| `Parallel`, `StageState`, `Driver` | the process pool, what the output directory says, and the driver's loop |

Directories are finite maps from files to contents, listings come in any order, and hashes are injective
(a content stands for its hash). The clock may advance between any two reads. AFL, the target, process
exits and configuration answers are arbitrary choices.

## What the proofs found

* **The first failure point.** `include/libpmfuzz.c:257` promises a dump at the first failure injection. The
  code clears `save_img` for failure id 0, so there is a dump exactly when the map has changed and one of
  the two environment variables asks for it (`FailurePoints.FirstPointDumps`, with a run that does not dump in
  `FailurePoints.FirstPointWithoutDump`).
* **Reads low, writes high.** The notes in `include/libpmfuzz.c:147-185` say the map's first half is for reads and
  its second for writes. Among maps whose indices are safe, all runs keep to it exactly in path mode
  (`PmMap.HalvesApartIff`); in baseline mode some write lands on register 0 (`PmMap.BaselineWriteInReadHalf`).
* **Small maps.** Every index stays inside the map exactly for sizes from 256 on in path mode and 4096 on in
  baseline mode; below, `size / 2 - 97` or `size / 32 - 97` wraps around (`PmMap.IndicesInsideIff`).
* **Element size.** `include/shiftregarr.h:46` allows elements of up to INT_32_MAX bytes. The scan index is an
  `int32_t` that counts bits, so calls push whole registers exactly up to an eighth of that
  (`ShiftRegister.FullPushIff`). Larger elements start the scan outside the register, are never changed, or count
  like smaller ones (`ShiftRegister.LargeElements`).
* **Regular expressions.** The file-name patterns also accept a trailing newline, and the archive patterns any
  character but a newline for their unescaped dots. `FileNames.RecognisedExactly` says what each accepts,
  `FileNames.DotAccepted` which characters, and `FileNames.RecognisedIff` that nothing else than the printed names
  is accepted with the literal extension.
* **Parents of minimised testcases.** Of a testcase's eight files, `get_testcase_parent` leads to the same kind of
  file of the parent exactly for the seven that are not the minimised testcase. There it takes `.min` for an id
  and returns the testcase itself (`Lineage.ParentOfFile`).
* **Testcases without an image.** A testcase is collected before its image is made, and making it can fail. Then
  `update_global` aborts on it: in stage 1 exactly when some collection left no image, in stage 2 exactly while
  the stage holds a child that never got one (`CorpusRuns.UpdateGlobalAbortsIff`). Stage 1 does not collect a
  testcase twice, so it never gets past that abort (`CorpusRuns.StageOneStuck`).
* **A stop can leave a testcase without its image.** `update_global` copies the image last and skips what is already
  there. A testcase PMFuzz was stopped at in between never gets its image, and no child of it is ever collected
  (`CorpusRuns.AncestorImages`, `CorpusRuns.TornHasNoChildren`, with an instance in `CorpusRuns.TornTestcase`). It
  aborts `update_local` and collection; nothing else without an image does (`CorpusRuns.ImageAbortsIff`).
* **The local minimiser can lose coverage.** `minimize_corpus_lcl` compares against `@dedup_sync` (its comment
  says the global store) but removes from the global store. A legal run of two minimisations loses a map
  (`CorpusCoverage.LocalMinimiserLosesCoverage`). PM coverage is kept in whatever order the maps are listed
  exactly when each covered map has a holder that is not compared, or is held by all testcases compared under
  some one map (`CorpusCoverage.LocalMinimiserKeepsMapsIff`). The global minimiser loses nothing.
* **`combine_maps`** fails when the first map is missing and a later one is there (`Coverage.CombineMaps`).
* **`wait` looks at no exit code.** A pool that is to exit on failure notices every child that has failed when it
  counts (`Parallel.Pool.AliveCnt`), but counts only to start others. Once `wait` returns, a failure went unnoticed
  exactly when a child still in the list has failed (`Parallel.Pool.Wait`, with an instance in
  `Parallel.UnnoticedFailure`).
* **One window of the driver.** Between `clear` and the creation of the next iteration's directory the output
  looks as it did after stage 1. A stop there, and nothing else, sends the next session back to stage 2's first
  iteration (`Driver.Cleared`, `Driver.Sessions`). The global store stays, so it then holds testcases deeper than
  the iteration allows, of any depth (`CorpusRuns.TooDeepIff`, `CorpusRuns.DeepAtIterationOne`).
* **A dead AFL process blocks its stage.** `os.kill` is called before the pid file is removed, so once a process is
  gone with its pid file there, every later pass and the `terminate` of a completed stage raise
  (`Scheduler.DeadJobBlocks`, and `Stage2.Pass` and `KillAll` for all cases). Each pass that raises may start more
  jobs before, so only then can pid files exceed twice the slots (`Scheduler.Stage2.Passes`, with an instance in
  `Scheduler.OverTwiceTheSlots`). A stage gets through exactly if that and aborted starts and collections do not
  happen (`Scheduler.Stage2.RunStage`).
* **A failed start counts as done.** The timer is started before the job. If the job's start aborts, counting raises
  until the timer is up; then the testcase counts as completed though nothing of it is ever collected
  (`Scheduler.Stage2.StartTestcase`, `Scheduler.Stage2.KillAll`).

## Model

| member | source | states |
|---|---|---|
| ShiftRegister.GetNextPow2 | include/libpmfuzz.c:103-112 | the least power of two that is at least `val`, for 1 to 2^31, and 0 for every other 32-bit word |
| ShiftRegister.PowersOfTwo | include/libpmfuzz.c:103-112 | the powers of two meant are the 32 from 1 to 2^31 |
| ShiftRegister.ScanDown | include/shiftregarr.h:56-63 | the scan from the top finds the highest bit that differs from `basebit`, or -1 |
| ShiftRegister.PushMoves | include/shiftregarr.h:56-80 | on any register: where the highest bit that differs from `basebit` is, it moves up one place, no other bit changes, and at the top it stays |
| ShiftRegister.MaskIs | include/shiftregarr.h:56-80 | bit k of a byte is its k-th from the lowest |
| ShiftRegister.WriteBit | include/shiftregarr.h:65-80 | setting or clearing one bit changes that bit of the register, and no byte outside it |
| ShiftRegister.SraPushBack | include/shiftregarr.h:48-81 | for every element size: the bytes whose bits fit the `int32_t` scan index are pushed, in the register at `loc` only, the marked bit moving up one place and stopping at the top; says when the scan would start outside the register. Needs the asserted `loc < elem_cnt` |
| ShiftRegister.FullPushIff | include/shiftregarr.h:46-63 | calls push whole registers, for all buffers, exactly when eight times the element size fits `int32_t` |
| ShiftRegister.SeenBytesRepeat | include/shiftregarr.h:46-63 | for every element size: the scan starts inside the register exactly if the size modulo 2^29 is below 2^28, and that remainder is the number of bytes it looks at |
| ShiftRegister.LargeElements | include/shiftregarr.h:46-63 | sizes within the note's bound at which the scan starts outside, nothing ever changes, or 2^29 + 32 bytes count like 32 |
| ShiftRegister.RegisterCounts | include/shiftregarr.h:48-81 | a cleared register pushed n times has exactly one bit set, at place min(n, width) - 1, and none if n = 0 |
| ShiftRegister.OneHotDistinct | include/shiftregarr.h:48-81 | registers tell all counts up to the cap apart |
| ShiftRegister.PushDual | include/shiftregarr.h:56-80 | on bits, pushing with the other base bit on the complement is the complement of the push |
| ShiftRegister.BaseBitDuality | include/shiftregarr.h:56-80 | the same on the bytes of the buffer: complement, push with the other base bit, complement again is the push |
| ShiftRegister.PushedDeterministic | include/shiftregarr.h:48-81 | what a push must do fixes every byte of the result |
| Bits.XorDigits | include/libpmfuzz.c:123-124 | the exclusive or used for indices is the bitwise one |
| Bits.XorTopDigit | include/libpmfuzz.c:123-124 | mixing in a shifted location keeps the top digit, hence the half of the map |
| PmMap.DecodeEncode | include/libpmfuzz.c:121-124 | locations can be read back from the indices they were turned into |
| PmMap.EncodeDecode | include/libpmfuzz.c:121-124 | every sequence of indices comes from exactly one sequence of locations |
| PmMap.PathRunDecodes | include/libpmfuzz.c:121-124 | for any run in path mode, the locations passed to `update_loc` are determined by the indices touched |
| PmMap.LocationsAre | include/libpmfuzz.c:151-199 | in a safe map, the location of a read is `rand` modulo half the size, that of a write `rand` modulo 97 less, half a map above; a read-write passes that remainder, and half a map above it |
| PmMap.ElementIs | include/libpmfuzz.c:119-135 | in a safe map the element of a location is itself in path mode, and in baseline mode its remainder modulo 97 less than the registers |
| PmMap.TouchedDigits | include/libpmfuzz.c:121-138 | in any run, each binary digit of an index is that of its element, changed where the next higher digit of the element before is set |
| PmMap.FirstIndex | include/libpmfuzz.c:119-177 | the index that a program's first access touches, if it is a read or a write, in both modes |
| PmMap.FirstIndices | include/libpmfuzz.c:186-199 | the two indices of a first read-write, in both modes |
| PmMap.TouchedInRange | include/libpmfuzz.c:119-199 | every index of any run stays inside a map of 256 bytes or more in path mode, and below `elem_cnt` in a map of 4096 or more in baseline mode |
| PmMap.IndicesInsideIff | include/libpmfuzz.c:119-199 | among powers of two up to 2^31, exactly those sizes are safe |
| PmMap.SmallPathMapOverruns | include/libpmfuzz.c:168-170 | below 256 bytes some single access leaves the map in path mode |
| PmMap.SmallBaselineMapOverruns | include/libpmfuzz.c:135-140 | below 4096 bytes some single access trips the assertion in baseline mode |
| PmMap.ReadsLowWritesHigh | include/libpmfuzz.c:145-199 | in path mode a read touches the lower half of the map and a write the upper, whatever the previous location |
| PmMap.ReadsLowWritesHighInRuns | include/libpmfuzz.c:145-199 | the previous location stays in the lower half through any run, so the same holds at every access |
| PmMap.BaselineWriteInReadHalf | include/libpmfuzz.c:135-140 | in baseline mode, for every map size that is safe there, some write touches register 0 |
| PmMap.HalvesApartIff | include/libpmfuzz.c:145-199 | for every safe map size: in all runs reads touch the first half of the elements and writes the second, exactly in path mode |
| FailurePoints.RunTouches | include/libpmfuzz.c:272-363 | failure points do not touch the map: a run's map is that of its accesses |
| FailurePoints.FailureIds | include/libpmfuzz.c:275-276 | ids count failure points from 0, modulo 2^32 |
| FailurePoints.DumpIdsIncrease | include/libpmfuzz.c:313-363 | dumped failure ids strictly increase, up to 2^32 failure points |
| FailurePoints.SaveImageWindow | include/libpmfuzz.c:320-348 | exactly the failure ids at which an image may be saved for some value of `rand`, by what the environment asks for |
| FailurePoints.SaveImageIff | include/libpmfuzz.c:320-348 | for each value of `rand`: always with IMG_CREAT_FINJ, for multiples of 5 below 100 with GEN_ALL_CS, and else exactly if the id is not 0 and (rand mod 10000 + 1) times the id is at most 10000 |
| FailurePoints.SaveImageOdds | include/libpmfuzz.c:320-333 | of the 10000 values of `rand`, 10000 / id save an image |
| FailurePoints.DumpsAtIff | include/libpmfuzz.c:272-363 | in any run a failure point dumps exactly if there was an init before, FI_MODE is IMG_GEN, the map differs from that at the last dump and the environment allows it; it dumps the map of the accesses so far, under the number of points before it |
| FailurePoints.EveryDump | include/libpmfuzz.c:291-299 | every dump is that of an IMG_GEN point after an init; so a run without one has none |
| FailurePoints.PointsCounted | include/libpmfuzz.c:275-276 | the number of failure points in a run |
| FailurePoints.FirstPointDumps | include/libpmfuzz.c:320-362 | the first failure point dumps exactly when the map has changed and GEN_ALL_CS or IMG_CREAT_FINJ is set |
| FailurePoints.FirstPointWithoutDump | include/libpmfuzz.c:257-258 | a run whose map has changed at the first failure point and that dumps nothing there, whatever `rand` gives |
| FailurePoints.LevelsGrow | include/libpmfuzz.c:119-142 | the map only grows, element by element |
| FailurePoints.RunAccounted | include/libpmfuzz.c:313-363 | in every run each dump is paid for by growth of the map since the one before |
| FailurePoints.DumpsBounded | include/libpmfuzz.c:313-363 | consecutive dumps see different maps, and a run of any length dumps at most 255 times the bytes of the map in path mode, 256 times its registers in baseline mode |
| Runtime.SameBytesIffSameLevels | include/libpmfuzz.c:317-318 | comparing the bytes of two maps is comparing their capped counts |
| Runtime.BytesOfPath | include/libpmfuzz.c:127-129 | what the array holds in path mode: in each byte how often its index was touched, 255 at most |
| Runtime.BytesOfBaseline | include/libpmfuzz.c:135-140 | what the array holds in baseline mode: of a register's 256 bits exactly the one that its count numbers, the last from 256 on |
| Runtime.CountedByte | include/libpmfuzz.c:127-129 | one path-mode touch adds one to one count, capped at 255 |
| Runtime.CountedPush | include/libpmfuzz.c:135-140 | one baseline-mode touch adds one to one count, capped at 256 |
| Runtime.OtherRegisters | include/shiftregarr.h:53-80 | a push leaves every other register as it was |
| Runtime.PmRuntime.UpdateLoc | include/libpmfuzz.c:119-142 | counts the mixed index, stores half of the location for the next call, and changes no other element |
| Runtime.PmRuntime.Ro | include/libpmfuzz.c:151-158 | the step of a read; in path mode the upper half of the map is unchanged |
| Runtime.PmRuntime.Wo | include/libpmfuzz.c:167-177 | the step of a write; in path mode the lower half of the map is unchanged |
| Runtime.PmRuntime.Rw | include/libpmfuzz.c:186-199 | the step of a read-write: two updates in a row |
| Runtime.PmRuntime.MapChanged | include/libpmfuzz.c:317-318 | true exactly when the capped counts differ from those at the last snapshot |
| Runtime.PmRuntime.InjectFailure | include/libpmfuzz.c:272-363 | the step of a failure point: an image is dumped, its id listed and the snapshot renewed exactly if the program was initialized, FI_MODE is IMG_GEN, the map's bytes differ from the snapshot's and the environment allows it; else nothing changes but the id |
| Runtime.PmRuntime.Execute | include/libpmfuzz.c:119-363 | from a zeroed map, after any accesses and failure points, the array shows min(255, count) per byte or the one-hot register of min(256, count), the list holds the ids of the run's dumps, and these keep to the bound |
| Names.AcceptsExactlyPrinted | src/pmfuzz/handlers/name_handler.py:36-43 | the common part of the patterns accepts exactly the printed names |
| SelectIds.AcceptsParts | src/pmfuzz/handlers/name_handler.py:36-43 | told without the printer: the common part of the patterns accepts exactly what splits at commas and dots into parts `id=<digits>` |
| Names.AncestorsAreCommas | src/pmfuzz/handlers/name_handler.py:444-483 | a testcase has as many ancestors as its name has commas |
| Names.PrintInjective | src/pmfuzz/handlers/name_handler.py:36-43 | different names print differently |
| Names.SplitUnique | src/pmfuzz/handlers/name_handler.py:36-43 | a name and an extension can be told apart in one way only |
| FileNames.FileNameInjective | src/pmfuzz/handlers/name_handler.py:565-578 | a file name determines its kind and its testcase: families of different testcases are disjoint |
| FileNames.RecognisedIff | src/pmfuzz/handlers/name_handler.py:36-43 | the recogniser of each kind accepts exactly the printed names of that kind, among names with the literal extension |
| FileNames.NewlineAccepted | src/pmfuzz/handlers/name_handler.py:323-332 | each recogniser also accepts a printed name and a newline |
| FileNames.RecognisedExactly | src/pmfuzz/handlers/name_handler.py:36-43 | for any string: each pattern accepts exactly a printed name, an extension it takes, and perhaps a newline |
| FileNames.DotAccepted | src/pmfuzz/handlers/name_handler.py:41-43 | for both archives and every name: any characters but newlines are accepted for the last two dots, and only dots are the archive's name |
| FileNames.CanonicalOf | src/pmfuzz/handlers/name_handler.py:545-560 | each of the eight files leads back to its testcase |
| FileNames.ReplaceFirst | src/pmfuzz/handlers/name_handler.py:545-560 | replacing works from left to right, occurrence by occurrence |
| FileNames.ReplaceAbsent | src/pmfuzz/handlers/name_handler.py:545-560 | and changes nothing where the pattern does not occur |
| Examples.FamilyOfTen | src/pmfuzz/handlers/name_handler.py:504-521 | the documented example of `get_metadata_files` |
| Examples.Recognised | src/pmfuzz/handlers/name_handler.py:344-353 | documented examples of `is_tc` |
| Examples.NoDelimiter | src/pmfuzz/handlers/name_handler.py:348-349 | the documented example of a name that is refused for a missing delimiter |
| Examples.NumberAlone | src/pmfuzz/handlers/name_handler.py:433-436 | the documented example of a crash site that is refused |
| FileNames.MetadataIsFamily | src/pmfuzz/handlers/name_handler.py:485-586 | from any of the eight files, the same whole family is listed |
| FileNames.NoFamilyWithoutExtension | src/pmfuzz/handlers/name_handler.py:562-563 | a tombstone or a bare name makes `get_metadata_files` abort |
| Lineage.WeaveTokens | src/pmfuzz/handlers/name_handler.py:254-278 | splitting a name at delimiters and joining it again gives the name |
| Lineage.TokensPlain | src/pmfuzz/handlers/name_handler.py:254-278 | no part holds a delimiter, and there is nothing but delimiters between them |
| Lineage.GetTestcaseParent | src/pmfuzz/handlers/name_handler.py:226-281 | for any string: everything before its last delimiter, with the extension put back, or nothing when there is no delimiter |
| Lineage.ParentOfFile | src/pmfuzz/handlers/name_handler.py:200-281 | for all eight files of a testcase: the parent is the same kind of file of its parent, or none for a root, exactly if the file is not the minimised testcase |
| Lineage.ParentOfMinTestcase | src/pmfuzz/handlers/name_handler.py:226-281 | the parent of a minimised testcase comes out as the testcase itself |
| Lineage.ParentOfHash | src/pmfuzz/handlers/name_handler.py:226-281 | the parent of a hash file is the hash file of the parent |
| Examples.ParentOfA | src/pmfuzz/handlers/name_handler.py:235-236 | a documented example of `get_testcase_parent` |
| Examples.ParentOfMapOfA | src/pmfuzz/handlers/name_handler.py:237-238 | another, of a map |
| Examples.ParentOfRoot | src/pmfuzz/handlers/name_handler.py:239-240 | another, of a root |
| Examples.ParentsOfB | src/pmfuzz/handlers/name_handler.py:241-246 | two more, with dots |
| Lineage.GenerationOfFile | src/pmfuzz/handlers/name_handler.py:444-483 | any of the eight files gives the number of ancestors and the iteration |
| Examples.Generations | src/pmfuzz/handlers/name_handler.py:452-467 | the documented examples of `iter_cnt` and `ancestor_cnt` |
| Examples.GenerationsOfB | src/pmfuzz/handlers/name_handler.py:468-469 | another, with dots |
| Lineage.CleanQueueName | src/pmfuzz/handlers/name_handler.py:117-127 | an AFL queue entry `id:<digits>,...` is cleaned to `id=<digits>.testcase` |
| Lineage.UpToIs | src/pmfuzz/handlers/name_handler.py:122-127 | what stands before a character's first occurrence |
| Lineage.FromIs | src/pmfuzz/handlers/name_handler.py:122-127 | what stands after it, and nothing if it does not occur |
| Examples.QueueEntry | src/pmfuzz/handlers/name_handler.py:117-127 | an example |
| Lineage.ChildName | src/pmfuzz/stages/stage2.py:262 | the collected name is that of a child of the fuzzed testcase, one generation on |
| SelectIds.GetLineage | src/pmfuzz/handlers/name_handler.py:83-115 | for any string: the ids read off the bare name, or the failure of the first part that has none |
| SelectIds.LineageOfFile | src/pmfuzz/handlers/name_handler.py:83-115 | any of the eight files gives one number per generation, whatever follows a dot left out |
| SelectIds.TokensOfName | src/pmfuzz/handlers/name_handler.py:103-113 | the ids are those of the comma-separated parts, up to the first dot of each, in order |
| Examples.LineageOfL | src/pmfuzz/handlers/name_handler.py:93-94 | a documented example of `get_lineage` |
| Examples.LineageOfM | src/pmfuzz/handlers/name_handler.py:95-96 | another, with a dot |
| SelectIds.ShouldUseTc | src/pmfuzz/stages/dedup.py:150-170 | for any file of a testcase: whether nothing or all ids of its generations are selected |
| SelectIds.SelectedByGeneration | src/pmfuzz/stages/dedup.py:163-169 | generation by generation: every id that does not follow a dot must be selected |
| SelectIds.ParentSelected | src/pmfuzz/stages/dedup.py:150-170 | the parent of a testcase selected by its ids is selected, too |
| StageDirs.ParseDecimal | src/pmfuzz/handlers/name_handler.py:45-81 | reading a printed number gives it back |
| StageDirs.DecimalShape | src/pmfuzz/handlers/name_handler.py:45-51 | numbers are printed in decimal, without leading zeros |
| Examples.Directory | src/pmfuzz/handlers/name_handler.py:45-51 | an example |
| StageDirs.GetStageInf | src/pmfuzz/handlers/name_handler.py:59-81 | for any string, the stage and iteration its parts give, or a failure |
| StageDirs.StageInfOfAny | src/pmfuzz/handlers/name_handler.py:62-81 | for any string with a part for the stage and one for the iteration: every part must be for one of them and hold a number, and the last of each counts |
| StageDirs.NoStageInf | src/pmfuzz/handlers/name_handler.py:77-78 | without a part for one of them there is no result |
| StageDirs.StageInfOfName | src/pmfuzz/handlers/name_handler.py:45-81 | the name of a stage directory gives its stage and iteration back |
| StageDirs.ReadBack | src/pmfuzz/handlers/name_handler.py:45-81 | `get_outdir_name` aborts exactly below 1, and otherwise gives a name that reads back |
| StageDirs.OutdirNameInjective | src/pmfuzz/handlers/name_handler.py:45-51 | different iterations have different directories |
| PTimers.PTimer.constructor | src/pmfuzz/helper/ptimer.py:33-56 | a timer object starts from the file, if any, and rewrites it |
| PTimers.PTimer.StartNew | src/pmfuzz/helper/ptimer.py:84-100 | the file holds the current time and the length |
| PTimers.PTimer.Expired | src/pmfuzz/helper/ptimer.py:75-82 | true exactly when the clock at that read is more than the length after the start |
| PTimers.Countdown | src/pmfuzz/helper/ptimer.py:33-100 | a countdown started in one session and looked at in a later one runs out once more than its length has passed since it was started, and not before |
| Scheduler.SlotsWithinCores | src/pmfuzz/stages/stage2.py:642-651 | all cores are slots for testcases without failure injection, else half of them, rounded down but at least 1, for each kind; both fit the cores, except for one core with failure injection |
| Scheduler.ActiveIff | src/pmfuzz/stages/stage2.py:553 | the jobs that are counted: at most the timeout has passed since the timer was started |
| Scheduler.Stage2.StartTestcase | src/pmfuzz/stages/stage2.py:679-683 | starts and logs exactly one job with a fresh timer and a pid file; where the start aborts, the timer runs and there is no pid file |
| Scheduler.Stage2.TerminateTestcase | src/pmfuzz/stages/stage2.py:184-310 | a job whose time is up is stopped and collected if it has a pid file; raises exactly on one whose process is gone, and leaves its pid file, or on an aborted collection, whose pid file is gone |
| Scheduler.Stage2.GetRunCount | src/pmfuzz/stages/stage2.py:539-564 | the count bounds the jobs whose time is not up when it ends, all with a pid file; it raises only on such a job without a pid file, whose start aborted, or whose process is gone, and always on the latter if that was so before |
| Scheduler.MidPassBounds | src/pmfuzz/stages/stage2.py:635-685 | at every moment of a pass, jobs whose time is not up are at most the slots, and pid files at most the slots more than before the pass |
| Scheduler.Stage2.Visit | src/pmfuzz/stages/stage2.py:657-685 | what a pass does with one testcase keeps the pass invariant, though timers may expire and processes disappear at any read; where it raises, the bounds still hold and there is a fault to blame |
| Scheduler.Stage2.Pass | src/pmfuzz/stages/stage2.py:635-685 | after any pass that does not raise jobs fit the slots, and they only go from new to started to collected; every job it stopped was started more than the timeout before its end, and every job started more than the timeout before its beginning was stopped. Whether it raises or not, jobs whose time is not up fit the slots and at most as many pid files as slots are new; a pid file whose process was gone before makes it raise, and stays |
| Scheduler.PassedTimes | src/pmfuzz/stages/stage2.py:657-685 | and if a testcase still waits, the jobs that were started and those whose time was not up when it began fill the slots |
| Scheduler.PassProgress | src/pmfuzz/stages/stage2.py:635-685 | with every job's time up, a pass fills all slots or leaves no testcase waiting |
| Scheduler.Stage2.Completed | src/pmfuzz/stages/stage2.py:1001-1030 | true only if every testcase was started and its time is up, and true if that was so before |
| Scheduler.Stage2.KillAll | src/pmfuzz/stages/stage2.py:93-120 | stops exactly jobs started more than the timeout ago, by its end, and all that were by its beginning; on a completed stage no pid file is left and exactly the testcases whose start or collection did not abort were collected, once each; raises there if a process with a pid file was gone before, which keeps it |
| Scheduler.Stage2.RunStage | src/pmfuzz/core/pmfuzz.py:141-173 | a stage over n testcases, with at least one slot and more than the timeout between passes, gets through exactly if no start and no collection aborts and no pid file is left whose process is gone; so always if no process of its testcases was gone before or can disappear. Then it takes at most ceil(n / slots) passes (one if n = 0), each testcase is started and collected exactly once and no pid file is left. In any case never more pid files than twice the slots |
| Scheduler.CalmStage | src/pmfuzz/core/pmfuzz.py:141-173 | where nothing goes wrong, any stage gets through within that bound, with everything started and collected once |
| Scheduler.Stage2.Passes | src/pmfuzz/stages/stage2.py:635-685 | any number of passes, whatever goes wrong in each: jobs whose time is not up fit the slots after each, pid files exceed twice the slots only by as many slots as passes in a row raised before, and a pid file whose process is gone makes every pass raise |
| Scheduler.OverTwiceTheSlots | src/pmfuzz/stages/stage2.py:657-685 | with one slot, two raised passes leave three pid files |
| Scheduler.DeadJobBlocks | src/pmfuzz/stages/stage2.py:204-214 | an instance: once its only job has died, every pass there will ever be raises |
| DedupStage.Dedup.CheckImages | src/pmfuzz/stages/dedup.py:867-897 | passes exactly when every testcase of the stage has its image |
| DedupStage.Dedup.UpdateGlobal | src/pmfuzz/stages/dedup.py:899-973 | copies testcase, maps and image of exactly the testcases neither there nor buried; aborts, before copying, exactly when an image is missing; stopped before any of its copies, it leaves some testcases copied whole and of one more only what comes before its image |
| DedupStage.GlobalStoreGains | src/pmfuzz/stages/dedup.py:918-970 | a testcase neither there nor buried comes with its maps and its image, as they were |
| DedupStage.GlobalStoreKeeps | src/pmfuzz/stages/dedup.py:918-924 | of any other testcase nothing changes |
| CorpusRuns.SomeWithoutImage | src/pmfuzz/stages/dedup.py:880-890 | the abort is on a testcase in the stage without an image |
| DedupStage.Dedup.UpdateLocal | src/pmfuzz/stages/dedup.py:988-1079 | copies exactly the stage's own generation that the local store lacks; stops exactly when an image or an execution map is missing, with nothing but copies made |
| DedupStage.LocalStoreGains | src/pmfuzz/stages/dedup.py:1008-1075 | a testcase of the stage's generation that the local store lacks comes with its image and maps, as they were |
| DedupStage.LocalStoreKeeps | src/pmfuzz/stages/dedup.py:1019-1026 | of any other testcase nothing changes |
| DedupStage.Dedup.DropGlobal | src/pmfuzz/stages/dedup.py:409-430 | of each dropped testcase the archives and a new tombstone stay; nothing else changes |
| DedupStage.GlobalMinimiserLeaves | src/pmfuzz/stages/dedup.py:409-430 | file by file: archives stay as they were, the tombstone is new, other testcases are untouched |
| DedupStage.Dedup.DropLocal | src/pmfuzz/stages/dedup.py:534-571 | empties the stage of the dropped testcases; in the global store four kinds of file go, with a tombstone where one was there |
| DedupStage.LocalMinimiserLeaves | src/pmfuzz/stages/dedup.py:534-571 | file by file, in the global store and in the stage |
| CorpusRuns.StepKeepsInv | src/pmfuzz/stages/dedup.py:409-1079 | every operation keeps the stores' invariant, and so do the next iteration and a fall back to the first |
| CorpusRuns.InvAlways | src/pmfuzz/stages/dedup.py:409-1079 | the invariant holds in every reachable state, with any number of falls back |
| CorpusRuns.AncestorImages | src/pmfuzz/stages/dedup.py:928-970 | in every run a testcase of the global store has the images of all its ancestors there, and its own exactly if PMFuzz was never stopped while it was copied; nothing mends one that was |
| CorpusRuns.ImageAbortsIff | src/pmfuzz/stages/dedup.py:1038-1053 | the aborts on a missing image in `update_local`, and on a missing parent image in collection, are reached exactly on testcases PMFuzz was stopped at, though images may fail to be made; `update_local` can else abort only on a missing execution map |
| CorpusRuns.TornIff | src/pmfuzz/stages/dedup.py:928-970 | the torn testcases of the invariant are those whose copying was stopped at some point of the run |
| CorpusRuns.TornHasNoChildren | src/pmfuzz/stages/stage2.py:256-262 | no child of a testcase that was torn is ever collected |
| CorpusRuns.TornTestcase | src/pmfuzz/stages/dedup.py:928-970 | a run that is stopped right after it copied a testcase, and comes to an iteration with that one in its local store and no image |
| CorpusRuns.UpdateGlobalAbortsIff | src/pmfuzz/stages/dedup.py:867-897 | in every run: the abort of `update_global` on a missing image is reached in stage 1 exactly when some collection left no image, in stage 2 exactly when a child still in the stage was never collected with one |
| CorpusRuns.UpdateGlobalAborts | src/pmfuzz/stages/stage1.py:330-368 | a run that reaches it |
| CorpusRuns.StageOneStuck | src/pmfuzz/stages/stage1.py:372-395 | in stage 1, once reached, it is reached in every continuation |
| CorpusRuns.ParentOfCollected | src/pmfuzz/stages/stage2.py:256-265 | `get_testcase_parent` of any child in the stage is the testcase that produced it, and the local store has that one |
| CorpusRuns.GenerationsMatch | src/pmfuzz/stages/dedup.py:1019-1026 | at iteration k the local store holds names of k ids and collected children are comma-children of those; the global store has nothing beyond one id more than the highest iteration there ever was |
| CorpusRuns.TooDeepIff | src/pmfuzz/core/pmfuzz.py:163-167 | in every run: the global store has a testcase of more than k + 1 ids at iteration k exactly if it was there before the last fall back, and the run has since gone on fewer times than it has ancestors; so never without a fall back |
| CorpusRuns.DeepAtIterationOne | src/pmfuzz/core/pmfuzz.py:163-167 | runs that reach iteration 1 with a testcase of any depth in the global store |
| CorpusRuns.TombstonesPermanent | src/pmfuzz/stages/dedup.py:918-924 | once buried, a testcase and its maps are never back in the global store, however the run goes on or falls back |
| CorpusCoverage.GlobalMinimiserKeepsMaps | src/pmfuzz/stages/dedup.py:328-430 | the global minimiser loses no PM map and leaves none twice |
| CorpusCoverage.GlobalCoverageKept | src/pmfuzz/stages/dedup.py:328-430 | the union of the PM maps is what it was |
| CorpusCoverage.LocalMinimiserKeepsMapsIff | src/pmfuzz/stages/dedup.py:443-571 | with a testcase for each compared map, which is what is dropped: the local minimiser keeps the PM coverage of stage and global store, for every listing order, exactly when each covered map has a holder there that is not compared or is held by all testcases compared under some one map |
| CorpusCoverage.MapsHaveTestcases | src/pmfuzz/stages/dedup.py:443-571 | in every reachable state each compared map has its testcase |
| CorpusCoverage.LocalMinimiserSafeWhileComplete | src/pmfuzz/stages/dedup.py:443-571 | in particular it is kept while no map of the local store is gone from the global one, if the maps of the stage's children agree with their copies there (they can differ, when a child is collected again after a fall back) |
| CorpusCoverage.LocalMinimiserLosesCoverage | src/pmfuzz/stages/dedup.py:443-571 | a run of two local minimisations after which a PM map has no holder left |
| Coverage.UnionIsLeast | src/pmfuzz/core/whatsup.py:44-83 | the union covers every map and is covered by whatever does |
| Coverage.UnionBits | src/pmfuzz/core/whatsup.py:44-83 | bit by bit, the union has what some map has |
| Coverage.PresentIff | src/pmfuzz/core/whatsup.py:72-83 | the maps that are there are all those given |
| Coverage.UnionOfSameMaps | src/pmfuzz/core/whatsup.py:44-70 | the union depends neither on listing order nor on repetition |
| Coverage.GetCumulativeMap | src/pmfuzz/core/whatsup.py:44-70 | the union of the maps of a directory, none for an empty one |
| Coverage.CombineMaps | src/pmfuzz/core/whatsup.py:72-83 | the union of the maps that are there; fails exactly on no map at all, or on a missing first map with a later one there |
| Coverage.CountTuples | src/pmfuzz/core/whatsup.py:85-97 | how many places of the map hold a byte that is not zero |
| Coverage.NonZeroMonotone | src/pmfuzz/core/whatsup.py:85-97 | a map that covers another counts at least as many, and more if it has a nonzero byte where the other has zero |
| Cmin.PmMapNames | src/pmfuzz/tools/pmfuzz-cmin:148-176 | among maps, the names with `pm_map` are those of PM maps, and the two replacements lead to the testcase |
| Cmin.DupsAreTails | src/pmfuzz/tools/pmfuzz-cmin:162-165 | the duplicates are what comes after the first of each group |
| CorpusCoverage.DupsIff | src/pmfuzz/tools/pmfuzz-cmin:148-165 | a PM map is a duplicate exactly if one listed before it has the same content |
| Cmin.Minimize | src/pmfuzz/tools/pmfuzz-cmin:142-190 | copies exactly the testcases whose PM map repeats none listed before it |
| Cmin.KeptAreDistinct | src/pmfuzz/tools/pmfuzz-cmin:162-188 | testcases that are kept have pairwise different PM maps |
| Cmin.DropDuplicatesKeepsContents | src/pmfuzz/tools/pmfuzz-cmin:162-188 | dropping the duplicates loses no PM map |
| Cmin.CopiedCorpus | src/pmfuzz/tools/pmfuzz-cmin:142-190 | with every PM map's testcase in the input: the copies have different PM maps, those without a PM map are all copied, and no PM map is lost |
| DedupEngine.Engine.FillHashMap | src/pmfuzz/core/dedupengine.py:68-76 | each content is filed with the testcases that have it, in listing order; fails exactly on a missing file |
| DedupEngine.Engine.MinIndex | src/pmfuzz/core/dedupengine.py:82-83 | the first testcase of a group with the fewest ancestors |
| DedupEngine.Engine.DeleteTcs | src/pmfuzz/core/dedupengine.py:39-60 | of each deleted testcase only a tombstone stays, and no other testcase loses a file |
| DedupEngine.Engine.Run | src/pmfuzz/core/dedupengine.py:62-87 | exactly the testcases whose map another keeps are deleted; a missing file raises before anything is |
| DedupEngine.SurvivorOf | src/pmfuzz/core/dedupengine.py:80-87 | the kept one of a group has fewer ancestors than every other, or as few and is listed first |
| DedupEngine.OneSurvivorPerMap | src/pmfuzz/core/dedupengine.py:80-87 | that description fits exactly one testcase of each group |
| DedupEngine.FateOfTestcase | src/pmfuzz/core/dedupengine.py:39-87 | a survivor keeps all its files as they were; another testcase of the list has a tombstone and nothing else |
| DedupEngine.OthersUntouched | src/pmfuzz/core/dedupengine.py:39-87 | testcases outside the list keep their files |
| DedupEngine.MapsKept | src/pmfuzz/core/dedupengine.py:62-87 | the same maps occur before and after |
| DedupEngine.UnionKept | src/pmfuzz/core/dedupengine.py:62-87 | the union of the maps and its number of nonzero bytes are unchanged |
| CrashSites.DeduplicateCrashSitesLcl | src/pmfuzz/stages/dedup.py:586-619 | a crash site stays exactly if none listed before it has its hash, and no other file goes; aborts, before removing any, exactly when a hash is missing |
| CrashSites.OnePerHash | src/pmfuzz/stages/dedup.py:586-619 | of the crash sites with one hash exactly one stays |
| ListDeletion.DeleteEntries | src/pmfuzz/helper/parallel.py:73-74 | deleting collected indices from the last down removes exactly those entries |
| ListDeletion.KeptAt | src/pmfuzz/helper/parallel.py:73-74 | each entry that stays comes right after the entries before it that stay |
| ListDeletion.KeptLength | src/pmfuzz/helper/parallel.py:73-74 | as many entries go as indices were collected |
| ListDeletion.LocalDedupListSt2 | src/pmfuzz/stages/dedup.py:722-747 | the entries that are to be used, in order |
| ListDeletion.FilterConcat | src/pmfuzz/stages/dedup.py:734-744 | entry by entry, in order |
| ListDeletion.FilterOne | src/pmfuzz/stages/dedup.py:734-744 | an entry is there exactly if it is to be used |
| Parallel.Pool.Create | src/pmfuzz/helper/parallel.py:33-42 | refuses a core count below 1 |
| Parallel.Pool.AliveCnt | src/pmfuzz/helper/parallel.py:44-76 | leaves exactly the children seen alive, in order, and counts them; a pool that exits on failure aborts only on a child that failed, and always if one had failed before |
| Parallel.Pool.Run | src/pmfuzz/helper/parallel.py:130-142 | starts one child when a place is free, and else waits; at most `cores` children are alive |
| Parallel.Pool.Alive | src/pmfuzz/helper/parallel.py:144-156 | true exactly when some child is alive |
| Parallel.Pool.Wait | src/pmfuzz/helper/parallel.py:158-161 | when it returns every child has exited; in a pool that exits on failure one has failed unnoticed exactly when one still in the list has failed |
| Parallel.UnnoticedFailure | src/pmfuzz/helper/parallel.py:144-161 | a pool that exits on failure, whose only child fails, and whose `wait` returns |
| Parallel.RunJobs | src/pmfuzz/stages/stage2.py:228-281 | over a pool's whole life each job is started once and no more than `cores` children were ever alive |
| StageState.LatestUnique | src/pmfuzz/stages/state.py:45-76 | the last stage and iteration of a directory are unique |
| StageState.State.Sync | src/pmfuzz/stages/state.py:42-76 | in any listing order: a stage directory's stage and iteration such that every other has a lower stage, or the same and no higher iteration, (0, 0) if there is none, and whether the global store was ever seen; fails exactly when an entry cannot be read |
| Driver.LatestOf | src/pmfuzz/stages/state.py:45-76 | what `sync` reports of each layout of the output directory |
| Driver.PmFuzz.RunStage1 | src/pmfuzz/core/pmfuzz.py:106-114 | makes stage 1's directory, and its timer runs from then on; may abort before or after |
| Driver.PmFuzz.CollectStage1 | src/pmfuzz/core/pmfuzz.py:195-230 | makes sure of the global store and changes no stage |
| Driver.PmFuzz.RunStage2 | src/pmfuzz/core/pmfuzz.py:116-173 | goes from stage 1 to (2, 1); from (2, k) to (2, k + 1) exactly if the stage is completed and nothing aborts or stops it before; an abort leaves the iteration as it was, or comes in the first pass of the next one |
| Driver.PmFuzz.Turn | src/pmfuzz/core/pmfuzz.py:287-327 | exactly what one turn of the loop comes to, for all it can meet: stage 2's first directory comes only once stage 1's timer has expired, whether or not its first pass aborts, nothing moves when stage 2 is disabled, and there is at most one stage-2 directory before and after |
| Driver.TurnFollows | src/pmfuzz/core/pmfuzz.py:287-327 | a turn stays or takes the next step on the one path, unless it is stopped in the window after `clear` |
| Driver.PmFuzz.RunPmfuzz | src/pmfuzz/core/pmfuzz.py:259-327 | what a session sees goes through (0,0), (1,1), (2,1), (2,2), ... in order, and passes (2, k) exactly in a turn that finds its stage completed and meets no fault before it moves; the abort for a missing global store is unreachable |
| Driver.IterationsCounted | src/pmfuzz/core/pmfuzz.py:116-173 | in stage 2, the iteration goes up by the number of turns that found their stage completed |
| Driver.NothingSkipped | src/pmfuzz/core/pmfuzz.py:287-327 | whatever lies between two iterations seen was seen in between, all of it after what comes before |
| Driver.Cleared | src/pmfuzz/core/pmfuzz.py:163-167 | between `clear` and the next iteration's directory the layout is that of stage 1 |
| Driver.Sessions | src/pmfuzz/core/pmfuzz.py:259-327 | any number of sessions from an empty directory: in order throughout, except for falls to stage 1 after a stop in that window |

## Left out

- PmMap.IndicesInsideIff: speaks of map sizes that are powers of two up to 2^31, and of runs that stay in one mode; the mode is read from the environment at every call in the source, and other writers of the map are not modelled.
- FailurePoints.DumpIdsIncrease: holds up to 2^32 failure points, since the id then wraps around.
- Runtime.PmRuntime.InjectFailure: IMG_REP mode, writing the failure list and dumping the image in a child process (include/libpmfuzz.c:300-312, 369-430) are not modelled; `rand` is a parameter.
- FileNames.RecognisedIff: the name without extension and the tombstone have no pattern.
- FileNames.RecognisedExactly: `\d` also matches other Unicode digits in the source; the model has ASCII digits only.
- FileNames.MetadataIsFamily: on base names; the directory in front of a name is carried along unchanged.
- StageDirs.ParseDecimal: `int` also reads signs, spaces and underscores, which no stage directory has.
- Scheduler.Stage2.GetRunCount: the first of the two counts of a pass, which is only printed, is not modelled; it creates no timer file the second would not.
- Scheduler.Stage2.StartTestcase: a process whose pid file could not be written may run on; it is no job of the model.
- Scheduler.Stage2.TerminateTestcase: an aborted collection is one outcome after the pid file is removed; a process id is never used again by another process, so what is gone stays gone.
- Scheduler.Stage2.RunStage: a session that raises ends the run there, `Scheduler.Stage2.Passes` goes on; the listing of the local store is that of the stage, fixed while it runs. Without `select_ids`, which `resume` honours and `completed` does not, and without crash-site jobs, which neither `completed` nor `kill_all` looks at; for those only the slots are stated.
- DedupEngine.Engine.Run: on map files of one kind and one directory; `_deduplicate_gbl` hands it testcase paths filtered by map names, an empty list.
- ShiftRegister.SraPushBack: where the scan index starts outside the register, reading there is undefined and the model stops; the row says when.
- DedupStage.Dedup.UpdateGlobal: does not copy crash sites (src/pmfuzz/stages/dedup.py:975-986), since failure injection is off.
- DedupStage.Dedup.UpdateLocal: does not copy crash sites (src/pmfuzz/stages/dedup.py:1081-1094), since failure injection is off.
- DedupStage.Dedup.DropGlobal: the time written into a tombstone is one value per call.
- CorpusCoverage.GlobalMinimiserKeepsMaps: about PM maps; `pmfuzz-cmin` groups by PM map only, so execution maps may be lost.
- Parallel.Pool.Wait: its busy wait is bounded by a number of polls, as that of Parallel.Pool.Run.
- Parallel.Pool.Run: the busy waits are bounded by a number of polls, after which the call counts as still waiting.
- Driver.PmFuzz.RunPmfuzz: for any finite number of turns of the endless loop; whether a stage is complete and whether a step aborts are given from outside, and completion is the subject of `Scheduler`.
- Crash sites and failure injection in the corpus model: `Corpus` has failure injection off.
- Collecting again what local minimisation dropped from the stage (src/pmfuzz/stages/stage2.py:944-961): in `Corpus` this is one more collection of the same child.
- Going through the AFL queue of a stopped job and starting the collection of each entry (src/pmfuzz/stages/stage2.py:247-282): in `Corpus` each entry is one collection step.
- Testcase minimisation, which aborts when asked for globally or locally.
- A stop of PMFuzz in the middle of copying or writing one file, and in the middle of what a minimiser drops (src/pmfuzz/stages/dedup.py:409-430, 534-571), where files can be gone from the stage only, or from the global store with no tombstone there yet.
- Times are whole ticks, and the clock is positive.
- Launching AFL and the target, tar, shell commands, images' contents, temporary directories, the hash database's file, plots, statistics, configuration, arguments and signals.
- The LLVM annotation pass.
