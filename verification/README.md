# Open Network Linux: a verified model of its drivers and tools

This project models seven parts of the Open Network Linux repository and proves what they promise over all
inputs and whole runs. Code that changes state is modelled by classes and methods with loops; each is proved against
functions on values, and the properties are proved about those functions and as invariants of every step. A bus, a
device or the kernel is a class whose operations may fail or come back short at will.

- **The paged transceiver driver (optoe).** `OptoeMap` is the module's memory, page register included, and the
  linear space of section 7.6 of SFF-8436 and of the two-address SFF-8472 layout. `OptoeDriver` has the transfer
  routines with their retries, the select/transfer/restore of one chunk, the legality check and the chunk loop, and
  shows that any run of reads and writes behaves as a plain array. The bus keeps a log, and the driver's contracts
  say which operations it made and which of them failed.
- **The package manager (onlpm).** `PackageGraph`, `PackageRecursion` and `PackageManager` treat the mutual recursion
  of `require` and `build`: exactly when it ends, closure, build order and at-most-once building.
  `PackageRepository` is the repository with its extract cache, `PackageDefaults` the walk for default keys, on path
  strings.
- **The Netberg hardware monitor.** `FanControl` is the fan loop over whole runs, `PortPolling` the port polling
  state machine with its multiplexers, `PsuCurrent` the decoder of the output current.
- **The sliced EEPROM cache (eeprom_mb).** `EepromCache`.
- **The AS4610 LED driver.** `As4610Leds`, and `As4610Probe` for the registration with rollback.
- **Key paths (sjson).** `KeyPath` on trees, `KeyPathHeap` on dictionaries held by reference.
- **The DPS850 power supply.** `Linear11` is the arithmetic of its decoder, against real numbers; `Dps850` the
  retries and the refresh of its copy of the registers.

`Basics`, `Bits` and `Modular` hold shared vocabulary, C's bit operations on unsigned numbers, and the wrapping clock.

## Where the code differs from what it promises

Each of these is a lemma or a method contract, with the exact condition.

- optoe writes user data to the page-select byte like any other byte: a nonzero value there sends the following
  bytes to another page (`WriteIsPlainUpdateIffSafe`, `UnsafeWriteHitsAnotherPage`). Page 0 is never selected, so
  its accesses rest on the register being 0 (`LivePageDecidesReads`).
- The extract cache is kept right by time stamps alone, since adding a package clears a directory that extracting
  never uses (`ClearingIsIdle`, `UpdateIsSeenIffTimesDiffer`).
- The walk for default keys does not end for a relative path or one that starts with two slashes
  (`WalkEndsIffSingleRooted`), and never looks into the root directory itself.
- Where every package ahead is declared and builds, a call of `require` that builds or visits prerequisites ends if
  and only if no package ahead leads back to itself (`RequireEndsIffAcyclic`, `MutualNeedNeverEnds`); elsewhere an
  error may come before the cycle (`CycleBehindAnErrorEnds`).
- Sesto's back-to-front table lets the duty fall below that of its rising table (`FloorKeptIffFallingCovers`,
  `TablesThatKeepTheFloor`); after
  a fall, a rise of one degree lowers the duty in two bands of temperatures (`SlightRiseUndoesHysteresis`,
  `HuracanRiseLowersDuty`); a negative temperature is stored 128 degrees too high and so orders a shutdown
  (`RemoteTempMagnitude`, `ColdSensorTick`).
- A port's image counts as valid when block reads come back short, and then shows zeros for what is missing
  (`ReceivedIsImageIff`, `ShortBlockShowsZeros`). A user's transmit-disable request is dropped when all three attempts
  to write it fail (`PollPort`).
- A write to the cached EEPROM reports its full length although a failure made it store less (`Cache.Write`),
  and outside half of the clock's range a stale byte is returned after a write (`WriteThenRead`).
- An LED set while no read of the registers has succeeded yet works on an all-zero cache and can put out other LEDs
  (`SetSparesOthersIffCacheAgrees`, `FirstSetPutsOutAnother`).
- `setkeypath` compares keys by name, not by position: a path whose last key occurs earlier is cut short
  (`GetAfterSetIff`, `CutShort`).
- The two decoders of one format disagree on every negative mantissa (`DecodersAgreeIff`), and readings of exponent
  12 and above can overflow (`LinearIsExactIff`, `LinearOverflows`).

## Model

| member | source | states |
|---|---|---|
| OptoeMap.LocateIsNormal | packages/base/any/kernels/modules/optoe.c:276-306 | every in-range linear offset is translated to a location in normal form whose linear offset, given by an explicit inverse, is that offset again |
| OptoeMap.TranslationBijection | packages/base/any/kernels/modules/optoe.c:276-306 | every location in normal form (any page 0 to 255, so pages fit in 8 bits) has an in-range linear offset that is translated back to it |
| OptoeMap.LocateInBlock | packages/base/any/kernels/modules/optoe.c:297-305 | within one 128-byte block address and page stay and only the physical offset advances |
| OptoeMap.PeekMeaning | packages/base/any/kernels/modules/optoe.c:518-548 | what one access sees is the flat array, except that page 0, never selected, is whatever page is live |
| OptoeMap.PeekRangeIsFlatSlice | packages/base/any/kernels/modules/optoe.c:518-548 | with the page register at 0, any run of accesses is a slice of the flat array |
| OptoeMap.LivePageDecidesReads | packages/base/any/kernels/modules/optoe.c:518-548 | every access sees the flat array if and only if the live page holds what page 0 holds: the hidden reason for restoring the register |
| OptoeMap.PokeUpdatesFlat | packages/base/any/kernels/modules/optoe.c:518-567 | with the register at 0, one written byte changes exactly that byte of the flat array and the register stays 0, the select byte apart |
| OptoeMap.PokeAllUpdatesFlat | packages/base/any/kernels/modules/optoe.c:518-567 | a write that puts nothing but 0 on the select byte is a plain update of the flat array on exactly its range and leaves the register 0 |
| OptoeMap.WriteIsPlainUpdateIffSafe | packages/base/any/kernels/modules/optoe.c:518-567 | a write is such a plain update that leaves the register 0 if and only if it does not put a nonzero value on the select byte |
| OptoeMap.UnsafeWriteHitsAnotherPage | packages/base/any/kernels/modules/optoe.c:518-567 | a concrete write across the select byte whose next byte lands in page 1 instead of page 0 |
| OptoeMap.PokeAllAppend | packages/base/any/kernels/modules/optoe.c:404-505 | two adjacent writes leave the very memory that one write of both pieces leaves, whatever the register holds |
| OptoeMap.ChunkReads | packages/base/any/kernels/modules/optoe.c:533-552 | reading a whole block with its page selected once gives what selecting for each byte would give |
| OptoeMap.ChunkWrites | packages/base/any/kernels/modules/optoe.c:522-567 | selecting once, storing a chunk and restoring leaves the image that selecting, storing and restoring for each byte would leave, the register included |
| OptoeMap.PeekIgnoresRegisterOnPages | packages/base/any/kernels/modules/optoe.c:522-530 | a register left wrong by a failed restore does not change what an access to a page above 0 sees |
| OptoeMap.PokeIgnoresRegisterOnPages | packages/base/any/kernels/modules/optoe.c:522-567 | nor what a write to a page above 0 leaves, and that write puts the register back to 0 |
| OptoeMap.CapacityByBytes | packages/base/any/kernels/modules/optoe.c:583-673 | the size a module supports, by the values of its stored bytes: bit 2 of byte 2 (QSFP), bit 7 of byte 2 (CMIS), bit 4 of byte 64 and bit 6 of byte 92 (SFP) decide between 256, 512 and all pages |
| OptoeDriver.Optoe.TranslateOffset | packages/base/any/kernels/modules/optoe.c:276-306 | the in-place adjustments of the offset compute the location of the linear map |
| OptoeDriver.Optoe.EepromRead | packages/base/any/kernels/modules/optoe.c:308-402 | one unit of literal size is asked for until it comes whole, fails for good or the attempts run out; the result is negative or the whole unit with the registers' contents; the buffer outside the request is untouched |
| OptoeDriver.Optoe.EepromWrite | packages/base/any/kernels/modules/optoe.c:404-505 | one unit (write_max, 128-byte boundary, SMBus size) is sent until it succeeds, fails for good or the attempts run out; the result is negative and nothing changed, or exactly that unit has been stored |
| OptoeDriver.Optoe.TransferChunk | packages/base/any/kernels/modules/optoe.c:533-552 | the transfer loop moves a prefix of the chunk, counted by a positive result, and stops at the first failure; a negative result means nothing moved |
| OptoeDriver.Optoe.Select | packages/base/any/kernels/modules/optoe.c:518-531 | writing the page register succeeds and changes just it, or was tried until the attempts ran out or it failed for good, and changes nothing |
| OptoeDriver.Optoe.UpdateClient | packages/base/any/kernels/modules/optoe.c:508-569 | one chunk reaches exactly its linear range by the bytes it counts; a page-0 chunk leaves the exact expected image; after a paged chunk the register is 0, unless the restore failed or the page was never selected; the chunk is complete if and only if no transfer failed, and otherwise the result is the bytes moved or the first error |
| OptoeDriver.Optoe.PageLegal | packages/base/any/kernels/modules/optoe.c:583-673 | for every offset and length the result is the length cut at the supported size, -EINVAL below 0, or the error of a failed probe; requests inside the first 256 bytes or past the end are decided without a probe |
| OptoeDriver.ChunkBounds | packages/base/any/kernels/modules/optoe.c:733-748 | the chunk arithmetic continues where the last piece ended, stays inside one 128-byte block, and stops short of the block's end only at the end of the request |
| OptoeDriver.Optoe.ChunkLoop | packages/base/any/kernels/modules/optoe.c:717-775 | the chunks tile the request: a positive result counts the leading bytes moved and no other byte was, all of them if and only if no transfer failed; otherwise the first error decides; the register is 0 or as those bytes left it unless a restore failed |
| OptoeDriver.Optoe.ReadWrite | packages/base/any/kernels/modules/optoe.c:675-779 | the whole access for every offset and length, both directions, all transfer sizes and all failures: clamp, moved prefix, first error, final image and final register; nothing changes past the end of the device |
| OptoeDriver.Optoe.BinRead | packages/base/any/kernels/modules/optoe.c:781-790 | with the register at 0 a positive result k means the first k bytes of the buffer equal the flat array at the offset and the module is unchanged; without faults k is the clamped length |
| OptoeDriver.Optoe.BinWrite | packages/base/any/kernels/modules/optoe.c:793-802 | with the register at 0 and a safe request the flat array changes on exactly the bytes the result counts, and the register ends at 0 |
| OptoeDriver.Optoe.Serve | packages/base/any/kernels/modules/optoe.c:675-802 | one request of either kind has the answer and the effect that a plain array would give |
| OptoeDriver.Optoe.Session | packages/base/any/kernels/modules/optoe.c:675-802 | over any run of reads and safe writes with any failures, unless a restore fails, every answer is the one a plain array gives after the writes so far, the final memory is that array, and the register ends at 0 |
| OptoeDriver.WriteReadRoundTrip | packages/base/any/kernels/modules/optoe.c:675-779 | a complete write that avoids the capability bytes, read back, gives the bytes written, clamped alike |
| OptoeDriver.SplitWriteIsOneWrite | packages/base/any/kernels/modules/optoe.c:675-779 | a write split in two adjacent ones leaves the same array and counts the same bytes, wherever the device ends |
| PackageRepository.Repository.AddPackages | tools/onlpm.py:739-767 | every file replaces the one with its name and architecture, and the directory cleared is the one named by architecture and name |
| PackageRepository.AddAllKeepsLast | tools/onlpm.py:739-767 | of several files with one name and architecture the last one is in the repository afterwards |
| PackageRepository.AddAllKeepsOthers | tools/onlpm.py:739-767 | packages that are not among the added files stay as they were |
| PackageRepository.Repository.RemovePackages | tools/onlpm.py:769-774 | exactly the named packages leave the repository and the extract cache is untouched |
| PackageRepository.Repository.ExtractPackage | tools/onlpm.py:804-851 | a directory is kept only when, unforced, its time stamp equals the file's; else its contents are the file's and its stamp the file's time; no other directory and no package changes |
| PackageRepository.ExtractDirInjective | tools/onlpm.py:820-823 | different package identifiers never share an extract directory |
| PackageRepository.ClearedMeaning | tools/onlpm.py:762-767 | an add clears exactly the directories named by the architecture and name of an added file |
| PackageRepository.NoStampMeansAnew | tools/onlpm.py:825-836 | a directory without a time stamp is extracted anew by the next unforced extract, which stamps it |
| PackageRepository.ClearingIsIdle | tools/onlpm.py:762-767 | the directory that an add clears is never one that extract made: the clearing has no effect |
| PackageRepository.RunTraceable | tools/onlpm.py:739-851 | after any run of adds, removals and extracts every stamped directory holds some added version of its package with that version's time |
| PackageRepository.ExtractYieldsCurrentContents | tools/onlpm.py:804-851 | over every run in which two versions with one time have one content, an extract leaves exactly the current contents of the package in the directory |
| PackageRepository.UpdateIsSeenIffTimesDiffer | tools/onlpm.py:825-836 | after replacing an extracted package, an unforced extract shows the new contents if and only if the times differ or the contents are the same |
| PackageGraph.ReachShrinks | tools/onlpm.py:1105-1129 | along a prerequisite edge of an acyclic graph the set of packages ahead becomes strictly smaller: the measure of the mutual recursion |
| PackageGraph.MeasureExistsIffAcyclic | tools/onlpm.py:1046-1129 | of the graph: a number for each package that falls along every prerequisite exists if and only if no package ahead leads back to itself |
| PackageGraph.ReachSplits | tools/onlpm.py:1080-1083 | every transitive prerequisite lies at or behind a direct one |
| PackageGraph.OwnGroupIsNotBehind | tools/onlpm.py:1046-1095 | with disjoint groups, no package behind a package's prerequisites belongs to the package's own group |
| PackageGraph.NeededBuildsAreDistinct | tools/onlpm.py:1046-1095 | with disjoint groups, builds each made for a package not there yet never repeat a group |
| PackageGraph.OwnBuildIsNew | tools/onlpm.py:1085-1090 | the group's own build comes after, and repeats none of, the builds of what it needs |
| PackageGraph.GrewAppend | tools/onlpm.py:1080-1092 | two consecutive series of builds, each made only when its prerequisites were there, make one such series |
| PackageGraph.StoredAppend | tools/onlpm.py:1085-1095 | the repository left by two series of builds is that of the products added by the one and then the other |
| PackageRecursion.RequireEndsIffAcyclic | tools/onlpm.py:1046-1129 | where every package ahead is declared and every build yields it, the nesting of a call's recursion is bounded if and only if no package ahead leads back to itself, or the call has nothing to build or visit |
| PackageRecursion.RequireEndsWhenAcyclic | tools/onlpm.py:1046-1129 | without a cycle ahead every call ends, whatever is missing or fails |
| PackageRecursion.RequireSucceeds | tools/onlpm.py:1105-1129 | where every package ahead is declared and every build yields it, a call that recurses and ends has succeeded and removed nothing |
| PackageRecursion.RequireNeverEnds | tools/onlpm.py:1080-1083 | there, with a cycle ahead, no depth of nesting is enough for a call that recurses |
| PackageRecursion.MutualNeedNeverEnds | tools/onlpm.py:1080-1083 | two packages whose groups need each other: requiring one, building what is missing, never ends |
| PackageRecursion.CycleBehindAnErrorEnds | tools/onlpm.py:1080-1083 | a package that needs itself after a missing one: the call ends with the missing package's error, so without completeness a cycle ahead decides nothing |
| PackageManager.PackageManager.Require | tools/onlpm.py:1105-1129 | ends on every acyclic graph and computes the recursion of PackageRecursion; an unknown package is skipped or raises; success leaves the package and all its transitive prerequisites in the repository; the repository's contents are the products of the groups built, in order; with force, or if the package is not there, success means every group with it was built; every group is built only when its prerequisites are there and at most once; every error names its true cause; a complete graph never fails; a satisfied package builds nothing |
| PackageManager.PackageManager.Build | tools/onlpm.py:1046-1095 | for a named package builds every group with it after its submodules and prerequisites, or only requires the prerequisites; the contents are the products of the groups built, in order; missing only if no group has the package; same ordering, closure and at-most-once guarantees |
| PackageManager.PackageManager.BuildAll | tools/onlpm.py:1046-1095 | with no package named every group not filtered out is built, each build only when its prerequisites are there, and ends with its products and all its prerequisites' needs in the repository; nothing selected raises |
| PackageManager.PackageManager.RequireAll | tools/onlpm.py:1080-1083 | requiring the packages of a list closes all of them, in order, and cannot fail on complete ones |
| PackageManager.PackageManager.BuildOne | tools/onlpm.py:1051-1092 | one group: submodules had, prerequisites closed, then its products added, whether or not they were there before, with the group's own build distinct from all before |
| PackageManager.PackageManager.RequirePrerequisites | tools/onlpm.py:1080-1083 | after success everything at or behind each prerequisite is in the repository, and nothing outside the package's reach was built |
| PackageManager.PackageManager.BuildGroup | tools/onlpm.py:1085-1090 | a failed build step changes nothing, a successful one leaves the repository with the group's files added, old ones replaced |
| PackageManager.PackageManager.RequireAgain | tools/onlpm.py:1105-1129 | after a successful require, forced or not and on any acyclic graph, a second unforced one builds nothing |
| PackageDefaults.DirNameClimbs | tools/onlpm.py:161-171 | on an absolute path with a single leading slash every step up is shorter and stays such a path |
| PackageDefaults.DirNameDropsOne | tools/onlpm.py:161-171 | a step up drops exactly the last name |
| PackageDefaults.ClimbDropsNames | tools/onlpm.py:161-171 | from a path of n names the walk is at its first n - k names after k steps |
| PackageDefaults.CollectedAlongPath | tools/onlpm.py:161-171 | every directory of a path is searched exactly once, the deepest first, and no other directory is |
| PackageDefaults.WalkEndsIffSingleRooted | tools/onlpm.py:161-171 | the walk up reaches the root directory if and only if the path starts with exactly one slash; relative and double-slash paths never do |
| PackageDefaults.PackageDefaultsGet | tools/onlpm.py:147-181 | the walk, the collection and the reversed application compute the built-in defaults with the collected files layered over them, nearest on top |
| PackageDefaults.SearchDirectory | tools/onlpm.py:164-170 | the candidates of one directory are found in their order |
| PackageDefaults.ApplyReversed | tools/onlpm.py:173-175 | applying the results in reverse, empty ones skipped, layers the first over the last |
| PackageDefaults.DefaultsComeFromNearest | tools/onlpm.py:147-181 | each default key has its value from the nearest directory below the root that defines it, else the built-in value |
| PackageDefaults.FourFiles | tools/onlpm.py:164-170 | within one directory PKG_DEFAULTS.yml wins over PKG_DEFAULTS, and each over its dotted form |
| PackageDefaults.KeyPrecedence | tools/onlpm.py:217 | every final key is the package's, else the common one, else the nearest default, else the built-in one |
| FanControl.FanController.Tick | packages/platforms/netberg/x86-64/modules/builds/hardware_monitor.c:868-954 | one tick by its fields: the delay counts down and nothing else; a fault commands the highest duty; a rise and a fall command the duty of the level by the rising and the falling thresholds; the same temperature commands nothing; the shutdown is ordered exactly above the last rising threshold on a rise |
| FanControl.DutyCoversLastTemp | packages/platforms/netberg/x86-64/modules/builds/hardware_monitor.c:868-951 | in every run the live duty is at least the rising duty of the remembered temperature below shutdown, for every table of positive duties whose falling duty is at least the rising one at every temperature |
| FanControl.FloorKeptIffFallingCovers | packages/platforms/netberg/x86-64/modules/builds/hardware_monitor.c:868-951 | for every table of positive duties, the floor holds after every control tick of every run if and only if the falling duty is at least the rising one at every temperature below shutdown |
| FanControl.FloorKeptWhenThresholdsApart | packages/platforms/netberg/x86-64/modules/builds/hardware_monitor.c:868-951 | with nondecreasing duties it is enough that the first two falling thresholds lie strictly below the rising ones |
| FanControl.FloorKeptIffThresholdsApart | packages/platforms/netberg/x86-64/modules/builds/hardware_monitor.c:868-951 | for duties and rising thresholds that strictly increase, this is also necessary |
| FanControl.TablesThatKeepTheFloor | packages/platforms/netberg/x86-64/modules/builds/hardware_monitor.c:467-555 | seven of the eight tables keep the floor and Sesto back to front does not |
| FanControl.FanErrorMeansFullDuty | packages/platforms/netberg/x86-64/modules/builds/hardware_monitor.c:884-888 | a control tick with a fan fault leaves the highest duty, in every run |
| FanControl.HoldingKeepsDuty | packages/platforms/netberg/x86-64/modules/builds/hardware_monitor.c:891-928 | in every run holding a temperature keeps the duty of the tick that reached it, for as long as it is held |
| FanControl.DutyDependsOnTheWay | packages/platforms/netberg/x86-64/modules/builds/hardware_monitor.c:467-477 | on Huracan, front to back, 74 degrees reached by a rise keep 0x6C and reached by a fall keep 0x9E |
| FanControl.SlightRiseUndoesHysteresis | packages/platforms/netberg/x86-64/modules/builds/hardware_monitor.c:892-926 | after a fall to a temperature a rise of one degree lowers the duty if and only if the temperature lies in one of the two bands between a falling threshold and the rising one above it |
| FanControl.HuracanRiseLowersDuty | packages/platforms/netberg/x86-64/modules/builds/hardware_monitor.c:467-477 | on Huracan, front to back, a fall to 74 degrees commands 0x9E and the rise to 75 commands 0x6C |
| FanControl.RemoteTempMagnitude | packages/platforms/netberg/x86-64/modules/builds/hardware_monitor.c:850-865 | the stored integer part is the magnitude of a reading that is not negative, and 128 more than the magnitude of one that is |
| FanControl.MaxTemp | packages/platforms/netberg/x86-64/modules/builds/hardware_monitor.c:870-879 | the temperature acted on is the largest of the MAC's and the sensors' |
| FanControl.ColdSensorTick | packages/platforms/netberg/x86-64/modules/builds/hardware_monitor.c:850-909 | one sensor below zero makes the next control tick order a shutdown, on every table |
| PortPolling.Poller.SetValid | packages/platforms/netberg/x86-64/modules/builds/hardware_monitor.c:107-109 | setting or clearing one port's bit in the two validity words changes that port's bit only |
| PortPolling.Poller.BlockRead | packages/platforms/netberg/x86-64/modules/builds/hardware_monitor.c:680-694 | eight block reads give the selected module's image with each block's unread rest as zeros, or stop at the first negative status; the operations on the bus are exactly these |
| PortPolling.ReceivedIsImageIff | packages/platforms/netberg/x86-64/modules/builds/hardware_monitor.c:685-692 | what eight reads give is the module's image if and only if every byte past a short count is zero |
| PortPolling.CompleteForAllIffWhole | packages/platforms/netberg/x86-64/modules/builds/hardware_monitor.c:685-692 | it is the image, whatever the module holds, if and only if all eight counts were 32 |
| PortPolling.ShortBlockShowsZeros | packages/platforms/netberg/x86-64/modules/builds/hardware_monitor.c:685-692 | a module of ones whose last block comes back empty is copied with zeros at its end, and no status is negative |
| PortPolling.Poller.WriteTxDisable | packages/platforms/netberg/x86-64/modules/builds/hardware_monitor.c:711-734 | the byte is written by the first of three attempts that succeeds, and is not written if and only if all three fail; no attempt follows a success |
| PortPolling.Poller.SelectionIsExact | packages/platforms/netberg/x86-64/modules/builds/hardware_monitor.c:1133-1142 | with the root channel and one bit of the group's multiplexer set, exactly the port's module answers |
| PortPolling.Poller.UpdateTx | packages/platforms/netberg/x86-64/modules/builds/hardware_monitor.c:1145-1149 | a pending byte is no longer pending afterwards, and has reached the module if and only if not all three attempts failed; nothing is sent if none is pending |
| PortPolling.Poller.FetchImage | packages/platforms/netberg/x86-64/modules/builds/hardware_monitor.c:1150-1155 | if all eight reads had a status of 0 or more, image and valid bit are set from them, short or not; otherwise the image, the valid bit and the poll on record stay as they were |
| PortPolling.Poller.PollPort | packages/platforms/netberg/x86-64/modules/builds/hardware_monitor.c:1140-1158 | a present port, for every pattern of failures: the operations on the bus in order, the multiplexer always released; an unselected port is unchanged; a selected one has no byte pending, its byte lost if and only if all three attempts failed, and a new image if and only if all eight reads succeeded; no other port is touched |
| PortPolling.Poller.ClearPort | packages/platforms/netberg/x86-64/modules/builds/hardware_monitor.c:1159-1164 | an absent port becomes all zeros and not valid, with its byte pending again |
| PortPolling.Poller.ServeGroup | packages/platforms/netberg/x86-64/modules/builds/hardware_monitor.c:1138-1175 | eight ports of a group in order, each polled or cleared by its own presence, each with its outcome under whatever failed |
| PortPolling.Poller.GroupStep | packages/platforms/netberg/x86-64/modules/builds/hardware_monitor.c:1130-1178 | the channel is selected if and only if a port of the group is present; a step serves its whole group or, after a failed selection, nothing; each port has the outcome of its own visit; no port outside the group changes |
| PortPolling.Poller.SampleAbsence | packages/platforms/netberg/x86-64/modules/builds/hardware_monitor.c:1117-1128 | the absence words are replaced together by what the two reads gave, or not at all if the selection failed |
| PortPolling.Poller.Turn | packages/platforms/netberg/x86-64/modules/builds/hardware_monitor.c:1106-1428 | one turn of the state machine, for every pattern of failures: its operations on the bus, the outcome of each port of its group, the next step, which comes exactly when the step's selection (and LED write) succeeded; kept throughout: a clear valid bit means zeros, a set one what eight block reads gave of an image the port's module really held |
| PortPolling.Poller.FullCycle | packages/platforms/netberg/x86-64/modules/builds/hardware_monitor.c:1115-1425 | a cycle without faults serves each of the 32 ports exactly once, in order, on the absence lines sampled at its start, and ends with each port's attribute showing its presence |
| PortPolling.Poller.Thread | packages/platforms/netberg/x86-64/modules/builds/hardware_monitor.c:1094-1428 | over any run, modules coming and going and operations failing or coming back short at will, the ports served are complete rounds in order plus the current round's prefix; what is shown as present is what block reads gave of an image the module held, and that image itself if all eight counts were 32 |
| EepromCache.InRangeIsHalfRange | packages/platforms/ingrasys/x86-64/modules/builds/eeprom_mb.c:59-60 | a zeroed timestamp counts as expired exactly in the half-range of jiffies that starts 300 seconds after 0 |
| EepromCache.ExpiredMeaning | packages/platforms/ingrasys/x86-64/modules/builds/eeprom_mb.c:59-60 | a slice counts as expired when more than 300 seconds passed, while the wrapping clock can tell |
| EepromCache.PlainArray | packages/platforms/ingrasys/x86-64/modules/builds/eeprom_mb.c:96-174 | the plain array that runs are compared with: a read gives all the bytes asked for up to the end, a write replaces all of them and no other |
| EepromCache.Cache.UpdateClient | packages/platforms/ingrasys/x86-64/modules/builds/eeprom_mb.c:50-94 | a valid unexpired slice costs no bus operation and changes nothing; otherwise the address is set and bytes are read in order up to the first failure, what was read stays, and timestamp and valid bit are set only if all 64 came; other slices keep data, bit and time |
| EepromCache.Cache.Read | packages/platforms/ingrasys/x86-64/modules/builds/eeprom_mb.c:96-122 | returns the length cut only at byte 512, and the cache's bytes after every due slice of the request, and no other, was asked for; these are the device's bytes when nothing fails and the clock is in range, although valid bits are never cleared |
| EepromCache.Cache.Write | packages/platforms/ingrasys/x86-64/modules/builds/eeprom_mb.c:124-174 | the length is cut only at byte 512; the device takes a prefix of those bytes, all of them if and only if nothing failed, and no write follows a failed one; all timestamps become zero; the result is the full length in either case |
| EepromCache.Cache.StoreBytes | packages/platforms/ingrasys/x86-64/modules/builds/eeprom_mb.c:149-165 | bytes are stored in order at their addresses up to the first failure, all of them if and only if none failed |
| EepromCache.Cache.ForceRefresh | packages/platforms/ingrasys/x86-64/modules/builds/eeprom_mb.c:169-171 | every slice's timestamp becomes zero |
| EepromCache.Cache.Serve | packages/platforms/ingrasys/x86-64/modules/builds/eeprom_mb.c:96-174 | one request answers and changes the device as a plain array would, and the invariant (a valid slice equals the device or its timestamp is zero) is kept whatever fails |
| EepromCache.Cache.Session | packages/platforms/ingrasys/x86-64/modules/builds/eeprom_mb.c:96-174 | every sequential run of reads and writes without faults and with the clock in range returns what a plain 512-byte array returns |
| EepromCache.Cache.WriteThenRead | packages/platforms/ingrasys/x86-64/modules/builds/eeprom_mb.c:124-174 | a byte just written is what the next read returns if and only if the clock is in range or the cache held that value already |
| As4610Leds.GetAfterSet | packages/platforms/accton/armxx/arm-accton-as4610/modules/accton_as4610_leds.c:200-478 | after an accepted set the LED's get returns the mode, for every LED and every register contents |
| As4610Leds.GetLayout | packages/platforms/accton/armxx/arm-accton-as4610/modules/accton_as4610_leds.c:54-86 | which bits each get looks at and what they mean, in plain numbers |
| As4610Leds.SetLayout | packages/platforms/accton/armxx/arm-accton-as4610/modules/accton_as4610_leds.c:283-398 | of a lamp's two bits a set makes green the high one and amber the low one, and the blink bit is set exactly for the blinking modes |
| As4610Leds.AcceptedModes | packages/platforms/accton/armxx/arm-accton-as4610/modules/accton_as4610_leds.c:480-572 | which modes each kind of LED accepts |
| As4610Leds.GetAfterOtherSet | packages/platforms/accton/armxx/arm-accton-as4610/modules/accton_as4610_leds.c:200-478 | a set leaves every other LED's get unchanged, POE and ALARM apart, which are one lamp |
| As4610Leds.EncodeKeepsOtherBits | packages/platforms/accton/armxx/arm-accton-as4610/modules/accton_as4610_leds.c:206-473 | a set changes no bit outside those that belong to its LED |
| As4610Leds.OwnBitsAreDisjoint | packages/platforms/accton/armxx/arm-accton-as4610/modules/accton_as4610_leds.c:54-86 | the bits of any two LEDs are disjoint, POE and ALARM apart |
| As4610Leds.ProductLedsAreSeparate | packages/platforms/accton/armxx/arm-accton-as4610/modules/accton_as4610_leds.c:123-138 | no product's LED map contains both POE and ALARM, so all its LEDs are independent |
| As4610Leds.SetUpdatesMap | packages/platforms/accton/armxx/arm-accton-as4610/modules/accton_as4610_leds.c:200-478 | on a product's LEDs a set is an update of one entry in the map from LEDs to modes |
| As4610Leds.SetSparesOthersIffCacheAgrees | packages/platforms/accton/armxx/arm-accton-as4610/modules/accton_as4610_leds.c:206-398 | computed from a cache that may be wrong, a set spares all other LEDs' bits in the hardware if and only if the cache agrees with it on them in the registers rewritten |
| As4610Leds.FirstSetPutsOutAnother | packages/platforms/accton/armxx/arm-accton-as4610/modules/accton_as4610_leds.c:377-398 | a set made while no read of the registers has succeeded, on the all-zero cache, puts out a lit LED of the same register |
| As4610Leds.LedController.Update | packages/platforms/accton/armxx/arm-accton-as4610/modules/accton_as4610_leds.c:166-198 | a valid cache younger than a second and a half is left alone without a bus access; any other is read register by register up to the first failure; it ends valid, equal to the hardware and newly dated if and only if all five reads succeeded; a coherent cache stays coherent whatever fails |
| As4610Leds.LedController.NormalSet | packages/platforms/accton/armxx/arm-accton-as4610/modules/accton_as4610_leds.c:377-398 | the blink register and then the colour register are rewritten in the cache and written, the second also if the first write fails; each write that succeeds is in the hardware; a mode above the maximum is ignored |
| As4610Leds.LedController.AutoSet | packages/platforms/accton/armxx/arm-accton-as4610/modules/accton_as4610_leds.c:296-312 | only the two automatic modes are accepted, and only the blink bit changes |
| As4610Leds.LedController.SegmentSet | packages/platforms/accton/armxx/arm-accton-as4610/modules/accton_as4610_leds.c:206-215 | a digit replaces the low four bits of its register |
| As4610Leds.LedController.PointSet | packages/platforms/accton/armxx/arm-accton-as4610/modules/accton_as4610_leds.c:243-259 | the decimal point is one bit of the same register |
| As4610Leds.LedController.Set | packages/platforms/accton/armxx/arm-accton-as4610/modules/accton_as4610_leds.c:206-473 | each of the thirteen setters writes its own registers, masks and shifts to cache and hardware, for every pattern of failing writes, or is ignored |
| As4610Leds.LedController.Get | packages/platforms/accton/armxx/arm-accton-as4610/modules/accton_as4610_leds.c:200-478 | each getter decodes its own bits; when the cache is due and all five reads succeed, or it was coherent, that is what the hardware shows; when it is not due no access is made |
| As4610Leds.LedController.Session | packages/platforms/accton/armxx/arm-accton-as4610/modules/accton_as4610_leds.c:166-478 | any run of sets and gets at any times on a product's LEDs, with successful writes and any failing reads, answers as a map with one independent mode per LED |
| As4610Probe.LedClass.Probe | packages/platforms/accton/armxx/arm-accton-as4610/modules/accton_as4610_leds.c:574-602 | registrations in order up to the first failure, whose error is returned, then removals in reverse of what was registered; either all LEDs of the map are registered or none is |
| As4610Probe.LedClass.Remove | packages/platforms/accton/armxx/arm-accton-as4610/modules/accton_as4610_leds.c:604-617 | exactly the LEDs of the map are unregistered |
| KeyPath.JoinSplit | tools/sjson.py:20 | splitting at dots loses nothing and leaves no dots |
| KeyPath.SplitJoin | tools/sjson.py:20 | every path of dot-free names, empty ones included, is the split of its dotted form |
| KeyPath.SetPathIsAssign | tools/sjson.py:21-28 | the walk, which takes any key with the last one's name for the last, updates at the path cut there, for every tree and path |
| KeyPath.GetAfterSetIff | tools/sjson.py:21-28 | reading the path back gives the value if and only if the last key does not occur earlier in the path |
| KeyPath.AssignSucceedsIffOpen | tools/sjson.py:21-28 | an update succeeds if and only if every existing proper prefix is a dictionary |
| KeyPath.GetAssign | tools/sjson.py:21-28 | get after update, at every depth |
| KeyPath.GetElsewhere | tools/sjson.py:21-28 | an update leaves every path unchanged that is neither a prefix nor an extension of its own |
| KeyPath.AssignAssign | tools/sjson.py:21-28 | updating twice is the last update |
| KeyPath.AssignWhatIsThere | tools/sjson.py:21-28 | updating with what is there changes nothing |
| KeyPath.AssignsCommute | tools/sjson.py:21-28 | updates at incomparable paths commute |
| KeyPath.SetPathLaws | tools/sjson.py:14-28 | all lens laws of the code itself, for every path whose last key is new in it |
| KeyPath.CutShort | tools/sjson.py:14-28 | a.b.a set on an empty dictionary writes at a and reads back nothing |
| KeyPathHeap.WalkRefines | tools/sjson.py:21-28 | on dictionaries held by reference and changed in place, the walk does to the tree what the tree update does, leaves every other dictionary alone, shares nothing, and changes nothing when it fails |
| KeyPathHeap.Store.Run | tools/sjson.py:21-28 | the loop that rebinds the current dictionary and inserts new ones is the walk |
| KeyPathHeap.Store.SetKeyPath | tools/sjson.py:14-28 | the whole operation on the heap refines the tree update of the split key |
| KeyPathHeap.Frame | tools/sjson.py:21-28 | a tree whose own dictionaries are unchanged is unchanged |
| KeyPathHeap.ReplaceChild | tools/sjson.py:24-26 | putting an unshared tree under a key of an unshared tree gives an unshared tree with exactly that child replaced |
| Linear11.TwoComplementIsSigned | packages/base/any/kernels/modules/dps850.c:124-130 | at every width, with a mask of as many ones, the result is the number of the same residue in the signed range |
| Linear11.TwoComplementRoundTrip | packages/base/any/kernels/modules/dps850.c:124-130 | every number of the signed range is decoded from its own residue |
| Linear11.FieldsOfWord | packages/base/any/kernels/modules/dps850.c:173-174 | the two calls give the 5-bit exponent and the 11-bit mantissa of the format |
| Linear11.PrintedIsExactIff | packages/base/any/kernels/modules/dps850.c:176-177 | both branches of the 32-bit arithmetic print the truncated multiple of mantissa times two to the exponent if and only if the last product fits |
| Linear11.LinearIsExactIff | packages/base/any/kernels/modules/dps850.c:132-178 | the number shown for a word is its meaning times the multiplier, truncated towards zero, if and only if the product fits in 32 bits |
| Linear11.LinearIsExactUpToEleven | packages/base/any/kernels/modules/dps850.c:132-178 | up to exponent 11, and for fan speeds at any exponent, it always is |
| Linear11.LinearOverflows | packages/base/any/kernels/modules/dps850.c:176-177 | at exponent 12 a large word is shown as a negative number |
| Linear11.VoutIsExactIff | packages/base/any/kernels/modules/dps850.c:205-221 | the output voltage, a 16-bit mantissa with its exponent in another register, is shown exactly if and only if the product fits |
| PsuCurrent.MixedDivision | packages/platforms/netberg/x86-64/modules/builds/hardware_monitor.c:4188-4189 | scaling quotient and remainder apart loses nothing: n/t*k + (n%t*k)/t is n*k/t for all naturals |
| PsuCurrent.FractionDigits | packages/platforms/netberg/x86-64/modules/builds/hardware_monitor.c:4191 | the digits after the point are exactly the truncated ten-thousandths |
| PsuCurrent.ShowPsuIout | packages/platforms/netberg/x86-64/modules/builds/hardware_monitor.c:4180-4206 | the 8-bit negation of the exponent and the split divisions amount to one division of the scaled unsigned mantissa, in both output forms |
| PsuCurrent.IoutIsExactIff | packages/platforms/netberg/x86-64/modules/builds/hardware_monitor.c:4180-4206 | against real numbers: the decimal form is the unsigned mantissa times its power of two to four truncated digits, the whole forms its truncation if and only if 32 bits hold it |
| PsuCurrent.DecodersAgreeIff | packages/platforms/netberg/x86-64/modules/builds/hardware_monitor.c:4180-4200 | for every word the milli-unit form equals the other driver's number, wrapped overflow included, if and only if bit 10 of the mantissa is clear |
| Dps850.TableIsComplete | packages/base/any/kernels/modules/dps850.c:405-415 | every quantity is read by its PMBus command, once, at its place in the table |
| Dps850.Driver.Read | packages/base/any/kernels/modules/dps850.c:311-382 | at most ten attempts at the register, all failing but possibly the last, whose status is returned |
| Dps850.Driver.ReadWords | packages/base/any/kernels/modules/dps850.c:420-446 | on success the mode and all words come from consecutive successful reads of their registers; on failure some register failed ten times |
| Dps850.Driver.ReadString | packages/base/any/kernels/modules/dps850.c:449-487 | length and string are read in turn; failure only after ten failed attempts |
| Dps850.Driver.Update | packages/base/any/kernels/modules/dps850.c:394-497 | a valid copy no older than a second and a half costs no bus operation; any other starts with a read of the mode; a valid copy is the outcome of one whole refresh, whose words are followed by both strings; it is invalid only after a register failed ten times |
| Dps850.DisplayIsExactIff | packages/base/any/kernels/modules/dps850.c:132-178 | the number shown is the meaning of the word, truncated, times 1 for the fan speed and 1000 otherwise, if and only if 32 bits hold the product; the fan speed always fits |
| Dps850.Driver.Show | packages/base/any/kernels/modules/dps850.c:132-178 | the number shown is decoded from the registers of one whole refresh, made now or within one and a half seconds; the bus is used if and only if the copy is invalid or older |
| Dps850.Driver.Session | packages/base/any/kernels/modules/dps850.c:132-178 | over any run every number shown comes from one whole refresh and never from an earlier one than a number before it |
| Dps850.NotDueIsRecent | packages/base/any/kernels/modules/dps850.c:401-402 | on the wrapping clock a copy that is not due is no older than its limit, unless the clock went half a turn |
| Modular.TimeAfterMeaning | packages/base/any/kernels/modules/dps850.c:401-402 | time_after on the wrapping counter finds the later of two moments less than half a turn apart |

## Left out

- OptoeDriver.Optoe.EepromRead: the plain I2C call can report that fewer messages than asked were sent; that is taken as a failure, so a coincidence of that count with the byte count is not modelled. The timeout is a bound on the number of attempts.
- OptoeDriver.Optoe.PageLegal: the sum of offset and length is unbounded, so its wrap-around for lengths near 2^64 is not modelled.
- OptoeMap: bank selection, modules with fewer pages than they announce, and registers that change by themselves; the image changes only by this driver's writes.
- PackageRepository.Repository.AddPackages: file names are taken as parsed, one file per name and architecture; the substring match of the lookup, missing files and the manifest directories are not modelled.
- PackageRepository.Repository.ExtractPackage: only extraction into the default cache with the prefix directory; dpkg and touch always succeed.
- PackageManager.PackageManager.Build: the pseudo-package all, alternative architectures and cleaning are not modelled; whether a group's submodules can be had and what its build yields are fixed by the group.
- PackageManager.PackageManager.Require: as a method it requires a graph without a cycle ahead; what happens with one is said by the function of PackageRecursion that it computes.
- PackageDefaults.PackageDefaultsGet: what a defaults program prints is taken as a file's contents; requires a path with a single leading slash, since the walk has no end on any other.
- FanControl.FanController.Tick: the bus writes of a new duty, the choice of table by platform and the reading of voltages and speeds; temperature reads that fail.
- PortPolling.Poller.LedStep: the values written to the LEDs, and the word write that retries without end on a persistent failure; here it fails.
- PortPolling.Poller.Turn: the pulses on the reset register after each step, the other platforms' step machines, and the attributes other than presence.
- EepromCache.Cache.Read: the copy outside the lock, so the claims are for requests one after the other; one time per slice; the check for the adapter's read function.
- As4610Leds.Regs: the five registers are a record with named fields, not an array, so an update in place of one element is not captured.
- As4610Probe.LedClass.Probe: names, triggers and the platform device.
- KeyPathHeap.Store.SetKeyPath: dictionaries that the loaded file itself shares or nests in a cycle (anchors in YAML); lists and other leaves are plain values.
- Dps850.Driver.ReadString: the contents of the model and serial strings; writing of registers.
- PsuCurrent.ShowPsuIout: the multiplexer writes around the word read, and a failed read, whose error code is cut to 16 bits.
- Linear11.Vout: only the linear mode of the voltage format; the mode bits are ignored as in the original.
- Locks, delays and real concurrency: each locked section is one step.
- Kernel registration, sysfs files and error messages, apart from the LED registration.
- The remaining platforms' drivers, which repeat this logic, and the image and release tools, which mostly run other programs.
