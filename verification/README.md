# Verification of the tools in the MontaVista CGX layer

The layer is mostly build metadata; these are models of the parts of it that compute something, with
proofs of what they compute. `dafny verify dfyconfig.toml` checks everything.

**LTT ring-buffer extractor** (`ltt.py`). The channel files of a dump are a map from CPU to bytes that
methods append to and patch (`LttDump`), read out of ring buffers through the id table, the sub-buffer
array and its pages (`LttRing`). `LttPackets` is a reader of the files: packets are found by the packet
size field of section 5.2 (Event Packet Context Description) of the Common Trace Format 1.8.2
specification. `LttStream` sees the ring as a window on an unbounded stream. The counters are integers,
negative ones included, known up to multiples of 2^w. Division is exact integer division. `LttSearch`
has the CPU list and the search for a channel; the target's memory is given as maps.

The walk takes one step per sub-buffer boundary from consumed to offset exactly when there are fewer of them
than sub-buffers; then every visit takes exactly its share of the stream exactly when every sub-buffer holds
what the walk wants of it. When the offset stands where the walk would start in its last sub-buffer, the
length passed is 0, which means no limit: stale data is dumped (`StaleDataDumped`, and `LttExample` for a
small ring). The comment at lines 57-67 divides by the number of sub-buffers where the code
divides by their size; the model follows the code.

**Ramdisk builder** (`mvmkramdisk`). `DotDot` has the `..` rewriting on strings: on paths the loop ends exactly
for an even number of climbs above the root, since a step may also take out two of them, and on a name like
`a..b` never. `Links` follows symbolic links by their text, through that rewriting. `ModuleClosure` has the
rounds over kernel modules, with `get_deps` in `ModuleDeps`. The comments describe a closure under dependencies;
as written, the script looks a module up by its name below the module directory and takes the absolute name
out of the line found, so that it follows no dependency (`CopiedIsMeantIff` says when that does no harm).
`LibClosure` has the rounds over binaries, links and libraries, without a record of what has been visited:
they end exactly if the links of every reached readable file can be followed and no circle of libraries is
entered (`RoundsEndIff`; `LibExamples` has a host for each outcome). `LibRules` puts what is on the list in terms of the
lines of the files and of `ldd`.

**Encrypted disks** (`cryptdisks.functions`, `decrypt_keyctl`). `CryptModel` gives the effect of a start
as functions of the state (device mapper table, keyring, counts), `CryptDisks` the steps as methods, and
`CryptProperties` what holds of every start and run. The two nearly identical loops for LUKS and tcrypt
devices are one method. What the user types, what other key sources supply, and the verdicts of checks are
arbitrary functions; closing and renaming succeed; a key script that fails opens nothing. `do_swap` closes
the final name where the temporary one is mapped, and its verdict is ignored: the device is started all the
same. A plain device is not looked at after opening it, so a start may succeed with nothing mapped;
`PlainSuccessWithoutMapping` says exactly when.

**Kernel configuration merge** (`mvl.bbclass`). `ConfigMerge` has the line-by-line merge, on texts. If a
variable is set more than once, only its first line is replaced and the last one wins
(`OverrideTakesEffectIff`). A name the patterns do not recognise, such as `CONFIG_SCx200`, is written again by
every run; of a value with a newline the first line is replaced by the whole and the remainder accumulates.
`CopyTwiceIff`: these are exactly the cases in which a second run changes the text.

**Runlevel switch** (`rc`). `Runlevels` has the transition with and without skipped starts; scripts
succeed. A service that died in a level common to both is not started again (`SkippingHarmlessIff`).

**Installer** (`installer.py`). `StorageStack` resolves a device to its disks, taking names as the code does;
`Stacks` has storage stacks by their parts, with their names and reports, and says when the disks found are
the true ones: not below a partition of an array, a volume group with a hyphen in its name, or a disk past
the 26th. The search may even go round in circles on a stack that has none (`SelfNestedNeverEnds`).
`Partitions` searches a gap, `Mounts` orders mount points. Partition ends are those the documentation of
`get_partitions` promises; its code reads them from the start column, and `MisreadEndsSafeIff` says when that
is harmless.

`Bits.dfy` also holds the byte orders (module `Endian`). `Order`, `Graph` and `Common` are shared:
dictionary order and sorting, reachability, and small helpers.

## Model

| member | source | states |
|---|---|---|
| LttDump.Dumper.DumpSubbuffer | recipes-kernel/lttng-2.0/ltt-kdump-0.2/sources/ltt.py:297-316 | for any page size and count, appends exactly the bytes of the page-concatenated sub-buffer from start on, as many as asked for and as there are (none from behind the end), and returns that number |
| LttDump.Dumper.DumpPage | recipes-kernel/lttng-2.0/ltt-kdump-0.2/sources/ltt.py:286-295 | appends a slice of one page; creates no file for nothing |
| LttDump.Dumper.AddAlignment | recipes-kernel/lttng-2.0/ltt-kdump-0.2/sources/ltt.py:279-284 | the CPU's file grows by as many bytes as asked for, all zero, and no other file is touched |
| LttDump.WriteAtMeans | recipes-kernel/lttng-2.0/ltt-kdump-0.2/sources/ltt.py:365-386 | seeking and writing replaces the bytes there and no others; a gap reads as zeros |
| LttDump.Dumper.PatchHeader | recipes-kernel/lttng-2.0/ltt-kdump-0.2/sources/ltt.py:365-387 | on a file ending in a packet body, replaces a zero end time stamp and both size fields and nothing else |
| LttDump.Dumper.HandleSubbuffer | recipes-kernel/lttng-2.0/ltt-kdump-0.2/sources/ltt.py:325-387 | appends the one packet for the bytes of a sub-buffer, or nothing if it has no data; other files unchanged |
| LttDump.Dumper.HandleBuffer | recipes-kernel/lttng-2.0/ltt-kdump-0.2/sources/ltt.py:389-410 | terminates and appends one packet per sub-buffer from the consumed counter to the offset, in ring order |
| LttDump.Dumper.DumpCpus | recipes-kernel/lttng-2.0/ltt-kdump-0.2/sources/ltt.py:457-461 | there is one file per online CPU and each holds the packets of that CPU's buffer only |
| LttDump.Dumper.constructor | recipes-kernel/lttng-2.0/ltt-kdump-0.2/sources/ltt.py:428-432 | a dump starts without channel files |
| Bits.AndMask | recipes-kernel/lttng-2.0/ltt-kdump-0.2/sources/ltt.py:341-345 | masking with 2^k - 1 is the remainder modulo 2^k (sub-buffer ids, the hot size test) |
| Bits.AndNotMask | recipes-kernel/lttng-2.0/ltt-kdump-0.2/sources/ltt.py:114-116 | masking with the complement removes that remainder |
| Bits.AlignRoundsUp | recipes-kernel/lttng-2.0/ltt-kdump-0.2/sources/ltt.py:114-116 | for a power of two, align gives a multiple at least v and less than one alignment above it |
| Bits.AlignIsLeast | recipes-kernel/lttng-2.0/ltt-kdump-0.2/sources/ltt.py:114-116 | no smaller multiple would do |
| Endian.ReadValue | recipes-kernel/lttng-2.0/ltt-kdump-0.2/sources/ltt.py:144-154 | reading byte by byte gives the value of the bytes in target order |
| Endian.DecodeEncode | recipes-kernel/lttng-2.0/ltt-kdump-0.2/sources/ltt.py:125-154 | a 64-bit value written in target order is read back, in either order |
| LttRing.MasksAreRemainders | recipes-kernel/lttng-2.0/ltt-kdump-0.2/sources/ltt.py:340-350 | the sub-buffer is the id modulo a power of two in the array; its size is the hot value modulo the sub-buffer size, or the recorded data size if that is zero |
| LttRing.ByteByPage | recipes-kernel/lttng-2.0/ltt-kdump-0.2/sources/ltt.py:57-67 | a sub-buffer byte is found by dividing by the page size for the page and taking the remainder for the offset |
| LttPackets.HeaderFields | recipes-kernel/lttng-2.0/ltt-kdump-0.2/sources/ltt.py:378-386 | the content size field of a packet gives the dumped bytes and its packet size field the padded length, both in bits |
| LttPackets.EndTimeStamp | recipes-kernel/lttng-2.0/ltt-kdump-0.2/sources/ltt.py:368-376 | the end time stamp of a packet is the one in the data, in which missing bytes count as zero, or the largest value if it is zero |
| LttPackets.PacketFileRoundTrip | recipes-kernel/lttng-2.0/ltt-kdump-0.2/sources/ltt.py:351-410 | walking the file by packet sizes meets exactly the packets written and ends exactly at the end of the file |
| LttPackets.ContentIsRaw | recipes-kernel/lttng-2.0/ltt-kdump-0.2/sources/ltt.py:357-387 | the content of each packet is the dumped bytes except in the header range 40 to 64, and there too for a time stamp that was set |
| LttPackets.PaddingIsZero | recipes-kernel/lttng-2.0/ltt-kdump-0.2/sources/ltt.py:279-284 | outside the header what pads a packet is zero |
| LttPackets.PacketInFile | recipes-kernel/lttng-2.0/ltt-kdump-0.2/sources/ltt.py:351-387 | each packet stands in the file where the reader finds it |
| LttPackets.PacketsAligned | recipes-kernel/lttng-2.0/ltt-kdump-0.2/sources/ltt.py:351-359 | packets start at page boundaries, without gaps, each padded by less than a page |
| LttStream.WrapInvisible | recipes-kernel/lttng-2.0/ltt-kdump-0.2/sources/ltt.py:392-397 | a counter that is off by whole rounds of the ring gives the same sub-buffer index and offset |
| LttStream.VisitsShape | recipes-kernel/lttng-2.0/ltt-kdump-0.2/sources/ltt.py:400-409 | the loop goes through consecutive ring positions; only the first has a start offset and only the last a length |
| LttStream.NoRevisit | recipes-kernel/lttng-2.0/ltt-kdump-0.2/sources/ltt.py:400-409 | no sub-buffer is visited twice, whatever the counters are |
| LttStream.WrapSafety | recipes-kernel/lttng-2.0/ltt-kdump-0.2/sources/ltt.py:392-409 | with counters known modulo 2^w only, the visits are the sub-buffers from the true consumed to the true offset, in order |
| LttStream.StopsAtDistanceIff | recipes-kernel/lttng-2.0/ltt-kdump-0.2/sources/ltt.py:69-76 | the loop takes one step per sub-buffer boundary if and only if there are fewer of them than sub-buffers |
| LttStream.StreamByteByPage | recipes-kernel/lttng-2.0/ltt-kdump-0.2/sources/ltt.py:57-67 | a stream byte is reached through the id table, the array, the page and the offset |
| LttStream.ShareExact | recipes-kernel/lttng-2.0/ltt-kdump-0.2/sources/ltt.py:340-357 | a visit dumps exactly its share of the stream if and only if its sub-buffer is filled far enough (or, if the share is empty, holds nothing) |
| LttStream.DumpIsStreamIff | recipes-kernel/lttng-2.0/ltt-kdump-0.2/sources/ltt.py:389-410 | all visits dump exactly their shares if and only if all sub-buffers are so filled |
| LttStream.DumpIsStream | recipes-kernel/lttng-2.0/ltt-kdump-0.2/sources/ltt.py:389-410 | then the packets together hold the stream from consumed to offset |
| LttStream.FileHoldsStream | recipes-kernel/lttng-2.0/ltt-kdump-0.2/sources/ltt.py:325-410 | reading the file back gives, up to the patched header range, the stream from consumed to offset cut into pieces |
| LttStream.StaleDataDumped | recipes-kernel/lttng-2.0/ltt-kdump-0.2/sources/ltt.py:353-354 | a length of zero at the last sub-buffer dumps what an earlier round left there |
| LttExample.NothingWritten | recipes-kernel/lttng-2.0/ltt-kdump-0.2/sources/ltt.py:353-354 | so it does on a ring of two sub-buffers whose offset stands at the second |
| LttExample.HalfDumped | recipes-kernel/lttng-2.0/ltt-kdump-0.2/sources/ltt.py:389-410 | with half of the second written the dump is the stream |
| LttSearch.GetCpuList | recipes-kernel/lttng-2.0/ltt-kdump-0.2/sources/ltt.py:156-174 | the increasing list of exactly the CPUs whose mask bit is set, or CPU 0 alone if the mask cannot be read |
| LttSearch.FindChannel | recipes-kernel/lttng-2.0/ltt-kdump-0.2/sources/ltt.py:244-261 | the first enabled per-CPU overwrite channel of a ring |
| LttSearch.FindSessionChannel | recipes-kernel/lttng-2.0/ltt-kdump-0.2/sources/ltt.py:263-277 | the nested search over rings of sessions and channels terminates with the first pair |
| LttSearch.FirstPairIsFirst | recipes-kernel/lttng-2.0/ltt-kdump-0.2/sources/ltt.py:263-277 | that pair is lexicographically first, and there is none exactly when no pair matches |
| DotDot.GrepFindsUp | recipes-mvista/mvmkramdisk/mvmkramdisk-0.1/mvmkramdisk:46 | grep sees ".." in a rendered path exactly if a component is ".." |
| DotDot.SedRemovesFirst | recipes-mvista/mvmkramdisk/mvmkramdisk-0.1/mvmkramdisk:47 | one sed step removes the leftmost component that is followed by "..", and that ".." |
| DotDot.StepKeepsParity | recipes-mvista/mvmkramdisk/mvmkramdisk-0.1/mvmkramdisk:46-48 | a step keeps the resolved path and the parity of the climbs above the root |
| DotDot.RemoveDotDot | recipes-mvista/mvmkramdisk/mvmkramdisk-0.1/mvmkramdisk:42-50 | on every string on which the rewriting ends, the loop ends with its one outcome, which has no ".." |
| DotDot.EndsWithin | recipes-mvista/mvmkramdisk/mvmkramdisk-0.1/mvmkramdisk:46-48 | on any string it ends if and only if no ".." is left after as many steps as it has characters |
| DotDot.EndsIff | recipes-mvista/mvmkramdisk/mvmkramdisk-0.1/mvmkramdisk:42-50 | on a path of components it ends if and only if the path climbs above the root an even number of times, with the one-pass stack resolution |
| DotDot.OddClimbsNeverEnd | recipes-mvista/mvmkramdisk/mvmkramdisk-0.1/mvmkramdisk:46-48 | for an odd number of climbs there is a ".." after any number of steps |
| DotDot.StuckInName | recipes-mvista/mvmkramdisk/mvmkramdisk-0.1/mvmkramdisk:46-47 | without a "/.." it changes nothing, so it never ends on a name with ".." inside |
| DotDot.ClimbsAndNames | recipes-mvista/mvmkramdisk/mvmkramdisk-0.1/mvmkramdisk:46-47 | it does not end on /bin/../.. nor on /a..b, and takes /bin/../../../lib to /lib |
| Links.NextHop | recipes-mvista/mvmkramdisk/mvmkramdisk-0.1/mvmkramdisk:100-108 | a link leads to its text if that is absolute, and otherwise to what remove_dot_dot makes of dirname and text |
| Links.HopCases | recipes-mvista/mvmkramdisk/mvmkramdisk-0.1/mvmkramdisk:100-108 | an absolute link can always be followed, a relative one exactly if remove_dot_dot ends on its path |
| Links.DirNames | recipes-mvista/mvmkramdisk/mvmkramdisk-0.1/mvmkramdisk:106 | the directory of a name, alone, in the root, below another, with slashes doubled or behind |
| Links.RelativeHop | recipes-mvista/mvmkramdisk/mvmkramdisk-0.1/mvmkramdisk:105-107 | for components, a relative link can be followed if and only if the climbs above the root are even, and leads where a pass with a stack does, behind a doubled slash for a link in the root directory |
| ModuleClosure.ProcessAdds | recipes-mvista/mvmkramdisk/mvmkramdisk-0.1/mvmkramdisk:260-289 | a round adds exactly the readable modules of its list that are new, each once, behind those processed before |
| ModuleClosure.Round | recipes-mvista/mvmkramdisk/mvmkramdisk-0.1/mvmkramdisk:258-289 | the reading loop does such a round, lists the dependencies it finds, counts them, and names modules for modprobe in the first round only |
| ModuleClosure.CopyKernelModules | recipes-mvista/mvmkramdisk/mvmkramdisk-0.1/mvmkramdisk:254-296 | for any lines of modules.dep the rounds end; the modules are exactly the readable ones reachable through readable ones by what get_deps answers, each processed once; the error flag is set exactly if get_deps fails on one |
| ModuleDeps.RelativeDeps | recipes-mvista/mvmkramdisk/mvmkramdisk-0.1/mvmkramdisk:209-219 | with names below the module directory get_deps answers a whole line, the first word of which is a module name with its colon |
| ModuleDeps.AbsoluteDeps | recipes-mvista/mvmkramdisk/mvmkramdisk-0.1/mvmkramdisk:209-219 | with absolute names get_deps fails on every module |
| ModuleDeps.FirstMatchIff | recipes-mvista/mvmkramdisk/mvmkramdisk-0.1/mvmkramdisk:212 | grep finds a line exactly if one matches, and the first that does is read |
| ModuleDeps.MatchesMeans | recipes-mvista/mvmkramdisk/mvmkramdisk-0.1/mvmkramdisk:212 | a pattern without dots matches what begins with it; a dot matches any character |
| ModuleDeps.ListedFound | recipes-mvista/mvmkramdisk/mvmkramdisk-0.1/mvmkramdisk:211-212 | a module of the file is found by its name below the module directory |
| ModuleDeps.NameTakenOut | recipes-mvista/mvmkramdisk/mvmkramdisk-0.1/mvmkramdisk:218 | the name is taken out of a line that begins with it, and of no other |
| ModuleDeps.FewFields | recipes-mvista/mvmkramdisk/mvmkramdisk-0.1/mvmkramdisk:211 | of a name with fewer than four slashes nothing is looked up, or all of it if there is none |
| ModuleClosure.CopiedIsMeantIff | recipes-mvista/mvmkramdisk/mvmkramdisk-0.1/mvmkramdisk:209-296 | either way the modules copied are the readable required ones, which is the closure that the comments describe if and only if none of them needs a readable module outside |
| ModuleClosure.DependencyLost | recipes-mvista/mvmkramdisk/mvmkramdisk-0.1/mvmkramdisk:209-296 | a required module is copied without the one it needs |
| ModuleClosure.NameOfModule | recipes-mvista/mvmkramdisk/mvmkramdisk-0.1/mvmkramdisk:275-276 | the modprobe name is the base name without .ko |
| LibClosure.Ramdisk.ProcessLine | recipes-mvista/mvmkramdisk/mvmkramdisk-0.1/mvmkramdisk:53-138 | one line: the entry, the targets of the links it goes through, the libraries of the final file, or an error |
| LibClosure.Ramdisk.FollowLinks | recipes-mvista/mvmkramdisk/mvmkramdisk-0.1/mvmkramdisk:99-111 | where all links on the way can be followed, lists every target and arrives at a file that is no link |
| LibClosure.Ramdisk.ProcessTmpFile | recipes-mvista/mvmkramdisk/mvmkramdisk-0.1/mvmkramdisk:52-147 | one round over the work file, and the next work file if a library was found |
| LibClosure.Ramdisk.MakeBase | recipes-mvista/mvmkramdisk/mvmkramdisk-0.1/mvmkramdisk:149-162 | if the links of reached readable files can be followed and no circle is entered, the rounds end; an error is reported exactly if something wrong is presented, and otherwise the list is exactly what is wanted |
| LibClosure.RoundsEndIff | recipes-mvista/mvmkramdisk/mvmkramdisk-0.1/mvmkramdisk:97-155 | the rounds end if and only if that condition holds |
| LibClosure.AcyclicHasNoCircle | recipes-mvista/mvmkramdisk/mvmkramdisk-0.1/mvmkramdisk:141-155 | an acyclic graph of libraries has no circle |
| LibClosure.CirclesNeverEnd | recipes-mvista/mvmkramdisk/mvmkramdisk-0.1/mvmkramdisk:141-155 | once a circle of libraries has been entered the rounds have not finished after any number of them |
| LibExamples.PlainEnds | recipes-mvista/mvmkramdisk/mvmkramdisk-0.1/mvmkramdisk:149-155 | for one file without libraries they end |
| LibExamples.LoopNeverEnds | recipes-mvista/mvmkramdisk/mvmkramdisk-0.1/mvmkramdisk:141-155 | so for two libraries that need each other |
| LibExamples.ClimbNeverEnds | recipes-mvista/mvmkramdisk/mvmkramdisk-0.1/mvmkramdisk:99-109 | nor do they end for /bin/x linked to ../../lib/y, without any libraries |
| LibClosure.ListIsClosed | recipes-mvista/mvmkramdisk/mvmkramdisk-0.1/mvmkramdisk:96-138 | a list without errors is closed under every link hop and every library |
| LibClosure.ListIsLeast | recipes-mvista/mvmkramdisk/mvmkramdisk-0.1/mvmkramdisk:96-138 | its sources are in every closed set that holds the required files |
| LibRules.LibrariesAre | recipes-mvista/mvmkramdisk/mvmkramdisk-0.1/mvmkramdisk:113-138 | the libraries of a file are those of the ldd lines whose name is not empty, linux-gate.so.1, static or not |
| LibRules.LineKinds | recipes-mvista/mvmkramdisk/mvmkramdisk-0.1/mvmkramdisk:55-91 | comments and special libraries are ignored, busybox lines need a target, anything else is a file, by its name with the library directory for %LIB% |
| LibRules.RequiredListed | recipes-mvista/mvmkramdisk/mvmkramdisk-0.1/mvmkramdisk:81-94 | a list without errors has every required file, with its target or itself for one |
| LibRules.BusyboxListed | recipes-mvista/mvmkramdisk/mvmkramdisk-0.1/mvmkramdisk:69-79 | it has every busybox link |
| LibRules.WrongIff | recipes-mvista/mvmkramdisk/mvmkramdisk-0.1/mvmkramdisk:69-87 | a line is an error exactly for busybox without a target and for a file that is not readable |
| LibRules.RequiredWrong | recipes-mvista/mvmkramdisk/mvmkramdisk-0.1/mvmkramdisk:69-87 | a busybox line without a target or a required file that is not readable is an error |
| LibRules.AbsoluteListed | recipes-mvista/mvmkramdisk/mvmkramdisk-0.1/mvmkramdisk:99-111 | it has the text of a listed link if that is absolute |
| LibRules.LibraryListed | recipes-mvista/mvmkramdisk/mvmkramdisk-0.1/mvmkramdisk:113-138 | it has every library that ldd names for a listed file, and all of them are readable |
| Order.SortUniqIsSet | recipes-mvista/mvmkramdisk/mvmkramdisk-0.1/mvmkramdisk:142 | sort and uniq give the strictly increasing list of the same names |
| Order.LessAt | recipes-mvista/mvinstaller/mvinstaller-0.1/installer.py:323-324 | in dictionary order the first different character decides |
| CryptDisks.Disks.RunDecryptKeyctl | dynamic-layers/openembedded-layer/recipes-support/cryptsetup/files/cryptdisk_support/lib/cryptsetup/scripts/decrypt_keyctl:34-85 | looks the keyring up on the first attempt only; otherwise asks, replaces the entry and emits it; a failure leaves no entry behind once the user has answered |
| CryptDisks.Disks.UnlockDevice | dynamic-layers/openembedded-layer/recipes-support/cryptsetup/files/cryptdisk_support/lib/cryptsetup/cryptdisks.functions:294-341 | the retry loop of LUKS devices: attempts until one opens or the tries are used up, then the check, closing the temporary name if it fails |
| CryptDisks.Disks.OpenPlain | dynamic-layers/openembedded-layer/recipes-support/cryptsetup/files/cryptdisk_support/lib/cryptsetup/cryptdisks.functions:440-461 | the retry loop of plain devices, which looks at the check only |
| CryptDisks.Disks.DoSwap | dynamic-layers/openembedded-layer/recipes-support/cryptsetup/files/cryptdisk_support/lib/cryptsetup/cryptdisks.functions:486-503 | changes no mapping: after a failed test it closes the final name, which is not mapped yet |
| CryptDisks.Disks.FinalizeDevice | dynamic-layers/openembedded-layer/recipes-support/cryptsetup/files/cryptdisk_support/lib/cryptsetup/cryptdisks.functions:521-523 | renames the temporary mapping, if there is one, to the final name |
| CryptDisks.Disks.HandleLineStart | dynamic-layers/openembedded-layer/recipes-support/cryptsetup/files/cryptdisk_support/lib/cryptsetup/cryptdisks.functions:560-650 | the whole start of a line as a function of the state before it |
| CryptDisks.Disks.StartAll | dynamic-layers/openembedded-layer/recipes-support/cryptsetup/files/cryptdisk_support/lib/cryptsetup/cryptdisks.functions:738-756 | the starts of all lines, one after the other |
| CryptDisks.RetryTable | dynamic-layers/openembedded-layer/recipes-support/cryptsetup/files/cryptdisk_support/lib/cryptsetup/cryptdisks.functions:317-333 | attempts map the temporary name if one succeeds, and change nothing else |
| CryptProperties.StartMapsFinalNameOnly | dynamic-layers/openembedded-layer/recipes-support/cryptsetup/files/cryptdisk_support/lib/cryptsetup/cryptdisks.functions:612-649 | a failed start leaves the table as it was; a successful LUKS or tcrypt start adds exactly the final name on its device |
| CryptProperties.UnlockSuccessIff | dynamic-layers/openembedded-layer/recipes-support/cryptsetup/files/cryptdisk_support/lib/cryptsetup/cryptdisks.functions:317-341 | a LUKS or tcrypt start succeeds if and only if some attempt within the tries opens the device and the check passes on the first that does |
| CryptProperties.FailedCheckFails | dynamic-layers/openembedded-layer/recipes-support/cryptsetup/files/cryptdisk_support/lib/cryptsetup/cryptdisks.functions:335-339 | a check that never passes leaves the table as it was |
| CryptProperties.WrongKindFails | dynamic-layers/openembedded-layer/recipes-support/cryptsetup/files/cryptdisk_support/lib/cryptsetup/cryptdisks.functions:289-292 | a device that fails its test is left alone, with an error |
| CryptProperties.NotStarted | dynamic-layers/openembedded-layer/recipes-support/cryptsetup/files/cryptdisk_support/lib/cryptsetup/cryptdisks.functions:566-620 | a line that is not started changes nothing; that is no error exactly if the line is ignored, or in order but for a missing device of a line that is not loud, or mapped already |
| CryptProperties.KeySources | dynamic-layers/openembedded-layer/recipes-support/cryptsetup/files/cryptdisk_support/lib/cryptsetup/cryptdisks.functions:294-313 | where the passphrase comes from: the key script, the user, a file directly or through cat |
| CryptProperties.PlainSuccessIff | dynamic-layers/openembedded-layer/recipes-support/cryptsetup/files/cryptdisk_support/lib/cryptsetup/cryptdisks.functions:440-462 | a plain start succeeds if and only if there are no tries or some attempt passes the check, and then maps the name if and only if the first such attempt opened |
| CryptProperties.PlainSuccessWithoutMapping | dynamic-layers/openembedded-layer/recipes-support/cryptsetup/files/cryptdisk_support/lib/cryptsetup/cryptdisks.functions:440-462 | a plain start reports success with nothing mapped if and only if there are no tries or the first attempt that passes the check did not open |
| CryptProperties.PlainStartWithoutMapping | dynamic-layers/openembedded-layer/recipes-support/cryptsetup/files/cryptdisk_support/lib/cryptsetup/cryptdisks.functions:440-462 | so it does for a device that does not open and a check that passes |
| CryptProperties.OpensBounded | dynamic-layers/openembedded-layer/recipes-support/cryptsetup/files/cryptdisk_support/lib/cryptsetup/cryptdisks.functions:317-333 | a device is opened at most TRIES times when TRIES is positive |
| CryptProperties.RunMapsFinalNames | dynamic-layers/openembedded-layer/recipes-support/cryptsetup/files/cryptdisk_support/lib/cryptsetup/cryptdisks.functions:738-756 | over any run nothing is unmapped and every new mapping is the name of a line on its device |
| CryptProperties.NoTemporarySurvives | dynamic-layers/openembedded-layer/recipes-support/cryptsetup/files/cryptdisk_support/lib/cryptsetup/cryptdisks.functions:738-756 | a temporary mapping made by a run survives only if it is itself the name of a line |
| CryptProperties.SetupAsksIffNoKey | dynamic-layers/openembedded-layer/recipes-support/cryptsetup/files/cryptdisk_support/lib/cryptsetup/cryptdisks.functions:294-327 | without a key script a LUKS or tcrypt start asks on every attempt if the key is none, and never otherwise |
| CryptProperties.CacheHoldsOpener | dynamic-layers/openembedded-layer/recipes-support/cryptsetup/files/cryptdisk_support/lib/cryptsetup/scripts/decrypt_keyctl:69-85 | after a success the cache holds a passphrase that opens the device |
| CryptProperties.KeyringAfter | dynamic-layers/openembedded-layer/recipes-support/cryptsetup/files/cryptdisk_support/lib/cryptsetup/scripts/decrypt_keyctl:34-85 | a passphrase given is cached; after a failure of keyctl no entry is left; other entries stay |
| CryptProperties.RightUser | dynamic-layers/openembedded-layer/recipes-support/cryptsetup/files/cryptdisk_support/lib/cryptsetup/scripts/decrypt_keyctl:34-35 | with a user who types right a stale entry costs exactly one attempt, and there is a prompt exactly unless a good entry is cached |
| CryptProperties.RightUserGetsInIff | dynamic-layers/openembedded-layer/recipes-support/cryptsetup/files/cryptdisk_support/lib/cryptsetup/cryptdisks.functions:317-333 | such a user gets in if and only if the entry is not stale or tries is not 1 |
| CryptProperties.StaleEntryLocksOut | dynamic-layers/openembedded-layer/recipes-support/cryptsetup/files/cryptdisk_support/lib/cryptsetup/cryptdisks.functions:317-333 | a single try with another passphrase cached is such a lock-out |
| CryptProperties.OnePromptPerId | dynamic-layers/openembedded-layer/recipes-support/cryptsetup/files/cryptdisk_support/lib/cryptsetup/scripts/decrypt_keyctl:4-14 | a run over such devices prompts exactly once per identifier that is not cached |
| CryptProperties.OnePromptForOneId | dynamic-layers/openembedded-layer/recipes-support/cryptsetup/files/cryptdisk_support/lib/cryptsetup/scripts/decrypt_keyctl:4-14 | any number of devices with one identifier, from an empty cache, prompt exactly once |
| ConfigMerge.CopyConfig | classes/mvl.bbclass:117-147 | the loops over the file and over the remaining overrides write the merged text |
| ConfigMerge.VarOfIff | classes/mvl.bbclass:123-134 | a line is about a variable exactly if it sets it or says it is not set, the name having the form of the pattern |
| ConfigMerge.RecognisedIff | classes/mvl.bbclass:123 | the recognised names are CONFIG_ and one or more capitals, digits or underscores |
| ConfigMerge.ConfigLineIsAbout | classes/mvl.bbclass:107-116 | a line written for a variable is recognized as being about it |
| ConfigMerge.WrittenAbout | classes/mvl.bbclass:107-134 | a line written for any collected name is about that name if it is recognised, and about none if not |
| ConfigMerge.LinesOfText | classes/mvl.bbclass:127-140 | lines written with newlines are read back |
| ConfigMerge.MergeKeepsOthers | classes/mvl.bbclass:127-143 | variables without an override keep their lines and value, whatever the names of the overrides |
| ConfigMerge.MergeOverrides | classes/mvl.bbclass:136-143 | an overridden variable of a recognised name occurs once if it occurred at most once, with the new value; of several lines only the first is replaced; no line is about an unrecognised name |
| ConfigMerge.MergeAt | classes/mvl.bbclass:127-143 | line by line, the first line about an overridden variable is replaced in its place and every other line stays in its own |
| ConfigMerge.WrittenValue | classes/mvl.bbclass:107-116 | what is written for a value: n as a line that says not set; y, m, numbers and what begins with a quote as they are; anything else between quotes |
| ConfigMerge.OverrideTakesEffectIff | classes/mvl.bbclass:136-143 | reading back gives the value so written if and only if the name is recognised and the old file does not go on to set the variable to something else |
| ConfigMerge.NumberStands | classes/mvl.bbclass:107-116 | CONFIG_HZ with 100 is read back as 100 |
| ConfigMerge.SecondLineWins | classes/mvl.bbclass:136-143 | it does not when the variable is set twice |
| ConfigMerge.OthersInOrder | classes/mvl.bbclass:127-143 | the lines about no overridden variable are kept in order, followed by the lines of overrides with unrecognised names |
| ConfigMerge.MergeTwiceIff | classes/mvl.bbclass:127-143 | merging the same overrides into the result changes nothing if and only if all their names are recognised |
| ConfigMerge.CopyTwiceIff | classes/mvl.bbclass:106-147 | for every dictionary of overrides, a second run gives identical text if and only if all names are recognised and no value has a newline |
| ConfigMerge.MixedCaseWrittenAgain | classes/mvl.bbclass:123-143 | CONFIG_SCx200 is written once more by the second run |
| Runlevels.Init.SwitchTo | recipes-core/sysvinit/files/mvista-cgx/rc:132-174 | the loops over K and S scripts leave the services of the transition function running |
| Runlevels.TransitionExactly | recipes-core/sysvinit/files/mvista-cgx/rc:132-174 | what a transition does to one service, skipping or not |
| Runlevels.StartedByLevel | recipes-core/sysvinit/files/mvista-cgx/rc:166-174 | in the levels 0 and 6 services with a start script are stopped, in all others they are running |
| Runlevels.FromBoot | recipes-core/sysvinit/files/mvista-cgx/rc:132-165 | coming from boot no kill script is run, and from boot or single-user mode no start script is skipped |
| Runlevels.SkippedKeepsState | recipes-core/sysvinit/files/mvista-cgx/rc:150-165 | a service with one start script in the level before and no kill script in the new one stays as it was |
| Runlevels.SkippingHarmlessIff | recipes-core/sysvinit/files/mvista-cgx/rc:150-165 | skipping starts makes no difference if and only if every skipped service is running already (or is not, when halting) |
| Runlevels.DeadStaysDown | recipes-core/sysvinit/files/mvista-cgx/rc:150-165 | a service of both levels that died is not started |
| Runlevels.TransitionKeepsUp | recipes-core/sysvinit/files/mvista-cgx/rc:150-174 | from a level that is up, from boot or from single-user mode, a transition leaves the new level up and no skip matters |
| Runlevels.OptimizationSound | recipes-core/sysvinit/files/mvista-cgx/rc:6-10 | over every sequence of such transitions the running services equal those of never skipping, and the last level is up |
| StorageStack.FindBaseDevices | recipes-mvista/mvinstaller/mvinstaller-0.1/installer.py:58-114 | on every system where the search from the device ends, it returns the disks found, or fails at the first name that is not understood |
| StorageStack.SearchEndsIff | recipes-mvista/mvinstaller/mvinstaller-0.1/installer.py:58-114 | the recursion ends if and only if it can come to no circle, the devices it comes to being those up to the first that fails |
| StorageStack.BaseIsLeaves | recipes-mvista/mvinstaller/mvinstaller-0.1/installer.py:58-114 | a list is found if and only if every name reached is understood and no circle can be reached; it holds exactly the disks reached, names being taken as the code takes them |
| StorageStack.NotUnderstood | recipes-mvista/mvinstaller/mvinstaller-0.1/installer.py:64-112 | the search fails on a name without /dev/ or UUID=, of another kind than md, mapper/, sd and hd, on an unknown UUID, and on a mapped name without a hyphen |
| StorageStack.RemoveAdjacent | recipes-mvista/mvinstaller/mvinstaller-0.1/installer.py:351-360 | deleting repeated neighbours in place gives the list without repeated neighbours |
| StorageStack.FindBootDevices | recipes-mvista/mvinstaller/mvinstaller-0.1/installer.py:336-362 | where that search ends, the strictly increasing list of exactly the disks reached from the /boot device, or from / if /boot has none, or an error |
| Stacks.LookTaken | recipes-mvista/mvinstaller/mvinstaller-0.1/installer.py:64-107 | what the code takes each device of a stack to lie on, given what blkid, mdstat and pvs report of the stack |
| Stacks.RightNamesFound | recipes-mvista/mvinstaller/mvinstaller-0.1/installer.py:58-114 | on any stack without circles, if no name under a device is taken wrong, the search ends and exactly its disks are found |
| Stacks.FindsDisksIff | recipes-mvista/mvinstaller/mvinstaller-0.1/installer.py:58-114 | if no group under the device is cut to the name of another, the search ends, and exactly the disks are found if and only if no name under it is taken wrong: a disk name longer than three letters, a partition of an array, a group with a hyphen |
| Stacks.DiskSetIff | recipes-mvista/mvinstaller/mvinstaller-0.1/installer.py:336-362 | then, as a set, the disks are right if and only if all have three letters and each lies under the device by a way without names taken for nothing |
| Stacks.LongNameIsCut | recipes-mvista/mvinstaller/mvinstaller-0.1/installer.py:106-107 | /dev/sdaa1 is taken for a part of /dev/sda |
| Stacks.ArrayPartitionIsLost | recipes-mvista/mvinstaller/mvinstaller-0.1/installer.py:72-87 | on /dev/md0p1 the search succeeds without a disk |
| Stacks.OtherGroupFound | recipes-mvista/mvinstaller/mvinstaller-0.1/installer.py:88-103 | for the group my-vg the disk of the group my is found |
| Stacks.StackEndsIff | recipes-mvista/mvinstaller/mvinstaller-0.1/installer.py:58-114 | on a stack the search ends if and only if no circle can be reached through what names are taken to lie on, and then it succeeds |
| Stacks.NestedApartEnds | recipes-mvista/mvinstaller/mvinstaller-0.1/installer.py:58-114 | it ends on every stack without circles in which no group of a volume that others lie on is cut to the name of another |
| Stacks.SelfNestedNeverEnds | recipes-mvista/mvinstaller/mvinstaller-0.1/installer.py:88-103 | it does not end for a volume of the group my-vg under the group my, though the stack has no circle |
| Partitions.FindGap | recipes-mvista/mvinstaller/mvinstaller-0.1/installer.py:905-922 | the loop finds the first gap that is large enough, or fails |
| Partitions.FirstFitIsLowest | recipes-mvista/mvinstaller/mvinstaller-0.1/installer.py:905-922 | the place overlaps nothing, is on the disk and is the lowest such; the error is raised exactly if there is none |
| Partitions.InsertKeeps | recipes-mvista/mvinstaller/mvinstaller-0.1/installer.py:834-842 | a partition in a free place keeps the list sorted and disjoint |
| Partitions.AllocationsKeep | recipes-mvista/mvinstaller/mvinstaller-0.1/installer.py:889-922 | so does any sequence of allocations, and no partition is lost |
| Partitions.AllocateFirst | recipes-mvista/mvinstaller/mvinstaller-0.1/installer.py:889-922 | an allocation for which there is room is made, and those after it see it |
| Partitions.MisreadEndsSafeIff | recipes-mvista/mvinstaller/mvinstaller-0.1/installer.py:853-857 | with ends read from the start column, at whole megabytes or between, the place is free if and only if it is in front of all partitions or the end of the one before it was read right |
| Partitions.MisreadErrorIsRight | recipes-mvista/mvinstaller/mvinstaller-0.1/installer.py:853-922 | an error raised on the ends so read is right: nothing fits |
| Partitions.MisreadEndsOverlap | recipes-mvista/mvinstaller/mvinstaller-0.1/installer.py:853-857 | behind a partition from 1 or 1.05 to 100 the place found is inside it |
| Mounts.AncestorIsLess | recipes-mvista/mvinstaller/mvinstaller-0.1/installer.py:323-324 | a proper path ancestor comes first in dictionary order |
| Mounts.AncestorIff | recipes-mvista/mvinstaller/mvinstaller-0.1/installer.py:323-324 | an ancestor is a path that another continues behind a slash |
| Mounts.Installer.MountAll | recipes-mvista/mvinstaller/mvinstaller-0.1/installer.py:321-332 | mounts the sorted points and then the special ones |
| Mounts.Installer.UnmountAll | recipes-mvista/mvinstaller/mvinstaller-0.1/installer.py:284-297 | unmounts the special points and then the others in reverse order, or nothing without a table |
| Mounts.MountAllSafe | recipes-mvista/mvinstaller/mvinstaller-0.1/installer.py:321-332 | nothing is mounted over a mounted descendant |
| Mounts.WhatIsMounted | recipes-mvista/mvinstaller/mvinstaller-0.1/installer.py:321-332 | what is mounted then are the points of the table, /dev, /proc and /sys |
| Mounts.UnmountAllSafe | recipes-mvista/mvinstaller/mvinstaller-0.1/installer.py:284-297 | nothing is unmounted below which something is mounted, and nothing is left |
| Mounts.RoundTripIff | recipes-mvista/mvinstaller/mvinstaller-0.1/installer.py:284-332 | mounting and unmounting everything returns to the empty table if and only if there is a file system table |

## Left out

- gdb expression evaluation, symbol loading, module lookup by name and the metadata file of the LTT dump: the target's memory is given.
- Floating-point division in `ltt.py`: the quotients are exact, as for counters below 2^53.
- LttPackets.PacketFileRoundTrip: assumes power-of-two sizes, pages of at least 64 bytes and sub-buffers below 2^61 bytes, as LTTng allocates them.
- LttDump.Dumper.DumpCpus: takes the CPU list and the buffers as given; `LttSearch.GetCpuList` provides a list without repetitions.
- DotDot.EndsIff: is about paths of nonempty components, with ".." only as a whole component; "." is a name like any other, as in the script.
- LibClosure.Ramdisk.MakeBase: the sorted list is a set; file names hold no spaces and link texts no `-> `, which the script would cut.
- ModuleClosure.CopyKernelModules: takes the first round after shell expansion; in module names only dots are special to `grep` and `sed`, and lines of modules.dep have single spaces.
- ModuleClosure.CopiedIsMeantIff: assumes that the working directory holds no files by the relative names of modules.
- File copying, cpio and gzip, firmware lookup and the init template of `mvmkramdisk`.
- Parsing of crypttab options, the rewriting of UUID= and LABEL= sources, permission warnings and the expiry of cached keys.
- `do_tmp` and the stopping of crypttab lines: they do not take part in starting a mapping.
- CryptProperties.OnePromptPerId: assumes names that are not mapped and are not the temporary names of later ones, since a name already mapped is not started.
- ConfigMerge.CopyTwiceIff: texts and values hold no carriage return, which Python 3 would also read as the end of a line.
- ConfigMerge.OverrideTakesEffectIff: is about names with the prefix CONFIG_ that are collected and without an equals sign, and about lines as they are written, so a value with a newline counts as part of its line.
- The collection of override variables from the BitBake data store.
- Progress display, traps and the choice between sourcing and running a script in `rc`; S links without a two-digit priority.
- User interaction, partition table writing, grub, network and inittab writing of the installer, and the text parsing of `get_partitions`.
- StorageStack.FindBaseDevices: the depth of Python's stack is not limited.
- Stacks.FindsDisksIff: assumes active arrays of disks and arrays, each with members, and groups with physical volumes; where a group's name is cut to that of another, the other's disks are found (`Stacks.OtherGroupFound`), right ones only by chance.
- Mounts.MountAllSafe: assumes no mount point at or below /dev, /proc or /sys, and that mount commands succeed.
- Recipes, appends, distribution and toolchain configuration, patches and images: there is nothing in them to compute.
