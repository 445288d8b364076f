# Verification model of the KVM hypervisor

A Dafny model of the five parts of the hypervisor that are more than calls into the kernel, with proofs of what
they promise: the GDB remote stub, the construction of the guest's memory at boot, the keyboard controller with the
console encoder in front of it, the ATA disk behind its PCI bridge, and the INI parser.

Code that updates buffers, registers or guest memory in place is an array or a class here, with loops where the source
has loops. Each method is proved against a specification function over plain values (`GetPacket` against `Receive`,
`ServeCommands` against `Serve`, `LoadSegments` against `Image`, `ParseStream` against `ParseText`, and so on); the main
results are lemmas about those functions, over all inputs, all runs or all interleavings.

| Part | Modules |
|---|---|
| shared: bytes and words, C strings | `Machine`, `CStrings` |
| GDB stub | `GdbCodec`, `GdbFraming`, `GdbReliability`, `GdbStub`, `GdbSession`, `GdbCommands` |
| boot memory | `ElfLoader`, `ElfLayout`, `PageTables`, `PageWalk`, `BootSequence` |
| keyboard and console | `Keyboard`, `Console` |
| ATA disk and PCI | `Disk`, `DiskInterrupts`, `Transfers`, `Pci`, `PciSpace`, `AtaBridge`, `Drivers` |
| INI parser | `IniText`, `IniParser`, `IniLines`, `IniRoundTrip`, `IniComments` |

`dafny verify dfyconfig.toml` checks the whole project.

## How the outside world appears

- The debug connection is a string still to be read and a string written so far. A read with nothing left is a client
  that has fallen silent: the outcome is `Waiting`.
- The vCPU is a record of its eighteen general registers; `KVM_GET_REGS` and `KVM_SET_REGS` read and replace it.
- Files (ELF, disk image, configuration) are byte or character sequences; the disk image is an array written in place.
- Guest memory is an array. Where the source would index outside a buffer or the guest memory, the model ends in an
  explicit outcome (`Overran`, `fault`), or, for the ELF loader, asks for the exact condition `Fits`.
- The keyboard's mutex makes every public method one atomic step; the IRQ line is a ghost level with a count of its
  rising edges.

## Where the code departs from what it is meant to do

Each is kept as the code has it, with a lemma that says exactly when it matters.

- A ':' left at index 2 of the input buffer by an earlier packet moves the start of a short packet
  (`GdbReliability.FrameReceived`); sessions keep an invariant that excludes it (`GdbSession.SessionRefines`).
- A packet body of 399 characters or more is dropped without an answer (`GdbReliability.OverlongIgnored`).
- Memory commands are not range checked: a well-formed one stays inside its buffers and the guest memory if and only if
  the request is in range (`GdbSession.ExecRefines`).
- The fourth magic byte of an ELF file is never looked at: a header is recognised if and only if the other fields are
  those of its class (`ElfLayout.HeaderRead`).
- The ELF loader tests only the 64-bit sum of address and memory size: nothing at or beyond the limit changes if and
  only if every accepted header's file bytes and zero fill end inside (`ElfLoader.LimitIsKept`).
- Page tables: up to 3 GiB all RAM is mapped if and only if its size is a multiple of 2 MiB, and beyond 3 GiB it is not,
  the untouched slots being absent (`PageWalk.RamReachable`); every other address goes where the slots the builder
  leaves alone lead (`PageWalk.WalkElsewhere`, and for the last directory `PageWalk.StaleSlotMaps`).
- Segment descriptors lose bits 24 to 31 of the base (`BootSequence.DescriptorReadsBack`).
- The first sector of a read command is fetched before the address registers are decoded: on any controller it is the
  block the old address and count point to, which is right if and only if they already pointed to the new address
  (`Drivers.ReadFetches`, `Drivers.ReadFetchesRight`), and on a fresh controller a read of sectors that exist is right
  for every disk if and only if the address is 0 (`Transfers.FirstReadIsRight`).
- The drive and head register reads as 0 whatever was written to it; its neighbours read back
  (`DiskInterrupts.RegisterReadsBack`).
- The sector count is never reset and byte addresses of blocks are 32 bits wide: on any controller a write command's first
  sector lands at its address if and only if the address is below 2^23 and the count is a multiple of 2^23
  (`Drivers.CommandLandsAt`; at address 2^23 and count 0 it lands on block 0, `Drivers.WrapsToZero`). A first write leaves
  the disk it should, whatever disk and data, if and only if none of its sectors wraps onto a block that exists
  (`Transfers.WriteIsRight`), and a block is refused if and only if its wrapped address is off the end
  (`Disk.WriteRefused`).
- Of the configuration-space reads only the word-wide one looks at the bus number: a run answers like plain byte
  memories if and only if no access of it shows that (`PciSpace.RunAgrees`).
- A word read at the last byte of the register block and a long read across its end do not agree with the narrower
  reads (`Pci.WordIsTwoBytes`, `Pci.LongIsTwoWords`).
- Inserted whole lines are harmless wherever no byte order mark follows at the start if and only if every line buffer
  they fill is a blank or a comment (`IniComments.ExactlyNeutral`); a comment line longer than the buffer is the usual
  way to fail that (`IniComments.LongCommentLeaks`), and a byte order mark stops counting behind one
  (`IniComments.MarkMustComeFirst`).
- Only the first 49 characters of a section title, and of a name that later lines continue, are kept
  (`IniLines.TitleRun`, `IniLines.FirstRun`).
- The key of a section and a name belongs to no other if and only if neither of them has '='
  (`IniRoundTrip.KeyIsUnique`).
- The write driver's first poll reads port 7 instead of the status register; the driver gets past it if and only if a
  window covers that port or a byte without the busy bit is found there (`Drivers.Driver.WriteSectors`).

## Model

| member | source | states |
|---|---|---|
| GdbCodec.UnhexHexText | gdbserver/gdbserver.cpp:182-209 | hex decoding undoes hex encoding, and the encoding is all hex digits |
| GdbCodec.HexTextIsPlain | gdbserver/gdbserver.cpp:182-193 | encoded data never holds a character that frames, marks or ends a packet |
| GdbCodec.Mem2Hex | gdbserver/gdbserver.cpp:182-193 | writes the two digits of every byte and a terminator, and nothing else in the buffer |
| GdbCodec.Hex2Mem | gdbserver/gdbserver.cpp:197-209 | memory is the old one with exactly the decoded range replaced |
| GdbCodec.HexToInt | gdbserver/gdbserver.cpp:215-237 | stops at the first character that is no hex digit; the value is the digits' value wrapped to a 32-bit int |
| GdbCodec.HexIsExact | gdbserver/gdbserver.cpp:55-67 | the digits of either case, and no other character, have a value, and it is their place in the alphabet |
| GdbCodec.Int32Wraps | gdbserver/gdbserver.cpp:215-237 | what an int holds differs from the exact value by a multiple of 2^32 |
| GdbFraming.ReceiveOne | gdbserver/gdbserver.cpp:78-134 | one turn of the receiver's outer loop is that much of the character-level scanner |
| GdbFraming.GetPacket | gdbserver/gdbserver.cpp:70-135 | the nested loops with the goto compute the scanner's packet, buffer, answers and remaining input |
| GdbFraming.SendFrame | gdbserver/gdbserver.cpp:147-160 | one copy of the frame of the C string in the buffer goes out |
| GdbFraming.PutPacket | gdbserver/gdbserver.cpp:138-164 | a copy per answer that is not '+', and one more |
| GdbReliability.FrameReceived | gdbserver/gdbserver.cpp:88-133 | a clean frame of up to 398 characters is accepted as sent, from mid-hunt or mid-body; only a ':' at index 2 moves its start |
| GdbReliability.CopyReceived | gdbserver/gdbserver.cpp:88-133 | any framed copy is accepted exactly when its checksum digits match and rejected with '-' otherwise |
| GdbReliability.JunkSkipped | gdbserver/gdbserver.cpp:80-80 | input without '$' is ignored |
| GdbReliability.FragmentSkipped | gdbserver/gdbserver.cpp:82-99 | a fragment without '#', of any length and even overflowing the buffer, draws no answer and does not block the next '$' |
| GdbReliability.OverlongIgnored | gdbserver/gdbserver.cpp:86-99 | a body of 399 characters fills the buffer and is given up without an answer |
| GdbReliability.RoundTrip | gdbserver/gdbserver.cpp:70-164 | resynchronisation: after junk and an aborted packet the sent frame is received as exactly its payload, answered with '+' alone |
| GdbReliability.GarbledIsDamaged | gdbserver/gdbserver.cpp:95-108 | replacing any one payload character breaks the checksum |
| GdbReliability.RejectsThenAccepts | gdbserver/gdbserver.cpp:88-133 | any number of damaged copies are each rejected and the first clean one is accepted |
| GdbReliability.Resends | gdbserver/gdbserver.cpp:145-163 | each answer that is not '+' costs exactly one more copy |
| GdbReliability.Recovery | gdbserver/gdbserver.cpp:88-163 | stop-and-wait: with any finite number of one-character corruptions the receiver gets the payload and the sender, fed its answers, sends exactly one copy more than was damaged |
| GdbStub.PatchRegister | gdbserver/gdbserver.cpp:366-366 | eight bytes stored at a register's slot change that register and no other |
| GdbStub.Stub.constructor | gdbserver/gdbserver.cpp:42-67 | buffers and register cache start out as zeros |
| GdbStub.Stub.SetRegister | gdbserver/gdbserver.cpp:523-526 | changes one cache entry and no other |
| GdbStub.Stub.LoadRegistersFromGdbCache | kvm.cpp:400-431 | the vCPU's eighteen general registers become cache entries 0 to 17 |
| GdbStub.Stub.SubmitRegisters | kvm.cpp:350-395 | the cache becomes the vCPU's registers followed by the selectors, with the control registers beside it |
| GdbStub.Stub.Execute | gdbserver/gdbserver.cpp:299-440 | every command, well formed or not, changes cache, memory, vCPU and reply as the interpreter function says, and 'd' alone flips the debug flag |
| GdbStub.MonitorAnswers | gdbserver/gdbserver.cpp:303-321 | the monitor command answers the register display for "regs", nothing for any other name, and changes nothing |
| GdbStub.DisplayTells | gdbserver/gdbserver.cpp:313-319 | the display names the five control registers in order, each with its own value in hex |
| GdbStub.Stub.ServeCommands | gdbserver/gdbserver.cpp:297-445 | the prompt loop computes the state, the output and the remaining input of the whole conversation |
| GdbStub.Stub.BuildStopReply | gdbserver/gdbserver.cpp:265-285 | the report holds the signal and SP, FP and PC in hex, terminated inside the buffer |
| GdbStub.Stub.HandleException | gdbserver/gdbserver.cpp:242-446 | a termination signal sends the exit report and ends; any other sends the stop report and serves commands |
| GdbStub.Stub.HandleDebugExit | kvm.cpp:469-479 | the conversation starts from the submitted registers with the faulting pc in place of rip |
| GdbStub.StopReplyIsPlain | gdbserver/gdbserver.cpp:265-287 | the stop report can travel in a packet |
| GdbSession.PayloadIsPlain | gdbserver/gdbserver.cpp:297-445 | well-formed commands never contain a framing character, nor ':' at index 2 |
| GdbSession.ReadOneRefines | gdbserver/gdbserver.cpp:344-358 | 'p' answers with the register of the abstract target, or E01 past the last |
| GdbSession.WriteOneRefines | gdbserver/gdbserver.cpp:359-375 | 'P' updates one register of the abstract target, or answers E01 |
| GdbSession.ReadMemRefines | gdbserver/gdbserver.cpp:378-392 | 'm' answers with the abstract target's bytes when in range and overruns otherwise |
| GdbSession.WriteMemRefines | gdbserver/gdbserver.cpp:395-410 | 'M' updates the abstract target's bytes when in range and overruns otherwise |
| GdbSession.ExecRefines | gdbserver/gdbserver.cpp:323-440 | g, G, p, P, m and M do what a 24-register map and a byte map do; there is a reply if and only if the request is in range |
| GdbSession.CommandReceived | gdbserver/gdbserver.cpp:70-135 | with no ':' left at index 2 a command arrives at index 0, and leaves none there |
| GdbSession.ExchangeServed | gdbserver/gdbserver.cpp:297-445 | noise, a command and any refusals of its reply amount to one step of the abstract target |
| GdbSession.SessionRefines | gdbserver/gdbserver.cpp:297-445 | every finite session of well-formed in-range commands replies as the abstract target does and keeps the buffer free of a stale ':' |
| GdbSession.StopConversation | gdbserver/gdbserver.cpp:265-445 | the same from the stop report on, with the exact output |
| GdbSession.ExecSyncs | gdbserver/gdbserver.cpp:338-375 | a handled register write makes the vCPU equal to the cache, any other command leaves both alone |
| GdbSession.StaysSynced | gdbserver/gdbserver.cpp:297-445 | once equal, vCPU and cache are equal at the next prompt and when the stop ends, whatever is received |
| GdbSession.SyncedEverAfter | gdbserver/gdbserver.cpp:297-445 | once a G or P has been handled, vCPU and cache are equal at every later prompt of the stop and at its end, whatever is received |
| GdbSession.ResubmitIsIdle | kvm.cpp:350-431 | submitting an equal vCPU again leaves cache entries 0 to 17 as they are |
| GdbSession.ReloadUndoesSubmit | kvm.cpp:350-431 | loading a submitted cache gives the vCPU its own registers back |
| GdbCommands.CommandEnds | gdbserver/gdbserver.cpp:414-436 | after any noise 's' resumes with single steps, 'c' without and 'k' kills; nothing is replied or changed |
| GdbCommands.SessionEnds | gdbserver/gdbserver.cpp:297-445 | a session of commands that ends in one of them: replies and state as in the abstract target, then that end of the stop |
| GdbCommands.QuestionAnswered | gdbserver/gdbserver.cpp:326-331 | '?' is answered by 'S' and two digits that denote the signal, however often the answer is refused |
| GdbCommands.OthersAreEmpty | gdbserver/gdbserver.cpp:299-440 | every command not among the ten letters and the monitor request gets an empty reply and changes nothing |
| GdbCommands.ReadSyntax | gdbserver/gdbserver.cpp:378-392 | 'm' is refused with E01 if and only if digits, a comma and a digit do not follow it |
| GdbCommands.WriteSyntax | gdbserver/gdbserver.cpp:395-410 | 'M' is refused with E02 if and only if digits, a comma, digits and a colon do not follow it |
| GdbCommands.RegisterSyntax | gdbserver/gdbserver.cpp:344-375 | 'p' and 'P' without a number, and 'P' without '=' behind it, are refused with E01 and change nothing |
| GdbCommands.ExitReported | gdbserver/gdbserver.cpp:253-263 | for SIGILL and SIGTERM the client is sent 'X' and two digits that denote the signal, and the connection ends |
| GdbCommands.StopReported | gdbserver/gdbserver.cpp:265-285 | the stop report is 'T', the signal, and the numbers and bytes of registers 7, 6 and 16 |
| GdbCommands.NumberedAsInGdb | gdbserver/gdbserver.h:4-29 | the cache holds all 24 registers under the numbers gdb gives the amd64 registers, selectors included |
| ElfLoader.OneInterpreter | elf/estrattore.cpp:24-29 | no file belongs to both ELF classes, so the interpreters' order does not matter |
| ElfLoader.EntryInFile | elf/elf64.cpp:94-101 | after a successful init every program header lies inside the file |
| ElfLayout.EntryRead | elf/elf64.h:32-41 | bytes laid out as a program header of either class, field by field, are read as that header |
| ElfLayout.HeaderRead | elf/elf64.h:14-29 | bytes laid out as a file header of either class are read as that header, and recognised if and only if it identifies an executable for the class's processor |
| ElfLayout.ExecutableTaken | elf/elf64.cpp:73-113 | a file with a header, its program headers behind it and a readable section table is taken by its own interpreter with its entry point and exactly those program headers |
| ElfLayout.SectionsInFile | elf/elf64.cpp:103-110 | a file is taken only if every section header lies inside it |
| ElfLoader.Executable.NextSegment | elf/elf64.cpp:115-127 | returns the next PT_LOAD header in table order and passes over only others |
| ElfLoader.Executable.CopySegment | elf/elf64.cpp:206-230 | the segment's file bytes, then zeros up to its memory size; all other memory kept |
| ElfLoader.LastCoveringDecides | elf/estrattore.cpp:44-78 | the last accepted segment that covers an address decides its byte |
| ElfLoader.UncoveredKept | elf/estrattore.cpp:44-78 | an address no accepted segment covers keeps its byte |
| ElfLoader.WellFormedCovers | elf/estrattore.cpp:45-57 | a well-formed segment covers exactly its memory range, inside the limit, with file bytes and then zeros |
| ElfLoader.NothingBeyond | elf/estrattore.cpp:54-58 | with well-formed segments nothing at or beyond dest_size is written |
| ElfLoader.LimitIsKept | elf/estrattore.cpp:54-68 | with any headers, nothing at or beyond dest_size changes if and only if the file bytes and the zero fill of every accepted segment end inside |
| ElfLoader.LoadMeaning | elf/estrattore.cpp:41-78 | every byte is the file byte or zero fill of the last PT_LOAD segment in table order that fits and covers it |
| ElfLoader.WellFormedFits | elf/estrattore.cpp:54-68 | well-formed segments never write outside memory |
| ElfLoader.FitsIsExact | elf/estrattore.cpp:54-68 | the condition the loader's memory needs holds if and only if no byte an accepted segment covers lies outside |
| ElfLoader.WrapIsAccepted | elf/estrattore.cpp:54-58 | where address plus size passes 2^64 the size test looks at what is left over |
| ElfLoader.UnseekableStops | elf/elf64.cpp:206-215 | an accepted segment whose offset does not fit a long stops the load |
| ElfLoader.CopyAll | elf/estrattore.cpp:44-78 | the loading loop leaves the image of the segments in order, or gives up on an offset that cannot be sought |
| ElfLoader.LoadSegments | elf/estrattore.cpp:12-82 | loads and returns the entry point exactly when the file is recognised and readable; otherwise it says how it gave up |
| PageTables.StoredLoad | bootloader/Bootloader.cpp:148-178 | a stored table entry is read back and no other entry or byte changes |
| PageTables.FillDirectory | bootloader/Bootloader.cpp:154-167 | the 512 slots of a directory are pages below the size or have their present bit cleared; nothing else changes |
| PageTables.DirectoryAdded | bootloader/Bootloader.cpp:151-170 | one turn of the outer loop adds one directory and keeps all earlier ones |
| PageTables.WindowAdded | bootloader/Bootloader.cpp:172-178 | the four stores for the interrupt controllers complete the tables without disturbing them |
| PageTables.SetupPageTables | bootloader/Bootloader.cpp:129-180 | for every size below 4 GiB the nested loops build exactly the described tables and touch nothing else |
| PageWalk.WalkBuilt | bootloader/Bootloader.cpp:129-180 | the four-level walk is the identity on whole pages of RAM below 3 GiB and on [0xfec00000, 0xff000000), and with the untouched slots absent it faults on every other 48-bit address |
| PageWalk.RamWalked | bootloader/Bootloader.cpp:140-170 | in the low 3 GiB an address is mapped to itself if and only if it lies below the size rounded down to 2 MiB |
| PageWalk.WindowWalked | bootloader/Bootloader.cpp:172-178 | what the walk does in the fourth GiB |
| PageWalk.FarDecides | bootloader/Bootloader.cpp:148-178 | beyond the last directory an address translates as the entry its slot held before says |
| PageWalk.WalkElsewhere | bootloader/Bootloader.cpp:129-180 | whatever the untouched slots held, every address outside RAM pages and window goes exactly where they lead: the full account when they were not absent |
| PageWalk.MappedIsRam | bootloader/Bootloader.cpp:156-157 | the loop's condition on the two indices is the size test on the address |
| PageWalk.RamReachable | bootloader/Bootloader.cpp:140-178 | up to 3 GiB every address below the size is mapped to itself if and only if the size is a multiple of 2 MiB; with the untouched slots absent, and only up to 3 GiB |
| PageWalk.StaleSlotDecides | bootloader/Bootloader.cpp:172-178 | in the fourth GiB outside the window an address translates as the entry its slot held before says |
| PageWalk.StaleSlotMaps | bootloader/Bootloader.cpp:172-178 | where that entry was absent or a large page, the address faults if and only if it was absent or had reserved bits set |
| PageWalk.GuestMemorySize | kvm.cpp:517-523 | every configured size ends up between 8 MiB and 1 GiB and a multiple of 2 MiB |
| PageWalk.SizeIsLeast | kvm.cpp:520-523 | from 8 to 1023 MiB it is the least number of whole 2 MiB pages that holds what was configured, otherwise 8 MiB |
| PageWalk.PermissionsBuilt | bootloader/Bootloader.cpp:148-178 | every entry on the way to a mapped address allows writes and user code |
| PageWalk.ConfiguredRamIsMapped | kvm.cpp:517-523 | whatever is configured, with the untouched slots absent, the walk maps all guest RAM and, below the window, nothing past it |
| BootSequence.DescriptorReadsBack | bootloader/Bootloader.cpp:74-93 | every descriptor field is read back by the processor's layout; the base if and only if it is below 2^24 |
| BootSequence.FillSegmentDescriptor | bootloader/Bootloader.cpp:74-93 | one descriptor is stored at its selector's index, all other memory kept |
| BootSequence.FlatDescriptors | bootloader/Bootloader.cpp:97-125 | the two descriptors are the flat 4 GiB code and data segments |
| BootSequence.FlatMeans | bootloader/Bootloader.cpp:97-125 | base 0, limit 4 GiB, present, highest privilege, readable code and writable data |
| BootSequence.SetupProtectedMode | bootloader/Bootloader.cpp:95-127 | the GDT holds both descriptors and nothing else changes |
| BootSequence.Boot | bootloader/Bootloader.cpp:252-293 | the boot succeeds if and only if both files are taken by an interpreter and can be read; then memory after target load, GDT, page tables and boot code, and the registers the vCPU starts with |
| BootSequence.BootWellFormed | bootloader/Bootloader.cpp:252-293 | well-formed target and boot files boot |
| BootSequence.BootCodeStaysLow | bootloader/Bootloader.cpp:278-281 | loading the boot code changes nothing from 0x10000 on |
| BootSequence.BuiltUnderBoot | bootloader/Bootloader.cpp:265-281 | page tables survive the last load |
| BootSequence.FirstMibKept | elf/estrattore.cpp:44-78 | a target linked above 1 MiB leaves the first MiB alone |
| BootSequence.BootedMachine | bootloader/Bootloader.cpp:252-293 | at the first instruction the target's bytes above 1 MiB are its ELF image, the GDT is intact and the walk maps as described |
| Keyboard.RingPush | frontend/keyboard.cpp:139-141 | the ring's insertion appends to the queue |
| Keyboard.RingPop | frontend/keyboard.cpp:80-85 | the ring's removal takes the queue's head |
| Keyboard.Controller.InsertKeycodeEvent | frontend/keyboard.cpp:116-149 | the ring implementation takes the queue machine's insert step, dropping when disabled or full |
| Keyboard.Controller.ReadRegByte | frontend/keyboard.cpp:23-46 | a read takes the queue machine's step and returns its reply |
| Keyboard.Controller.WriteRegByte | frontend/keyboard.cpp:11-21 | a write takes the queue machine's step |
| Keyboard.StepKeepsInv | frontend/keyboard.cpp:48-149 | every step keeps: queue at most 16, popped + queued = accepted in order, status bit iff non-empty, line = raised, raised only when non-empty, enabled and non-empty only when raised, and an exact account of the edges |
| Keyboard.RunKeepsInv | frontend/keyboard.cpp:48-149 | the same over every interleaving |
| Keyboard.FromPowerOn | frontend/keyboard.cpp:6-9 | from power on the rising edges never exceed the pops, plus one if raised |
| Keyboard.EnabledEdges | frontend/keyboard.cpp:88-114 | while interrupts stay enabled, edges and pops differ by exactly the one edge pending |
| Keyboard.StatusTells | frontend/keyboard.cpp:39-40 | a status read replies with FI set if and only if a keycode is waiting, and changes nothing |
| Keyboard.Configured | frontend/keyboard.cpp:48-73 | the byte written after command 0x60 disables the keyboard by bit 4 and enables interrupts by bit 0; the queue is kept, and the line goes up if keycodes wait |
| Keyboard.OtherCommandIgnored | frontend/keyboard.cpp:48-73 | any other command has no effect |
| Keyboard.InsertTaken | frontend/keyboard.cpp:116-149 | a keycode is queued if and only if the keyboard is enabled and fewer than 16 wait; otherwise nothing changes |
| Keyboard.OtherPortsDead | frontend/keyboard.cpp:11-46 | ports other than 0x60 and 0x64 read 0 and change nothing |
| Keyboard.StatusIsStable | frontend/keyboard.cpp:75-149 | FI in a status reply the single consumer got stays set, and its next data read returns the key that was first then |
| Keyboard.PolledArePopped | frontend/keyboard.cpp:23-46 | the replies a polling consumer gets are the queue's pops, in order |
| Keyboard.HeardArePolled | frontend/keyboard.cpp:23-46 | over any interleaving, a consumer that reads data only after its own last status reply had FI set hears exactly what is taken from the queue |
| Keyboard.Delivery | frontend/keyboard.cpp:75-149 | in any interleaving that drops nothing, polled then queued keycodes are the inserted ones |
| Console.ConsoleInput.AsciiToKeycode | backend/ConsoleInput.cpp:133-158 | the two search loops find the first position in the unshifted, then the shifted table; an unknown character keeps the shift state |
| Console.ConsoleInput.Forward | backend/ConsoleInput.cpp:72-98 | one character inserts exactly its shift change, make and break codes |
| Console.TableIsGood | backend/ConsoleInput.cpp:103-131 | the table's make codes are distinct, below the break bit and no shift codes |
| Console.KeyboardRows | backend/ConsoleInput.cpp:103-131 | the make codes are those of the keys of a PC keyboard, row by row, plain and shifted |
| Console.KeysSent | backend/ConsoleInput.cpp:75-131 | a supported character sends the shift make or break code it needs, if any, then the make and break codes of its key |
| Console.KeysDecode | backend/ConsoleInput.cpp:75-97 | the keycodes of one character decode to it, and leave the encoder's shift state in the decoder |
| Console.DecodeEncode | backend/ConsoleInput.cpp:63-158 | decoding the encoded text gives exactly the supported characters, from any shift state |
| Console.EndToEnd | backend/ConsoleInput.cpp:63-158 | whatever the interleaving, if nothing is dropped the polled codes decode to a prefix of the typed characters and to all of them once the queue is empty, and a consumer that waits for FI hears exactly those codes |
| Disk.AddressWraps | backend/DiskManager.cpp:40-40 | the byte address of a block is that of its index modulo 2^23, so it is the block's own if and only if the index is below that |
| Disk.WriteRefused | backend/DiskManager.cpp:67-71 | a write changes no disk byte, whatever is written, if and only if the wrapped address is off the end |
| Disk.DiskManager.constructor | backend/DiskManager.cpp:32-36 | keeps a readable file of the right size and replaces any other or a missing one, completely for sizes below 2 GiB |
| Disk.DiskManager.BuildDisk | backend/DiskManager.cpp:8-17 | below 2 GiB a new file has the right size and repeats one block of whatever the buffer held |
| Disk.DiskManager.Read | backend/DiskManager.cpp:39-64 | the status of every access, and exactly the addressed block in the buffer, or the buffer left alone |
| Disk.DiskManager.Write | backend/DiskManager.cpp:67-92 | the status of every access, and exactly one block of the file replaced, or none |
| Disk.HardDisk.constructor | frontend/HardDisk.cpp:6-11 | the registers and counters of a fresh controller |
| Disk.HardDisk.DoCommand | frontend/HardDisk.cpp:129-160 | what a command changes, with the address decoded after the first fetch |
| Disk.HardDisk.WriteBrRegister | frontend/HardDisk.cpp:173-197 | a data word goes into the buffer; the last one stores the sector and updates status, counters and interrupt |
| Disk.HardDisk.ReadBrRegister | frontend/HardDisk.cpp:199-222 | a data word comes out of the buffer; the last one ends the transfer or fetches the next sector |
| Disk.HardDisk.WriteRegByte | frontend/HardDisk.cpp:14-66 | a byte write loads a register, sets interrupts or starts a command |
| Disk.HardDisk.ReadRegByte | frontend/HardDisk.cpp:69-95 | a byte read, with the status read clearing the interrupt |
| DiskInterrupts.RegisterReadsBack | frontend/HardDisk.cpp:14-95 | sector count, sector number and cylinder registers read back what was written and no other register changes; the drive and head register reads 0 |
| DiskInterrupts.CommandTakesOver | frontend/HardDisk.cpp:129-160 | every command takes over count and 28-bit address, and one that is neither a read nor a write does nothing else |
| DiskInterrupts.StepRaises | frontend/HardDisk.cpp:14-222 | what one access does to the line, the enable flag and the sector counter |
| DiskInterrupts.RaisedExactly | frontend/HardDisk.cpp:14-222 | after any run from a low line it is up if and only if a sector was moved with interrupts enabled and no status read or control write but 0 followed |
| DiskInterrupts.EnabledExactly | frontend/HardDisk.cpp:37-60 | after any run interrupts are enabled if and only if the last control write was 0 |
| Transfers.WriteAdvances | frontend/HardDisk.cpp:173-197 | for any address, one word moves a write on; at a sector's end the sector is on the disk and the status requests data only, or is clear after the last |
| Transfers.ReadAdvances | frontend/HardDisk.cpp:199-222 | one word of a read is the right word of the sector being read, and at its end the next one has been fetched |
| Transfers.SectorGoesTo | backend/DiskManager.cpp:68-68 | sector i of a transfer is the one that goes to a block if and only if the block is lba + i modulo 2^23 |
| Transfers.WrittenSectors | backend/DiskManager.cpp:67-92 | after a write exactly the blocks the sectors go to hold the words, little-endian; all others are unchanged |
| Transfers.SectorsInPlace | backend/DiskManager.cpp:67-92 | up to block 2^23 those are the blocks lba to lba + n - 1, in order |
| Transfers.WriteIsRight | backend/DiskManager.cpp:67-71 | a first write leaves sector i at block lba + i, or nowhere past the end, for every disk and data if and only if no sector wraps onto a block that exists |
| Transfers.ReadUndoesWrite | frontend/HardDisk.cpp:162-222 | words written from sector 0 on read back unchanged and in order |
| Transfers.SectorThatExists | frontend/HardDisk.cpp:162-163 | a sector whose wrapped block exists is that block, except that the first is always block 0 |
| Transfers.SectorOffTheEnd | backend/DiskManager.cpp:41-43 | any other sector but the first repeats the one before |
| Transfers.FirstReadIsRight | frontend/HardDisk.cpp:141-155 | a first read of sectors that exist gets what it asked for, whatever the disk and the buffer held, if and only if its address is 0 |
| Drivers.LbaComputed | frontend/HardDisk.cpp:225-230 | the 28 address bits a driver spreads over four registers come back together |
| Drivers.ReadFetches | frontend/HardDisk.cpp:141-155 | on any controller a read command first fetches the block the old address and count point to |
| Drivers.ReadFetchesRight | frontend/HardDisk.cpp:141-163 | that block is the one asked for if and only if they already pointed there |
| Drivers.ReadCommanded | frontend/HardDisk.cpp:129-160 | a first read command fetches block 0 and only then takes over the address |
| Drivers.WriteGoesTo | frontend/HardDisk.cpp:129-181 | on any controller a write command's first sector goes to block address plus count, modulo 2^23 |
| Drivers.CommandLandsAt | frontend/HardDisk.cpp:129-181 | it lands at its own address if and only if the address is below 2^23 and the count a multiple of that |
| Drivers.WrapsToZero | backend/DiskManager.cpp:68-68 | an input that fails with count 0: address 2^23 lands on block 0 |
| Drivers.SecondWriteMisses | frontend/HardDisk.cpp:179-187 | a second write's first sector goes to the block as many too far as the first write had sectors, modulo 2^23, and never to its own |
| Drivers.Driver.PollPort7 | target-sources/pci-hdd-1.cpp:33-36 | the first poll ends if and only if a window covers port 7 or one of the bytes found there has the busy bit clear |
| Drivers.Driver.WriteSectors | target-sources/pci-hdd-1.cpp:27-52 | against a fresh controller, for any address and any count, the write driver, once past its first poll, ends with every sector poll succeeding at once, status clear, and exactly the blocks its sectors go to replaced; otherwise it never touches the disk |
| Drivers.Driver.ReadSectors | target-sources/pci-hdd-2.cpp:26-53 | against a fresh controller, for any address and any count, the read driver ends with every poll succeeding at once, the disk unchanged, and the words the controller really delivers |
| Drivers.RoundTrip | target-sources/pci-hdd-2.cpp:26-53 | what one controller's write driver wrote from sector 0 on, another's read driver on the same file returns |
| Pci.SetThenGet | frontend/PCIDevice.cpp:52-103 | what was written is read back, and accesses that share no byte do not see each other |
| Pci.ClassAt | frontend/PCIDevice.cpp:29-33 | the class code is the three bytes behind the revision, the interface first |
| Pci.OnesAre | frontend/pci_host.cpp:105-161 | an absent device reads as all bits set, at every width |
| Pci.WordIsTwoBytes | frontend/PCIDevice.cpp:79-95 | a word read is its two byte reads, except over the last byte when it is nonzero |
| Pci.LongIsTwoWords | frontend/PCIDevice.cpp:87-103 | a long read is its two word reads, except across the end over a nonzero word |
| Pci.Device.constructor | frontend/PCIDevice.cpp:4-12 | vendor, device and class code are readable from the raw bytes and the BARs are zero |
| Pci.Device.WriteReg | frontend/PCIDevice.cpp:52-77 | a write of any width changes exactly its bytes, or nothing when out of bounds |
| Pci.Device.ReadReg | frontend/PCIDevice.cpp:79-103 | a read of any width gives its little-endian bytes, or 0 when out of bounds |
| Pci.Device.GetBar | frontend/PCIDevice.cpp:35-41 | the typed getter agrees with the raw bytes |
| Pci.Device.SetBar | frontend/PCIDevice.cpp:43-49 | the typed setter is a long write |
| Pci.HostBridge.constructor | frontend/pci_host.cpp:7-38 | ATA functions get the legacy ports, other devices are left alone, nothing is promised of the decoded fields, and with exactly one device the log line runs past it |
| Pci.HostBridge.WriteReg | frontend/pci_host.cpp:46-102 | the first address write makes the decoded fields usable; any write changes the address register or one device's bytes |
| Pci.HostBridge.ReadReg | frontend/pci_host.cpp:105-161 | a port read, with the values for absent devices and functions |
| PciSpace.ScatterStores | frontend/PCIDevice.cpp:52-77 | a write over separate byte memories changes its own bytes of its own device only |
| PciSpace.ReplyAgrees | frontend/pci_host.cpp:105-161 | the bridge answers as one byte memory per device if and only if the access is not a word read on another bus of something else than 0xffff |
| PciSpace.StepStands | frontend/pci_host.cpp:46-172 | every access keeps bridge and byte memories in step |
| PciSpace.RunAgrees | frontend/pci_host.cpp:46-172 | any run of accesses on any buses leaves the byte memories' bytes, and has their replies if and only if none of its accesses is such a word read |
| PciSpace.RunRefines | frontend/pci_host.cpp:46-172 | in particular every run on bus 0 has the byte memories' replies |
| PciSpace.DecodedStands | frontend/pci_host.cpp:165-172 | after an address write the bridge stands for some byte memories |
| AtaBridge.GoodReaches | kvm.cpp:763-854 | with good bases every access to both windows, of any width or count, is dispatched to the disk and served at its legacy port |
| AtaBridge.BarsReachDisk | kvm.cpp:763-854 | the whole disk is reachable if and only if the two windows are 16-bit, apart from each other and clear of the fixed ports |
| AtaBridge.Relocation | frontend/PCI_ATA.cpp:13-63 | any run of disk accesses at relocated bases gives the replies, the controller and the disk of the same run at 0x1F0 and 0x3F6 |
| AtaBridge.TranslatedRight | frontend/PCI_ATA.cpp:18-21 | a port inside either of two separate windows becomes the legacy port of the same register |
| AtaBridge.FixedRoutes | kvm.cpp:763-834 | keyboard, display, the four serial ports and the host bridge have their ports whatever the disk's bases are; a port that is nobody's is unhandled |
| AtaBridge.ServedExactly | frontend/PCI_ATA.cpp:13-63 | with good bases a byte or word access of the command window is served alone, one that is wider or repeated not at all, and one in the control window always as a single byte |
| AtaBridge.DriverReads | target-sources/pci-hdd-1.cpp:61-62 | the word and longs a driver reads from configuration space are the upper class code and the two bases |
| AtaBridge.AtaStarts | frontend/pci_host.cpp:24-29 | a starting bridge gives an IDE controller the bases 0x1f0 and 0x3f6, which are good ones, and keeps every other byte and device |
| AtaBridge.Bridge.DoPort | kvm.cpp:836-861 | an access at any port, single or repeated, of one, two or four bytes, does to the disk what the dispatch order and the two windows say |
| AtaBridge.Bridge.DoAccess | frontend/PCI_ATA.cpp:13-63 | the same for a register named by its window and offset, with the base registers unchanged |
| IniText.RStripAt | INIReader.h:124-130 | cuts trailing whitespace in place and touches nothing in front of the string or behind its terminator |
| IniText.LSkipAt | INIReader.h:133-138 | points at the first character that is not whitespace |
| IniText.FindAt | INIReader.h:143-158 | points at the first of the characters or the first ';' after whitespace, whichever comes first |
| IniText.StrNCpy0 | INIReader.h:161-166 | keeps at most 49 characters, terminated |
| IniParser.Parser.Fgets | INIReader.h:196-196 | a line up to and with its newline, or 199 characters of it |
| IniParser.Parser.DoLine | INIReader.h:195-269 | one line, cut up in place, has exactly the meaning its text has |
| IniParser.Reader.ValueHandler | INIReader.h:426-436 | values of one key are joined by newlines and the section is recorded |
| IniParser.Reader.ParseStream | INIReader.h:169-278 | the loop over the line buffer parses the whole text |
| IniParser.Reader.constructor | INIReader.h:365-368 | the store and the error of the parsed file, or -1 when it cannot be opened |
| IniParser.Reader.Lookup | INIReader.h:380-384 | the stored value or the default |
| IniLines.LineTaken | INIReader.h:196-196 | a line of up to 199 characters and its newline are parsed as that line |
| IniLines.SpaceIs | INIReader.h:124-138 | whitespace is what isspace says in the C locale |
| IniLines.ValueBehind | INIReader.h:216-221 | blanks in front of a value, blanks behind it and a comment behind blanks are no part of it |
| IniLines.FirstMeans | INIReader.h:244-260 | a name, '=' or ':', and a value, with blanks around each and a comment behind, mean that name with that value |
| IniLines.FirstRun | INIReader.h:244-260 | such a line stores the value in the open section and leaves the first 49 characters of the name open |
| IniLines.MoreRun | INIReader.h:214-225 | an indented line, its blanks and comment left out, is one more line of the open name's value |
| IniLines.TitleRun | INIReader.h:227-241 | a title opens its section by its first 49 characters and closes the name, whatever follows the bracket |
| IniLines.LeadIgnored | INIReader.h:207-260 | without an open name leading blanks do not matter |
| IniLines.BadTitle | INIReader.h:227-241 | a title line is an error if and only if no ']' comes before a comment |
| IniLines.BadPair | INIReader.h:242-264 | any other line is an error if and only if no '=' or ':' comes before a comment |
| IniLines.FirstBadReported | INIReader.h:237-275 | over any text the error is 0 if and only if no line is bad where it stands, and otherwise the number of the first that is |
| IniRoundTrip.LowerAgrees | INIReader.h:420-423 | two names are folded alike if and only if they differ in the case of A to Z alone |
| IniRoundTrip.MakeKeyInjective | INIReader.h:418-424 | for names without '=' keys agree if and only if section and name agree up to case |
| IniRoundTrip.KeyIsUnique | INIReader.h:418-424 | a key belongs to no other section and name if and only if neither of them has '=' |
| IniRoundTrip.SegmentsRun | INIReader.h:214-260 | a name and its continuation lines store their segments joined by newlines |
| IniRoundTrip.ItemsRun | INIReader.h:195-269 | running over all lines of a file puts every entry in the store, in order |
| IniRoundTrip.RoundTrip | INIReader.h:169-278 | parsing a rendered configuration, with blanks, comments behind values and titles, and either separator, reports no error, Get returns every value under every spelling of its name and the default for every other name, and the sections are those with entries |
| IniComments.ParseTextJoin | INIReader.h:196-196 | whole lines are parsed before and independently of what follows |
| IniComments.ShiftedText | INIReader.h:196-275 | parsing does not depend on line numbers beyond reporting them |
| IniComments.ErrorWasRead | INIReader.h:237-264 | the reported line is one that has been read |
| IniComments.ShortLineIsNeutral | INIReader.h:207-212 | a comment or blank line that fits the buffer is neutral |
| IniComments.CommentsAreNeutral | INIReader.h:195-278 | inserting or deleting comment and blank lines, except in front of a byte order mark, keeps values, sections and whether there is an error, and the reported line moves with the line it names |
| IniComments.ExactlyNeutral | INIReader.h:196-275 | whole lines change neither values nor sections nor whether there is an error, wherever they are inserted, if and only if every buffer they fill is neutral |
| IniComments.TextShows | INIReader.h:196-275 | after n=v any text stores something, is an error, or leaves n open exactly when it is neutral |
| IniComments.LongCommentLeaks | INIReader.h:196-196 | an input that is not neutral: what follows the 199th character of a comment line is read as a line |
| IniComments.MarkSkipped | INIReader.h:201-206 | a byte order mark at the very start is skipped |
| IniComments.MarkMustComeFirst | INIReader.h:201-206 | an input for the other limit: a comment in front of a marked first line makes the mark part of its name |

## Left out

- GdbStub.Stub.Execute: the end of the process on 'k' is the outcome `Killed`; sequence ids are answered as the code does but no claim is made about sessions that use them.
- GdbStub.Stub.SubmitRegisters: one statement per register in the source, a loop over the same entries in the same order here; the ioctls that read the registers are assumed to succeed.
- GdbFraming.Link.GetDebugChar: an error or the end of the connection is not modelled; a client that stops sending leaves the stub waiting.
- GdbSession.SessionRefines: fields below 2^31 and ranges inside the guest memory, which `ExecRefines` shows to be exactly what the unchecked memory commands need.
- ElfLoader.LoadSegments: a header table whose entries are shorter than a program header ends in `BadTable`, where the source would read past its buffer; page-at-a-time iteration (`prossima_pagina`, `copia_pagina`) is not used by the loader and not modelled.
- PageWalk.WalkBuilt: that other addresses fault needs the slots the builder leaves alone to have been absent; the memory comes from `aligned_alloc` and is not cleared. `WalkElsewhere` says exactly where those addresses go otherwise.
- BootSequence.Boot: the control registers, segment registers and the ioctls that install them; a failed load ends in `GaveUp`.
- Keyboard.Controller.SetIrqLine: stands for the ioctl on the interrupt line, assumed to succeed.
- Console.ConsoleInput.Forward: reading the terminal; the interleavings with the guest are in `Keyboard` and in `Console.EndToEnd`.
- Disk.DiskManager.Read: the file is looked at once per access, where the source checks its size before and after.
- Disk.DiskManager.BuildDisk: past 2 GiB the int index of the source's loop overflows, so nothing is promised of the file; making a smaller file is assumed to succeed.
- Disk.HardDisk.constructor: the file behind a controller has the size the manager expects and can be written, as after a successful start; the controller ignores the manager's status.
- Disk.HardDisk.ReadBrRegister: reading past the sector buffer, or before its word view was set up, is the outcome `fault`; the disk's interrupt line is the flag `interruptRaised`.
- Drivers.Driver.WriteSectors: the first command on a fresh controller; `WriteGoesTo` and `CommandLandsAt` say where a later one starts. A first poll that never ends shows as `ok` being false once the given bytes are used up.
- Drivers.Driver.ReadSectors: the first command on a fresh controller; `ReadFetches` says what a later one starts with. Mixed reads and writes count the buffer position in different units and are not followed word by word.
- AtaBridge.Bridge.DoPort: of a wide or repeated read in the control window only the byte that is served is given; the rest of the transfer buffer is whatever it was.
- IniParser.Reader.ParseStream: characters are plain characters in the C locale; the numeric, real and boolean getters are left out.
- KVM and socket calls, threads as such, terminal control and logging.
- Display, serial ports, the APIC stub and the debug server: thin registers and network plumbing with only easy claims.
