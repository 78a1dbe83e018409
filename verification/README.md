# HAL9000: a verified model of its protocols, codecs and allocators

HAL9000 is a teaching operating system. Its tree carries the ACPI component headers, its own
kernel and common library, and a post-build script that copies applications onto a virtual
disk. This project models the parts of it that decide something hard, and proves what they
promise:

- **Locks.** Three protocols, each a state machine over any number of threads or processors and
  over every interleaving. `MutexOrder` is the ordering rule of the ACPI subsystem mutexes: no
  deadlock, and last-in first-out releases. `RwSpinlock` is the reader/writer spinlock at the
  granularity of its interlocked instructions. `HalMutex` is the blocking mutex together with
  the part of the scheduler that puts a waiter to sleep and wakes it: mutual exclusion,
  first-come first-served hand-over, no lost wake-up, and progress under every fair scheduler.
- **Bit fields.** `Fields` holds the laws of ACPI_GET_BITS and ACPI_SET_BITS for any fields and
  any run of writes; `Registers` those of the PM1/PM2 register updates; `Pld` the `_PLD` codec.
- **Encodings.** `ArgLists` (argument lists of opcodes and predefined methods, and the
  PACKAGE_INFO overlay), `Resources` (resource descriptor streams and the walk over resource
  lists), `ByteMoves` (the ACPI_MOVE macros of three configurations), `Rounding` (power-of-two
  arithmetic).
- **Memory.** `Bitmaps` is the bitmap of CommonLib on its byte buffer, and `Pmm` the physical
  memory manager built on it.
- **Post-build script.** `Snapshots` (which virtual disk is the latest) and `VmManager` (mount,
  copy and unmount).

`Bits` and `Bytes` are the common ground: the C operators on unbounded naturals, with the word
size an explicit parameter, and integers in memory on hosts of either byte order. Code that
changes things in place is a class or a method on an array, proved against a function of the
old contents; code made of expressions is functions and lemmas. Interleavings are runs: a
sequence of steps, of which each names who moves.

## What the code does that its documentation does not say

- ACPI_MASK_BITS_ABOVE is documented as a mask of the bits at the position and above. It is the
  mask of the bits below the position, and ACPI_MASK_BITS_BELOW is its complement
  (`Rounding.MaskDecomposition`).
- The spinlock counts readers and waiting writers in 16 bits. With more than 2^16 processors a writer can join
  2^16 readers, and a reader can overtake 2^16 writers; mutual exclusion and writer priority hold
  exactly up to that number (`RwSpinlock.MutualExclusion`, `RwSpinlock.WriterPriority`).
- Initialisation of the physical memory manager rounds the base of a region up but computes
  the number of frames from the whole length. It frees exactly the frames inside the region iff
  the region is shorter than a frame or the remainder of its length covers the distance to its
  first frame boundary (`Pmm.ReleasesExactlyInside`); otherwise it also frees the frame that
  straddles the end (`Pmm.StraddlingRegion`). Where nothing lies above such a region, or above a
  usable region shorter than a frame, initialisation fails an assertion instead
  (`Pmm.TopmostFits`, `Pmm.HalfAPageStops`).
- The assertion that guards a range of bits subtracts unsigned integers. Ranges longer than the
  whole bitmap pass it when the subtraction wraps around, and leave the bitmap; nine bits of a
  bitmap of eight already leave the buffer. Of the calls that pass, exactly those that ask for no
  more bits than there are stay in the bitmap (`Bitmaps.AssertionProtects`,
  `Bitmaps.NineBitsOfEight`), and the same holds of frames in `Pmm.Manager.Release`.
- A failing mount command does not make `mount` return False: its output is not captured, so
  the error message itself raises (`VmManager.Manager.Mount`). After a copy that raises, or a
  disk that does not appear, the disk stays mounted (`VmManager.CopyApplications`).
- ARG_COUNT_IS_MINIMUM is invisible to the count and to the four types, and to every later
  read except the fifth (`ArgLists.MinimumFlagInvisible`).
- The ACPI_MOVE macros agree on operands that lie apart, and not otherwise: a word move tolerates
  every overlap, the bytewise ones only some (`ByteMoves.OverlapExact`).
- ACPI_ROUND_UP and ACPI_ROUND_UP_TO differ on operands narrower than ACPI_SIZE whose sum wraps
  (`Rounding.NarrowOperandsAgree`).
- PACKAGE_INFO is written through a 16-bit member and read back as two bytes, or as a byte and
  half of another 16-bit member. On a big-endian host the second layout is right exactly when
  the last two arguments are equal, the first and third exactly when both are zero
  (`ArgLists.PackageInfoNeedsLittleEndian`, `ArgLists.EqualArgumentsMisread`).
- The comment in `get_latest_vmdk` relies on snapshot numbers of equal width. With numbers of
  two different widths there is always a directory for which an older snapshot is chosen, such as
  9 over 10 (`Snapshots.FixedWidthNeeded`, `Snapshots.NineBeforeTen`).

## Model

| member | source | states |
|---|---|---|
| MutexOrder.StepOrdered | acpi/inc/aclocal.h:146-166 | every accepted or refused step keeps: a waiting thread owns only mutexes below the one it waits for |
| MutexOrder.LockDiscipline | acpi/inc/acexcep.h:191-194 | over every run, each thread's history replays on a stack (releases are LIFO), and what remains is strictly increasing and exactly what the table records |
| MutexOrder.TopIsLargest | acpi/inc/acexcep.h:324-327 | the release of an owned mutex is accepted iff it is the one most recently taken |
| MutexOrder.AcquireExact | acpi/inc/aclocal.h:150-151 | told from the stack of what a thread holds: an acquire is accepted iff the mutex lies above its top, is a double acquire iff the mutex is in it, and out of order otherwise |
| MutexOrder.ReleaseExact | acpi/inc/acexcep.h:191-194 | a release is accepted iff the mutex is the top, is unowned iff it is not in the stack, and out of order otherwise |
| MutexOrder.RequestHonoured | acpi/inc/aclocal.h:146-166 | after any run a thread that does not wait may ask for any mutex, and waits for it iff its history puts it above all it holds; otherwise nothing changes |
| MutexOrder.ReleaseHonoured | acpi/inc/acexcep.h:324-327 | and may release any mutex, which frees it iff it is the last one taken and not given back |
| MutexOrder.FreeMutexGranted | acpi/inc/aclocal.h:191-203 | a thread that waits for a free mutex can be served at once, and then owns it |
| MutexOrder.NoDeadlock | acpi/inc/aclocal.h:150-151 | in no reachable state, for any number of threads and mutexes, does a chain of waits-for close into a cycle |
| MutexOrder.SomeOwnerRuns | acpi/inc/aclocal.h:191-203 | if a thread is blocked, some mutex has an owner that is not blocked |
| MutexOrder.EveryRunWindsDown | acpi/inc/aclocal.h:146-151 | every run extends, by serving waiters and accepted releases alone, to one that ends with every waiter served and every mutex free |
| MutexOrder.EveryContinuationWindsDown | acpi/inc/aclocal.h:146-151 | after any run, every continuation by such actions is no longer than what is outstanding, and cannot be extended iff every waiter is served and every mutex free |
| MutexOrder.AcceptedIsServed | acpi/inc/aclocal.h:146-151 | after any run, an accepted request is served in every continuation by grants and accepted releases that cannot be extended |
| MutexOrder.RefusalIsNeeded | acpi/inc/acexcep.h:191-194 | in a reachable state, accepting what AE_ACQUIRE_DEADLOCK refuses makes two threads wait for each other (which requests it refuses: MutexOrder.AcquireExact) |
| RwSpinlock.StepCounters | src/CommonLib/src/rw_spinlock.c:19-101 | every atomic instruction keeps the 16-bit counters equal, modulo 2^16, to the processors they stand for |
| RwSpinlock.RunCounted | src/CommonLib/src/rw_spinlock.c:19-101 | so they do in every run of any number of processors |
| RwSpinlock.StepGate | src/CommonLib/src/rw_spinlock.c:31-69 | ActiveWriter always counts the writers and the readers posing as one, and they are at most one |
| RwSpinlock.MutualExclusion | src/CommonLib/src/rw_spinlock.c:19-101 | a writer is alone inside in every run of n processors iff n is at most 2^16 |
| RwSpinlock.WriterJoinsReaders | src/CommonLib/src/rw_spinlock.c:33-67 | beyond 2^16 processors, a schedule after which a writer and readers are inside together |
| RwSpinlock.ReadersShare | src/CommonLib/src/rw_spinlock.c:46-69 | any number of processors can be inside as readers at once |
| RwSpinlock.AssertionsHold | src/CommonLib/src/rw_spinlock.c:63-85 | the two assertions that ActiveWriter is 1 hold whenever they are reached, for any number of processors |
| RwSpinlock.WriterPriority | src/CommonLib/src/rw_spinlock.c:52-58 | in every run of n processors, no spinning reader gets in while a writer spins, iff n is at most 2^16 |
| RwSpinlock.ReaderOvertakes | src/CommonLib/src/rw_spinlock.c:33-58 | beyond 2^16 processors, a schedule after which a reader gets in past 2^16 spinning writers |
| RwSpinlock.SomeoneMoves | src/CommonLib/src/rw_spinlock.c:19-101 | if any processor is between acquire and release, some processor can take a step that changes the state |
| RwSpinlock.AlwaysReleasable | src/CommonLib/src/rw_spinlock.c:19-101 | from every reachable state a continuation without new acquires brings every processor out with all counters zero |
| RwSpinlock.ChangesCounted | src/CommonLib/src/rw_spinlock.c:19-101 | in every run without new acquires, the turns that change the state are exactly the instructions executed of those left |
| RwSpinlock.NoChangeMeansIdle | src/CommonLib/src/rw_spinlock.c:19-101 | a state that no such turn changes is exactly the initial one |
| RwSpinlock.EveryFairRunDrains | src/CommonLib/src/rw_spinlock.c:19-101 | after any run, every continuation without acquires in which each processor gets enough turns, in any order, ends in the initial state (what acquires do: RwSpinlock.AcquireLinesUp) |
| RwSpinlock.AcquireLinesUp | src/CommonLib/src/rw_spinlock.c:31-58 | in every reachable state, whatever the counters hold, an acquire makes a processor that is outside one more counted waiter, or a spinning reader, and changes nothing else |
| RwSpinlock.WriterEntersExactly | src/CommonLib/src/rw_spinlock.c:35-39 | up to 2^16 processors, a spinning writer gets in iff every processor is outside or spinning |
| RwSpinlock.ReaderEntersExactly | src/CommonLib/src/rw_spinlock.c:50-58 | up to 2^16 processors, a spinning reader gets in iff every processor is outside, a spinning reader or reading |
| RwSpinlock.ComesOutWithLock | src/CommonLib/src/rw_spinlock.c:19-70 | in every run a processor comes out of an acquire only as a writer, or only as a reader, as it asked |
| RwSpinlock.EveryAcquireGetsThrough | src/CommonLib/src/rw_spinlock.c:19-70 | after any run, a processor that acquires has the lock, in the mode asked for, at some point of every fair continuation |
| RwSpinlock.MovesUnlessSpinning | src/CommonLib/src/rw_spinlock.c:41-98 | past the exchange nothing holds a processor up |
| HalMutex.StepInvariant | src/HAL9000/src/mutex.c:25-113 | every step keeps: who has which spinlock, the waiting list holds each sleeper once, the holder is the one thread that owns the mutex |
| HalMutex.MutualExclusion | src/HAL9000/src/mutex.c:25-70 | in every run at most one thread is past MutexAcquire, and it is the recorded Holder |
| HalMutex.FirstComeFirstServed | src/HAL9000/src/mutex.c:93-104 | the threads handed the mutex are a prefix of those that joined the list, and the list is the rest of it in order |
| HalMutex.NewcomersQueueUp | src/HAL9000/src/mutex.c:49-58 | in every reachable state a thread that looks at Holder joins behind those that wait, and takes the mutex iff nobody has it, and then nobody waits |
| HalMutex.WayOfThread | src/HAL9000/src/mutex.c:25-113 | in every reachable state a thread moves only along the path of the code, by its own steps or woken by the one that hands it the mutex; so it leaves MutexAcquire only as the holder |
| HalMutex.HeldUpExactly | src/HAL9000/src/mutex.c:25-113 | a step changes nothing iff the thread sleeps, finds the spinlock it needs taken, is outside and does not acquire, or acquires beyond the permitted depth |
| HalMutex.ComesOutHolding | src/HAL9000/src/mutex.c:25-70 | in every run a thread inside MutexAcquire stays in it or holds the mutex at some point |
| HalMutex.EveryAcquireGetsThrough | src/HAL9000/src/mutex.c:25-70 | after any run, a thread that acquires holds the mutex at some point of every fair continuation |
| HalMutex.NestingCounted | src/HAL9000/src/mutex.c:39-89 | a thread that returns from MutexAcquire holds the mutex once, and from then on as often as its own nested calls say, whatever others do, until the release that gives it up |
| HalMutex.WakeUpIsSafe | src/HAL9000/src/thread.c:521-540 | the waker gets the BlockLock exactly when the other thread is asleep, so the state assertion holds; a woken thread finds itself Holder; no thread outside is Holder |
| HalMutex.StepDescends | src/HAL9000/src/mutex.c:72-113 | every step that is not a new acquire either changes nothing or leaves less work |
| HalMutex.ChangesBounded | src/HAL9000/src/mutex.c:25-113 | in every run without new acquires, at most as many turns change the state as there was work |
| HalMutex.NoChangeMeansIdle | src/HAL9000/src/mutex.c:25-113 | a state that no such turn changes is exactly one with every thread outside |
| HalMutex.EveryFairRunDrains | src/HAL9000/src/mutex.c:25-113 | after any run, every continuation without acquires in which each thread gets enough turns, in any order, ends with all threads outside, the mutex free and all waiters served in order |
| HalMutex.SomeoneMoves | src/HAL9000/src/thread.c:495-540 | while any thread is inside, asleep or not, some thread can take such a step |
| HalMutex.EveryWaiterServed | src/HAL9000/src/mutex.c:56-113 | after any run, a continuation without acquires leaves every thread outside, the mutex free, and everyone who ever joined the list served in order |
| Fields.GetBitsIsDivMod | acpi/inc/acmacros.h:362-363 | reading a field is division by 2^position and remainder by 2^width |
| Fields.SetThenGet | acpi/inc/acmacros.h:362-366 | a field read after a write is the OR of old and written value, so it is the value written iff the old one adds no bit |
| Fields.SetRunBits | acpi/inc/acmacros.h:365-366 | bit for bit, what any run of writes leaves |
| Fields.SetRunField | acpi/inc/acmacros.h:362-366 | after any run of writes to this field and to fields disjoint from it, the field holds the OR of its old value and all values written to it |
| Fields.SetRunsCommute | acpi/inc/acmacros.h:365-366 | any two runs of writes commute |
| Fields.SetRunDependsOnWritten | acpi/inc/acmacros.h:362-366 | for pairwise disjoint fields two runs leave the same word iff the ORs of what each wrote to each field agree up to what was there |
| Registers.ApplyBits | acpi/inc/acmacros.h:351-358 | bit for bit, a field insert merged with the preserved bits |
| Registers.PreservedOverRuns | acpi/inc/aclocal.h:1083-1106 | no run of updates changes a preserved bit |
| Registers.UntouchedField | acpi/inc/acmacros.h:354-358 | a run of inserts leaves every field it misses as it was |
| Registers.LastInsertWins | acpi/inc/acmacros.h:351-358 | in any run a field reads as the last value inserted, reduced to its width |
| Registers.StatusTableWellFormed | acpi/inc/aclocal.h:1125-1169 | every PM1 status mask is the contiguous field at its position, and the fields are disjoint |
| Registers.EnableTableWellFormed | acpi/inc/aclocal.h:1144-1176 | the same for PM1 enable |
| Registers.ControlTablesWellFormed | acpi/inc/aclocal.h:1151-1184 | the same for PM1 and PM2 control |
| Registers.Pm1PreservedBits | acpi/inc/aclocal.h:1103-1106 | the preserved mask is exactly bits 3 to 9, 14 and 15 |
| Registers.Pm1ControlPartition | acpi/inc/aclocal.h:1083-1106 | each of the 16 bits is either preserved or in a named field, never both |
| Registers.TableRuns | acpi/inc/acmacros.h:351-358 | for any table of disjoint, unpreserved fields, any run keeps the preserved bits and loses no field update |
| Registers.Pm1ControlRuns | acpi/inc/aclocal.h:1103-1106 | so on PM1 control, with its preserved bits |
| Registers.Pm1StatusRuns | acpi/inc/aclocal.h:1083-1087 | so on PM1 status, with bit 11 preserved |
| Registers.Pm2ControlRuns | acpi/inc/aclocal.h:1108 | so on PM2 control, with all but bit 0 preserved |
| Registers.Register.Insert | acpi/inc/acmacros.h:354-358 | the register in place: the field reads as the value, preserved and other bits unchanged |
| Pld.SetThenGetAll | acpi/inc/acmacros.h:362-366 | for any layout of disjoint slots: SETs in any order from zero, then GET, give each value reduced to its width, and zero where nothing was set |
| Pld.LayoutWellFormed | acpi/inc/acbuffer.h:234-315 | the 25 slots lie within their words and are pairwise disjoint |
| Pld.LayoutCovers | acpi/inc/acbuffer.h:234-315 | together they cover every bit but 28 to 31 of the fourth word |
| Pld.GetsAtDocumentedOffset | acpi/inc/acbuffer.h:234-315 | every GET macro reads the documented number of bits at the documented offset of the buffer taken as one 160-bit number |
| Pld.PldSetThenGet | acpi/inc/acbuffer.h:234-315 | the round trip SET then GET for the header's layout |
| Pld.PldGetThenSet | acpi/inc/acbuffer.h:234-315 | GET-all then SET-all in any complete order rebuilds the buffer iff bits 28 to 31 of the fourth word are zero |
| Pld.SetInPlace | acpi/inc/acbuffer.h:234-315 | a SET on the buffer in memory ORs into its slot and leaves every slot apart from it |
| ArgLists.PackEntry | acpi/inc/acmacros.h:422-442 | every entry of a packed list of any width and length reads back |
| ArgLists.ArgpWalk | acpi/inc/acmacros.h:437-445 | the walk over ARGP_LISTn yields the types in order, then zeros |
| ArgLists.ArgiWalk | acpi/inc/acmacros.h:430-445 | the walk over ARGI_LISTn yields them reversed, then zeros |
| ArgLists.ReadTypes | acpi/inc/acmacros.h:444-445 | the in-place walk up to the first zero type returns the entries before it and stops there |
| ArgLists.WalkEndsAfterArgs | acpi/inc/acmacros.h:422-445 | that walk returns exactly the arguments iff none of them is zero |
| ArgLists.ArgpInjective | acpi/inc/acmacros.h:437-442 | lists of nonzero types with the same word are the same list |
| ArgLists.MethodArgsDecode | acpi/inc/acpredef.h:206-221 | for no to four arguments, count-then-next-type decoding recovers the count and every type in order, then zeros |
| ArgLists.MethodArgsFit | acpi/inc/acpredef.h:217-221 | the word stays below the flag bit and so within 16 bits |
| ArgLists.MinimumFlagInvisible | acpi/inc/acpredef.h:209-213 | OR-ing the flag into any list leaves the count, and changes the k-th next type iff k is 5, past the last argument |
| ArgLists.PackageInfoReadsBack | acpi/inc/acpredef.h:226 | little-endian: the seven bytes read as the intended fields through all three layouts |
| ArgLists.PackageInfoNeedsLittleEndian | acpi/inc/aclocal.h:411-487 | on either host, each layout reads back the arguments iff the host is little-endian or, for the second layout, the last two agree, and for the first and third, both are zero |
| ArgLists.EqualArgumentsMisread | acpi/inc/acpredef.h:226 | six equal nonzero arguments on a big-endian host: the second layout is right, the other two are wrong |
| Resources.EncodeOneDecodes | acpi/inc/aclocal.h:1228-1272 | a small or large descriptor decodes to itself and its exact size, whatever follows |
| Resources.DecodeOneInBounds | acpi/inc/aclocal.h:1230-1235 | on any bytes a descriptor that is read lies within them, is valid and encodes to them |
| Resources.DecodeOneMeans | acpi/inc/aclocal.h:1230-1235 | on any bytes, in arithmetic: which bits of the tag, and which bytes, are name, length and data, and when it is truncated |
| Resources.EndTagBytes | acpi/inc/aclocal.h:1253 | 0x79 and a checksum byte end a template |
| Resources.EncodeDecodes | acpi/inc/aclocal.h:1228-1272 | every template, followed by anything, decodes to itself and consumes exactly its bytes |
| Resources.DecodeEncodes | acpi/inc/aclocal.h:1228-1272 | on arbitrary bytes a success stays in bounds, is a template, and re-encodes to the bytes consumed |
| Resources.DecodeExact | acpi/inc/acrestyp.h:123-124 | decoding yields a template iff the buffer begins with its encoding, and fails only if it begins with none |
| Resources.WalkVisitsAll | acpi/inc/acrestyp.h:739-759 | for any resource list anywhere in memory, iterating ACPI_NEXT_RESOURCE visits exactly the starts, in order, and stops at the end tag |
| Resources.WalkFollowsLengths | acpi/inc/acrestyp.h:756-759 | on any memory a completed walk moved by lengths, stayed in bounds and met no earlier end tag |
| Resources.WalkIsChain | acpi/inc/acrestyp.h:756-759 | on any memory the walk ends at an end tag iff there is a chain of resources from the start to the first one, and visits that chain |
| Resources.ResourceImage | acpi/inc/acrestyp.h:739-745 | a resource in memory is type, length and data, and type 7 ends a list |
| Resources.WalkAligned | acpi/inc/acrestyp.h:752-759 | from an aligned start every resource is aligned iff every length but the last is a multiple of the alignment |
| ByteMoves.BodyShape | acpi/inc/acmacros.h:162-279 | each of the 27 macro bodies is the clear-and-copy pattern of its configuration |
| ByteMoves.MoveMeaning | acpi/inc/acmacros.h:162-279 | wherever the overlap is tolerated, all nine moves in all three configurations leave the little-endian source, truncated or zero-extended, and touch no other byte |
| ByteMoves.DisjointTolerated | acpi/inc/acmacros.h:162-279 | operands that lie apart are tolerated by every move |
| ByteMoves.OverlapExact | acpi/inc/acmacros.h:162-279 | each of the 27 moves does this on all memory iff the overlap is tolerated: any for a word, none for a bytewise move that widens, d not inside the bytes read for one upwards, at most one shared byte for one towards each other |
| ByteMoves.NotToleratedIsWrong | acpi/inc/acmacros.h:166-279 | for every other overlap, memory whose source bytes are nonzero and different on which the move is wrong |
| ByteMoves.InPlace | acpi/inc/acmacros.h:162-279 | with the same address for both, a word move is right, a bytewise little-endian one iff it does not widen, a big-endian one never |
| ByteMoves.Move | acpi/inc/acmacros.h:162-279 | the statements executed on memory, whatever the overlap, and the value moved where it is tolerated |
| Rounding.RoundDownIsGreatest | acpi/inc/acmacros.h:312-313 | ACPI_ROUND_DOWN is the greatest multiple not above the value |
| Rounding.RoundUpIsLeast | acpi/inc/acmacros.h:315-317 | ACPI_ROUND_UP is the least multiple not below the value iff value + boundary - 1 does not wrap |
| Rounding.RoundingIdempotent | acpi/inc/acmacros.h:312-327 | both are idempotent, also when the first rounding wrapped |
| Rounding.RoundUpAgreesWithRoundUpTo | acpi/inc/acmacros.h:315-336 | for operands of type ACPI_SIZE, ACPI_ROUND_UP is ACPI_ROUND_UP_TO times the boundary, wrapped or not |
| Rounding.NarrowOperandsAgree | acpi/inc/acmacros.h:315-336 | for operands of a narrower type it is, iff the sum does not wrap in that type |
| Rounding.NarrowOperandsDisagree | acpi/inc/acmacros.h:315-336 | the greatest 32-bit value and boundary 2 on a 64-bit host: they differ |
| Rounding.FastMathExact | acpi/inc/acmacros.h:285-307 | _ACPI_DIV, _ACPI_MUL and _ACPI_MOD are the arithmetic operations iff the exact result is below 2^32 |
| Rounding.MaskDecomposition | acpi/inc/acmacros.h:340-347 | the two masks split a value into its remainder by 2^position and its rounding down, which sum to it |
| Bitmaps.FirstFitFinds | src/CommonLib/src/bitmap.c:311-361 | the specification of the scan: a result is a run that fits and no earlier one does; none means there is none |
| Bitmaps.ChangedByteBits | src/CommonLib/src/bitmap.c:266-273 | the masks change one bit of the byte and no other |
| Bitmaps.FlagTest | src/CommonLib/inc/base.h:37 | the flag test reads that bit |
| Bitmaps.RangeAssertedExactly | src/CommonLib/src/bitmap.c:130-132 | the assertion, in 32-bit arithmetic, passes iff the range fits or is longer than the bitmap and the subtraction wraps far enough |
| Bitmaps.AssertionProtects | src/CommonLib/src/bitmap.c:122-135 | of the calls that pass, exactly those with at most as many bits as the bitmap stay in it, and exactly those within the padded last byte (or with a buffer of all indices) stay in the buffer |
| Bitmaps.NineBitsOfEight | src/CommonLib/src/bitmap.c:130-134 | bit count 8, index 0, count 9 passes and leaves the buffer |
| Bitmaps.Bitmap.ChangeBit | src/CommonLib/src/bitmap.c:250-274 | bit index % 8 of byte index / 8 takes the value, counted from the least significant; no other bit of any byte changes |
| Bitmaps.ChangedBits | src/CommonLib/src/bitmap.c:287-290 | exactly the bits visited, with 32-bit indices, take the value |
| Bitmaps.Bitmap.ChangeBits | src/CommonLib/src/bitmap.c:276-291 | for any range, with 32-bit indices: how many bits are changed before a write leaves the buffer, all iff none does, and the contents then |
| Bitmaps.Bitmap.SetBitsValue | src/CommonLib/src/bitmap.c:122-135 | for any arguments: assertion, overrun or completion, each exactly when; a range that fits takes the value and nothing else changes |
| Bitmaps.Bitmap.GetBit | src/CommonLib/src/bitmap.c:293-309 | returns the bit of the contents |
| Bitmaps.Bitmap.ScanInternal | src/CommonLib/src/bitmap.c:311-361 | the nested loops return the first fit, or MAX_DWORD iff there is none |
| Bitmaps.Bitmap.ScanFromTo | src/CommonLib/src/bitmap.c:160-186 | the same behind its argument checks |
| Bitmaps.Bitmap.ScanFromToAndFlip | src/CommonLib/src/bitmap.c:211-248 | finds the first fit and flips exactly it, or changes nothing |
| Pmm.Manager.Reserve | src/HAL9000/src/pmm.c:145-184 | iff the request is for something at a frame boundary and enough free frames in a row lie from there on, the lowest such frames become reserved and their address is returned; otherwise nothing changes and the answer is 0 |
| Pmm.PlacementIsLowest | src/HAL9000/src/pmm.c:157-183 | the same of the placement that runs are stated with |
| Pmm.Manager.Release | src/HAL9000/src/pmm.c:186-204 | for any arguments: asserts exactly when an assertion fails, overruns only with more frames than memory has, and frames that exist become free and no others |
| Pmm.Manager.Initialize | src/HAL9000/src/pmm.c:294-370 | passes its assertions iff every considered region fits memory; then every free frame overlaps a valid usable region above 1 MB, every frame inside one is free, and everything below 1 MB is reserved |
| Pmm.DetermineHighest | src/HAL9000/src/pmm.c:230-292 | the loop finds the end of the highest region of any kind |
| Pmm.NoMoreFramesThanMemory | src/HAL9000/src/pmm.c:317-364 | with the size taken from the map no region has more frames than memory, so the range assertion is exact |
| Pmm.MapsThatFit | src/HAL9000/src/pmm.c:317-364 | a region fits iff some region of the map reaches as far as the last frame released for it |
| Pmm.TopmostFits | src/HAL9000/src/pmm.c:258-364 | the topmost region fits iff it holds a page and releases only frames inside it |
| Pmm.WholeRegionsFit | src/HAL9000/src/pmm.c:258-364 | a region that holds a page and releases only frames inside it fits in every map |
| Pmm.HalfAPageStops | src/HAL9000/src/pmm.c:258-364 | a map of one usable half page at 1 MB does not fit |
| Pmm.Boot | src/HAL9000/src/pmm.c:83-143 | from a memory map: succeeds iff it passes every assertion, and then the bitmap is the one initialisation is for |
| Pmm.MapsThatBoot | src/HAL9000/src/pmm.c:317-364 | a map boots iff it has between one frame and 2^32 - 1, and for every usable region above 1 MB some region reaches as far as the last frame released |
| Pmm.ReleasesExactlyInside | src/HAL9000/src/pmm.c:358-364 | a region releases exactly the frames inside it iff it is shorter than a frame or its padding fits the remainder of its length |
| Pmm.ReleasesAllInside | src/HAL9000/src/pmm.c:358-364 | it never releases fewer |
| Pmm.StraddlingRegion | src/HAL9000/src/pmm.c:358-364 | a page of memory that begins in mid-page releases a frame that lies half outside |
| Pmm.FramesConserved | src/HAL9000/src/pmm.c:145-204 | over every run of reservations and releases of any frames not reserved at the start, reserved frames are exactly the initial ones and the held ones, disjoint; with nothing held the bitmap is as it was |
| Pmm.ReleaseKeepsExactly | src/HAL9000/src/pmm.c:186-204 | a release keeps that account iff it covers no frame reserved at the start |
| Pmm.HeldIsSpared | src/HAL9000/src/pmm.c:186-204 | a release of held frames is always such a release, and passes the assertion |
| Pmm.GrantsNeverOverlap | src/HAL9000/src/pmm.c:145-184 | after any such run a granted request gets existing frames at or above its address that are neither held nor initially reserved |
| Pmm.GrantsAreLowest | src/HAL9000/src/pmm.c:173-183 | after any such run every place before the granted one, from the requested address on, covers an initially reserved or a held frame |
| Pmm.OneByOneIsAtOnce | src/HAL9000/src/pmm.c:186-204 | frames released one at a time, as unmapping a page does in the virtual memory manager, are released as if at once |
| Pmm.AllocationLeavesNoTrace | src/HAL9000/src/pmm.c:145-204 | in any such state, a reservation followed by the release of its frames one at a time restores bitmap and held frames |
| Pmm.Perform | src/HAL9000/src/pmm.c:145-204 | the class performs exactly the runs of the model |
| Pmm.RefusedOnlyWhenFull | src/HAL9000/src/pmm.c:145-184 | after any such run a request is refused iff every place for it covers an initially reserved or a held frame |
| Pmm.ZeroMeansRefused | src/HAL9000/src/pmm.c:145-184 | after any such run from a bitmap with frame 0 reserved, no granted request is answered by address 0 |
| Snapshots.SortedIsSort | postbuild/copy_apps_to_vm.py:33 | the sorted list is ordered and has the same files |
| Snapshots.GreatestButOne | postbuild/copy_apps_to_vm.py:29-39 | from any files: nothing from none, the one from one, otherwise the greatest but one |
| Snapshots.LexIsNumeric | postbuild/copy_apps_to_vm.py:36-38 | digit strings of one width are ordered as their numbers |
| Snapshots.SecondToLast | postbuild/copy_apps_to_vm.py:39 | below a greatest element, the greatest of the others comes second to last in sorted order |
| Snapshots.ChoosesLastPath | postbuild/copy_apps_to_vm.py:29-39 | of any directory with snapshots, whatever their widths, the choice is the one whose path comes last |
| Snapshots.LatestSnapshot | postbuild/copy_apps_to_vm.py:29-39 | with numbers of one width, in whatever order the files are listed, the choice is the snapshot with the greatest number, and the base file when there is none |
| Snapshots.NarrowNinesChosen | postbuild/copy_apps_to_vm.py:36-39 | for any widths p < q, of nines of width p and a power of ten of width q the nines are chosen, which is the smaller number |
| Snapshots.NineBeforeTen | postbuild/copy_apps_to_vm.py:36-39 | snapshot 9 is chosen over snapshot 10 |
| Snapshots.FixedWidthNeeded | postbuild/copy_apps_to_vm.py:29-39 | every directory with numbers of width p or q yields the greatest number iff p equals q |
| VmManager.Manager.Mount | postbuild/copy_apps_to_vm.py:41-70 | for every environment: returns False iff the letter is taken, the machine runs, a disk is mounted or no file is found; otherwise issues the command and returns True or raises by its exit code |
| VmManager.Manager.Unmount | postbuild/copy_apps_to_vm.py:72-80 | unmounts iff mounted, and reports it |
| VmManager.SuccessesAlternate | postbuild/copy_apps_to_vm.py:41-80 | over every sequence of calls and answers, successes strictly alternate, a mount first |
| VmManager.Perform | postbuild/copy_apps_to_vm.py:41-80 | the class performs exactly those runs |
| VmManager.ApplicationNames | postbuild/copy_apps_to_vm.py:103-104 | a name is copied iff it ends in .exe and has something other than dots before it |
| VmManager.ApplicationsInOrder | postbuild/copy_apps_to_vm.py:102-104 | the files selected from any listing are its .exe names, one by one, in order |
| VmManager.CopyLoop | postbuild/copy_apps_to_vm.py:102-110 | announces the selected files in listing order and copies each, up to the first copy that raises |
| VmManager.CopyApplications | postbuild/copy_apps_to_vm.py:83-117 | a dry run has no effects and announces the same copies; a run ends normally iff everything succeeds, and then is mount, copies, unmount; otherwise the disk is left mounted iff the mount had succeeded |

## Left out

- The ACPI interpreter, namespace, event, table and resource-conversion code: only prototypes are in the tree.
- The use count of ACPI_MUTEX_INFO and the mutex table in place: the bodies of the acquire and release functions are not in the tree, so `MutexOrder` is a step relation on values, from the written rule and the status codes.
- ACPI reader/writer locks, AML mutex synchronisation levels, owner identifiers, the Global Lock, object caches: only their data structures are in the tree.
- ACPI_RS_SIZE_MIN as a lower bound: the walk is proved for every length from the 8-byte header on, which includes it.
- 64-bit wrap-around at the end of the address space in ACPI_NEXT_RESOURCE and in base + length of a memory region.
- Releases of frames that were reserved at the start, or that leave memory: the runs of `Pmm` contain none of the latter, and `Pmm.ReleaseKeepsExactly` says what the former break; who holds a frame is not recorded, only that it is held.
- What a write beyond the buffer of a bitmap destroys: the model stops there and reports it.
- The totals of available memory and the per-type region counts of the memory map: they decide nothing in the allocator.
- Hardware that reacts to register writes, such as status bits cleared by writing one: the registers hold what is written.
- Thread termination while a thread waits for a mutex, and the bodies of the spinlocks MutexLock, BlockLock and ReadyThreadsLock, which are atomic locks in `HalMutex`; the ready list is the freedom of the schedule to let any ready thread run.
- The recursive reader/writer spinlock, executive events and timers, the heap, hash tables and lists of the kernel: further state machines of the same kinds.
- AML length limits beyond the 16-bit resource length, and reserved descriptor names: the framing does not distinguish them.
- ByteMoves.Move: the macros are straight-line code, and are run as lists of statements rather than unrolled.
- Subprocesses, file system lookups, copying and argument parsing of the script: their answers are parameters of the model, their invocations are its effects.
