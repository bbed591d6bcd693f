# rusty_libc: a verified model of its hard core

rusty_libc is a no_std Rust crate that talks to Linux without a libc. Most of it wraps one
system call per function; this project models the places that hold machine code, parsers,
loops and shared state, and proves what they do.

What is modelled, and the main results:

- **The vfork trampolines** (`Programs`, `Machine`, `Trampolines`, `X86Child`, `RedirectLists`,
  `Vfork`, `FdTable`, `WaitStatus`). The hand-written instruction sequences of both routines on
  both architectures run on one register machine with the kernel's descriptor table behind it.
  For every redirect list, every descriptor table and every kernel the aarch64 child ends exactly
  as documented. The x86_64 child does not: `syscall` overwrites rcx, which holds the loop index,
  with its return address. For every list, table, kernel and return address it is shown how that
  child ends, and that it fails to end if and only if a condition on those four holds. The lists
  for which the contract is met are characterised exactly, with and without EBUSY. Around all
  four routines, a parent/child system with CLONE_VFORK is shown to leave the parent asleep and
  its descriptors untouched until the child has exec'd or exited, to have one run only, and to
  end as stated.
- **DNS** (`DnsWalk`, `DnsCodec`, `DnsBuild`, `DnsQuery`). The response walk accepts exactly the
  encodings of messages and reports exactly the first eight matching records; bytes beyond the
  received length never matter although names are bounded by the buffer; `build_query` prints
  exactly the query message, and decoding recovers id, hostname and type; the retry loop's socket
  traffic is determined event by event.
- **The vDSO** (`Vdso`, `VdsoImage`, `VdsoCache`). Symbol lookup finds the first export of a
  name in every ELF64 image; the lock-free cache is safe under every interleaving of any number
  of threads, and `clock_gettime` equals the raw system call whatever the cache holds.
- **Record chains** (`Dirents`, `Inotify`, over `ListCodec`). Both iterators invert their
  encoders, distribute over concatenation, and panic exactly off the chains.
- **Short I/O** (`ShortIo`), **decimal paths** (`Decimal`) and **descriptor cleanup** (`Pty`,
  `Dup`, `DnsQuery`), over the nondeterministic kernel in `Os`.

The kernel is an explicit environment. Its calls may return anything their contracts allow:
counts up to the buffer length, EINTR finitely often, any error, EBUSY on any duplication.

Three places where the code and its documentation part ways; the model follows the code:

- `src/arch/x86_64.rs:359-374` promises the whole list; the loop loses its index at the first `dup2`.
  The two-entry list at `src/process.rs:1497-1500` has an equal second pair, so it cannot show this.
- `src/process.rs:787-789` calls an equal pair "the same as dup2"; the trampolines skip it
  without checking that the descriptor is open, so a closed one is not reported. The two agree
  under the caller's obligation at `src/process.rs:822-824`.
- `src/dns.rs:332` says "keep waiting" on a foreign reply; the code moves on to the next server.

## Model

| member | source | states |
|---|---|---|
| `Base.RetDecodes` | src/arch/mod.rs:203-219 | the return convention in both directions: exactly the words -4095..-1 are errors, with that code |
| `FdTable.Apply` | src/process.rs:802-818 | the documented effect of a redirect list; no descriptor is ever lost |
| `FdTable.SkippingIsDup2` | src/process.rs:787-824 | skipping equal pairs is literal dup2 whenever the descriptors named by equal pairs are open |
| `FdTable.GoesThrough` | src/process.rs:802-818 | when a list goes through, said of the list and the open descriptors alone, and what is open then |
| `FdTable.SkippingIsDup2Exactly` | src/process.rs:787-789 | on any table the two agree if and only if every equal pair reached names a descriptor open from the start or the target of an earlier redirect |
| `FdTable.ClosedEqualPairDiffers` | src/process.rs:787-789 | a closed descriptor paired with itself is such a case on every kernel |
| `Dup.Process.Dup2Emulated` | src/fd.rs:469-481 | the dup3-based wrapper has dup2's result and effect on every table and pair |
| `Trampolines.ArmFetch` | src/arch/aarch64.rs:388-390 | the three loads put record i into x0 and x1 and keep every operand register |
| `Trampolines.ArmDup` | src/arch/aarch64.rs:394-396 | the dup3 call and what svc leaves alone |
| `Trampolines.ArmPass` | src/arch/aarch64.rs:387-399 | one pass is the documented effect of one redirect |
| `Trampolines.ArmLoop` | src/arch/aarch64.rs:387-417 | from any loop head the rest of the list is applied as documented, then exec or exit |
| `Trampolines.ArmChild` | src/arch/aarch64.rs:383-417 | for every list, table and kernel the child ends exactly as documented |
| `Trampolines.Execs` | src/arch/aarch64.rs:403-412 | on both architectures execve gets path, argv, envp in that order; if it returns, exit 127 |
| `Trampolines.PlainChild` | src/arch/x86_64.rs:327-338 | the child of vfork_execve, on both architectures, ends as documented for no redirects |
| `Trampolines.X86Dup` | src/arch/x86_64.rs:406-407 | the dup2 call replaces the loop index by the return address |
| `Trampolines.X86Pass` | src/arch/x86_64.rs:401-409 | one pass has the documented effect of one redirect, and keeps the index only for equal pairs |
| `X86Child.Round` | src/arch/x86_64.rs:400-413 | for any return address: from any loop head the first unequal pair from there is applied, and the loop then goes on one past the return address |
| `X86Child.EndsSo` | src/arch/x86_64.rs:394-429 | for every list, table, kernel and return address, how a child that is not endless ends |
| `X86Child.CirclesUntilBusy` | src/arch/x86_64.rs:400-413 | a child that keeps coming back to a pair ends at the first duplication the kernel fails |
| `X86Child.NeverEndsIffEndless` | src/arch/x86_64.rs:394-429 | the child never ends if and only if it comes back to an unequal pair, both pairs work on the table and the kernel fails nothing; otherwise it has one end |
| `RedirectLists.FirstSuffices` | src/arch/x86_64.rs:400-413 | a list without differing unequal pairs has the effect of its first one |
| `RedirectLists.DifferingPairsSeparate` | src/arch/x86_64.rs:400-413 | for every other list a table exists on which that shows after exec |
| `RedirectLists.BusySeparates` | src/arch/x86_64.rs:400-413 | and with EBUSY already for repetitions |
| `RedirectLists.SomeChild` | src/arch/x86_64.rs:382-393 | every list, kernel, table and return address is that of some call, its records laid out in memory |
| `RedirectLists.MeetsContractIffHarmless` | src/arch/x86_64.rs:359-374 | for every return address, with and without EBUSY, the program meets the contract on all tables if and only if a condition on list and return address holds |
| `RedirectLists.TwoRedirectsSeparate` | src/arch/x86_64.rs:400-413 | stdout and stderr to two files breaks it at every return address |
| `RedirectLists.SpinningCall` | src/arch/x86_64.rs:400-413 | one concrete call whose child never ends |
| `WaitStatus.Decodes` | src/wait.rs:153-195 | the four status predicates are exclusive and exhaustive, and the accessors recover code and signal |
| `Vfork.InvKept` | src/process.rs:719-843 | every step of parent or child keeps the system invariant |
| `Vfork.ParentUntouched` | src/process.rs:719-752 | in every run the parent cannot move while the child runs, and its descriptors never change |
| `Vfork.ChildEnd` | src/process.rs:825-843 | a child that does not spin ends, in one way only |
| `Vfork.RunsEndAsDocumented` | src/process.rs:825-843 | a finished run returned the pid or clone's error, and its child ended in that way |
| `Vfork.CallCompletes` | src/process.rs:719-752 | unless the child spins, there is a finished run and every run is a part of it |
| `Vfork.SpinningCallHangs` | src/process.rs:719-752 | if it spins, no run ends and the parent is asleep for good |
| `Vfork.FailuresAreTellable` | src/process.rs:813-818 | in every finished run waitpid shows 126 exactly for a failed redirect and 127 exactly for a failed exec |
| `DnsWalk.SkipName` | src/dns.rs:166-186 | the loop computes where a possibly compressed name ends |
| `DnsWalk.ParseHeader` | src/dns.rs:202-229 | the loop computes the header, or the error each rcode and truncation gives |
| `DnsWalk.NextRecord` | src/dns.rs:239-248 | the record at a position and where it ends, or EINVAL |
| `DnsWalk.AddrList.Push` | src/dns.rs:31-57 | the fixed list takes the first eight and drops the rest |
| `DnsWalk.ParseAnswersA` | src/dns.rs:231-259 | the A loop computes the first eight records of type 1 and length 4 of the walk, or its error |
| `DnsWalk.ParseAnswersAaaa` | src/dns.rs:261-289 | the AAAA loop the first eight of type 28 and length 16 |
| `DnsWalk.NameEndWithin` | src/dns.rs:168-186 | a name seen through n bytes ends where it ends in the buffer, or is an error |
| `DnsWalk.OnlyReceivedBytesMatter` | src/dns.rs:202-289 | the result, error code included, is that of the first n bytes |
| `DnsWalk.StaleBytesDoNotShow` | src/dns.rs:322-334 | two buffers agreeing on the datagram are parsed alike |
| `DnsWalk.CountsFitThePacket` | src/dns.rs:214-254 | a completed walk has 12 + 5 qdcount + 11 ancount <= n |
| `DnsWalk.KindsRejectAlike` | src/dns.rs:231-289 | A and AAAA lookups call the same packets malformed |
| `DnsCodec.ReadsName` | src/dns.rs:166-186 | every name, root or pointer ended, is read back with what follows it |
| `DnsCodec.ReadsMessage` | src/dns.rs:195-259 | decoding recovers every message |
| `DnsCodec.HeaderWords` | src/dns.rs:202-214 | where the six header words lie |
| `DnsCodec.FixedWords` | src/dns.rs:239-248 | where type and data length of a record lie |
| `DnsCodec.MessageWasEncoded` | src/dns.rs:195-259 | whatever decodes is the encoding of what it decodes to |
| `DnsCodec.NameEndReads` | src/dns.rs:168-186 | the positional walk over names is that decoding |
| `DnsCodec.RecordsRead` | src/dns.rs:237-254 | the record walk sees exactly the type and data of the decoded records |
| `DnsCodec.AnswerReads` | src/dns.rs:202-289 | a lookup on any packet is determined by the message in it |
| `DnsCodec.AnswersEveryMessage` | src/dns.rs:231-289 | every message, whatever lies behind it, gives its first eight matching records in order, or ENOENT |
| `DnsCodec.FirstEight` | src/dns.rs:231-289 | in numbers: with rcode 0 the data of the first eight answers of type 1 and length 4, or type 28 and length 16, in order; ENOENT when there are none |
| `DnsCodec.OtherRcodes` | src/dns.rs:206-213 | rcode 3 gives error 2, every other non-zero rcode error 22 |
| `DnsCodec.MalformedExactly` | src/dns.rs:202-289 | EINVAL exactly for packets that are no message with rcode 0 and no header with rcode 3 |
| `DnsCodec.HeaderOfEncoding` | src/dns.rs:202-229 | the header of an encoding points behind its questions |
| `DnsBuild.JoinSplit` | src/dns.rs:152-158 | splitting a hostname at dots loses nothing |
| `DnsBuild.SplitDotFree` | src/dns.rs:152-158 | no label holds a dot |
| `DnsBuild.GoodHostLabels` | src/dns.rs:152-158 | labels are good exactly if from the start and behind every dot there are 1 to 63 bytes to the next dot or the end |
| `DnsBuild.Put` | src/dns.rs:136-143 | bytes go to the position or nothing changes |
| `DnsBuild.PutHeader` | src/dns.rs:145-150 | the twelve header bytes |
| `DnsBuild.PutLabels` | src/dns.rs:152-158 | succeeds exactly for good labels that fit, and writes exactly them |
| `DnsBuild.BuildQuery` | src/dns.rs:129-164 | succeeds exactly for good labels that fit in hostname + 18; writes exactly the query's encoding |
| `DnsBuild.QueryWire` | src/dns.rs:129-164 | the packet byte by byte: id, flags, counts, each label behind its length in place of the dot, root, type, class |
| `DnsBuild.QueryDecodes` | src/dns.rs:129-164 | decoding recovers id, hostname and type |
| `DnsBuild.QueryInjective` | src/dns.rs:129-164 | distinct lookups send distinct packets |
| `DnsBuild.QueryHeader` | src/dns.rs:129-229 | the packet is hostname + 18 bytes and parse_header steps over all of it |
| `DnsQuery.ReadConfig` | src/dns.rs:89-107 | the front of the file or the error of a failed call; the descriptor is closed on every path |
| `DnsQuery.ReadNameservers` | src/dns.rs:89-127 | the first min(3, found) servers in the front of the file, 22 if there are none, or the error of a failed call; descriptors unchanged |
| `DnsQuery.Ask` | src/dns.rs:307-334 | the socket events of one attempt, on the socket and port 53, and what they decide |
| `DnsQuery.AskAll` | src/dns.rs:304-338 | round-robin over at most two rounds, stopping at the first decisive attempt, with exactly the events of those attempts |
| `DnsQuery.Exchange` | src/dns.rs:303-341 | the socket is closed exactly once whenever it was opened |
| `DnsQuery.QueryFor` | src/dns.rs:291-342 | all of query: descriptors unchanged; with a socket the outcome of the attempts, without one which step failed and that its error is returned |
| `DnsQuery.OutcomeMeans` | src/dns.rs:304-338 | in numbers: Ok only for a reply of the server just asked with our id, an error only from poll or 110 after two rounds, one send per attempt |
| `DnsQuery.DecisiveTry` | src/dns.rs:311-334 | a reply from the server asked with at least 12 bytes and our id ends the search with it, a failed poll with its error |
| `DnsQuery.ParseReceived` | src/dns.rs:59-69 | the lookup's answer is that of the datagram alone |
| `Vdso.CStrEq` | src/vdso.rs:212-228 | exact C-string equality reading nothing behind the NUL |
| `Vdso.TakePhdr` | src/vdso.rs:159-167 | first PT_LOAD and last PT_DYNAMIC win |
| `Vdso.ScanPhdrs` | src/vdso.rs:155-168 | the loop finds both |
| `Vdso.ScanDyns` | src/vdso.rs:172-189 | the last string, symbol and hash table entries before DT_NULL |
| `Vdso.ScanSyms` | src/vdso.rs:195-207 | the first symbol with name, value and the wanted string |
| `Vdso.Lookup` | src/vdso.rs:131-210 | for every image in memory, the relocated first match or None; only mapped bytes are read |
| `Vdso.BiasIs` | src/vdso.rs:159-167 | the bias is offset minus address of the first header of kind 1 |
| `Vdso.DynamicAtIs` | src/vdso.rs:159-167 | the dynamic section is that of the last header of kind 2 |
| `Vdso.LastIs` | src/vdso.rs:172-189 | a table is where the last entry with its tag says |
| `Vdso.FirstNamedIs` | src/vdso.rs:195-207 | the symbol found is the first with name, value and string |
| `Vdso.TargetIs` | src/vdso.rs:131-210 | in numbers: what the lookup demands of an image, and the address it returns |
| `Vdso.FindBase` | src/vdso.rs:71-98 | the first AT_SYSINFO_EHDR before AT_NULL, unless zero |
| `Vdso.BaseInIs` | src/vdso.rs:81-96 | by position: the non-zero value of an entry 33 with no entry 33 or 0 before it |
| `Vdso.EveryBufferIsAuxv` | src/vdso.rs:81-84 | every buffer is covered by that statement |
| `VdsoImage.AssembledImage` | src/vdso.rs:131-193 | images assembled from any program headers, dynamic entries, symbols and strings, mapped anywhere, are such images |
| `VdsoImage.LookupExport` | src/vdso.rs:131-210 | in them the lookup finds the first non-zero export of the name at its load address, None if header, segment or table is wanting |
| `VdsoImage.ExportedIs` | src/vdso.rs:195-207 | which export that is, by position |
| `VdsoImage.UsualImage` | src/vdso.rs:100-129 | the usual image for any link address, in numbers, is one of them, and moves addresses from link to load address |
| `VdsoImage.UsualMagic` | src/vdso.rs:139-146 | its first bytes are 7f 45 4c 46 and 2 |
| `VdsoCache.InvKept` | src/vdso.rs:33-62 | every atomic step of any thread keeps the cache invariant |
| `VdsoCache.CacheHoldsOnlyResolved` | src/vdso.rs:33-62 | in every interleaving cache and returned functions come from completed resolves |
| `VdsoCache.ResolvedOnce` | src/vdso.rs:38-55 | once a call has returned, later loads end their calls with the cached result |
| `VdsoCache.RacersAgree` | src/vdso.rs:38-47 | if resolution is deterministic every call returns its result |
| `VdsoCache.SentinelAddressDisagrees` | src/vdso.rs:33-36 | except for a function at the FAILED address, shown by a run |
| `VdsoCache.FastPathAgrees` | src/time.rs:49-87 | in every run clock_gettime is the raw call's result, provided a zero vDSO return agrees with it |
| `VdsoCache.ClockGettimeIs` | src/time.rs:49-87 | in numbers: the vDSO's time on its zero return, else the call's time or its error |
| `ListCodec.ReadsAll` | src/fs.rs:585-589 | encoded records in front of any input are read off first |
| `ListCodec.AllWereEncoded` | src/fs.rs:585-589 | input that is read to its end is a chain of records |
| `Dirents.Reads` | src/fs.rs:609-626 | a record of any name and padding is read back |
| `Dirents.WasEncoded` | src/fs.rs:609-626 | whatever is read is such a record |
| `Dirents.Iter.Next` | src/fs.rs:604-627 | yields inode number, type and name from their places in the front record, moves behind it by at least 19 bytes, panics exactly where none is |
| `Dirents.Entries` | src/fs.rs:597-628 | a loop over the iterator yields the list of the whole buffer |
| `Dirents.EntriesOfChain` | src/fs.rs:585-628 | over the chain of any records it yields the inode number, type and name of each |
| `Dirents.IteratesEveryChain` | src/fs.rs:585-628 | inverts the encoder, whatever follows |
| `Dirents.DistributesOverConcat` | src/fs.rs:585-628 | one buffer after another yields one list after the other |
| `Dirents.PanicsExactlyOffChains` | src/fs.rs:591-596 | panics exactly on buffers that are no chain |
| `Inotify.Reads` | src/inotify.rs:163-178 | an event with any name field is read back |
| `Inotify.WasEncoded` | src/inotify.rs:163-178 | whatever is read is such an event |
| `Inotify.Iter.Next` | src/inotify.rs:159-179 | consumed and remaining bytes are the buffer; it shrinks by 16 + len |
| `Inotify.Events` | src/inotify.rs:152-180 | a loop over the iterator yields the events of the whole buffer |
| `Inotify.IteratesEveryChain` | src/inotify.rs:140-180 | inverts the encoder, whatever follows |
| `Inotify.DistributesOverConcat` | src/inotify.rs:140-180 | one buffer after another yields one list after the other |
| `Inotify.PanicsExactlyOffChains` | src/inotify.rs:146-151 | panics exactly on buffers that are no chain |
| `Inotify.NameRecovered` | src/inotify.rs:120-132 | name() recovers a padded name, and None from an empty field or one without NUL |
| `ShortIo.PipeNeverDeadlocks` | src/fd.rs:193-386 | until the reader is done someone can move |
| `ShortIo.WriteAll` | src/fd.rs:193-208 | a prefix is accepted, all of it on Ok; it goes on after every positive count and EINTR and gives up only at a zero count, with EIO, or at another error, with it |
| `ShortIo.WriteAllFailsExactly` | src/fd.rs:198-208 | it fails exactly if some answer is a zero count or an error but EINTR, and asks nothing more after that |
| `ShortIo.ReadAll` | src/fd.rs:372-386 | fills min(stream, buffer) bytes however the kernel cuts the reads, leaves the rest alone, and fails exactly with an error other than EINTR |
| `ShortIo.FlowsKept` | src/fd.rs:193-386 | every turn of either loop on a common pipe, errors and zero counts included, keeps sent = got + queued |
| `ShortIo.PipeIsTransparent` | src/fd.rs:193-386 | through a pipe of any capacity, under any interleaving of the loops, the reader gets the front of what was accepted, all the data if both return Ok and it fits |
| `Decimal.ValueOfDigits` | src/termios.rs:319-328 | the numeral means the number |
| `Decimal.PutBackwards` | src/termios.rs:320-327 | the digit loop writes the numeral backwards |
| `Decimal.Reverse` | src/termios.rs:328 | the in-place reversal |
| `Decimal.PutDigits` | src/tty.rs:97-108 | together they write the decimal numeral of every u32 |
| `Decimal.FormatPtsPath` | src/tty.rs:92-117 | the path of every i32 read as u32, in at most 20 of 21 bytes with its NUL |
| `Decimal.PtsPathReads` | src/tty.rs:92-117 | the directory, then digits whose value is the number as u32 |
| `Decimal.ProcPathReads` | src/termios.rs:306-332 | the directory, then sign and digits of the number |
| `Decimal.Prefixes` | src/tty.rs:93-94 | the directories, spelled |
| `Decimal.ProcFdPath` | src/termios.rs:306-332 | the path of every i32 including the minimum, in at most 26 of 32 bytes with its NUL |
| `Decimal.PtsPathFaithful` | src/tty.rs:92-117 | injective, no NUL inside, no leading zero |
| `Decimal.ProcPathFaithful` | src/termios.rs:306-332 | injective over all of i32, no NUL inside, no leading zero |
| `Pty.OpenPty` | src/tty.rs:40-90 | the calls made, in order, for every outcome; Ok with master and slave, two new descriptors, or the first error and none |

## Left out

- RedirectLists.MeetsContractIffHarmless: descriptors are below 2^31, lists no larger than a slice can be, and the descriptors of a child that exited are not compared; `X86Child.EndsSo` has them.
- Trampolines: RLIMIT changes and table sharing with other processes during the call.
- Machine: instruction encodings and the flags `inc` and `xor` set before the next comparison overwrites them.
- Vdso.Lookup: pointer arithmetic on mapped addresses does not wrap; the wrapping subtraction and `reloc` do.
- VdsoImage: assembled images have their sections in one order and zero padding; `Vdso.Lookup` is without that limit.
- Vdso: `vdso_base` around its scan, which leaks a descriptor when `read_all` fails (src/vdso.rs:78-79).
- VdsoCache: atomics are sequentially consistent single steps; one cell and Relaxed order leave nothing weaker to observe.
- VdsoCache.FastPathAgrees: both clock sources are read at one instant.
- DnsQuery.ReadNameservers: the text handling of resolv.conf is a parameter.
- DnsQuery: the arguments of `socket` and the poll timeout.
- DnsQuery.QueryFor: no claim that a lookup eventually succeeds; a stale reply uses up an attempt.
- DnsBuild.BuildQuery: what a failed call has already written to the buffer.
- ShortIo: a kernel that interrupts forever.
- Single-call wrappers of fd, fs, process, socket, epoll, eventfd, mmap, ptrace, rlimit, sysinfo, rand, umask and signal: their behaviour is the kernel's.
- Struct layouts, syscall-number tables and errno constants beyond those used: closed facts checked at compile time.
- The sigreturn trampoline, raw fork and allocator locks: they need a model of the compiler or of glibc.
