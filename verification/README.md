# VoidRun: a verified model

VoidRun is a control plane for micro-VM sandboxes. This project models, in Dafny, the parts of it that
keep state or contain real algorithms, and proves what they promise in every run. Code that updates
fields in place is a class here, code that loops is a method with a loop, and goroutines are a state
machine whose steps interleave freely; each is tied to a specification function or an invariant, and the
main results are statements over all inputs, all runs or all reachable states. Everything outside the
program (MongoDB, the kernel, the VMM, the clock, random draws) is a parameter or a free step of the
environment.

| file | models |
|---|---|
| `Tokenizer.dfy` | the command tokenizer, as a loop and as a recursive automaton, and two printers for it |
| `ShellWords.dfy` | the shell commands built for the guest's file system, and a POSIX reader for them |
| `Ledger.dfy`, `LedgerRuns.dfy` | the host allocation ledger, and its calls interleaved with gauge publication |
| `KeyCache.dfy` | API key validation with its cache, and all interleavings of validations with row changes and the clock |
| `FanOut.dfy`, `Refresh.dfy` | the token-bounded fan-out with its wait group, and the status reconciler built on it |
| `Addressing.dfy`, `Allocator.dfy` | netmask, subnet, MAC and CID arithmetic, and the address allocator |
| `ObjectIds.dfy`, `Machine.dfy`, `Lifecycle.dfy` | object ids and their texts, starting and stopping VMs, and the create/delete/stop saga with its rollback |
| `Conservation.dfy`, `Fleet.dfy` | whole runs of these operations with failures, crashes, refreshes and restarts: totals, processes, links and addresses |
| `Relay.dfy`, `Handshake.dfy`, `Paging.dfy` | the PTY relay, the vsock handshake and page arithmetic |

Where the code falls short of what one would expect of it, the code is modelled as it is, the shortfall
is shown by a concrete run or input, and the exact condition under which the expectation holds is proved:

- **Rollback of Create.** A failed create leaves everything but the address pool as it was if and only if
  it did not fail while making the overlay (the directory stays) and did not leave its TAP link behind;
  the link stays when it cannot be looked up, when the VMM cannot be spawned or its pid not written, and
  when `vm.tap` could not be written and a later step fails (`Lifecycle.AllOrNothing`,
  `Lifecycle.FailedCreateCanLeak`).
- **One address per sandbox.** A new sandbox gets an address of its own, whatever the random draws, if and
  only if the allocator knows every address of its pool that the database holds; this is kept by every run
  whose restarts load the database's addresses (`Fleet.DistinctIffLoaded`, `Fleet.AddressesStayDistinct`).
  `Init` would load them, but the server does not call it, and a restart between two creates can put two
  running sandboxes on one address (`Fleet.StartupCanDuplicate`).
- **Deletes by another spelling.** A delete uses the text of its id for the directory and the ledger, and
  the object id it parses to for the row. Spelled in capitals it drops the row of a running sandbox and
  nothing else (`Fleet.CapitalsOrphan`); and ".." takes every instance directory (`Fleet.ParentOrphans`).
  Totals match the database, VMs have rows and pid files, and other sandboxes are left alone if and only if
  no delete does that (`Conservation.RunConservesIff`, `Fleet.EveryVmAccountedIff`,
  `Fleet.OperationsAreIsolated`); in particular when deletes carry ids as the
  server prints them (`Conservation.TotalsUnderProperDeletes`, `Fleet.EveryVmAccounted`).
- **Published gauges.** Every published value was the exact total at some earlier critical section, but an
  older value can be published last and stay (`LedgerRuns.GaugeCanStayStale`). In a run no gauge can come
  to rest on a wrong value if and only if no critical section is entered while a call still has a gauge to
  write with a value other than the total it leaves (`LedgerRuns.RightValuesIffCommitsAgree`). That calls
  do not overlap is sufficient, not necessary (`LedgerRuns.SerialAgrees`, `LedgerRuns.OverlapCanAgree`); it
  is exact for the gauges being written by the latest critical section (`LedgerRuns.SerialIffNeverStale`).
- **Links that stay.** The error of writing `vm.tap` is ignored, so a create can succeed without it;
  deleting that sandbox later leaves its TAP link for good, and undoes the create if and only if the file
  was written (`Lifecycle.DeleteUndoesCreate`). Over whole runs the links beyond the initial ones are the
  recorded ones if and only if no create leaves its link or succeeds without `vm.tap`, and no delete takes
  the directories that record links (`Fleet.NoStraysIff`).
- **Key revocation.** Once a key is no longer active, it is refused to every call whose cache check is a
  cache lifetime later, however things go on, if and only if no open validation has read rows in which its
  scan will find the key (`KeyCache.BoundIffNoOpenReader`); with such a reader there is no bound at all
  (`KeyCache.RevocationNeedsReadersDone`). A call that checked the cache before may return later
  (`KeyCache.HitReturnsLate`).
- **Wait group.** Its counter is the number of token holders, plus one while the launcher waits for a
  token, plus the workers that have given back their token and not yet left the group
  (`FanOut.GroupExceedsTokens`).
- **Ledger totals.** They are int64; they equal the sums exactly while the sums fit
  (`Ledger.TotalsExactWhileTheyFit`, `Ledger.TotalsCanOverflow`).
- **Single-quoted printing into `ParseCommand`.** The tokenizer treats a backslash inside single quotes as
  an escape, unlike a shell; arguments come back if and only if none is empty or contains a backslash
  (`Tokenizer.RecoverableGivesBack`).
- **Paging.** Pages after the last are empty if and only if the skip, as an int64, is at least the number
  of rows; page 2^58 + 1 of size 64 repeats the first page (`Paging.OverflowRepeatsFirstPage`).
- **MACs and CIDs.** They are distinct within a subnet if and only if its prefix length is at least 24,
  and the default network is a /22 (`Addressing.IdentifiersDistinctIffPrefix24`).

## Model

| member | source | states |
|---|---|---|
| `Tokenizer.ParseCommand` | pkg/util/parser.go:11-66 | the loop with its five variables computes the recursive automaton, unclosed quotes included |
| `Tokenizer.MeaningOfParts` | pkg/util/parser.go:18-65 | a command of ordinary, escaped and quoted parts and blanks or tabs, with any of them mixed in one argument, parses to the arguments read off its parts; a lone backslash at the end is dropped and an open quote is the error |
| `Tokenizer.EveryCommand` | pkg/util/parser.go:18-65 | every command is made of such parts, so its result is that reading |
| `Tokenizer.OrdinaryWordsRecovered` | pkg/util/parser.go:45-63 | words without blank, tab, quote or backslash, with blanks or tabs between, parse to themselves |
| `Tokenizer.ResultsComeFromInput` | pkg/util/parser.go:18-65 | every argument is non-empty, and the arguments put together are a subsequence of the command |
| `Tokenizer.CleanComposes` | pkg/util/parser.go:18-65 | if the first part ends unquoted and unescaped, parsing the two parts joined by a blank concatenates their results, with an error exactly when the second errs |
| `Tokenizer.ComposesExactlyWhenClean` | pkg/util/parser.go:18-65 | parsing distributes over a blank for every second part if and only if the first ends unquoted and unescaped |
| `Tokenizer.PrintedArgumentsRecovered` | pkg/util/parser.go:8-66 | any list of non-empty arguments, printed in double quotes with escapes, parses back to itself |
| `Tokenizer.BackslashNeverSurvives` | pkg/util/parser.go:25-37 | a single-quoted word containing a backslash is never read back, whatever follows it |
| `Tokenizer.RecoverableGivesBack` | internal/service/fs.go:107 | arguments printed as fs.go prints paths parse back to themselves if and only if none is empty or contains a backslash |
| `ShellWords.LexSingleQuoted` | internal/service/fs.go:107 | a printed path, whatever it contains and whatever follows, is read by the shell as that path |
| `ShellWords.LineRoundTrip` | internal/service/fs.go:101-291 | reading any printed command line gives its intended words and operators, in order |
| `ShellWords.DeleteFileWords` | internal/service/fs.go:101-115 | the shell reads rm, -rf and the path |
| `ShellWords.CreateDirectoryWords` | internal/service/fs.go:118-132 | the shell reads mkdir, -p and the path |
| `ShellWords.CreateFileWords` | internal/service/fs.go:135-153 | the shell reads mkdir -p of the directory, the and-operator, touch and the path |
| `ShellWords.MoveFileWords` | internal/service/fs.go:156-179 | the shell reads mkdir -p of the target's directory, the and-operator, mv -f, source and target |
| `ShellWords.CopyFileWords` | internal/service/fs.go:200-223 | the shell reads mkdir -p of the target's directory, the and-operator, cp -r, source and target |
| `ShellWords.HeadTailWords` | internal/service/fs.go:226-253 | the shell reads head or tail, -n, the clamped count in decimal and the path |
| `ShellWords.HeadTailLimits` | internal/service/fs.go:232-245 | the count sent is 10 for a non-positive one, 10000 for a larger one than that, and else the one asked for |
| `ShellWords.ChangePermissionsWords` | internal/service/fs.go:256-273 | the shell reads chmod, the mode and the path, each unchanged |
| `ShellWords.DiskUsageWords` | internal/service/fs.go:276-291 | the shell reads du, -sh and the path |
| `ShellWords.BuildersInjective` | internal/service/fs.go:101-291 | two calls of any of the eight builders send the same command if and only if they are of the same builder with the same cleaned paths and the same mode, or clamped line count and end |
| `Ledger.Manager.RegisterSandbox` | internal/metrics/manager.go:410-449 | the new maps and totals, the invariant kept, and the three gauges set to the new totals; nothing changes for an empty id or socket |
| `Ledger.Manager.UnregisterSandbox` | internal/metrics/manager.go:451-476 | the new maps and totals, the invariant kept, and the gauges set to the new totals; nothing changes for an empty id |
| `Ledger.SpecInBytes` | internal/metrics/manager.go:417-428 | CPUs count as they are and MiB as 2^20 bytes each, negative values as nothing |
| `Ledger.RegisterKeepsValid` | internal/metrics/manager.go:429-444 | registering, also an id that is already there, keeps totals equal to the int64 sums over the map and the three maps on the same keys |
| `Ledger.UnregisterKeepsValid` | internal/metrics/manager.go:457-472 | so does unregistering, also of an unknown id |
| `Ledger.TotalsExactWhileTheyFit` | internal/metrics/manager.go:432-440 | the totals are the unbounded sums if and only if all three fit an int64, and are then not negative |
| `Ledger.TotalsCanOverflow` | internal/metrics/manager.go:421-440 | two VMs of 2^42 MiB: the memory total is -2^63 |
| `Ledger.UnregisterUndoesRegister` | internal/metrics/manager.go:410-476 | unregistering gives back the ledger before the registration of an unknown id |
| `LedgerRuns.PublishedValuesWereTotals` | internal/metrics/manager.go:429-476 | in every interleaving each published value is the sum over the map as some earlier critical section left it |
| `LedgerRuns.OlderTotalsCanWin` | internal/metrics/manager.go:441-448 | from any state, two new calls can overlap so that, with nothing publishing any more, the vCPU gauge shows what the first left |
| `LedgerRuns.GaugeCanStayStale` | internal/metrics/manager.go:441-476 | whatever the ledger, a registration overtaken by its unregistration can leave the ledger as it was and the gauge counting the sandbox |
| `LedgerRuns.SerialGaugesAreCurrent` | internal/metrics/manager.go:446-476 | if no call enters its critical section while another publishes, all three gauges are as the latest one wrote them whenever none is publishing |
| `LedgerRuns.SerialIffNeverStale` | internal/metrics/manager.go:441-476 | no call enters its critical section while another publishes if and only if at no point of the run the remaining gauge writes can be ordered so that a gauge comes to rest as written by another critical section than the latest, which may have left the same value |
| `LedgerRuns.CanEndWrongIff` | internal/metrics/manager.go:441-476 | for each gauge in any state: the remaining writes can be ordered so that it ends with a value other than the current total if and only if a call that still has it to write holds another value, or none has and it is wrong already |
| `LedgerRuns.RightValuesIffCommitsAgree` | internal/metrics/manager.go:429-476 | at no point of a run a gauge can come to rest on a wrong value if and only if no critical section is entered while a call still has a gauge to write with a value other than the total it leaves |
| `LedgerRuns.SerialAgrees` | internal/metrics/manager.go:429-476 | calls that do not overlap meet that condition |
| `LedgerRuns.OverlapCanAgree` | internal/metrics/manager.go:451-476 | so do two overlapping unregistrations of unknown ids |
| `LedgerRuns.OvertakenCanWin` | internal/metrics/manager.go:441-476 | from any state in which a publishing call has been overtaken, all calls, waiting ones included, can return with a gauge written by an earlier critical section |
| `KeyCache.ScanIsFirstMatch` | internal/service/apikey.go:208-224 | the scan returns the newest matching key; it depends only on the matching keys and their order |
| `KeyCache.APIKeyService.ValidateKey` | internal/service/apikey.go:191-225 | a fresh entry answers and nothing changes; else the first key of the store that verifies answers and is kept for one lifetime; store error and no match answer none and change nothing |
| `KeyCache.APIKeyService.ValidateTwice` | internal/service/apikey.go:194-222 | after a call that found a key, a second within the lifetime returns it whatever the store then answers |
| `KeyCache.HitsForOneLifetime` | internal/service/apikey.go:194-222 | in every interleaving, after a call has found a key at t and until another finds one for the same plain key, its checks hit with that key before t + TTL and miss from then on |
| `KeyCache.MissesBeforeAnyFind` | internal/service/apikey.go:194-203 | in every interleaving, checks of a plain key that no call has found a key for miss |
| `KeyCache.AnswersNewestMatch` | internal/service/apikey.go:203-224 | in every interleaving, a call that read the store answers with the newest row that was then active and verifies, or none if there is none |
| `KeyCache.FailedReadAnswersNone` | internal/service/apikey.go:203-206 | the read of the store can fail at any time; its call answers with none and caches nothing |
| `KeyCache.CacheIsTransparent` | internal/service/apikey.go:194-222 | in every interleaving a cached key verifies, was active when read, and equals the result of a full scan while the matching active rows are those read then |
| `KeyCache.BoundIffNoOpenReader` | internal/service/apikey.go:191-225 | in any reachable state without the key among the active rows, every way of going on without reactivating it respects the bound of one lifetime if and only if no open call has read rows in which its scan finds the key |
| `KeyCache.RevocationBound` | internal/service/apikey.go:191-225 | in every interleaving, a key revoked at r for good is not returned by any call that checks the cache at or after s + TTL, where by s >= r all validations that read before r are done |
| `KeyCache.RevocationNeedsReadersDone` | internal/service/apikey.go:202-222 | for any key and any matching relation, a run in which a validation reads before the revocation at r and the key is accepted from the cache arbitrarily late |
| `KeyCache.HitReturnsLate` | internal/service/apikey.go:194-199 | a call that has hit the cache can return the key arbitrarily late, which is why the bound is on the time of the check |
| `FanOut.BoundedAndCounted` | internal/service/sandbox.go:421-489 | in every reachable state at most the channel's capacity hold a token, and the wait group counts token holders, the waiting launcher and workers about to leave |
| `FanOut.GroupExceedsTokens` | internal/service/sandbox.go:445-449 | a run in which the wait group counts one with no token held, first for the waiting launcher and later for a worker that has given back its token |
| `FanOut.MovesDecrease` | internal/metrics/manager.go:505-587 | every step lowers a measure, given that workers finish |
| `FanOut.NeverStuck` | internal/metrics/manager.go:505-587 | with room for a token, as both uses ensure, every reachable state that has not returned has an enabled step |
| `FanOut.RunsEndProperly` | internal/service/sandbox.go:421-489 | runs are bounded by the work in them; one cannot continue if and only if it has returned, with every worker done except for skipped rows |
| `Refresh.SequentialRefresh.Run` | internal/service/sandbox.go:451-485 | the loop that recomputes and writes every row leaves each row running for an answer "running" or "runningvirtualized" in any letter case, paused for "paused", stopped for any other, no answer or no socket; no other rows |
| `Refresh.RefreshIsFanOut` | internal/service/sandbox.go:421-489 | a refresh, its table forgotten, is a run of the fan-out |
| `Refresh.FinishedRefresh` | internal/service/sandbox.go:409-491 | every finishing interleaving, with any set of failing writes: no row added or removed, each row recomputed or, if its write fails, unchanged, and one write attempt exactly for each row whose status differs |
| `Refresh.RowsAreRight` | internal/service/sandbox.go:434-485 | every finishing interleaving leaves each row with the status its answer calls for in those terms, unless its write fails, tries to write exactly the rows that did not have it, and starts no worker exactly for stopped rows without a socket |
| `Refresh.RefreshRefinesLoop` | internal/service/sandbox.go:409-491 | if writes succeed, every finishing interleaving leaves the table of the sequential loop |
| `Refresh.SecondRefreshWritesNothing` | internal/service/sandbox.go:434-485 | no state of a second refresh of an unchanged host has written anything |
| `Refresh.RefreshEnds` | internal/service/sandbox.go:424-490 | a refresh takes at most seven steps a row and one, and gets stuck nowhere before it returns |
| `Addressing.ReadOfDotted` | internal/repository/sandbox.go:126-136 | reading the text of an address, four numbers with the first counting most, gives it back |
| `Addressing.DottedInjective` | internal/repository/sandbox.go:126-136 | different addresses have different texts, so the set of texts is a set of addresses |
| `Addressing.AndBits` | internal/config/config.go:275-277 | a conjunction has the binary digits that both numbers have |
| `Addressing.AndMask` | internal/config/config.go:275-277 | ANDing with a mask of leading ones clears exactly the low bits |
| `Addressing.NetmaskText` | internal/config/config.go:269-280 | the netmask text reads as the address with as many leading ones as the prefix is long and zeros after; "255.255.252.0" for a CIDR that does not parse |
| `Addressing.SubnetIsWalkedRange` | internal/repository/sandbox.go:106-136 | an address ANDed with the netmask is the network address if and only if the allocator walks through it |
| `Addressing.OwnAddressInRange` | internal/repository/sandbox.go:106-136 | the walked range holds the CIDR's own address |
| `Addressing.RangeFits` | internal/repository/sandbox.go:106-136 | the walked range ends within the address space |
| `Addressing.NetmaskDeterminesPrefix` | internal/config/config.go:269-280 | two CIDRs get the same netmask text if and only if they have the same prefix length |
| `Addressing.FallbackIsSlash22` | internal/config/config.go:269-280 | the fallback text is the netmask of a /22 |
| `Addressing.IdentifiersFromLastOctet` | pkg/network/host.go:101-112 | the MAC ends in the fourth number of the address in two upper-case hexadecimal digits, the CID is that number plus 1000; the values for text that is no IPv4 address |
| `Addressing.SameIdentifiers` | pkg/machine/manager.go:282-293 | two addresses get the same MAC, and the same CID, if and only if they agree modulo 256; CIDs lie in 1000..1255 |
| `Addressing.WideRangeCollides` | pkg/network/host.go:101-112 | a range wider than a /24 has two addresses with the same MAC and CID |
| `Addressing.IdentifiersDistinctIffPrefix24` | pkg/network/host.go:101-112 | all MACs, and all CIDs, of a range differ if and only if its prefix length is at least 24 |
| `Addressing.TwoOf257Collide` | pkg/machine/manager.go:282-293 | among any 257 addresses two share MAC and CID |
| `Allocator.SandboxRepository.Init` | internal/repository/sandbox.go:69-96 | exactly the non-empty addresses up to the first undecodable row are added; the error cases |
| `Allocator.DecodedMembers` | internal/repository/sandbox.go:80-90 | the addresses loaded are those of rows all whose predecessors decode |
| `Allocator.SandboxRepository.NextAvailableIP` | internal/repository/sandbox.go:100-144 | the retry loop and the walk return the first drawn address that is free, mark it and nothing else, and change nothing on failure |
| `Allocator.FailsIffAllDrawsTaken` | internal/repository/sandbox.go:112-143 | an allocation fails if and only if the range has a single address or all 100 draws hit addresses in use |
| `Allocator.ReturnsFirstFreeDraw` | internal/repository/sandbox.go:117-143 | the text returned reads as the network address plus the first of the 100 draws that is free, an address in the range |
| `Allocator.AllocatorSafety` | internal/repository/sandbox.go:58-144 | over any run of calls the texts returned are of addresses in range, not loaded ones, pairwise distinct, and no more than were free |
| `Allocator.AllocatedIdentifiersDistinct` | pkg/network/host.go:101-112 | of texts allocated from a /24 or narrower the MACs and the CIDs are pairwise distinct |
| `Allocator.Allocations257Collide` | pkg/machine/manager.go:282-293 | any 257 allocated texts contain two different ones with the same MAC and CID |
| `Machine.Host.PrepareInstance` | pkg/storage/disk.go:25-77 | whether it succeeds, and that the directory exists afterwards even if the overlay fails |
| `Machine.Host.CreateRandomTap` | pkg/network/host.go:17-64 | the first acceptable random name is added; a link that cannot be looked up stays, one whose MAC is refused is removed |
| `Machine.TapIsFirstAccepted` | pkg/network/host.go:20-41 | a link is added if and only if the prefix has at most nine characters and one of five random names is accepted, and it gets the first accepted |
| `Machine.Host.Start` | pkg/machine/manager.go:20-226 | fresh boot: processes, links and directory files after success and after a failure of each step |
| `Machine.Host.Stop` | pkg/machine/manager.go:232-257 | the process and the link named by the directory's files are gone, and so are those files |
| `Machine.Host.Delete` | pkg/machine/actions.go:8-22 | stopped and, if removal succeeds, without its directory; the empty id and ".." take all instance directories, "." none |
| `Lifecycle.SandboxService.Create` | internal/service/sandbox.go:145-249 | the whole state after success and after each failing step, as the composition of the steps and their clean-ups, and the row returned |
| `Lifecycle.SandboxService.Delete` | internal/service/sandbox.go:313-327 | the whole state after success and each failure: directory and ledger go by the text of the id, the row by the object id it parses to; a directory that cannot be removed keeps ledger and row, an unparsable id or a failing database the row |
| `Lifecycle.SandboxService.Stop` | internal/service/sandbox.go:329-337 | VM stopped and unregistered; row and directory stay |
| `Lifecycle.SandboxService.RegisterMetricsForExisting` | internal/service/sandbox.go:380-405 | every listed row is registered with its socket, name, CPUs, memory and disk, the default disk where it has none; nothing if the rows cannot be listed |
| `Lifecycle.RegisterAllEffect` | internal/service/sandbox.go:392-402 | re-registration registers exactly the listed rows and keeps every other entry |
| `Lifecycle.CreateStepByStep` | internal/service/sandbox.go:179-248 | the steps with their clean-ups amount to the net effect, which only the first failing step decides |
| `Lifecycle.SucceedsExactly` | internal/service/sandbox.go:179-242 | a create succeeds if and only if each of its steps does, the agent being waited for unless the request says not to |
| `Lifecycle.CreatedSandbox` | internal/service/sandbox.go:224-248 | what success leaves: the row as requested with defaults for 0 and status running, the address taken, the VM with its pid file and link, the sandbox registered, all else as before |
| `Lifecycle.FailedStartCleaned` | pkg/machine/manager.go:39-83 | after a failed start and the rollback at most the TAP link is left, and exactly when |
| `Lifecycle.StartedState` | internal/service/sandbox.go:202-242 | after a successful start, stop and rollback give back everything but an unrecorded link |
| `Lifecycle.AllOrNothing` | internal/service/sandbox.go:145-249 | of the composed steps: the address pool grows by exactly one, and a create that does not succeed leaves all else as before if and only if it did not fail at the overlay and did not leave its TAP link |
| `Lifecycle.FailedCreateCanLeak` | internal/service/sandbox.go:179-195 | on an empty host, a refused overlay leaves the directory and a VMM that cannot be spawned leaves the link |
| `Lifecycle.RollbackFromSocketWait` | internal/service/sandbox.go:185-242 | with vm.tap written, a failure at the socket wait, vm.create, vm.boot, bridge, agent or database changes nothing but the pool |
| `Lifecycle.DeleteUndoesCreate` | internal/service/sandbox.go:313-327 | deleting a created sandbox by its printed id restores the state before, its address staying allocated, if and only if vm.tap was written when it was created |
| `ObjectIds.ParseOfHex` | pkg/util/objectid.go:11-17 | the printed text of an object id parses to that id |
| `ObjectIds.CanonicalIffNoCapitals` | pkg/util/objectid.go:11-17 | a text that parses is the printed one if and only if it has no capital letter |
| `Conservation.DeleteConservesIff` | internal/service/sandbox.go:313-327 | a delete keeps the registered ids within the database, with their shares, if and only if it drops no row, or its text is the printed id, or the sandbox is not registered |
| `Conservation.StepConservesIff` | internal/service/sandbox.go:313-405 | create, stop, refresh, crash and restart keep the ledger backed by rows, and a delete under exactly that condition |
| `Conservation.RunConservesIff` | internal/service/sandbox.go:145-405 | a run keeps the ledger backed by rows throughout if and only if all its deletes meet that condition |
| `Conservation.TotalsAreSumsOverRows` | internal/service/sandbox.go:244-246 | in every run whose deletes meet it, whatever fails, the registered ids are printed ids of rows, and the totals are the sums of CPU, memory and disk over the registered rows |
| `Conservation.TotalsUnderProperDeletes` | internal/service/sandbox.go:244-246 | so in every run whose deletes carry ids as printed, or text that is no object id |
| `Conservation.RestartRegistersRunning` | internal/service/sandbox.go:380-405 | after a restart the registered ids are exactly the printed ids of the listed rows, each with its socket, name and share, and the totals are the sums over them |
| `Conservation.ShareInBytes` | internal/metrics/manager.go:417-428 | within the int64 range a row counts its CPUs and its memory and disk as MiB, the default disk standing in for 0 |
| `Fleet.LinksStayOwned` | pkg/machine/manager.go:247-252 | in every run, whatever fails and whatever deletes name, each recorded link exists and is recorded by one sandbox only |
| `Fleet.ForeignLinksKept` | pkg/machine/manager.go:247-252 | in every run the links that were there at the start stay, and no sandbox records one of them |
| `Fleet.NoStraysIff` | pkg/machine/manager.go:39-73 | throughout a run the links beyond the initial ones are exactly the recorded ones if and only if no create leaves its link behind or succeeds without vm.tap, and no delete names all directories while they record links of others |
| `Fleet.EveryVmAccountedIff` | internal/service/sandbox.go:145-337 | throughout a run each VMM process has a database row and a pid file if and only if no delete names all directories while VMs run or drops the row of a running VM by another spelling |
| `Fleet.EveryVmAccounted` | internal/service/sandbox.go:145-337 | in every run whose deletes carry ids as printed, or text that names nothing else, each VMM process has a row and a pid file, and a stop or delete leaves no process |
| `Fleet.OperationsAreIsolated` | internal/service/sandbox.go:145-337 | in every run a create, stop or delete leaves another sandbox's process, directory, link, row and ledger entry alone if and only if it is not a delete that names all directories, the other's included, or parses to the other's id and drops its row |
| `Fleet.CapitalsOrphan` | internal/service/sandbox.go:313-327 | a run: the id of a running sandbox spelled in capitals drops its row and leaves process, directory, link and ledger entry |
| `Fleet.ParentOrphans` | pkg/machine/actions.go:14-20 | a run: a delete of ".." leaves a process without a pid file, which a delete of its own sandbox then does not stop |
| `Fleet.AddressesStayDistinct` | internal/repository/sandbox.go:58-144 | in every run whose restarts load the database's addresses, rows have pairwise distinct addresses that the allocator will not give out again |
| `Fleet.DistinctIffLoaded` | internal/repository/sandbox.go:118-136 | a completing create keeps addresses distinct for all draws if and only if every address of the pool held by a row is in the allocated set |
| `Fleet.StartupCanDuplicate` | internal/repository/sandbox.go:47-55 | with the empty set a new repository starts from, a restart between two creates can leave two running sandboxes with one address |
| `Relay.RelaySafety` | internal/handler/pty.go:54-127 | in every interleaving each direction delivers a prefix of what it read with lag at most one, shutdown is closed at most once, and exactly once before the handler returns |
| `Relay.AtMostOneAfterShutdown` | internal/handler/pty.go:206-273 | from any state with shutdown closed each direction delivers at most one more message, none if its goroutine has exited |
| `Relay.EndsWhenConnectionsFail` | internal/handler/pty.go:54-128 | from any reachable state, if the connections fail both goroutines can exit and the handler return |
| `Relay.DeliversEverything` | internal/handler/pty.go:65-94 | from any reachable state with the channel open a direction that meets no failure can deliver all its peer sends, whatever the other does |
| `Handshake.DialVsock` | pkg/machine/agent_client.go:26-95 | which error is returned, and none if and only if every call succeeds and the first line is acceptable; exactly that line is consumed; the connection is closed if and only if an error is returned after dialling |
| `Handshake.Handshake` | pkg/machine/agent_client.go:47-89 | the read loop ends, reads at most 65 bytes, and succeeds exactly on an acceptable first line |
| `Handshake.AcceptsOK` | pkg/machine/agent_client.go:80-84 | a line is accepted if and only if it is white space in UTF-8, then OK, then anything |
| `Handshake.ErrorsMean` | pkg/machine/agent_client.go:48-89 | which error stands for which failure: a failed call, 65 bytes without a newline, a stream ending before one, or a line that does not say OK |
| `Handshake.Framing` | pkg/machine/agent_client.go:58-84 | a peer's line is accepted if and only if it has at most 64 bytes and starts with OK after trimming, and what follows its newline is left unread |
| `Paging.List` | internal/handler/sandbox.go:31-72 | page, limit, total, totalPages and rows answered for any query, or the error for a negative skip |
| `Paging.ListByOrgPaginated` | internal/service/sandbox.go:54-101 | the rows of the clamped page, the total and the effective size |
| `Paging.PagesPartition` | internal/handler/sandbox.go:63-71 | pages 1..totalPages concatenate to the collection, all but the last full, the last not empty |
| `Paging.LaterPagesEmpty` | internal/service/sandbox.go:78-81 | a later page is empty if and only if its int64 skip is at least the number of rows, as it is whenever the product does not overflow |
| `Paging.OverflowRepeatsFirstPage` | internal/service/sandbox.go:78-81 | page 2^58 + 1 of size 64 is the first page again |

## Left out

- Ledger.Manager.UnregisterSandbox: per-device series, disk-scrape bookkeeping and label deletion are not modelled; the totals part is.
- Paging.List: the organisation id and store errors other than a rejected negative skip; `total + size - 1` is unbounded, so collections within 100 rows of 2^63 are outside the model.
- Handshake.DialVsock: a read that returns no byte and no error, and the timeout as a duration, are not modelled.
- Allocator.SandboxRepository.NextAvailableIP: IPv6 CIDRs and the wrap-around of a /0 walk; the github.com/3th1nk/cidr library is not part of this model, its walk being every address of the range in ascending order.
- Allocator.SandboxRepository.Init: creating the index; the startup code does not call it, so allocator runs start from an arbitrary set of loaded addresses.
- Machine.Host.CreateRandomTap: a failing random source, and the length test on the full name, which the prefix test makes redundant.
- Machine.Host.Start: restore mode, and the contents of the payload sent to the VMM.
- Machine.Host.Delete: a removal that fails partway, and what ".." removes beside the instance directories.
- Machine.Host.Stop: files of that name outside the instance directories, reuse of a pid by another process, and failures of the signal, of the link deletion and of the file removals.
- Lifecycle.SandboxService.Create: the generated object id is fresh by precondition; directory removal in the rollback succeeds; environment variables sent to the agent, owner and timestamps are not part of the row.
- Lifecycle.SandboxService.Delete: its id has no slash, as the route guarantees.
- Conservation.RunConservesIff: whole calls are single steps, here and in `Fleet`; a create and a delete that overlap are not modelled.
- Refresh.RefreshRefinesLoop: the host and the rows of the table do not change from outside while a refresh runs; lower-casing is exact only where the result is an ASCII letter, which is all that the compared words need.
- KeyCache.APIKeyService.ValidateKey: the last-used timestamps written to the store; bcrypt is an arbitrary relation, and every change of the rows is an environment step, so nothing depends on how the repository merges updates.
- Relay.RelaySafety: liveness; a reader blocked on a connection nobody closes may never return.
- FanOut.RunsEndProperly: workers are assumed to finish; what a poll worker measures is not modelled.
- Text is a sequence of runes: UTF-8 decoding of invalid bytes and NUL bytes are not modelled; `filepath.Clean` and `filepath.Dir` are arbitrary functions.
- The shell reader covers sections 2.2.1, 2.2.2 and 2.3 of the POSIX.1-2017 Shell Command Language as far as the commands use them; every other construct is reported as unsupported.
- `StatFile`, `SearchFiles`, `CompressFile`, `ExtractArchive`: format strings, redirections and pipes of their own.
- Prometheus: a gauge is a cell holding the integer it was last set to, without the rounding of float64.
- MongoDB: a collection is a map or a sequence in a stable order; drivers, indexes and partial failures are not modelled.
- A nil metrics manager, for which the ledger calls are skipped.
- Restore, snapshots, pause and resume, users, organisations, images, sessions and environment parsing: easy members only.
