# Verified model of simple-p2p

simple-p2p is a file exchanger for a local network. A node announces its resources in UDP beacons,
learns what the others have, and downloads a file in 1 KiB segments from several hosts at once. This
project models its logic in Dafny and proves what its headers and its design document promise, or
exactly how far the code keeps the promise. Check everything with `dafny verify dfyconfig.toml`.

## What is modelled

- **Downloads** (`CompleteResource.dfy`, `Scheduler*.dfy`). `CompleteResources.CompleteResource` is the
  shared segment table as a class; each method is one critical section and is proved equal to a function
  on the value `Table`. `Scheduler` is the transition system of the workers, the table and the polling
  service, one step per critical section or atomic access: the completion test and the scan of
  `get_segment` are two steps, `check_timeout` is four (read the flag, read the owned id, release, set the
  flag), a reply arrives in any number of pieces and may break off, `notify_one` wakes any sleeper, wakeups may be
  spurious. Runs are all interleavings, from any contents of the uninitialised buffer.
  `SchedulerInvariants` holds what each step keeps, `SchedulerTheorems` and, for the service, `SchedulerService`
  what holds in every state of every run, `SchedulerStore` compares runs that differ only in the initial buffer, and `SchedulerScenarios` has
  the runs which show that the conditions of the theorems are needed. `Histories` has the argument
  by which the if-and-only-if theorems about runs find the step that first makes something true.
- **Segments and service** (`Segments.dfy`, `SegmentRequest.dfy`). Splitting, the server's length
  arithmetic, reading and padding, the request on the wire, and the slice that comes back.
- **Database** (`Database*.dfy`, `ResourceDatabase.dfy`). Hosts and resources point at each other through
  lists with duplicates. A resource pointer is its index (that vector never shrinks); a host pointer is a
  number never reused, so pointers to a removed host stay distinguishable and following one is the outcome
  `NullDereference`. The class updates the vectors in place; the functions of `Database` are its
  specification; `DatabaseTheorems` proves that they refine a plain relation between resources and addresses, and
  `DatabaseOrder` and `DatabaseLists` tell from the history the order of the lists, their repetitions, and what is
  stored and revoked.
- **Beacons** (`Beacon.dfy`, `ResourceHeader.dfy`, `Bytes.dfy`). Headers, packets, the receiver, and delivery
  of any packets in any order and with repeats. Integers are in the network byte order of Appendix B of RFC 791.
- **Two small protocols** (`TransmitQueue.dfy`, `FileLocks.dfy`). The queue of outgoing datagrams and the
  read and write lock lists of the file manager.

## Where the code and its promises differ

- `is_completed` is documented as "all segments have been downloaded". It counts repeated completions too, so
  it holds exactly when as many segments are missing as were completed twice, modulo 2^16 (`CompletedIff`); one
  timeout of a download in flight is enough to store a wrong file (`DuplicateStoresWrongFile`). The stored file
  is right whatever the uninitialised buffer held exactly when every byte arrived (`StoredRightIff`).
- A worker can sleep through completion: exactly when it starts to wait after the completing `set_segment`,
  for want of a test between the scan and the wait (`SleepsThroughIff`, `LateSleeper`, `SleeperCanBeForgotten`).
- A repeated completion can also leave a free segment to a sleeper nobody will wake (`DuplicateStrandsSleeper`).
  This happens exactly when a worker is told "completed" while a segment is free, another worker sleeps, and there
  are no more workers on their way to a scan than segments are free (`StrandedIff`, `AnswersTrue`). `DeadlockIff`
  says exactly when the whole download is stuck.
- The timeout check releases a segment exactly when the worker has recorded one before; otherwise it releases
  `NO_SEGMENT_ID`, outside the table (`ReleaseDefinedIff`, `TimeoutBeforeFirstSegment`).
- `remove_file` should answer false for what the host does not have (include/ResourceDatabase.h:41-48). It answers
  as if no revocation had ever happened (`RemoveAnswerIsHistory`), so it answers true for a host that lost the
  resource to a revocation (`RevokedRemovalSaysTrue`), and `RemoveResult` says exactly when it is right.
- A host removed after a revocation leaves a dead pointer, and only such a removal does (`DanglesIsHistory`). A later
  revocation follows it (`RevocationCrashesIff`, `SecondRevocationCrashes`), and so does `remove_file` when it comes to
  it before the host it looks for (`RemovalCrashesIff`, `RemovalCrashes`). The program does not get there today: nothing
  in it increases `no_of_missed_updates`, so no host is ever removed (`NoRemovalNoDeadPointer`).
- The document says that a resource revoked during its download is never announced by the new owner
  (doc/Polish/TIN-Dokumentacja.tex:148); the code announces it (`RevokedDownloadIsAnnounced`),
  and is silent exactly when nothing after the revocation announces the resource (`SilentAfterRevocationIff`).
- The document says that a beacon replaces the receiver's list of the sender
  (doc/Polish/TIN-Dokumentacja.tex:150); the code only adds to it (`DeliveryIsUnion`),
  so the lists end up equal exactly when the receiver's was contained in the sender's (`BeaconReplacesIff`), and what
  the sender removed stays listed (`RemovedStaysListed`).
- The document gives the number of files in a beacon 16 bits (doc/Polish/TIN-Dokumentacja.tex:194); the code
  sends 64, and so does the model.
- `read_lock` tests the write list and inserts into the read list under different mutexes, so a file can be
  locked both ways, and only through that gap (`OverlapNeedsGap`, `GapBreaksExclusion`); it is exactly when one of
  the two adds its entry while the other list has the file (`OverlapIff`).
- A read lock should keep others from overwriting the file until it is closed, but read locks are not counted: the
  first `read_unlock` ends the lock of every reader of the file (`ReadLockedIff`).
- `read_unlock` should enable other threads to write, but notifies nobody, and both locks enter `wait` without
  testing again. `WriterStrandedIff` and `ReaderStrandedIff` say exactly when a thread is left waiting for a file it
  could lock (`ReadUnlockStrandsWriter`, `NotifyBeforeSleep`); the one writer the program has then waits for ever,
  unless it is woken by accident (`LoneWriterWaits`).
- One failed or aborted datagram can stop the transmit queue for good (`StalledIff`, `ErrorStalls`).

## Model

| member | source | states |
|---|---|---|
| CompleteResources.CompleteResource.constructor | src/CompleteResource.cpp:5-10 | every segment is free, none is completed, and, up to the largest file, the download counts as completed at once exactly for an empty file |
| CompleteResources.CompleteResource.ScanOrWait | src/CompleteResource.cpp:27-37 | returns the first segment that is neither busy nor completed and marks it, or finds none and joins the waiting threads, changing nothing else |
| CompleteResources.CompleteResource.SetSegment | src/CompleteResource.cpp:43-53 | new table, counter modulo 2^16, and all waiting threads notified exactly when the counter reaches the count |
| CompleteResources.CompleteResource.UnsetBusy | src/CompleteResource.cpp:65-69 | for an id of the table the new table and exactly one waiting thread notified when there is one; any other id is reported as undefined and changes nothing |
| CompleteResources.DoneAndMissing | src/CompleteResource.cpp:5-8 | completed and missing segments together are all the segments |
| SchedulerInvariants.ShapeKept | src/DownloadWorker.cpp:50-118 | every step keeps ids inside the table, and a worker that downloads has recorded the id it downloads |
| SchedulerInvariants.CountedKept | src/CompleteResource.cpp:43-47 | every step keeps the counter equal to completed segments plus repeated completions, modulo 2^16 |
| SchedulerInvariants.DoneGrows | src/CompleteResource.cpp:43-47 | no step clears a completed bit |
| SchedulerInvariants.DataRightKept | src/DownloadWorker.cpp:96-101 | every step keeps completed slots, and the received part of slots in flight, equal to the padded source, with several workers on one slot and replies cut off |
| SchedulerInvariants.ReplyIsReceive | src/DownloadWorker.cpp:130-137 | copying any part of the server's reply into the slot is receiving those bytes of the padded source |
| SchedulerInvariants.BusyHeldKept | src/CompleteResource.cpp:30-34 | a busy segment is always held by some worker |
| SchedulerInvariants.NoneStrandedKept | src/CompleteResource.cpp:28-53 | while anyone sleeps, the free segments never outnumber the workers on their way to a scan; every step keeps this unless it tells a worker "completed" with a segment free |
| SchedulerInvariants.StrandedNext | src/CompleteResource.cpp:22-69 | the steps that strand a sleeper are exactly those false answers that take away a needed worker |
| SchedulerInvariants.ReleaseKeepsNoneStranded | src/CompleteResource.cpp:65-69 | a release frees at most one segment and its notification adds one scanning worker |
| SchedulerInvariants.SleepersFollowTheTable | src/CompleteResource.cpp:37-69 | the sleeping workers change exactly as the waiting set of the class does |
| SchedulerInvariants.ExclusiveKept | src/CompleteResource.cpp:30-69 | a step that releases nothing in flight keeps one holder per busy segment and completes no segment twice |
| SchedulerInvariants.InFlightReleaseBreaks | src/DownloadWorker.cpp:157-165 | releasing a segment in flight breaks exclusion at once |
| SchedulerTheorems.RunKept | src/DownloadService.cpp:67-82 | all of these hold in every state of every run |
| SchedulerTheorems.CompletedIff | include/CompleteResource.h:67-74 | `is_completed` holds exactly when as many segments are missing as were completed twice, modulo 2^16; with no duplicate exactly when nothing is missing; and when it holds, nothing is missing exactly when the duplicates are a multiple of 2^16 |
| SchedulerTheorems.CompletedForGood | src/CompleteResource.cpp:43-47 | completed segments stay completed over the whole run |
| SchedulerTheorems.CompletedSlotIsSource | src/DownloadWorker.cpp:130-137 | from completion on the slot holds the source bytes for the rest of the run, timeouts and repeated downloads included |
| SchedulerTheorems.CompletedNeverGranted | src/CompleteResource.cpp:30-35 | `get_segment` never returns a segment completed earlier in the run |
| SchedulerTheorems.StoredIsSource | src/FileManager.cpp:124-129 | what is stored is the source file when the poll saw no duplicate |
| SchedulerTheorems.StrandedIff | src/CompleteResource.cpp:22-69 | within any number of steps the free segments outnumber the workers on their way to a scan while someone sleeps if and only if a worker was told "completed" with a segment free, another asleep and no scanning worker to spare |
| SchedulerTheorems.FreeSegmentsHaveScanners | src/CompleteResource.cpp:22-53 | no lost wakeup otherwise: with a sleeper, at least as many awake workers are in `get_segment` as there are free segments, as long as no step stranded one |
| SchedulerTheorems.AnswersTrue | src/CompleteResource.cpp:22-26 | no worker was told so before a repeated completion, nor, repeated completions included, before `is_completed` first held |
| SchedulerTheorems.SleepersAreNotAlone | src/CompleteResource.cpp:22-41 | with a sleeper and something missing, another worker can take a step of its own, as long as no step stranded a sleeper |
| SchedulerTheorems.DeadlockIff | src/DownloadWorker.cpp:50-118 | within any number of steps every worker is asleep or ended, one asleep and something missing, if and only if the last active worker ended, by a failed connection, an answer "completed" or being closed, while another slept and something was missing |
| SchedulerTheorems.LateSleeper | src/CompleteResource.cpp:22-41 | a worker asleep after completion made the test that led to this sleep before the `set_segment` that completed the download, and started to wait after it |
| SchedulerTheorems.SleepsThroughIff | src/CompleteResource.cpp:22-41 | within any number of steps a worker is asleep in a completed state if and only if it started to wait in one |
| SchedulerTheorems.NoReleaseExclusive | src/DownloadWorker.cpp:96-118 | without release in flight every state is exclusive and no segment is ever completed twice |
| SchedulerTheorems.ExclusiveIffNoInFlightRelease | src/DownloadWorker.cpp:96-165 | all states of a run are exclusive if and only if no step of it releases a segment in flight |
| SchedulerTheorems.SlotsDisjoint | src/CompleteResource.cpp:33-33 | two holders write to disjoint slots inside the buffer |
| SchedulerTheorems.GrantsConserved | src/CompleteResource.cpp:30-69 | in every run the times a segment was handed out are its completions, its failed downloads and its present holders together |
| SchedulerTheorems.GrantedOnce | src/CompleteResource.cpp:30-35 | without release in flight a segment was handed out once per failed download of it, and once more exactly if it is busy or completed |
| SchedulerTheorems.DownloadIsFaithful | src/DownloadService.cpp:27-36 | a run without release in flight stores the source file, and `is_completed` means that nothing is missing |
| SchedulerTheorems.ClosedTakesAtMostOne | src/DownloadWorker.cpp:50-78 | a closed worker takes at most one more segment in the rest of the run |
| SchedulerTheorems.OwnedOnceRecorded | src/DownloadWorker.cpp:17-17 | the owned id names a segment if and only if the worker has recorded one before |
| SchedulerTheorems.ReleaseDefinedIff | src/DownloadWorker.cpp:157-165 | the id the timeout check reads can be released if and only if the worker recorded one before |
| SchedulerService.ClosedIffFailed | src/DownloadWorker.cpp:25-46 | until the download is over a worker is closed if and only if it failed to connect or failed in a download |
| SchedulerService.GiveUpIff | src/DownloadService.cpp:75-77 | after a poll that timed out the service can give up if and only if every worker whose host is not banned has failed before |
| SchedulerService.AbortedIff | src/DownloadService.cpp:67-82 | a download is given up if and only if a poll found it not completed and by then every worker whose host is not banned had failed |
| SchedulerService.TimeoutedIff | src/DownloadWorker.cpp:157-165 | a worker counts as timed out if and only if the service marked it and it received no whole segment since |
| SchedulerService.ReleasesExpiredOnly | src/DownloadWorker.cpp:157-165 | what the service releases is the id it read from a worker that was timed out when the service looked |
| SchedulerService.SweepReachesAll | src/DownloadService.cpp:90-94 | a sweep begins after a poll that timed out and ends only when every worker has been marked in it |
| SchedulerService.SweepLastsIff | src/DownloadService.cpp:67-94 | a sweep goes on if and only if it has not reached everybody and has not released outside the table |
| SchedulerService.StoredAfterPoll | src/DownloadService.cpp:27-36 | a file is stored only after a poll that found the download completed |
| SchedulerService.ConnectingIff | src/DownloadWorker.cpp:25-46 | a worker is connecting until its attempt to connect |
| SchedulerService.DialsOnce | src/DownloadWorker.cpp:25-46 | a worker tries to connect once |
| SchedulerService.ReceivedIsCompletedNext | src/DownloadWorker.cpp:96-101 | a worker with a whole reply keeps its segment if and only if it has not completed it: such a download does not fail |
| SchedulerService.WorkerGoesOnIff | src/DownloadWorker.cpp:50-71 | a worker can take a step of its own if and only if it is neither asleep nor ended |
| SchedulerService.ServiceGoesOnIff | src/DownloadService.cpp:67-82 | the service can go on if and only if it has not stored the file, given up, or released outside the table |
| SchedulerService.GrantedInOrder | src/CompleteResource.cpp:30-35 | a segment is handed out only after every segment before it has been |
| SchedulerStore.StoredRightIff | src/CompleteResource.cpp:9-9 | over all contents of the uninitialised buffer, the stored bytes are the source if and only if every byte arrived before the store |
| SchedulerStore.ByteAt | src/DownloadWorker.cpp:130-137 | a byte of the buffer is the source byte if it arrived and its initial value if it did not |
| SchedulerStore.Replay | src/DownloadService.cpp:67-82 | scheduling never depends on the contents of the buffer: any run can be taken from any other buffer |
| SchedulerScenarios.DuplicateStoresWrongFile | src/DownloadWorker.cpp:157-165 | a run with one timeout in flight that stores bytes other than the source |
| SchedulerScenarios.DuplicateStrandsSleeper | src/CompleteResource.cpp:22-69 | a run with one repeated completion that ends with a segment free, one worker asleep and all others ended |
| SchedulerScenarios.SleeperCanBeForgotten | src/CompleteResource.cpp:37-37 | a run that ends with a sleeper only a spurious wakeup can wake |
| SchedulerScenarios.TimeoutBeforeFirstSegment | src/DownloadWorker.cpp:157-165 | a run in which the service releases NO_SEGMENT_ID, outside the table |
| SchedulerScenarios.AccidentEndsSleeper | src/CompleteResource.cpp:37-41 | a spurious wakeup lets the forgotten sleeper end |
| SchedulerScenarios.NobodyAnswers | src/DownloadService.cpp:75-77 | a run in which no host can be reached and the service gives up |
| Segments.CountBounds | include/Resource.h:57-62 | up to the largest file the segments cover the file and no id is the sentinel |
| Segments.PaddedPrefixIffFits | include/Resource.h:57-62 | the truncating write of the padded buffer is the file if and only if the size is at most 65535 * 1024 |
| Segments.RequestedSegmentSize | src/RequestWorker.cpp:78-87 | the real quotient, its floor and the branch give the remainder for the segment after the last whole one and 1024 otherwise |
| Segments.RequestedSizeIsRest | src/RequestWorker.cpp:78-87 | for every id of the client the length is the rest of the file, at most 1024, and the id is not NO_SEGMENT_ID |
| Segments.SizesSumToFile | src/RequestWorker.cpp:78-87 | the served lengths add up to the file size |
| Segments.OpenFile.GetSegment | src/FileManager.cpp:30-106 | succeeds exactly when the bytes exist and the stream has not failed before; then the buffer is those bytes and zeros |
| SegmentRequests.SerializeSegmentRequest | src/DownloadWorker.cpp:139-155 | command, header and id in 267 bytes, which fit the server's buffer |
| SegmentRequests.RequestRoundTrip | src/RequestWorker.cpp:53-72 | the server recovers command, name, size and id, whatever follows in its buffer |
| SegmentRequests.RequestLayout | src/DownloadWorker.cpp:139-155 | the request byte by byte: command 8, name, size and id in network order at bytes 1, 257 and 265 |
| SegmentRequests.QuitRoundTrip | src/RequestWorker.cpp:106-109 | the end of a connection is read with the name of its file |
| SegmentRequests.HandleRead | src/RequestWorker.cpp:53-112 | the action for each command, none for an unknown one; undefined if and only if the file cannot be opened or has 64 MiB or more; a segment is sent if and only if the bytes exist and the stream is good, and is those bytes and zeros |
| SegmentRequests.RequestAndServe | src/DownloadWorker.cpp:120-137 | client and server composed: the requested slice of the padded file comes back |
| Bytes.DecodeEncode | src/Resource.cpp:39-40 | reading a number in network order undoes writing it |
| Bytes.EncodeDecode | src/Resource.cpp:23-25 | writing a number in network order undoes reading it |
| Bytes.OctetAt | src/Resource.cpp:39-40 | octet i of a number in network order is its quotient by the weight of the octets after it |
| ResourceHeaders.GenerateResourceHeader | src/Resource.cpp:32-43 | the buffer filled in place is the padded name and the size in network order |
| ResourceHeaders.ParseResourceHeader | src/Resource.cpp:16-30 | the name before the first NUL and the size, or the empty resource for a short header; always a resource that can be sent on |
| ResourceHeaders.HeaderRoundTripIff | src/Resource.cpp:16-43 | a generated header is read back as the same resource if and only if the name has at most 256 bytes and no NUL |
| ResourceHeaders.HeaderReads | src/Resource.cpp:16-43 | what is read back from any header: the size, and the name cut to 256 bytes up to its first NUL |
| ResourceHeaders.CutHeaderIff | src/Resource.cpp:16-30 | a header that breaks off is read back as its resource if and only if that is the empty one |
| ResourceHeaders.HeaderInjective | src/Resource.cpp:65-68 | two resources have the same header if and only if they are equal |
| ResourceDatabases.ResourceDatabase.constructor | src/ResourceDatabase.cpp:13-15 | localhost is stored and the relation is empty |
| ResourceDatabases.ResourceDatabase.AddFile | src/ResourceDatabase.cpp:180-206 | the step by step update equals the specification and keeps the invariant |
| ResourceDatabases.ResourceDatabase.RemoveFile | src/ResourceDatabase.cpp:37-60 | both lists lose every occurrence, with the answer and the case of a dead pointer |
| ResourceDatabases.ResourceDatabase.UpdateHost | src/ResourceDatabase.cpp:106-132 | the loop over announced resources equals the specification |
| ResourceDatabases.ResourceDatabase.RevokeResource | src/ResourceDatabase.cpp:134-150 | the loop over hosts equals the specification, or meets a dead pointer exactly when the specification says so |
| ResourceDatabases.ResourceDatabase.RemoveHost | src/ResourceDatabase.cpp:170-178 | the loop over possessed resources and the erase equal the specification |
| ResourceDatabases.ResourceDatabase.HasFile | src/ResourceDatabase.cpp:17-30 | true if and only if the relation gives the resource to localhost |
| ResourceDatabases.ResourceDatabase.GenerateDatabaseHeaders | src/ResourceDatabase.cpp:88-104 | one header per entry of localhost's list, in order |
| ResourceDatabases.AdvertisedIsRel | src/ResourceDatabase.cpp:88-104 | a resource is announced if and only if the relation gives it to localhost |
| DatabaseInvariants.ExecKeeps | src/ResourceDatabase.cpp:32-206 | every operation keeps resources and addresses unique, localhost present, pointers live and the multiplicities of the two directions in balance |
| DatabaseInvariants.RevokeEffect | include/ResourceDatabase.h:57-62 | revocation empties one direction for every host and leaves the other as it was |
| DatabaseInvariants.RemoveHostEffect | src/ResourceDatabase.cpp:170-178 | the pointer of a removed host disappears wherever it listed the resource and from nowhere else |
| DatabaseTheorems.ExecRefines | src/ResourceDatabase.cpp:32-206 | add is union, remove is difference, a beacon is union for its host, revocation and disappearance are restrictions of the relation |
| DatabaseTheorems.RunRefines | src/ResourceDatabase.cpp:32-206 | over any sequence of operations: the invariant, the relation, no resource lost, localhost first |
| DatabaseTheorems.PossessionIsHistory | src/ResourceDatabase.cpp:32-206 | a host has a resource if and only if some operation announced it and none since withdrew it |
| DatabaseLists.ExecKeys | src/ResourceDatabase.cpp:32-206 | every operation is its plain operation on the list of each host, order and repetitions included |
| DatabaseLists.RunKeys | src/ResourceDatabase.cpp:32-206 | and so over any sequence of operations |
| DatabaseLists.ExecCount | src/ResourceDatabase.cpp:32-206 | how often a resource lists a host: one more by adding, by a beacon only if the host did not have it, none after a removal or disappearance, the same otherwise |
| DatabaseLists.BeaconCounts | src/ResourceDatabase.cpp:121-131 | a beacon adds one entry on both sides for what the host did not have and none for what it had |
| DatabaseLists.RepeatedBeacon | src/ResourceDatabase.cpp:106-132 | a repeated beacon leaves the database exactly as it was |
| DatabaseLists.BeaconsRepeatNothing | src/ResourceDatabase.cpp:121-131 | a host known by beacons only has no resource twice in its list |
| DatabaseLists.KnownIsHistory | src/ResourceDatabase.cpp:106-206 | the hosts stored are localhost and those heard of, be it with an empty list, that have not gone since |
| DatabaseTheorems.RemoveResult | include/ResourceDatabase.h:41-48 | `remove_file` answers whether the resource lists the host, which is whether the relation held unless the resource is revoked and still lists a host that lost it |
| DatabaseTheorems.RemoveResultUnrevoked | include/ResourceDatabase.h:41-48 | for an unrevoked resource `remove_file` is defined and answers whether the relation held |
| DatabaseTheorems.RemoveAnswerIsHistory | src/ResourceDatabase.cpp:37-60 | after any operations the answer is what possession would be without the revocations among them |
| DatabaseTheorems.RevokedRemovalSaysTrue | src/ResourceDatabase.cpp:37-60 | after an addition and a revocation the answer is true though the relation is empty for the pair |
| DatabaseTheorems.ListsIsHistory | src/ResourceDatabase.cpp:134-150 | a resource lists a stored host if and only if the host announced it and no removal or disappearance came since, whatever was revoked |
| DatabaseTheorems.HoldersAgree | src/ResourceDatabase.cpp:66-78 | the host list of an unrevoked resource is live and its addresses are those of the relation |
| DatabaseTheorems.RevokedForGood | src/ResourceDatabase.cpp:142-143 | a stored resource is marked revoked if and only if it was before or a revocation of it is among the operations |
| DatabaseLists.RevokedIsHistory | src/ResourceDatabase.cpp:134-149 | over a whole life a resource is stored if and only if it was named, and revoked if and only if it was revoked after being named |
| DatabaseLists.RemoveAnswersRight | include/ResourceDatabase.h:41-48 | in a run that never revokes the resource after naming it, `remove_file` is defined and answers whether the host has it |
| DatabaseLists.HoldersAreAnnouncers | src/ResourceDatabase.cpp:66-78 | in such a run the hosts to download from are stored and are those that announced the resource and did not withdraw it |
| DatabaseTheorems.RevokedDownloadIsAnnounced | src/DownloadService.cpp:116-119 | a download finished after its revocation is announced by localhost all the same |
| DatabaseTheorems.SilentAfterRevocationIff | src/ResourceDatabase.cpp:134-150 | whatever came before a revocation, a host has the resource after it if and only if an operation after it announced it and none since withdrew it |
| DatabaseTheorems.DefinedIff | src/ResourceDatabase.cpp:45-52 | an operation follows a dead pointer if and only if it meets one in the list of a revoked resource |
| DatabaseTheorems.DanglesIsHistory | src/ResourceDatabase.cpp:161-178 | a resource points to a host that is gone if and only if a host was removed that had lost it to a revocation and neither removed nor announced it since |
| DatabaseTheorems.RevocationCrashesIff | src/ResourceDatabase.cpp:142-149 | after any operations a revocation follows a dead pointer if and only if such a removal is among them |
| DatabaseTheorems.SecondRevocationCrashes | src/ResourceDatabase.cpp:142-149 | add, revoke, remove the host, revoke again: the second revocation follows a dead pointer |
| DatabaseOrder.PrecedesIsHistory | src/ResourceDatabase.cpp:203-205 | of two hosts one comes first in the list of a resource if and only if it was announced earlier and not taken out of the list since |
| DatabaseOrder.RemovalCrashesIff | src/ResourceDatabase.cpp:37-60 | after any operations `remove_file` follows a dead pointer if and only if a host was removed that had lost the resource to a revocation and had been listed from earlier on than the host looked for |
| DatabaseOrder.RemovalCrashes | src/ResourceDatabase.cpp:37-60 | add, revoke, remove the host, remove the file: the search follows a dead pointer |
| DatabaseTheorems.NoRemovalNoDeadPointer | src/ResourceDatabase.cpp:161-178 | as long as no host is removed every operation is defined and every pointer live |
| Beacons.FireBeacon | src/UdpClient.cpp:77-104 | the nested loops terminate and send exactly the specified packets |
| Beacons.ChunksInOrder | src/UdpClient.cpp:80-104 | there are ceil(n/3) packets, all before the last of exactly three entries, which, in order, are the reversed list |
| Beacons.PacketsFit | include/GeneralTypes.h:27-31 | every packet fits the receive buffer |
| Beacons.PacketLayout | src/UdpClient.cpp:84-100 | a packet byte by byte: command 32, the number of files in eight bytes, a header every 264 |
| Beacons.ParseFileList | src/UdpServer.cpp:36-46 | the cursor loop reads the named resources, and leaves the buffer if and only if more than three are announced |
| Beacons.PacketRoundTrip | src/UdpServer.cpp:36-46 | a packet is read back as the resources it was made from, whatever an earlier datagram left behind it |
| Beacons.HandleReceive | src/UdpServer.cpp:23-63 | the effect on the database for beacons, revocations, other commands and a node's own packets, with the cases of a dead pointer and of a count that leaves the buffer |
| Beacons.StreamIsRun | src/UdpServer.cpp:23-63 | any datagrams from anybody: a node's own and those with unknown commands might as well not have arrived, and the others are the database operations they ask for, up to the first that announces too many files |
| Beacons.DeliveryIsUnion | src/UdpServer.cpp:36-47 | any packets of a beacon, in any order and with repeats, add for the sender exactly what they name and change nothing else |
| Beacons.BeaconSpreads | src/UdpClient.cpp:77-104 | when every packet arrives, the receiver's relation gains exactly what the sender has |
| Beacons.BeaconReplacesIff | src/UdpServer.cpp:36-47 | when every packet arrives, the receiver's set for the sender equals the sender's if and only if its old set was contained in it |
| Beacons.RemovedStaysListed | src/ResourceDatabase.cpp:118-131 | a node removes one of two files and announces the rest: a receiver that knew both goes on listing the removed one |
| Beacons.RevokeFile | src/UdpClient.cpp:67-75 | the method builds that packet |
| Beacons.RevokeLayout | src/UdpClient.cpp:67-75 | the revocation packet byte by byte: command 16 and the header |
| Beacons.RevocationSpreads | src/UdpServer.cpp:49-59 | a received revocation takes the resource from every host in the receiver's relation |
| TransmitQueues.UdpClient.SendPacket | src/UdpClient.cpp:31-36 | the packet joins the queue and is transmitted exactly when the queue was empty |
| TransmitQueues.UdpClient.WriteCallback | src/UdpClient.cpp:48-65 | the front is popped and the next sent, unless the send failed or was aborted |
| TransmitQueues.QueueInOrder | src/UdpClient.cpp:31-65 | submitted packets are popped packets then the queue; at most one send is in flight and it is the front |
| TransmitQueues.StalledIff | src/UdpClient.cpp:48-65 | the queue is stalled if and only if an earlier callback was an abort, or an error with packets left |
| TransmitQueues.ErrorStalls | src/UdpClient.cpp:48-57 | two packets and a failed send leave the second queued with nothing in flight |
| TransmitQueues.SendingIffQueued | src/UdpClient.cpp:31-57 | without errors and aborts a packet is in flight exactly while one is queued, and it is the front |
| FileLocks.RunOrdered | src/FileManager.cpp:145-279 | in every state no file is read-locked twice, and entries of both lists for one file straddle a scan |
| FileLocks.OverlapNeedsGap | src/FileManager.cpp:145-263 | before a state with the file locked both ways a reader tested before a writer's scan and added its entry after it |
| FileLocks.ExclusionWithoutGap | src/FileManager.cpp:145-263 | with no reader in that gap so far the file is not locked both ways |
| FileLocks.OverlapIff | src/FileManager.cpp:145-263 | within any number of steps the file is locked both ways if and only if some step adds it to one list while the other has it |
| FileLocks.GapBreaksExclusion | src/FileManager.cpp:167-170 | a five-step run that locks a file both ways |
| FileLocks.NotifiesAreUnlocks | src/FileManager.cpp:265-279 | notifications given and still to come are exactly the write locks erased |
| FileLocks.WriterWaitsIff | src/FileManager.cpp:240-253 | a waiting writer goes on waiting if and only if no step is a notification or an accidental wakeup of it; no read_unlock ends the wait |
| FileLocks.ReaderWaitsIff | src/FileManager.cpp:158-166 | the same for a waiting reader |
| FileLocks.WriterStrandedIff | src/FileManager.cpp:201-263 | a writer is left waiting for a file it could lock, with no notification to come, if and only if it entered wait so or a read_unlock freed the file then |
| FileLocks.ReaderStrandedIff | src/FileManager.cpp:145-167 | a reader is left so if and only if it entered wait with the file free and no notification to come |
| FileLocks.LoneWriterWaits | src/FileManager.cpp:224-263 | the only writer, waiting with nothing write-locked and no notification to come, waits for the rest of the run unless woken by accident |
| FileLocks.ReadUnlockStrandsWriter | src/FileManager.cpp:201-222 | a run that ends with no file locked and the writer waiting for one |
| FileLocks.NotifyBeforeSleep | src/FileManager.cpp:158-166 | a run in which the notification comes before the reader enters wait |
| FileLocks.AccidentFreesWriter | src/FileManager.cpp:240-263 | woken by accident, the only writer scans again and locks its file if it is free |
| FileLocks.AccidentFreesReader | src/FileManager.cpp:158-167 | woken by accident, a reader tests again and finds its file free |
| FileLocks.ReaderHeldUpByOwnFile | src/FileManager.cpp:145-167 | a reader is held up only by a write lock on its own file that its last test found |
| FileLocks.WriterHeldUpByOwnFile | src/FileManager.cpp:224-256 | a writer is held up only by a read lock on its own file that its last scan found |
| FileLocks.NeverLockedNeverHeldUp | src/FileManager.cpp:145-263 | a file never locked the other way holds nobody up |
| FileLocks.ReaderTriesAgainAfterWait | src/FileManager.cpp:158-166 | a reader that found its file locked tests again only for that file and only after it waited and was woken |
| FileLocks.WriterTriesAgainAfterWait | src/FileManager.cpp:242-252 | the same for a writer |
| FileLocks.WriteListStill | src/FileManager.cpp:224-263 | while a writer holds the write-list mutex nobody changes the write list |
| FileLocks.TestsBeforeEachInsert | src/FileManager.cpp:145-199 | between two insertions a reader tests the write list again |
| FileLocks.ScansBeforeEachPush | src/FileManager.cpp:224-263 | between two pushes a writer scans the read list again |
| FileLocks.ReaderGoesOnIff | src/FileManager.cpp:145-199 | a reader can go on by itself if and only if it does not wait and, before a test, the mutex is free |
| FileLocks.WriterGoesOnIff | src/FileManager.cpp:224-263 | a writer can go on by itself if and only if it does not wait and, before it begins, the mutex is free |
| FileLocks.ReadLockedIff | src/FileManager.cpp:169-214 | a file is read-locked if and only if some read_lock since the last read_unlock of it succeeded |
| FileLocks.WriteLocksCounted | src/FileManager.cpp:258-279 | each write_lock adds one entry of its file and each write_unlock takes one away |

## Left out

- The command line, logging, printing, start-up, the TCP acceptor and all socket and timer code; delivery of
  datagrams and replies is a choice of the step, and a TCP request arrives whole.
- Clocks and bans: a banned host is an arbitrary input to the service's test for available workers, and waiting
  out a ban is an arbitrary delay before a worker asks for a segment.
- `check_for_gone_hosts` as a loop, because it erases from the vector it iterates over; `remove_host` is
  modelled. `no_of_missed_updates` is never increased by the code and is left out.
- What undefined behaviour does: a beacon that announces more than three files, a request for a file that cannot be
  opened or of 64 MiB and more, and a release outside the table are outcomes of their own and nothing follows them.
  Names longer than the header, which would be copied past its end, are outside the preconditions.
- Memory management, apart from pointers to removed hosts.
- The worker loop, the service loop and the lock lists are transition systems on values instead of objects with
  loops: a thread's program counter is its phase, so that all interleavings are covered. The order in which a
  mutex admits its waiters is left open.
- All hosts that answer for a name and size are taken to serve the same bytes; the program has no way to tell.
- `read_unlock` erases inside its loop; the model removes the one matching entry. The early return of
  `store_resource` that skips `write_unlock` is a run in which the unlock step does not happen.
- The database objects are entries of sequences and their pointers are handles, not heap references.
