# Verification model of the remote-control firmware

A Dafny model of the parts of the firmware that hold state of their own, with proofs of what they
keep. `dafny verify dfyconfig.toml` checks everything.

| File | What it models |
|---|---|
| `BleScheduler.dfy` | the advertising scheduler of `src/ble_rc.c` (and the RPC stop of `src/rpc_route.c`) as a transition system: one step per stretch of code between two sleeps, any number of threads inside `try_advertising_start` |
| `BleProperties.dfy` | what that system keeps over every interleaving |
| `BleHistory.dfy` | the state a run ends in, told from the run alone: mode, link, calls, timeout, controller, remembered address, bonds |
| `BleRc.dfy` | the C functions themselves, changing the globals, each proved equal to its step |
| `EventProtocol.dfy` | the event queue of `src/main.c`: any number of senders, one handler, every interleaving |
| `EventHistory.dfy` | what was sent, told from the run alone, and that it is what gets handled |
| `EventLoop.dfy` | the functions of that queue in place, the drain loop, and the poll table |
| `FileSystem.dfy` | a file and the heap as the code sees them: every call may fail, reads and writes may be short |
| `HttpDl.dfy` | the download callback, its counters and progress line, the whole download |
| `HttpHistory.dfy` | counters, lines and body of a download, told from the calls of the callback alone |
| `Sha256.dfy` | hashing a file in pieces, and the hexadecimal print |
| `Upgrade.dfy` | copying an image into NOR flash, and the boot request |
| `FirmwarePath.dfy` | download, hash, flash and boot request end to end |
| `Pattern.dfy` | the test pattern of `src/lfs.c` and the pattern file over any number of boots |
| `SdSpeed.dfy` | the speed test of `src/sd_speed.c` |
| `Bytes.dfy`, `Options.dfy` | bitwise AND, 32-bit wrap-around, overwriting part of a byte sequence; `Option` |

## Results that differ from what one might expect

- Wakeup advertising is time-bounded exactly when no wakeup call has duration 0, the mode-switch
  handler never fails to stop the controller, and a pairing call with duration 0 never fails to stop
  it (`BleProperties.WakeupBoundedExactly`). `start_wakeup 0` reaches unbounded wakeup advertising.
- `delete_paired` ignores the results of `bt_unpair` and of the stop; the peer is forgotten for good
  exactly when both took effect (`BleProperties.ForgottenExactly`).
- `(size + 4095) & ~4095` covers the image exactly for sizes up to 2^32 - 4096 and is 0 above
  (`Upgrade.EraseSizeExactly`).
- An early end of file during the copy is reported as success, and a boot of the truncated image is
  requested (`Upgrade.PerformOtaUpgradeFromFile`, the clauses on `0 in results`). A copy whose reads
  and writes do not fail covers the whole image exactly when no read returns 0 before its end
  (`Upgrade.WholeExactly`; `Upgrade.TruncationWitness` is a run that truncates).
- The download opens its file without truncating it: an older, longer file leaves its tail behind the
  new image, and that tail is hashed and flashed too (`FirmwarePath.DownloadedExactly`,
  `FirmwarePath.OldTail`). The command returns 0 exactly when the file could be opened
  (`HttpDl.HttpDlFile`): with no connection, with one lost in the middle of the body, and after a failed
  or short write. The body is stored exactly when each of its pieces was written, and written whole
  (`HttpDl.StoredWholeExactly`). After a lost connection the file is the new front over the old
  contents (`FirmwarePath.TransferredExactly`, `FirmwarePath.CutOff`); its digest is printed, and the
  upgrade command flashes it and requests a boot of it (`FirmwarePath.DownloadAndUpgrade`).
- The percentage is cut to 32 bits before it is capped at 100. It stays between 0 and 100 for every
  count exactly when at least 200 bytes were announced (`HttpDl.PercentExactly`); below that it turns
  negative at `FirstNegative(size)` bytes, 21,474,837 for an announced size of 1
  (`HttpDl.PercentAt`, `HttpDl.PercentNegative`). Up to there percentages are sound over every
  download, within the announced size or not (`HttpDl.ProgressIsSound`).
- The pattern file repeats every 256 boots, but what the first boot leaves never comes back
  (`Pattern.PeriodExactly`).
- The speed test returns 0 exactly when its parameters are not 0, its buffer is allocated and no open,
  write or read fails (`SdSpeed.CmdSdSpeed`); failed removals, a failed sync and short writes do not
  count. A short write breaks the ramp exactly when it leaves the next write at an offset that is not a
  multiple of 256 (`SdSpeed.WrittenExactly`, `SdSpeed.MisalignedWrite`). The file has the size written
  exactly when no more than that was left over (`SdSpeed.OnDiskExactly`), and that size is the requested
  one exactly below 4096 MB (`SdSpeed.TotalBytes`). A buffer of 4 GB has 0 bytes
  (`SdSpeed.EmptyBuffer`), and its write loop does not end (`SdSpeed.WritePhase`).
- The pattern file's update returns 0 exactly when no call on the file fails; short reads and short
  writes are success (`Pattern.LittlefsBinaryFileAdj`).
- A peer that pairs and is bonded is still bonded after a `delete_paired` whose `bt_unpair` failed
  (`BleProperties.NotForgotten`), and still advertised to after one whose stop failed
  (`BleProperties.StillAdvertised`); nothing reports either.

## Premises

- Code between two sleeps, and a section under the list's mutex, runs as one step. Both work items
  run on the system work queue, one at a time, and a sleeping handler keeps the queue.
- A connected callback and the end of the connectable advertising session form one step; a timeout
  callback reports the directed target.
- `k_malloc` in `evt_send` succeeds (the code does not check it). `evt_init` leaves a valid eventfd.
- `http_client_req` calls the response callback once per piece of the response, in order; it stops when
  a call returns a negative value, or when the connection is lost, after any number of pieces. The
  uptime never runs backwards.
- Every file, flash, heap and hash call may fail, the removal of a file included, and reads and writes
  may be short. The model counts the failed calls of each kind, and "returns 0 exactly when" is stated
  over these counts. What the file system promises beyond that is carried by four flags of
  `FileSystem.File`: `faithful` (stat is right, and a read returns 0 only at the end), `fullReads`,
  `fullWrites`, and `progress` (a write stores a byte or fails). Each theorem names the flags it needs.
- Files are shorter than 2^32 bytes. Each file and flash area is used through one handle, and every
  read, write, erase and close is proved to happen while it is open.

## Model

| member | source | states |
|---|---|---|
| BleProperties.NeverDoubleStarted | src/ble_rc.c:316-410 | in every reachable state the running flag agrees with the controller, so `bt_le_adv_start` is called only with the controller off and then fails only if the stack refuses |
| BleProperties.WakeupBoundedExactly | src/ble_rc.c:780-852 | over all interleavings wakeup advertising always has a mode switch coming, if and only if the environment avoids three named combinations of zero durations and failed stops |
| BleProperties.ZeroWakeupUnbounded | src/ble_rc.c:790-793 | a wakeup call of duration 0 leads to wakeup advertising with nothing under way to end it |
| BleProperties.FailedHandlerUnbounded | src/ble_rc.c:839-852 | so does a stop that fails inside the mode-switch handler |
| BleProperties.FailedTryUnbounded | src/ble_rc.c:780-793 | so does a pairing call of duration 0 whose stop fails |
| BleProperties.WakeupEnds | src/ble_rc.c:780-852 | in whatever order the kernel takes its own steps it takes a bounded number of them, and when none is left wakeup advertising is over |
| BleProperties.StrandedExactly | src/ble_rc.c:394-461 | exactly which step, in which state, leaves a disconnected device silent with nothing under way |
| BleProperties.NoStrandedDevice | src/ble_rc.c:435-530 | after a disconnect or a directed-advertising timeout the device is never stranded until one of those steps |
| BleProperties.SettlesConnectable | src/ble_rc.c:502-530 | and, left alone, it settles after a bounded number of steps with connectable advertising on |
| BleProperties.ForgottenExactly | src/ble_rc.c:828-835 | a deleted peer stays out of advertising, memory and bonds over every later run without it, if and only if the unpairing and the stop took effect |
| BleProperties.NotForgotten | src/ble_rc.c:828-835 | a concrete run: a peer pairs, the unpairing fails, and the peer is still bonded after the command |
| BleProperties.StillAdvertised | src/ble_rc.c:828-835 | a concrete run: the peer pairs and disconnects, the device advertises to it, the stop fails, and it still does after the command |
| BleHistory.EveryRunAsTold | src/ble_rc.c:417-540 | over every run the wakeup flag, the link status, the calls under way, the timeout and the mode-switch work are what the latest steps that concern them say; only a successful security change raises the status |
| BleHistory.ControllerExactly | src/ble_rc.c:316-410 | over every run, which steps change the controller and queue a start: an accepted start is wakeup exactly when asked for, else pairing exactly when no address is remembered, else directed to it; the handler queues one only when disconnected |
| BleHistory.ConnectedStaysSilent | src/ble_rc.c:839-852 | a connected, silent device stays silent over every run until a new call or a disconnect |
| BleHistory.RememberedExactly | src/ble_rc.c:303-392 | over every run, after each call and each restart by the handler the remembered address is the last bond or none; otherwise only a connected callback and the deletion change it |
| BleHistory.BondsExactly | src/ble_rc.c:486-500 | deleting takes out the remembered peer alone and keeps the other bonds in order |
| BleHistory.CallAdvertises | src/ble_rc.c:780-852 | from every reachable state with the handler awake, an undisturbed call ends in the advertising asked for, with any bonds, and runs the timeout exactly for a positive duration |
| BleRc.RemoteControl.constructor | src/ble_rc.c:906-926 | the state after initialisation |
| BleRc.RemoteControl.AdvertisingContinue | src/ble_rc.c:316-375 | starts pairing, directed or wakeup advertising as flag and last address say, sets the flag only on success, and changes nothing else |
| BleRc.RemoteControl.AdvertisingStart | src/ble_rc.c:377-392 | the bond scan leaves the last visited bond's address or none, and the work is queued unless advertising runs |
| BleRc.RemoteControl.AdvertisingStop | src/ble_rc.c:394-410 | stops a running session or reports -1 and leaves everything |
| BleRc.RemoteControl.AdvertisingProcess | src/ble_rc.c:412-415 | the work item takes the corresponding step |
| BleRc.RemoteControl.Connected | src/ble_rc.c:435-485 | the callback takes the corresponding step: flag cleared, address remembered, timeout rearmed, link status set |
| BleRc.RemoteControl.Disconnected | src/ble_rc.c:502-530 | the callback takes the corresponding step, and does nothing without an address |
| BleRc.RemoteControl.SecurityChanged | src/ble_rc.c:532-540 | the callback raises the link status only on success |
| BleRc.RemoteControl.TryAdvertisingStartBegin | src/ble_rc.c:780-787 | the half before the sleep: timer cancelled, mode set, advertising stopped |
| BleRc.RemoteControl.TryAdvertisingStartEnd | src/ble_rc.c:787-796 | the half after it: restart, and rearm for a duration other than 0 |
| BleRc.RemoteControl.CmdDeletePaired | src/ble_rc.c:828-835 | the command takes the corresponding step whatever its two calls return |
| BleRc.RemoteControl.AdvModeSwitchHandlerBegin | src/ble_rc.c:839-845 | the handler up to its sleep, which then holds the work queue |
| BleRc.RemoteControl.AdvModeSwitchHandlerEnd | src/ble_rc.c:845-852 | the handler after its sleep: mode cleared, restart only when disconnected |
| EventProtocol.NoLostWakeup | src/main.c:68-98 | before a drain the list is no longer than the counter plus the senders still to write, so messages without such a sender make poll ready |
| EventProtocol.ReadNeverBlocks | src/main.c:265-269 | `eventfd_read` is called only with a positive counter |
| EventProtocol.FirstInFirstOut | src/main.c:71-150 | handled messages, the one in flight and the list are together the history of appends, in order |
| EventProtocol.FreedOnce | src/main.c:71-149 | every live block has exactly one holder; what is freed is live and nobody holds it afterwards |
| EventProtocol.EverythingIsHandled | src/main.c:68-153 | under every schedule, once no send begins, a bounded number of steps is left, and when none is, every message has been handled and every block freed |
| EventProtocol.OneMorePass | src/main.c:87-98 | once the last sender has returned the handler polls at most once more and stops after exactly the ranked number of steps, with list and counter empty |
| EventHistory.HandledAsSent | src/main.c:68-153 | over every run the messages handled are a front part of the messages sent, unchanged and in order, and all of them once nothing but a new send is possible; the eventfd counts the writes since its read |
| EventLoop.EventQueue.constructor | src/main.c:155-170 | the queue after `evt_init` |
| EventLoop.EventQueue.EvtSendAlloc | src/main.c:71-74 | allocation and filling |
| EventLoop.EventQueue.EvtSendAppend | src/main.c:76-78 | the append under the mutex |
| EventLoop.EventQueue.EvtSendWrite | src/main.c:80-84 | the eventfd write |
| EventLoop.EventQueue.EventfdRead | src/main.c:266-272 | the read returns a positive count and resets it |
| EventLoop.EventQueue.SlistGet | src/main.c:92-98 | the head is taken, or the drain ends |
| EventLoop.EventQueue.KFree | src/main.c:149-150 | the handled message is freed |
| EventLoop.EventQueue.EvtHandle | src/main.c:87-153 | with other threads sending before and during every round, the drain is a run of the protocol without a new poll and ends with an empty list and every message handled; undisturbed it handles the list in order and frees exactly its blocks |
| EventLoop.FillPollTable | src/main.c:219-227 | the table holds the valid entries in order and the rest of it is untouched |
| EventLoop.IndexAgreesExactly | src/main.c:219-227 | slot i is found at index i if and only if every earlier slot is valid |
| EventLoop.TypeIndexIsRight | src/main.c:242-266 | with the eventfd valid every access by type index hits the right descriptor |
| Upgrade.EraseSizeExactly | src/upgrade.c:84 | the erased size is the least sector multiple covering the image if and only if the sum does not wrap; otherwise it is 0 |
| Upgrade.BurnedExactly | src/upgrade.c:84-126 | under NOR programming the flash holds the image if and only if no bit is missing from a cell that was not erased; around it are erased or old cells |
| Bytes.And8Exactly | src/upgrade.c:112-118 | a cell takes on the byte programmed if and only if it has every bit of it |
| Upgrade.TilesDisjoint | src/upgrade.c:102-126 | writes laid end to end never overlap and none passes their end; applied to every copy |
| Upgrade.CopyImage | src/upgrade.c:100-129 | the result is that of the loop on the recorded reads; a read of 0 means success with a short image and is the only way to one; success burns exactly the first `written` bytes; the writes lie end to end within the image |
| Upgrade.CopyStatusExactly | src/upgrade.c:102-129 | for every sequence of reads without an error: how much is copied and whether the loop has ended |
| Upgrade.WholeExactly | src/upgrade.c:102-129 | a copy without errors covers the whole image if and only if no read returns 0 before its end |
| Upgrade.TruncationWitness | src/upgrade.c:102-129 | reads of 1024 and 0 bytes end the copy of a 2048-byte image with 0 after 1024 bytes |
| Upgrade.WriteOtaFileToPartition | src/upgrade.c:43-138 | 0 is returned if and only if stat shows a regular file that is not empty and no stat, open, erase, allocation, read or flash write fails; everything is released on every exit; an early end of file is the only way to a short image; writes never overlap and lie within the erased span unless its size wraps; flash beyond it is kept on every path |
| Upgrade.BootLoader.TriggerUpgrade | src/upgrade.c:140-155 | one request, and a reboot exactly when it was accepted |
| Upgrade.PerformOtaUpgradeFromFile | src/upgrade.c:157-170 | a boot is requested exactly when the copy returned 0, which is if and only if none of its calls fails, so also after an early end of file; with a faithful file system the flash then holds the file |
| Sha256.CalculateFileSha256 | src/sha256sum.c:15-83 | 0 is returned if and only if no call but the closing fails; file and operation are released on every exit; success is the digest of exactly the file |
| Sha256.HexRoundTrip | src/sha256sum.c:91-93 | reading the printed digits back gives the digest |
| Sha256.HexExample | src/sha256sum.c:91-93 | the high digit comes first, in lower case |
| Sha256.PrintSha256Sum | src/sha256sum.c:88-95 | the buffer holds the digits of all 32 bytes and a terminator |
| HttpDl.DownloadCtx.DrawBar | src/http_dl.c:132-137 | the bar array holds the bar for that percentage and a terminator |
| HttpDl.DownloadCtx.Report | src/http_dl.c:126-148 | the line printed about the counters |
| HttpDl.DownloadCtx.ResponseCb | src/http_dl.c:97-157 | counters, line and file after one call, and after a failed write |
| HttpDl.HttpClientReq | src/http_dl.c:184-206 | wherever the connection is lost or a call fails, lines and counters are those of the calls that succeeded, and unless a write failed the file holds what they stored, in order |
| HttpDl.HttpDlFile | src/http_dl.c:208-251 | the result is 0 if and only if the file could be opened; wherever the transfer ends without a failed write, the file is what was stored over the old contents; the printed digest is that of the file, or zeros |
| HttpDl.StoredWholeExactly | src/http_dl.c:109-116 | for every sequence of write results the whole body is stored if and only if each piece was written whole |
| HttpDl.NothingStored | src/http_dl.c:191-206 | with no connection, or a write of 0 bytes, nothing of a body that is not empty is stored |
| HttpDl.PercentWithin | src/http_dl.c:128-129 | within the announced size the percentage is the plain quotient, and 100 only at the end |
| HttpDl.PercentExactly | src/http_dl.c:128-129 | every count gives a percentage between 0 and 100 if and only if at least 200 bytes were announced |
| HttpDl.PercentBelow | src/http_dl.c:128-129 | below the first negative count the percentage is the quotient capped at 100, and 100 exactly from the announced size on |
| HttpDl.PercentAt | src/http_dl.c:128-129 | at that count, a function of the announced size, it is negative |
| HttpDl.PercentNegative | src/http_dl.c:128-129 | one byte announced and 21,474,837 sent give a negative percentage |
| HttpDl.BarShape | src/http_dl.c:132-137 | the bar fills a fifth of the percentage and is full only at 100 |
| HttpDl.ProgressIsSound | src/http_dl.c:103-142 | over a whole download below that count, overrun or not: percentages are capped quotients and never decrease, and the bar is full exactly from the announced size on |
| HttpDl.AmpleIsWithin | src/http_dl.c:103-129 | with no announced size from 1 to 199 only a wrap of the counter can spoil that |
| HttpDl.Throttled | src/http_dl.c:118-124 | over a whole download lines other than the last are at least a second apart |
| HttpHistory.CountersExactly | src/http_dl.c:103-116 | over every download the counter is what the bodies brought, modulo 2^32, and the size is known exactly when one was announced, and is the first |
| HttpHistory.LinesExactly | src/http_dl.c:118-148 | exactly which calls print, a final one always, and every field of the line; a progress line exactly from the moment a size that is not 0 is announced |
| HttpHistory.WholeInOneCall | src/http_dl.c:97-157 | 1000 bytes announced and sent in one final call print one full line |
| HttpHistory.BodyExactly | src/http_dl.c:110-116 | the body is the fragments of the responses that carry one, each where the earlier ones end |
| FirmwarePath.DownloadedExactly | src/http_dl.c:225-242 | the file is the downloaded body if and only if the old file was not longer |
| FirmwarePath.OldTail | src/http_dl.c:225-242 | a new image of three bytes over an old file of four keeps the fourth |
| FirmwarePath.TransferredExactly | src/http_dl.c:197-242 | wherever a transfer ends the file is what was stored and then the old rest, which is the new image if and only if that rest completes it |
| FirmwarePath.CutOff | src/http_dl.c:197-205 | one byte of a three-byte image arrives over an old file of four bytes |
| FirmwarePath.DownloadAndUpgrade | src/upgrade.c:172-187 | a boot is requested whenever no call fails, complete transfer or not; then the flash holds, and the printed digest is of, exactly what the transfer left over the old file |
| Pattern.InitPattern | src/lfs.c:133-144 | the initial pattern |
| Pattern.IncrPattern | src/lfs.c:114-131 | one increment in place |
| Pattern.PrintPattern | src/lfs.c:146-169 | every byte is shown once, in order |
| Pattern.ClosedForm | src/lfs.c:114-144 | k increments of any size and step: counters and last byte have grown by step times k, the fill follows the parity of byte 0 one call earlier |
| Pattern.ClosedFormByOnes | src/lfs.c:114-144 | with step 1: the counters, the last byte and the alternating fill |
| Pattern.LittlefsBinaryFileAdj | src/lfs.c:171-234 | 0 is returned if and only if no call fails, short reads and writes included; what the buffer and a file of any length then hold; the file is closed on every exit |
| Pattern.AfterRunsClosed | src/lfs.c:171-234 | after n runs the file is the closed form with n - 1 increments |
| Pattern.PeriodExactly | src/lfs.c:171-234 | two runs leave the same file if and only if they are the same run or both later than the first and congruent modulo 256 |
| SdSpeed.FillBuffer | src/sd_speed.c:47-49 | byte i of the buffer is i modulo 256 |
| SdSpeed.BufSizeExactly | src/sd_speed.c:33 | the wrapped buffer size is a multiple of 1024 |
| SdSpeed.EmptyBuffer | src/sd_speed.c:33 | 4194304 KB are 0 bytes |
| SdSpeed.TotalBytes | src/sd_speed.c:34 | the total is the requested size if and only if that is below 4096 MB |
| SdSpeed.WrittenExactly | src/sd_speed.c:69-83 | for every sequence of write results the file is the ramp if and only if every write that stored something began at a multiple of 256 |
| SdSpeed.MisalignedWrite | src/sd_speed.c:69-83 | two writes of one byte leave two zeros, which is not the ramp |
| SdSpeed.OnDiskExactly | src/sd_speed.c:54-83 | over any leftover: the size is the requested one if and only if the leftover is not longer, the pattern holds if and only if the writes were aligned |
| SdSpeed.WritePhase | src/sd_speed.c:66-83 | what is written lies over what was left of an older file, and never exceeds the total; when no write is empty the loop ends if and only if the buffer holds something or the total is 0 |
| SdSpeed.ReadPhase | src/sd_speed.c:113-133 | the loop never reads more than the total, and all of it when reads end only at the end |
| SdSpeed.CmdSdSpeed | src/sd_speed.c:10-153 | 0 is returned if and only if the parameters are not 0, the buffer is allocated and no open, write or read fails; file and buffer are released on every exit; success wrote the wrapped size over the leftover and read it back; the size is right if and only if no more was left over, the pattern if and only if the writes were aligned |

## Left out

- BleProperties.WakeupEnds: bounds the number of the kernel's own steps, not the time they take.
- SdSpeed.CmdSdSpeed: follows the write loop for a given number of writes, any number; when it has not ended by then nothing is said about what comes later.
- HttpDl.HttpDlFile: says nothing about the file's contents when a write fails, since a failed `fs_write` may leave anything.
- Delays as such: a timeout may fire at any moment, except into a pending cancellation of the running handler, which every delay outlasts by far; overflow of `time_s * 1000` is not modelled.
- A second `ble_rc_init`: a new identity would change which bonds the scan sees.
- `adv_mode_switch_delay_work_cancle`: nothing in the repository calls it.
- The target partition: both slot constants name slot 0 (src/upgrade.c:17-18), so the target is always slot 0 although the comments speak of the idle slot; the flash area is a parameter here.
- Failure of the drain's side effects (ping, WiFi connect, BLE start): the handler's work on a message has no effect on the queue.
- Socket errors in `poll_loop`: they return early before the eventfd is looked at; the safety results do not depend on them.
- The advertised payloads, the peer bytes that `connected` copies into the wakeup payload among them: only which kind of advertising runs is modelled.
- The auto-reboot loopers, key sending, GATT tables, `lsdir`, the boot counter file, shell argument parsing, logging, speeds in floating point.
- JSON and RPC dispatch, WebSocket, HTTP client setup, WiFi, FAT and littlefs, flash drivers, PSA internals, MCUboot's swap: services underneath.
