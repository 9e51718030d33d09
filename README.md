# Parallel MD5 password search: keyspace, partition and coordination

This project models the coordinator of a brute-force MD5 password search.
The search has two builds:

- `src/coordinator.c` forks one child process per worker and runs the
  external `./worker` program in each child.
- `src/coordinator_windows.c` starts one thread per worker, running
  `worker_thread`.

Both builds validate their four arguments: the target hash, the password
length, the charset and the worker count. They compute the size of the
keyspace, `charset_len^password_len`. They split the keyspace into
contiguous index ranges, one per worker. Each worker is handed the first and
the last password of its range, decoded by `index_to_password`. The builds
then wait for their workers, read the result file `password_found.txt`, and
check its password against the target hash.

The Dafny modules follow that structure:

- `Keyspace` (`keyspace.dfy`). Passwords are base-`|charset|` numerals,
  most significant symbol first (`Decode` and its inverse `IndexOf`). It
  also holds the C routines `calculate_search_space`, `index_to_password`,
  `find_index` and `increment_password` as methods. The last two buffer
  routines work in place on arrays. Each method is proved against those
  functions.
- `ByteOrder` (`byteorder.dfy`). `strcmp` on passwords, and when the
  end-of-range test agrees with index order.
- `Partition` (`partition.dfy`). The range arithmetic the spawn loops
  inline, lifted to `Start`, `Size` and `End` over `(total, n, i)`.
- `ResultRecord` (`record.dfy`). The `"%d:%s\n"` record and the
  coordinator's `fgets`/`strchr`/`atoi` reading of it.
- `Arbiter` (`arbiter.dfy`). `save_result` and the `password_found` flag,
  for the POSIX (`O_CREAT | O_EXCL`) and the Windows (`fopen "w"`) branch.
- `Worker` (`worker.dfy`). The `worker_thread` loop.
- `Coordinator` (`coordinator.dfy`). Both builds' `main`:
  - argument validation;
  - filling the worker table;
  - the spawn loop with `fork` results as input;
  - the wait loop with its PID lookup;
  - the report;
  - the thread build end to end, its threads run one after another, both as
    written (`RunThreads`) and with the corrections of the findings below
    (`RunThreadsChecked`).

MD5 is the parameter `digest: string -> string`. The thread build is proved
to report the first password of the keyspace whose digest is the target, or
that there is none, when its threads run one after another in worker order.
As written this holds over a charset in ascending byte order whose
arguments fit their buffers; corrected it holds over any accepted charset.
The process build reports what its result file holds; the external
`./worker` program that writes that file is not part of this model.

## Model

| member | source | states |
|---|---|---|
| Keyspace.Pow | src/coordinator.c:34-40 | the keyspace size over a non-empty charset is at least 1 |
| Keyspace.CalculateSearchSpace | src/coordinator.c:34-40 | the multiplying loop returns `charset_len^password_len` (1 for a length of 0 or less), given the product fits a signed 64-bit integer |
| Keyspace.Decode | src/coordinator.c:52-59 | the password of an index has exactly `password_len` symbols, all from the charset |
| Keyspace.IndexToPassword | src/coordinator.c:52-59 | writes the password of the index into `output[0..password_len)`, most significant digit first, and a terminator at `output[password_len]`; nothing after it changes |
| Keyspace.DecodeZero | src/coordinator.c:52-59 | index 0 decodes to `password_len` copies of `charset[0]` |
| Keyspace.DecodeLast | src/coordinator.c:52-59 | index total-1 decodes to `password_len` copies of the last symbol |
| Keyspace.DecodeWraps | src/coordinator.c:52-59 | index total decodes like index 0, since the top digit is dropped |
| Keyspace.IndexOfBound | src/coordinator.c:52-59 | re-reading the digits of any password over the charset gives an index below total |
| Keyspace.DecodeIndexOf | src/coordinator.c:52-59 | decoding the re-read index of a password gives the password back |
| Keyspace.IndexOfDecode | src/coordinator.c:52-59 | for a charset without repeated symbols, re-reading the digits of decode(k) gives k back, for every 0 ≤ k < total |
| Keyspace.DecodeInjective | src/coordinator.c:52-59 | for a charset without repeated symbols, two indexes below total decode to the same password exactly when they are equal |
| Keyspace.Find | src/coordinator_windows.c:63-70 | the result is -1 or a position of the charset |
| Keyspace.FindFirst | src/coordinator_windows.c:63-70 | `find_index` is -1 exactly when the symbol is absent; otherwise it is a position holding the symbol, and the symbol does not occur before it |
| Keyspace.FindDistinct | src/coordinator_windows.c:63-70 | for a charset without repeated symbols, the position of `charset[i]` is `i` |
| Keyspace.FindUnique | src/coordinator_windows.c:63-70 | any answer that is -1 exactly for an absent symbol, and otherwise the first position of the symbol, is the one `find_index` gives |
| Keyspace.FindIndex | src/coordinator_windows.c:63-70 | the linear search returns the least position holding the symbol, or -1 exactly when it does not occur |
| Keyspace.Increment | src/coordinator_windows.c:72-88 | the odometer step keeps the password's length |
| Keyspace.IncrementDecode | src/coordinator_windows.c:72-83 | for a charset without repeated symbols and k+1 < total, the step takes decode(k) to decode(k+1) and reports success |
| Keyspace.IncrementShape | src/coordinator_windows.c:72-83 | a successful step bumps one position to the next symbol; positions to its left are unchanged and positions to its right become `charset[0]` |
| Keyspace.IncrementLast | src/coordinator_windows.c:73-87 | on the last password, the step fails and leaves every position at `charset[0]` |
| Keyspace.StopAt | src/coordinator_windows.c:74-84 | the step fails at the first position, from the right, holding a symbol absent from the charset; that symbol and the positions to its left are unchanged, and the positions to its right are already `charset[0]` |
| Keyspace.ResetTail | src/coordinator_windows.c:79-81 | the reset loop sets positions `[from, to)` to the given symbol and leaves every other position unchanged |
| Keyspace.IncrementPassword | src/coordinator_windows.c:72-88 | the in-place carry loop leaves the first `password_len` positions equal to the odometer step of their old value and returns whether the step succeeded; the rest of the buffer is unchanged |
| ByteOrder.StrCmp | src/coordinator_windows.c:145 | `strcmp` as the sign of its result (C promises only the sign; the model gives -1, 0 or 1): the first differing symbol decides, a proper prefix sorts first, and the result is 0 exactly for equal strings |
| ByteOrder.StrCmpSwap | src/coordinator_windows.c:145 | swapping the operands negates the comparison |
| ByteOrder.StrCmpDecode | src/coordinator_windows.c:145 | over a byte-ascending charset, `strcmp` of decode(j) and decode(k) is the sign of j-k |
| ByteOrder.EndTestAscending | src/coordinator_windows.c:145 | over a byte-ascending charset, the end test `strcmp(current, end) >= 0` holds exactly when the current index has reached the end index |
| ByteOrder.EndTestStopsEarly | src/coordinator_windows.c:145 | over the charset "ba", the end test already holds at index 0 of a range that ends at index 1, and the two passwords differ |
| Partition.Contiguous | src/coordinator.c:137-149 | each range starts where the previous one ended: `start_{i+1} = start_i + size_i = end_i + 1` |
| Partition.Bounds | src/coordinator.c:137-149 | `start_0 = 0`, `start_n = total`, `end_{n-1} = total - 1` |
| Partition.SumIsStart | src/coordinator.c:137-149 | the sizes of the first m workers add up to `start_m` |
| Partition.SumIsTotal | src/coordinator.c:123-124 | the sizes of all workers add up to the keyspace size |
| Partition.Balanced | src/coordinator.c:144-147 | sizes do not grow with the worker number, and any two differ by at most 1 |
| Partition.StartMonotone | src/coordinator.c:137-142 | range starts do not decrease with the worker number |
| Partition.Owner | src/coordinator.c:137-149 | every index at or above `start_m` and below total lies in the range of some worker from m on |
| Partition.Covered | src/coordinator.c:137-149 | every index below total lies in the range of some worker |
| Partition.Disjoint | src/coordinator.c:137-149 | no index lies in the ranges of two different workers |
| Partition.NoneEmpty | src/coordinator.c:144-147 | with at most as many workers as passwords, every worker gets at least one password |
| Partition.EmptyRange | src/coordinator.c:137-149 | a worker with no passwords exists only when there are more workers than passwords; its start index is total and its end index is total-1 |
| Partition.EndNonNegative | src/coordinator.c:137-149 | for a non-empty keyspace every end index lies in `[0, total)` and every start index is at most total |
| Partition.EmptyRangeBounds | src/coordinator.c:137-154 | a worker with no passwords is handed the first password of the keyspace as its start and the last as its end |
| ResultRecord.FirstLine | src/coordinator.c:245-246 | `fgets` reads at most 255 characters |
| ResultRecord.AtoiFormatInt | src/coordinator.c:251 | `atoi` reads back the number `%d` wrote, negative numbers included |
| ResultRecord.FormatIntPlain | src/coordinator_windows.c:99 | a number written with `%d` holds no colon, newline or terminator |
| ResultRecord.FirstLineFormat | src/coordinator.c:245-246 | a record whose password has no newline, and which fits the line buffer, is read whole by `fgets` |
| ResultRecord.ParseFormat | src/coordinator.c:248-258 | parsing a `"%d:%s\n"` record gives back the worker number and the password, even when the password holds colons, provided it holds no newline |
| ResultRecord.NewlineCutsPassword | src/coordinator.c:255-258 | a password holding a newline is read back cut at that newline |
| ResultRecord.TerminatedAt | src/coordinator_windows.c:127-135 | a buffer whose first terminator follows `len` symbols holds the C string of those symbols |
| Arbiter.Unseen | src/coordinator_windows.c:93-94 | lists, in call order, the records of the calls that read the flag as clear, at most one per call; it is the reference `WindowsLastUnseenWins` is stated against |
| Arbiter.SharedState.constructor | src/coordinator_windows.c:211-212 | the result file is removed and the flag cleared |
| Arbiter.SharedState.SaveResult | src/coordinator_windows.c:93-113 | returns at once when the flag is set. Otherwise the POSIX branch writes the record only when the file is absent, the Windows branch always overwrites, and the flag is set only after a write |
| Arbiter.ClaimConsistent | src/coordinator_windows.c:93-113 | a call keeps "the flag is set only when a record exists", and never clears the flag |
| Arbiter.RunConsistent | src/coordinator_windows.c:93-113 | any sequence of calls keeps "the flag is set only when a record exists" |
| Arbiter.PosixRecordStable | src/coordinator_windows.c:103-111 | on POSIX, once the record is written no later call changes it |
| Arbiter.PosixFirstClaimWins | src/coordinator_windows.c:103-111 | on POSIX, the first call that saw the flag clear wins: the file holds its record and the flag is set |
| Arbiter.WindowsLastUnseenWins | src/coordinator_windows.c:96-102 | on Windows, the file holds the record of the last call that saw the flag clear, and stays absent when there is no such call |
| Arbiter.StaleFlagRace | src/coordinator_windows.c:93-113 | when two finders both read the flag as clear, POSIX keeps the first record and Windows keeps the second |
| Worker.FirstMatch | src/coordinator_windows.c:133-147 | a found index lies in the range and its password hashes to the target |
| Worker.FirstMatchIsFirst | src/coordinator_windows.c:133-147 | no index of the range before the first match hashes to the target, and none does when there is no match |
| Worker.FirstMatchHere | src/coordinator_windows.c:135-141 | a matching current password is the first match |
| Worker.FirstMatchNext | src/coordinator_windows.c:135-152 | past a non-matching password, the first match is that of the rest of the range |
| Worker.FirstMatchWindow | src/coordinator_windows.c:133-152 | the first match within a sub-range that starts at or after the keyspace's first match is that match if it falls inside the sub-range, and nothing otherwise |
| Worker.StrCpy | src/coordinator_windows.c:128 | `strcpy` into a large enough buffer copies the string and terminates it; the buffer past the terminator is unchanged |
| Worker.CString | src/coordinator_windows.c:135 | the string `md5_string` and `%s` read from the password buffer is its first `len` symbols, since the terminator follows them and the charset holds none |
| Worker.NextPassword | src/coordinator_windows.c:150-152 | inside the keyspace, the step never fails and moves the current password from decode(k) to decode(k+1); the terminator and the buffer after it are unchanged |
| Worker.EndOrStep | src/coordinator_windows.c:144-152 | over a byte-ascending charset, the end test `strcmp(current, end) >= 0` on the C string stops the loop exactly at the end index, leaving the buffer as it was; otherwise the step moves the buffer to the next index. The terminator and the buffer after it are never changed |
| Worker.EndOrStepFixed | src/coordinator_windows.c:144-152 | the same as `EndOrStep` with the end test `strcmp == 0`, over any charset without repeated symbols |
| Worker.WorkerThread | src/coordinator_windows.c:119-169 | over a byte-ascending charset, with the flag already set the thread does nothing. Otherwise it hashes the C string of its buffer for every password of its range, end password included, up to the first one that hashes to the target. It saves that one through `save_result` and counts one per successful step; without a match it leaves the shared state alone |
| Worker.WorkerThreadFixed | src/coordinator_windows.c:119-169 | the same as `WorkerThread` with the corrected end test, over any charset without repeated symbols |
| Coordinator.Validate | src/coordinator.c:70-98 | rejects (exit 1, before any work) exactly when argc is not 5, the `atoi` of the length is outside [1,10], the `atoi` of the worker count is outside [1,16], or the charset is empty. An accepted configuration has total ≥ 1, fits the 11-byte password buffers, passes the hash and charset through, and takes the length and the worker count from `atoi` of their arguments |
| Coordinator.ValidateSpace | src/coordinator.c:84-108 | accepts exactly the configurations `Validate` accepts whose keyspace size fits a signed 64-bit integer |
| Coordinator.ValidateChecked | src/coordinator_windows.c:188-253 | accepts exactly the configurations `ValidateSpace` accepts whose hash and charset fit the 33- and 256-byte fields and whose charset repeats no symbol and holds no newline |
| Coordinator.ValidateAdmitsOverflow | src/coordinator.c:84-108 | the original checks accept length 10 over the 95 printable symbols, although 95^10 exceeds the largest signed 64-bit integer |
| Coordinator.ValidateAdmitsLongArguments | src/coordinator_windows.c:247-248 | the original checks accept a 256-symbol charset and a 33-character hash, which `strcpy` writes past the end of their fields |
| Coordinator.ValidateAdmitsRepeatedSymbol | src/coordinator_windows.c:188-199 | the original checks accept the charset "aab", which repeats a symbol |
| Coordinator.DuplicateSymbolStalls | src/coordinator_windows.c:72-88 | over "aab" the step from "a" reports success but yields "a" again, while "a" stays below the end password "b", so the thread's loop never ends |
| Coordinator.WorkerRange | src/coordinator.c:137-149 | the signed 64-bit range arithmetic of worker i gives its start, size and end, without overflow |
| Coordinator.FillWorker | src/coordinator_windows.c:232-253 | one turn of the table loop hands worker i the target, the charset, the length, its number, and the passwords of its start and end indexes |
| Coordinator.PlanWorkers | src/coordinator_windows.c:225-264 | the 16-entry worker table holds, for each worker, the data planned for it |
| Coordinator.Report | src/coordinator.c:243-281 | no result file means "not found". An existing file reports neither "found" nor "not found" exactly when it is empty or its first line does not parse. A found record is verified exactly when its password hashes to the target |
| Coordinator.ReportNoColon | src/coordinator.c:246-249 | a first line without a colon reports neither "found" nor "not found" |
| Coordinator.ReportRecord | src/coordinator.c:243-274 | a worker's record is read back as that worker's number and password, verified exactly when the password hashes to the target |
| Coordinator.SearchComplete | src/coordinator_windows.c:230-319 | the search reports a password exactly when some password of the keyspace hashes to the target. The reported one does, and was found by one of the workers |
| Coordinator.SearchFirst | src/coordinator_windows.c:230-319 | over a charset without repeated symbols, the reported password comes first, in index order, among those that hash to the target |
| Coordinator.WorkerBounds | src/coordinator_windows.c:232-253 | worker i is handed the passwords of its own range, or the whole keyspace when its range is empty |
| Coordinator.StepFound | src/coordinator_windows.c:133 | once the first match lies below worker i's start, the state after worker i is the state before it |
| Coordinator.StepEmpty | src/coordinator_windows.c:133-152 | when the flag is still clear at the start of a worker with an empty range, every index below total has been searched, so no password of the keyspace matches and the state stays fresh |
| Coordinator.StepRange | src/coordinator_windows.c:133-152 | a worker with a non-empty range that starts with the flag clear records the keyspace's first match exactly when it lies in its range |
| Coordinator.WorkerStep | src/coordinator_windows.c:119-169 | the effect of any worker's run takes the shared state from its progress at worker i to its progress at worker i+1 |
| Coordinator.RunWorker | src/coordinator_windows.c:259-276 | running the thread of worker i on its planned data takes the shared state from its progress at worker i to its progress at worker i+1. It runs the thread as written over a byte-ascending charset, or the corrected thread over distinct symbols |
| Coordinator.SearchThreads | src/coordinator_windows.c:207-319 | after the checks, the thread build sizes the keyspace, fills the worker table, clears the flag and the file, and runs the threads in worker order. It then reports the first password of the keyspace that hashes to the target, with the worker whose range holds it, verified; or that there is none |
| Coordinator.RunThreads | src/coordinator_windows.c:174-319 | the thread build as written, with its own checks and end test `strcmp >= 0`, exits with 1 exactly when `Validate` rejects. Otherwise it reports as `SearchThreads` does; this is proved for accepted arguments whose keyspace fits a signed 64-bit integer, whose hash and charset fit their fields, and whose charset is byte-ascending without a newline |
| Coordinator.RunThreadsChecked | src/coordinator_windows.c:174-319 | the thread build with the corrected checks (`ValidateChecked`) and the end test `strcmp == 0` exits with 1 on every argument list those checks reject. Otherwise it reports as `SearchThreads` does, for any charset of distinct symbols |
| Coordinator.LaunchArgv | src/coordinator.c:137-172 | one turn of the spawn loop builds the child's command line from the passwords of its range, the length and its number |
| Coordinator.SpawnWorkers | src/coordinator.c:135-181 | the spawn loop stores the PIDs in worker order and gives each child its command line, stopping at the first failed `fork` |
| Coordinator.PidIndex | src/coordinator.c:206-212 | the lookup yields -1 or a position among the stored PIDs |
| Coordinator.PidIndexFirst | src/coordinator.c:206-212 | the lookup yields -1 exactly for an unknown PID, and otherwise the first position holding it |
| Coordinator.FindWorker | src/coordinator.c:206-212 | the inner loop of the wait loop returns the first worker whose PID is the finished one, or -1 |
| Coordinator.Identified | src/coordinator.c:195-223 | one worker number for every wait that did not return -1 and none for the others, so its length is the number of waits minus the failed ones |
| Coordinator.IdentifiedAll | src/coordinator.c:195-223 | without failed waits every wait is counted, and a wait returning a stored PID is reported with a valid worker number |
| Coordinator.WaitAll | src/coordinator.c:195-223 | `workers_finished` counts the waits that did not fail, and each is reported with the worker it looked up |
| Coordinator.RunProcesses | src/coordinator.c:64-281 | the process build exits with 1 and starts nothing on bad arguments, including a keyspace too large for a signed 64-bit integer (the added `SpaceTooLarge` check of `ValidateSpace`). It exits with 1 at the first failed `fork`. Otherwise it starts one child per worker with its command line, identifies the finished children, and reports the result file |

## Left out

- `fork`, `execl`, `wait`, `pthread_create`, `_beginthreadex` and joins. The values `fork` and `wait` return to the parent are inputs to `RunProcesses`.
- Real concurrency. In `SearchThreads` the threads run one after another in worker order. With threads running at once and several matching passwords, another password or worker number can win the result file, and a worker with an empty range, which rescans the whole keyspace, can record the first match under its own number. `Arbiter` models the racy flag read by a per-call `sawFound` value instead.
- The poll of the flag every 10000 steps at src/coordinator_windows.c:157 is in `WorkerThread`. In the one-after-another run the flag never changes during a thread's own loop, so the poll never stops it. A thread stopped early by another thread's find is not captured.
- Coordinator.RunThreads: proved only for accepted arguments whose keyspace fits a signed 64-bit integer, whose hash and charset fit their 33- and 256-byte fields, and whose charset is in ascending byte order without a newline. Outside these the source overflows, writes past a field, stops before the end of a range, loops forever or cuts the found password; the Findings below exhibit each case, and `RunThreadsChecked` rejects them.
- Coordinator.RunWorker and Coordinator.SearchThreads: they take the same preconditions, with distinct symbols in place of byte-ascending order for the corrected thread.
- MD5 (`md5_string`). It is the parameter `digest`; hashes are compared as strings.
- File I/O. The result file is an optional string. `unlink`/`remove` is the fresh state. A failed `fopen` or `open` for writing is not modelled: the POSIX `open` fails only because the file exists, and the Windows `fopen` never fails.
- Coordinator.RunProcesses: the content of the result file is an input, because the external `./worker` program that writes it is not part of this model.
- `printf`, `perror`, `time`, `difftime` and the throughput division. These are console output and floating point.
- `WIFEXITED` and `WIFSIGNALED` on the wait status only select a message, so they are not modelled.
- `atoi` overflow on out-of-range digit strings. `Atoi` reads with unbounded integers.
- The truncation of `snprintf` into 10-byte buffers. The length (at most 10) and the worker number (at most 15) always fit.
- Characters are Dafny `char`, compared by code point. The C code's `char` is a byte; a charset outside ASCII is not modelled byte by byte.
- Worker.WorkerThread and Worker.WorkerThreadFixed: they take the start and end indexes of the range as ghost arguments. The source has only the two passwords.

## Findings

| source | as written | input that shows it | evidently intended | confidence | as-written member | corrected member |
|---|---|---|---|---|---|---|
| src/coordinator.c:34-40 | `calculate_search_space` multiplies in a signed 64-bit integer; the checks before it bound only the length | argv `900150983cd24fb0d6963f7d28e17f72 10 <95 printable symbols> 4`: 95^10 > 2^63-1 | reject a keyspace that does not fit a signed 64-bit integer | not executed | Coordinator.ValidateAdmitsOverflow | Coordinator.ValidateSpace |
| src/coordinator_windows.c:247-248 | `strcpy` of the arguments into the 33-byte `target_hash` and 256-byte `charset` fields, with no length check | a charset of 256 symbols, or a hash of 33 characters | reject a hash or a charset that does not fit its field | not executed | Coordinator.ValidateAdmitsLongArguments | Coordinator.ValidateChecked |
| src/coordinator_windows.c:145 | the end test `strcmp(current, end) >= 0` compares bytes, which agrees with index order only for a byte-ascending charset | charset "ba", range from index 0 ("b") to index 1 ("a"): the test holds at once and "a" is never checked | stop exactly at the end password (`strcmp(...) == 0`) | not executed | ByteOrder.EndTestStopsEarly | Coordinator.RunThreadsChecked |
| src/coordinator_windows.c:72-88 | `increment_password` looks symbols up with `find_index`, which finds the first copy of a repeated symbol | charset "aab", length 1, target not the hash of "a": the step from "a" yields "a" and reports success, "a" < "b", so the loop never ends | reject a charset that repeats a symbol | not executed | Coordinator.DuplicateSymbolStalls | Coordinator.ValidateChecked |
| src/coordinator.c:255-258 | the report cuts the password at its first newline | a charset holding `'\n'` and a matching password "a\nb": the record reads back as "a" | reject a charset holding a newline | not executed | ResultRecord.NewlineCutsPassword | Coordinator.ValidateChecked |
