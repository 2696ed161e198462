# run_and_monitor_memory — verified model of its sequential core

`run_and_monitor_memory.py` runs a command, waits until the command and every
process it spawned have exited, and reports the peak total resident memory
(summed over every process in `ps aux`) seen while it ran. It then exits with
the child's status. This project models the sequential logic around that
process plumbing, in Dafny:

- `Launch`: normalising `(executable, args)` into the executable and argument
  vector handed to `execvp`, including its two exceptions.
- `Text`: the Python 2 string built-ins the parser uses. These are
  `str.split('\n')`, `str.split()` on runs of whitespace, and `float()` on the
  RSS field, read as an unsigned decimal integer.
- `PsMemory`: parsing a `ps aux` table. The header and empty lines are dropped,
  column 5 (RSS, kB) is taken from every other row, and the sum is scaled to
  megabytes. The loop is a method proved against a specification function. RSS
  values are naturals, and the megabyte total is an exact `real`.
- `WaitStatus`: the decode `status // 256` of the raw `waitpid` status, set
  against the conventional Unix layout (WEXITSTATUS, WTERMSIG, WIFEXITED,
  WIFSIGNALED).
- `Monitor`: the global peak `max_child_memory_use`, as a class `PeakMemory`
  with a `peak` field and a ghost record of the samples taken. `Update` is one
  `max` step, and `Run` is the sampler loop over a finite sequence of `ps`
  tables.
- `Supervisor`: `main`'s decisions. It exits 1 on a short argument vector,
  before launching anything. Otherwise it launches `argv[1:]`, reports the
  peak, and ends with the decoded child status (`sys.exit(status)` when it is
  non-zero, a normal return otherwise).

Two behaviours of the code differ from what the tool's documentation
describes. The model follows the code in both cases:

- A child killed by a signal has a raw status below 256. It decodes to 0, so
  the supervisor exits 0 rather than reporting a failure
  (`WaitStatus.DecodeSignaled`, `Supervisor.SignaledChildExitsZero`).
- A `ps` table that cannot be read is not skipped. The exception ends the
  sampler thread, so no later tick updates the peak (`Monitor.PeakMemory.Run`,
  `Monitor.SamplesTaken`).

## Model

| member | source | states |
|---|---|---|
| `Launch.ExecutableAndArgs` | run_and_monitor_memory.py:73-84 | it fails exactly when `args` is given without an executable (ValueError) or when neither is given and the script's argv has no command (IndexError); every success has a non-empty vector whose element 0 is the executable |
| `Launch.BothGiven` | run_and_monitor_memory.py:80-84 | with both given, the vector is the executable followed by `args` in order, of length `len(args) + 1`, and its tail is `args` |
| `Launch.ExecutableOnly` | run_and_monitor_memory.py:74-76 | with only the executable given, the vector is `(executable,)` |
| `Launch.FromScriptArgv` | run_and_monitor_memory.py:77-79 | with neither given, the executable is `sys.argv[1]` and the vector is `sys.argv[1:]` |
| `Text.Split` | run_and_monitor_memory.py:123 | `split('\n')` gives at least one piece and no piece holds a newline |
| `Text.JoinSplit` | run_and_monitor_memory.py:123 | joining the pieces of `split('\n')` with newlines gives back the text |
| `Text.SplitJoin` | run_and_monitor_memory.py:123 | splitting a newline-join of newline-free lines gives back the lines |
| `Text.SplitConcat` | run_and_monitor_memory.py:123 | splitting `a + '\n' + b` is splitting `a`, then `b` |
| `Text.Words` | run_and_monitor_memory.py:126 | every field of `split()` is non-empty and free of whitespace |
| `Text.WordsAtSpace` | run_and_monitor_memory.py:126 | a whitespace character separates fields: `split()` of `a + c + b` is the fields of `a` then those of `b`, so runs of whitespace act as one separator and whitespace at either end yields no field |
| `Text.WordsJoin` | run_and_monitor_memory.py:126 | `split()` of whitespace-free fields joined by spaces gives back the fields |
| `Text.ParseNat` | run_and_monitor_memory.py:126 | a field is read exactly when it is a non-empty digit string, and a field without a leading zero is the printed form of the number read |
| `Text.ShowDecimal` | run_and_monitor_memory.py:126 | printing the number a digit string without a leading zero denotes gives back the string |
| `Text.ParseNatLeadingZero` | run_and_monitor_memory.py:126 | a field with a leading zero reads as the same number as without it, as `float('007') == 7.0` |
| `Text.ParseShowNat` | run_and_monitor_memory.py:126 | reading the RSS field as a number inverts printing it in decimal |
| `PsMemory.NonEmptyKeeps` | run_and_monitor_memory.py:123 | the filter keeps every non-empty line as often as it occurs and drops every empty one (multiset equality) |
| `PsMemory.ProcessLines` | run_and_monitor_memory.py:123 | every process row is non-empty |
| `PsMemory.ProcessLinesAreRows` | run_and_monitor_memory.py:123 | the process rows are the lines after the first, each non-empty one as often as it occurs |
| `PsMemory.RowRss` | run_and_monitor_memory.py:125-126 | a row is readable exactly when it has a sixth field made of digits, and then yields that field's number; it fails with IndexError exactly when it has fewer than six fields |
| `PsMemory.RowOfPrintedRss` | run_and_monitor_memory.py:125-126 | a row printed as space-separated fields with the decimal form of `kb` in column 5 reads back as `kb` |
| `PsMemory.RssValues` | run_and_monitor_memory.py:124-127 | on success there is one value per row |
| `PsMemory.UsageMb` | run_and_monitor_memory.py:120-128 | it succeeds exactly when the kilobyte total does, and the megabyte value is non-negative and times 1024 is that total |
| `PsMemory.AllPsMemoryUsage` | run_and_monitor_memory.py:120-128 | the loop returns the sum of every row's RSS times 1/1024, or the error of the first row without a numeric column 5 |
| `PsMemory.RssValuesAppend` | run_and_monitor_memory.py:124-127 | reading two blocks of rows in turn gives the concatenated values, or the first block's error before the second's |
| `PsMemory.FirstFailure` | run_and_monitor_memory.py:125-126 | the first unreadable row's error is the error of the whole table |
| `PsMemory.RssValuesOk` | run_and_monitor_memory.py:124-127 | reading succeeds exactly when every row has a numeric column 5, and value k is row k's column 5 |
| `PsMemory.RssValuesPermutation` | run_and_monitor_memory.py:124-127 | reordering the rows changes neither success nor the sum |
| `PsMemory.HeaderIgnored` | run_and_monitor_memory.py:123 | the rows are the non-empty lines after the first line, whatever the first line holds |
| `PsMemory.BlankLineIgnored` | run_and_monitor_memory.py:123 | an extra empty line after the header changes nothing |
| `PsMemory.NoRowsTotalZero` | run_and_monitor_memory.py:123-128 | a table that is a header, possibly followed by empty lines, totals 0 |
| `PsMemory.TotalIsRssSum` | run_and_monitor_memory.py:120-128 | the total succeeds exactly when every row is readable, and is then the sum of the rows' column-5 values times 1/1024 |
| `PsMemory.ShortRowIsError` | run_and_monitor_memory.py:126 | a non-empty row with fewer than six fields makes the call fail, with that row's IndexError when the rows before it are readable |
| `PsMemory.TotalOrderIndependent` | run_and_monitor_memory.py:124-127 | two tables with the same rows in any order either both succeed with the same total or both fail; which row's error is reported can depend on the order |
| `WaitStatus.ExitedRoundTrip` | run_and_monitor_memory.py:99-100 | a normal exit's raw status reads as exited, not signalled, with its code |
| `WaitStatus.SignaledRoundTrip` | run_and_monitor_memory.py:99-100 | a signal death's raw status reads as signalled, not exited, with its signal |
| `WaitStatus.ExitStatus` | run_and_monitor_memory.py:100 | on every 16-bit wait status the decode is the WEXITSTATUS byte |
| `WaitStatus.DecodeHighByte` | run_and_monitor_memory.py:100 | decoding `c*256 + s` with `0 <= s < 256` gives `c` |
| `WaitStatus.DecodeIsExitCode` | run_and_monitor_memory.py:100 | on every 16-bit status the decode equals WEXITSTATUS and lies in 0..255 |
| `WaitStatus.DecodeExited` | run_and_monitor_memory.py:100 | a child that exited with code `c` decodes to `c` |
| `WaitStatus.DecodeSignaled` | run_and_monitor_memory.py:100 | a child killed by any signal decodes to 0 |
| `WaitStatus.DecodeZeroIff` | run_and_monitor_memory.py:100 | a 16-bit status decodes to 0 exactly when it is below 256 |
| `Monitor.Max` | run_and_monitor_memory.py:153-156 | `max(a, b)` is at least both and is one of them |
| `Monitor.SamplesTaken` | run_and_monitor_memory.py:151-156 | a sampler records at most one sample per tick |
| `Monitor.PeakOf` | run_and_monitor_memory.py:132-156 | the peak after a run of samples is at least 0 and every sample, and is 0 or one of the samples |
| `Monitor.PeakMonotone` | run_and_monitor_memory.py:151-156 | later samples never lower the peak |
| `Monitor.PeakIsLeastBound` | run_and_monitor_memory.py:151-156 | the peak is at most any bound that is at least 0 and every sample |
| `Monitor.SamplesTakenAre` | run_and_monitor_memory.py:151-156 | sample k is the total of the table read at tick k, and sampling stops only at an unreadable table or the last tick |
| `Monitor.PeakIsSampledTotal` | run_and_monitor_memory.py:151-156 | the reported peak is 0 or the total of a table at a tick the sampler actually reached and read (before any failing tick), and is at least every total it read |
| `Monitor.PeakMemory.constructor` | run_and_monitor_memory.py:132 | the peak starts at 0 with no samples taken |
| `Monitor.PeakMemory.Update` | run_and_monitor_memory.py:152-156 | the peak becomes `max(old peak, sample)`, so it never decreases and is at least the sample, and it stays the fold of all samples |
| `Monitor.PeakMemory.Run` | run_and_monitor_memory.py:149-157 | after the ticks, the recorded samples are the old ones plus one total per tick up to the first unreadable table, and the peak has not decreased |
| `Supervisor.Main` | run_and_monitor_memory.py:160-174 | usage exit 1 exactly when argv has fewer than 2 entries; otherwise it launches `argv[1:]`, reports the peak, and returns normally exactly when the decoded status is 0, exiting with that status otherwise |
| `Supervisor.ExitCodePropagated` | run_and_monitor_memory.py:167-174 | a child that exits with code `c` in 0..255 makes the supervisor exit with `c` |
| `Supervisor.SignaledChildExitsZero` | run_and_monitor_memory.py:167-174 | a child killed by a signal makes the supervisor return normally with status 0 |
| `Supervisor.ReportedPeakIsSampled` | run_and_monitor_memory.py:165-170 | when the peak read is the one the sampler kept, the reported value is 0 or the total of a table at a tick the sampler actually reached and read, and is at least every total it read |
| `Supervisor.ExitCodeIsWaitExitCode` | run_and_monitor_memory.py:167-174 | for every 16-bit wait status, the supervisor exits with the child's WEXITSTATUS byte |

## Left out

- `fork_with_pipe` (lines 53-70): `os.pipe`, `os.fork`, `os.execvp` and closing the write end are OS process semantics. The model only produces the command they would run.
- Tree completion in `wait_for_child` (lines 101-102): the blocking `os.read` on the pipe and the close that follows. Their correctness rests on the POSIX pipe-closure guarantee, which is not visible code. The call order (reap, then read, then close) is not recorded either.
- `os.waitpid` itself: the raw status is a parameter of `Supervisor.Main` and of the `WaitStatus` lemmas.
- `subprocess.check_output(['ps', 'aux'])` (line 122): the table text is a parameter. A tick whose `ps` call itself raises is represented by an unreadable table: both end the sampler thread. The model treats it as Python 2 `str` text. Under Python 3 the bytes output would make `split('\n')` raise, and that is not modelled.
- The daemon thread, `threading.Lock` and `time.sleep` (lines 133-157, 165-168): concurrency and timing. `Run` models the `while True` loop over a finite sequence of ticks. Nothing is modelled about how the sampler interleaves with `main`, so `Supervisor.Main` takes the peak it reads as a parameter. `Supervisor.ReportedPeakIsSampled` covers the case where that parameter is the peak the sampler kept over its ticks.
- `PsMemory.AllPsMemoryUsage`: `float()` on the RSS field is modelled as reading an unsigned decimal integer. Other spellings that `float` accepts (signs, decimal points, exponents, `inf`, `nan`, surrounding whitespace) are modelled as a `BadRssField` error. `ps` prints RSS as a plain integer.
- Binary floating point: megabyte totals and the peak are exact reals, so rounding is not modelled.
- The `'%.3f'` report format, the usage text and all stderr printing (lines 48-50, 162, 169-173).
- `Supervisor.Main`: `sys.exit(status)` is modelled as exiting with `status` unchanged. This matches the process exit status because the decoded status of a 16-bit wait status is a byte (`Supervisor.ExitCodeIsWaitExitCode`).
- The summed memory covers every process on the host, not only the supervised tree. That is the code's own scope, and the model keeps it.
