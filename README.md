# Process Power Monitor — a Dafny model of its core

The application is a Swing window around four small pieces of logic, all in
`src/Main.java`. This project models those four in Dafny and proves what they
promise:

- **The power estimator** (`estimatePowerConsumption`). It is a straight line from an
  idle draw of 10 W to a full-load draw of 65 W, over a CPU percentage. The
  percentage comes from the platform's load fraction times 100 (`getCPUUsage`).
  Doubles are modelled as `real`.
- **The process list** (`getRunningProcesses`). The CSV listing of running processes
  is read line by line and its header is skipped. Each other line gives its
  first comma-separated field, with every `"` removed and then trimmed. The names
  go into a `TreeSet` ordered by `String.CASE_INSENSITIVE_ORDER`. The Java
  library calls this needs (`trim`, `replaceAll`, `split`, `contains` and the
  comparator) are modelled in `JavaStrings` and `CaseInsensitiveOrder`. The
  `TreeSet` is a sequence kept strictly ascending, and `Insert` is `TreeSet.add`.
- **The match detector** (the inner loop of `monitorProcess`). The filtered listing
  for one name is read and its first two lines are skipped. Every later line that
  is not blank and does not contain `No tasks` sets `found`. That line is also
  appended, with a newline, to the process information.
- **The monitor** (`startMonitoring`, `stopMonitoring` and the outer loop of
  `monitorProcess`). The class `Monitor` holds the `isMonitoring` flag and the
  monitor thread. Here the thread is the name it was started for. `Run` is the
  polling loop over a sequence of ticks. A tick carries what the listing produced
  (lines, or the message of the exception it threw), the platform's load fraction,
  and whether a stop was requested during that tick. Each tick produces one
  observation, which is found, not-found or an error report.

The model follows the code in these places, which a reader might not expect:

- `startMonitoring` accepts any selected name, a blank one included. It refuses
  only when monitoring is on or nothing is selected.
- `stopMonitoring` is not an error when monitoring is off. It clears the flag in
  every case.
- The CPU percentage is not clamped. A platform that reports the load as
  unavailable (a negative fraction) gives a negative percentage and an estimate
  below 10 W.
- On a case-insensitive collision the `TreeSet` keeps the spelling added first.
  So `svchost.exe, Svchost.exe, chrome.exe` gives `chrome.exe, svchost.exe`,
  not `Svchost.exe`.
- A failed listing is reported and the loop goes on at once. No sleep comes
  between a failed tick and the next one.

## Model

| member | source | states |
|---|---|---|
| `Power.EstimatePowerConsumption` | src/Main.java:292-296 | the estimate lies between 10 W and 65 W for percentages in 0..100, below 10 W for negative percentages and above 65 W above 100: no clamping |
| `Power.CpuUsagePercent` | src/Main.java:287-290 | a load fraction in 0..1 gives a percentage in 0..100 |
| `Power.EstimateAnchors` | src/Main.java:292-296 | 0 % gives 10 W, 100 % gives 65 W, 50 % gives 37.5 W, 80 % gives 54 W |
| `Power.EstimateLinear` | src/Main.java:292-296 | every percentage point adds 0.55 W |
| `Power.EstimateMonotone` | src/Main.java:292-296 | a higher percentage never gives a lower estimate |
| `Power.UnavailableLoadEstimate` | src/Main.java:287-296 | a reported load of -1 gives -100 % and -45 W |
| `JavaStrings.Trim` | src/Main.java:163 | the result has no trimmable char (code at most U+0020) at either end; it holds only chars of the input; it is empty exactly when every char is trimmable; an already trimmed string is unchanged |
| `JavaStrings.TrimStretch` | src/Main.java:163 | the result is the stretch of the input left between a head and a tail of trimmable chars |
| `JavaStrings.TrimIdempotent` | src/Main.java:163 | trimming twice is trimming once |
| `JavaStrings.RemoveAll` | src/Main.java:163 | the result holds no quote, and exactly the input's other chars; a string without quotes is unchanged |
| `JavaStrings.RemoveAllAppend` | src/Main.java:163 | removing quotes from a concatenation removes them from each part and keeps the other chars in order, every copy of them |
| `JavaStrings.RemoveAllSingle` | src/Main.java:163 | a single quote is dropped and any other single char is kept, so with `RemoveAllAppend` the result is the input with its quotes deleted |
| `JavaStrings.FirstField` | src/Main.java:161-163 | the result is the prefix of the input before the first separator: a prefix, separator-free, followed by a separator or the end |
| `JavaStrings.FieldsRoundTrip` | src/Main.java:161 | joining the comma fields with commas gives back the line |
| `JavaStrings.FieldsHaveNoSeparator` | src/Main.java:161 | no comma field holds a comma |
| `JavaStrings.FieldsAllEmpty` | src/Main.java:161-162 | all fields are empty exactly when the line is made only of commas |
| `JavaStrings.SplitHead` | src/Main.java:161-163 | split yields no part exactly for a non-empty line of commas only; otherwise its first part is the text before the first comma |
| `JavaStrings.ContainsOccurs` | src/Main.java:234 | contains holds exactly when the pattern occurs at some index |
| `CaseInsensitiveOrder.CompareChars` | src/Main.java:145 | the comparator's char step is the difference of the case-folded chars |
| `CaseInsensitiveOrder.CompareAntisymmetric` | src/Main.java:145 | swapping the arguments negates the comparison |
| `CaseInsensitiveOrder.CompareReflexive` | src/Main.java:145 | every string equals itself ignoring case |
| `CaseInsensitiveOrder.SameIgnoringCaseFolds` | src/Main.java:145 | two strings compare equal exactly when they have the same length and the same folded chars |
| `CaseInsensitiveOrder.CompareTransitive` | src/Main.java:145 | the order is transitive, and strict as soon as one step is strict |
| `CaseInsensitiveOrder.SameTransitive` | src/Main.java:145 | equality ignoring case is transitive |
| `ProcessList.ExtractNameSpec` | src/Main.java:159-165 | a line yields no name exactly when it is empty or made only of commas; otherwise the name is the text before the first comma, quotes removed, trimmed; it holds no quote and has no trimmable end |
| `ProcessList.ExtractedNamesSpec` | src/Main.java:157-167 | a name is collected exactly when some line yields it |
| `ProcessList.InsertSpec` | src/Main.java:164 | adding to a strictly ascending set keeps it strictly ascending; the new element is present exactly when no element equals it ignoring case, and nothing else changes |
| `ProcessList.BuildSetSpec` | src/Main.java:145-174 | the built set is strictly ascending ignoring case (sorted, no two entries equal ignoring case); every added name has an entry equal to it ignoring case; the entries are exactly the first-added spellings |
| `ProcessList.CollisionKeepsFirst` | src/Main.java:164 | of two spellings equal ignoring case, the first one added is kept |
| `ProcessList.RunningProcessesSpec` | src/Main.java:154-174 | the list is strictly ascending ignoring case; every name of a line after the header is present ignoring case; every entry is the name of some line after the header; the entries are the first-seen spellings |
| `ProcessList.GetRunningProcesses` | src/Main.java:144-175 | the loop returns the list of the lines read before any exception, and reports that exception's message |
| `MatchDetector.JoinLines` | src/Main.java:236 | the information is empty exactly when no line was kept |
| `MatchDetector.FilterSpec` | src/Main.java:233-238 | the kept lines are lines of the input that pass the test; every passing line is kept; none is kept exactly when none passes |
| `MatchDetector.FoundIffMatched` | src/Main.java:229-238 | the process is found exactly when some line after the first two is non-blank and lacks "No tasks" |
| `MatchDetector.SplitJoinLines` | src/Main.java:236 | lines without a newline are recovered by cutting the information at its newlines |
| `MatchDetector.DetailSpec` | src/Main.java:229-238 | found exactly when the information is non-empty, and the information splits back into the match lines in order |
| `MatchDetector.DetectMatch` | src/Main.java:226-238 | found holds exactly when some line after the first two is a match line; the information is the match lines, each followed by a newline; it is empty exactly when nothing was found |
| `Monitoring.TickObservation` | src/Main.java:220-283 | a failed listing yields an error report; a found tick carries 100 times the load as its CPU usage and the estimate of that usage; a not-found tick carries the monitored name; a found tick carries the matched lines as its process information, and an error carries the exception's message |
| `Monitoring.ObservationsSpec` | src/Main.java:219-284 | one observation per tick, in order, up to and including the first tick with a stop, and none after it |
| `Monitoring.NeverFound` | src/Main.java:259-268 | a process never found yields one not-found observation per tick |
| `Monitoring.SteadyLoad` | src/Main.java:243-252 | a process found at a steady 80 % load yields 54 W in every observation |
| `Monitoring.Monitor.constructor` | src/Main.java:20-21 | monitoring starts off, with no monitor thread |
| `Monitoring.Monitor.Start` | src/Main.java:177-201 | refused and nothing changes while monitoring is on; refused with the flag left off when nothing is selected; otherwise the flag is set and a thread is started for the selected name |
| `Monitoring.Monitor.Stop` | src/Main.java:203-214 | the flag is off afterwards whatever it was, so stopping twice is stopping once; the thread is interrupted exactly when one was ever started |
| `Monitoring.Monitor.Run` | src/Main.java:219-284 | with the flag off nothing is observed; otherwise the observations are those of the ticks up to the first stop; the flag stays on exactly when no tick requested a stop |
| `Monitoring.Monitor.Observe` | src/Main.java:220-268 | one pass computes the tick's observation from the listing, the load sample and the estimate |
| `Monitoring.StartStopScenario` | src/Main.java:177-214 | a second start is refused and the first session stays; repeated stops leave monitoring off; a start with no selection is refused |

## Left out

- The Swing window, its layout, listeners, dialogs, status label and caret handling (src/Main.java:23-116, 298-312). These are presentation only.
- Filling the combo box from the list and selecting its first entry (src/Main.java:118-142). This is a `SwingWorker` callback that touches only widgets. `Start` takes the selection as a parameter.
- Starting `tasklist` and reading its output (src/Main.java:148-151, 221-224). This is operating-system I/O. Its lines, or the exception it raised, are inputs.
- The threads, the 5-second `Thread.sleep`, `interrupt` and `SwingUtilities.invokeLater` (src/Main.java:194-199, 211, 247, 260, 270, 277). This is concurrency. A stop shows up only as the `stopRequested` flag of a tick. The race where a stop and a quick restart let an old loop go on is not modelled.
- `OperatingSystemMXBean.getProcessCpuLoad` (src/Main.java:288-289). This is a foreign call. Each tick supplies the load fraction.
- Timestamps and the `%.2f` formatting of the output text (src/Main.java:217, 241, 249-253, 262-264, 279). These are clock reads and floating-point rendering. Observations are values, not text.
- The text written to the output area on start, on stop and on a list error (src/Main.java:171, 187, 212). This is presentation. The list error's message is returned instead.
- IEEE double rounding. The estimator is modelled over `real`.
- CaseInsensitiveOrder.CompareChars: case mapping covers the ASCII letters only. Java's `Character.toUpperCase`/`toLowerCase` also map other Unicode letters.
- CaseInsensitiveOrder.CompareIgnoreCase: chars are Unicode scalar values, and a name with a char above U+FFFF is compared and measured by code points. Java compares UTF-16 code units, so such names may sort differently.
