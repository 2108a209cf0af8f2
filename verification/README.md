# Restart detection of bao-mon, in Dafny

bao-mon checks whether a systemd service (`solana`) has restarted since the
last time it looked. One run asks systemd for the service's
`ActiveEnterTimestamp`, extracts the timestamp text, and compares it with the
value recorded in a state file. The run ends in one of four outcomes:

- it skips when there is no usable timestamp;
- it initializes the file when the file does not exist;
- it reports a restart and rewrites the file when the value differs;
- it reports no change otherwise.

The model has four modules:

- `Wrappers`: `Option`, standing for Python's `None` and for a missing file.
- `Text`: the Python string semantics the restart check relies on.
  - `str.isspace` and `str.strip()`. `Strip` is proved against an
    independent "slice surrounded by whitespace" meaning, which has a unique
    result.
  - `str.split(sep)` and its last field. `Split` is proved against joining
    its fields back together, and its last field is proved equal to a
    backward-scanning `AfterLast`.
  - The universal-newline translation applied by text-mode pipes and files,
    proved equal to two chained `str.replace` calls.
- `Sampler`: the query result (`Invocation`: exit code and raw standard
  output, or a raised exception) and the extracted restart time.
- `Detector`: the three-way comparison as `Step`, on a state file abstracted
  as `Option<string>` of its raw content. `Run` feeds successive runs with
  the file persisting between them. The lemmas cover idempotence,
  write-then-read-back and the store invariant.

The central property is that re-observing a value that was just written
reports no change. It holds because the written value is already stripped and
contains no carriage return. The pipe's newline translation rules out a
carriage return, and stripping at line 20 rules out surrounding whitespace.
So reading the file back and stripping it at line 35 gives the value
unchanged.

## Model

| member | source | states |
|---|---|---|
| Text.IsSpaceByCodePoint | bao_monitoring.py:20 | a character is one `strip()` removes exactly when its code point is in 0x09-0x0D, 0x1C-0x20, or is 0x85, 0xA0, 0x1680, 0x2000-0x200A, 0x2028, 0x2029, 0x202F, 0x205F or 0x3000: Python's `str.isspace` |
| Text.SkipSpace | bao_monitoring.py:20 | scanning forward from a position stops at the first non-whitespace character or the end, and everything passed is whitespace |
| Text.SkipSpaceBack | bao_monitoring.py:20 | scanning backward from a position, not below a lower bound, stops after the last non-whitespace character or at the bound, and everything passed is whitespace |
| Text.Strip | bao_monitoring.py:20 | the result is a slice of the input with only whitespace around it and no whitespace at either end (`StripsTo`) |
| Text.StripsToIsUnique | bao_monitoring.py:20 | a string has exactly one strip in that sense, so `Strip` is Python's `strip()` |
| Text.StripFixpoint | bao_monitoring.py:35 | stripping a value with no whitespace at either end returns it unchanged |
| Text.StripIdempotent | bao_monitoring.py:20 | a stripped value has no whitespace at its ends, and stripping it again changes nothing |
| Text.StripAddsNothing | bao_monitoring.py:20 | a character absent from the input is absent from its strip |
| Text.Split | bao_monitoring.py:20 | `split` gives at least one field, no field contains the separator, and joining the fields with the separator gives the input back |
| Text.LastField | bao_monitoring.py:20 | `split("=")[-1]` is the text after the last `=`, or the whole input when there is none |
| Text.AfterLast | bao_monitoring.py:20 | the text after the last separator is a separator-free suffix, preceded by a separator or equal to the whole input |
| Text.IsAfterLastIsUnique | bao_monitoring.py:20 | only one suffix has that property |
| Text.LastFieldIsAfterLast | bao_monitoring.py:20 | the last field of `split("=")` is exactly the text after the last `=` |
| Text.TranslateNewlines | bao_monitoring.py:14-18 | text read through a text-mode pipe or file has no carriage return, and text without one passes unchanged |
| Text.TranslateNewlinesIsReplace | bao_monitoring.py:14-18 | the translation equals `replace("\r\n", "\n").replace("\r", "\n")`, with `str.replace` modelled as left-to-right replacement without overlap |
| Sampler.RestartTime | bao_monitoring.py:11-26 | a value is returned if and only if the query exited with code 0, otherwise None. The value is the strip of the text after the last `=`, so it has no `=`, no carriage return and no surrounding whitespace |
| Sampler.RestartTimeWithoutSeparator | bao_monitoring.py:20 | when the output has no `=`, the value is the whole output, stripped |
| Detector.ReadBack | bao_monitoring.py:34-35 | the compared value is the strip of the newline-translated file content, so it is stripped and has no carriage return |
| Detector.ReadBackOfClean | bao_monitoring.py:33-35 | a value the query can return, once written, reads back as itself |
| Detector.Step | bao_monitoring.py:28-46 | Skip exactly when the sample is one of Python's false values here, None or the empty string. Initialize exactly when it is neither and there is no file. Restarted or NoChange exactly when the file's stripped content differs from or equals the sample. Only Initialize and Restarted change the file, and they store the sample |
| Detector.StepRecordsSample | bao_monitoring.py:37-46 | after a run with a usable query value, the file exists and reads back as that value, whichever branch was taken |
| Detector.ReobserveAfterWriteIsNoChange | bao_monitoring.py:35-46 | a run that wrote the file, followed by a run on the same query result, reports NoChange and writes nothing |
| Detector.StepIdempotent | bao_monitoring.py:29-46 | running twice on the same query result leaves the file as the first run left it, and the second run reports NoChange or Skip |
| Detector.StepKeepsStoreClean | bao_monitoring.py:39-46 | if the file held nothing or a clean value, it still does after a run fed by the query |
| Detector.Run | bao_monitoring.py:28-46 | each run's outcome and the file after it are `Step` applied to that run's sample and the file the earlier runs left. The final file holds the sample of the last run that rewrote it, or the starting content when no run did |
| Detector.RunSettled | bao_monitoring.py:41-42 | a sample that leaves the file unchanged gives the same outcome on every later run, and every file in the history stays as it was |
| Detector.RepeatedQuery | bao_monitoring.py:29-46 | feeding one query result to n runs gives the first run's outcome, then n-1 NoChange (or Skip when the value is unusable). Every later file is the one the first run left |
| Detector.FirstRunsInitializeThenSettle | bao_monitoring.py:43-46 | with no file and a usable value, n runs give Initialize followed by n-1 NoChange, and after each run the file holds the value |
| Detector.RestartedIffDifferent | bao_monitoring.py:37-42 | between clean values, Restarted holds exactly when the sample differs from the stored value, and NoChange exactly when they are equal |

## Left out

- Running `systemctl` through `subprocess.run` (lines 14-18) is foreign process I/O. Only its result is modelled: an exit code with raw standard output, or a raised exception (`Sampler.Invocation`). Decoding bytes to text in the locale encoding is not modelled; output is taken as characters.
- File existence checks, reads and writes (lines 33-35, 39-40, 45-46) are replaced by an `Option<string>` holding the file's raw content. Writing is modelled as on Linux, with no newline translation on output. An exception while reading or writing the file propagates out of `main` in the source and is not modelled.
- `datetime.now().isoformat()` and every `print` (lines 22, 25, 38, 42, 44) are clock and logging side effects. Only the outcome tag is kept.
- The configuration constants `SERVICE_NAME` and `LAST_RESTART_FILE` (lines 8-9) only select the service and the file path. They have no effect on the decision.
- `main` runs once per process. `Detector.Run` models repeated invocations by an outside scheduler, with the file persisting between them.
