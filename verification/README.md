# HCP test configuration, modelled in Dafny

This project models `hcp/tests/config.py` of the MNE-HCP package. That module
prepares the fixtures the test suite runs against:

- It assembles `s3_keys`, the list of objects to fetch from the HCP open-access S3
  bucket. The list has four batches:
  - raw outputs over a capped run range, filtered in cheap mode;
  - epochs outputs over the capped runs;
  - every other output kind over all runs;
  - the anatomy keys.
- `_download_testing_data` places each key under the local data root. It creates
  missing directories and fetches missing files.
- It defines the tables other tests read: the 248 MEG channel names `bti_chans`, the
  task and noise types, and the per-task epoch windows.

The project has four modules:

- `Py` (`py.dfy`) states the Python semantics the configuration relies on:
  - `str.find`, the substring test `t in s`, `str.split` and `xs[-1]`;
  - `posixpath.dirname`, `basename` and `join`, `str.rstrip` and `s[1:]`;
  - slices `xs[:n]` with a negative or oversized bound;
  - filtering list comprehensions and `str(n)`.
- `TestConfig` (`config.dfy`) holds the constants, the truthiness of `MNE_HCP_CHEAP`,
  `bti_chans` and `epochs_bounds`.
- `S3Keys` (`keys.dfy`) covers:
  - the three output selections, including the substring quirk of `dd in ('epochs')`;
  - the run cap and the cheap-mode filter;
  - assembly of the key list. `AssembleKeys` does it by successive appends and is
    proved equal to the specification function `S3KeyList`.
- `Download` (`download.dfy`) covers the key-to-local-path derivation and the download
  loop:
  - `FetchAll` specifies the loop as a fold over an abstract disk state: the set of
    existing paths, the directories made, the keys transferred, and how the loop ended.
  - The class `LocalDisk` runs the loop imperatively over its fields. `FetchInto`
    is one iteration, `FetchKeys` the loop for any placement of keys, and
    `DownloadTestingData` the loop with the placement of lines 82-85. Each is proved
    to end in the state `FetchKey` or `FetchAll` describes.

The two key-listing functions of `hcp/io/file_mapping.py` are not part of this model.
They become parameters: `MegLister` receives the full argument tuple of one call. The
model therefore states which subject, data types, onsets, bucket, outputs and run
indices each batch is listed with, but not which keys come back.

A negative `MNE_HCP_N_RUNS` follows Python slice semantics (lines 38-39 and 48) and
drops runs from the end of `[0, 1, 2]`: a value of -1 keeps `[0, 1]`.

## Model

| member | source | states |
|---|---|---|
| Py.FindFrom | hcp/tests/config.py:52 | the scan returns the least index at or after the start where the needle occurs, or -1 when it occurs nowhere from there on |
| Py.Find | hcp/tests/config.py:52 | `s.find(t)` is the least index of an occurrence of `t` in `s`, and -1 exactly when `t` does not occur |
| Py.Split | hcp/tests/config.py:82 | `s.split(sep)` yields at least one piece and no piece contains the separator |
| Py.SplitJoin | hcp/tests/config.py:82 | joining the pieces of `s.split(sep)` with `sep` gives back `s` |
| Py.LastPieceFollowsLastMatch | hcp/tests/config.py:82 | `s.split(sep)[-1]` is a suffix of `s` free of `sep`; it is preceded by `sep` when `sep` occurs in `s` and is all of `s` otherwise |
| Py.RFind | hcp/tests/config.py:82-84 | the result is the greatest index holding the character, or -1 when none does |
| Py.RStrip | hcp/tests/config.py:82 | the result is the longest prefix not ending in the character; everything after it is that character |
| Py.BasenameIsFinalComponent | hcp/tests/config.py:84 | `basename(p)` is a '/'-free suffix of `p`, preceded by '/' when `p` has one and equal to `p` otherwise |
| Py.PathJoin | hcp/tests/config.py:83-85 | `join(a, b)` is `b` when `b` is absolute; otherwise it starts with `a` and ends with `b`, with one '/' between them exactly when `a` is non-empty and does not end in '/', and nothing between them otherwise |
| Py.DropFirst | hcp/tests/config.py:82 | `s[1:]` is `s` without its first character, and empty for an empty `s` |
| Py.SliceTo | hcp/tests/config.py:48 | `xs[:n]` is a prefix of `xs` of length min(n, len) for n >= 0 and len + n (at least 0) for n < 0, never an error |
| Py.Filter | hcp/tests/config.py:47 | a comprehension with a condition never lengthens its input |
| Py.FilterMembers | hcp/tests/config.py:51-52 | an element is in the comprehension's result exactly when it is in the input and passes the condition |
| Py.FilterMultiplicity | hcp/tests/config.py:51-52 | the comprehension keeps every copy of an element that passes the condition and no copy of one that fails it |
| Py.FilterIsSubsequence | hcp/tests/config.py:51-52 | the comprehension's result keeps the input's order: it is a subsequence of the input |
| Py.Str | hcp/tests/config.py:99 | `str(n)` is a non-empty string of decimal digits with no leading zero unless n is 0 |
| Py.DecimalValueOfStr | hcp/tests/config.py:99 | reading back the digits of `str(n)` gives n |
| Py.StrInjective | hcp/tests/config.py:99 | distinct numbers render as distinct strings |
| TestConfig.CheapModeTruthiness | hcp/tests/config.py:33 | unset and empty mean off; "0" and "False" mean on |
| TestConfig.ChannelNameInjective | hcp/tests/config.py:99 | distinct indices give distinct channel names `'A' + str(i)` |
| TestConfig.ChannelsBelowCount | hcp/tests/config.py:99 | the names for indices 1 to hi-1 number exactly hi-1 |
| TestConfig.BtiChansCount | hcp/tests/config.py:99 | `bti_chans` has exactly 248 elements |
| TestConfig.BtiChansMembers | hcp/tests/config.py:99 | `'A' + str(n)` is in `bti_chans` exactly when 1 <= n <= 248 |
| TestConfig.EpochsBoundsCoverTaskTypes | hcp/tests/config.py:102-114 | every task type has an epoch window, and every window starts before it ends |
| TestConfig.TaskAndNoiseTypesAreDataTypes | hcp/tests/config.py:102-103 | the task and noise types are among the data types keys are listed for |
| S3Keys.EpochsFragmentsOfConfig | hcp/tests/config.py:59 | of the configured output kinds only "epochs" is a substring of "epochs" |
| S3Keys.EpochOutputsOfConfig | hcp/tests/config.py:59 | the epochs selection over the configured outputs is `['epochs']` |
| S3Keys.OtherOutputsOfConfig | hcp/tests/config.py:67 | the remaining selection is `['ica', 'evoked', 'trial_info', 'bads']` |
| S3Keys.OutputSelectionsSplitOutputs | hcp/tests/config.py:47-67 | the three selections are `['raw']`, `['epochs']` and the four others, and together they give back the output list in order |
| S3Keys.EpochSelectionIsSubstringTest | hcp/tests/config.py:59 | the line-59 test selects a fragment such as "poch" and the empty string, unlike a tuple test |
| S3Keys.EpochSelectionAgreesWithTupleTest | hcp/tests/config.py:59 | when no output kind is a proper fragment of "epochs", the substring test selects what `dd in ('epochs',)` would |
| S3Keys.CappedRunsValues | hcp/tests/config.py:38-48 | `run_inds[:max_runs]` is runs 0 to min(max_runs, 3)-1 for a non-negative cap and drops runs from the end for a negative one |
| S3Keys.DefaultKeepsAllRuns | hcp/tests/config.py:38-39 | with `MNE_HCP_N_RUNS` unset, the default cap of 3 keeps all of `run_inds` |
| S3Keys.TwoRunsSelectRunsZeroAndOne | hcp/tests/config.py:38-48 | with `MNE_HCP_N_RUNS=2` the capped batches cover runs 0 and 1 and not run 2 |
| S3Keys.KeepWhenCheapSimplifies | hcp/tests/config.py:51-52 | the `'Rest' not in kk` guard is redundant: a key is kept exactly when it contains "Rest" or "config" |
| S3Keys.CheapFilterKeepsRestAndConfig | hcp/tests/config.py:50-52 | the cheap filter keeps, in order, exactly the keys containing "Rest" or "config", every copy of each, and adds none |
| S3Keys.CheapFilterExample | hcp/tests/config.py:50-52 | a resting-state config key is kept and a motor data key is dropped |
| S3Keys.AssembleKeys | hcp/tests/config.py:33-70 | the successive appends, and the reassignment when `MNE_HCP_CHEAP` is truthy, yield `S3KeyList` for that value of the variable |
| S3Keys.FullKeyListIsFourBatches | hcp/tests/config.py:40-70 | the raw and epochs batches are listed for outputs `['raw']` and `['epochs']` over the capped runs, the others for the four remaining outputs over all runs; with cheap mode off the list is the four batches end to end, duplicates kept |
| S3Keys.CheapModeFiltersRawBatchOnly | hcp/tests/config.py:50-70 | in cheap mode only the raw batch is filtered; the later batches follow unchanged and the list is a subsequence of the one listed with the variable unset |
| S3Keys.ZeroStillMeansCheap | hcp/tests/config.py:33-52 | `MNE_HCP_CHEAP=0` filters the raw batch, while an unset or empty variable leaves the key list unfiltered |
| Download.DirnameOfKey | hcp/tests/config.py:82-84 | `dirname` and `basename` of `<prefix>/<rel>/<name>` are `<prefix>/<rel>` and `<name>` |
| Download.LocalDirLayout | hcp/tests/config.py:82-83 | a key `<prefix>/<rel>/<name>` gets the local directory `<root>/<rel>` |
| Download.LocalLayout | hcp/tests/config.py:82-85 | a key `<prefix>/<rel>/<name>` lands in `<root>/<rel>` as `<root>/<rel>/<name>` |
| Download.ConfiguredLayout | hcp/tests/config.py:82-85 | with the configured bucket and data root, `<bucket>/<rel>/<name>` is stored as `<data root>/<rel>/<name>` |
| Download.LocalFileInjective | hcp/tests/config.py:82-85 | two distinct keys of that shape get distinct local path strings |
| Download.FetchAll | hcp/tests/config.py:81-91 | the loop only adds paths, and only appends to the logs of made directories and transfers |
| Download.FailureIsFinal | hcp/tests/config.py:91 | after the existence assertion fails, the remaining keys change nothing |
| Download.FetchEndState | hcp/tests/config.py:81-91 | after a completed run every key's directory and file exist; after a failed one, the failing key was transferred last, did not arrive and its file is missing |
| Download.FetchMakesOnlyAbsentDirs | hcp/tests/config.py:86-87 | the directories made are distinct, were absent before and exist afterwards |
| Download.FetchTransfersOnlyAbsentFiles | hcp/tests/config.py:88-91 | transferred keys name distinct files that were absent; after a completed run each exists |
| Download.FetchAddsOnlyKeyPaths | hcp/tests/config.py:81-91 | every path the loop adds is the directory or the file of one of its keys |
| Download.FetchPresentIsNoop | hcp/tests/config.py:86-88 | when every key's directory and file already exist, the loop changes nothing |
| Download.SecondFetchIsNoop | hcp/tests/config.py:81-91 | a second run after a completed one makes no directory, transfers nothing and leaves the disk unchanged |
| Download.LocalDisk.FetchInto | hcp/tests/config.py:86-91 | one iteration on the disk's fields ends in exactly the state and outcome `FetchKey` gives |
| Download.LocalDisk.FetchKeys | hcp/tests/config.py:81-91 | the loop over the disk's fields ends in exactly the state and outcome `FetchAll` gives from the starting disk |
| Download.LocalDisk.DownloadTestingData | hcp/tests/config.py:76-91 | with keys placed at `new_path` and `new_file`, the disk ends in exactly the state and outcome `FetchAll` gives |

## Left out

- `get_s3_keys_meg` and `get_s3_keys_anatomy` (hcp/io/file_mapping.py) are not part of this model. They are parameters, so the keys they return are arbitrary.
- The `s3cmd` subprocess call is a parameter `arrives`. It says whether the requested file exists after the call; that is the only effect the assertion on line 91 observes.
- An exception from `call` (line 90), for instance when the `s3cmd` executable is missing, is folded into `arrives(key) == false`. The model then ends the run as `AssertionFailed`, where the source ends it with that exception.
- An exception from `os.makedirs` (line 87) is not modelled: the model always records the directory as created.
- `print` of the download progress is left out: it is output only.
- `os.makedirs` records only the directory itself as existing. Its creation of missing parent directories is not modelled.
- `os.getenv` is not modelled:
  - Cheap mode takes the variable's value as an optional string.
  - `MNE_HCP_N_RUNS` is taken as an already parsed integer. Parsing by `int(...)`, including the `ValueError` on a malformed value, is not modelled.
- `op.expanduser` is not modelled: `hcp_path` and `subjects_dir` stay the unexpanded strings.
- The floating-point constants `sfreq_preproc`, `sfreq_raw`, `lowpass_preproc` and `highpass_preproc` are left out. No logic reads them. The epoch windows are compared as exact reals.
- The `nottest` and `expensive_test` decorators are left out. They only set attributes for the test runner.
- Download.LocalFileInjective: compares local paths as strings, with no normalisation. `<root>/a//b/n` and `<root>/a/b/n` are distinct strings but one file on disk, and a relative directory with `.` or `..` components aliases the same way. The lemma therefore does not promise distinct files.
- Download.FetchKey: paths are strings, and `x/`, `a//b` and `a/./b` are not identified with `x`, `a/b` and `a/b`. A key ending in '/' has an empty basename, so the source's `new_file` is `new_path + '/'`, which exists once `new_path` is made. The source skips the transfer for such a key; the model transfers it, and ends the run as `AssertionFailed` when the file does not arrive. A repeated '/' in a key can likewise cause a transfer in the model that the source skips.
- Py.Split: the `ValueError` on an empty separator is a precondition instead. The one separator used, the bucket prefix, is a non-empty constant.
