# WingsBackupCleaner — a Dafny model of the reconciliation pass

WingsBackupCleaner is a one-file maintenance script for a Pterodactyl panel
(`main.py`). It lists the Wings backup directory and keeps the archives
(`.tar.gz` and `.zip`). It reads every row of the panel's `backups` table. It
then deletes each archive that no row names (an orphan), that the first row
naming it marks as not successful (failed), or, when hash checking is on,
whose SHA-1 differs from the digest recorded in that row (hash mismatch). It
counts the deletions and the bytes they free. Before connecting to the
database, it scans the panel's `.env` file for the `DB_*` credentials.

The model has five modules:

- `Wrappers` (`wrappers.dfy`): `Option`.
- `PyStr` (`py_str.dfy`): the Python string operations the script relies on,
  written on `seq<char>`: `startswith`, `endswith`, `strip()`,
  `split(sep)`, `split(sep)[1]`, `rfind` and POSIX `os.path.splitext`.
- `Hasher` (`hasher.dfy`): the `sha1(file_path)` helper.
  - A `HashObject` class absorbs 4096-byte chunks.
  - `FileSha1` is its read loop, proved to digest the whole file.
  - SHA-1 itself is a function parameter `hexdigest`.
- `EnvScan` (`env_scan.dfy`): the `.env` scan.
  - `Classify` says what one line does.
  - `Scan` is the specification fold over the lines.
  - `LastValue` is an independent reference for the values read.
  - `ScanEnvFile` is the imperative loop. It reassigns five variables and can
    `break`, and it is proved equal to `Scan`.
- `Reconcile` (`reconcile.dfy`): the reconciliation pass.
  - The directory is a class `BackupDirectory` whose `files` map the methods
    update in place.
  - Decisions:
    - `DeriveId` applies `splitext` twice;
    - `FirstMatch` scans the rows and stops at the first match;
    - `Decide` applies the per-file policy.
  - The whole run:
    - `Verdicts` and `Sweep` specify the pass over the candidates in listing
      order;
    - `Run` adds the two early stops and the totals.
  - The loop:
    - `SettleBackup` is one archive's turn, with the inner record loop and
      its `break`;
    - `SettleNext` and `SettleAll` make up the outer loop;
    - `ReconcileBackups` is the whole pass.
  - The methods' contracts tie the directory and totals to the
    specification at three levels. `SettleBackup` is tied to `Decide` for one
    archive. `SettleNext` is tied to `Sweep` for the candidates settled so
    far. `SettleAll` and `ReconcileBackups` are tied to `Run` on the directory
    the pass started from. Lemmas about `Decide`, `Sweep` and `Run` state what
    the pass deletes, the totals it reports, and what it leaves alone.

Conventions of the model:

- A file's size (`os.path.getsize`) is the length of its content.
- A row is reduced to the three columns the script reads:
  - column 2, the identifier;
  - column 4, whether it succeeded (`Option<int>`: `None` is SQL NULL, and
    Python truthiness applies);
  - column 9, the checksum (`Option<string>`).
- An exception that ends the script is an explicit outcome:
  - `EnvScan.Crashed` for an `IndexError` from `split("=")[1]` on a
    `DB_CONNECTION` or `DB_*` line with no `=`;
  - `Reconcile.Aborted` for the `AttributeError` or `IndexError` raised by
    `backup[9].split(":")[1]` when hash checking is on and the checksum is
    NULL or has no `:`.

  Deletions made before an abort stay made (`AbortedRunDeletions`).

A NULL checksum, or one without `:`, does not count as a mismatch.
`backup[9].split(":")[1]` raises before any comparison, so the run ends at
that file and later archives are not examined (main.py:122). `Decide`
returns `Abort` there (`MalformedChecksumAborts`), and `Run` ends with
`Aborted(file)`.

## Model

| member | source | states |
|---|---|---|
| PyStr.StartsWith | main.py:27-42 | `line.startswith(prefix)`: the prefix is an initial segment of the line |
| PyStr.EndsWith | main.py:81 | `f.endswith(suffix)`: the suffix is the final segment of the name |
| PyStr.IsSpace | main.py:28 | the exact set of characters Python's `str.isspace()` accepts, which `strip()` removes at main.py:28 and 31-43 |
| PyStr.EndsWithIsConcat | main.py:81 | `name.endswith(suffix)` holds exactly when the name is some stem followed by `suffix` |
| PyStr.TrimLeft | main.py:28 | `lstrip()` keeps a suffix of the text. Every character it drops is whitespace, and what it keeps is empty or starts with a non-space |
| PyStr.TrimRight | main.py:28 | `rstrip()` keeps a prefix of the text. Every character it drops is whitespace, and what it keeps is empty or ends with a non-space |
| PyStr.Strip | main.py:28 | `strip()` is no longer than its input, and its result neither starts nor ends with whitespace |
| PyStr.TrimLeftPadded | main.py:28 | `lstrip()` removes exactly an all-whitespace prefix in front of text that does not start with whitespace |
| PyStr.TrimRightPadded | main.py:28 | `rstrip()` removes exactly an all-whitespace suffix behind text that does not end with whitespace |
| PyStr.StripPadded | main.py:31 | `strip()` of whitespace + text + whitespace is the text, when the text is not itself padded |
| PyStr.Split | main.py:28 | `split(sep)` returns at least one piece, and no piece contains the separator |
| PyStr.JoinSplit | main.py:28 | `split(sep)` loses nothing: joining its pieces with the separator gives back the text |
| PyStr.SplitJoin | main.py:28 | splitting a join of separator-free pieces recovers the pieces |
| PyStr.SplitAfterPiece | main.py:28 | a separator-free text followed by the separator splits into that text followed by the pieces of the rest |
| PyStr.SplitNoSeparator | main.py:28 | a text without the separator splits into itself alone |
| PyStr.SecondFieldSpec | main.py:31 | `split(sep)[1]` is the text between the first and the second separator (or the end) |
| PyStr.SecondField | main.py:28 | `split(sep)[1]`, `None` where Python raises. `SecondFieldSpec`, `SecondFieldMissing` and `SecondFieldPresent` give its result for every text |
| PyStr.SecondFieldMissing | main.py:122 | without the separator, `split(sep)[1]` raises |
| PyStr.SecondFieldPresent | main.py:122 | with the separator present, `split(sep)[1]` does not raise. Together with `SecondFieldMissing`, it raises exactly when the separator is absent |
| PyStr.RFind | main.py:109 | `rfind` returns -1 or a valid index |
| PyStr.RFindLast | main.py:109 | `rfind` finds the last occurrence: the character is at the index found, and nowhere after it |
| PyStr.HasNonDotInIff | main.py:109 | the model's right-to-left `HasNonDotIn` finds a non-dot character exactly when the range has one, which is when `splitext`'s leading-dot loop splits |
| PyStr.SplitExt | main.py:109 | POSIX `os.path.splitext`, splitting at the last `.` of the final component when a non-dot character precedes it. `SplitExtParts` and `SplitExtOne` state its result |
| PyStr.SplitExtParts | main.py:109 | `splitext` parts concatenate to the path. The extension is empty or one `.` followed by neither `.` nor `/` |
| PyStr.SplitExtOne | main.py:109 | a slash-free stem followed by one extension splits at that extension iff the stem has a non-dot character, and is left whole otherwise |
| Hasher.HashObject.constructor | main.py:98 | a fresh `hashlib.sha1()` object has absorbed nothing |
| Hasher.HashObject.Update | main.py:101 | `update(chunk)` appends the chunk to what the object has absorbed |
| Hasher.HashObject.HexDigest | main.py:102 | `hexdigest()` is the digest function applied to everything the object has absorbed |
| Hasher.ReadChunk | main.py:100 | `f.read(4096)` returns the next at most 4096 bytes from the read position. The read is empty exactly at end of file, and short only at end of file |
| Hasher.FileSha1 | main.py:96-102 | the chunk loop feeds the whole file, in order, to one hash object, so the digest returned is that of the file content |
| EnvScan.DbSettings.Set | main.py:30-44 | assigning one `DB_*` setting gives it the new value and leaves the other four unchanged |
| EnvScan.KeyOfIsPrefixMatch | main.py:30-43 | a line enters the `elif` branch of a key exactly when it starts with that key's name. No key name is a prefix of another, so the order of the chain does not matter |
| EnvScan.KeyOf | main.py:30-43 | the `if`/`elif` branch a line enters. `KeyOfIsPrefixMatch` states it is the key whose name the line starts with |
| EnvScan.Classify | main.py:27-43 | what one line does. Each case has its own lemma:<br>- assign a key its stripped second `=` field (`ClassifyKeyLine`, `KeyLineValue`);<br>- let the scan go on or stop it at a `DB_CONNECTION` line (`ConnectionLine`);<br>- raise on a `DB_CONNECTION` or `DB_*` line with no `=` (`MissingFieldCrashes`);<br>- nothing for any other line (`OtherLineNoEffect`) |
| EnvScan.Scan | main.py:26-44 | the scan as a fold over the lines:<br>- it reads every line iff no line stops it or raises (`ScanFinishedIff`);<br>- it crashes at the first `DB_CONNECTION` or `DB_*` line without `=` that it reaches (`MissingFieldCrashes`);<br>- it stops with the values read so far (`StopKeepsValuesRead`);<br>- a finished scan holds the last values (`FinishedHoldsLastValues`, `LaterLineOverwrites`);<br>- later lines are ignored after a stop (`ScanSticky`).<br>`ScanEnvFile` computes it |
| EnvScan.ScanFinishedIff | main.py:26-44 | the scan reads every line exactly when no line is a `DB_CONNECTION` line with another driver and no line makes `split("=")[1]` raise |
| EnvScan.MissingFieldCrashes | main.py:27-43 | a `DB_CONNECTION` or `DB_*` line without `=` that the scan reaches makes `split("=")[1]` raise `IndexError`. The scan ends `Crashed` at that line |
| EnvScan.OtherLineNoEffect | main.py:27-43 | a line that starts with none of the six names enters no branch and changes nothing |
| EnvScan.LastValue | main.py:30-44 | independent reference: the value of the last line assigning a key, or empty. `FinishedHoldsLastValues` ties it to `Scan` |
| EnvScan.ScanSticky | main.py:27-29 | once the scan has stopped at a `DB_CONNECTION` line or raised, later lines change nothing |
| EnvScan.FinishedHoldsLastValues | main.py:26-44 | a scan that reads every line leaves each setting at the stripped value of the last line naming it. A setting no line names stays empty |
| EnvScan.StopKeepsValuesRead | main.py:27-29 | a `DB_CONNECTION` line whose value is not `mysql` ends the scan at that line. The scan keeps exactly the values read before it |
| EnvScan.LaterLineOverwrites | main.py:30-44 | a later line naming a key overwrites the value an earlier line gave it, and leaves the other keys alone |
| EnvScan.KeyNameFacts | main.py:30-42 | no `DB_*` key name contains `=`, and each differs from `DB_CONNECTION` at its fourth character |
| EnvScan.ClassifyKeyLine | main.py:30-43 | a line in a key's branch whose `split("=")[1]` exists assigns that key the stripped field |
| EnvScan.KeyLineValue | main.py:31 | `DB_<KEY><tail>=<field>[=…]` sets the key to `strip(field)`: the value is cut at a second `=` |
| EnvScan.ConnectionLine | main.py:27-29 | a `DB_CONNECTION` line lets the scan go on when its stripped value is `mysql`, and stops it otherwise |
| EnvScan.ScanEnvFile | main.py:23-44 | the loop that reassigns the five variables and breaks early computes exactly the fold `Scan`: the same settings and the same stop or crash line |
| Reconcile.BackupDirectory.List | main.py:81 | `os.listdir` lists every entry exactly once, in an order the file system chooses |
| Reconcile.BackupDirectory.Size | main.py:118 | `os.path.getsize` is the length of the entry's content |
| Reconcile.BackupDirectory.Read | main.py:99 | reading an entry yields its content |
| Reconcile.BackupDirectory.Remove | main.py:120 | `os.remove` removes that entry and leaves every other entry untouched |
| Reconcile.Candidates | main.py:81 | an entry is a candidate iff its name ends with `.tar.gz` or `.zip` (case-sensitive). The filter keeps no duplicates and never adds entries |
| Reconcile.IsBackupArchive | main.py:81 | the listing filter: the name ends with `.tar.gz` or `.zip`. `Candidates` keeps exactly the entries it accepts |
| Reconcile.DeriveId | main.py:109 | the lookup identifier, `splitext` applied twice. `DeriveIdIsPrefix`, `DeriveIdTarGz`, `DeriveIdZip` and `DeriveIdPlainName` state its value |
| Reconcile.DeriveIdIsPrefix | main.py:109 | the identifier a file is looked up by is a prefix of its name |
| Reconcile.DeriveIdTarGz | main.py:109 | `X.tar.gz` is looked up as `X`, or as `X.tar` when `X` is made only of dots |
| Reconcile.DeriveIdZip | main.py:109 | `X.zip` is looked up as `X` with its own last extension stripped, or as `X.zip` when `X` is made only of dots |
| Reconcile.DeriveIdPlainName | main.py:109 | a non-empty name without dots or slashes, archived as `.zip` or `.tar.gz`, is looked up as itself |
| Reconcile.Truthy | main.py:116 | Python truthiness of `backup[4]`: NULL and 0 are falsy, so `FailedIsDeleted` applies to them |
| Reconcile.FirstMatch | main.py:112-128 | the record scan stops at the first row whose identifier equals the derived id. No match means no row has that identifier |
| Reconcile.RecordedDigest | main.py:122 | `backup[9].split(":")[1]`, `None` for a NULL column or where the index raises. `MalformedChecksumAborts` and `CheckedChecksum` state its effect |
| Reconcile.Decide | main.py:112-135 | the per-file policy tried in order: orphan, failed, unchecked success, malformed checksum, and checksum comparison. `OrphanIsDeleted`, `FailedIsDeleted`, `UncheckedSuccessIsKept`, `MalformedChecksumAborts` and `CheckedChecksum` cover every case |
| Reconcile.OrphanIsDeleted | main.py:130-135 | a file that no row names is deleted as an orphan |
| Reconcile.FailedIsDeleted | main.py:112-121 | a file whose first matching row is not successful is deleted, whatever the hash flag and the checksum. Later rows do not count |
| Reconcile.UncheckedSuccessIsKept | main.py:116-128 | with hash checking off, a file whose first matching row is successful is kept, whatever its checksum |
| Reconcile.MalformedChecksumAborts | main.py:122 | with hash checking on and a successful first row, a NULL checksum or one without `:` aborts the run at that file |
| Reconcile.CheckedChecksum | main.py:122-127 | with hash checking on and a successful first row `<algorithm>:<digest>[:…]`, the file is deleted as mismatched iff `digest` differs from its SHA-1, and kept iff they are equal |
| Reconcile.Verdicts | main.py:107-113 | one decision per candidate, the i-th being `Decide` of the i-th candidate on its content when the pass began (`VerdictAt`) |
| Reconcile.Sweep | main.py:107-135 | the pass deletes and aborts only at names it was given |
| Reconcile.SweepAbortSticks | main.py:122 | once the pass has aborted, no later candidate is examined |
| Reconcile.SweepRemoved | main.py:107-135 | the pass deletes only candidates whose decision deletes them, each at most once |
| Reconcile.SweepAborted | main.py:107-135 | the pass aborts only at a candidate whose decision is `Abort` |
| Reconcile.SweepAbortedFirst | main.py:107-135 | an aborted pass stops at the first candidate whose decision is `Abort`. By then it has deleted exactly the earlier candidates whose decision deletes them |
| Reconcile.SweepComplete | main.py:107-135 | a pass that does not abort met no `Abort` decision, and it deleted every candidate whose decision deletes it |
| Reconcile.SweepOfVerdicts | main.py:107-135 | the pass, stated per file against the policy `Decide`. It deletes exactly the candidates the policy deletes, when it does not abort, and it aborts only at a file the policy aborts on |
| Reconcile.SumSizesConcat | main.py:118-132 | running byte totals add up over consecutive stretches of deletions |
| Reconcile.SumSizesRemoveAt | main.py:118-132 | taking one deleted file out of a listing takes its size out of the total |
| Reconcile.SumSizesPermutation | main.py:118-132 | the byte total over a set of deleted files does not depend on the order they were deleted in |
| Reconcile.FinishedRunTotals | main.py:104-135 | when the run finishes, `backups_cleared` is the number of candidates the policy deletes, and exactly those files are gone from the directory |
| Reconcile.Run | main.py:81-135 | the whole pass as a function of the directory: the two early stops, then the sweep, with its totals (`files_deleted`, and `bytes_cleared` as `SumSizes` of the deleted files) or the aborting file. The `FinishedRun*`, `AbortedRunDeletions`, `RunKeepsOthers` and `SecondRunDeletesNothing` lemmas state its result |
| Reconcile.AbortedRunDeletions | main.py:107-135 | a run that aborts at a candidate stops at the first one the policy aborts on. Every earlier candidate the policy deletes is gone, and every other file, later candidates included, is untouched |
| Reconcile.FinishedRunBytes | main.py:104-135 | when the run finishes, `bytes_cleared` is the sum of the pre-removal sizes of the deleted files, in any order |
| Reconcile.RunKeepsOthers | main.py:81-135 | whatever the outcome, an entry that is not a candidate, or that the policy keeps, is still there with the same content, and no entry appears |
| Reconcile.SweepKeepsAll | main.py:107-135 | a pass over candidates that are all kept deletes nothing and does not abort |
| Reconcile.SecondRunDeletesNothing | main.py:81-135 | running again, with the same rows and flag, on what a finished run left deletes nothing. That run ends with no archives or with zero totals |
| Reconcile.ScenarioOrphan | main.py:130-135 | in the three-archive scenario, the orphan `x.tar.gz` is deleted as an orphan |
| Reconcile.ScenarioFailed | main.py:116-121 | in the scenario, `y.zip`, whose row failed, is deleted as failed |
| Reconcile.ScenarioKept | main.py:122-128 | in the scenario, `z.zip`, whose row records its own SHA-1 as `sha1:<digest>`, is kept |
| Reconcile.RunOfThree | main.py:104-135 | three distinct candidates judged delete, delete, keep: the run reports 2 deletions and the first two sizes, and leaves only the third |
| Reconcile.ThreeArchiveRun | main.py:81-135 | the concrete run on `x.tar.gz` (orphan), `y.zip` (failed) and `z.zip` (verified) with hash checking on. It reports two deletions and the first two sizes, and leaves only `z.zip` |
| Reconcile.SettleStep | main.py:117-133 | one candidate settled without an exception advances the pass, the directory and both totals together |
| Reconcile.ClearedOne | main.py:118-134 | one more deletion adds one file's size to `bytes_cleared` and removes exactly that entry |
| Reconcile.SettleBackup | main.py:108-135 | one turn of the outer loop: the inner record scan with its `break` applies `Decide` to the file's content. The file is removed iff the decision deletes it, with its size added first. Otherwise nothing changes |
| Reconcile.SettleNext | main.py:107-135 | one iteration keeps the directory and both totals in step with the pass `Sweep` over the candidates so far, or ends the run at the file that aborts |
| Reconcile.SettleAll | main.py:104-135 | the outer loop with its totals leaves the directory and reports the outcome exactly as `Run` on the directory it started from |
| Reconcile.ReconcileBackups | main.py:81-135 | the whole pass: the candidates are the listed archives, each once. The early stops, the directory afterwards and the reported outcome are exactly those of `Run` |

## Left out

- The root-privilege check (main.py:9-11), the constants naming the paths (main.py:13-15) and the logging: the process environment and presentation, not logic.
- The existence check on the `.env` file and the reading of its lines (main.py:23-24) are not modelled. `ScanEnvFile` takes the lines as input, and a missing file behaves like `Scan([])`, which leaves every setting empty.
- The console prompts and the `y`/`n` answer (main.py:46-53): the hash-check flag is a parameter.
- The conversion of the port with Python's `int()` (main.py:55-59): a foreign parser. The port stays the string the scan read.
- The MySQL connection, `SELECT *` and `fetchall` (main.py:61-73, 88-89): the rows are an input sequence of `BackupRecord`. Their identifier column is taken to hold strings.
- The existence check on the backup directory (main.py:75-77): the directory is a `BackupDirectory`.
- SHA-1 itself (FIPS 180-4): `hexdigest` is a function parameter. Only the chunked streaming of the file into the hash object is modelled.
- The GB figure in the final log line (main.py:137): floating-point division for display.
- I/O errors: `open`, `os.path.getsize` and `os.remove` are taken to succeed on every listed entry. A directory entry named like an archive, or a file that disappears during the run, is not modelled.
- Reconcile.BackupDirectory.List: the order of `os.listdir` is chosen by the file system. The method only promises that each entry appears once, and the pass is stated for whatever order it returns.
