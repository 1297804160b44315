# NFC sample tracker: the scan-status handshake

A poller driving a PN532 NFC reader over I2C ("the host") and a Flask page
("the web side") coordinate through two CSV files and nothing else:

- `scan_status.csv`: one row per tag UID with the flags "Web scan", "Host
  scan" and "new" (only the first two in nfc_test.py);
- `chip_data.csv`: the registry of enrolled chips, keyed by "UID" (app.py,
  nfc_scanner.py) or "IUD" (test.py, nfc_test.py); `archived.csv` has the
  same columns.

Every write of the scan-status table reads the whole table, edits rows in
memory and writes the whole table back.  The registry is appended to, one
row, on enrollment and rewritten whole on archive; archived.csv is only
appended to; the read-only endpoints and the host's wait only read.  This
project models those edits, the loops that perform them and the
step-by-step handshake they form, in three variants:
nfc_scanner.py with app.py (two processes), the single-process test.py, and
the console-only nfc_test.py.

Modules:

- `Tables` (tables.dfy): keyed tables in general: the dictionary a
  `for row in reader: d[row[col]] = row` loop builds (`Index`, with `Last`
  as its reference definition), the reconciling rewrite of
  `initialize_scan_status` (`Reconcile`), and the registry split of
  `archive_sample` (`Drop`, `Only`).
- `ScanStatus` (scan_status.dfy): the four-flag row.  Flags are `bool`:
  every reader compares a flag with "True", so any other text acts as
  "False".  Every rewrite is `Update(t, u, e)` with a `FlagEdit` saying,
  per flag, "set to b" or "leave as read".  `Step` is the outcome of one host
  pass, the same in nfc_scanner.py and test.py.
- `Registry` (registry.dfy): registry rows, the enrollment form, and
  `known_chips` as an insertion-ordered dictionary (`KnownChips`: key order
  plus map), since initialize_scan_status writes rows in dictionary order.
- `Files` (files.dfy): the CSV files as objects (`TableFile`, `ChipFile`)
  and the loops every process runs over them, each proved against the
  function that specifies it.
- `NfcScanner`, `WebApp`, `TestApp`, `NfcTest`: the four source files.
- `Handshake` (handshake.dfy): the host/web sequences walked step by step.

Inputs the programs take from the outside world are parameters: the reader
is an optional UID per pass, the clock's "DR" text is a string argument, the
form is a `Form` value, and the tables a host reads while it busy-waits are
a finite sequence of observations (a `None`/`Waiting` answer means it is
still waiting when they run out).  A missing scan-status file is an empty
table, as app.py and nfc_scanner.py treat it (test.py opens the file without
a check; see "## Left out"); a missing registry is kept as
`ChipFile.present == false`, since get_chip_data and archive_sample behave
differently then.

## Model

| member | source | states |
|---|---|---|
| Tables.Last | app.py:280-282 | the row a "later rows overwrite" dictionary keeps for a UID: None exactly when no row has it, otherwise a row with that UID followed by no other row with it |
| Tables.LastAt | nfc_scanner.py:53-57 | a row followed by no row with the same UID is the one kept for that UID |
| Tables.Index | nfc_scanner.py:53-57 | the `existing_entries` dictionary has exactly the table's UIDs as keys, each holding the last row for it |
| Tables.IndexIsLast | nfc_scanner.py:63-64 | looking a UID up in that dictionary gives its last row, and misses exactly when the table has none |
| Tables.Reconcile | nfc_scanner.py:47-66 | one row per known UID in dictionary order; the last existing row for it when there is one, all flags False otherwise; rows of other UIDs dropped |
| Tables.Pick | nfc_scanner.py:63-66 | reference definition of one reconciled row: the existing entry for the UID, else the blank row; `Tables.Reconcile` states the result |
| Tables.ReconcileIdempotent | nfc_scanner.py:47-66 | reconciling twice against the same known UIDs gives the same table as reconciling once |
| Tables.ReconcileKeysDistinct | nfc_scanner.py:59-66 | a reconciled table has exactly one row for each known UID and no row for any other |
| Tables.DropNoMatch | app.py:503-508 | the registry without the UID's rows is never longer, and is the registry itself when no row matches |
| Tables.Drop | app.py:504-508 | reference definition of `chip_rows`, the registry rows whose UID differs, in order; characterised by `Tables.DropKeeps`, `Tables.SplitKeys` and `Tables.DropSplits` |
| Tables.Only | app.py:505-506 | reference definition of the rows the loop sets aside for the UID; `Tables.LastOfOnly` says the archived row is the last of them |
| Tables.DropSplits | app.py:503-508 | kept rows plus the UID's rows are a permutation of the registry: no row is lost or invented |
| Tables.SplitKeys | app.py:503-508 | no kept row has the UID; every row set aside has it |
| Tables.DropKeeps | app.py:503-508 | a row is kept exactly when it is in the registry and has a different UID |
| Tables.LastOfOnly | app.py:505-506 | the archived row is the last of the registry's rows for the UID |
| Tables.DropAppend | app.py:518-520 | dropping works row by row over concatenation, so the rewritten registry keeps the original order |
| ScanStatus.Update | app.py:410-422 | a read-modify-rewrite keeps row count and order, edits only the target UID's rows, and only the flags the edit names |
| ScanStatus.UpdateThen | app.py:410-437 | two rewrites of the same UID equal one rewrite with the composed edit |
| ScanStatus.UpdateIdempotent | app.py:424-437 | repeating a rewrite (such as reset_web_scan) changes nothing |
| ScanStatus.UpdateCommutes | app.py:410-437 | rewrites of different UIDs commute |
| ScanStatus.UpdateAbsent | app.py:414-418 | rewriting a UID with no rows writes the table back unchanged |
| ScanStatus.Blank | nfc_scanner.py:66 | reference definition: the all-False row for a known UID with no row; `Tables.Reconcile` states where it is used, and `ScanStatus.EditEffects` says the full clear produces it |
| ScanStatus.Arrival | nfc_scanner.py:85 | reference definition: the (False, True, True) row appended for a new tag; `ScanStatus.Detected` states when it is appended |
| ScanStatus.MarkEdit | nfc_scanner.py:79-80 | reference definition of phase 1; `ScanStatus.EditEffects` states its effect on a row |
| ScanStatus.ClearAllEdit | nfc_scanner.py:106-108 | reference definition of nfc_scanner.py's clear after the acknowledgement; `ScanStatus.EditEffects` states that it turns a row into the all-False row |
| ScanStatus.ClearHostEdit | nfc_scanner.py:113 | reference definition of the known-tag clear of both hosts; `ScanStatus.EditEffects` states that only "Host scan" changes |
| ScanStatus.ClearHostNewEdit | test.py:113-114 | reference definition of test.py's clear after the acknowledgement; `ScanStatus.EditEffects` states that "Web scan" is kept |
| ScanStatus.AckEdit | app.py:415-416 | reference definition of app.py's acknowledgement; `ScanStatus.EditEffects` states "new" False and "Web scan" True |
| ScanStatus.WebRaiseEdit | test.py:201 | reference definition of test.py's acknowledgement; `ScanStatus.EditEffects` states that only "Web scan" is raised |
| ScanStatus.WebResetEdit | app.py:431 | reference definition of the delayed reset; `ScanStatus.EditEffects` states that only "Web scan" is lowered |
| ScanStatus.EditEffects | nfc_scanner.py:79-113 | what each named rewrite does to a row of its UID, flag by flag, the UID itself kept |
| ScanStatus.Detected | nfc_scanner.py:73-90 | phase 1: "Host scan" True on the UID's rows, "new" True there only for a new tag, other rows and all "Web scan" flags as read; one (False, True, True) row appended exactly when no row matched and the tag is new |
| ScanStatus.FirstNew | app.py:18-25 | the UID of the first row flagged "new", None exactly when no row is |
| ScanStatus.FirstNewAt | app.py:21-24 | the first flagged row decides the answer |
| ScanStatus.HasNew | app.py:301-304 | reference definition of get_scan_status's answer, some row flagged "new"; `ScanStatus.FirstNew` is None exactly when it is false |
| ScanStatus.AckIn | nfc_scanner.py:98 | reference definition of the wait's exit test, some row of the UID with "Web scan" True; `Files.ReadAck` and `Handshake.AckVisible` use it |
| ScanStatus.LastActive | app.py:283-284 | reference definition of `active_uid`; characterised by `ScanStatus.LastActiveSpec` and `ScanStatus.LastActiveSnoc` |
| ScanStatus.HostOf | app.py:282-289 | reference definition of the joined "Host scan" flag; characterised by `ScanStatus.HostOfSpec` and `ScanStatus.HostOfSnoc` |
| ScanStatus.LastActiveSpec | app.py:276-284 | the UID of the last row with "Host scan" True, None exactly when no row has it |
| ScanStatus.HostOfSpec | app.py:280-290 | the joined flag is True exactly when the UID's last status row has "Host scan" True; False when the UID has no row |
| ScanStatus.HostOfSnoc | app.py:279-282 | a later status row of the UID overrides the joined flag; a row of another UID leaves it |
| ScanStatus.LastActiveSnoc | app.py:283-284 | a later row with "Host scan" True becomes the active one; any other leaves it |
| Registry.Enrolled | app.py:392-401 | reference definition of the enrollment row: the form's fields, the pending UID and the "DR" text; `Handshake.EnrolledIsKnown` uses it |
| Registry.Put | nfc_scanner.py:43 | reference definition of one dictionary assignment; characterised by `Registry.PutSpec` |
| Registry.Load | nfc_scanner.py:41-43 | reference definition of the registry loop; characterised by `Registry.LoadChips`, `Registry.LoadOrder` and `Registry.LoadKeeps` |
| Registry.Reloaded | nfc_scanner.py:31-43 | reference definition of a clearing reload; characterised by `Registry.ReloadedSpec` and `Registry.ReloadedOrder` |
| Registry.FirstSeen | nfc_scanner.py:39-43 | the registry's UIDs in order of first appearance: each listed once, and exactly the UIDs some row has |
| Registry.LoadChips | test.py:38-42 | loading overrides the dictionary's entries with the registry's last row per UID and removes nothing |
| Registry.LoadOrder | test.py:38-42 | loading keeps existing keys in their positions and keeps each key listed once |
| Registry.PutSpec | nfc_scanner.py:43 | one assignment keeps the dictionary well formed and only appends to its key order |
| Registry.ReloadedOrder | nfc_scanner.py:39-43 | after a reload the key order is the registry's UIDs in order of first appearance, a later duplicate keeping the first slot |
| Registry.ReloadedSpec | nfc_scanner.py:31-43 | after a reload the dictionary holds exactly the registry's UIDs, each with its last row, and is empty without a registry |
| Registry.LoadKeeps | test.py:33-42 | the additive load keeps every old key, adds every registry UID with its last row, and leaves entries the registry does not mention untouched |
| Files.ReadEntries | nfc_scanner.py:53-57 | the loop builds exactly the last-row dictionary |
| Files.ReconcileFile | nfc_scanner.py:53-66 | the file afterwards holds the reconciled table |
| Files.EditRows | app.py:414-419 | the per-row edit loop computes the rewrite |
| Files.RewriteStatus | app.py:410-422 | the file afterwards holds the rewrite of what it held |
| Files.MarkDetected | nfc_scanner.py:73-90 | the file and the snapshot kept in memory are the phase-1 table, `found` being "some row has the UID" |
| Files.ReadKnown | nfc_scanner.py:39-43 | the registry loop computes the ordered-dictionary load |
| Files.ReadAck | nfc_scanner.py:95-103 | one read of the wait succeeds exactly when a row of the UID has "Web scan" True |
| Files.AwaitAck | nfc_scanner.py:92-103 | the host leaves the wait at the first read showing the acknowledgement and never before; without one it is still waiting |
| NfcScanner.FinalEdit | nfc_scanner.py:104-113 | reference definition of phase 2: the full clear for a new tag, "Host scan" only for a known one; `NfcScanner.FinalEditEffect` states it per row |
| NfcScanner.FinalEditEffect | nfc_scanner.py:104-113 | after phase 2 a new tag's rows are all-False, including "Web scan"; a known tag's rows lose only "Host scan" |
| NfcScanner.Scanner.constructor | nfc_scanner.py:27 | `known_chips` starts empty |
| NfcScanner.Scanner.LoadKnownChips | nfc_scanner.py:31-43 | the dictionary becomes the fresh reload of the registry |
| NfcScanner.Scanner.InitializeScanStatus | nfc_scanner.py:47-66 | the table becomes its reconciliation against the dictionary's keys in order |
| NfcScanner.Scanner.Detect | nfc_scanner.py:70-90 | reload, reconcile, then phase 1; the written table is the snapshot |
| NfcScanner.Scanner.UpdateScanStatus | nfc_scanner.py:69-118 | a known tag ends as the snapshot with "Host scan" False; a new tag waits for the acknowledgement and ends as the snapshot with all three flags False; the final write comes from the snapshot, not a re-read |
| NfcScanner.Scanner.MainLoopStep | nfc_scanner.py:127-153 | a tag is new exactly when its UID is not a key of the reloaded dictionary, and the pass's table is that of update_scan_status on the reconciled table |
| WebApp.CheckNewScan | app.py:18-25 | returns the first pending UID, None when none |
| WebApp.GetScanStatus | app.py:295-306 | `new_scan` is true exactly when some row is flagged "new" |
| WebApp.GetChipData | app.py:269-292 | a bare empty answer without a registry; otherwise every registry row in order and count with its joined "Host scan", and the last active UID |
| WebApp.ReadHostFlags | app.py:276-284 | the status loop yields, for every UID, the joined flag, and the active UID |
| WebApp.JoinHostFlags | app.py:286-290 | the registry loop keeps every row in order and count and attaches its joined flag, "False" by default |
| WebApp.AddChipData | app.py:384-422 | no pending UID (or an empty one): the 400 answer and neither file changes; otherwise exactly one registry row from the form and the pending UID is appended and the pending UID's rows get "new" False and "Web scan" True, nothing else changing |
| WebApp.ResetWebScan | app.py:424-437 | a re-read table with only the UID's "Web scan" lowered |
| WebApp.ArchiveSample | app.py:497-522 | an error without a registry; otherwise, when the UID has rows, the registry loses exactly them in order and the archive gains the last one; when it has none, neither file changes |
| TestApp.FinalEdit | test.py:110-119 | reference definition of phase 2: "Host scan" and "new" for a new tag, "Host scan" only for a known one; `TestApp.FinalEditEffect` states it per row |
| TestApp.FinalEditEffect | test.py:110-119 | after phase 2 the tag's rows have "Host scan" False, "new" False for a new tag, and "Web scan" always as read, unlike nfc_scanner.py |
| TestApp.TestHost.constructor | test.py:30 | `known_chips` starts empty; test.py never calls its `load_known_chips`, so nothing fills it |
| TestApp.TestHost.LoadKnownChips | test.py:33-42 | adds or overwrites by "IUD", removes nothing, does nothing without a registry |
| TestApp.TestHost.InitializeScanStatus | test.py:45-64 | the "Sample IUD" table becomes its reconciliation against the dictionary |
| TestApp.TestHost.ScanStep | test.py:127-152 | a tag is new exactly when its UID is not a key of `known_chips`; the table is that of update_scan_status, with no reload or reconcile first |
| TestApp.UpdateScanStatus | test.py:77-124 | phase 1 as in nfc_scanner.py; a new tag, after the acknowledgement, ends as the snapshot with "Host scan" and "new" False and "Web scan" as in the snapshot; a known tag only loses "Host scan" |
| TestApp.CheckNewScan | test.py:67-74 | the blocking check answers the first pending UID of the first read that has one, and is still waiting (never None) until then |
| TestApp.RaiseWebScan | test.py:174-207 | one registry row from the form and the pending UID appended; the UID's rows get "Web scan" True, nothing else changes; the written rows are kept |
| TestApp.LowerWebScan | test.py:209-218 | the second write is the kept snapshot with the UID's "Web scan" lowered, whatever the table held meanwhile |
| TestApp.LowerWebScanReread | test.py:211-218 | corrected second write: the re-read table with the UID's "Web scan" lowered |
| NfcTest.HostSet | nfc_test.py:66-71 | a pass over the two-flag table changes only "Host scan" of the UID's rows, keeps count and order, appends nothing |
| NfcTest.HostSetTwice | nfc_test.py:78-87 | the second write makes the first irrelevant: only the last value of the flag remains |
| NfcTest.HostSetAbsent | nfc_test.py:66-76 | a UID with no row leaves the table unchanged |
| NfcTest.PairBlank | nfc_test.py:61 | reference definition: the two-flag all-False row for a known UID with no row; `NfcTest.LegacyHost.InitializeScanStatus` states where it is used |
| NfcTest.LegacyHost.constructor | nfc_test.py:27 | `known_chips` starts empty |
| NfcTest.LegacyHost.LoadKnownChips | nfc_test.py:30-39 | adds or overwrites by "IUD", removes nothing, does nothing without a registry |
| NfcTest.LegacyHost.InitializeScanStatus | nfc_test.py:42-61 | one two-flag row per known UID in order, existing flags kept, both False otherwise, other UIDs dropped |
| NfcTest.LegacyHost.Start | nfc_test.py:89-91 | the start loads the registry and then reconciles |
| NfcTest.LegacyHost.MainLoopStep | nfc_test.py:96-132 | only a UID that is a key of `known_chips` reaches update_scan_status; an unknown one leaves the table as it was |
| NfcTest.SetHost | nfc_test.py:66-71 | the row loop computes the flag pass |
| NfcTest.UpdateScanStatus | nfc_test.py:64-87 | the first write is the table with the UID's "Host scan" True; the final table is the table read at the start with only that flag False |
| Handshake.MarkedRows | nfc_scanner.py:73-90 | with nothing pending, after marking a new tag it is the only pending tag, with rows, each with "Host scan" True |
| Handshake.PendingIsFirst | app.py:18-25 | when the only flagged rows are the tag's, check_new_scan returns that tag |
| Handshake.NewTagIsPending | nfc_scanner.py:73-90 | with nothing pending, a freshly marked new tag is the UID check_new_scan returns |
| Handshake.OthersUntouched | nfc_scanner.py:73-118 | phase 1 and the final rewrite leave every other UID's rows as the host read them |
| Handshake.FirstNewKeptBy | test.py:211-218 | a rewrite that leaves "new" alone leaves the pending UID as it was |
| Handshake.ClearedIsIdle | nfc_scanner.py:104-108 | after the full clear the tag's rows are idle and, if no other row was flagged, nothing is pending |
| Handshake.AckVisible | app.py:414-418 | raising "Web scan" on a UID that has rows satisfies the host's wait condition |
| Handshake.ClearAllOverrides | nfc_scanner.py:104-118 | the full clear overrides any earlier web edit, and the delayed web reset after it changes nothing |
| Handshake.ScannerHandoff | nfc_scanner.py:92-118 | the new-tag handoff with app.py from the phase-1 snapshot: pending, acknowledgement visible, the snapshot write equals a re-read write, the reset lands harmlessly before or after it, the tag ends idle and nothing is pending |
| Handshake.ScannerNewTag | nfc_scanner.py:69-118 | from a table with nothing pending, phase 1 makes the tag the only pending one, and the host's final write leaves it idle, nothing pending, every other row as before |
| Handshake.ScannerKnownTag | nfc_scanner.py:109-118 | for a known tag the two writes amount to lowering "Host scan" on its rows of the starting table |
| Handshake.EnrolledIsKnown | app.py:392-408 | after an enrollment the next reload knows the UID, with the appended row |
| Handshake.PendingCleared | test.py:110-114 | lowering "new" on the only flagged UID leaves nothing pending |
| Handshake.WebEditKeepsPending | test.py:211-218 | a write that touches only "Web scan" keeps the tag pending and scanned |
| Handshake.TestPulseAsWritten | test.py:196-218 | test.py's walk from the phase-1 snapshot: the host's clear leaves nothing pending, but the web side's stale second write equals the snapshot with "Web scan" lowered, so the tag is pending again with "Host scan" True |
| Handshake.TestPulseCorrected | test.py:211-218 | with the second write re-reading the host's write, the result equals nfc_scanner.py's full clear: the tag idle, nothing pending |

## Left out

- Flask routing and rendering (the page, form markup, redirects, JSON wrapping), `sample_files` and `serve_sample_file` (uploads and notes), and the archived-list view: presentation and file-system plumbing.
- CSV parsing and writing, `os.path.exists` and `os.stat`: a write is an assignment to the file's table; a missing scan-status file is an empty table.
- The PN532 driver and `uid.hex()`: the reader is an optional UID per pass.
- `datetime.now().strftime` for "DR": a string parameter.
- `time.sleep`, the daemon threads and arbitrary interleavings: busy-waits run over a finite sequence of observed tables, and the handshake walks fix the interleavings the sleeps make typical (acknowledgement within the host's polling, reset before or after the host's write).
- `print` output, the `input()` prompts of nfc_test.py and its call to `log_chip_data`, which no file defines.
- NfcScanner.Scanner.UpdateScanStatus: the reload of `known_chips` inside the wait loop is not modelled; the next pass of the main loop clears and reloads the dictionary before using it.
- NfcScanner.Scanner.MainLoopStep: the registry does not change during a pass, so the reload inside update_scan_status gives the dictionary the main loop classified with.
- TestApp.TestHost.ScanStep: test.py reads scan_status.csv without creating it (test.py:80), so a first scan with no file raises; the model reads a missing file as an empty table.
- TestApp.CheckNewScan: with no scan_status.csv the blocking check raises at test.py:69, so `/add` fails instead of waiting; the model reads a missing file as an empty table and keeps waiting.
- TestApp.RaiseWebScan: the GET path of test.py's add_chip_data (which blocks on check_new_scan and then returns nothing) is not modelled.
- test.py's get_chip_data (a plain registry listing) is not modelled.
- NfcTest.LegacyHost.MainLoopStep: the enrollment branch for an unknown UID (the prompts, `log_chip_data` at nfc_test.py:128, then `initialize_scan_status()` at nfc_test.py:129) is left out and the table is left as it was. With only the imports the file shows, `log_chip_data` is undefined, so the call raises NameError and the script as written stops at the first unknown tag before reaching the reconcile.

## Findings

| source | as written | input that shows it | evidently intended | confidence | as-written member | corrected member |
|---|---|---|---|---|---|---|
| test.py:211-218 | add_chip_data lowers "Web scan" by writing back its own snapshot taken five seconds earlier, so it overwrites the host's phase-2 write made in between | empty table, new tag "04a1": host writes (04a1, False, True, True) and keeps it as its snapshot; web writes (04a1, True, True, True) and keeps it; host sees the acknowledgement and writes its snapshot cleared, (04a1, False, False, False); web writes its snapshot lowered, (04a1, False, True, True), pending again | lower "Web scan" on a re-read table, as app.py's reset_web_scan does, ending at (04a1, False, False, False) | high, not executed | TestApp.LowerWebScan, Handshake.TestPulseAsWritten | TestApp.LowerWebScanReread, Handshake.TestPulseCorrected |
