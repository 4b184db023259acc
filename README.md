# Face-recognition attendance: a verified model of the request handlers

This project models the request handlers of `backup/app.py` that change state, in
the Flask face-recognition attendance system. Each one makes decisions and updates
three stores: the SQLite database, the known-face registry and the image folder.

- **Registration** (`register`) does the following, in order:
  - strips and validates the submitted name;
  - rejects a name that is already taken;
  - screens the camera for a face already registered, using the first
    matching stored encoding;
  - captures ten verified face crops named `01.jpg` … `10.jpg`;
  - trains the encodings and adds the employee;
  - removes the image directory again if there are too few samples or a step
    fails.
- **Attendance** (`mark_attendance`) scans the camera until the loop stops. For
  each name recognised in the last frame it then applies the check-in /
  check-out decision table. Per (name, date) this is the state machine NoRecord →
  CheckedIn → CheckedOut.
- **Deletion** (`delete_employee`) does the following:
  - deletes the employee row, and by cascade that employee's attendance rows;
  - removes the employee's image directory;
  - if nobody is left, wipes the encoding store; otherwise filters the
    deleted name out of the pickled encodings;
  - reloads the in-memory cache.

Modules:

| module | contents |
|---|---|
| `Wrappers` | `Option` |
| `Names` | Python `str.strip` / `isspace` / `isalnum` and the name gate |
| `Recognition` | the `compare_faces` oracle, the first-match lookup, the encoding-store filter |
| `Screening` | the duplicate-face screen loop |
| `Samples` | sample file naming and the capture loop |
| `Ledger` | attendance rows, the decision table and the state machine |
| `Seqs` | order-preserving filtering |
| `Store` | the classes `Database`, `FaceRegistry` and `ImageFolder` |
| `App` | the three handlers |

Conventions used throughout the model:

- **Biometrics are an oracle.** `close(known, probe)` says whether two encodings
  are within the 0.5 tolerance.
- **Per-frame results are data.** The camera's output for each frame is a
  datatype value. It records whether the read failed, whether a face was
  located, which key was pressed and whether a saved crop re-verifies.
- **Frames stand in for the clock.** Each loop runs over a finite sequence of
  frames. The attendance scan checks its 15-second timeout on every frame, so
  there a sequence that runs out is the timeout at its last frame. The capture
  loop has no timeout, and the duplicate screen skips its timeout check after
  an encoding error. For those two loops a sequence that runs out stands for
  the camera ceasing to deliver frames, and it is proved to behave exactly
  as a failed read.
- **Loops are specified by functions.** Loops that only update local
  variables are methods proved against recursive specification functions.
- **Stores are classes.** The stores are classes whose methods state their
  whole new state.

## Model

| member | source | states |
|---|---|---|
| Names.LeadingSpaces | backup/app.py:50 | the count is the length of the maximal all-whitespace prefix |
| Names.IsSpace | backup/app.py:50-53 | `str.isspace()` for one character: the 29 code points Python treats as whitespace |
| Names.IsAlnum | backup/app.py:53 | `str.isalnum()` for one character, restricted to ASCII letters and digits (see Left out) |
| Names.TrailingSpaces | backup/app.py:50 | the count is the length of the maximal all-whitespace suffix |
| Names.Strip | backup/app.py:50 | `str.strip()`: the result is one contiguous slice of the input, everything cut away on either side is whitespace, and a non-empty result neither starts nor ends with whitespace |
| Names.AcceptableName | backup/app.py:53 | the validation test on the stripped name; described on the raw input by AcceptableIff |
| Names.StripIdempotent | backup/app.py:50 | stripping twice equals stripping once |
| Names.AcceptableIff | backup/app.py:50-55 | a raw name passes the gate iff it has at least one alphanumeric and only alphanumerics and whitespace |
| Recognition.CompareFaces | backup/app.py:103-107 | one flag per stored encoding, and some flag is set iff some stored encoding is within the tolerance of the probe |
| Recognition.FirstTrue | backup/app.py:109-110 | `matches.index(True)` under `any(matches)`: the smallest True index, or none when all are False |
| Recognition.FirstMatch | backup/app.py:103-111 | a matched name is always one of the stored names |
| Recognition.FirstMatchIsEarliest | backup/app.py:103-111 | a match is reported iff some encoding is within tolerance and the first such index has a name; the name is the one at that smallest index; no match iff no encoding is within tolerance |
| Recognition.FirstMatchCons | backup/app.py:103-111 | the first stored pair decides the lookup when it is close; otherwise the rest does |
| Recognition.Zip | backup/app.py:429 | `zip` pairs up to the shorter list |
| Recognition.KeepOthers | backup/app.py:429-432 | the kept pairs are no more than the input, and none is labelled with the deleted name |
| Recognition.KeepOthersSnoc | backup/app.py:429-432 | the filter grows one pair at a time, in the loop's order |
| Recognition.KeepOthersSparesOthers | backup/app.py:429-432 | every other identity's pairs survive unchanged and in order |
| Recognition.KeepOthersKeepsMatches | backup/app.py:426-443 | a probe that matched another identity before the deletion matches the same identity after filtering |
| Recognition.FilterEncodings | backup/app.py:426-432 | the loop builds equal-length lists without the deleted name, equal to the pairs kept by KeepOthers |
| Screening.ScreenOutcome | backup/app.py:68-129 | the screen's verdict is either no duplicate or one of the stored names; DuplicateComesFromAFace and ReachedMatchIsReported together show it reports `n` exactly when the loop reaches a face whose first match is `n` |
| Screening.ScreenEndIsReadFailure | backup/app.py:68-72 | a frame sequence that runs out gives the same verdict as one that ends in a failed read |
| Screening.DuplicateComesFromAFace | backup/app.py:87-115 | a reported duplicate is the first-match name of a face frame that the loop reached, every earlier frame having let it go on (no face and no stop, an encoding error, or a match with no name) |
| Screening.ReachedMatchIsReported | backup/app.py:103-115 | conversely, when the loop reaches a face frame whose first match is `n`, the screen reports `n` as the duplicate |
| Screening.EmptyRegistryHasNoDuplicate | backup/app.py:103-115 | with no stored encodings the screen never reports a duplicate |
| Screening.ScreenForDuplicate | backup/app.py:68-129 | the screen loop returns ScreenOutcome: stops without a duplicate on a failed read, on `q`/timeout after a face-less frame or on a face that matches nobody; skips encoding errors and missing-name lookups; reports the first-match name, which is a stored name |
| Samples.DigitChar | backup/app.py:186 | a digit character, and '0' only for 0 |
| Samples.Decimal | backup/app.py:186 | a non-empty string of digits, two or more exactly from 10 up, no leading zero above 0 |
| Samples.SampleFile | backup/app.py:186 | `f"{k:02d}.jpg"`: ends in `.jpg`, and for 1 ≤ k < 100 is exactly two digits plus the extension |
| Samples.DecimalInjective | backup/app.py:186 | different numbers have different decimal strings |
| Samples.SampleFileInjective | backup/app.py:186 | different sample numbers give different `NN.jpg` names, so no sample overwrites another |
| Samples.SampleNamesStep | backup/app.py:186-193 | accepting sample n+1 adds exactly one new file name |
| Samples.SampleNamesCount | backup/app.py:186-193 | n accepted samples occupy n distinct files |
| Samples.TenSampleNames | backup/app.py:150-186 | a full capture names exactly `01.jpg` … `10.jpg` |
| Samples.CaptureKey | backup/app.py:184-185 | `key & 0xFF` is space or 255; used by Sample, whose contract describes it |
| Samples.Sample | backup/app.py:184-195 | the count rises iff a face was located, the key is space or none (255), and the crop re-verifies; a failed verification removes the written file; without a capture nothing changes |
| Samples.CaptureRun | backup/app.py:152-155 | the loop never lowers the count or exceeds ten samples; its exact count is given by CaptureRunCounts |
| Samples.CaptureRunEndIsReadFailure | backup/app.py:152-155 | the capture loop has no timeout: a frame sequence that runs out gives the same result as one that ends in a failed read |
| Samples.CaptureNeedsGoodFrames | backup/app.py:152-195 | each counted sample needs its own frame with a face, a capture key and a verified crop |
| Samples.FirstFail | backup/app.py:153-155 | the position of the first failed read: every earlier frame was read |
| Samples.CaptureRunCounts | backup/app.py:152-198 | the loop counts exactly the good frames (face located, capture key, crop verified) before the first failed read, capped at ten |
| Samples.CaptureSamples | backup/app.py:148-198 | the loop's result is CaptureRun's; at most ten samples; the directory holds the first `count` sample names plus at most the files already there |
| Store.Database.constructor | backup/app.py:23 | the database at a first start, with no file on disk: no rows, consistent. At a restart the saved database is opened instead; the handlers cover that case by accepting any consistent (`Valid`) state |
| Store.Database.AddEmployee | backup/app.py:210 | appends the employee with the next id and registration time; names and ids stay unique |
| Store.Database.EmployeeExists | backup/app.py:57 | `employee_exists(name)`: some employee row has exactly this name; the gate it drives is stated by Register |
| Store.Database.DeleteEmployee | backup/app.py:391 | removes the employee with the id, and by cascade its attendance rows; uniqueness kept |
| Store.Database.MarkAttendance | backup/app.py:297 | appends (name, date, check-in time, no check-out) |
| Store.Database.UpdateCheckout | backup/app.py:303 | sets the check-out time on the (name, date) rows, nothing else |
| Store.Repeat | backup/app.py:209 | n copies of the label |
| Store.FaceRegistry.constructor | backup/app.py:21-22 | the registry at a first start: no encoding file, empty cache. At a restart the saved pickle is loaded instead; the handlers cover that case by accepting any `Valid` registry |
| Store.FaceRegistry.TrainNewFace | backup/app.py:209 | appends the new encodings under the name to the cache and writes the cache to the file |
| Store.FaceRegistry.WriteStore | backup/app.py:434-438 | the file exists and holds exactly the given lists |
| Store.FaceRegistry.RemoveStoreFile | backup/app.py:410-417 | the file is gone |
| Store.FaceRegistry.ResetCache | backup/app.py:441-442 | the in-memory lists are empty |
| Store.FaceRegistry.LoadKnownFaces | backup/app.py:443 | the cache is replaced by the file's lists when the file exists, else kept |
| Store.ImageFolder.constructor | backup/app.py:20 | the image folder at a first start: no employee directories. At a restart the existing folder is reused; the handlers accept any folder contents |
| Store.ImageFolder.MakeDirs | backup/app.py:148-149 | creates the directory if missing; an existing directory keeps its files |
| Store.ImageFolder.SetFiles | backup/app.py:186-195 | the directory holds exactly the files the capture left |
| Store.ImageFolder.RemoveTree | backup/app.py:395-396 | the directory is gone, nothing else changes |
| Seqs.Filter | backup/app.py:391 | the filtered rows are exactly the kept ones, and no more than the input |
| Seqs.FilterKeepsPairwise | backup/app.py:391 | filtering keeps a relation between earlier and later rows (uniqueness survives a delete) |
| Ledger.HasCheckedIn | backup/app.py:296 | `has_checked_in`: some row carries (name, date); its effect under each decision is stated by DecideFollowsStateMachine |
| Ledger.HasCheckedOut | backup/app.py:302 | `has_checked_out`: such a row has a check-out time, which implies a check-in |
| Ledger.Decide | backup/app.py:292-308 | one name's decision: "Unknown" is exactly the skipped case, only a recorded check-in adds a row (one), and nothing but a recorded check-in or check-out changes the table |
| Ledger.ApplyNames | backup/app.py:291-308 | the loop over the names, in order: one outcome per name and at most one added row per name |
| Ledger.SetCheckOut | backup/app.py:303 | the number of rows is unchanged; the time written on the (name, today) rows is stated by DecideFollowsStateMachine |
| Ledger.SetCheckOutKeepsOtherKeys | backup/app.py:303 | a check-out leaves every other (name, date) in its state |
| Ledger.InsertKeepsOtherKeys | backup/app.py:297 | a check-in leaves every other (name, date) in its state |
| Ledger.DecideFollowsStateMachine | backup/app.py:291-308 | one name's decision keeps rows unique, moves (name, today) by the transition table, leaves every other (name, date) alone, and changes the table iff it reports a recorded check-in or check-out; each of the six outcomes is reported exactly in its (action, state) case (already checked in, not checked in, already checked out, no action); a recorded check-out stamps the request's time on the (name, today) row |
| Ledger.DecideEvolves | backup/app.py:295-308 | a decision never removes, re-keys or rewrites a row's check-in, or an existing check-out |
| Ledger.DecideSettles | backup/app.py:295-308 | a decision settles its own name and keeps other names settled |
| Ledger.DecideSettledIsNoOp | backup/app.py:295-308 | a decision on a settled name changes nothing |
| Ledger.EvolvesTransitive | backup/app.py:291-308 | rows that evolve twice have evolved once |
| Ledger.ApplyNamesInvariants | backup/app.py:291-308 | a batch keeps rows unique and only evolving; gives one outcome per name; leaves every listed name settled; check-out adds no rows; every added row is (listed name ≠ "Unknown", today, now, no check-out); every row whose check-out changed belongs to a listed name and today and now holds the request's time |
| Ledger.ApplySettledIsNoOp | backup/app.py:291-308 | a batch of settled names changes nothing |
| Ledger.ApplyNamesIdempotent | backup/app.py:291-308 | repeating the same request with the same names changes nothing more |
| Ledger.CheckInLeavesOneRow | backup/app.py:295-300 | after a check-in batch a listed known name has exactly one row for today |
| Ledger.CheckOutPreservesClosedRows | backup/app.py:301-308 | a check-out batch adds no rows and never overwrites an existing check-out time |
| App.CaptureAndEnroll | backup/app.py:147-217 | after the gates: too few samples iff the capture run falls short; registered iff ten samples and training succeeds; on failure the directory is removed and the employee table unchanged; the cache is unchanged or extended by the new encodings as training got; registration adds the employee with the next id and the ten sample files |
| App.Register | backup/app.py:47-217 | each of the three gates (invalid name, taken name, duplicate face) holds iff its condition holds and changes nothing; a reported duplicate is the screen's first-match name; past the gates, too few samples iff the capture run over the directory's existing files stops short of ten, training failure iff ten samples but training does not succeed, registration iff ten samples and training succeeds; a failure past the gates removes the directory and leaves the employees alone, and leaves the registry alone unless `add_employee` raised after training; a registration appends the employee with the next id and the new encodings, holds `01.jpg` … `10.jpg` (exactly these in a new directory) and leaves other directories alone; attendance is never touched |
| App.StopIndex | backup/app.py:231-274 | the scan loop stops at the first failed read or stop, or at the last frame |
| App.ScanOutcome | backup/app.py:231-281 | the scan's result; described by ScanOutcomeCases |
| App.ScanOutcomeCases | backup/app.py:231-274 | the scan fails iff a read fails before any frame stops the loop; otherwise its names are those of one delivered frame, the stopping or the last one, reached without a failure or stop before it |
| App.Scan | backup/app.py:231-274 | the scan loop returns ScanOutcome: a camera failure, or the names of the frame it stopped on |
| App.MarkAttendance | backup/app.py:222-314 | camera failure iff the scan failed; no faces iff the last frame had no names; otherwise the table and outcomes are ApplyNames over the last frame's names; employees untouched; uniqueness kept |
| App.DeleteEmployee | backup/app.py:384-449 | employees and their attendance rows are filtered; the directory is removed; if nobody is left the file is gone and the cache empty; otherwise the file and cache hold the other identities' pairs in order; the deleted name is absent from the cache; any face that matched another identity still matches it |

## Left out

- The web layer is left out: Flask routing, form parsing, `flash` messages, templates and redirects. The handlers return result datatypes instead.
- OpenCV windows, drawing and key handling are left out beyond the `waitKey` value of the capture loop and the `q`/timeout stop flag.
- The face_recognition numerics are left out: location, encoding and distance. `close` is an oracle for the 0.5 tolerance, and per-frame outcomes are inputs.
- Wall-clock time and `datetime.now()` are left out. Timeouts are the end of the frame sequence or a stop flag, and dates and times are opaque strings passed in.
- `database.py` and `face_utils.py` are not part of this model. Their operations are modelled by the effects `app.py` relies on:
  - `add_employee` appends a row with a fresh id.
  - `delete_employee` cascades to attendance.
  - `train_new_face` appends the sample encodings and rewrites the pickle file.
  - `load_known_faces` replaces the cache when the file exists.
  - `mark_attendance(name, current_time, None)` appends a row keyed by (name, date). The row's date is taken to be `today`, the date of the request. The code passes only `current_time`, read at backup/app.py:284 just before `today` at 285, so the two can name different days if the request runs across midnight. That case is left out.
  - `update_checkout(name, today, time)` sets the check-out time on the rows of (name, today) and changes nothing else.
  - `has_checked_in(name, today)` holds when some row for (name, today) exists. `has_checked_out(name, today)` holds when such a row has a check-out time.
- `face_utils.recognize_faces` is an input: the names it returns per frame.
- Exceptions raised inside the capture loop are left out (`continue` at backup/app.py:196-198). So are database exceptions inside the attendance loop. As written, those abort the remaining names of the batch (backup/app.py:312-314), not just the one name. Neither "one name's failure leaves the others processed" nor the code's abort is modelled.
- Names.IsAlnum: accepts ASCII letters and digits only. Python's `str.isalnum` also accepts other Unicode letters and digits, so non-ASCII alphanumeric names are rejected by the model.
- App.MarkAttendance: requires at least one frame. The scan loop always reads one frame before anything else, so an empty frame sequence stands for nothing.
- The home page, `format_datetime`, the report route, `serve_employee_image` and `manage_employees` are left out. They only read and format data.
- Deleting the other files of the `known_faces` directory when nobody is left is modelled only for the encoding file. Other files there are not modelled.
- Screening follows the code, including the cases where it goes on into capture instead of ending the registration, so none of the following is a registration failure:
  - A failed webcam read during the screen still proceeds to capture.
  - A frame with no face and no stop simply continues.
  - After an encoding error, the `q`/timeout check is skipped.
- App.CaptureAndEnroll: when `add_employee` raises after training succeeded, the new encodings stay in the registry and the pickle file while the directory is removed. This is modelled as the code does it.
- App.DeleteEmployee: the error path of `delete_employee` is not modelled. Its try/except (backup/app.py:389, 446-447) catches any exception, such as a corrupt pickle at 424, a failed dump at 434 or a failed `rmtree` at 396, and then skips the cache reset and reload at 441-443. The deleted name's encodings then stay in the cache and keep being recognised. The contract, including `employeeName !in faces.knownNames`, describes only the run in which no exception is raised.
- Concurrent requests are left out. The Flask server handles requests in threads, so two attendance requests can interleave the check at backup/app.py:296 with the insert at 297 and create two rows for one (name, date). The model runs handlers one at a time. The invariant `Unique(attendance)` in `Store.Database.Valid`, and the lemmas built on it, hold only under that assumption.
