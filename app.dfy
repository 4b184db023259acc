/**
 * The three request handlers of app.py that change state, with the web
 * layer, the camera window and the messages stripped away: `register`,
 * `mark_attendance` and `delete_employee`. Camera frames arrive as
 * finite sequences of per-frame outcomes. The attendance scan checks its
 * timeout on every frame, so there the sequence running out is the timeout
 * at its last frame; the registration loops stop early only on a failed read,
 * and there the sequence running out behaves as one (see Samples and
 * Screening).
 */
module App {
  import opened Wrappers
  import opened Names
  import opened Recognition
  import opened Screening
  import opened Samples
  import opened Ledger
  import opened Store

  // ---------------------------------------------------------------------
  // register
  // ---------------------------------------------------------------------

  /** How the last step of `register` goes: `train_new_face` raises;
      it succeeds (with the sample encodings) and `add_employee` raises;
      or both succeed. */
  datatype Training =
    | TrainingRaises
    | AddEmployeeRaises(encodings: seq<Encoding>)
    | Trained(encodings: seq<Encoding>)

  datatype RegisterResult =
    | InvalidName
    | NameTaken
    | DuplicateFace(matched: string)
    | TooFewSamples
    | TrainingFailed
    | Registered

  /** The part of `register` after the gates: make the directory, run the
      capture loop, then train and add the employee; a shortfall or a
      failure removes the directory again. */
  method CaptureAndEnroll(db: Database, faces: FaceRegistry, folder: ImageFolder, name: string,
                          capture: seq<CaptureFrame>, training: Training, now: string)
    returns (r: RegisterResult)
    requires db.Valid() && faces.Valid() && !db.EmployeeExists(name)
    modifies db, faces, folder
    ensures db.Valid() && faces.Valid()
    ensures var existing := if name in old(folder.dirs) then old(folder.dirs)[name] else {};
      && (r == TooFewSamples <==> CaptureRun(capture, 0, existing).0 < SampleTarget)
      && (r == Registered <==> CaptureRun(capture, 0, existing).0 == SampleTarget && training.Trained?)
      && (r == TooFewSamples || r == TrainingFailed || r == Registered)
    ensures r == TooFewSamples || r == TrainingFailed ==>
      && folder.dirs == old(folder.dirs) - {name}
      && db.employees == old(db.employees) && db.nextId == old(db.nextId)
    ensures r == TooFewSamples || (r == TrainingFailed && training.TrainingRaises?) ==>
      && faces.knownEncodings == old(faces.knownEncodings) && faces.knownNames == old(faces.knownNames)
      && faces.storeExists == old(faces.storeExists)
      && faces.storeEncodings == old(faces.storeEncodings) && faces.storeNames == old(faces.storeNames)
    ensures r == Registered || (r == TrainingFailed && training.AddEmployeeRaises?) ==>
      && faces.knownEncodings == old(faces.knownEncodings) + training.encodings
      && faces.knownNames == old(faces.knownNames) + Repeat(name, |training.encodings|)
    ensures r == Registered ==>
      && db.employees == old(db.employees) + [Employee(old(db.nextId), name, now)]
      && name in folder.dirs
      && SampleNames(SampleTarget) <= folder.dirs[name]
      && (name !in old(folder.dirs) ==> folder.dirs[name] == SampleNames(SampleTarget))
      && folder.dirs - {name} == old(folder.dirs) - {name}
    ensures db.attendance == old(db.attendance)
  {
    folder.MakeDirs(name);
    var count, files := CaptureSamples(capture, folder.dirs[name]);
    folder.SetFiles(name, files);
    if count < SampleTarget {
      folder.RemoveTree(name);
      return TooFewSamples;
    }
    match training {
      case TrainingRaises =>
        folder.RemoveTree(name);
        r := TrainingFailed;
      case AddEmployeeRaises(encodings) =>
        faces.TrainNewFace(name, encodings);
        folder.RemoveTree(name);
        r := TrainingFailed;
      case Trained(encodings) =>
        faces.TrainNewFace(name, encodings);
        db.AddEmployee(name, now);
        r := Registered;
    }
  }

  /** `register` (POST). The name is stripped and validated, then checked
      against the employees, then screened against the in-memory known faces;
      each of these three gates returns before anything is changed. Past
      them, the outcome and effects are those of CaptureAndEnroll. */
  method Register(db: Database, faces: FaceRegistry, folder: ImageFolder, rawName: string,
                  screen: seq<ScreenFrame>, capture: seq<CaptureFrame>, training: Training,
                  close: Closeness, now: string)
    returns (r: RegisterResult)
    requires db.Valid() && faces.Valid()
    modifies db, faces, folder
    ensures db.Valid() && faces.Valid()
    ensures r == InvalidName <==> !AcceptableName(Strip(rawName))
    ensures r == NameTaken <==> AcceptableName(Strip(rawName)) && old(db.EmployeeExists(Strip(rawName)))
    ensures r.DuplicateFace? <==>
      && AcceptableName(Strip(rawName)) && !old(db.EmployeeExists(Strip(rawName)))
      && ScreenOutcome(screen, old(faces.knownEncodings), old(faces.knownNames), close).Some?
    ensures r.DuplicateFace? ==>
      Some(r.matched) == ScreenOutcome(screen, old(faces.knownEncodings), old(faces.knownNames), close)
    ensures r == InvalidName || r == NameTaken || r.DuplicateFace? ==>
      && db.employees == old(db.employees) && db.nextId == old(db.nextId)
      && faces.knownEncodings == old(faces.knownEncodings) && faces.knownNames == old(faces.knownNames)
      && faces.storeExists == old(faces.storeExists)
      && faces.storeEncodings == old(faces.storeEncodings) && faces.storeNames == old(faces.storeNames)
      && folder.dirs == old(folder.dirs)
    // past the gates: the capture run and the training decide the outcome
    ensures var name := Strip(rawName);
      var passed := AcceptableName(name) && !old(db.EmployeeExists(name))
        && ScreenOutcome(screen, old(faces.knownEncodings), old(faces.knownNames), close).None?;
      var samples := CaptureRun(capture, 0, if name in old(folder.dirs) then old(folder.dirs)[name] else {}).0;
      && (r == TooFewSamples <==> passed && samples < SampleTarget)
      && (r == TrainingFailed <==> passed && samples == SampleTarget && !training.Trained?)
      && (r == Registered <==> passed && samples == SampleTarget && training.Trained?)
    ensures r == TooFewSamples || r == TrainingFailed ==>
      && folder.dirs == old(folder.dirs) - {Strip(rawName)}
      && db.employees == old(db.employees) && db.nextId == old(db.nextId)
    ensures r == TooFewSamples || (r == TrainingFailed && training.TrainingRaises?) ==>
      && faces.knownEncodings == old(faces.knownEncodings) && faces.knownNames == old(faces.knownNames)
      && faces.storeExists == old(faces.storeExists)
      && faces.storeEncodings == old(faces.storeEncodings) && faces.storeNames == old(faces.storeNames)
    ensures r == Registered || (r == TrainingFailed && training.AddEmployeeRaises?) ==>
      && faces.knownEncodings == old(faces.knownEncodings) + training.encodings
      && faces.knownNames == old(faces.knownNames) + Repeat(Strip(rawName), |training.encodings|)
    ensures r == Registered ==>
      && db.employees == old(db.employees) + [Employee(old(db.nextId), Strip(rawName), now)]
      && Strip(rawName) in folder.dirs
      && SampleNames(SampleTarget) <= folder.dirs[Strip(rawName)]
      && (Strip(rawName) !in old(folder.dirs) ==> folder.dirs[Strip(rawName)] == SampleNames(SampleTarget))
      && folder.dirs - {Strip(rawName)} == old(folder.dirs) - {Strip(rawName)}
    ensures db.attendance == old(db.attendance)
  {
    var name := Strip(rawName);
    if !AcceptableName(name) {
      return InvalidName;
    }
    if db.EmployeeExists(name) {
      return NameTaken;
    }
    var matched := ScreenForDuplicate(screen, faces.knownEncodings, faces.knownNames, close);
    if matched.Some? {
      return DuplicateFace(matched.value);
    }
    r := CaptureAndEnroll(db, faces, folder, name, capture, training, now);
  }

  // ---------------------------------------------------------------------
  // mark_attendance
  // ---------------------------------------------------------------------

  /** What one pass of the scan loop sees: a failed read, or the names
      `recognize_faces` returned for the frame ("Unknown" for a face that
      matches nobody) and whether the loop stops after it (timeout or `q`). */
  datatype AttendanceFrame =
    | FrameReadFailed
    | Recognized(names: seq<string>, stop: bool)

  /** The frame at which the scan loop ends: the first failed read or stop,
      or the last frame when the frames run out. */
  function StopIndex(frames: seq<AttendanceFrame>): (k: nat)
    requires |frames| > 0
    ensures k < |frames|
    ensures forall j :: 0 <= j < k ==> frames[j].Recognized? && !frames[j].stop
    ensures frames[k].FrameReadFailed? || frames[k].stop || k == |frames| - 1
    decreases |frames|
  {
    if |frames| == 1 || frames[0].FrameReadFailed? || frames[0].stop then 0
    else 1 + StopIndex(frames[1..])
  }

  /** No frame before `k` failed or asked the loop to stop. */
  predicate IsRunning(frames: seq<AttendanceFrame>, k: int)
    requires 0 <= k <= |frames|
  {
    forall j :: 0 <= j < k ==> frames[j].Recognized? && !frames[j].stop
  }

  datatype ScanResult = ScanReadFailed | LastNames(names: seq<string>)

  /** The scan either aborts on a failed read, or yields the names of the
      frame where it stopped; earlier frames' names are discarded. */
  function ScanOutcome(frames: seq<AttendanceFrame>): ScanResult
    requires |frames| > 0
  {
    var k := StopIndex(frames);
    if frames[k].FrameReadFailed? then ScanReadFailed else LastNames(frames[k].names)
  }

  /** The scan fails exactly when a read fails before any frame asks the
      loop to stop; otherwise it yields the names of one delivered frame,
      the one at which it stopped (or the last). */
  lemma ScanOutcomeCases(frames: seq<AttendanceFrame>)
    requires |frames| > 0
    ensures ScanOutcome(frames) == ScanReadFailed <==>
      exists k :: 0 <= k < |frames| && frames[k].FrameReadFailed? && IsRunning(frames, k)
    ensures ScanOutcome(frames).LastNames? ==>
      exists k :: 0 <= k < |frames| && frames[k].Recognized? && IsRunning(frames, k)
        && (frames[k].stop || k == |frames| - 1) && ScanOutcome(frames).names == frames[k].names
  {
    var i := StopIndex(frames);
    // a failed read at k while running pins the loop's end to k
    forall k | 0 <= k < |frames| && frames[k].FrameReadFailed? && IsRunning(frames, k)
      ensures k == i
    {
      assert !(i < k) && !(k < i);
    }
    assert IsRunning(frames, i);
  }

  /** The `while True` scan loop of `mark_attendance`. */
  method Scan(frames: seq<AttendanceFrame>) returns (res: ScanResult)
    requires |frames| > 0
    ensures res == ScanOutcome(frames)
  {
    var faceNames: seq<string> := [];
    var i := 0;
    while i < |frames|
      invariant 0 <= i <= |frames|
      invariant forall j :: 0 <= j < i ==> frames[j].Recognized? && !frames[j].stop
      invariant i > 0 ==> faceNames == frames[i - 1].names
      decreases |frames| - i
    {
      if frames[i].FrameReadFailed? {
        return ScanReadFailed;
      }
      faceNames := frames[i].names;
      if frames[i].stop {
        return LastNames(faceNames);
      }
      i := i + 1;
    }
    return LastNames(faceNames);
  }

  datatype AttendanceResult =
    | CameraFailed
    | NoFaces
    | Processed(outcomes: seq<Outcome>)

  /** `mark_attendance` (POST): scan, then decide per recognized name. */
  method MarkAttendance(db: Database, action: Action, frames: seq<AttendanceFrame>, today: string, now: string)
    returns (r: AttendanceResult)
    requires db.Valid()
    requires |frames| > 0
    modifies db
    ensures db.Valid()
    ensures db.employees == old(db.employees) && db.nextId == old(db.nextId)
    ensures r == CameraFailed <==> ScanOutcome(frames) == ScanReadFailed
    ensures r == NoFaces <==> ScanOutcome(frames) == LastNames([])
    ensures !r.Processed? ==> db.attendance == old(db.attendance)
    ensures r.Processed? ==>
      && ScanOutcome(frames).LastNames?
      && (db.attendance, r.outcomes) == ApplyNames(action, old(db.attendance), ScanOutcome(frames).names, today, now)
  {
    var scan := Scan(frames);
    if scan.ScanReadFailed? {
      return CameraFailed;
    }
    var names := scan.names;
    if |names| == 0 {
      return NoFaces;
    }
    var outcomes: seq<Outcome> := [];
    var i := 0;
    while i < |names|
      invariant 0 <= i <= |names|
      invariant (db.attendance, outcomes) == ApplyNames(action, old(db.attendance), names[..i], today, now)
      invariant Unique(db.attendance)
      invariant db.employees == old(db.employees) && db.nextId == old(db.nextId)
      decreases |names| - i
    {
      assert names[..i + 1][..i] == names[..i];
      ApplyNamesInvariants(action, old(db.attendance), names[..i + 1], today, now);
      var name := names[i];
      var outcome;
      if name == Unknown {
        outcome := SkippedUnknown;
      } else if action == CheckIn {
        if !db.HasCheckedIn(name, today) {
          db.MarkAttendance(name, today, now);
          outcome := CheckInRecorded;
        } else {
          outcome := AlreadyCheckedIn;
        }
      } else if action == CheckOut {
        if db.HasCheckedIn(name, today) && !db.HasCheckedOut(name, today) {
          db.UpdateCheckout(name, today, now);
          outcome := CheckOutRecorded;
        } else if !db.HasCheckedIn(name, today) {
          outcome := NotCheckedIn;
        } else {
          outcome := AlreadyCheckedOut;
        }
      } else {
        outcome := NoAction;
      }
      outcomes := outcomes + [outcome];
      i := i + 1;
    }
    assert names[..|names|] == names;
    return Processed(outcomes);
  }

  // ---------------------------------------------------------------------
  // delete_employee
  // ---------------------------------------------------------------------

  /** `delete_employee` (POST) with the form's id and name. */
  method DeleteEmployee(db: Database, faces: FaceRegistry, folder: ImageFolder, employeeId: nat,
                        employeeName: string)
    requires db.Valid() && faces.Valid()
    modifies db, faces, folder
    ensures db.Valid() && faces.Valid()
    ensures db.employees == WithoutId(old(db.employees), employeeId)
    ensures db.attendance == WithoutRowsOf(old(db.attendance), NamesWithId(old(db.employees), employeeId))
    ensures folder.dirs == old(folder.dirs) - {employeeName}
    // no employee left: the encodings file is gone and the cache is empty
    ensures |db.employees| == 0 ==> !faces.storeExists && faces.knownEncodings == [] && faces.knownNames == []
    // otherwise the file and the cache hold the other identities' pairs, in order
    ensures |db.employees| > 0 && old(faces.storeExists) ==>
      var kept := KeepOthers(Zip(old(faces.storeEncodings), old(faces.storeNames)), employeeName);
      faces.storeExists && faces.knownEncodings == Encodings(kept) && faces.knownNames == Labels(kept)
    ensures |db.employees| > 0 && !old(faces.storeExists) ==> !faces.storeExists
    ensures |faces.knownEncodings| == |faces.knownNames| && employeeName !in faces.knownNames
    // a face that matched another identity still matches it
    ensures forall probe: Encoding, close: Closeness ::
      (&& |db.employees| > 0
       && old(FirstMatch(faces.knownEncodings, faces.knownNames, probe, close)).Matched?
       && old(FirstMatch(faces.knownEncodings, faces.knownNames, probe, close)).name != employeeName)
      ==> FirstMatch(faces.knownEncodings, faces.knownNames, probe, close)
          == old(FirstMatch(faces.knownEncodings, faces.knownNames, probe, close))
  {
    db.DeleteEmployee(employeeId);
    folder.RemoveTree(employeeName);
    if |db.employees| == 0 {
      faces.WriteStore([], []);
      faces.RemoveStoreFile();
    } else if faces.storeExists {
      var kept, keptNames := FilterEncodings(faces.storeEncodings, faces.storeNames, employeeName);
      faces.WriteStore(kept, keptNames);
    }
    faces.ResetCache();
    faces.LoadKnownFaces();
    forall probe: Encoding, close: Closeness |
      && |db.employees| > 0
      && old(FirstMatch(faces.knownEncodings, faces.knownNames, probe, close)).Matched?
      && old(FirstMatch(faces.knownEncodings, faces.knownNames, probe, close)).name != employeeName
      ensures FirstMatch(faces.knownEncodings, faces.knownNames, probe, close)
              == old(FirstMatch(faces.knownEncodings, faces.knownNames, probe, close))
    {
      KeepOthersKeepsMatches(old(faces.knownEncodings), old(faces.knownNames), employeeName, probe, close);
    }
  }
}
