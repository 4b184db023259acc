/**
 * The state the handlers of app.py change: the SQLite database (`db`), the
 * known-face registry (`face_utils`: its in-memory lists and the pickle file
 * `known_faces/face_encodings.pkl`) and the `employee_images` folder.
 * database.py and face_utils.py are not part of this model: each of their
 * operations used by app.py is given the effect its call site relies on.
 */
module Store {
  import opened Wrappers
  import opened Seqs
  import opened Ledger
  import opened Recognition

  datatype Employee = Employee(id: nat, name: string, registered: string)

  predicate DistinctEmployees(e: Employee, f: Employee) {
    e.name != f.name && e.id != f.id
  }

  /** The employee rows other than the one with `id`. */
  function WithoutId(employees: seq<Employee>, id: nat): seq<Employee> {
    Filter(employees, (e: Employee) => e.id != id)
  }

  /** The names carried by the employee rows with `id`. */
  function NamesWithId(employees: seq<Employee>, id: nat): set<string> {
    set e | e in employees && e.id == id :: e.name
  }

  /** The attendance rows of anyone but `gone`. */
  function WithoutRowsOf(rows: seq<Record>, gone: set<string>): seq<Record> {
    Filter(rows, (r: Record) => r.name !in gone)
  }

  class Database {
    var employees: seq<Employee>
    var nextId: nat
    var attendance: seq<Record>

    /** Employee names and ids are unique, ids come from a counter, and the
        controller has kept one attendance row per (name, date). */
    ghost predicate Valid()
      reads this
    {
      && Unique(attendance)
      && Pairwise(employees, DistinctEmployees)
      && forall i :: 0 <= i < |employees| ==> employees[i].id < nextId
    }

    constructor ()
      ensures Valid() && employees == [] && attendance == [] && nextId == 0
    {
      employees, attendance, nextId := [], [], 0;
    }

    /** `employee_exists(name)`: exact, case-sensitive comparison. */
    predicate EmployeeExists(name: string)
      reads this
    {
      exists i :: 0 <= i < |employees| && employees[i].name == name
    }

    predicate HasCheckedIn(name: string, date: string)
      reads this
    {
      Ledger.HasCheckedIn(attendance, name, date)
    }

    predicate HasCheckedOut(name: string, date: string)
      reads this
    {
      Ledger.HasCheckedOut(attendance, name, date)
    }

    /** `add_employee(name)` with `registered_date` = now. */
    method AddEmployee(name: string, now: string)
      requires Valid() && !EmployeeExists(name)
      modifies this
      ensures Valid()
      ensures employees == old(employees) + [Employee(old(nextId), name, now)]
      ensures nextId == old(nextId) + 1 && attendance == old(attendance)
    {
      employees := employees + [Employee(nextId, name, now)];
      nextId := nextId + 1;
    }

    /** `delete_employee(id)`: removes the employee row and, by cascade, that
        employee's attendance rows. An unknown id removes nothing. */
    method DeleteEmployee(id: nat)
      requires Valid()
      modifies this
      ensures Valid()
      ensures employees == WithoutId(old(employees), id)
      ensures attendance == WithoutRowsOf(old(attendance), NamesWithId(old(employees), id))
      ensures nextId == old(nextId)
    {
      var gone := NamesWithId(employees, id);
      FilterKeepsPairwise(employees, (e: Employee) => e.id != id, DistinctEmployees);
      FilterKeepsPairwise(attendance, (r: Record) => r.name !in gone, DistinctKeys);
      employees := WithoutId(employees, id);
      attendance := WithoutRowsOf(attendance, gone);
      forall i | 0 <= i < |employees| ensures employees[i].id < nextId {
        assert employees[i] in old(employees);
      }
    }

    /** `mark_attendance(name, check_in, None)`: inserts a row unconditionally. */
    method MarkAttendance(name: string, date: string, checkIn: string)
      modifies this`attendance
      ensures attendance == old(attendance) + [Record(name, date, checkIn, None)]
    {
      attendance := attendance + [Record(name, date, checkIn, None)];
    }

    /** `update_checkout(name, date, check_out)`. */
    method UpdateCheckout(name: string, date: string, checkOut: string)
      modifies this`attendance
      ensures attendance == SetCheckOut(old(attendance), name, date, checkOut)
    {
      attendance := SetCheckOut(attendance, name, date, checkOut);
    }
  }

  /** `n` copies of a label. */
  function Repeat(name: string, n: nat): (r: seq<string>)
    ensures |r| == n && forall k :: 0 <= k < n ==> r[k] == name
  {
    seq(n, _ => name)
  }

  class FaceRegistry {
    /** `face_utils.known_face_encodings` / `known_face_names`. */
    var knownEncodings: seq<Encoding>
    var knownNames: seq<string>
    /** `face_encodings.pkl`: whether it exists and what it holds. */
    var storeExists: bool
    var storeEncodings: seq<Encoding>
    var storeNames: seq<string>

    /** The in-memory lists are what the last load found in the pickle file
        (nothing when there is no file). */
    ghost predicate Valid()
      reads this
    {
      if storeExists then knownEncodings == storeEncodings && knownNames == storeNames
      else knownEncodings == [] && knownNames == []
    }

    constructor ()
      ensures Valid() && !storeExists
    {
      knownEncodings, knownNames := [], [];
      storeExists, storeEncodings, storeNames := false, [], [];
    }

    /** `train_new_face(name)`: the encodings of the saved samples are
        appended under `name` and the lists are written back to the file. */
    method TrainNewFace(name: string, encodings: seq<Encoding>)
      modifies this
      ensures knownEncodings == old(knownEncodings) + encodings
      ensures knownNames == old(knownNames) + Repeat(name, |encodings|)
      ensures storeExists && storeEncodings == knownEncodings && storeNames == knownNames
    {
      knownEncodings := knownEncodings + encodings;
      knownNames := knownNames + Repeat(name, |encodings|);
      storeExists, storeEncodings, storeNames := true, knownEncodings, knownNames;
    }

    /** `pickle.dump({'encodings': ..., 'names': ...}, f)`. */
    method WriteStore(encodings: seq<Encoding>, names: seq<string>)
      modifies this`storeExists, this`storeEncodings, this`storeNames
      ensures storeExists && storeEncodings == encodings && storeNames == names
    {
      storeExists, storeEncodings, storeNames := true, encodings, names;
    }

    /** Unlinking every file of the `known_faces` directory, the pickle included. */
    method RemoveStoreFile()
      modifies this`storeExists, this`storeEncodings, this`storeNames
      ensures !storeExists && storeEncodings == [] && storeNames == []
    {
      storeExists, storeEncodings, storeNames := false, [], [];
    }

    /** `known_face_encodings = []` and `known_face_names = []`. */
    method ResetCache()
      modifies this`knownEncodings, this`knownNames
      ensures knownEncodings == [] && knownNames == []
    {
      knownEncodings, knownNames := [], [];
    }

    /** `load_known_faces()`: the lists are replaced by the file's contents
        when the file exists. */
    method LoadKnownFaces()
      modifies this`knownEncodings, this`knownNames
      ensures storeExists ==> knownEncodings == storeEncodings && knownNames == storeNames
      ensures !storeExists ==> knownEncodings == old(knownEncodings) && knownNames == old(knownNames)
    {
      if storeExists {
        knownEncodings, knownNames := storeEncodings, storeNames;
      }
    }
  }

  /** The `employee_images` folder: one directory of sample files per employee. */
  class ImageFolder {
    var dirs: map<string, set<string>>

    constructor ()
      ensures dirs == map[]
    {
      dirs := map[];
    }

    /** `os.makedirs(emp_dir, exist_ok=True)`: an existing directory keeps its files. */
    method MakeDirs(name: string)
      modifies this
      ensures dirs == if name in old(dirs) then old(dirs) else old(dirs)[name := {}]
    {
      if name !in dirs {
        dirs := dirs[name := {}];
      }
    }

    /** The files left in the directory once the capture loop is done. */
    method SetFiles(name: string, files: set<string>)
      modifies this
      ensures dirs == old(dirs)[name := files]
    {
      dirs := dirs[name := files];
    }

    /** `shutil.rmtree(emp_dir)`, guarded by `os.path.exists` where the source guards it. */
    method RemoveTree(name: string)
      modifies this
      ensures dirs == old(dirs) - {name}
    {
      dirs := dirs - {name};
    }
  }
}
