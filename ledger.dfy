/**
 * The attendance decisions of `mark_attendance`. The attendance table is a
 * sequence of rows; the store itself does not keep (name, date) unique, so
 * the controller queries before it inserts. Per (name, date) the rows go
 * through NoRecord -> CheckedIn -> CheckedOut.
 */
module Ledger {
  import opened Wrappers
  import opened Seqs

  /** One attendance row: `check_out` is null until the employee checks out. */
  datatype Record = Record(name: string, date: string, checkIn: string, checkOut: Option<string>)

  /** The sentinel the recognizer returns for a face that matches nobody. */
  const Unknown: string := "Unknown"

  /** The form's `action` field: `checkin`, `checkout`, or anything else. */
  datatype Action = CheckIn | CheckOut | OtherAction

  /** What the controller reports for one recognized name. */
  datatype Outcome =
    | SkippedUnknown
    | CheckInRecorded
    | AlreadyCheckedIn
    | CheckOutRecorded
    | NotCheckedIn
    | AlreadyCheckedOut
    | NoAction

  predicate IsKey(r: Record, name: string, date: string) {
    r.name == name && r.date == date
  }

  /** The two rows carry different (name, date) keys. */
  predicate DistinctKeys(r: Record, s: Record) {
    !(r.name == s.name && r.date == s.date)
  }

  /** At most one row per (name, date): every row's key differs from every
      later row's. */
  ghost predicate Unique(rows: seq<Record>) {
    Pairwise(rows, DistinctKeys)
  }

  /** `db.has_checked_in(name, today)`: some row exists for (name, date). */
  predicate HasCheckedIn(rows: seq<Record>, name: string, date: string) {
    exists i :: 0 <= i < |rows| && IsKey(rows[i], name, date)
  }

  /** `db.has_checked_out(name, today)`: such a row has a check-out time. */
  predicate HasCheckedOut(rows: seq<Record>, name: string, date: string)
    ensures HasCheckedOut(rows, name, date) ==> HasCheckedIn(rows, name, date)
  {
    exists i :: 0 <= i < |rows| && IsKey(rows[i], name, date) && rows[i].checkOut.Some?
  }

  /** `db.update_checkout(name, today, now)`: rows of (name, date) get `now`. */
  function SetCheckOut(rows: seq<Record>, name: string, date: string, now: string): (r: seq<Record>)
    ensures |r| == |rows|
  {
    seq(|rows|, i requires 0 <= i < |rows| =>
      if IsKey(rows[i], name, date) then rows[i].(checkOut := Some(now)) else rows[i])
  }

  /** The state of one (name, date): no row, a row without a check-out, or a row with one. */
  datatype Status = NoRecord | CheckedIn | CheckedOut

  function StatusOf(rows: seq<Record>, name: string, date: string): Status {
    if !HasCheckedIn(rows, name, date) then NoRecord
    else if HasCheckedOut(rows, name, date) then CheckedOut
    else CheckedIn
  }

  /** The transition table: check-in leaves NoRecord, check-out leaves
      CheckedIn; every other request leaves the state where it is. */
  function Next(s: Status, a: Action): Status {
    match (s, a)
    case (NoRecord, CheckIn) => CheckedIn
    case (CheckedIn, CheckOut) => CheckedOut
    case _ => s
  }

  /** The body of `for name in face_names` for one name. */
  function Decide(a: Action, rows: seq<Record>, name: string, today: string, now: string)
    : (r: (seq<Record>, Outcome))
    ensures r.1 == SkippedUnknown <==> name == Unknown
    ensures |r.0| == |rows| + (if r.1 == CheckInRecorded then 1 else 0)
    ensures r.1 != CheckInRecorded && r.1 != CheckOutRecorded ==> r.0 == rows
  {
    if name == Unknown then (rows, SkippedUnknown)
    else match a
      case CheckIn =>
        if !HasCheckedIn(rows, name, today) then (rows + [Record(name, today, now, None)], CheckInRecorded)
        else (rows, AlreadyCheckedIn)
      case CheckOut =>
        if HasCheckedIn(rows, name, today) && !HasCheckedOut(rows, name, today) then
          (SetCheckOut(rows, name, today, now), CheckOutRecorded)
        else if !HasCheckedIn(rows, name, today) then (rows, NotCheckedIn)
        else (rows, AlreadyCheckedOut)
      case OtherAction => (rows, NoAction)
  }

  /** The whole loop over the last frame's `face_names`, in order. */
  function ApplyNames(a: Action, rows: seq<Record>, names: seq<string>, today: string, now: string)
    : (r: (seq<Record>, seq<Outcome>))
    ensures |r.1| == |names|
    ensures |rows| <= |r.0| <= |rows| + |names|
    decreases |names|
  {
    if |names| == 0 then (rows, [])
    else
      var prev := ApplyNames(a, rows, names[..|names| - 1], today, now);
      var step := Decide(a, prev.0, names[|names| - 1], today, now);
      (step.0, prev.1 + [step.1])
  }

  /** Rows are never removed or re-keyed, a check-in time never changes, and
      a check-out time once written never changes. */
  ghost predicate Evolves(rows: seq<Record>, rows': seq<Record>) {
    && |rows| <= |rows'|
    && forall i :: 0 <= i < |rows| ==>
         && rows'[i].name == rows[i].name && rows'[i].date == rows[i].date
         && rows'[i].checkIn == rows[i].checkIn
         && (rows[i].checkOut.Some? ==> rows'[i].checkOut == rows[i].checkOut)
  }

  /** A name needs nothing more from action `a`: a later identical request
      would change nothing. */
  ghost predicate Settled(a: Action, rows: seq<Record>, name: string, date: string) {
    match a
    case CheckIn => name == Unknown || HasCheckedIn(rows, name, date)
    case CheckOut => name == Unknown || !HasCheckedIn(rows, name, date) || HasCheckedOut(rows, name, date)
    case OtherAction => true
  }

  // ---------------------------------------------------------------------
  // One decision
  // ---------------------------------------------------------------------

  lemma SetCheckOutKeepsOtherKeys(rows: seq<Record>, name: string, date: string, now: string,
                                  other: string, day: string)
    requires !(other == name && day == date)
    ensures HasCheckedIn(SetCheckOut(rows, name, date, now), other, day) == HasCheckedIn(rows, other, day)
    ensures HasCheckedOut(SetCheckOut(rows, name, date, now), other, day) == HasCheckedOut(rows, other, day)
  {
    var r := SetCheckOut(rows, name, date, now);
    assert forall i :: 0 <= i < |rows| && IsKey(rows[i], other, day) ==> r[i] == rows[i];
    assert forall i :: 0 <= i < |rows| && IsKey(r[i], other, day) ==> r[i] == rows[i];
  }

  lemma InsertKeepsOtherKeys(rows: seq<Record>, rec: Record, other: string, day: string)
    requires !IsKey(rec, other, day)
    ensures HasCheckedIn(rows + [rec], other, day) == HasCheckedIn(rows, other, day)
    ensures HasCheckedOut(rows + [rec], other, day) == HasCheckedOut(rows, other, day)
  {
    var r := rows + [rec];
    assert forall i :: 0 <= i < |rows| ==> r[i] == rows[i];
  }

  /** One decision follows the transition table for (name, today), leaves
      every other (name, date) in its state, keeps rows unique, and changes
      the table exactly when it reports a recorded check-in or check-out. */
  lemma DecideFollowsStateMachine(a: Action, rows: seq<Record>, name: string, today: string, now: string,
                                  other: string, day: string)
    requires Unique(rows)
    requires name != Unknown
    ensures var (rows', out) := Decide(a, rows, name, today, now);
      && Unique(rows')
      && StatusOf(rows', name, today) == Next(StatusOf(rows, name, today), a)
      && (!(other == name && day == today) ==> StatusOf(rows', other, day) == StatusOf(rows, other, day))
      && (rows' != rows <==> out == CheckInRecorded || out == CheckOutRecorded)
      // the reported outcome names the state the request found
      && (out == CheckInRecorded <==> a == CheckIn && StatusOf(rows, name, today) == NoRecord)
      && (out == AlreadyCheckedIn <==> a == CheckIn && StatusOf(rows, name, today) != NoRecord)
      && (out == CheckOutRecorded <==> a == CheckOut && StatusOf(rows, name, today) == CheckedIn)
      && (out == NotCheckedIn <==> a == CheckOut && StatusOf(rows, name, today) == NoRecord)
      && (out == AlreadyCheckedOut <==> a == CheckOut && StatusOf(rows, name, today) == CheckedOut)
      && (out == NoAction <==> a == OtherAction)
      // a recorded check-out stamps the request's time on the (name, today) row
      && (out == CheckOutRecorded ==>
            forall i :: 0 <= i < |rows'| && IsKey(rows'[i], name, today) ==> rows'[i].checkOut == Some(now))
  {
    var (rows', out) := Decide(a, rows, name, today, now);
    match a
    case CheckIn =>
      if !HasCheckedIn(rows, name, today) {
        var rec := Record(name, today, now, None);
        assert rows'[|rows|] == rec;
        assert HasCheckedIn(rows', name, today);
        assert forall i :: 0 <= i < |rows| ==> rows'[i] == rows[i];
        assert !HasCheckedOut(rows', name, today);
        if !(other == name && day == today) {
          InsertKeepsOtherKeys(rows, rec, other, day);
        }
        assert |rows'| != |rows|;
      }
    case CheckOut =>
      if HasCheckedIn(rows, name, today) && !HasCheckedOut(rows, name, today) {
        var k :| 0 <= k < |rows| && IsKey(rows[k], name, today);
        assert rows'[k].checkOut.Some?;
        assert HasCheckedIn(rows', name, today);
        assert HasCheckedOut(rows', name, today);
        assert rows'[k] != rows[k];
        if !(other == name && day == today) {
          SetCheckOutKeepsOtherKeys(rows, name, today, now, other, day);
        }
      }
    case OtherAction =>
  }

  // ---------------------------------------------------------------------
  // The whole loop
  // ---------------------------------------------------------------------

  lemma DecideEvolves(a: Action, rows: seq<Record>, name: string, today: string, now: string)
    ensures Evolves(rows, Decide(a, rows, name, today, now).0)
  {
  }

  lemma DecideSettles(a: Action, rows: seq<Record>, name: string, today: string, now: string, other: string)
    requires Settled(a, rows, other, today) || other == name
    ensures Settled(a, Decide(a, rows, name, today, now).0, other, today)
  {
    var rows' := Decide(a, rows, name, today, now).0;
    if name != Unknown && other != Unknown {
      match a
      case CheckIn =>
        if !HasCheckedIn(rows, name, today) {
          assert rows'[|rows|] == Record(name, today, now, None);
          if other != name {
            InsertKeepsOtherKeys(rows, Record(name, today, now, None), other, today);
          }
        }
      case CheckOut =>
        if HasCheckedIn(rows, name, today) && !HasCheckedOut(rows, name, today) {
          if other != name {
            SetCheckOutKeepsOtherKeys(rows, name, today, now, other, today);
          } else {
            var k :| 0 <= k < |rows| && IsKey(rows[k], name, today);
            assert rows'[k].checkOut.Some?;
          }
        }
      case OtherAction =>
    }
  }

  lemma DecideSettledIsNoOp(a: Action, rows: seq<Record>, name: string, today: string, now: string)
    requires Settled(a, rows, name, today)
    ensures Decide(a, rows, name, today, now).0 == rows
  {
  }

  lemma EvolvesTransitive(r1: seq<Record>, r2: seq<Record>, r3: seq<Record>)
    requires Evolves(r1, r2) && Evolves(r2, r3)
    ensures Evolves(r1, r3)
  {
  }

  /** Processing a list of recognized names: rows stay unique and only
      evolve; every listed name ends up settled (checked in after a
      check-in; after a check-out, checked out or never checked in);
      a check-out request adds no rows, and every row a check-in adds is
      (name, today, now, null) for a listed name. Also one outcome per name. */
  lemma {:induction false} ApplyNamesInvariants(a: Action, rows: seq<Record>, names: seq<string>,
                                                today: string, now: string)
    requires Unique(rows)
    ensures var (rows', outs) := ApplyNames(a, rows, names, today, now);
      && Unique(rows')
      && Evolves(rows, rows')
      && |outs| == |names|
      && (forall n :: n in names ==> Settled(a, rows', n, today))
      && (a != CheckIn ==> |rows'| == |rows|)
      && (forall i :: 0 <= i < |rows| && rows'[i].checkOut != rows[i].checkOut ==>
            rows'[i].name in names && rows'[i].date == today && rows'[i].checkOut == Some(now))
      && (forall i :: |rows| <= i < |rows'| ==>
            rows'[i].name in names && rows'[i].name != Unknown && rows'[i].date == today
            && rows'[i].checkIn == now && rows'[i].checkOut == None)
    decreases |names|
  {
    if |names| > 0 {
      var init := names[..|names| - 1];
      var last := names[|names| - 1];
      ApplyNamesInvariants(a, rows, init, today, now);
      var mid := ApplyNames(a, rows, init, today, now).0;
      var rows' := Decide(a, mid, last, today, now).0;
      if last != Unknown {
        DecideFollowsStateMachine(a, mid, last, today, now, last, today);
      }
      DecideEvolves(a, mid, last, today, now);
      EvolvesTransitive(rows, mid, rows');
      forall n | n in names ensures Settled(a, rows', n, today) {
        if n != last {
          assert n in init;
        }
        DecideSettles(a, mid, last, today, now, n);
      }
      forall i | |rows| <= i < |rows'|
        ensures rows'[i].name in names && rows'[i].name != Unknown && rows'[i].date == today
          && rows'[i].checkIn == now && rows'[i].checkOut == None
      {
        if i < |mid| {
          assert rows'[i] == mid[i];
          assert mid[i].name in init;
        } else {
          assert rows'[i] == Record(last, today, now, None);
        }
      }
    }
  }

  lemma {:induction false} ApplySettledIsNoOp(a: Action, rows: seq<Record>, names: seq<string>,
                                              today: string, now: string)
    requires forall n :: n in names ==> Settled(a, rows, n, today)
    ensures ApplyNames(a, rows, names, today, now).0 == rows
    decreases |names|
  {
    if |names| > 0 {
      var init := names[..|names| - 1];
      assert forall n :: n in init ==> n in names;
      ApplySettledIsNoOp(a, rows, init, today, now);
      DecideSettledIsNoOp(a, rows, names[|names| - 1], today, now);
    }
  }

  /** Repeating the same request with the same names (a person seen twice,
      or the button pressed twice within the same second) changes nothing
      more: check-in and check-out are idempotent. */
  lemma ApplyNamesIdempotent(a: Action, rows: seq<Record>, names: seq<string>, today: string, now: string)
    requires Unique(rows)
    ensures var once := ApplyNames(a, rows, names, today, now).0;
      ApplyNames(a, once, names, today, now).0 == once
  {
    ApplyNamesInvariants(a, rows, names, today, now);
    ApplySettledIsNoOp(a, ApplyNames(a, rows, names, today, now).0, names, today, now);
  }

  /** A name listed (even several times) in a check-in batch ends up with
      exactly one row for today. */
  lemma CheckInLeavesOneRow(rows: seq<Record>, names: seq<string>, today: string, now: string, name: string)
    requires Unique(rows)
    requires name in names && name != Unknown
    ensures var rows' := ApplyNames(CheckIn, rows, names, today, now).0;
      && (exists i :: 0 <= i < |rows'| && IsKey(rows'[i], name, today))
      && (forall i, j :: (0 <= i < |rows'| && 0 <= j < |rows'| && IsKey(rows'[i], name, today)
            && IsKey(rows'[j], name, today)) ==> i == j)
  {
    ApplyNamesInvariants(CheckIn, rows, names, today, now);
    var rows' := ApplyNames(CheckIn, rows, names, today, now).0;
    assert Settled(CheckIn, rows', name, today);
  }

  /** A check-out batch never creates a row and never touches a row that was
      already checked out: the first check-out time is kept. */
  lemma CheckOutPreservesClosedRows(rows: seq<Record>, names: seq<string>, today: string, now: string)
    requires Unique(rows)
    ensures var rows' := ApplyNames(CheckOut, rows, names, today, now).0;
      && |rows'| == |rows|
      && forall i :: 0 <= i < |rows| && rows[i].checkOut.Some? ==> rows'[i] == rows[i]
  {
    ApplyNamesInvariants(CheckOut, rows, names, today, now);
  }
}
