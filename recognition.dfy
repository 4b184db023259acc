/**
 * The known-face lookup used by the duplicate screen and the
 * encoding-store filter used when an employee is deleted.
 *
 * The biometric library is an oracle: `close(known, probe)` says whether two
 * face encodings are within the matching tolerance (0.5 in the source).
 */
module Recognition {
  import opened Wrappers

  /** A face encoding: a fixed-length numeric vector produced by the library. */
  type Encoding = seq<real>

  /** The library's tolerance test between a known encoding and a probe. */
  type Closeness = (Encoding, Encoding) -> bool

  /** `face_recognition.compare_faces(known, probe)`: one flag per known encoding. */
  function CompareFaces(known: seq<Encoding>, probe: Encoding, close: Closeness): (m: seq<bool>)
    ensures |m| == |known|
    ensures true in m <==> exists i :: 0 <= i < |known| && close(known[i], probe)
  {
    var m := seq(|known|, i requires 0 <= i < |known| => close(known[i], probe));
    assert forall i :: 0 <= i < |known| ==> m[i] == close(known[i], probe);
    m
  }

  /** `matches.index(True)` guarded by `any(matches)`: the smallest index
      holding True, or None when there is none. */
  function FirstTrue(m: seq<bool>): (r: Option<nat>)
    ensures r.Some? ==> r.value < |m| && m[r.value] && forall j :: 0 <= j < r.value ==> !m[j]
    ensures r.None? ==> forall j :: 0 <= j < |m| ==> !m[j]
  {
    if |m| == 0 then None
    else if m[0] then Some(0)
    else match FirstTrue(m[1..])
      case None => None
      case Some(i) => Some(i + 1)
  }

  /** Result of looking a probe up in the in-memory lists. `NameMissing` is
      the IndexError raised when the first matching encoding has no name at
      the same index. */
  datatype Lookup = NoMatch | Matched(name: string) | NameMissing

  /** `known_face_names[matches.index(True)]` when some encoding matches. */
  function FirstMatch(encs: seq<Encoding>, names: seq<string>, probe: Encoding, close: Closeness): (r: Lookup)
    ensures r.Matched? ==> r.name in names
  {
    match FirstTrue(CompareFaces(encs, probe, close))
    case None => NoMatch
    case Some(i) => if i < |names| then Matched(names[i]) else NameMissing
  }

  /** Index `i` holds the first stored encoding within the tolerance. */
  predicate IsFirstClose(encs: seq<Encoding>, probe: Encoding, close: Closeness, i: int) {
    0 <= i < |encs| && close(encs[i], probe) && forall j :: 0 <= j < i ==> !close(encs[j], probe)
  }

  /** The reported duplicate is the name at the smallest matching index:
      every encoding before it is outside the tolerance; no match is
      reported exactly when no encoding is within it. */
  lemma FirstMatchIsEarliest(encs: seq<Encoding>, names: seq<string>, probe: Encoding, close: Closeness)
    ensures FirstMatch(encs, names, probe, close).Matched? <==>
      exists i :: IsFirstClose(encs, probe, close, i) && i < |names|
    ensures forall i :: IsFirstClose(encs, probe, close, i) && i < |names| ==>
      FirstMatch(encs, names, probe, close) == Matched(names[i])
    ensures FirstMatch(encs, names, probe, close) == NoMatch <==>
      forall i :: 0 <= i < |encs| ==> !close(encs[i], probe)
  {
    var m := CompareFaces(encs, probe, close);
    assert forall j :: 0 <= j < |encs| ==> m[j] == close(encs[j], probe);
    var r := FirstTrue(m);
    if r.Some? {
      assert IsFirstClose(encs, probe, close, r.value);
    }
    forall i | IsFirstClose(encs, probe, close, i) && i < |names|
      ensures FirstMatch(encs, names, probe, close) == Matched(names[i])
    {
      assert m[i];
    }
  }

  /** Looking up in lists whose first pair is known: the first pair decides
      when it matches, otherwise the lookup goes on in the rest. */
  lemma FirstMatchCons(encs: seq<Encoding>, names: seq<string>, probe: Encoding, close: Closeness)
    requires |encs| > 0 && |names| > 0
    ensures FirstMatch(encs, names, probe, close) ==
      if close(encs[0], probe) then Matched(names[0]) else FirstMatch(encs[1..], names[1..], probe, close)
  {
    var m := CompareFaces(encs, probe, close);
    assert CompareFaces(encs[1..], probe, close) == m[1..];
  }

  // ---------------------------------------------------------------------
  // Encoding store filter of `delete_employee`
  // ---------------------------------------------------------------------

  /** One stored (encoding, name) pair. */
  type Entry = (Encoding, string)

  /** Python's `zip(encodings, names)`: pairs up to the shorter list. */
  function Zip(encs: seq<Encoding>, names: seq<string>): (ps: seq<Entry>)
    ensures |ps| == if |encs| <= |names| then |encs| else |names|
  {
    var n := if |encs| <= |names| then |encs| else |names|;
    seq(n, i requires 0 <= i < n => (encs[i], names[i]))
  }

  function Encodings(ps: seq<Entry>): (es: seq<Encoding>)
    ensures |es| == |ps|
  {
    seq(|ps|, i requires 0 <= i < |ps| => ps[i].0)
  }

  function Labels(ps: seq<Entry>): (ns: seq<string>)
    ensures |ns| == |ps|
  {
    seq(|ps|, i requires 0 <= i < |ps| => ps[i].1)
  }

  /** The pairs whose name differs from `victim`, in their original order. */
  function KeepOthers(ps: seq<Entry>, victim: string): (r: seq<Entry>)
    ensures |r| <= |ps|
    ensures forall k :: 0 <= k < |r| ==> r[k].1 != victim
  {
    if |ps| == 0 then []
    else (if ps[0].1 != victim then [ps[0]] else []) + KeepOthers(ps[1..], victim)
  }

  /** The pairs labelled `name`, in order: one identity's slice of the store. */
  function LabelledAs(ps: seq<Entry>, name: string): (r: seq<Entry>)
  {
    if |ps| == 0 then []
    else (if ps[0].1 == name then [ps[0]] else []) + LabelledAs(ps[1..], name)
  }

  lemma LabelledAsCons(p: Entry, r: seq<Entry>, name: string)
    ensures LabelledAs([p] + r, name) == (if p.1 == name then [p] else []) + LabelledAs(r, name)
  {
    assert ([p] + r)[1..] == r;
  }

  lemma EntriesCons(p: Entry, r: seq<Entry>)
    ensures Encodings([p] + r) == [p.0] + Encodings(r)
    ensures Labels([p] + r) == [p.1] + Labels(r)
  {
  }

  /** Filtering grows pair by pair: the shape the filter loop builds it in. */
  lemma {:induction false} KeepOthersSnoc(ps: seq<Entry>, p: Entry, victim: string)
    ensures KeepOthers(ps + [p], victim) ==
      KeepOthers(ps, victim) + (if p.1 != victim then [p] else [])
  {
    if |ps| == 0 {
      assert ps + [p] == [p];
    } else {
      assert (ps + [p])[1..] == ps[1..] + [p];
      KeepOthersSnoc(ps[1..], p, victim);
    }
  }

  /** Deleting `victim` leaves every other identity's encodings exactly as
      they were, in the same order. */
  lemma {:induction false} KeepOthersSparesOthers(ps: seq<Entry>, victim: string, name: string)
    requires name != victim
    ensures LabelledAs(KeepOthers(ps, victim), name) == LabelledAs(ps, name)
  {
    if |ps| > 0 {
      KeepOthersSparesOthers(ps[1..], victim, name);
      LabelledAsCons(ps[0], ps[1..], name);
      assert ps == [ps[0]] + ps[1..];
      if ps[0].1 != victim {
        assert KeepOthers(ps, victim) == [ps[0]] + KeepOthers(ps[1..], victim);
        LabelledAsCons(ps[0], KeepOthers(ps[1..], victim), name);
      } else {
        assert KeepOthers(ps, victim) == KeepOthers(ps[1..], victim);
      }
    }
  }

  /** A probe that matched another identity before the deletion still
      matches that identity, looked up in the filtered lists. */
  lemma {:induction false} KeepOthersKeepsMatches(encs: seq<Encoding>, names: seq<string>, victim: string,
                                                  probe: Encoding, close: Closeness)
    requires FirstMatch(encs, names, probe, close).Matched?
    requires FirstMatch(encs, names, probe, close).name != victim
    ensures var kept := KeepOthers(Zip(encs, names), victim);
      FirstMatch(Encodings(kept), Labels(kept), probe, close) == FirstMatch(encs, names, probe, close)
    decreases |encs|
  {
    if |encs| == 0 || |names| == 0 {
      FirstMatchIsEarliest(encs, names, probe, close);
      assert false;
    } else {
      FirstMatchCons(encs, names, probe, close);
      var ps := Zip(encs, names);
      assert ps[1..] == Zip(encs[1..], names[1..]);
      var rest := KeepOthers(ps[1..], victim);
      if !close(encs[0], probe) {
        KeepOthersKeepsMatches(encs[1..], names[1..], victim, probe, close);
      }
      if ps[0].1 != victim {
        assert KeepOthers(ps, victim) == [ps[0]] + rest;
        EntriesCons(ps[0], rest);
        FirstMatchCons(Encodings([ps[0]] + rest), Labels([ps[0]] + rest), probe, close);
      } else {
        assert KeepOthers(ps, victim) == rest;
      }
    }
  }

  lemma EntriesSnoc(ps: seq<Entry>, p: Entry)
    ensures Encodings(ps + [p]) == Encodings(ps) + [p.0]
    ensures Labels(ps + [p]) == Labels(ps) + [p.1]
  {
  }

  /** The loop of `delete_employee` over `zip(data['encodings'], data['names'])`
      that appends every pair not labelled `victim` to two new lists. */
  method FilterEncodings(encs: seq<Encoding>, names: seq<string>, victim: string)
    returns (kept: seq<Encoding>, keptNames: seq<string>)
    ensures |kept| == |keptNames|
    ensures victim !in keptNames
    ensures kept == Encodings(KeepOthers(Zip(encs, names), victim))
    ensures keptNames == Labels(KeepOthers(Zip(encs, names), victim))
  {
    ghost var ps := Zip(encs, names);
    var n := if |encs| <= |names| then |encs| else |names|;
    kept, keptNames := [], [];
    var i := 0;
    while i < n
      invariant 0 <= i <= n
      invariant kept == Encodings(KeepOthers(ps[..i], victim))
      invariant keptNames == Labels(KeepOthers(ps[..i], victim))
    {
      KeepOthersSnoc(ps[..i], ps[i], victim);
      assert ps[..i + 1] == ps[..i] + [ps[i]];
      EntriesSnoc(KeepOthers(ps[..i], victim), ps[i]);
      if names[i] != victim {
        kept := kept + [encs[i]];
        keptNames := keptNames + [names[i]];
      }
      i := i + 1;
    }
    assert ps[..n] == ps;
  }
}
