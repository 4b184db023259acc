/**
 * The duplicate-face screen at the start of `register`: frames are read
 * until one shows a face whose encoding can be computed; if that encoding is
 * within the tolerance of a stored one, the name at the first matching index
 * is reported and registration is cancelled.
 */
module Screening {
  import opened Wrappers
  import opened Recognition

  /** What one pass of the screen loop sees. `stop` is the `q` key or the
      30-second timeout, which the loop only checks on frames without a face;
      `encoding` is None when computing the encoding raised. */
  datatype ScreenFrame =
    | ScreenReadFailed
    | NoFaceSeen(stop: bool)
    | FaceSeen(encoding: Option<Encoding>)

  /** The name the screen reports as already registered, if any. A failed
      read, a stop, or a face that matches nothing all end the screen without
      a duplicate, and so does the sequence running out, which behaves as a
      failed read (ScreenEndIsReadFailure); an encoding error and a match
      whose index has no name (IndexError) both go on to the next frame. */
  function ScreenOutcome(frames: seq<ScreenFrame>, encs: seq<Encoding>, names: seq<string>,
                         close: Closeness): (r: Option<string>)
    ensures r.Some? ==> r.value in names
    decreases |frames|
  {
    if |frames| == 0 then None
    else match frames[0]
      case ScreenReadFailed => None
      case NoFaceSeen(stop) => if stop then None else ScreenOutcome(frames[1..], encs, names, close)
      case FaceSeen(None) => ScreenOutcome(frames[1..], encs, names, close)
      case FaceSeen(Some(e)) =>
        match FirstMatch(encs, names, e, close)
        case Matched(n) => Some(n)
        case NoMatch => None
        case NameMissing => ScreenOutcome(frames[1..], encs, names, close)
  }

  /** Running out of frames is the same as the camera failing to read. */
  lemma {:induction false} ScreenEndIsReadFailure(frames: seq<ScreenFrame>, encs: seq<Encoding>,
                                                  names: seq<string>, close: Closeness)
    ensures ScreenOutcome(frames + [ScreenReadFailed], encs, names, close) == ScreenOutcome(frames, encs, names, close)
    decreases |frames|
  {
    if |frames| > 0 {
      assert (frames + [ScreenReadFailed])[0] == frames[0];
      assert (frames + [ScreenReadFailed])[1..] == frames[1..] + [ScreenReadFailed];
      ScreenEndIsReadFailure(frames[1..], encs, names, close);
    }
  }

  /** A frame after which the screen loop goes on to the next one: no face
      and no stop, an encoding error, or a match whose index has no name. */
  predicate Continues(f: ScreenFrame, encs: seq<Encoding>, names: seq<string>, close: Closeness) {
    match f
    case ScreenReadFailed => false
    case NoFaceSeen(stop) => !stop
    case FaceSeen(None) => true
    case FaceSeen(Some(e)) => FirstMatch(encs, names, e, close) == NameMissing
  }

  /** The loop reaches frame `k` (every earlier frame continues) and the face
      there has `n` as its first match. */
  predicate MatchReachedAt(frames: seq<ScreenFrame>, encs: seq<Encoding>, names: seq<string>,
                           close: Closeness, k: int, n: string)
  {
    && 0 <= k < |frames|
    && (forall j :: 0 <= j < k ==> Continues(frames[j], encs, names, close))
    && frames[k].FaceSeen? && frames[k].encoding.Some?
    && FirstMatch(encs, names, frames[k].encoding.value, close) == Matched(n)
  }

  /** A reported duplicate is the first-match name of the face at which the
      loop stopped: every frame before it let the loop go on. */
  lemma {:induction false} DuplicateComesFromAFace(frames: seq<ScreenFrame>, encs: seq<Encoding>,
                                                   names: seq<string>, close: Closeness)
    requires ScreenOutcome(frames, encs, names, close).Some?
    ensures exists k :: MatchReachedAt(frames, encs, names, close, k, ScreenOutcome(frames, encs, names, close).value)
    decreases |frames|
  {
    var r := ScreenOutcome(frames, encs, names, close);
    if frames[0].FaceSeen? && frames[0].encoding.Some?
      && FirstMatch(encs, names, frames[0].encoding.value, close).Matched? {
      assert MatchReachedAt(frames, encs, names, close, 0, r.value);
    } else {
      assert Continues(frames[0], encs, names, close);
      assert r == ScreenOutcome(frames[1..], encs, names, close);
      DuplicateComesFromAFace(frames[1..], encs, names, close);
      var k :| MatchReachedAt(frames[1..], encs, names, close, k, r.value);
      forall j | 0 <= j < k + 1 ensures Continues(frames[j], encs, names, close) {
        if j > 0 { assert frames[j] == frames[1..][j - 1]; }
      }
      assert frames[k + 1] == frames[1..][k];
      assert MatchReachedAt(frames, encs, names, close, k + 1, r.value);
    }
  }

  /** Conversely, a matching face that the loop reaches is reported: the
      screen stops there with that face's first-match name. */
  lemma {:induction false} ReachedMatchIsReported(frames: seq<ScreenFrame>, encs: seq<Encoding>,
                                                  names: seq<string>, close: Closeness, k: nat, n: string)
    requires MatchReachedAt(frames, encs, names, close, k, n)
    ensures ScreenOutcome(frames, encs, names, close) == Some(n)
    decreases k
  {
    if k > 0 {
      assert Continues(frames[0], encs, names, close);
      assert ScreenOutcome(frames, encs, names, close) == ScreenOutcome(frames[1..], encs, names, close);
      forall j | 0 <= j < k - 1 ensures Continues(frames[1..][j], encs, names, close) {
        assert frames[1..][j] == frames[j + 1];
      }
      assert frames[1..][k - 1] == frames[k];
      ReachedMatchIsReported(frames[1..], encs, names, close, k - 1, n);
    }
  }

  /** With no stored encodings nothing can be a duplicate. */
  lemma {:induction false} EmptyRegistryHasNoDuplicate(frames: seq<ScreenFrame>, names: seq<string>,
                                                       close: Closeness)
    ensures ScreenOutcome(frames, [], names, close) == None
    decreases |frames|
  {
    if |frames| > 0 {
      EmptyRegistryHasNoDuplicate(frames[1..], names, close);
      if frames[0].FaceSeen? && frames[0].encoding.Some? {
        FirstMatchIsEarliest([], names, frames[0].encoding.value, close);
      }
    }
  }

  /** The screen loop of `register`. */
  method ScreenForDuplicate(frames: seq<ScreenFrame>, encs: seq<Encoding>, names: seq<string>,
                            close: Closeness)
    returns (matched: Option<string>)
    ensures matched == ScreenOutcome(frames, encs, names, close)
    ensures matched.Some? ==> matched.value in names
  {
    var i := 0;
    while i < |frames|
      invariant 0 <= i <= |frames|
      invariant ScreenOutcome(frames[i..], encs, names, close) == ScreenOutcome(frames, encs, names, close)
      decreases |frames| - i
    {
      assert frames[i..][0] == frames[i] && frames[i..][1..] == frames[i + 1..];
      match frames[i] {
        case ScreenReadFailed =>
          return None;
        case NoFaceSeen(stop) =>
          if stop {
            return None;
          }
        case FaceSeen(encoding) =>
          if encoding.Some? {
            var look := FirstMatch(encs, names, encoding.value, close);
            if look.Matched? {
              return Some(look.name);
            } else if look.NoMatch? {
              return None;
            }
          }
      }
      i := i + 1;
    }
    return None;
  }
}
