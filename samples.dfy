/**
 * The guided capture of `register`: up to ten face crops are saved into the
 * employee's image directory, each under a two-digit, zero-padded file name
 * (`01.jpg` … `10.jpg`), and a saved crop is kept only if face detection
 * finds a face in it again.
 */
module Samples {

  /** `face_image_count` in the source. */
  const SampleTarget: nat := 10

  function DigitChar(d: nat): (c: char)
    requires d < 10
    ensures '0' <= c <= '9'
    ensures c == '0' <==> d == 0
  {
    "0123456789"[d]
  }

  /** Decimal representation of a natural number, most significant digit first. */
  function Decimal(k: nat): (s: string)
    ensures 1 <= |s|
    ensures k >= 10 <==> |s| >= 2
    ensures k > 0 ==> s[0] != '0'
    ensures k < 100 ==> |s| <= 2
    ensures forall i :: 0 <= i < |s| ==> '0' <= s[i] <= '9'
  {
    if k < 10 then [DigitChar(k)] else Decimal(k / 10) + [DigitChar(k % 10)]
  }

  /** `f"{k:02d}.jpg"`: the decimal number padded with zeros to two digits. */
  function SampleFile(k: nat): (f: string)
    ensures |f| >= 6 && f[|f| - 4..] == ".jpg"
    ensures 1 <= k < 100 ==> |f| == 6
  {
    (if k < 10 then "0" else "") + Decimal(k) + ".jpg"
  }

  /** The files `01.jpg` … `NN.jpg` for the first `n` accepted samples. */
  function SampleNames(n: nat): set<string> {
    set k | 1 <= k <= n :: SampleFile(k)
  }

  /** Different numbers have different decimal representations. */
  lemma {:induction false} DecimalInjective(a: nat, b: nat)
    requires Decimal(a) == Decimal(b)
    ensures a == b
  {
    var s := Decimal(a);
    if a >= 10 && b >= 10 {
      assert Decimal(a / 10) == s[..|s| - 1] == Decimal(b / 10);
      DecimalInjective(a / 10, b / 10);
      assert DigitChar(a % 10) == s[|s| - 1] == DigitChar(b % 10);
      assert "0123456789"[a % 10] == "0123456789"[b % 10];
    } else {
      assert a < 10 && b < 10;
      assert "0123456789"[a] == s[0] == "0123456789"[b];
    }
  }

  /** Different sample numbers give different file names, so no accepted
      sample overwrites another. */
  lemma SampleFileInjective(a: nat, b: nat)
    requires SampleFile(a) == SampleFile(b)
    ensures a == b
  {
    var x, y := (if a < 10 then "0" else "") + Decimal(a), (if b < 10 then "0" else "") + Decimal(b);
    assert x == SampleFile(a)[..|x|];
    assert |x| == |y|;
    assert x == y;
    // the padding zero appears exactly for one-digit numbers
    assert (x[0] == '0') == (a < 10);
    assert (y[0] == '0') == (b < 10);
    if a < 10 {
      assert Decimal(a) == x[1..] == Decimal(b);
    } else {
      assert Decimal(a) == x == Decimal(b);
    }
    DecimalInjective(a, b);
  }

  /** Accepting sample `n + 1` adds exactly one new name to the set. */
  lemma SampleNamesStep(n: nat)
    ensures SampleNames(n + 1) == SampleNames(n) + {SampleFile(n + 1)}
    ensures SampleFile(n + 1) !in SampleNames(n)
  {
    if SampleFile(n + 1) in SampleNames(n) {
      var k :| 1 <= k <= n && SampleFile(k) == SampleFile(n + 1);
      SampleFileInjective(k, n + 1);
    }
  }

  /** `n` accepted samples occupy exactly `n` distinct files. */
  lemma {:induction false} SampleNamesCount(n: nat)
    ensures |SampleNames(n)| == n
  {
    if n == 0 {
      assert SampleNames(0) == {};
    } else {
      SampleNamesCount(n - 1);
      SampleNamesStep(n - 1);
    }
  }

  /** A complete capture leaves exactly `01.jpg` through `10.jpg`. */
  lemma TenSampleNames()
    ensures SampleNames(SampleTarget) ==
      {"01.jpg", "02.jpg", "03.jpg", "04.jpg", "05.jpg",
       "06.jpg", "07.jpg", "08.jpg", "09.jpg", "10.jpg"}
  {
    assert Decimal(10) == Decimal(1) + [DigitChar(0)] == "10";
    assert SampleFile(1) == "01.jpg";
    assert SampleFile(2) == "02.jpg";
    assert SampleFile(3) == "03.jpg";
    assert SampleFile(4) == "04.jpg";
    assert SampleFile(5) == "05.jpg";
    assert SampleFile(6) == "06.jpg";
    assert SampleFile(7) == "07.jpg";
    assert SampleFile(8) == "08.jpg";
    assert SampleFile(9) == "09.jpg";
    assert SampleFile(10) == "10.jpg";
  }

  // ---------------------------------------------------------------------
  // The capture loop
  // ---------------------------------------------------------------------

  /** What one pass of the capture loop sees: the camera read failed, or a
      frame in which a face was (or was not) located, the value returned by
      `cv2.waitKey(1000)`, and whether detection on the saved crop succeeds. */
  datatype CaptureFrame =
    | CaptureReadFailed
    | Captured(faceLocated: bool, key: int, cropVerifies: bool)

  /** `key & 0xFF` is space (32) or 255 (no key pressed: the one-second
      timeout acts as an automatic capture). Python's `&` with a mask works
      on two's complement, which for `0xFF` is the non-negative remainder. */
  predicate CaptureKey(key: int) {
    var k := key % 256;
    k == 32 || k == 255
  }

  /** One pass of the loop body on the sample counter and the directory's
      files: a crop is written only if a face was located and the key asks
      for a capture; it counts only if it re-verifies, otherwise it is removed. */
  function Sample(count: nat, files: set<string>, face: bool, key: int, verifies: bool)
    : (r: (nat, set<string>))
    ensures r.0 == count + 1 <==> face && CaptureKey(key) && verifies
    ensures r.0 == count || r.0 == count + 1
    ensures r.0 == count + 1 ==> r.1 == files + {SampleFile(count + 1)}
    ensures r.0 == count && face && CaptureKey(key) ==> r.1 == files - {SampleFile(count + 1)}
    ensures !(face && CaptureKey(key)) ==> r.1 == files
  {
    if face && CaptureKey(key) then
      var path := SampleFile(count + 1);
      if verifies then (count + 1, files + {path}) else (count, files - {path})
    else (count, files)
  }

  /** The loop `while count < face_image_count`, run over the frames the
      camera delivers. It has no timeout and no quit key: it stops at ten
      samples or at a failed read, and a sequence that runs out stops it in
      the same way (CaptureRunEndIsReadFailure). */
  function CaptureRun(frames: seq<CaptureFrame>, count: nat, files: set<string>): (r: (nat, set<string>))
    requires count <= SampleTarget
    ensures count <= r.0 <= SampleTarget
    decreases |frames|
  {
    if count == SampleTarget || |frames| == 0 then (count, files)
    else match frames[0]
      case CaptureReadFailed => (count, files)
      case Captured(face, key, verifies) =>
        var next := Sample(count, files, face, key, verifies);
        CaptureRun(frames[1..], next.0, next.1)
  }

  /** Running out of frames is the same as the camera failing to read. */
  lemma {:induction false} CaptureRunEndIsReadFailure(frames: seq<CaptureFrame>, count: nat, files: set<string>)
    requires count <= SampleTarget
    ensures CaptureRun(frames + [CaptureReadFailed], count, files) == CaptureRun(frames, count, files)
    decreases |frames|
  {
    if count < SampleTarget && |frames| > 0 {
      assert (frames + [CaptureReadFailed])[0] == frames[0];
      assert (frames + [CaptureReadFailed])[1..] == frames[1..] + [CaptureReadFailed];
      if frames[0].Captured? {
        var f := frames[0];
        var next := Sample(count, files, f.faceLocated, f.key, f.cropVerifies);
        CaptureRunEndIsReadFailure(frames[1..], next.0, next.1);
      }
    }
  }

  /** Frames on which a sample can count: face located, capture key, crop verified. */
  function GoodFrames(frames: seq<CaptureFrame>): nat {
    if |frames| == 0 then 0
    else (if frames[0].Captured? && frames[0].faceLocated && CaptureKey(frames[0].key)
             && frames[0].cropVerifies then 1 else 0)
         + GoodFrames(frames[1..])
  }

  /** The position of the first failed read, or the length when none fails. */
  function FirstFail(frames: seq<CaptureFrame>): (k: nat)
    ensures k <= |frames|
    ensures forall j :: 0 <= j < k ==> frames[j].Captured?
    ensures k < |frames| ==> frames[k].CaptureReadFailed?
  {
    if |frames| == 0 || frames[0].CaptureReadFailed? then 0 else 1 + FirstFail(frames[1..])
  }

  /** The capture loop counts exactly the good frames it sees before the
      first failed read, up to ten: no good frame is missed and none counts
      twice. */
  lemma {:induction false} CaptureRunCounts(frames: seq<CaptureFrame>, count: nat, files: set<string>)
    requires count <= SampleTarget
    ensures var good := count + GoodFrames(frames[..FirstFail(frames)]);
      CaptureRun(frames, count, files).0 == if good < SampleTarget then good else SampleTarget
    decreases |frames|
  {
    var k := FirstFail(frames);
    if |frames| == 0 || frames[0].CaptureReadFailed? {
      assert frames[..k] == [];
    } else {
      var f := frames[0];
      var next := Sample(count, files, f.faceLocated, f.key, f.cropVerifies);
      assert frames[..k][0] == f;
      assert frames[..k][1..] == frames[1..][..FirstFail(frames[1..])];
      if count < SampleTarget {
        CaptureRunCounts(frames[1..], next.0, next.1);
      }
    }
  }

  /** Every counted sample comes from a distinct frame in which a face was
      located, the capture key was given and the saved crop re-verified. */
  lemma {:induction false} CaptureNeedsGoodFrames(frames: seq<CaptureFrame>, count: nat, files: set<string>)
    requires count <= SampleTarget
    ensures CaptureRun(frames, count, files).0 <= count + GoodFrames(frames)
    decreases |frames|
  {
    if count < SampleTarget && |frames| > 0 && frames[0].Captured? {
      var f := frames[0];
      var next := Sample(count, files, f.faceLocated, f.key, f.cropVerifies);
      CaptureNeedsGoodFrames(frames[1..], next.0, next.1);
    }
  }

  /** The capture loop of `register` over the files of the employee directory,
      which `os.makedirs(..., exist_ok=True)` may have found non-empty. */
  method CaptureSamples(frames: seq<CaptureFrame>, existing: set<string>)
    returns (count: nat, files: set<string>)
    ensures (count, files) == CaptureRun(frames, 0, existing)
    ensures count <= SampleTarget
    ensures SampleNames(count) <= files <= existing + SampleNames(count)
  {
    count, files := 0, existing;
    var i := 0;
    while count < SampleTarget && i < |frames|
      invariant 0 <= i <= |frames|
      invariant count <= SampleTarget
      invariant CaptureRun(frames[i..], count, files) == CaptureRun(frames, 0, existing)
      invariant SampleNames(count) <= files <= existing + SampleNames(count)
      decreases |frames| - i
    {
      assert frames[i..][0] == frames[i] && frames[i..][1..] == frames[i + 1..];
      match frames[i] {
        case CaptureReadFailed =>
          break;
        case Captured(face, key, verifies) =>
          ghost var before := files;
          if face && CaptureKey(key) {
            var path := SampleFile(count + 1);
            SampleNamesStep(count);
            files := files + {path};
            if verifies {
              count := count + 1;
            } else {
              files := files - {path};
              assert files == before - {path};
            }
          }
      }
      i := i + 1;
    }
  }
}
