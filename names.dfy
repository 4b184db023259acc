/**
 * Employee-name gatekeeping of the registration form: the submitted name is
 * stripped of surrounding whitespace (Python's `str.strip()`), and the result
 * is accepted only if it is non-empty and every character is alphanumeric or
 * whitespace (`str.isalnum()` / `str.isspace()`).
 */
module Names {

  /** Python's `str.isspace()`: the 29 code points Python treats as whitespace. */
  predicate IsSpace(c: char) {
    || c == ' ' || c == '\t' || c == '\n' || c == '\r'
    || c == '\U{000B}' || c == '\U{000C}'
    || ('\U{001C}' <= c <= '\U{001F}')
    || c == '\U{0085}' || c == '\U{00A0}' || c == '\U{1680}'
    || ('\U{2000}' <= c <= '\U{200A}')
    || c == '\U{2028}' || c == '\U{2029}' || c == '\U{202F}'
    || c == '\U{205F}' || c == '\U{3000}'
  }

  /** `str.isalnum()` restricted to ASCII letters and digits. */
  predicate IsAlnum(c: char) {
    ('a' <= c <= 'z') || ('A' <= c <= 'Z') || ('0' <= c <= '9')
  }

  /** Number of leading whitespace characters. */
  function LeadingSpaces(s: string): (n: nat)
    ensures n <= |s|
    ensures forall k :: 0 <= k < n ==> IsSpace(s[k])
    ensures n < |s| ==> !IsSpace(s[n])
  {
    if |s| == 0 || !IsSpace(s[0]) then 0 else 1 + LeadingSpaces(s[1..])
  }

  /** Number of trailing whitespace characters. */
  function TrailingSpaces(s: string): (n: nat)
    ensures n <= |s|
    ensures forall k :: |s| - n <= k < |s| ==> IsSpace(s[k])
    ensures n < |s| ==> !IsSpace(s[|s| - 1 - n])
  {
    if |s| == 0 || !IsSpace(s[|s| - 1]) then 0 else 1 + TrailingSpaces(s[..|s| - 1])
  }

  /** The validation test applied to the stripped name. */
  predicate AcceptableName(name: string) {
    |name| > 0 && forall k :: 0 <= k < |name| ==> IsAlnum(name[k]) || IsSpace(name[k])
  }

  /** Where the stripped name begins and ends inside the raw input. */
  function Start(s: string): nat { LeadingSpaces(s) }
  function End(s: string): nat
    ensures Start(s) <= End(s) <= |s|
  {
    |s| - TrailingSpaces(s[LeadingSpaces(s)..])
  }

  /** `str.strip()` with no argument. It keeps one contiguous slice of the
      input, cuts away only whitespace, and leaves no whitespace at either
      end of a non-empty result; these facts fix the result uniquely. */
  function Strip(s: string): (r: string)
    ensures Start(s) <= End(s) <= |s| && r == s[Start(s)..End(s)]
    ensures forall k :: 0 <= k < Start(s) ==> IsSpace(s[k])
    ensures forall k :: End(s) <= k < |s| ==> IsSpace(s[k])
    ensures |r| > 0 ==> !IsSpace(r[0]) && !IsSpace(r[|r| - 1])
  {
    var t := s[LeadingSpaces(s)..];
    assert forall k :: End(s) <= k < |s| ==> s[k] == t[k - Start(s)];
    t[..|t| - TrailingSpaces(t)]
  }

  /** Stripping twice is the same as stripping once. */
  lemma StripIdempotent(s: string)
    ensures Strip(Strip(s)) == Strip(s)
  {
    var r := Strip(s);
    if |r| == 0 {
    } else {
      assert LeadingSpaces(r) == 0;
      assert r[0..] == r;
      assert TrailingSpaces(r) == 0;
    }
  }

  /** A submitted name passes validation exactly when the raw input holds at
      least one alphanumeric character and nothing but alphanumerics and
      whitespace: surrounding whitespace is harmless, anything else is not. */
  lemma AcceptableIff(raw: string)
    ensures AcceptableName(Strip(raw)) <==>
      (exists k :: 0 <= k < |raw| && IsAlnum(raw[k]))
      && (forall k :: 0 <= k < |raw| ==> IsAlnum(raw[k]) || IsSpace(raw[k]))
  {
    var i, j := Start(raw), End(raw);
    var r := Strip(raw);
    assert forall k :: i <= k < j ==> raw[k] == r[k - i];
    if AcceptableName(r) {
      assert IsAlnum(r[0]) && raw[i] == r[0];
      forall k | 0 <= k < |raw| ensures IsAlnum(raw[k]) || IsSpace(raw[k]) {
        if i <= k < j { assert raw[k] == r[k - i]; }
      }
    }
    if (exists k :: 0 <= k < |raw| && IsAlnum(raw[k]))
      && (forall k :: 0 <= k < |raw| ==> IsAlnum(raw[k]) || IsSpace(raw[k]))
    {
      var k :| 0 <= k < |raw| && IsAlnum(raw[k]);
      assert !IsSpace(raw[k]);
      assert i <= k < j;
      assert |r| > 0;
      forall m | 0 <= m < |r| ensures IsAlnum(r[m]) || IsSpace(r[m]) {
        assert r[m] == raw[m + i];
      }
    }
  }
}
