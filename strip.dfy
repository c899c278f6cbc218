/** A model of Python's `str.strip()` called with no argument: it removes every
    leading and every trailing character for which `str.isspace()` holds, and
    keeps everything in between, interior whitespace included. */
module PyStrip {

  /** The characters Python's `str.isspace()` accepts: the ASCII controls
      TAB..CR and FS..US, SPACE, NEL, NO-BREAK SPACE, and the Unicode space
      separators and line/paragraph separators. */
  predicate IsSpace(c: char) {
    ('\t' <= c <= '\r') || ('\U{1C}' <= c <= '\U{1F}') || c == ' ' ||
    c == '\U{85}' || c == '\U{A0}' || c == '\U{1680}' ||
    ('\U{2000}' <= c <= '\U{200A}') || c == '\U{2028}' || c == '\U{2029}' ||
    c == '\U{202F}' || c == '\U{205F}' || c == '\U{3000}'
  }

  predicate AllSpace(s: string) {
    forall k :: 0 <= k < |s| ==> IsSpace(s[k])
  }

  /** No whitespace at either end (vacuously true of the empty string). */
  predicate Trimmed(s: string) {
    s == [] || (!IsSpace(s[0]) && !IsSpace(s[|s| - 1]))
  }

  /** Scans forward from `i` past whitespace: the index of the first
      non-space character at or after `i`, or `|s|` when there is none. */
  function Front(s: string, i: nat): (n: nat)
    requires i <= |s|
    ensures i <= n <= |s|
    ensures forall k :: i <= k < n ==> IsSpace(s[k])
    ensures n < |s| ==> !IsSpace(s[n])
    decreases |s| - i
  {
    if i == |s| || !IsSpace(s[i]) then i else Front(s, i + 1)
  }

  /** Scans backward from `hi`, not below `lo`, past whitespace: the end
      of the last non-space character in `[lo, hi)`, or `lo` when there is
      none. */
  function Back(s: string, lo: nat, hi: nat): (j: nat)
    requires lo <= hi <= |s|
    ensures lo <= j <= hi
    ensures forall k :: j <= k < hi ==> IsSpace(s[k])
    ensures lo < j ==> !IsSpace(s[j - 1])
    decreases hi
  {
    if hi == lo || !IsSpace(s[hi - 1]) then hi else Back(s, lo, hi - 1)
  }

  /** Where the stripped part of `s` begins. */
  function Lead(s: string): (i: nat)
    ensures i <= |s|
  {
    Front(s, 0)
  }

  /** Where the stripped part of `s` ends: the trailing whitespace is
      looked for only after the leading whitespace, so an all-space string
      ends where it begins. */
  function End(s: string): (j: nat)
    ensures Lead(s) <= j <= |s|
  {
    Back(s, Lead(s), |s|)
  }

  /** `str.strip()`: the part of `s` between its leading and its trailing
      whitespace. What that part is, is stated by `StripSlice` and
      `StripCharacterized`. */
  function Strip(s: string): (r: string)
  {
    s[Lead(s)..End(s)]
  }

  /** `Strip(s)` is a slice of `s` with no whitespace at its ends that
      leaves only whitespace on either side. */
  lemma StripSlice(s: string)
    ensures Trimmed(Strip(s))
    ensures AllSpace(s[..Lead(s)]) && AllSpace(s[End(s)..])
  {
    assert forall k :: 0 <= k < Lead(s) ==> s[..Lead(s)][k] == s[k];
    assert forall k :: 0 <= k < |s| - End(s) ==> s[End(s)..][k] == s[End(s) + k];
  }

  /** Stripping leaves nothing exactly when `s` is all whitespace. */
  lemma StripEmpty(s: string)
    ensures Strip(s) == [] <==> AllSpace(s)
  {
    if Strip(s) != [] {
      assert !IsSpace(s[Lead(s)]);
    }
  }

  /** `r` is what stripping `s` leaves: a slice of `s` with only whitespace
      outside it and none at its ends. An independent description of
      `Strip`, shown equivalent to it by `StripCharacterized`. */
  ghost predicate IsStripOf(s: string, r: string) {
    exists lo, hi :: 0 <= lo <= hi <= |s| && r == s[lo..hi] &&
      AllSpace(s[..lo]) && AllSpace(s[hi..]) && Trimmed(r)
  }

  lemma StripIsStripOf(s: string)
    ensures IsStripOf(s, Strip(s))
  {
    StripSlice(s);
    var lo, hi := Lead(s), End(s);
    assert Strip(s) == s[lo..hi] && AllSpace(s[..lo]) && AllSpace(s[hi..]);
  }

  /** Every character of `s` at index `k` that lies outside the slice
      `[lo, hi)` is whitespace, given only whitespace outside it. */
  lemma OutsideIsSpace(s: string, lo: int, hi: int, k: int)
    requires 0 <= lo <= hi <= |s| && AllSpace(s[..lo]) && AllSpace(s[hi..])
    requires 0 <= k < |s| && (k < lo || hi <= k)
    ensures IsSpace(s[k])
  {
    if k < lo {
      assert s[..lo][k] == s[k];
    } else {
      assert s[hi..][k - hi] == s[k];
    }
  }

  /** Two slices of `s` that each have only whitespace outside them and
      none at their ends are the same string. */
  lemma SameSlice(s: string, lo1: nat, hi1: nat, lo2: nat, hi2: nat)
    requires lo1 <= hi1 <= |s| && AllSpace(s[..lo1]) && AllSpace(s[hi1..]) && Trimmed(s[lo1..hi1])
    requires lo2 <= hi2 <= |s| && AllSpace(s[..lo2]) && AllSpace(s[hi2..]) && Trimmed(s[lo2..hi2])
    ensures s[lo1..hi1] == s[lo2..hi2]
  {
    if lo1 < hi1 {
      assert !IsSpace(s[lo1]) && !IsSpace(s[hi1 - 1]) by {
        assert s[lo1..hi1][0] == s[lo1] && s[lo1..hi1][hi1 - lo1 - 1] == s[hi1 - 1];
      }
    }
    if lo2 < hi2 {
      assert !IsSpace(s[lo2]) && !IsSpace(s[hi2 - 1]) by {
        assert s[lo2..hi2][0] == s[lo2] && s[lo2..hi2][hi2 - lo2 - 1] == s[hi2 - 1];
      }
    }
    // a non-space end of one slice cannot lie outside the other
    if lo1 < hi1 && (lo1 < lo2 || hi2 <= lo1) { OutsideIsSpace(s, lo2, hi2, lo1); assert false; }
    if lo2 < hi2 && (lo2 < lo1 || hi1 <= lo2) { OutsideIsSpace(s, lo1, hi1, lo2); assert false; }
    if lo1 < hi1 && hi1 < hi2 { OutsideIsSpace(s, lo1, hi1, hi2 - 1); assert false; }
    if lo2 < hi2 && hi2 < hi1 { OutsideIsSpace(s, lo2, hi2, hi1 - 1); assert false; }
  }

  /** At most one string is the strip of `s`. */
  lemma StripOfUnique(s: string, r1: string, r2: string)
    requires IsStripOf(s, r1) && IsStripOf(s, r2)
    ensures r1 == r2
  {
    var lo1, hi1 :| 0 <= lo1 <= hi1 <= |s| && r1 == s[lo1..hi1] &&
      AllSpace(s[..lo1]) && AllSpace(s[hi1..]) && Trimmed(r1);
    var lo2, hi2 :| 0 <= lo2 <= hi2 <= |s| && r2 == s[lo2..hi2] &&
      AllSpace(s[..lo2]) && AllSpace(s[hi2..]) && Trimmed(r2);
    SameSlice(s, lo1, hi1, lo2, hi2);
  }

  /** `Strip(s)` is exactly the string `IsStripOf` describes. */
  lemma StripCharacterized(s: string, r: string)
    ensures IsStripOf(s, r) <==> r == Strip(s)
  {
    StripIsStripOf(s);
    if IsStripOf(s, r) {
      StripOfUnique(s, r, Strip(s));
    }
  }

  /** A string with no whitespace at its ends is left as it is: interior
      whitespace is never removed. */
  lemma TrimmedIsFixed(s: string)
    requires Trimmed(s)
    ensures Strip(s) == s
  {
    assert s == s[0..|s|];
    assert s[..0] == [] && s[|s|..] == [];
    assert IsStripOf(s, s);
    StripCharacterized(s, s);
  }

  /** Stripping twice is the same as stripping once. */
  lemma StripIdempotent(s: string)
    ensures Strip(Strip(s)) == Strip(s)
  {
    TrimmedIsFixed(Strip(s));
  }

  lemma AllSpaceConcat(a: string, b: string)
    requires AllSpace(a) && AllSpace(b)
    ensures AllSpace(a + b)
  {
    forall k | 0 <= k < |a + b| ensures IsSpace((a + b)[k]) {
      if k < |a| { assert (a + b)[k] == a[k]; } else { assert (a + b)[k] == b[k - |a|]; }
    }
  }

  /** Padding `s` with whitespace on both sides keeps a slice of `s` that
      has only whitespace outside it such a slice of the padded string. */
  lemma PaddedSlice(w1: string, s: string, w2: string, lo: nat, hi: nat)
    requires AllSpace(w1) && AllSpace(w2)
    requires lo <= hi <= |s| && AllSpace(s[..lo]) && AllSpace(s[hi..])
    ensures (w1 + s + w2)[|w1| + lo..|w1| + hi] == s[lo..hi]
    ensures AllSpace((w1 + s + w2)[..|w1| + lo])
    ensures AllSpace((w1 + s + w2)[|w1| + hi..])
  {
    var t := w1 + s + w2;
    assert t[..|w1| + lo] == w1 + s[..lo];
    assert t[|w1| + hi..] == s[hi..] + w2;
    AllSpaceConcat(w1, s[..lo]);
    AllSpaceConcat(s[hi..], w2);
  }

  /** Whitespace added at either end is removed again. */
  lemma StripIgnoresPadding(w1: string, s: string, w2: string)
    requires AllSpace(w1) && AllSpace(w2)
    ensures Strip(w1 + s + w2) == Strip(s)
  {
    var t := w1 + s + w2;
    var r := Strip(s);
    StripSlice(s);
    var lo := Lead(s);
    var hi := End(s);
    PaddedSlice(w1, s, w2, lo, hi);
    assert IsStripOf(t, r) by {
      assert r == t[|w1| + lo..|w1| + hi];
    }
    StripCharacterized(t, r);
  }
}
