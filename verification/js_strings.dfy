/**
 * ECMAScript string values as the page script sees them: sequences of UTF-16
 * code units. A code unit in the surrogate range is representable here, so a
 * string may be ill-formed (hold a lone surrogate), exactly as in JavaScript.
 * Also: String.prototype.trim, over the language's WhiteSpace and
 * LineTerminator code points.
 */
module JsStrings {

  /** One UTF-16 code unit. */
  type CodeUnit = x: int | 0 <= x < 0x1_0000

  type JsString = seq<CodeUnit>

  predicate IsHighSurrogate(u: CodeUnit) { 0xD800 <= u < 0xDC00 }

  predicate IsLowSurrogate(u: CodeUnit) { 0xDC00 <= u < 0xE000 }

  predicate IsSurrogate(u: CodeUnit) { 0xD800 <= u < 0xE000 }

  /**
   * The code units of a string literal of the script. Every literal of the
   * script lies in the Basic Multilingual Plane, so each character is one
   * code unit. U+FFFD is only this function's fallback for a character
   * outside it and is never used; the result never contains a surrogate.
   */
  function Lit(s: string): (r: JsString)
    ensures |r| == |s|
    ensures forall i :: 0 <= i < |r| ==> !IsSurrogate(r[i])
  {
    seq(|s|, i requires 0 <= i < |s| =>
      var c := s[i] as int;
      if c < 0xD800 || 0xE000 <= c < 0x1_0000 then c else 0xFFFD)
  }

  /** A string without lone surrogates: every high surrogate is followed by a
      low one and every low surrogate is preceded by a high one. */
  predicate WellFormed(s: JsString) {
    && (forall i :: 0 <= i < |s| && IsHighSurrogate(s[i]) ==> i + 1 < |s| && IsLowSurrogate(s[i + 1]))
    && (forall i :: 0 <= i < |s| && IsLowSurrogate(s[i]) ==> 0 < i && IsHighSurrogate(s[i - 1]))
  }

  /** Concatenation keeps well-formedness in both directions unless it glues a
      high surrogate at the end of `a` to a low surrogate at the start of `b`. */
  lemma WellFormedConcat(a: JsString, b: JsString)
    requires !(|a| > 0 && |b| > 0 && IsHighSurrogate(a[|a| - 1]) && IsLowSurrogate(b[0]))
    ensures WellFormed(a + b) <==> WellFormed(a) && WellFormed(b)
  {
    var s := a + b;
    assert |a| > 0 ==> s[|a| - 1] == a[|a| - 1];
    assert |b| > 0 ==> s[|a|] == b[0];
    if WellFormed(s) {
      forall i | 0 <= i < |a| && IsHighSurrogate(a[i])
        ensures i + 1 < |a| && IsLowSurrogate(a[i + 1])
      {
        assert s[i] == a[i];
        if i + 1 < |a| {
          assert s[i + 1] == a[i + 1];
        }
      }
      forall i | 0 <= i < |a| && IsLowSurrogate(a[i])
        ensures 0 < i && IsHighSurrogate(a[i - 1])
      {
        assert s[i] == a[i];
        assert s[i - 1] == a[i - 1];
      }
      forall i | 0 <= i < |b| && IsLowSurrogate(b[i])
        ensures 0 < i && IsHighSurrogate(b[i - 1])
      {
        assert s[|a| + i] == b[i];
        if 0 < i {
          assert s[|a| + i - 1] == b[i - 1];
        }
      }
      forall i | 0 <= i < |b| && IsHighSurrogate(b[i])
        ensures i + 1 < |b| && IsLowSurrogate(b[i + 1])
      {
        assert s[|a| + i] == b[i];
        assert s[|a| + i + 1] == b[i + 1];
      }
    }
    if WellFormed(a) && WellFormed(b) {
      forall i | 0 <= i < |s| && IsHighSurrogate(s[i])
        ensures i + 1 < |s| && IsLowSurrogate(s[i + 1])
      {
        if i < |a| {
          assert a[i] == s[i];
          assert a[i + 1] == s[i + 1];
        } else {
          assert b[i - |a|] == s[i];
          assert b[i - |a| + 1] == s[i + 1];
        }
      }
      forall i | 0 <= i < |s| && IsLowSurrogate(s[i])
        ensures 0 < i && IsHighSurrogate(s[i - 1])
      {
        if i < |a| {
          assert a[i] == s[i];
          assert a[i - 1] == s[i - 1];
        } else {
          assert b[i - |a|] == s[i];
          assert b[i - |a| - 1] == s[i - 1];
        }
      }
    }
  }

  /** White space as trim sees it: WhiteSpace (tab, vertical tab, form feed,
      space, no-break space, byte order mark and the other Unicode "Zs" space
      separators) and LineTerminator (LF, CR, U+2028, U+2029). */
  predicate IsWhiteSpace(u: CodeUnit) {
    || u == 0x09 || u == 0x0B || u == 0x0C || u == 0x20 || u == 0xA0 || u == 0xFEFF
    || u == 0x1680 || (0x2000 <= u <= 0x200A) || u == 0x202F || u == 0x205F || u == 0x3000
    || u == 0x0A || u == 0x0D || u == 0x2028 || u == 0x2029
  }

  predicate AllWhiteSpace(s: JsString) {
    forall k :: 0 <= k < |s| ==> IsWhiteSpace(s[k])
  }

  /** The first index at or after `i` that does not hold white space. */
  function SkipLeading(s: JsString, i: nat): (j: nat)
    requires i <= |s|
    ensures i <= j <= |s|
    ensures forall k :: i <= k < j ==> IsWhiteSpace(s[k])
    ensures j < |s| ==> !IsWhiteSpace(s[j])
    decreases |s| - i
  {
    if i == |s| || !IsWhiteSpace(s[i]) then i else SkipLeading(s, i + 1)
  }

  /** The end of `s[lo..hi]` once its trailing white space is dropped. */
  function SkipTrailing(s: JsString, lo: nat, hi: nat): (j: nat)
    requires lo <= hi <= |s|
    ensures lo <= j <= hi
    ensures forall k :: j <= k < hi ==> IsWhiteSpace(s[k])
    ensures lo < j ==> !IsWhiteSpace(s[j - 1])
    decreases hi - lo
  {
    if hi == lo || !IsWhiteSpace(s[hi - 1]) then hi else SkipTrailing(s, lo, hi - 1)
  }

  /**
   * String.prototype.trim: `s` without its leading and trailing white space.
   * The result is a slice of `s` surrounded only by white space, it neither
   * starts nor ends with white space, and it is empty exactly when `s` is
   * white space throughout.
   */
  function Trim(s: JsString): (r: JsString)
    ensures exists i, j :: 0 <= i <= j <= |s| && r == s[i..j]
              && AllWhiteSpace(s[..i]) && AllWhiteSpace(s[j..])
    ensures r != [] ==> !IsWhiteSpace(r[0]) && !IsWhiteSpace(r[|r| - 1])
    ensures r == [] <==> AllWhiteSpace(s)
  {
    var i := SkipLeading(s, 0);
    var j := SkipTrailing(s, i, |s|);
    assert AllWhiteSpace(s[..i]) && AllWhiteSpace(s[j..]);
    s[i..j]
  }

  /** Trimming twice is trimming once. */
  lemma TrimIdempotent(s: JsString)
    ensures Trim(Trim(s)) == Trim(s)
  {
    var r := Trim(s);
    if r != [] {
      assert SkipLeading(r, 0) == 0;
      assert SkipTrailing(r, 0, |r|) == |r|;
      assert r[0..|r|] == r;
    }
  }

  lemma WhiteSpaceWellFormed(w: JsString)
    requires AllWhiteSpace(w)
    ensures WellFormed(w)
    ensures forall k :: 0 <= k < |w| ==> !IsSurrogate(w[k])
  {
  }

  /** Trimming neither creates nor removes a lone surrogate. */
  lemma TrimWellFormed(s: JsString)
    ensures WellFormed(Trim(s)) <==> WellFormed(s)
  {
    var r := Trim(s);
    var i, j :| 0 <= i <= j <= |s| && r == s[i..j] && AllWhiteSpace(s[..i]) && AllWhiteSpace(s[j..]);
    var before, after := s[..i], s[j..];
    WhiteSpaceWellFormed(before);
    WhiteSpaceWellFormed(after);
    assert s == before + r + after;
    WellFormedConcat(before, r);
    WellFormedConcat(before + r, after);
  }
}
