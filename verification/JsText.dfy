/**
 * The three string operations of the engine: `String.prototype.trim`,
 * `toLowerCase` (on the ASCII letters only) and `includes`.
 */
module JsText {

  /**
   * The characters `trim` removes: ECMAScript's WhiteSpace (tab, vertical tab,
   * form feed, space, no-break space, byte order mark and the other Zs space
   * separators) and LineTerminator (line feed, carriage return, U+2028, U+2029).
   */
  predicate IsWhitespace(c: char) {
    c == '\t' || c == '\n' || c == '\U{000B}' || c == '\U{000C}' || c == '\r' || c == ' '
    || c == '\U{00A0}' || c == '\U{1680}' || ('\U{2000}' <= c <= '\U{200A}')
    || c == '\U{2028}' || c == '\U{2029}' || c == '\U{202F}' || c == '\U{205F}'
    || c == '\U{3000}' || c == '\U{FEFF}'
  }

  ghost predicate AllWhitespace(s: string) {
    forall i :: 0 <= i < |s| ==> IsWhitespace(s[i])
  }

  /** `s` without its leading whitespace: a suffix of `s`. */
  function TrimStart(s: string): (r: string)
    ensures |r| <= |s|
    ensures r == [] || !IsWhitespace(r[0])
  {
    if s != [] && IsWhitespace(s[0]) then TrimStart(s[1..]) else s
  }

  /** `TrimStart` keeps a suffix of `s`. */
  lemma {:induction false} TrimStartSuffix(s: string)
    ensures TrimStart(s) == s[|s| - |TrimStart(s)|..]
  {
    if s != [] && IsWhitespace(s[0]) {
      TrimStartSuffix(s[1..]);
      assert s[1..][|s| - 1 - |TrimStart(s)|..] == s[|s| - |TrimStart(s)|..];
    }
  }

  /** Everything `TrimStart` drops is whitespace. */
  lemma {:induction false} TrimStartDropsWhitespace(s: string)
    ensures forall i :: 0 <= i < |s| - |TrimStart(s)| ==> IsWhitespace(s[i])
  {
    if s != [] && IsWhitespace(s[0]) {
      TrimStartDropsWhitespace(s[1..]);
      assert TrimStart(s) == TrimStart(s[1..]);
      forall i | 1 <= i < |s| - |TrimStart(s)| ensures IsWhitespace(s[i]) {
        assert s[i] == s[1..][i - 1];
      }
    }
  }

  /** `s` without its trailing whitespace: a prefix of `s`. */
  function TrimEnd(s: string): (r: string)
    ensures |r| <= |s|
    ensures r == [] || !IsWhitespace(r[|r| - 1])
  {
    if s != [] && IsWhitespace(s[|s| - 1]) then TrimEnd(s[..|s| - 1]) else s
  }

  /** `TrimEnd` keeps a prefix of `s`. */
  lemma {:induction false} TrimEndPrefix(s: string)
    ensures TrimEnd(s) == s[..|TrimEnd(s)|]
  {
    if s != [] && IsWhitespace(s[|s| - 1]) {
      TrimEndPrefix(s[..|s| - 1]);
      assert s[..|s| - 1][..|TrimEnd(s)|] == s[..|TrimEnd(s)|];
    }
  }

  /** Everything `TrimEnd` drops is whitespace. */
  lemma {:induction false} TrimEndDropsWhitespace(s: string)
    ensures forall i :: |TrimEnd(s)| <= i < |s| ==> IsWhitespace(s[i])
  {
    if s != [] && IsWhitespace(s[|s| - 1]) {
      TrimEndDropsWhitespace(s[..|s| - 1]);
      assert TrimEnd(s) == TrimEnd(s[..|s| - 1]);
      forall i | |TrimEnd(s)| <= i < |s| - 1 ensures IsWhitespace(s[i]) {
        assert s[i] == s[..|s| - 1][i];
      }
    }
  }

  /** The part of `s` that `TrimStart` drops is all whitespace. */
  lemma LeadingWhitespace(s: string)
    ensures AllWhitespace(s[..|s| - |TrimStart(s)|])
  {
    TrimStartDropsWhitespace(s);
    var p := s[..|s| - |TrimStart(s)|];
    assert forall k :: 0 <= k < |p| ==> p[k] == s[k];
  }

  /** The part of `s` that `TrimEnd` drops is all whitespace. */
  lemma TrailingWhitespace(s: string)
    ensures AllWhitespace(s[|TrimEnd(s)|..])
  {
    TrimEndDropsWhitespace(s);
    var p := s[|TrimEnd(s)|..];
    assert forall k :: 0 <= k < |p| ==> p[k] == s[|TrimEnd(s)| + k];
  }

  /**
   * A prefix `u` of a suffix `t` of `s` is a slice of `s`; whitespace before
   * `t` and after `u` is whitespace before and after that slice.
   */
  lemma MiddleSlice(s: string, t: string, u: string)
    requires |t| <= |s| && t == s[|s| - |t|..]
    requires |u| <= |t| && u == t[..|u|]
    requires AllWhitespace(s[..|s| - |t|]) && AllWhitespace(t[|u|..])
    ensures var i := |s| - |t|; var j := i + |u|;
      && 0 <= i <= j <= |s|
      && u == s[i..j]
      && AllWhitespace(s[..i])
      && AllWhitespace(s[j..])
    ensures u == [] ==> AllWhitespace(s)
  {
    var j := |s| - |t| + |u|;
    assert t[|u|..] == s[j..];
    if u == [] {
      WhitespaceEnds(s, j);
    }
  }

  /** When nothing is left between the whitespace ends, all of `s` is whitespace. */
  lemma WhitespaceEnds(s: string, i: int)
    requires 0 <= i <= |s|
    requires AllWhitespace(s[..i]) && AllWhitespace(s[i..])
    ensures AllWhitespace(s)
  {
    forall k | 0 <= k < |s| ensures IsWhitespace(s[k]) {
      if k < i {
        assert s[k] == s[..i][k];
      } else {
        assert s[k] == s[i..][k - i];
      }
    }
  }

  /** An all-whitespace string trims to nothing. */
  lemma {:induction false} TrimStartAllWhitespace(s: string)
    requires AllWhitespace(s)
    ensures TrimStart(s) == []
  {
    if s != [] {
      assert AllWhitespace(s[1..]) by {
        assert forall k :: 0 <= k < |s| - 1 ==> s[1..][k] == s[k + 1];
      }
      TrimStartAllWhitespace(s[1..]);
    }
  }

  /** What is left after trimming both ends is empty exactly for an all-whitespace string. */
  lemma TrimBothEndsEmpty(s: string)
    ensures TrimEnd(TrimStart(s)) == [] <==> AllWhitespace(s)
  {
    var t := TrimStart(s);
    TrimStartSuffix(s);
    TrimEndPrefix(t);
    LeadingWhitespace(s);
    TrailingWhitespace(t);
    MiddleSlice(s, t, TrimEnd(t));
    if AllWhitespace(s) {
      TrimStartAllWhitespace(s);
    }
  }

  /**
   * `s.trim()`: the middle of `s` left when its leading and trailing
   * whitespace is cut off.
   */
  function Trim(s: string): (r: string)
    ensures |r| <= |s|
    ensures r == [] || (!IsWhitespace(r[0]) && !IsWhitespace(r[|r| - 1]))
    ensures r == [] <==> AllWhitespace(s)
  {
    var t := TrimStart(s);
    TrimBothEndsEmpty(s);
    TrimEndPrefix(t);
    assert TrimEnd(t) != [] ==> TrimEnd(t)[0] == t[0];
    TrimEnd(t)
  }

  /**
   * What `trim` keeps is a slice of `s` cut out of whitespace on both sides:
   * only leading and trailing whitespace is removed.
   */
  lemma TrimIsMiddle(s: string)
    ensures exists i, j :: 0 <= i <= j <= |s| && Trim(s) == s[i..j] && AllWhitespace(s[..i]) && AllWhitespace(s[j..])
  {
    var t := TrimStart(s);
    TrimStartSuffix(s);
    TrimEndPrefix(t);
    LeadingWhitespace(s);
    TrailingWhitespace(t);
    MiddleSlice(s, t, TrimEnd(t));
    var i := |s| - |t|;
    var j := i + |TrimEnd(t)|;
    assert Trim(s) == s[i..j];
  }

  /** `c.toLowerCase()` for the ASCII capitals; every other character is kept. */
  function LowerChar(c: char): char {
    if 'A' <= c <= 'Z' then (c as int + 32) as char else c
  }

  /** A string with no whitespace at either end comes back from `Trim` unchanged. */
  lemma TrimUnpadded(s: string)
    requires s == [] || (!IsWhitespace(s[0]) && !IsWhitespace(s[|s| - 1]))
    ensures Trim(s) == s
  {
    assert TrimStart(s) == s;
  }

  /** `s.toLowerCase()`, character by character. */
  function ToLower(s: string): (r: string)
    ensures |r| == |s|
  {
    seq(|s|, i requires 0 <= i < |s| => LowerChar(s[i]))
  }

  /** Lower-casing a lower-cased string changes nothing. */
  lemma ToLowerIdempotent(s: string)
    ensures ToLower(ToLower(s)) == ToLower(s)
  {
  }

  /** `hay.includes(needle)`: `needle` starts `hay` or occurs further on. */
  predicate Includes(hay: string, needle: string)
    decreases |hay|
  {
    needle <= hay || (hay != [] && Includes(hay[1..], needle))
  }

  /** `Includes` finds `needle` exactly when it occurs in `hay` at some position. */
  lemma {:induction false} IncludesAt(hay: string, needle: string)
    ensures Includes(hay, needle) <==> exists i :: 0 <= i <= |hay| && needle <= hay[i..]
  {
    if hay != [] {
      IncludesAt(hay[1..], needle);
      forall i | 1 <= i <= |hay| ensures hay[i..] == hay[1..][i - 1..] {
      }
      if !(needle <= hay) && exists i :: 0 <= i <= |hay| && needle <= hay[i..] {
        var i :| 0 <= i <= |hay| && needle <= hay[i..];
        assert i != 0;
        assert needle <= hay[1..][i - 1..];
      }
    } else {
      assert hay[0..] == hay;
    }
  }
}
