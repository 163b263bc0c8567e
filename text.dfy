/**
 * Whitespace handling of the JavaScript runtime, as the components use it:
 * `String.prototype.trim` (used on task names and on the import text) and the
 * ASCII whitespace that `atob` skips.
 */
module Text {

  /** WhiteSpace and LineTerminator code points of ECMA-262: what `trim` removes. */
  predicate IsJsWhitespace(c: char) {
    || c == '\t' || c == '\n' || c == '\U{000B}' || c == '\U{000C}' || c == '\r' || c == ' '
    || c == '\U{00A0}' || c == '\U{1680}' || ('\U{2000}' <= c <= '\U{200A}')
    || c == '\U{2028}' || c == '\U{2029}' || c == '\U{202F}' || c == '\U{205F}'
    || c == '\U{3000}' || c == '\U{FEFF}'
  }

  /** ASCII whitespace of the WHATWG Infra standard (tab, LF, FF, CR, space). */
  predicate IsAsciiWhitespace(c: char) {
    c == '\t' || c == '\n' || c == '\U{000C}' || c == '\r' || c == ' '
  }

  /** Drops leading JavaScript whitespace; the result is a suffix of `s`. */
  function TrimStart(s: string): (r: string)
    ensures |r| <= |s| && r == s[|s| - |r|..]
    ensures r == [] || !IsJsWhitespace(r[0])
    ensures forall i :: 0 <= i < |s| - |r| ==> IsJsWhitespace(s[i])
  {
    if |s| > 0 && IsJsWhitespace(s[0]) then TrimStart(s[1..]) else s
  }

  /** Drops trailing JavaScript whitespace; the result is a prefix of `s`. */
  function TrimEnd(s: string): (r: string)
    ensures |r| <= |s| && r == s[..|r|]
    ensures r == [] || !IsJsWhitespace(r[|r| - 1])
    ensures forall i :: |r| <= i < |s| ==> IsJsWhitespace(s[i])
  {
    if |s| > 0 && IsJsWhitespace(s[|s| - 1]) then TrimEnd(s[..|s| - 1]) else s
  }

  /** `s.trim()`. */
  function Trim(s: string): (r: string)
    ensures |r| <= |s|
    ensures r == [] || (!IsJsWhitespace(r[0]) && !IsJsWhitespace(r[|r| - 1]))
  {
    var t := TrimStart(s);
    var u := TrimEnd(t);
    assert u == [] || u[0] == t[0];
    u
  }

  /** `r` is `s[a..b]`, and everything of `s` outside that slice is whitespace. */
  ghost predicate SliceWithWhitespaceAround(s: string, a: int, b: int, r: string) {
    && 0 <= a <= b <= |s| && r == s[a..b]
    && (forall i :: 0 <= i < a ==> IsJsWhitespace(s[i]))
    && (forall i :: b <= i < |s| ==> IsJsWhitespace(s[i]))
  }

  /**
   * `s.trim()` is the slice of `s` between its first and last non-whitespace
   * characters: everything cut off is whitespace, and the ends that remain are not.
   */
  lemma TrimIsInnerSlice(s: string)
    ensures exists a, b :: SliceWithWhitespaceAround(s, a, b, Trim(s))
    ensures Trim(s) == [] || (!IsJsWhitespace(Trim(s)[0]) && !IsJsWhitespace(Trim(s)[|Trim(s)| - 1]))
  {
    var t := TrimStart(s);
    var u := TrimEnd(t);
    InnerSlice(s, t, u);
    assert Trim(s) == u;
    assert SliceWithWhitespaceAround(s, |s| - |t|, |s| - |t| + |u|, Trim(s));
    if u != [] {
      assert u[0] == t[0];
    }
  }

  /** A prefix `u` of a suffix `t` of `s`, with whitespace cut off around it, is a slice of `s` with whitespace around. */
  lemma InnerSlice(s: string, t: string, u: string)
    requires |t| <= |s| && t == s[|s| - |t|..] && |u| <= |t| && u == t[..|u|]
    requires forall i :: 0 <= i < |s| - |t| ==> IsJsWhitespace(s[i])
    requires forall i :: |u| <= i < |t| ==> IsJsWhitespace(t[i])
    ensures SliceWithWhitespaceAround(s, |s| - |t|, |s| - |t| + |u|, u)
  {
    var a := |s| - |t|;
    assert forall i :: a + |u| <= i < |s| ==> s[i] == t[i - a];
  }

  /** The empty-input guard `s.trim() === ""` holds exactly when every character is whitespace. */
  lemma {:induction false} TrimEmptyIffBlank(s: string)
    ensures Trim(s) == [] <==> forall i :: 0 <= i < |s| ==> IsJsWhitespace(s[i])
  {
    var t := TrimStart(s);
    if Trim(s) == [] {
      forall i | 0 <= i < |s| ensures IsJsWhitespace(s[i]) {
        if i >= |s| - |t| {
          assert s[i] == t[i - (|s| - |t|)];
        }
      }
    } else {
      assert t != [] && !IsJsWhitespace(t[0]);
      assert s[|s| - |t|] == t[0];
    }
  }

  /** Trimming twice is trimming once. */
  lemma TrimIdempotent(s: string)
    ensures Trim(Trim(s)) == Trim(s)
  {
    var t := Trim(s);
    TrimIsInnerSlice(s);
    assert TrimStart(t) == t;
    assert TrimEnd(t) == t;
  }

  /** A string that neither starts nor ends with whitespace is its own trim. */
  lemma TrimKeepsUnpadded(s: string)
    requires s == [] || (!IsJsWhitespace(s[0]) && !IsJsWhitespace(s[|s| - 1]))
    ensures Trim(s) == s
  {
    assert TrimStart(s) == s;
  }

  /** Removes every ASCII whitespace character, keeping the others in order. */
  function StripAsciiWhitespace(s: string): (r: string)
    ensures |r| <= |s|
    ensures forall i :: 0 <= i < |r| ==> !IsAsciiWhitespace(r[i])
    ensures (forall i :: 0 <= i < |s| ==> !IsAsciiWhitespace(s[i])) ==> r == s
    ensures forall c :: c in s && !IsAsciiWhitespace(c) ==> c in r
    ensures forall c :: c in r ==> c in s
  {
    if s == [] then []
    else if IsAsciiWhitespace(s[0]) then StripAsciiWhitespace(s[1..])
    else [s[0]] + StripAsciiWhitespace(s[1..])
  }

  /** Whitespace removal works piece by piece, so the kept characters stay in their order. */
  lemma {:induction false} StripAsciiWhitespaceAppend(a: string, b: string)
    ensures StripAsciiWhitespace(a + b) == StripAsciiWhitespace(a) + StripAsciiWhitespace(b)
  {
    if a != [] {
      assert (a + b)[0] == a[0] && (a + b)[1..] == a[1..] + b;
      StripAsciiWhitespaceAppend(a[1..], b);
    } else {
      assert a + b == b;
    }
  }
}
