/** The two JavaScript string primitives the form depends on: the whitespace
    class shared by `String.prototype.trim` and the regular-expression escape
    `\s`, and `trim` itself. */
module JsString {

  /** The WhiteSpace and LineTerminator code points of ECMA-262: exactly what
      `trim` strips and what `\s` matches. */
  predicate IsWs(c: char) {
    || c == '\t' || c == '\U{000B}' || c == '\U{000C}' || c == ' '
    || c == '\U{00A0}' || c == '\U{FEFF}' || c == '\U{1680}'
    || ('\U{2000}' <= c <= '\U{200A}')
    || c == '\U{202F}' || c == '\U{205F}' || c == '\U{3000}'
    || c == '\n' || c == '\r' || c == '\U{2028}' || c == '\U{2029}'
  }

  /** Every character of `s` is whitespace (the empty string included). */
  predicate IsBlank(s: string) {
    forall i :: 0 <= i < |s| ==> IsWs(s[i])
  }

  /** No character of `s` is whitespace. */
  predicate HasNoWs(s: string) {
    forall i :: 0 <= i < |s| ==> !IsWs(s[i])
  }

  /** `String.prototype.trim`: `s` without its leading and trailing
      whitespace. It is empty exactly when `s` is blank, and otherwise neither
      starts nor ends with whitespace. */
  function Trim(s: string): (r: string)
    ensures r == [] <==> IsBlank(s)
    ensures r != [] ==> !IsWs(r[0]) && !IsWs(r[|r| - 1])
    ensures |r| <= |s|
    decreases |s|
  {
    if s != [] && IsWs(s[0]) then Trim(s[1..])
    else if s != [] && IsWs(s[|s| - 1]) then Trim(s[..|s| - 1])
    else s
  }

  /** `trim` removes exactly the leading and the trailing whitespace: its
      result is a slice of `s` with only whitespace before and after it.
      With the ends of the result not whitespace (the contract of `Trim`),
      that slice is the only one. */
  lemma TrimIsSlice(s: string)
    ensures exists i, j :: 0 <= i <= j <= |s| && Trim(s) == s[i..j] && IsBlank(s[..i]) && IsBlank(s[j..])
  {
    var i, j := TrimBounds(s);
  }

  /** The bounds of the slice `trim` keeps. */
  lemma {:induction false} TrimBounds(s: string) returns (i: nat, j: nat)
    ensures i <= j <= |s| && Trim(s) == s[i..j] && IsBlank(s[..i]) && IsBlank(s[j..])
    decreases |s|
  {
    if s != [] && IsWs(s[0]) {
      var i', j' := TrimBounds(s[1..]);
      i, j := i' + 1, j' + 1;
      SliceAfterLeadingWs(s, i', j');
    } else if s != [] && IsWs(s[|s| - 1]) {
      i, j := TrimBounds(s[..|s| - 1]);
      SliceBeforeTrailingWs(s, i, j);
    } else {
      i, j := 0, |s|;
      assert s[..0] == [] && s[|s|..] == [];
    }
  }

  /** A blank-bounded slice of `s[1..]` is one of `s` when `s[0]` is
      whitespace. */
  lemma SliceAfterLeadingWs(s: string, i: nat, j: nat)
    requires s != [] && IsWs(s[0])
    requires i <= j <= |s| - 1 && IsBlank(s[1..][..i]) && IsBlank(s[1..][j..])
    ensures s[1..][i..j] == s[i + 1..j + 1]
    ensures IsBlank(s[..i + 1]) && IsBlank(s[j + 1..])
  {
    assert s[1..][j..] == s[j + 1..];
    assert forall k :: 0 <= k < i ==> s[1..][..i][k] == s[k + 1];
  }

  /** A blank-bounded slice of `s` without its last character is one of `s`
      when that character is whitespace. */
  lemma SliceBeforeTrailingWs(s: string, i: nat, j: nat)
    requires s != [] && IsWs(s[|s| - 1])
    requires i <= j <= |s| - 1 && IsBlank(s[..|s| - 1][..i]) && IsBlank(s[..|s| - 1][j..])
    ensures s[..|s| - 1][i..j] == s[i..j]
    ensures IsBlank(s[..i]) && IsBlank(s[j..])
  {
    assert s[..|s| - 1][..i] == s[..i];
    assert forall k :: 0 <= k < |s| - 1 - j ==> s[j..][k] == s[..|s| - 1][j..][k];
  }
}
