/** The email format check of the contact form: the pattern
    `^[^\s@]+@[^\s@]+\.[^\s@]+$` written out over characters, and the plain
    description it is equivalent to. */
module EmailFormat {
  import opened JsString

  /** A character of the class `[^\s@]`. */
  predicate IsRunChar(c: char) {
    !IsWs(c) && c != '@'
  }

  /** A match of `[^\s@]+`: one or more characters of that class. */
  predicate IsRun(t: string) {
    |t| > 0 && forall i :: 0 <= i < |t| ==> IsRunChar(t[i])
  }

  /** `s` matches the whole pattern with its `@` at index `a` and its literal
      `.` at index `d`: `s[..a]`, `s[a+1..d]` and `s[d+1..]` are the three
      runs. */
  predicate SplitsAt(s: string, a: int, d: int) {
    && 0 <= a < d < |s|
    && s[a] == '@' && s[d] == '.'
    && IsRun(s[..a]) && IsRun(s[a + 1..d]) && IsRun(s[d + 1..])
  }

  /** `isValidEmail`: the anchored pattern matches `s` for some choice of the
      `@` and the `.` (the regular expression backtracks over every such
      choice). */
  predicate IsValidEmail(s: string) {
    exists a, d | 0 <= a < d < |s| :: SplitsAt(s, a, d)
  }

  /** Number of occurrences of `c` in `s`. */
  function CountOf(s: string, c: char): (n: nat)
    ensures n <= |s|
    ensures n == 0 <==> c !in s
  {
    if s == [] then 0 else (if s[0] == c then 1 else 0) + CountOf(s[1..], c)
  }

  /** Index of the first occurrence of `c` in `s`. */
  function IndexOf(s: string, c: char): (i: nat)
    requires c in s
    ensures i < |s| && s[i] == c && c !in s[..i]
  {
    if s[0] == c then 0 else 1 + IndexOf(s[1..], c)
  }

  /** Some `.` of `t` is neither its first nor its last character. */
  predicate HasInnerDot(t: string) {
    exists e :: 0 < e < |t| - 1 && t[e] == '.'
  }

  /** The format in plain words: no whitespace anywhere, exactly one `@`, a
      non-empty part before it, and a `.` strictly inside the part after it. */
  predicate EmailShape(s: string) {
    && HasNoWs(s)
    && CountOf(s, '@') == 1
    && var k := IndexOf(s, '@');
       k > 0 && HasInnerDot(s[k + 1..])
  }

  /** With `c` at index `k`, `c` occurs exactly once in `s` iff it occurs
      nowhere else. */
  lemma {:induction false} CountOneIffOnlyAt(s: string, c: char, k: nat)
    requires k < |s| && s[k] == c
    ensures CountOf(s, c) == 1 <==> forall i :: 0 <= i < |s| && i != k ==> s[i] != c
  {
    if k == 0 {
      assert forall i :: 0 < i < |s| ==> s[i] == s[1..][i - 1];
      assert c !in s[1..] <==> forall i :: 0 <= i < |s| - 1 ==> s[1..][i] != c;
    } else {
      CountOneIffOnlyAt(s[1..], c, k - 1);
      assert forall i :: 0 < i < |s| ==> s[i] == s[1..][i - 1];
      if s[0] == c {
        assert CountOf(s[1..], c) > 0;
      }
    }
  }

  /** A match of the pattern has the plain shape. */
  lemma ValidHasShape(s: string)
    requires IsValidEmail(s)
    ensures EmailShape(s)
  {
    var a, d :| 0 <= a < d < |s| && SplitsAt(s, a, d);
    assert forall i :: 0 <= i < a ==> s[i] == s[..a][i];
    assert forall i :: a < i < d ==> s[i] == s[a + 1..d][i - a - 1];
    assert forall i :: d < i < |s| ==> s[i] == s[d + 1..][i - d - 1];
    assert forall i :: 0 <= i < |s| && i != a ==> IsRunChar(s[i]);
    CountOneIffOnlyAt(s, '@', a);
    var k := IndexOf(s, '@');
    assert k == a;
    assert s[k + 1..][d - a - 1] == '.';
  }

  /** A string of the plain shape matches the pattern, splitting at its
      only `@` and at an inner `.` after it. */
  lemma ShapeIsValid(s: string)
    requires EmailShape(s)
    ensures IsValidEmail(s)
  {
    var k := IndexOf(s, '@');
    CountOneIffOnlyAt(s, '@', k);
    var e :| 0 < e < |s[k + 1..]| - 1 && s[k + 1..][e] == '.';
    var d := k + 1 + e;
    assert s[d] == '.';
    assert IsRun(s[..k]);
    assert IsRun(s[k + 1..d]);
    assert IsRun(s[d + 1..]);
    assert SplitsAt(s, k, d);
  }

  /** The pattern and the plain description accept the same strings. */
  lemma IsValidEmailIffShape(s: string)
    ensures IsValidEmail(s) <==> EmailShape(s)
  {
    if IsValidEmail(s) {
      ValidHasShape(s);
    }
    if EmailShape(s) {
      ShapeIsValid(s);
    }
  }

  /** A string with any whitespace in it never passes, wherever it sits. */
  lemma WhitespaceNeverValid(s: string, i: nat)
    requires i < |s| && IsWs(s[i])
    ensures !IsValidEmail(s)
  {
    if IsValidEmail(s) {
      ValidHasShape(s);
    }
  }

  /** The shortest accepted form: one character on each side of the `@` and
      of the `.`, here with a two-letter last part. */
  lemma AcceptsShortest()
    ensures IsValidEmail("a@b.co")
  {
    assert SplitsAt("a@b.co", 1, 3);
  }

  /** Near misses: no `@`, no `.` after the `@`, two `@`, a `.` only before
      the `@`, and nothing before the `@`. */
  lemma RejectsNearMisses()
    ensures !IsValidEmail("abc")
    ensures !IsValidEmail("abc@def")
    ensures !IsValidEmail("a@b@c.d")
    ensures !IsValidEmail("a.b@c")
    ensures !IsValidEmail("@b.co")
  {
    IsValidEmailIffShape("a@b@c.d");
  }
}
