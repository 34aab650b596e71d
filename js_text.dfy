/**
 * The one piece of JavaScript string handling the handlers rely on:
 * `String.prototype.trim`, which removes leading and trailing white space
 * and line terminators as the ECMAScript standard defines them (the
 * WhiteSpace and LineTerminator productions of its lexical grammar).
 */
module JsText {

  /** ECMAScript WhiteSpace (TAB, VT, FF, SP, NBSP, ZWNBSP and every Zs
      character) and LineTerminator (LF, CR, LS, PS). */
  predicate IsWhitespace(c: char) {
    || c == '\t' || c == '\U{000B}' || c == '\U{000C}' || c == ' '
    || c == '\U{00A0}' || c == '\U{FEFF}'
    || c == '\U{1680}' || ('\U{2000}' <= c <= '\U{200A}')
    || c == '\U{202F}' || c == '\U{205F}' || c == '\U{3000}'
    || c == '\n' || c == '\r' || c == '\U{2028}' || c == '\U{2029}'
  }

  /** Every character of `s` is white space (vacuously true of ""). */
  predicate AllWhitespace(s: string) {
    forall i :: 0 <= i < |s| ==> IsWhitespace(s[i])
  }

  /** `s` has no white space at either end (vacuously true of ""). */
  predicate IsTrimmed(s: string) {
    s == [] || (!IsWhitespace(s[0]) && !IsWhitespace(s[|s| - 1]))
  }

  /** `s` with its leading white space removed: a suffix of `s`, everything
      dropped is white space, and what is left does not start with any. */
  function TrimStart(s: string): (r: string)
    ensures |r| <= |s| && r == s[|s| - |r|..]
    ensures AllWhitespace(s[..|s| - |r|])
    ensures r != [] ==> !IsWhitespace(r[0])
  {
    if s != [] && IsWhitespace(s[0]) then
      var t := s[1..];
      var r := TrimStart(t);
      // the dropped prefix is the first character followed by what the recursive call dropped
      assert s[|s| - |r|..] == t[|t| - |r|..];
      var dropped := s[..|s| - |r|];
      forall i | 0 <= i < |dropped|
        ensures IsWhitespace(dropped[i])
      {
        if i > 0 {
          assert dropped[i] == t[..|t| - |r|][i - 1];
        }
      }
      r
    else s
  }

  /** `s` with its trailing white space removed: a prefix of `s`, everything
      dropped is white space, and what is left does not end with any. */
  function TrimEnd(s: string): (r: string)
    ensures |r| <= |s| && r == s[..|r|]
    ensures AllWhitespace(s[|r|..])
    ensures r != [] ==> !IsWhitespace(r[|r| - 1])
  {
    if s != [] && IsWhitespace(s[|s| - 1]) then
      var t := s[..|s| - 1];
      var r := TrimEnd(t);
      // the dropped suffix is what the recursive call dropped followed by the last character
      assert s[..|r|] == t[..|r|];
      var dropped := s[|r|..];
      forall i | 0 <= i < |dropped|
        ensures IsWhitespace(dropped[i])
      {
        if i < |dropped| - 1 {
          assert dropped[i] == t[|r|..][i];
        }
      }
      r
    else s
  }

  /** JavaScript's `s.trim()`: the infix of `s` left once white space is
      removed at both ends. It is empty exactly when `s` is all white space,
      and otherwise starts and ends with a non-white-space character. */
  function Trim(s: string): (r: string)
    ensures |r| <= |s|
    ensures r == [] <==> AllWhitespace(s)
    ensures IsTrimmed(r)
  {
    var t := TrimStart(s);
    var r := TrimEnd(t);
    assert r == [] ==> AllWhitespace(s) by {
      if r == [] {
        // a non-empty t would start with white space, which TrimStart rules out
        assert t == [] by {
          assert t == t[|r|..];
        }
        assert s == s[..|s| - |t|];
      }
    }
    assert r != [] ==> !AllWhitespace(s) by {
      if r != [] {
        assert s[|s| - |t|] == t[0];
      }
    }
    r
  }

  /** A string that already has no white space at either end is its own trim. */
  lemma TrimOfTrimmed(s: string)
    requires IsTrimmed(s)
    ensures Trim(s) == s
  {
    assert TrimStart(s) == s;
    assert TrimEnd(s) == s;
  }

  /** Trimming twice is trimming once. */
  lemma TrimIdempotent(s: string)
    ensures Trim(Trim(s)) == Trim(s)
  {
    TrimOfTrimmed(Trim(s));
  }

  /** A trimmed, non-blank key padded with white space on either side trims back to itself:
      `("  " + k + "\n").trim() == k` for a key `k` that is already trimmed. */
  lemma {:induction false} TrimIgnoresPadding(pre: string, k: string, post: string)
    requires AllWhitespace(pre) && AllWhitespace(post)
    requires k != [] && IsTrimmed(k)
    ensures Trim(pre + k + post) == k
  {
    var rest := k + post;
    assert pre + k + post == pre + rest;
    TrimStartSkips(pre, rest);
    TrimEndSkips(k, post);
  }

  lemma {:induction false} TrimStartSkips(pre: string, rest: string)
    requires AllWhitespace(pre)
    requires rest != [] && !IsWhitespace(rest[0])
    ensures TrimStart(pre + rest) == rest
  {
    if pre != [] {
      assert (pre + rest)[1..] == pre[1..] + rest;
      TrimStartSkips(pre[1..], rest);
    } else {
      assert pre + rest == rest;
    }
  }

  lemma {:induction false} TrimEndSkips(rest: string, post: string)
    requires AllWhitespace(post)
    requires rest != [] && !IsWhitespace(rest[|rest| - 1])
    ensures TrimEnd(rest + post) == rest
  {
    if post != [] {
      var n := |rest + post|;
      assert (rest + post)[..n - 1] == rest + post[..|post| - 1];
      assert (rest + post)[n - 1] == post[|post| - 1];
      TrimEndSkips(rest, post[..|post| - 1]);
    } else {
      assert rest + post == rest;
    }
  }
}
