/**
 * The JavaScript string methods the two components call:
 * `endsWith`, `toUpperCase` and `replace` with a string pattern.
 */
module Strings {

  /** `s.endsWith(suffix)`. */
  predicate EndsWith(s: string, suffix: string)
  {
    |suffix| <= |s| && s[|s| - |suffix|..] == suffix
  }

  /** A string ends with `suffix` exactly when it is some stem followed by `suffix`. */
  lemma EndsWithIffStem(s: string, suffix: string)
    ensures EndsWith(s, suffix) <==> exists stem :: s == stem + suffix
  {
    if EndsWith(s, suffix) {
      var stem := s[..|s| - |suffix|];
      assert s == stem + suffix;
    }
    if exists stem :: s == stem + suffix {
      var stem :| s == stem + suffix;
      assert s[|s| - |suffix|..] == suffix;
    }
  }

  /** Upper case of one character; only the ASCII letters change. */
  function UpperChar(c: char): (u: char)
  {
    if 'a' <= c <= 'z' then (c as int - 'a' as int + 'A' as int) as char else c
  }

  /** `s.toUpperCase()`, restricted to ASCII case mapping. */
  function ToUpperCase(s: string): (u: string)
    ensures |u| == |s|
    ensures forall i | 0 <= i < |s| :: u[i] == UpperChar(s[i])
  {
    seq(|s|, i requires 0 <= i < |s| => UpperChar(s[i]))
  }

  /** Upper-casing twice is upper-casing once, so an upper-cased key is its own key. */
  lemma ToUpperCaseIdempotent(s: string)
    ensures ToUpperCase(ToUpperCase(s)) == ToUpperCase(s)
  {
  }

  /** Two strings that differ only in the case of ASCII letters have the same upper case. */
  lemma SameUpperCase(a: string, b: string)
    requires |a| == |b|
    requires forall i | 0 <= i < |a| :: a[i] == b[i] || UpperChar(a[i]) == b[i] || a[i] == UpperChar(b[i])
    ensures ToUpperCase(a) == ToUpperCase(b)
  {
  }

  /** `s.replace(pattern, "")`: the first occurrence of `pattern`, if any, is removed. */
  function RemoveFirst(s: string, pattern: string): (r: string)
    requires pattern != []
    ensures |r| == |s| || |r| == |s| - |pattern|
    decreases |s|
  {
    if |pattern| <= |s| && s[..|pattern|] == pattern then s[|pattern|..]
    else if s == [] then []
    else [s[0]] + RemoveFirst(s[1..], pattern)
  }

  /**
   * When `pattern` starts with a character that `s` never contains, the first
   * occurrence in `s + pattern` is the appended one, so removing it gives `s` back.
   */
  lemma {:induction false} RemoveFirstAppended(s: string, pattern: string)
    requires pattern != []
    requires forall i | 0 <= i < |s| :: s[i] != pattern[0]
    ensures RemoveFirst(s + pattern, pattern) == s
  {
    if s == [] {
      assert s + pattern == pattern;
    } else {
      assert (s + pattern)[0] == s[0] != pattern[0];
      assert (s + pattern)[1..] == s[1..] + pattern;
      RemoveFirstAppended(s[1..], pattern);
    }
  }

  /** `pattern` occurs in `s` starting at index `i`. */
  predicate OccursAt(s: string, pattern: string, i: nat)
  {
    i + |pattern| <= |s| && s[i..i + |pattern|] == pattern
  }

  /** An occurrence in `s[1..]` is an occurrence in `s` one place later. */
  lemma OccursAtTail(s: string, pattern: string, j: nat)
    requires s != []
    ensures OccursAt(s[1..], pattern, j) <==> OccursAt(s, pattern, j + 1)
  {
    if j + 1 + |pattern| <= |s| {
      assert s[1..][j..j + |pattern|] == s[j + 1..j + 1 + |pattern|];
    }
  }

  /** With no occurrence of `pattern`, `replace` leaves the text as it is. */
  lemma {:induction false} RemoveFirstAbsent(s: string, pattern: string)
    requires pattern != []
    requires forall j: nat :: !OccursAt(s, pattern, j)
    ensures RemoveFirst(s, pattern) == s
  {
    assert !OccursAt(s, pattern, 0);
    if s != [] {
      forall j: nat ensures !OccursAt(s[1..], pattern, j) {
        OccursAtTail(s, pattern, j);
      }
      RemoveFirstAbsent(s[1..], pattern);
    }
  }

  /** `replace` removes the first occurrence of `pattern` and keeps everything around it. */
  lemma {:induction false} RemoveFirstAt(s: string, pattern: string, i: nat)
    requires pattern != []
    requires OccursAt(s, pattern, i)
    requires forall j: nat | j < i :: !OccursAt(s, pattern, j)
    ensures RemoveFirst(s, pattern) == s[..i] + s[i + |pattern|..]
  {
    if i == 0 {
      assert s[..|pattern|] == pattern;
    } else {
      assert !OccursAt(s, pattern, 0);
      OccursAtTail(s, pattern, i - 1);
      forall j: nat | j < i - 1 ensures !OccursAt(s[1..], pattern, j) {
        OccursAtTail(s, pattern, j);
      }
      RemoveFirstAt(s[1..], pattern, i - 1);
      assert [s[0]] + s[1..][..i - 1] == s[..i];
      assert s[1..][i - 1 + |pattern|..] == s[i + |pattern|..];
    }
  }
}
