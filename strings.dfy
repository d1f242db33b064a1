/**
  Character classes and sequence scans shared by the recognizer and the
  three triggers: the whitespace class of JavaScript regular expressions,
  ASCII case folding, and the longest run at either end of a sequence.
 */
module Strings {

  /** JavaScript's `\s`, which is also the set `String.prototype.trim` removes:
      the WhiteSpace and LineTerminator code points of ECMAScript. */
  predicate IsWs(c: char) {
    || c == ' ' || c == '\t' || c == '\n' || c == '\r'
    || c == '\U{000B}' || c == '\U{000C}' || c == '\U{00A0}' || c == '\U{1680}'
    || ('\U{2000}' <= c <= '\U{200A}')
    || c == '\U{2028}' || c == '\U{2029}' || c == '\U{202F}' || c == '\U{205F}'
    || c == '\U{3000}' || c == '\U{FEFF}'
  }

  /** `[^\s]` */
  predicate NotWs(c: char) {
    !IsWs(c)
  }

  predicate NoWs(s: seq<char>) {
    forall i :: 0 <= i < |s| ==> !IsWs(s[i])
  }

  /** Case folding of a regular expression with the `i` flag and without `u`:
      no character outside ASCII folds onto an ASCII letter, so only `A`-`Z` change. */
  function Lower(c: char): (l: char)
    ensures 'A' <= c <= 'Z' ==> 'a' <= l <= 'z' && l as int - c as int == 32
    ensures !('A' <= c <= 'Z') ==> l == c
  {
    if 'A' <= c <= 'Z' then (c as int + 32) as char else c
  }

  /** `s` starts with the lower-case literal `lit`, ignoring ASCII case. */
  predicate FoldedPrefix(s: seq<char>, lit: seq<char>) {
    |lit| <= |s| && forall i :: 0 <= i < |lit| ==> Lower(s[i]) == lit[i]
  }

  /** Membership in `set` as a predicate value, so that every caller names the same function. */
  function InSet<T>(members: set<T>): T -> bool {
    x => x in members
  }

  /** Length of the longest tail of `s` whose elements all satisfy `p`. */
  function TailLength<T>(s: seq<T>, p: T -> bool): (k: nat)
    ensures k <= |s|
    ensures forall i :: |s| - k <= i < |s| ==> p(s[i])
    ensures k < |s| ==> !p(s[|s| - k - 1])
    decreases |s|
  {
    if |s| > 0 && p(s[|s| - 1]) then TailLength(s[..|s| - 1], p) + 1 else 0
  }

  /** Length of the longest head of `s` whose elements all satisfy `p`. */
  function HeadLength<T>(s: seq<T>, p: T -> bool): (k: nat)
    ensures k <= |s|
    ensures forall i :: 0 <= i < k ==> p(s[i])
    ensures k < |s| ==> !p(s[k])
    decreases |s|
  {
    if |s| > 0 && p(s[0]) then HeadLength(s[1..], p) + 1 else 0
  }

  /** The three properties of `TailLength` determine it: any tail length that
      satisfies them is the one `TailLength` computes. */
  lemma {:induction false} TailLengthUnique<T>(s: seq<T>, p: T -> bool, k: nat)
    requires k <= |s|
    requires forall i :: |s| - k <= i < |s| ==> p(s[i])
    requires k < |s| ==> !p(s[|s| - k - 1])
    ensures TailLength(s, p) == k
    decreases |s|
  {
    if k > 0 {
      var init := s[..|s| - 1];
      assert p(s[|s| - 1]);
      forall i | |init| - (k - 1) <= i < |init| ensures p(init[i]) {
        assert init[i] == s[i];
      }
      if k - 1 < |init| {
        assert init[|init| - (k - 1) - 1] == s[|s| - k - 1];
      }
      TailLengthUnique(init, p, k - 1);
    }
  }

  /** A tail of length `k` all of whose elements satisfy `p` is no longer
      than the longest such tail. */
  lemma {:induction false} TailLengthAtLeast<T>(s: seq<T>, p: T -> bool, k: nat)
    requires k <= |s|
    requires forall i :: |s| - k <= i < |s| ==> p(s[i])
    ensures TailLength(s, p) >= k
    decreases |s|
  {
    if k > 0 {
      var init := s[..|s| - 1];
      assert p(s[|s| - 1]);
      forall i | |init| - (k - 1) <= i < |init| ensures p(init[i]) {
        assert init[i] == s[i];
      }
      TailLengthAtLeast(init, p, k - 1);
    }
  }

  /** Likewise for `HeadLength`. */
  lemma {:induction false} HeadLengthUnique<T>(s: seq<T>, p: T -> bool, k: nat)
    requires k <= |s|
    requires forall i :: 0 <= i < k ==> p(s[i])
    requires k < |s| ==> !p(s[k])
    ensures HeadLength(s, p) == k
    decreases |s|
  {
    if k > 0 {
      var tail := s[1..];
      assert p(s[0]);
      forall i | 0 <= i < k - 1 ensures p(tail[i]) {
        assert tail[i] == s[i + 1];
      }
      if k - 1 < |tail| {
        assert tail[k - 1] == s[k];
      }
      HeadLengthUnique(tail, p, k - 1);
    }
  }

  /** `String.prototype.trim`: drop the whitespace at both ends. */
  function Trim(s: seq<char>): (t: seq<char>)
    ensures |t| <= |s|
    ensures t == [] || (!IsWs(t[0]) && !IsWs(t[|t| - 1]))
    ensures NoWs(s) ==> t == s
  {
    var rest := s[HeadLength(s, IsWs)..];
    rest[..|rest| - TailLength(rest, IsWs)]
  }

  /** What `Trim` removes is whitespace and what it keeps is the infix between:
      for `s == a + m + b` with `a` and `b` all whitespace and `m` empty or
      beginning and ending with a non-whitespace character, `Trim(s) == m`. */
  lemma TrimExact(a: seq<char>, m: seq<char>, b: seq<char>)
    requires forall i :: 0 <= i < |a| ==> IsWs(a[i])
    requires forall i :: 0 <= i < |b| ==> IsWs(b[i])
    requires m == [] || (!IsWs(m[0]) && !IsWs(m[|m| - 1]))
    ensures Trim(a + m + b) == m
  {
    var s := a + m + b;
    if m == [] {
      assert s == a + b;
      HeadLengthUnique(s, IsWs, |s|);
      assert s[|s|..] == [];
      TailLengthUnique(s[|s|..], IsWs, 0);
    } else {
      HeadLengthUnique(s, IsWs, |a|);
      var rest := s[|a|..];
      assert rest == m + b;
      TailLengthUnique(rest, IsWs, |b|);
      assert rest[..|rest| - |b|] == m;
    }
  }
}
