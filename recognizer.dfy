/**
  The URL recognizer, `findLinkableUrl`: a scheme gate followed by peeling
  excluded characters off the end of the candidate, one at a time.
 */
module Recognizer {
  import opened Wrappers
  import opened Strings

  /** A recognised candidate: the link target and the trailing characters
      that stay plain text after it. */
  datatype Linkable = Linkable(url: seq<char>, suffix: seq<char>)

  /** The default `excludedTrailingChars`. */
  const DefaultExcluded: set<char> := {'.', ',', '!', '?', ':', ';', ')', ']', '}'}

  /** The default `urlPattern`, `/^https?:\/\//i`: the text starts with
      `http://` or `https://` in any mix of cases. */
  predicate DefaultPattern(s: seq<char>) {
    FoldedPrefix(s, "http://") || FoldedPrefix(s, "https://")
  }

  /** `l` splits `candidate` at its longest tail of excluded characters into
      a non-empty link target and that tail. */
  predicate IsLinkableSplit(candidate: seq<char>, excluded: set<char>, l: Linkable) {
    && l.url + l.suffix == candidate
    && l.url != []
    && l.url[|l.url| - 1] !in excluded
    && forall i :: 0 <= i < |l.suffix| ==> l.suffix[i] in excluded
  }

  /** Specification of `findLinkableUrl`: `None` when the gate rejects the
      candidate or every character of it is excluded, otherwise the split
      at the longest tail of excluded characters. */
  function Recognize(candidate: seq<char>, excluded: set<char>, pattern: seq<char> -> bool): (r: Option<Linkable>)
    ensures r.None? <==> !pattern(candidate) || forall i :: 0 <= i < |candidate| ==> candidate[i] in excluded
    ensures r.Some? ==> IsLinkableSplit(candidate, excluded, r.value)
  {
    if !pattern(candidate) then None
    else
      var n := |candidate| - TailLength(candidate, InSet(excluded));
      if n == 0 then None else Some(Linkable(candidate[..n], candidate[n..]))
  }

  /** `findLinkableUrl`: the loop moves the last character of `url` to the
      front of `suffix` while it is excluded. */
  method FindLinkableUrl(candidate: seq<char>, excluded: set<char>, pattern: seq<char> -> bool)
    returns (r: Option<Linkable>)
    ensures r == Recognize(candidate, excluded, pattern)
  {
    if !pattern(candidate) {
      return None;
    }
    var url := candidate;
    var suffix := "";
    while |url| > 0 && url[|url| - 1] in excluded
      invariant url + suffix == candidate
      invariant TailLength(url, InSet(excluded)) + |suffix| == TailLength(candidate, InSet(excluded))
    {
      assert InSet(excluded)(url[|url| - 1]);
      suffix := [url[|url| - 1]] + suffix;
      url := url[..|url| - 1];
    }
    assert TailLength(url, InSet(excluded)) == 0 by {
      if |url| > 0 {
        assert !InSet(excluded)(url[|url| - 1]);
      }
    }
    assert url == candidate[..|url|] && suffix == candidate[|url|..];
    if |url| == 0 {
      return None;
    }
    return Some(Linkable(url, suffix));
  }

  /** Any split of a gated candidate into a non-empty target not ending in
      an excluded character and an all-excluded tail is the one the
      recognizer returns: stripping takes exactly the longest excluded tail. */
  lemma RecognizeUnique(candidate: seq<char>, excluded: set<char>, pattern: seq<char> -> bool, l: Linkable)
    requires pattern(candidate)
    requires IsLinkableSplit(candidate, excluded, l)
    ensures Recognize(candidate, excluded, pattern) == Some(l)
  {
    var n := |l.url|;
    forall i | |candidate| - |l.suffix| <= i < |candidate|
      ensures InSet(excluded)(candidate[i])
    {
      assert candidate[i] == l.suffix[i - n];
    }
    assert candidate[n - 1] == l.url[n - 1];
    TailLengthUnique(candidate, InSet(excluded), |l.suffix|);
    assert candidate[..n] == l.url && candidate[n..] == l.suffix;
  }

  /** A character outside the excluded set is never stripped: the target
      extends at least past it. */
  lemma StripStopsAt(candidate: seq<char>, excluded: set<char>, pattern: seq<char> -> bool, j: nat)
    requires j < |candidate| && candidate[j] !in excluded
    requires Recognize(candidate, excluded, pattern).Some?
    ensures |Recognize(candidate, excluded, pattern).value.url| > j
  {
    assert !InSet(excluded)(candidate[j]);
  }

  /** With the default gate and `/` not excluded (true of the default set),
      stripping never reaches into the scheme, so the target passes the
      gate again and recognising it a second time returns it unchanged. */
  lemma RecognizeIdempotent(candidate: seq<char>, excluded: set<char>, l: Linkable)
    requires '/' !in excluded
    requires Recognize(candidate, excluded, DefaultPattern) == Some(l)
    ensures Recognize(l.url, excluded, DefaultPattern) == Some(Linkable(l.url, ""))
  {
    var lit := if FoldedPrefix(candidate, "http://") then "http://" else "https://";
    assert Lower(candidate[|lit| - 1]) == '/';
    StripStopsAt(candidate, excluded, DefaultPattern, |lit| - 1);
    assert FoldedPrefix(l.url, lit) by {
      forall i | 0 <= i < |lit| ensures Lower(l.url[i]) == lit[i] {
        assert l.url[i] == candidate[i];
      }
    }
    assert l.url + "" == l.url;
    RecognizeUnique(l.url, excluded, DefaultPattern, Linkable(l.url, ""));
  }

  /** A gated candidate whose last character is not excluded is linked whole. */
  lemma RecognizeWhole(candidate: seq<char>, excluded: set<char>, pattern: seq<char> -> bool)
    requires pattern(candidate) && candidate != []
    requires candidate[|candidate| - 1] !in excluded
    ensures Recognize(candidate, excluded, pattern) == Some(Linkable(candidate, ""))
  {
    assert candidate + "" == candidate;
    RecognizeUnique(candidate, excluded, pattern, Linkable(candidate, ""));
  }

  /** Typing `https://example.com.`: the period is peeled off. */
  lemma RecognizeTrailingPeriod()
    ensures Recognize("https://example.com.", DefaultExcluded, DefaultPattern)
         == Some(Linkable("https://example.com", "."))
  {
    assert FoldedPrefix("https://example.com.", "https://");
    assert "https://example.com" + "." == "https://example.com.";
    RecognizeUnique("https://example.com.", DefaultExcluded, DefaultPattern,
                    Linkable("https://example.com", "."));
  }
}
