/**
  `createSpaceInputRule`: when a whitespace character is typed right after
  `http://…` or `https://…`, the matched text is replaced by the linked
  target followed by the plain suffix and the typed character.
 */
module SpaceRule {
  import opened Wrappers
  import opened Strings
  import opened Recognizer
  import opened Document

  /** `https?:\/\/[^\s]+` matching a whole string: a lower-case scheme, at
      least one more character, and no whitespace anywhere. */
  predicate SchemeRun(g: seq<char>) {
    && ((|g| > 7 && g[..7] == "http://") || (|g| > 8 && g[..8] == "https://"))
    && NoWs(g)
  }

  /** The rule's expression `/((?:https?:\/\/)[^\s]+)(\s)$/` matches `tb` starting
      at `p`: group 1 is `tb[p..|tb| - 1]` and group 2 the last character. */
  predicate MatchesAt(tb: seq<char>, p: nat) {
    p < |tb| && IsWs(tb[|tb| - 1]) && SchemeRun(tb[p..|tb| - 1])
  }

  /** Where a regular-expression search of `tb` starting at `from` finds
      its match: the leftmost position at which the expression matches. */
  function LeftmostMatch(tb: seq<char>, from: nat): (r: Option<nat>)
    requires from <= |tb|
    ensures r.Some? ==> from <= r.value && MatchesAt(tb, r.value)
    ensures r.Some? ==> forall q :: from <= q < r.value ==> !MatchesAt(tb, q)
    ensures r.None? ==> forall q :: from <= q ==> !MatchesAt(tb, q)
    decreases |tb| - from
  {
    if from == |tb| then None
    else if MatchesAt(tb, from) then Some(from)
    else LeftmostMatch(tb, from + 1)
  }

  /** The space rule for the character `typed` entered over the selection
      `[from, to)`. The rule sees the block's text before the cursor followed
      by `typed`; `None` means it does not fire and the editor inserts the
      character itself. When it fires, the new document holds exactly the
      characters that plain insertion would give, so only links change. */
  function ApplySpaceRule(d: Doc, from: nat, to: nat, typed: char, excluded: set<char>,
                          pattern: seq<char> -> bool): (r: Option<Doc>)
    requires from <= to <= |d|
    ensures r.Some? ==> IsWs(typed)
    ensures r.Some? ==> Text(r.value) == Text(d[..from]) + [typed] + Text(d[to..])
    ensures r.Some? ==> r.value[from + 1..] == d[to..]
    ensures var m := LeftmostMatch(Text(d[..from]) + [typed], 0);
      r.Some? <==> m.Some? && Recognize(Text(d)[m.value..from], excluded, pattern).Some?
  {
    var tb := Text(d[..from]) + [typed];
    match LeftmostMatch(tb, 0)
    case None => None
    case Some(p) =>
      TextSlice(d, 0, from);
      assert tb[p..from] == Text(d)[p..from];
      match Recognize(tb[p..from], excluded, pattern)
      case None => None
      case Some(l) =>
        RewrittenText(d, p, from, to, l, typed);
        Some(Rewritten(d, p, to, l, typed))
  }

  /** The document the rule builds: `d` up to the match, the linked target,
      the plain suffix with the typed character, then `d` after the selection. */
  function Rewritten(d: Doc, p: nat, to: nat, l: Linkable, typed: char): Doc
    requires p <= to <= |d|
  {
    d[..p] + TextNode(l.url, Some(l.url)) + TextNode(l.suffix + [typed], None) + d[to..]
  }

  lemma RewrittenShape(d: Doc, p: nat, from: nat, to: nat, l: Linkable, typed: char)
    requires p + |l.url| + |l.suffix| == from <= to <= |d|
    ensures var r := Rewritten(d, p, to, l, typed);
      && r[..p] == d[..p]
      && Text(r)[p..from + 1] == l.url + l.suffix + [typed]
      && (forall i :: p <= i < p + |l.url| ==> r[i].link == Some(l.url))
      && (forall i :: p + |l.url| <= i <= from ==> r[i].link == None)
  {
    var r := Rewritten(d, p, to, l, typed);
    var a, b := TextNode(l.url, Some(l.url)), TextNode(l.suffix + [typed], None);
    assert r == d[..p] + a + b + d[to..];
    forall i | p <= i < p + |l.url| ensures r[i].link == Some(l.url) {
      assert r[i] == a[i - p];
    }
    forall i | p + |l.url| <= i <= from ensures r[i].link == None {
      assert r[i] == b[i - p - |l.url|];
    }
    assert r[p..from + 1] == a + b;
    TextSlice(r, p, from + 1);
    TextConcat(a, b);
  }

  lemma RewrittenText(d: Doc, p: nat, from: nat, to: nat, l: Linkable, typed: char)
    requires p <= from <= to <= |d|
    requires l.url + l.suffix == Text(d)[p..from]
    ensures Text(Rewritten(d, p, to, l, typed)) == Text(d[..from]) + [typed] + Text(d[to..])
    ensures Rewritten(d, p, to, l, typed)[from + 1..] == d[to..]
  {
    var a, b := TextNode(l.url, Some(l.url)), TextNode(l.suffix + [typed], None);
    var r := Rewritten(d, p, to, l, typed);
    assert r == d[..p] + (a + b) + d[to..];
    TextConcat(d[..p] + (a + b), d[to..]);
    TextConcat(d[..p], a + b);
    TextConcat(a, b);
    assert Text(a + b) == Text(d)[p..from] + [typed];
    TextSlice(d, 0, p);
    TextSlice(d, 0, from);
    assert Text(d)[..from] == Text(d)[..p] + Text(d)[p..from];
  }

  lemma ApplySpaceRuleFires(d: Doc, from: nat, to: nat, typed: char, excluded: set<char>,
                            pattern: seq<char> -> bool, p: nat, l: Linkable)
    requires from <= to <= |d|
    requires LeftmostMatch(Text(d[..from]) + [typed], 0) == Some(p)
    requires Recognize(Text(d)[p..from], excluded, pattern) == Some(l)
    ensures p + |l.url| + |l.suffix| == from
    ensures ApplySpaceRule(d, from, to, typed, excluded, pattern) == Some(Rewritten(d, p, to, l, typed))
  {
    var tb := Text(d[..from]) + [typed];
    TextSlice(d, 0, from);
    assert tb[p..from] == Text(d)[p..from];
  }

  /** When the rule fires on the match starting at `p`: text before the
      match is untouched, the matched characters are kept, the first `|url|`
      of them carry the link `url`, and the stripped suffix and the typed
      character carry no link. */
  lemma SpaceRuleMarks(d: Doc, from: nat, to: nat, typed: char, excluded: set<char>,
                       pattern: seq<char> -> bool, p: nat, l: Linkable)
    requires from <= to <= |d|
    requires LeftmostMatch(Text(d[..from]) + [typed], 0) == Some(p)
    requires Recognize(Text(d)[p..from], excluded, pattern) == Some(l)
    ensures p + |l.url| <= from
    ensures ApplySpaceRule(d, from, to, typed, excluded, pattern).Some?
    ensures var r := ApplySpaceRule(d, from, to, typed, excluded, pattern).value;
      && r[..p] == d[..p]
      && Text(r)[p..from + 1] == Text(d)[p..from] + [typed]
      && (forall i :: p <= i < p + |l.url| ==> r[i].link == Some(l.url))
      && (forall i :: p + |l.url| <= i <= from ==> r[i].link == None)
  {
    ApplySpaceRuleFires(d, from, to, typed, excluded, pattern, p, l);
    RewrittenShape(d, p, from, to, l, typed);
  }

  /** Under the default gate and excluded set, every group 1 the rule's
      expression admits is recognised: the case-sensitive expression only
      admits text the case-insensitive gate also admits, and the `/` of the
      scheme is never stripped, so the target is never empty. */
  lemma SchemeRunRecognized(g: seq<char>)
    requires SchemeRun(g)
    ensures Recognize(g, DefaultExcluded, DefaultPattern).Some?
  {
    var lit := if |g| > 7 && g[..7] == "http://" then "http://" else "https://";
    assert g[..|lit|] == lit;
    assert FoldedPrefix(g, lit) by {
      forall i | 0 <= i < |lit| ensures Lower(g[i]) == lit[i] {
        assert g[i] == lit[i];
      }
    }
    assert g[|lit| - 1] == '/';
    assert g[|lit| - 1] !in DefaultExcluded;
  }

  /** So with the default options the rule fires exactly when its
      expression matches. */
  lemma SpaceRuleDefaultFires(d: Doc, from: nat, to: nat, typed: char)
    requires from <= to <= |d|
    ensures ApplySpaceRule(d, from, to, typed, DefaultExcluded, DefaultPattern).Some?
        <==> LeftmostMatch(Text(d[..from]) + [typed], 0).Some?
  {
    var tb := Text(d[..from]) + [typed];
    var m := LeftmostMatch(tb, 0);
    if m.Some? {
      SchemeRunRecognized(tb[m.value..from]);
    }
  }

  /** Typing a space after `https://example.com.`: the link covers
      `https://example.com` and `. ` follows it as plain text. */
  lemma SpaceRuleTrailingPeriod()
    ensures ApplySpaceRule(TextNode("https://example.com.", None), 20, 20, ' ', DefaultExcluded, DefaultPattern)
         == Some(TextNode("https://example.com", Some("https://example.com")) + TextNode(". ", None))
  {
    var d := TextNode("https://example.com.", None);
    var tb := Text(d[..20]) + [' '];
    assert d[..20] == d;
    assert Text(d) == "https://example.com.";
    assert tb == "https://example.com. ";
    assert MatchesAt(tb, 0) by {
      assert tb[0..20] == "https://example.com.";
      ExampleIsSchemeRun();
    }
    assert LeftmostMatch(tb, 0) == Some(0);
    assert Text(d)[0..20] == "https://example.com.";
    var l := Linkable("https://example.com", ".");
    RecognizeTrailingPeriod();
    ApplySpaceRuleFires(d, 20, 20, ' ', DefaultExcluded, DefaultPattern, 0, l);
    assert d[..0] == [] && d[20..] == [];
    assert l.suffix + [' '] == ". ";
    var a, b := TextNode(l.url, Some(l.url)), TextNode(". ", None);
    assert Rewritten(d, 0, 20, l, ' ') == [] + a + b + [];
    assert [] + a + b + [] == a + b;
  }

  lemma ExampleIsSchemeRun()
    ensures SchemeRun("https://example.com.")
  {
    var g := "https://example.com.";
    assert g[..8] == "https://";
  }
}
