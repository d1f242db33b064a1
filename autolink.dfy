/**
  The `autolink` plugin's handlers for the Enter key and for paste, and the
  options they read.
 */
module Autolink {
  import opened Wrappers
  import opened Strings
  import opened Recognizer
  import opened Document
  import opened SpaceRule

  /** The options the modelled handlers read. */
  datatype Config = Config(excluded: set<char>, pattern: seq<char> -> bool, enterTrigger: bool)

  const Defaults: Config := Config(DefaultExcluded, DefaultPattern, true)

  /** `[start, pos)` is the last whitespace-delimited word of the text node
      before `pos`: its cells share the link of the cell before the cursor
      and hold no whitespace, and the cell before it is whitespace, carries
      another link, or does not exist. */
  predicate LastWordAt(d: Doc, start: nat, pos: nat) {
    && start < pos <= |d|
    && (forall i :: start <= i < pos ==> d[i].link == d[pos - 1].link && !IsWs(d[i].ch))
    && (start == 0 || d[start - 1].link != d[pos - 1].link || IsWs(d[start - 1].ch))
  }

  /** Start of `lastWord`, the last element of `nodeBefore.text.split(/\s/)`,
      for a cursor at `pos > 0`; it is `pos` itself when that word is empty. */
  function WordStart(d: Doc, pos: nat): (start: nat)
    requires 0 < pos <= |d|
    ensures start <= pos
  {
    var node := Text(d[NodeStart(d, pos)..pos]);
    pos - TailLength(node, NotWs)
  }

  /** `WordStart` finds the word `LastWordAt` describes, and finds none
      exactly when whitespace precedes the cursor. */
  lemma WordStartIsLastWord(d: Doc, pos: nat)
    requires 0 < pos <= |d|
    ensures WordStart(d, pos) < pos ==> LastWordAt(d, WordStart(d, pos), pos)
    ensures WordStart(d, pos) == pos <==> IsWs(d[pos - 1].ch)
  {
    var ns := NodeStart(d, pos);
    var node := Text(d[ns..pos]);
    var k := TailLength(node, NotWs);
    var start := pos - k;
    assert |node| == pos - ns;
    assert node[|node| - 1] == d[pos - 1].ch;
    forall i | start <= i < pos ensures !IsWs(d[i].ch) {
      assert NotWs(node[i - ns]);
    }
    if start > ns {
      assert !NotWs(node[start - 1 - ns]);
    }
  }

  /** The word before the cursor at `pos` is the one `WordStart` finds. */
  lemma WordStartUnique(d: Doc, start: nat, pos: nat)
    requires LastWordAt(d, start, pos)
    ensures WordStart(d, pos) == start
  {
    var ns := NodeStart(d, pos);
    var k := pos - start;
    assert ns <= start by {
      var s, p := d[..pos], HasLink(d[pos - 1].link);
      forall i | |s| - k <= i < |s| ensures p(s[i]) {
        assert s[i] == d[i];
      }
      TailLengthAtLeast(s, p, k);
    }
    WordIsNodeTail(d, start, pos, ns);
  }

  /** A last word inside the text node `[ns, pos)` is that node's longest
      tail without whitespace. */
  lemma WordIsNodeTail(d: Doc, start: nat, pos: nat, ns: nat)
    requires LastWordAt(d, start, pos) && ns <= start
    requires forall i :: ns <= i < pos ==> d[i].link == d[pos - 1].link
    ensures TailLength(Text(d[ns..pos]), NotWs) == pos - start
  {
    var k := pos - start;
    var node := Text(d[ns..pos]);
    assert |node| == pos - ns;
    assert forall i :: |node| - k <= i < |node| ==> NotWs(node[i]) by {
      forall i | |node| - k <= i < |node| ensures NotWs(node[i]) {
        assert node[i] == d[i + ns].ch;
      }
    }
    assert k < |node| ==> !NotWs(node[|node| - k - 1]) by {
      if k < |node| {
        assert node[|node| - k - 1] == d[start - 1].ch;
        assert d[start - 1].link == d[pos - 1].link;
      }
    }
    TailLengthUnique(node, NotWs, k);
  }

  /** The Enter handler (`handleKeyDown`) for key `key` with selection
      `[from, to)`. It never reports the key as handled, so the editor
      still breaks the line; when it dispatches, it relinks the last word
      before the cursor: links removed over the word, then the recognised
      target linked. */
  function EnterKey(d: Doc, from: nat, to: nat, key: seq<char>, cfg: Config): (r: Outcome)
    requires from <= to <= |d|
    ensures !r.handled
    ensures r.dispatched.Some? ==> cfg.enterTrigger && key == "Enter" && from == to && 0 < from
    ensures r.dispatched.Some? ==> |r.dispatched.value| == |d| && Text(r.dispatched.value) == Text(d)
  {
    if !cfg.enterTrigger || key != "Enter" || from != to || from == 0 then Outcome(false, None)
    else
      var start := WordStart(d, from);
      if start == from then Outcome(false, None)
      else match Recognize(Text(d)[start..from], cfg.excluded, cfg.pattern)
        case None => Outcome(false, None)
        case Some(l) =>
          var unlinked := SetLink(d, start, from, None);
          Outcome(false, Some(SetLink(unlinked, start, start + |l.url|, Some(l.url))))
  }

  /** `r` is `d` with the word `[start, pos)` relinked to `url`: the
      characters stay, the first `|url|` cells of the word link to `url`,
      the rest of the word links nowhere, and no cell outside the word changes. */
  predicate Relinked(d: Doc, r: Doc, start: nat, pos: nat, url: seq<char>) {
    && start + |url| <= pos <= |d| == |r|
    && (forall i :: 0 <= i < |d| ==> r[i].ch == d[i].ch)
    && (forall i :: start <= i < start + |url| ==> r[i].link == Some(url))
    && (forall i :: start + |url| <= i < pos ==> r[i].link == None)
    && (forall i :: 0 <= i < |d| && !(start <= i < pos) ==> r[i] == d[i])
  }

  /** With whitespace right before the cursor `lastWord` is empty, and
      Enter dispatches nothing. */
  lemma EnterAfterWhitespace(d: Doc, from: nat, to: nat, key: seq<char>, cfg: Config)
    requires 0 < from <= to <= |d| && IsWs(d[from - 1].ch)
    ensures EnterKey(d, from, to, key, cfg) == Outcome(false, None)
  {
    WordStartIsLastWord(d, from);
  }

  /** What Enter does to the word `[start, pos)` before the cursor: nothing
      when the recognizer rejects it, otherwise it relinks the word to the
      recognised target. */
  lemma EnterRelinksWord(d: Doc, pos: nat, cfg: Config, start: nat)
    requires cfg.enterTrigger
    requires LastWordAt(d, start, pos)
    ensures var r := EnterKey(d, pos, pos, "Enter", cfg).dispatched;
      var rec := Recognize(Text(d)[start..pos], cfg.excluded, cfg.pattern);
      && (rec.None? <==> r.None?)
      && (rec.Some? ==> Relinked(d, r.value, start, pos, rec.value.url))
  {
    WordStartUnique(d, start, pos);
  }

  lemma RelinkedText(d: Doc, r: Doc, start: nat, pos: nat, url: seq<char>)
    requires Relinked(d, r, start, pos, url)
    ensures Text(r) == Text(d)
  {
  }

  /** Pressing Enter again at the same place leaves the document as the
      first press left it: when the whole word was linked it is relinked to
      the same target, and when a suffix was left unlinked the word before
      the cursor is that suffix, which is never recognised. For a word
      linked whole it suffices that the cell before the word is not a
      non-whitespace character already linked to the same target;
      `EnterAgainExtendsWord` shows a merge that relinks when it is. */
  lemma EnterIdempotent(d: Doc, pos: nat, cfg: Config, start: nat, l: Linkable, d1: Doc)
    requires cfg.enterTrigger
    requires LastWordAt(d, start, pos)
    requires Recognize(Text(d)[start..pos], cfg.excluded, cfg.pattern) == Some(l)
    requires l.suffix == [] ==> (start == 0 || IsWs(d[start - 1].ch) || d[start - 1].link != Some(l.url))
    requires EnterKey(d, pos, pos, "Enter", cfg).dispatched == Some(d1)
    ensures EnterKey(d1, pos, pos, "Enter", cfg).dispatched == if l.suffix == [] then Some(d1) else None
  {
    EnterRelinksWord(d, pos, cfg, start);
    RelinkedText(d, d1, start, pos, l.url);
    if l.suffix == [] {
      EnterAgainSameWord(d, pos, cfg, start, l, d1);
    } else {
      EnterAgainSuffix(d, pos, cfg, start, l, d1);
    }
  }

  lemma EnterAgainSameWord(d: Doc, pos: nat, cfg: Config, start: nat, l: Linkable, d1: Doc)
    requires cfg.enterTrigger
    requires LastWordAt(d, start, pos)
    requires Recognize(Text(d)[start..pos], cfg.excluded, cfg.pattern) == Some(l)
    requires start == 0 || IsWs(d[start - 1].ch) || d[start - 1].link != Some(l.url)
    requires Relinked(d, d1, start, pos, l.url) && Text(d1) == Text(d)
    requires l.suffix == []
    ensures EnterKey(d1, pos, pos, "Enter", cfg).dispatched == Some(d1)
  {
    assert |l.url| == pos - start;
    assert LastWordAt(d1, start, pos);
    EnterRelinksWord(d1, pos, cfg, start);
    RelinkedUnchanged(d1, EnterKey(d1, pos, pos, "Enter", cfg).dispatched.value, start, pos, l.url);
  }

  /** Relinking a word that already links as `Relinked` leaves it unchanged. */
  lemma RelinkedUnchanged(d: Doc, r: Doc, start: nat, pos: nat, url: seq<char>)
    requires Relinked(d, r, start, pos, url)
    requires forall i :: start <= i < start + |url| ==> d[i].link == Some(url)
    requires forall i :: start + |url| <= i < pos ==> d[i].link == None
    ensures r == d
  {
    forall i | 0 <= i < |d| ensures r[i] == d[i] {
      assert r[i].ch == d[i].ch;
    }
  }

  lemma EnterAgainSuffix(d: Doc, pos: nat, cfg: Config, start: nat, l: Linkable, d1: Doc)
    requires cfg.enterTrigger
    requires LastWordAt(d, start, pos)
    requires Recognize(Text(d)[start..pos], cfg.excluded, cfg.pattern) == Some(l)
    requires Relinked(d, d1, start, pos, l.url) && Text(d1) == Text(d)
    requires l.suffix != []
    ensures EnterKey(d1, pos, pos, "Enter", cfg).dispatched == None
  {
    var mid := start + |l.url|;
    assert LastWordAt(d1, mid, pos) && Recognize(Text(d1)[mid..pos], cfg.excluded, cfg.pattern) == None by {
      assert IsLinkableSplit(Text(d)[start..pos], cfg.excluded, l);
      SuffixIsLastWord(d, d1, start, pos, l.url, l.suffix);
    }
    EnterRelinksWord(d1, pos, cfg, mid);
  }

  /** After relinking, the unlinked suffix of the word is itself the last word. */
  lemma SuffixIsLastWord(d: Doc, d1: Doc, start: nat, pos: nat, url: seq<char>, suffix: seq<char>)
    requires LastWordAt(d, start, pos) && Relinked(d, d1, start, pos, url) && Text(d1) == Text(d)
    requires url != [] && suffix != [] && Text(d)[start..pos] == url + suffix
    ensures LastWordAt(d1, start + |url|, pos) && Text(d1)[start + |url|..pos] == suffix
  {
    var mid := start + |url|;
    assert d1[mid - 1].link == Some(url);
  }

  /** A non-empty run without whitespace is the last word before its end
      when the cell before it is whitespace, carries another link, or does
      not exist. */
  lemma RunIsLastWord(pre: Doc, s: seq<char>, link: Option<Href>)
    requires s != [] && NoWs(s)
    requires pre == [] || IsWs(pre[|pre| - 1].ch) || pre[|pre| - 1].link != link
    ensures LastWordAt(pre + TextNode(s, link), |pre|, |pre| + |s|)
  {
    var d := pre + TextNode(s, link);
    assert forall i :: |pre| <= i < |d| ==> d[i] == TextNode(s, link)[i - |pre|];
  }

  /** Relinking a whole run to its own text gives that run linked. */
  lemma RelinkedRun(pre: Doc, u: seq<char>, prior: Option<Href>, r: Doc)
    requires Relinked(pre + TextNode(u, prior), r, |pre|, |pre| + |u|, u)
    ensures r == pre + TextNode(u, Some(u))
  {
    var d, e := pre + TextNode(u, prior), pre + TextNode(u, Some(u));
    forall i | 0 <= i < |d| ensures r[i] == e[i] {
      if i >= |pre| {
        assert r[i].ch == d[i].ch == u[i - |pre|] == e[i].ch;
      }
    }
  }

  /** Pressing Enter right after a URL (for instance `https://example.com`
      typed as plain text) links exactly that URL when it ends in a
      character that is not excluded, whatever link the run had before. */
  lemma EnterLinksTypedUrl(d: Doc, pre: Doc, u: seq<char>, prior: Option<Href>)
    requires u != [] && NoWs(u) && DefaultPattern(u) && u[|u| - 1] !in DefaultExcluded
    requires pre == [] || IsWs(pre[|pre| - 1].ch) || pre[|pre| - 1].link != prior
    requires d == pre + TextNode(u, prior)
    ensures EnterKey(d, |d|, |d|, "Enter", Defaults) == Outcome(false, Some(pre + TextNode(u, Some(u))))
  {
    RecognizeWhole(u, DefaultExcluded, DefaultPattern);
    EnterLinksRun(d, pre, u, prior, Defaults);
  }

  /** `EnterLinksTypedUrl` for any configuration that recognises the whole run. */
  lemma EnterLinksRun(d: Doc, pre: Doc, u: seq<char>, prior: Option<Href>, cfg: Config)
    requires cfg.enterTrigger && u != [] && NoWs(u)
    requires Recognize(u, cfg.excluded, cfg.pattern) == Some(Linkable(u, ""))
    requires pre == [] || IsWs(pre[|pre| - 1].ch) || pre[|pre| - 1].link != prior
    requires d == pre + TextNode(u, prior)
    ensures EnterKey(d, |d|, |d|, "Enter", cfg) == Outcome(false, Some(pre + TextNode(u, Some(u))))
  {
    assert LastWordAt(d, |pre|, |d|) by { RunIsLastWord(pre, u, prior); }
    assert Text(d)[|pre|..|d|] == u by { RunText(pre, u, prior); }
    var out := EnterKey(d, |d|, |d|, "Enter", cfg);
    assert !out.handled && out.dispatched.Some? && Relinked(d, out.dispatched.value, |pre|, |d|, u) by {
      EnterOnRecognizedWord(d, |d|, cfg, |pre|, Linkable(u, ""));
    }
    RelinkedRun(pre, u, prior, out.dispatched.value);
  }

  lemma RunText(pre: Doc, u: seq<char>, prior: Option<Href>)
    ensures Text(pre + TextNode(u, prior))[|pre|..|pre| + |u|] == u
  {
    TextConcat(pre, TextNode(u, prior));
  }

  /** `EnterRelinksWord` for a word the recognizer accepts. */
  lemma EnterOnRecognizedWord(d: Doc, pos: nat, cfg: Config, start: nat, l: Linkable)
    requires cfg.enterTrigger
    requires LastWordAt(d, start, pos)
    requires Recognize(Text(d)[start..pos], cfg.excluded, cfg.pattern) == Some(l)
    ensures !EnterKey(d, pos, pos, "Enter", cfg).handled
    ensures EnterKey(d, pos, pos, "Enter", cfg).dispatched.Some?
    ensures Relinked(d, EnterKey(d, pos, pos, "Enter", cfg).dispatched.value, start, pos, l.url)
  {
    EnterRelinksWord(d, pos, cfg, start);
  }

  /** Without the last condition of `EnterIdempotent` a second Enter can
      relink. Take the word `y` linked nowhere, after text `x` that already
      links to `y` (say `http://a` linked to `http://b`, then `http://b`).
      The first Enter links `y` to itself; the two runs then carry the same
      link and form one text node, and the second Enter links all of `x + y`. */
  lemma EnterAgainExtendsWord(x: seq<char>, y: seq<char>)
    requires x != [] && NoWs(x + y) && DefaultPattern(y) && DefaultPattern(x + y)
    requires y[|y| - 1] !in DefaultExcluded
    ensures var d, d1 := TextNode(x, Some(y)) + TextNode(y, None), TextNode(x + y, Some(y));
      && EnterKey(d, |d|, |d|, "Enter", Defaults).dispatched == Some(d1)
      && EnterKey(d1, |d1|, |d1|, "Enter", Defaults).dispatched == Some(TextNode(x + y, Some(x + y)))
  {
    EnterLinksWordAfterLink(x, y);
    EnterLinksMergedRun(x, y);
  }

  lemma EnterLinksWordAfterLink(x: seq<char>, y: seq<char>)
    requires x != [] && NoWs(x + y) && DefaultPattern(y)
    requires y[|y| - 1] !in DefaultExcluded
    ensures var d := TextNode(x, Some(y)) + TextNode(y, None);
      EnterKey(d, |d|, |d|, "Enter", Defaults).dispatched == Some(TextNode(x + y, Some(y)))
  {
    var w := x + y;
    assert NoWs(y) by {
      forall i | 0 <= i < |y| ensures !IsWs(y[i]) {
        assert y[i] == w[|x| + i];
      }
    }
    var a := TextNode(x, Some(y));
    EnterLinksTypedUrl(a + TextNode(y, None), a, y, None);
    TextNodeConcat(x, y, Some(y));
  }

  lemma EnterLinksMergedRun(x: seq<char>, y: seq<char>)
    requires NoWs(x + y) && DefaultPattern(x + y)
    requires y != [] && y[|y| - 1] !in DefaultExcluded
    ensures var d1 := TextNode(x + y, Some(y));
      EnterKey(d1, |d1|, |d1|, "Enter", Defaults).dispatched == Some(TextNode(x + y, Some(x + y)))
  {
    var w := x + y;
    assert w[|w| - 1] == y[|y| - 1];
    var d1, e := TextNode(w, Some(y)), TextNode(w, Some(w));
    assert EnterKey(d1, |d1|, |d1|, "Enter", Defaults).dispatched == Some([] + e) by {
      assert d1 == [] + d1;
      EnterLinksTypedUrl(d1, [], w, Some(y));
    }
    assert [] + e == e;
  }

  /** `handlePaste` with clipboard plain text `clip` (`None` when the event
      carries none) over the selection `[from, to)`. It takes over the paste
      exactly when the trimmed text passes `/^https?:\/\/[^\s]+$/`, a check
      that ignores the `urlPattern` option. A range keeps its text and links
      to the pasted address; a cursor gets the address inserted as linked text. */
  function Paste(d: Doc, from: nat, to: nat, clip: Option<seq<char>>): (r: Outcome)
    requires from <= to <= |d|
    ensures r.handled <==> r.dispatched.Some?
    ensures r.handled <==> clip.Some? && SchemeRun(Trim(clip.value))
    ensures r.handled && from < to ==>
      var t, n := Trim(clip.value), r.dispatched.value;
      && |n| == |d| && Text(n) == Text(d)
      && (forall i :: from <= i < to ==> n[i].link == Some(t))
      && (forall i :: 0 <= i < |d| && !(from <= i < to) ==> n[i] == d[i])
    ensures r.handled && from == to ==>
      var t, n := Trim(clip.value), r.dispatched.value;
      && |n| == |d| + |t| && Text(n) == Text(d[..from]) + t + Text(d[from..])
      && n[..from] == d[..from] && n[from + |t|..] == d[from..]
      && (forall i :: from <= i < from + |t| ==> n[i].link == Some(t))
  {
    if clip.None? || clip.value == [] then Outcome(false, None)
    else
      var t := Trim(clip.value);
      if !SchemeRun(t) then Outcome(false, None)
      else if from != to then Outcome(true, Some(SetLink(d, from, to, Some(t))))
      else
        InsertedText(d[..from], t, Some(t), d[from..]);
        Outcome(true, Some(d[..from] + TextNode(t, Some(t)) + d[from..]))
  }

  lemma InsertedText(pre: Doc, t: seq<char>, link: Option<Href>, post: Doc)
    ensures var n := pre + TextNode(t, link) + post;
      && Text(n) == Text(pre) + t + Text(post)
      && n[..|pre|] == pre && n[|pre| + |t|..] == post
      && (forall i :: |pre| <= i < |pre| + |t| ==> n[i].link == link)
  {
    var a := TextNode(t, link);
    var n := pre + a + post;
    TextConcat(pre + a, post);
    TextConcat(pre, a);
    forall i | |pre| <= i < |pre| + |t| ensures n[i].link == link {
      assert n[i] == a[i - |pre|];
    }
  }

  /** `handlePaste` as the source writes it for a cursor: the text node it
      builds carries the link, but `tr.replaceSelectionWith(node)` keeps its
      default `inheritMarks`, which replaces the node's marks with those in
      effect at the cursor. `inherited` is the link among those marks. */
  function PasteAsWritten(d: Doc, from: nat, to: nat, clip: Option<seq<char>>, inherited: Option<Href>): (r: Outcome)
    requires from <= to <= |d|
    ensures from < to ==> r == Paste(d, from, to, clip)
    ensures r.handled == Paste(d, from, to, clip).handled
    ensures r.handled <==> r.dispatched.Some?
    ensures r.handled && from == to ==>
      var t, n := Trim(clip.value), r.dispatched.value;
      && |n| == |d| + |t| && Text(n) == Text(d[..from]) + t + Text(d[from..])
      && n[..from] == d[..from] && n[from + |t|..] == d[from..]
      && (forall i :: from <= i < from + |t| ==> n[i].link == inherited)
  {
    var r := Paste(d, from, to, clip);
    if r.handled && from == to then
      var t := Trim(clip.value);
      InsertedText(d[..from], t, inherited, d[from..]);
      Outcome(true, Some(d[..from] + TextNode(t, inherited) + d[from..]))
    else r
  }

  /** The two differ on every paste at a cursor that the handler takes over,
      unless the cursor already sits in a link to the pasted address: the
      pasted URL as written is not linked to itself. */
  lemma PasteAsWrittenLosesLink(d: Doc, pos: nat, clip: Option<seq<char>>, inherited: Option<Href>)
    requires pos <= |d|
    requires clip.Some? && SchemeRun(Trim(clip.value))
    ensures PasteAsWritten(d, pos, pos, clip, inherited) == Paste(d, pos, pos, clip)
        <==> inherited == Some(Trim(clip.value))
  {
    var t := Trim(clip.value);
    var w, c := PasteAsWritten(d, pos, pos, clip, inherited), Paste(d, pos, pos, clip);
    assert |t| > 0;
    assert w.dispatched.value[pos].link == inherited;
    assert c.dispatched.value[pos].link == Some(t);
    if inherited == Some(t) {
      assert w == c;
    }
  }

  /** Pasting `https://a.b/c d` is left to the editor: the text holds a space. */
  lemma PasteRejectsInnerSpace(d: Doc, pos: nat, clip: seq<char>)
    requires pos <= |d| && clip == "https://a.b/c d"
    ensures Paste(d, pos, pos, Some(clip)) == Outcome(false, None)
  {
    TrimExact([], clip, []);
    assert [] + clip + [] == clip;
    assert IsWs(clip[13]);
  }

  /** Pasting `https://x.io` over the selected text `click here` keeps that
      text and links it to `https://x.io`. */
  lemma PasteLinksSelectedText(d: Doc, clip: seq<char>)
    requires d == TextNode("click here", None) && clip == "https://x.io"
    ensures Paste(d, 0, 10, Some(clip)) == Outcome(true, Some(TextNode("click here", Some(clip))))
  {
    assert NoWs(clip);
    assert clip[..8] == "https://";
    assert SchemeRun(Trim(clip));
    var n := Paste(d, 0, 10, Some(clip)).dispatched.value;
    var e := TextNode("click here", Some(clip));
    assert |n| == |e| == 10;
    forall i | 0 <= i < 10 ensures n[i] == e[i] {
      assert n[i].ch == Text(n)[i] == Text(d)[i] == e[i].ch;
    }
    assert n == e;
  }
}
