/**
  The editor state the triggers read and rewrite, reduced to one textblock:
  a sequence of cells, each a character and the `href` of the link mark it
  carries, if any. A position is an offset into the block's text.
 */
module Document {
  import opened Wrappers
  import opened Strings

  type Href = seq<char>

  datatype Cell = Cell(ch: char, link: Option<Href>)

  type Doc = seq<Cell>

  /** What a transaction hands back to the editor: whether the event was
      consumed, and the new document if one was dispatched. */
  datatype Outcome = Outcome(handled: bool, dispatched: Option<Doc>)

  function Text(d: Doc): (s: seq<char>)
    ensures |s| == |d|
    ensures forall i :: 0 <= i < |d| ==> s[i] == d[i].ch
  {
    seq(|d|, i requires 0 <= i < |d| => d[i].ch)
  }

  lemma TextConcat(a: Doc, b: Doc)
    ensures Text(a + b) == Text(a) + Text(b)
  {
  }

  lemma TextSlice(d: Doc, lo: nat, hi: nat)
    requires lo <= hi <= |d|
    ensures Text(d[lo..hi]) == Text(d)[lo..hi]
  {
  }

  /** `schema.text(s, marks)`: a run of text with the given link, or none. */
  function TextNode(s: seq<char>, link: Option<Href>): (d: Doc)
    ensures Text(d) == s
    ensures forall i :: 0 <= i < |d| ==> d[i].link == link
  {
    seq(|s|, i requires 0 <= i < |s| => Cell(s[i], link))
  }

  lemma TextNodeConcat(s: seq<char>, t: seq<char>, link: Option<Href>)
    ensures TextNode(s, link) + TextNode(t, link) == TextNode(s + t, link)
  {
  }

  /** `tr.addMark(lo, hi, link)` with `link == Some(h)` and
      `tr.removeMark(lo, hi, link)` with `link == None`: characters stay,
      the cells in `[lo, hi)` get `link` and no other cell changes. */
  function SetLink(d: Doc, lo: nat, hi: nat, link: Option<Href>): (r: Doc)
    requires lo <= hi <= |d|
    ensures |r| == |d| && Text(r) == Text(d)
    ensures forall i :: 0 <= i < |d| && !(lo <= i < hi) ==> r[i] == d[i]
    ensures forall i :: lo <= i < hi ==> r[i].link == link
  {
    d[..lo] + TextNode(Text(d[lo..hi]), link) + d[hi..]
  }

  /** Cells carrying `link`, as a predicate value. */
  function HasLink(link: Option<Href>): Cell -> bool {
    (c: Cell) => c.link == link
  }

  /** Start of `$from.nodeBefore` for a cursor at `pos > 0`: ProseMirror
      keeps adjacent text with the same marks in one text node, so the node
      before the cursor is the longest run of cells ending there that carry
      the same link as the cell just before it. */
  function NodeStart(d: Doc, pos: nat): (start: nat)
    requires 0 < pos <= |d|
    ensures start < pos
    ensures forall i :: start <= i < pos ==> d[i].link == d[pos - 1].link
    ensures start > 0 ==> d[start - 1].link != d[pos - 1].link
  {
    var k := TailLength(d[..pos], HasLink(d[pos - 1].link));
    assert HasLink(d[pos - 1].link)(d[..pos][pos - 1]);
    assert forall i :: pos - k <= i < pos ==> d[..pos][i] == d[i];
    pos - k
  }
}
