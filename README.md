# prosemirror-autolink, modelled in Dafny

prosemirror-autolink turns typed or pasted web addresses into links in a
ProseMirror editor. It does this in three ways:

- **Space rule.** Typing a whitespace character right after `http://…` or
  `https://…` links the address.
- **Enter.** Pressing Enter links the word before the cursor, and the line
  still breaks.
- **Paste.** Pasting an address links the selected text. At a cursor it is
  meant to insert the address as a link; as written, the inserted text
  loses that link (see "## Findings").

The space rule and Enter share one recognizer, `findLinkableUrl`. It gates
the candidate with the `urlPattern` option. It then peels characters from
`excludedTrailingChars` off the end, so that `https://example.com.` links
`https://example.com` and leaves the period as plain text. Paste does not
use the recognizer: it tests the trimmed text against its own stricter,
case-sensitive expression `/^https?:\/\/[^\s]+$/`, ignores `urlPattern`
and strips no suffix.

The model has six modules:

- `Wrappers` holds `Option`.
- `Strings` holds the whitespace class shared by `\s` and `String.prototype.trim`, an ASCII case fold for the default `/i` pattern, and the longest-tail and longest-head lengths. `Trim` is built from these.
- `Recognizer` holds `findLinkableUrl`. It is an imperative method with its loop. It is proved against the specification function `Recognize`.
- `Document` holds one text block as a sequence of cells. Each cell is a character and the link it carries, if any. A ProseMirror text node is a maximal run of cells with the same link. Adding and removing a link over a range is `SetLink`.
- `SpaceRule` holds the input rule: the leftmost match of its expression, and the document it builds.
- `Autolink` holds the Enter handler, the paste handler and the options the plugin uses. Each handler is a pure function from the document and the selection to an `Outcome`. An `Outcome` records whether the event was handled and which document, if any, was dispatched.

The default `urlPattern` is modelled as written at `src/index.ts:93`, `/^https?:\/\//i`, which is case-insensitive. The option's doc comment at `src/index.ts:14` shows it without the `i` flag; the model follows the code.

## Model

| member | source | states |
|---|---|---|
| Recognizer.FindLinkableUrl | src/index.ts:41-60 | the loop returns exactly `Recognize`: `None` when the gate fails or every character is excluded, otherwise the split at the longest excluded tail |
| Recognizer.Recognize | src/index.ts:41-60 | `None` iff the gate rejects the candidate or all its characters are excluded; otherwise `url + suffix == candidate`, `url` is non-empty, its last character is not excluded, and every suffix character is excluded |
| Recognizer.DefaultPattern | src/index.ts:93 | the default gate `/^https?:\/\//i`: the text starts with `http://` or `https://` in any mix of letter cases; the default excluded set of line 92 is the constant `Recognizer.DefaultExcluded` |
| Recognizer.RecognizeUnique | src/index.ts:52-59 | any split with those four properties is the one returned, so stripping takes the longest excluded tail and nothing else |
| Recognizer.StripStopsAt | src/index.ts:52-55 | a character outside the excluded set is never stripped; interior excluded characters stay in the target |
| Recognizer.RecognizeIdempotent | src/index.ts:47-59 | with the default gate and `/` not excluded, the target recognised again is returned whole, with an empty suffix |
| Recognizer.RecognizeWhole | src/index.ts:47-59 | a gated candidate whose last character is not excluded is linked whole |
| Recognizer.RecognizeTrailingPeriod | src/index.ts:92-93 | with the default options, `https://example.com.` gives target `https://example.com` and suffix `.` |
| Strings.IsWs | src/index.ts:119 | the ECMAScript whitespace and line-terminator class, used for `\s` in the expressions at lines 69, 119 and 161 and by `trim` at line 158 |
| Strings.Trim | src/index.ts:158 | the result is no longer than the input, starts and ends with non-whitespace (or is empty), and is the input itself when the input has no whitespace |
| Strings.TrimExact | src/index.ts:158 | trimming `a + m + b`, with `a` and `b` all whitespace and `m` having non-whitespace ends, gives exactly `m` |
| Document.TextNode | src/index.ts:81-82 | `schema.text(s, marks)` holds exactly the characters of `s`, each carrying the given link |
| Document.SetLink | src/index.ts:133-134 | adding or removing a link over `[lo, hi)` keeps the text, sets the link inside the range and changes no cell outside it |
| Document.NodeStart | src/index.ts:115 | `nodeBefore` is the run ending at the cursor whose cells all share the link of the cell before the cursor, and the cell before the run has a different link |
| SpaceRule.SchemeRun | src/index.ts:161 | the whole text matches `^https?:\/\/[^\s]+$`: a lower-case scheme, at least one more character and no whitespace; it is also group 1 of the expression at line 69 |
| SpaceRule.MatchesAt | src/index.ts:69 | the rule's expression matches the text before the cursor starting at `p`: group 1 runs from `p` to the last character, which is whitespace and is group 2 |
| SpaceRule.LeftmostMatch | src/index.ts:69 | the search finds the leftmost position where `((?:https?:\/\/)[^\s]+)(\s)$` matches, or reports that none exists |
| SpaceRule.ApplySpaceRule | src/index.ts:69-84 | for any options, the rule fires iff the expression matches and the recognizer accepts group 1, so it changes nothing otherwise; when it fires, the typed character is whitespace, the new text is what plain insertion would give, and everything after the selection is unchanged |
| SpaceRule.Rewritten | src/index.ts:80-83 | `replaceWith(start, end, …)`: the document before the match, the target linked to itself, the suffix and the typed character unlinked, then the document after the selection |
| SpaceRule.ApplySpaceRuleFires | src/index.ts:73-83 | given a match at `p` that the recognizer accepts, the rule replaces `[p, to)` by the linked target, then the plain suffix and the typed character |
| SpaceRule.SpaceRuleMarks | src/index.ts:76-83 | when the rule fires, the text before the match is untouched, exactly the target's cells carry its link, and the suffix and the trigger carry none |
| SpaceRule.SchemeRunRecognized | src/index.ts:69-93 | every group 1 of the case-sensitive expression passes the default case-insensitive gate and leaves a non-empty target |
| SpaceRule.SpaceRuleDefaultFires | src/index.ts:69-74 | with the default options the rule fires iff its expression matches |
| SpaceRule.SpaceRuleTrailingPeriod | src/index.ts:69-84 | typing a space after `https://example.com.` gives `https://example.com` linked, followed by plain `. ` |
| Autolink.WordStart | src/index.ts:118-127 | `$from.pos - lastWord.length`, where `lastWord` is the longest tail of `nodeBefore`'s text without whitespace, i.e. the last element of `text.split(/\s/)`; it is at most the cursor |
| Autolink.WordStartIsLastWord | src/index.ts:115-122 | the last element of `text.split(/\s/)` within `nodeBefore` is a run of one link without whitespace, preceded by whitespace, another link or the block start; it is empty iff whitespace precedes the cursor |
| Autolink.WordStartUnique | src/index.ts:115-127 | any such word ending at the cursor is the one the handler computes, so `start == pos - lastWord.length` |
| Autolink.EnterKey | src/index.ts:109-143 | the key is never reported handled; a dispatch happens only for Enter with the trigger enabled, a collapsed selection and a text node before the cursor, and keeps the text and the length |
| Autolink.EnterAfterWhitespace | src/index.ts:118-122 | with whitespace right before the cursor `lastWord` is empty, and Enter dispatches nothing and is not reported handled |
| Autolink.EnterRelinksWord | src/index.ts:122-136 | Enter dispatches iff the recognizer accepts the last word; the dispatched document links exactly the target's cells, unlinks the rest of the word and changes nothing else |
| Autolink.EnterIdempotent | src/index.ts:132-134 | a second Enter at the same place does nothing when a suffix was stripped; when the word was linked whole it gives the same document, provided the cell before the word is not already linked to the same target |
| Autolink.EnterAgainExtendsWord | src/index.ts:115-134 | without that proviso a second Enter relinks: a word that comes to share its link with the text before it merges into one text node, and the whole node gets relinked |
| Autolink.EnterLinksTypedUrl | src/index.ts:109-139 | with the default options, Enter after a run holding a URL that does not end in an excluded character links exactly that run to itself, whatever link it had |
| Autolink.EnterLinksRun | src/index.ts:124-136 | the same for any configuration whose recognizer takes the whole run |
| Autolink.Paste | src/index.ts:154-180 | the paste is handled iff it dispatches iff the clipboard has text whose trim matches `^https?:\/\/[^\s]+$`; a range keeps its text and is linked over exactly `[from, to)`; at a cursor the trimmed text is inserted linked to itself, with the rest unchanged |
| Autolink.PasteAsWritten | src/index.ts:173-179 | as written, a cursor paste inserts the trimmed text with the link in effect at the cursor (`inherited`) instead of its own; a range paste and the decision to handle are those of `Paste` |
| Autolink.PasteAsWrittenLosesLink | src/index.ts:173-179 | at a cursor, the as-written paste agrees with `Paste` iff the cursor already carries a link to the pasted address |
| Autolink.PasteRejectsInnerSpace | src/index.ts:158-161 | `https://a.b/c d` is not handled and nothing is dispatched |
| Autolink.PasteLinksSelectedText | src/index.ts:165-171 | pasting `https://x.io` over `click here` keeps the characters and links all of them to `https://x.io` |

## Left out

- The click handler (`handleClickOn`, `src/index.ts:145-152`) is not modelled. It only calls `window.open`, an environment call with no effect on the document.
- The Backspace binding (`src/index.ts:185-189`) is not modelled. It delegates to the host's `undoInputRule` and its undo history.
- Clipboard access is not modelled. The clipboard's plain text is a parameter of `Paste`, and `None` stands for no text.
- Option defaulting (`src/index.ts:91-99`) is reduced to `Autolink.Defaults`. `openOnClick` and `enableBackspaceUndo` only switch off the two parts above.
- `urlPattern` is an arbitrary predicate on strings. The statefulness of a user RegExp with the `g` or `y` flag (`lastIndex`) is not modelled. Only the default pattern is modelled concretely.
- Marks other than the link, and inline non-text nodes, are not modelled. These split text nodes in ProseMirror, so a text node here is a run with one link.
- Mark inclusivity is not modelled. It would decide whether text typed next to a link extends it.
- The space rule takes the typed text as one character. Multi-character text input is not modelled.
- The host library's limit of 500 characters before the cursor is not modelled. Neither are its checks for composition and code blocks before it runs input rules.
- Characters are Unicode scalar values, as Dafny's `char` is. JavaScript strings and ProseMirror positions count UTF-16 code units, so a character outside the Basic Multilingual Plane has length 1 here and 2 in the source. Lengths and positions differ from the source for such text, and lone surrogates cannot occur.
- When the space rule does not fire, the host inserts the character itself. That insertion is not part of `ApplySpaceRule`, which returns `None`.
- The Enter handler's `!nodeBefore.isText` case cannot occur in the model, because every cell is text. Its `!nodeBefore` case, a cursor at the start of the block, is `EnterKey`'s `from == 0` branch.

## Findings

| source | as written | input that shows it | evidently intended | confidence | as-written member | corrected member |
|---|---|---|---|---|---|---|
| src/index.ts:175-177 | the collapsed-cursor branch inserts `schema.text(trimmedText, [mark])` through `tr.replaceSelectionWith`. Its default `inheritMarks` replaces the node's marks with the stored marks or the marks at the cursor, so the link built for the node is dropped | pasting `https://x.io` with the cursor in unlinked text inserts `https://x.io` with no link | the inserted address is linked to itself, as the range branch does and the code comment at line 173 says | medium, not executed; depends on `replaceSelectionWith` in prosemirror-state | Autolink.PasteAsWritten, Autolink.PasteAsWrittenLosesLink | Autolink.Paste |
