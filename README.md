# Web-build webhook patch, modelled in Dafny

`post_web_build.py` runs after each Godot web export. It opens
`docs/index.html` and takes the first of these branches that applies:
- If the file is missing, it exits with status 1.
- If the page already contains the text `CV visit notification`, it stops
  with status 0.
- If the page lacks the tag `<script src="index.js"></script>`, it exits
  with status 1.
- Otherwise it replaces every such tag with a visit-notification
  `<script>` block (`SNIPPET`), four spaces and the tag itself, writes the
  page back and reports success.

The model states this as pure functions over strings:

- `text.dfy` (module `Text`) holds Python's `in`, `str.count` and
  `str.replace` on `seq<char>`: `Contains`, `Count` and `ReplaceAll`.
  Matching is non-overlapping and left to right. The script never calls
  `str.count`; `Count` is there only to state how much an injection grows
  the page. It also holds lemmas about
  where matches lie after a replacement.
- `snippet.dfy` (module `WebhookSnippet`) holds three constants:
  - `Snippet` is the 771-character text of lines 12-30, except the webhook
    token (see "## Left out").
  - `IdempotenceMarker` is the text tested at line 41.
  - `Anchor` is the tag at line 45, which the script names `marker`.

  `WellMarked` names the facts about the snippet that the proofs use:
  - it starts with two spaces;
  - the marker sits at offset 22;
  - it has no `x`, which is the anchor's character at index 17;
  - its only `V` is the one in the marker.
- `post_web_build.dfy` (module `PostWebBuild`) holds the run itself:
  - `Patch` makes the decision. The file is an `Option<string>`, and the
    result is an `Outcome`: `MissingFile`, `AlreadyApplied`,
    `MissingAnchor` or `Injected(newContent)`.
  - `ExitCode`, `Report` and `Run` give the exit status, the console line
    and the text the run writes back, before newline translation.
  - The remaining lemmas are about the injected page.
- `scenarios.dfy` (module `Scenarios`) holds three concrete runs:
  - a page without the anchor;
  - a page with one anchor;
  - a second run over the patched page.

The model follows the code where a plain-language description of the script
could suggest otherwise:
- Every occurrence of the anchor is replaced, not only the first
  (`str.replace`, line 50).
- The inserted text is the snippet followed by four spaces. On a page with
  one anchor at offset k, the result is
  `content[..k] + SNIPPET + "    " + content[k..]`, not
  `content[..k] + SNIPPET + content[k..]`.

## Model

| member | source | states |
|---|---|---|
| Text.Contains | post_web_build.py:41-46 | Python's `pat in s`: some i with `s[i..i + \|pat\|] == pat`; its ensures state that the empty pattern is always contained and that a contained pattern is no longer than the string |
| Text.ReplaceAll | post_web_build.py:50 | Python's `s.replace(pat, rep)`: every leftmost, non-overlapping match is replaced, and an empty pattern puts `rep` around every character; it has no ensures of its own: `ReplaceAllAbsent` and `ReplaceAllAtFirst` pin it down for every non-empty pattern, which includes the script's anchor; the empty-pattern case is given by the body alone |
| Text.CountPositive | post_web_build.py:46-50 | `str.count` finds at least one match exactly when `pat in s` holds, so a page that passes the anchor check has a positive anchor count |
| Text.FirstOccurrence | post_web_build.py:46 | a string containing the pattern has a leftmost occurrence: a match at k and none before it |
| Text.ReplaceAllAbsent | post_web_build.py:50 | `replace` returns a string with no match unchanged |
| Text.ReplaceAllAtFirst | post_web_build.py:50 | with the leftmost match at k, `replace` keeps `s[..k]`, puts the replacement there and continues after the match |
| Text.ReplaceAllSingle | post_web_build.py:50 | with exactly one match at k, `replace` is the splice `s[..k] + rep + s[k + \|pat\|..]` |
| Text.ReplaceAllContainsReplacement | post_web_build.py:50 | if the pattern occurs, the result of `replace` contains the replacement text |
| Text.ReplaceAllLength | post_web_build.py:50 | the result's length is `\|s\| + count * (\|rep\| - \|pat\|)` |
| WebhookSnippet.SnippetWellMarked | post_web_build.py:12-30 | the snippet followed by any text without `x` and `V` starts with two spaces, has the marker at 22, has no `x`, and has its only `V` at 23 |
| WebhookSnippet.WellMarkedLacksAnchor | post_web_build.py:12-30 | a well-marked text never contains the anchor, so the snippet cannot itself match the tag searched for at line 45 |
| WebhookSnippet.SnippetFacts | post_web_build.py:12-30 | the snippet contains the marker text tested at line 41 and does not contain the anchor of line 45 |
| PostWebBuild.Patch | post_web_build.py:35-50 | the four outcomes in the script's order: a missing file first; then the marker (present means already applied, whether or not the anchor is there); then the anchor; and only then the rewrite, whose result contains both the marker and the anchor |
| PostWebBuild.ExitCode | post_web_build.py:35-52 | status 1 exactly for the missing file and the missing anchor, 0 for "already applied" and for an injection |
| PostWebBuild.Report | post_web_build.py:35-52 | the ensures state that the line goes to stderr exactly when the status is nonzero and that the missing-anchor line names the anchor; the body defines the four lines' exact texts |
| PostWebBuild.Run | post_web_build.py:50-51 | the file changes only on injection, and then holds the rewritten page |
| PostWebBuild.RewriteMarked | post_web_build.py:50 | replacing every anchor of a page that has one by a well-marked text plus the anchor leaves both the marker and the anchor in the page |
| PostWebBuild.InjectedIsMarked | post_web_build.py:41-50 | the rewrite with `SNIPPET + "    " + marker` contains the idempotence marker and the anchor |
| PostWebBuild.InjectedAtFirstAnchor | post_web_build.py:50 | an injection keeps the text before the first anchor, puts snippet, indent and anchor in its place and rewrites the rest the same way |
| PostWebBuild.InjectedSingleAnchor | post_web_build.py:50 | on a page with one anchor at k and no marker, the new page is `content[..k] + SNIPPET + "    " + content[k..]` |
| PostWebBuild.RewriteLength | post_web_build.py:50 | inserting a text in front of every anchor adds that text's length once per anchor |
| PostWebBuild.InjectedLength | post_web_build.py:46-50 | an injection rewrites at least one anchor and grows the page by (\|SNIPPET\| + 4) times the number of anchors |
| PostWebBuild.RunIdempotent | post_web_build.py:41-51 | a second run leaves the file as the first left it; after an injection or a skip, the second run reports "already applied" with status 0; after an error, it fails the same way |
| PostWebBuild.NotAcrossStart | post_web_build.py:50 | no marker or anchor match can begin before the inserted text and end inside it |
| PostWebBuild.MarkerOnceAroundAnchor | post_web_build.py:50 | inserting a well-marked text in front of an anchor of a page without the marker puts the marker at exactly one offset, 22 past the anchor's |
| PostWebBuild.AnchorOnceAroundAnchor | post_web_build.py:50 | inserting a well-marked text in front of a page's only anchor leaves exactly one anchor, right after the inserted text |
| PostWebBuild.MarkerOnceAfterInjection | post_web_build.py:41-50 | after injecting into a page with one anchor at k, the marker occurs exactly once, at k + 22 |
| PostWebBuild.AnchorOnceAfterInjection | post_web_build.py:45-50 | after injecting into a page with one anchor at k, the anchor occurs exactly once, at k + \|SNIPPET\| + 4 |
| Scenarios.NoAnchorPage | post_web_build.py:45-48 | `<html><body></body></html>` yields the missing-anchor error: status 1, stderr, file unchanged |
| Scenarios.OneAnchorPage | post_web_build.py:50-52 | a page with the anchor after `<head></head><body>` gets snippet and indent right before the anchor: status 0 and the success line |
| Scenarios.SecondRunOnPatchedPage | post_web_build.py:41-43 | running over that result changes nothing and reports "already present"; the marker occurs once in it |

## Left out

- Locating `docs/index.html` next to the script and `file.exists()` (lines 33-35): the file is an `Option<string>` input, and `None` means it does not exist.
- `read_text` and `write_text` with UTF-8 (lines 39 and 51): the page is a `seq<char>`. `Run` gives the text the script writes, before newline translation. Decoding, encoding and write failures are not modelled.
- Newline translation: `read_text` turns "\r\n" and "\r" into "\n", and `write_text` writes each "\n" as the platform's line separator. Only an injection writes the file. Any injection into a page with "\r\n" or "\r" line ends, and any injection on Windows, leaves bytes on disk that differ from `Run`'s text. Neither the marker nor the anchor contains "\r" or "\n", so every decision is unaffected.
- Read failures (line 39): a `docs/index.html` that exists but cannot be read, such as a directory or a file without read permission, makes the script stop with a traceback and status 1. No `Outcome` stands for that.
- `print` and `sys.exit` (lines 36-52): they are the `Report` message and the `ExitCode` status. Ending the process early is the choice of one `Outcome`.
- What the inserted JavaScript does in a browser (lines 13-29): the snippet is payload text, and only its characters matter here.
- WebhookSnippet.Snippet: the webhook token on line 17 is a same-length placeholder. The id, the length (771) and every fact proved about the snippet are unchanged, but the credential is not reproduced.
- PostWebBuild.MarkerOnceAfterInjection: stated only for pages with one anchor. For n anchors the model proves that the marker is present (`InjectedIsMarked`), not that it occurs exactly n times.
- PostWebBuild.AnchorOnceAfterInjection: stated only for pages with one anchor. For more anchors, `InjectedAtFirstAnchor` gives the shape of the rewrite.
