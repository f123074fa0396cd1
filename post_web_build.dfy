/**
 * The post-export patch of the web build's `docs/index.html`: a page that
 * does not yet carry the visit-notification script gets it inserted in
 * front of every `<script src="index.js"></script>` tag.
 *
 * The filesystem is factored out: the document is an `Option<string>`
 * (None when the file does not exist), the decision is an `Outcome`, and
 * the exit status, the console line and the text written back, before
 * newline translation, are functions of the outcome.
 */
module PostWebBuild {
  import opened Text
  import opened WebhookSnippet

  datatype Option<T> = None | Some(value: T)

  /** The indentation written between the snippet and the anchor. */
  const Indent: string := "    "

  /** What every anchor is replaced with. */
  const Replacement: string := Snippet + Indent + Anchor

  datatype Outcome =
    | MissingFile
    | AlreadyApplied
    | MissingAnchor
    | Injected(newContent: string)

  /** The checks in the script's order: existence, idempotence marker,
      anchor; only then the rewrite. */
  function Patch(file: Option<string>): (r: Outcome)
    ensures r.MissingFile? <==> file.None?
    ensures r.AlreadyApplied? <==> file.Some? && Contains(file.value, IdempotenceMarker)
    ensures r.MissingAnchor? <==>
      file.Some? && !Contains(file.value, IdempotenceMarker) && !Contains(file.value, Anchor)
    ensures r.Injected? ==>
      Contains(r.newContent, IdempotenceMarker) && Contains(r.newContent, Anchor)
  {
    match file
    case None => MissingFile
    case Some(content) =>
      if Contains(content, IdempotenceMarker) then AlreadyApplied
      else if !Contains(content, Anchor) then MissingAnchor
      else
        InjectedIsMarked(content);
        Injected(ReplaceAll(content, Anchor, Replacement))
  }

  /** The process exit status: 1 for the two errors, 0 otherwise. */
  function ExitCode(o: Outcome): (code: int)
    ensures code == 0 || code == 1
    ensures code == 0 <==> o.AlreadyApplied? || o.Injected?
  {
    match o
    case MissingFile => 1
    case MissingAnchor => 1
    case AlreadyApplied => 0
    case Injected(_) => 0
  }

  datatype Stream = Stdout | Stderr

  /** The one line a run writes to the console. */
  datatype Message = Message(stream: Stream, text: string)

  function Report(o: Outcome): (m: Message)
    ensures m.stream == Stderr <==> ExitCode(o) != 0
    ensures o.MissingAnchor? ==> Contains(m.text, Anchor)
  {
    match o
    case MissingFile =>
      Message(Stderr, "Error: docs/index.html not found. Run the Godot web export first.")
    case AlreadyApplied =>
      Message(Stdout, "Webhook snippet already present, skipping.")
    case MissingAnchor =>
      var prefix, suffix := "Error: could not find \"", "\" in docs/index.html";
      assert OccursAt(prefix + Anchor + suffix, Anchor, |prefix|);
      Message(Stderr, prefix + Anchor + suffix)
    case Injected(_) =>
      Message(Stdout, "Webhook snippet injected into docs/index.html")
  }

  /** The text a run writes back, before newline translation: it is
      written only on injection. */
  function Run(file: Option<string>): (after: Option<string>)
    ensures after != file ==> Patch(file).Injected?
    ensures Patch(file).Injected? ==> after == Some(Patch(file).newContent)
  {
    match Patch(file)
    case Injected(c) => Some(c)
    case _ => file
  }

  // ---------------------------------------------------------------------
  // What an injection produces

  /** Replacing every anchor by a well-marked text followed by the anchor
      leaves both the marker and the anchor in a page that had an anchor. */
  lemma RewriteMarked(content: string, ins: string)
    requires Contains(content, Anchor) && WellMarked(ins)
    ensures Contains(ReplaceAll(content, Anchor, ins + Anchor), IdempotenceMarker)
    ensures Contains(ReplaceAll(content, Anchor, ins + Anchor), Anchor)
  {
    var rep := ins + Anchor;
    var r := ReplaceAll(content, Anchor, rep);
    ReplaceAllContainsReplacement(content, Anchor, rep);
    OccursExtended([], ins, Anchor, IdempotenceMarker, 22);
    OccursInMiddle(ins, Anchor, []);
    assert [] + ins + Anchor == rep && ins + Anchor + [] == rep;
    ContainsTransitive(r, rep, IdempotenceMarker);
    ContainsTransitive(r, rep, Anchor);
  }

  /** A rewrite of a document holding the anchor carries both the marker and
      the anchor, so a second run finds the marker and stops. */
  lemma InjectedIsMarked(content: string)
    requires Contains(content, Anchor)
    ensures Contains(ReplaceAll(content, Anchor, Replacement), IdempotenceMarker)
    ensures Contains(ReplaceAll(content, Anchor, Replacement), Anchor)
  {
    SnippetWellMarked(Indent, Snippet + Indent);
    RewriteMarked(content, Snippet + Indent);
  }

  /** The rewrite keeps the text before the first anchor, puts the
      replacement (snippet, indent, anchor) in place of that anchor, and
      treats the text after it the same way. */
  lemma InjectedAtFirstAnchor(content: string, k: nat)
    requires !Contains(content, IdempotenceMarker)
    requires OccursAt(content, Anchor, k)
    requires forall j :: 0 <= j < k ==> !OccursAt(content, Anchor, j)
    ensures Patch(Some(content)) == Injected(
      content[..k] + Replacement + ReplaceAll(content[k + |Anchor|..], Anchor, Replacement))
  {
    ReplaceAllAtFirst(content, Anchor, Replacement, k);
  }

  /** A document with exactly one anchor, at offset k, comes out as
      content[..k] + Snippet + Indent + content[k..]. */
  lemma InjectedSingleAnchor(content: string, k: nat)
    requires !Contains(content, IdempotenceMarker)
    requires OccursAt(content, Anchor, k)
    requires forall j :: 0 <= j <= |content| && j != k ==> !OccursAt(content, Anchor, j)
    ensures Patch(Some(content)) == Injected(content[..k] + Snippet + Indent + content[k..])
  {
    ReplaceAllSingle(content, Anchor, Replacement, k);
    SpliceBeforeMatch(content, k, Snippet, Indent, Anchor);
  }

  /** Putting a text in front of every anchor grows the page by that text
      once per anchor. */
  lemma RewriteLength(content: string, ins: string)
    ensures |ReplaceAll(content, Anchor, ins + Anchor)|
      == |content| + Count(content, Anchor) * |ins|
  {
    ReplaceAllLength(content, Anchor, ins + Anchor);
    var grow := |ins + Anchor| - |Anchor|;
    assert grow == |ins|;
  }

  /** An injection rewrites at least one anchor, and each anchor grows the
      document by the snippet and its indent. */
  lemma InjectedLength(content: string)
    requires Patch(Some(content)).Injected?
    ensures Count(content, Anchor) > 0
    ensures |Patch(Some(content)).newContent|
      == |content| + Count(content, Anchor) * |Snippet + Indent|
  {
    CountPositive(content, Anchor);
    RewriteLength(content, Snippet + Indent);
  }

  /** Running the script a second time changes nothing, and after a
      successful first run the second one reports "already applied". */
  lemma RunIdempotent(file: Option<string>)
    ensures Run(Run(file)) == Run(file)
    ensures Patch(file).Injected? || Patch(file).AlreadyApplied? ==>
      Patch(Run(file)) == AlreadyApplied && ExitCode(Patch(Run(file))) == 0
    ensures Patch(file).MissingFile? || Patch(file).MissingAnchor? ==>
      Patch(Run(file)) == Patch(file)
  {
  }

  // ---------------------------------------------------------------------
  // Marker and anchor positions after injecting into a one-anchor page

  /** Putting s + i + a in place of a match of `a` at k is inserting s + i
      in front of it. */
  lemma SpliceBeforeMatch(content: string, k: nat, s: string, i: string, a: string)
    requires OccursAt(content, a, k)
    ensures content[..k] + (s + i + a) + content[k + |a|..] == content[..k] + s + i + content[k..]
  {
    assert content[k..] == a + content[k + |a|..];
  }

  /** Regrouping the pieces of a spliced page. */
  lemma Regroup(pre: string, s: string, i: string, post: string)
    ensures pre + (s + i) + post == pre + s + i + post
  {
  }

  /** Positions in content[..k] + mid + content[k..] that lie wholly before
      or wholly after `mid` are positions in `content`. */
  lemma OccursAroundInsertion(content: string, k: nat, mid: string, pat: string, j: int)
    requires k <= |content| && OccursAt(content[..k] + mid + content[k..], pat, j)
    ensures j + |pat| <= k ==> OccursAt(content, pat, j)
    ensures k + |mid| <= j ==> OccursAt(content, pat, j - |mid|)
    ensures k <= j && j + |pat| <= k + |mid| ==> OccursAt(mid, pat, j - k)
  {
    var n := content[..k] + mid + content[k..];
    if j + |pat| <= k {
      assert n[j..j + |pat|] == content[j..j + |pat|];
    }
    if k + |mid| <= j {
      assert n[j..j + |pat|] == content[j - |mid|..j - |mid| + |pat|];
    }
    if k <= j && j + |pat| <= k + |mid| {
      assert n[j..j + |pat|] == mid[j - k..j - k + |pat|];
    }
  }

  /** A match starting before the inserted text and ending inside it would
      hold the text's two leading spaces; neither pattern has two spaces in
      a row, nor a space as its last character. */
  lemma NotAcrossStart(content: string, k: nat, mid: string, pat: string, j: int)
    requires k <= |content| && WellMarked(mid)
    requires pat == IdempotenceMarker || pat == Anchor
    requires j < k < j + |pat|
    ensures !OccursAt(content[..k] + mid + content[k..], pat, j)
  {
    var n := content[..k] + mid + content[k..];
    assert n[k] == ' ' && n[k + 1] == ' ';
    if pat[k - j] != ' ' {
      MismatchAt(n, pat, j, k);
    } else {
      MismatchAt(n, pat, j, k + 1);
    }
  }

  /** A marker running past the inserted text would hold the page anchor's
      '<', which the marker does not contain. */
  lemma MarkerNotAcrossEnd(content: string, k: nat, mid: string, j: int)
    requires OccursAt(content, Anchor, k)
    requires j < k + |mid| < j + |IdempotenceMarker|
    ensures !OccursAt(content[..k] + mid + content[k..], IdempotenceMarker, j)
  {
    var n := content[..k] + mid + content[k..];
    CharOfMatch(content, Anchor, k, k);
    assert n[k + |mid|] == '<';
    MismatchAt(n, IdempotenceMarker, j, k + |mid|);
  }

  /** A marker inside the inserted text is pinned by its 'V'. */
  lemma MarkerInside(content: string, k: nat, mid: string, j: int)
    requires k <= |content| && WellMarked(mid)
    requires OccursAt(content[..k] + mid + content[k..], IdempotenceMarker, j)
    requires k <= j && j + |IdempotenceMarker| <= k + |mid|
    ensures j == k + 22
  {
    OccursAroundInsertion(content, k, mid, IdempotenceMarker, j);
    PinnedByChar(mid, IdempotenceMarker, 1, 23, j - k);
  }

  /** Inserting a well-marked text in front of an anchor of a page without
      the marker puts exactly one marker in the page, at 22 past the
      anchor's old offset. */
  lemma MarkerOnceAroundAnchor(content: string, k: nat, mid: string, j: int)
    requires !Contains(content, IdempotenceMarker)
    requires OccursAt(content, Anchor, k)
    requires WellMarked(mid)
    ensures OccursAt(content[..k] + mid + content[k..], IdempotenceMarker, j) <==> j == k + 22
  {
    var n := content[..k] + mid + content[k..];
    var m := IdempotenceMarker;
    if j == k + 22 {
      OccursExtended(content[..k], mid, content[k..], m, 22);
    } else if j < k < j + |m| {
      NotAcrossStart(content, k, mid, m, j);
    } else if j < k + |mid| < j + |m| {
      MarkerNotAcrossEnd(content, k, mid, j);
    } else if OccursAt(n, m, j) {
      OccursAroundInsertion(content, k, mid, m, j);
      if k <= j && j + |m| <= k + |mid| {
        MarkerInside(content, k, mid, j);
      }
    }
  }

  /** An anchor whose 'x' (its character at index 17) would lie in the inserted
      text does not match, since that text has no 'x'. */
  lemma AnchorNotOverText(content: string, k: nat, mid: string, j: int)
    requires k <= |content| && WellMarked(mid)
    requires k <= j + 17 < k + |mid|
    ensures !OccursAt(content[..k] + mid + content[k..], Anchor, j)
  {
    var n := content[..k] + mid + content[k..];
    assert n[j + 17] == mid[j + 17 - k];
    MismatchAt(n, Anchor, j, j + 17);
  }

  /** An anchor running past the inserted text, with its 'x' beyond it, would
      hold the page anchor's '<' among its first eighteen characters, where
      it has none but the first. */
  lemma AnchorNotAcrossEnd(content: string, k: nat, mid: string, j: int)
    requires OccursAt(content, Anchor, k)
    requires j < k + |mid| <= j + 17
    ensures !OccursAt(content[..k] + mid + content[k..], Anchor, j)
  {
    var n := content[..k] + mid + content[k..];
    CharOfMatch(content, Anchor, k, k);
    assert n[k + |mid|] == '<';
    MismatchAt(n, Anchor, j, k + |mid|);
  }

  /** Inserting a well-marked text in front of the only anchor of a page
      leaves exactly one anchor, right after the inserted text. */
  lemma AnchorOnceAroundAnchor(content: string, k: nat, mid: string, j: int)
    requires OccursAt(content, Anchor, k)
    requires forall i :: 0 <= i <= |content| && i != k ==> !OccursAt(content, Anchor, i)
    requires WellMarked(mid)
    ensures OccursAt(content[..k] + mid + content[k..], Anchor, j) <==> j == k + |mid|
  {
    var n := content[..k] + mid + content[k..];
    var a := Anchor;
    if j == k + |mid| {
      ShiftOccurs(content, a, k, 0);
      OccursExtended(content[..k] + mid, content[k..], [], a, 0);
    } else if j < k < j + |a| {
      NotAcrossStart(content, k, mid, a, j);
    } else if k <= j + 17 < k + |mid| {
      AnchorNotOverText(content, k, mid, j);
    } else if j < k + |mid| < j + |a| {
      AnchorNotAcrossEnd(content, k, mid, j);
    } else if OccursAt(n, a, j) {
      OccursAroundInsertion(content, k, mid, a, j);
    }
  }

  /** Injecting into a page with one anchor, at k, leaves exactly one
      marker, inside the snippet, 22 characters past k. */
  lemma MarkerOnceAfterInjection(content: string, k: nat, page: string)
    requires OccursAt(content, Anchor, k)
    requires forall i :: 0 <= i <= |content| && i != k ==> !OccursAt(content, Anchor, i)
    requires Patch(Some(content)) == Injected(page)
    ensures forall j :: OccursAt(page, IdempotenceMarker, j) <==> j == k + 22
  {
    InjectedSingleAnchor(content, k);
    SnippetWellMarked(Indent, Snippet + Indent);
    Regroup(content[..k], Snippet, Indent, content[k..]);
    forall j {
      MarkerOnceAroundAnchor(content, k, Snippet + Indent, j);
    }
  }

  /** Injecting into a page with one anchor, at k, leaves exactly one
      anchor, right after the snippet and its indent. */
  lemma AnchorOnceAfterInjection(content: string, k: nat, page: string)
    requires OccursAt(content, Anchor, k)
    requires forall i :: 0 <= i <= |content| && i != k ==> !OccursAt(content, Anchor, i)
    requires Patch(Some(content)) == Injected(page)
    ensures forall j :: OccursAt(page, Anchor, j) <==> j == k + |Snippet + Indent|
  {
    InjectedSingleAnchor(content, k);
    SnippetWellMarked(Indent, Snippet + Indent);
    Regroup(content[..k], Snippet, Indent, content[k..]);
    forall j {
      AnchorOnceAroundAnchor(content, k, Snippet + Indent, j);
    }
  }
}
