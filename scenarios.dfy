/**
 * Three concrete runs of the patch: a page without the anchor, a page with
 * one anchor, and a second run over the patched page.
 */
module Scenarios {
  import opened Text
  import opened WebhookSnippet
  import opened PostWebBuild

  /** A page without the anchor. */
  const PageWithoutAnchor: string := "<html><body></body></html>"

  /** A page with one anchor, between a head and a closing body tag. */
  const Head: string := "<head></head><body>"
  const Tail: string := "</body>"
  const PageWithAnchor: string := Head + Anchor + Tail

  /** The page without the anchor is an error: exit status 1, a line on the
      error stream, and the file is left as it was. */
  lemma NoAnchorPage()
    ensures Patch(Some(PageWithoutAnchor)) == MissingAnchor
    ensures ExitCode(Patch(Some(PageWithoutAnchor))) == 1
    ensures Report(Patch(Some(PageWithoutAnchor))).stream == Stderr
    ensures Run(Some(PageWithoutAnchor)) == Some(PageWithoutAnchor)
  {
    assert NoChar(PageWithoutAnchor, 'x') && NoChar(PageWithoutAnchor, 'V');
    assert Anchor[17] == 'x' && IdempotenceMarker[1] == 'V';
    AbsentByChar(PageWithoutAnchor, Anchor, 17);
    AbsentByChar(PageWithoutAnchor, IdempotenceMarker, 1);
  }

  /** The page's only anchor is at 19, and the page has no marker. */
  lemma PageWithAnchorFacts()
    ensures OccursAt(PageWithAnchor, Anchor, |Head|) && |Head| == 19
    ensures forall i :: 0 <= i <= |PageWithAnchor| && i != 19 ==> !OccursAt(PageWithAnchor, Anchor, i)
    ensures !Contains(PageWithAnchor, IdempotenceMarker)
  {
    assert NoChar(Head, 'x') && NoChar(Tail, 'x');
    assert NoChar(Head, 'V') && NoChar(Tail, 'V') && NoChar(Anchor, 'V');
    assert Anchor[17] == 'x' && IdempotenceMarker[1] == 'V';
    assert forall i :: 0 <= i < |Anchor| && Anchor[i] == 'x' ==> i == 17;
    OccursInMiddle(Head, Anchor, Tail);
    UniqueCharInMiddle(Head, Anchor, Tail, 'x', 17);
    forall i | 0 <= i <= |PageWithAnchor| && i != 19
      ensures !OccursAt(PageWithAnchor, Anchor, i)
    {
      if OccursAt(PageWithAnchor, Anchor, i) {
        PinnedByChar(PageWithAnchor, Anchor, 17, 36, i);
      }
    }
    NoCharAppend(Head, Anchor, 'V');
    NoCharAppend(Head + Anchor, Tail, 'V');
    AbsentByChar(PageWithAnchor, IdempotenceMarker, 1);
  }

  /** Splitting a + b + c after `a` and inserting s + i there. */
  lemma InsertAfterFirst(a: string, b: string, c: string, s: string, i: string)
    ensures (a + b + c)[..|a|] + s + i + (a + b + c)[|a|..] == a + s + i + b + c
  {
    var p := a + b + c;
    assert p[..|a|] == a;
    assert p[|a|..] == b + c;
  }

  /** The page with one anchor gets the snippet and its indent right in
      front of the anchor, and the run succeeds. */
  lemma OneAnchorPage()
    ensures Patch(Some(PageWithAnchor)) == Injected(Head + Snippet + Indent + Anchor + Tail)
    ensures ExitCode(Patch(Some(PageWithAnchor))) == 0
    ensures Report(Patch(Some(PageWithAnchor))) == Message(Stdout, "Webhook snippet injected into docs/index.html")
    ensures Run(Some(PageWithAnchor)) == Some(Head + Snippet + Indent + Anchor + Tail)
  {
    PageWithAnchorFacts();
    InjectedSingleAnchor(PageWithAnchor, 19);
    InsertAfterFirst(Head, Anchor, Tail, Snippet, Indent);
  }

  /** Running again over the patched page changes nothing, reports that the
      snippet is already there, and the marker occurs once, 22 characters
      past where the anchor was. */
  lemma SecondRunOnPatchedPage()
    ensures Run(Run(Some(PageWithAnchor))) == Run(Some(PageWithAnchor))
    ensures Patch(Run(Some(PageWithAnchor))) == AlreadyApplied
    ensures ExitCode(Patch(Run(Some(PageWithAnchor)))) == 0
    ensures Report(Patch(Run(Some(PageWithAnchor)))) == Message(Stdout, "Webhook snippet already present, skipping.")
    ensures Run(Some(PageWithAnchor)).Some?
    ensures forall j :: OccursAt(Run(Some(PageWithAnchor)).value, IdempotenceMarker, j) <==> j == 41
  {
    PageWithAnchorFacts();
    RunIdempotent(Some(PageWithAnchor));
    MarkerOnceAfterInjection(PageWithAnchor, 19, Patch(Some(PageWithAnchor)).newContent);
  }
}
