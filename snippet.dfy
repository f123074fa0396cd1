/**
 * The text the patch inserts: a script block that reports each visit of
 * the page to a webhook, together with the two marker strings the patch
 * searches for.
 *
 * The snippet's seventeen lines are written out below, cut into literals
 * of at most twelve characters and grouped into named parts of at most
 * eighty; the text is the same except the webhook token, and the parts let the verifier inspect the
 * snippet character by character, part by part.
 */
module WebhookSnippet {
  import opened Text

  /** Text whose presence means the snippet is already in the page. */
  const IdempotenceMarker: string := "CV visit notification"

  /** The tag in front of which the snippet goes. */
  const Anchor: string := "<script src=\"index.js\"></script>"

  /** post_web_build.py line 13 and line 14 up to the marker. */
  const SnippetOpen: string :=
      "    <script>" + "\n"
    + "      // "

  /** post_web_build.py line 14 after the marker, lines 15-16: the function wrapper and the endpoint variable. */
  const SnippetIife: string :=
      "\n"
    + "      (" + "function () " + "{\n"
    + "        " + "const " + "webhook =\n"

  /** post_web_build.py line 17 up to the webhook id. */
  const SnippetUrlHost: string :=
      "          " + "\"https://" + "discord.com/" + "api/webhooks" + "/14700879613" + "61125486/"

  /** post_web_build.py line 17 from the webhook token on; the token itself
      is a placeholder of the same length. */
  const SnippetUrlToken: string :=
      "REDACTED-WEB" + "HOOK-TOKEN-0" + "000000000000" + "000000000000" + "000000000000" + "00000000\";\n"

  /** post_web_build.py line 18 up to the options: the visit time. */
  const SnippetTime: string :=
      "        " + "const time =" + " new Date()." + "toLocaleStri" + "ng(\"en-GB\", "

  /** post_web_build.py line 18 from the options on: formatted in UTC. */
  const SnippetTimeZone: string :=
      "{ timeZone: " + "\"UTC\" });\n"

  /** post_web_build.py line 19 up to the lookup: the page's query string. */
  const SnippetRefQuery: string :=
      "        " + "const ref = " + "new URLSearc" + "hParams(" + "window." + "location." + "search)"

  /** post_web_build.py line 19 from the lookup on: its "ref" parameter. */
  const SnippetRefGet: string :=
      ".get(" + "\"ref\");\n"

  /** post_web_build.py line 20: where the visit came from. */
  const SnippetSource: string :=
      "        " + "const " + "source = " + "ref || " + "document." + "referrer || " + "\"Direct / " + "Unknown\";\n"

  /** post_web_build.py lines 21-22: the POST request. */
  const SnippetFetch: string :=
      "        " + "fetch(" + "webhook, {\n"
    + "          " + "method: " + "\"POST\",\n"

  /** post_web_build.py line 23. */
  const SnippetHeaders: string :=
      "          " + "headers: { " + "\"Content-Typ" + "e\": \"applica" + "tion/json\" " + "},\n"

  /** post_web_build.py line 24. */
  const SnippetBody: string :=
      "          " + "body: JSON." + "stringify({\n"

  /** post_web_build.py line 25 up to the title; the line is a raw string, so its backslashes are literal. */
  const SnippetContentHead: string :=
      @"            " + @"content: " + @"`\u{1F3AE} " + @"**Autobattle" + @"r opened!**"

  /** post_web_build.py line 25 from the title on. */
  const SnippetContentTail: string :=
      @"\n\u23F0 " + @"${time} " + @"UTC\n\u{1F3E" + @"2} Source: " + @"**${source}*" + @"*`," + "\n"

  /** post_web_build.py lines 26-29. */
  const SnippetClose: string :=
      "          " + "}),\n"
    + "        })." + "catch(() => " + "{});\n"
    + "      })();\n"
    + "    </" + "script>\n"

  /** The parts after the marker, in order. */
  const RestParts: seq<string> := [
    SnippetIife,
    SnippetUrlHost,
    SnippetUrlToken,
    SnippetTime,
    SnippetTimeZone,
    SnippetRefQuery,
    SnippetRefGet,
    SnippetSource,
    SnippetFetch,
    SnippetHeaders,
    SnippetBody,
    SnippetContentHead,
    SnippetContentTail,
    SnippetClose
  ]

  /** Everything after the marker. */
  const SnippetRest: string := Join(RestParts)

  /** The whole snippet; its second line carries the marker. */
  const Snippet: string := SnippetOpen + IdempotenceMarker + SnippetRest

  // ---------------------------------------------------------------------
  // Characters of the snippet, part by part: neither the anchor's 'x' nor
  // the marker's 'V' occurs outside the marker. Each part has one lemma per
  // character: a lemma stating both facts about a part costs the verifier
  // about twice as much, and more than half its budget for the longest parts.

  lemma IifeLacksX()
    ensures NoChar(SnippetIife, 'x')
  {
  }

  lemma IifeLacksV()
    ensures NoChar(SnippetIife, 'V')
  {
  }

  lemma UrlHostLacksX()
    ensures NoChar(SnippetUrlHost, 'x')
  {
  }

  lemma UrlHostLacksV()
    ensures NoChar(SnippetUrlHost, 'V')
  {
  }

  lemma UrlTokenLacksX()
    ensures NoChar(SnippetUrlToken, 'x')
  {
  }

  lemma UrlTokenLacksV()
    ensures NoChar(SnippetUrlToken, 'V')
  {
  }

  lemma TimeLacksX()
    ensures NoChar(SnippetTime, 'x')
  {
  }

  lemma TimeLacksV()
    ensures NoChar(SnippetTime, 'V')
  {
  }

  lemma TimeZoneLacksX()
    ensures NoChar(SnippetTimeZone, 'x')
  {
  }

  lemma TimeZoneLacksV()
    ensures NoChar(SnippetTimeZone, 'V')
  {
  }

  lemma RefQueryLacksX()
    ensures NoChar(SnippetRefQuery, 'x')
  {
  }

  lemma RefQueryLacksV()
    ensures NoChar(SnippetRefQuery, 'V')
  {
  }

  lemma RefGetLacksX()
    ensures NoChar(SnippetRefGet, 'x')
  {
  }

  lemma RefGetLacksV()
    ensures NoChar(SnippetRefGet, 'V')
  {
  }

  lemma SourceLacksX()
    ensures NoChar(SnippetSource, 'x')
  {
  }

  lemma SourceLacksV()
    ensures NoChar(SnippetSource, 'V')
  {
  }

  lemma FetchLacksX()
    ensures NoChar(SnippetFetch, 'x')
  {
  }

  lemma FetchLacksV()
    ensures NoChar(SnippetFetch, 'V')
  {
  }

  lemma HeadersLacksX()
    ensures NoChar(SnippetHeaders, 'x')
  {
  }

  lemma HeadersLacksV()
    ensures NoChar(SnippetHeaders, 'V')
  {
  }

  lemma BodyLacksX()
    ensures NoChar(SnippetBody, 'x')
  {
  }

  lemma BodyLacksV()
    ensures NoChar(SnippetBody, 'V')
  {
  }

  lemma ContentHeadLacksX()
    ensures NoChar(SnippetContentHead, 'x')
  {
  }

  lemma ContentHeadLacksV()
    ensures NoChar(SnippetContentHead, 'V')
  {
  }

  lemma ContentTailLacksX()
    ensures NoChar(SnippetContentTail, 'x')
  {
  }

  lemma ContentTailLacksV()
    ensures NoChar(SnippetContentTail, 'V')
  {
  }

  lemma CloseLacksX()
    ensures NoChar(SnippetClose, 'x')
  {
  }

  lemma CloseLacksV()
    ensures NoChar(SnippetClose, 'V')
  {
  }

  lemma RestLacksX()
    ensures NoChar(SnippetRest, 'x')
  {
    IifeLacksX();
    UrlHostLacksX();
    UrlTokenLacksX();
    TimeLacksX();
    TimeZoneLacksX();
    RefQueryLacksX();
    RefGetLacksX();
    SourceLacksX();
    FetchLacksX();
    HeadersLacksX();
    BodyLacksX();
    ContentHeadLacksX();
    ContentTailLacksX();
    CloseLacksX();
    JoinLacks(RestParts, 'x');
  }

  lemma RestLacksV()
    ensures NoChar(SnippetRest, 'V')
  {
    IifeLacksV();
    UrlHostLacksV();
    UrlTokenLacksV();
    TimeLacksV();
    TimeZoneLacksV();
    RefQueryLacksV();
    RefGetLacksV();
    SourceLacksV();
    FetchLacksV();
    HeadersLacksV();
    BodyLacksV();
    ContentHeadLacksV();
    ContentTailLacksV();
    CloseLacksV();
    JoinLacks(RestParts, 'V');
  }

  lemma OpenFacts()
    ensures NoChar(SnippetOpen, 'x') && NoChar(SnippetOpen, 'V')
    ensures |SnippetOpen| == 22 && SnippetOpen[0] == ' ' && SnippetOpen[1] == ' '
  {
  }

  // ---------------------------------------------------------------------
  // What the patch relies on

  /** The shape of a text inserted in front of the anchor that the proofs
      about the patched page rely on: it carries the marker 22 characters
      in, starts with two spaces, has no 'x' (so it cannot hold the anchor)
      and its only 'V' is the marker's own. */
  predicate WellMarked(ins: string) {
    OccursAt(ins, IdempotenceMarker, 22)
    && ins[0] == ' ' && ins[1] == ' '
    && NoChar(ins, 'x')
    && forall i :: 0 <= i < |ins| && ins[i] == 'V' ==> i == 23
  }

  /** A text made of a 22-character opening, the marker, a rest and a
      padding, none of them holding an 'x' or a 'V' outside the marker, is
      well marked. */
  lemma WellMarkedAround(open: string, rest: string, pad: string)
    requires |open| == 22 && open[0] == ' ' && open[1] == ' '
    requires NoChar(open, 'x') && NoChar(open, 'V')
    requires NoChar(rest, 'x') && NoChar(rest, 'V')
    requires NoChar(pad, 'x') && NoChar(pad, 'V')
    ensures WellMarked(open + IdempotenceMarker + rest + pad)
  {
    var m := IdempotenceMarker;
    var tail := rest + pad;
    assert NoChar(m, 'x') && m[1] == 'V';
    assert forall i :: 0 <= i < |m| && m[i] == 'V' ==> i == 1;
    NoCharAppend(rest, pad, 'x');
    NoCharAppend(rest, pad, 'V');
    NoCharAppend(open, m, 'x');
    NoCharAppend(open + m, tail, 'x');
    OccursInMiddle(open, m, tail);
    UniqueCharInMiddle(open, m, tail, 'V', 1);
    assert open + m + tail == open + m + rest + pad;
  }

  /** A well-marked text cannot contain the anchor: the anchor has an 'x'. */
  lemma WellMarkedLacksAnchor(ins: string)
    requires WellMarked(ins)
    ensures !Contains(ins, Anchor)
  {
    assert Anchor[17] == 'x';
    AbsentByChar(ins, Anchor, 17);
  }

  /** The snippet, followed by any padding free of 'x' and 'V', is well
      marked; `ins` names the padded text. */
  lemma SnippetWellMarked(pad: string, ins: string)
    requires NoChar(pad, 'x') && NoChar(pad, 'V') && ins == Snippet + pad
    ensures WellMarked(ins)
  {
    OpenFacts();
    RestLacksX();
    RestLacksV();
    WellMarkedAround(SnippetOpen, SnippetRest, pad);
  }

  /** The snippet carries the marker and does not carry the anchor. */
  lemma SnippetFacts()
    ensures Contains(Snippet, IdempotenceMarker) && !Contains(Snippet, Anchor)
  {
    assert NoChar([], 'x') && NoChar([], 'V');
    SnippetWellMarked([], Snippet);
    assert Snippet + [] == Snippet;
    WellMarkedLacksAnchor(Snippet);
  }
}
