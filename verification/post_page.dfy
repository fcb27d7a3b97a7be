/** A blog post page: `renderPost` writes a post as a standalone HTML page
    and `parsePost` reads title, date and body back out of such a page with
    three regular expressions. */
module PostPage {
  import opened Wrappers
  import opened Text
  import opened Regex
  import opened Escape
  import opened Markup

  datatype Post = Post(slug: string, title: string, date: string, body: string)

  /** What `parsePost` recovers from a page. */
  datatype Parsed = Parsed(title: string, date: string, body: string)

  /** Document head up to the opening `<title>` tag. */
  const PostHead: Chrome
  /** From the end of the page title through the stylesheet, the terminal
      header and the back link, up to the `$ cat ` of the prompt. */
  const PostMast: Chrome
  /** Footer with the blinking cursor, the theme script and the closing tags. */
  const PostTail: Chrome

  // ---------------------------------------------------------------------
  // Rendering

  /** The paragraphs of a body: split at blank lines, trimmed, blank ones
      dropped. */
  function Paragraphs(body: string): (r: seq<string>)
    ensures forall k :: 0 <= k < |r| ==> |r[k]| > 0 && Trimmed(r[k])
  {
    Clean(SplitBlank(body))
  }

  /** `filter(p => p.trim())` followed by the trim of each survivor. */
  function Clean(ps: seq<string>): (r: seq<string>)
    ensures |r| <= |ps|
    ensures forall k :: 0 <= k < |r| ==> |r[k]| > 0 && Trimmed(r[k])
    decreases |ps|
  {
    if |ps| == 0 then []
    else (if Trim(ps[0]) == "" then [] else [Trim(ps[0])]) + Clean(ps[1..])
  }

  function EscapeEach(ps: seq<string>): (r: seq<string>)
    ensures |r| == |ps| && forall k :: 0 <= k < |ps| ==> r[k] == EscapeHtml(ps[k])
    decreases |ps|
  {
    if |ps| == 0 then [] else [EscapeHtml(ps[0])] + EscapeEach(ps[1..])
  }

  /** One paragraph of the post body, already escaped. */
  function ParaItem(e: string): string {
    "        " + ParaOpen + e + ParaClose
  }

  function Items(es: seq<string>): (r: seq<string>)
    ensures |r| == |es| && forall k :: 0 <= k < |es| ==> r[k] == ParaItem(es[k])
    decreases |es|
  {
    if |es| == 0 then [] else [ParaItem(es[0])] + Items(es[1..])
  }

  /** Everything between `<div class="post-body">` and `</div>`. */
  function BodyText(body: string): string {
    "\n" + Join(Items(EscapeEach(Paragraphs(body))), "\n\n") + "\n      "
  }

  /** The page up to the title heading: head, page title, stylesheet,
      terminal header and the `$ cat <slug>.txt` prompt. */
  function PageHead(p: Post): string {
    PostHead + EscapeHtml(p.title) + PostMast + EscapeHtml(p.slug) + ".txt" + "</p>\n\n      "
  }

  /** The page after the title heading, from the date line on. */
  function AfterTitle(p: Post): string {
    "\n      " + DateOpen + EscapeHtml(p.date) + DateClose + AfterDate(p)
  }

  /** The page after the date line, from the body on. */
  function AfterDate(p: Post): string {
    "\n\n      " + BodyOpen + BodyText(p.body) + BodyClose + PostTail
  }

  /** `renderPost({ slug, title, date, body })`. */
  function RenderPost(p: Post): string {
    PageHead(p) + TitleOpen + EscapeHtml(p.title) + TitleClose + AfterTitle(p)
  }

  /** The page up to the date line. */
  function BeforeDate(p: Post): string {
    PageHead(p) + TitleOpen + EscapeHtml(p.title) + TitleClose + "\n      "
  }

  /** The page up to the body. */
  function BeforeBody(p: Post): string {
    BeforeDate(p) + DateOpen + EscapeHtml(p.date) + DateClose + "\n\n      "
  }

  lemma RenderAtDate(p: Post)
    ensures RenderPost(p) == BeforeDate(p) + DateOpen + EscapeHtml(p.date) + DateClose + AfterDate(p)
  {
    Regroup(PageHead(p) + TitleOpen + EscapeHtml(p.title) + TitleClose,
      "\n      ", DateOpen, EscapeHtml(p.date), DateClose, AfterDate(p));
  }

  lemma RenderAtBody(p: Post)
    ensures RenderPost(p) == BeforeBody(p) + BodyOpen + BodyText(p.body) + BodyClose + PostTail
  {
    RenderAtDate(p);
    Regroup(BeforeDate(p) + DateOpen + EscapeHtml(p.date) + DateClose,
      "\n\n      ", BodyOpen, BodyText(p.body), BodyClose, PostTail);
  }

  // ---------------------------------------------------------------------
  // Parsing

  function DecodeEach(gs: seq<string>): (r: seq<string>)
    ensures |r| == |gs| && forall k :: 0 <= k < |gs| ==> r[k] == DecodeEntities(Trim(gs[k]))
    decreases |gs|
  {
    if |gs| == 0 then [] else [DecodeEntities(Trim(gs[0]))] + DecodeEach(gs[1..])
  }

  /** `parsePost(html)`. Title and date are taken as they stand in the page,
      entities included; only body paragraphs are trimmed and decoded.
      Title and date are found with `.`, so neither spans a line. */
  function ParsePost(html: string): (r: Parsed)
    ensures NoLineBreak(r.title) && NoLineBreak(r.date)
  {
    var title := GroupOrEmpty(html, TitleOpen, TitleClose, false);
    var date := GroupOrEmpty(html, DateOpen, DateClose, false);
    var body :=
      match FirstMatch(html, BodyOpen, BodyClose, true, 0)
      case None => ""
      case Some(sp) =>
        Join(DecodeEach(AllGroups(html[sp.start..sp.end], ParaOpen, ParaClose)), "\n\n");
    Parsed(title, date, body)
  }

  // ---------------------------------------------------------------------
  // Which tags can begin where

  /** The prompt line's end holds no page tag. */
  lemma PromptEndFree(m: string)
    requires m == TitleOpen || m == DateOpen || m == BodyOpen
    ensures MarkerFree(".txt", m) && MarkerFree("</p>\n\n      ", m)
    ensures MarkerFree("\n      ", m) && MarkerFree("\n\n      ", m)
  {
    QuietFree(".txt", m);
    QuietFree("\n      ", m);
    QuietFree("\n\n      ", m);
    TagFree("</p>\n\n      ", m, 1);
  }

  lemma EscapedFree(s: string, m: string)
    requires |m| > 0 && m[0] == '<'
    ensures MarkerFree(EscapeHtml(s), m)
  {
    EscapeNoMarkup(s);
    QuietFree(EscapeHtml(s), m);
  }

  /** The page head holds none of the three tags the parser looks for. */
  lemma PageHeadFree(p: Post, m: string)
    requires m == TitleOpen || m == DateOpen || m == BodyOpen
    ensures MarkerFree(PageHead(p), m)
  {
    PromptEndFree(m);
    EscapedFree(p.title, m);
    EscapedFree(p.slug, m);
    MarkerFreeConcat(PostHead, EscapeHtml(p.title), m);
    MarkerFreeConcat(PostHead + EscapeHtml(p.title), PostMast, m);
    MarkerFreeConcat(PostHead + EscapeHtml(p.title) + PostMast, EscapeHtml(p.slug), m);
    MarkerFreeConcat(PostHead + EscapeHtml(p.title) + PostMast + EscapeHtml(p.slug), ".txt", m);
    MarkerFreeConcat(PostHead + EscapeHtml(p.title) + PostMast + EscapeHtml(p.slug) + ".txt", "</p>\n\n      ", m);
  }

  lemma BeforeDateFree(p: Post, m: string)
    requires m == DateOpen || m == BodyOpen
    ensures MarkerFree(BeforeDate(p), m)
  {
    PageHeadFree(p, m);
    PromptEndFree(m);
    TagsFree();
    EscapedFree(p.title, m);
    MarkerFreeConcat(PageHead(p), TitleOpen, m);
    MarkerFreeConcat(PageHead(p) + TitleOpen, EscapeHtml(p.title), m);
    MarkerFreeConcat(PageHead(p) + TitleOpen + EscapeHtml(p.title), TitleClose, m);
    MarkerFreeConcat(PageHead(p) + TitleOpen + EscapeHtml(p.title) + TitleClose, "\n      ", m);
  }

  lemma BeforeBodyFree(p: Post)
    ensures MarkerFree(BeforeBody(p), BodyOpen)
  {
    var m := BodyOpen;
    BeforeDateFree(p, m);
    PromptEndFree(m);
    TagsFree();
    EscapedFree(p.date, m);
    MarkerFreeConcat(BeforeDate(p), DateOpen, m);
    MarkerFreeConcat(BeforeDate(p) + DateOpen, EscapeHtml(p.date), m);
    MarkerFreeConcat(BeforeDate(p) + DateOpen + EscapeHtml(p.date), DateClose, m);
    MarkerFreeConcat(BeforeDate(p) + DateOpen + EscapeHtml(p.date) + DateClose, "\n\n      ", m);
  }

  /** A paragraph item starts none of the tags that cannot start at its own
      `<p>` or `</p>`. */
  lemma ItemFree(e: string, m: string)
    requires '<' !in e && |m| > 0 && m[0] == '<'
    requires MarkerFree(ParaOpen, m) && MarkerFree(ParaClose, m)
    ensures MarkerFree(ParaItem(e), m)
  {
    QuietFree("        ", m);
    QuietFree(e, m);
    MarkerFreeConcat("        ", ParaOpen, m);
    MarkerFreeConcat("        " + ParaOpen, e, m);
    MarkerFreeConcat("        " + ParaOpen + e, ParaClose, m);
  }

  lemma BodyTextFree(body: string, m: string)
    requires |m| > 0 && m[0] == '<'
    requires MarkerFree(ParaOpen, m) && MarkerFree(ParaClose, m)
    ensures MarkerFree(BodyText(body), m)
  {
    var es := EscapeEach(Paragraphs(body));
    var items := Items(es);
    forall k | 0 <= k < |items|
      ensures MarkerFree(items[k], m)
    {
      EscapeNoMarkup(Paragraphs(body)[k]);
      ItemFree(es[k], m);
    }
    QuietFree("\n\n", m);
    QuietFree("\n", m);
    QuietFree("\n      ", m);
    JoinFree(items, "\n\n", m);
    MarkerFreeConcat("\n", Join(items, "\n\n"), m);
    MarkerFreeConcat("\n" + Join(items, "\n\n"), "\n      ", m);
  }

  // ---------------------------------------------------------------------
  // Reading a rendered page back

  /** A title without line breaks comes back escaped, not as written. */
  lemma ParseRenderTitle(p: Post)
    requires NoLineBreak(p.title)
    ensures ParsePost(RenderPost(p)).title == EscapeHtml(p.title)
  {
    PageHeadFree(p, TitleOpen);
    EscapedFree(p.title, TitleClose);
    EscapeLineBreaks(p.title);
    GroupIn(PageHead(p), TitleOpen, EscapeHtml(p.title), TitleClose, AfterTitle(p), false);
  }

  /** A date without line breaks comes back escaped. */
  lemma ParseRenderDate(p: Post)
    requires NoLineBreak(p.date)
    ensures ParsePost(RenderPost(p)).date == EscapeHtml(p.date)
  {
    RenderAtDate(p);
    BeforeDateFree(p, DateOpen);
    EscapedFree(p.date, DateClose);
    EscapeLineBreaks(p.date);
    GroupIn(BeforeDate(p), DateOpen, EscapeHtml(p.date), DateClose, AfterDate(p), false);
  }

  /** The group the body expression captures is the rendered body text. */
  lemma BodyMatch(p: Post)
    ensures var html := RenderPost(p);
      FirstMatch(html, BodyOpen, BodyClose, true, 0).Some?
      && var sp := FirstMatch(html, BodyOpen, BodyClose, true, 0).value;
         html[sp.start..sp.end] == BodyText(p.body)
  {
    RenderAtBody(p);
    BodyFacts(p);
    FirstMatchIn(BeforeBody(p), BodyOpen, BodyText(p.body), BodyClose, PostTail, true);
    Pieces(BeforeBody(p), BodyOpen, BodyText(p.body), BodyClose, PostTail);
  }

  lemma BodyFacts(p: Post)
    ensures MarkerFree(BeforeBody(p), BodyOpen) && MarkerFree(BodyText(p.body), BodyClose)
  {
    BeforeBodyFree(p);
    TagsFree();
    BodyTextFree(p.body, BodyClose);
  }

  lemma ItemsHead(es: seq<string>)
    requires |es| > 0
    ensures |es| == 1 ==> Join(Items(es), "\n\n") == ParaItem(es[0])
    ensures |es| > 1 ==> Join(Items(es), "\n\n") == ParaItem(es[0]) + "\n\n" + Join(Items(es[1..]), "\n\n")
  {
    assert Items(es)[1..] == Items(es[1..]);
  }

  lemma ItemSplit(lead: string, item: string, sep: string, rest: string, tail: string)
    ensures lead + (item + sep + rest) + tail == lead + item + (sep + rest + tail)
  {
  }

  lemma EmptyFront(a: string, b: string, c: string)
    ensures "" + a + b + c == a + b + c
  {
    assert "" + a == a;
  }

  lemma Regroup3(a: string, b: string, c: string, d: string)
    ensures a + b + c + d == a + (b + c + d)
  {
  }

  lemma Regroup5(a: string, b: string, c: string, d: string, e: string, f: string)
    ensures a + b + c + d + e + f == a + (b + c + d + e + f)
  {
  }

  lemma ItemAsMatch(lead: string, e: string, post: string)
    ensures lead + ParaItem(e) + post == (lead + "        ") + ParaOpen + e + ParaClose + post
  {
  }

  /** The global `<p>` expression, searching from the end of text `x`,
      finds exactly the escaped paragraphs, in order, in a run of paragraph
      items. */
  lemma {:induction false} ItemsGroups(x: string, lead: string, es: seq<string>, tail: string)
    requires '<' !in lead && '<' !in tail
    requires forall k :: 0 <= k < |es| ==> '<' !in es[k]
    ensures GroupsFrom(x + lead + Join(Items(es), "\n\n") + tail, ParaOpen, ParaClose, |x|) == es
    decreases |es|
  {
    var s := x + lead + Join(Items(es), "\n\n") + tail;
    if |es| == 0 {
      assert s == x + (lead + tail);
      QuietFree(lead + tail, ParaOpen);
      GroupsNone(x, lead + tail, ParaOpen, ParaClose);
    } else {
      var post := if |es| == 1 then tail else "\n\n" + Join(Items(es[1..]), "\n\n") + tail;
      var pre := lead + "        ";
      ItemsHead(es);
      if |es| > 1 {
        ItemSplit(lead, ParaItem(es[0]), "\n\n", Join(Items(es[1..]), "\n\n"), tail);
      }
      assert lead + Join(Items(es), "\n\n") + tail == lead + ParaItem(es[0]) + post;
      ItemAsMatch(lead, es[0], post);
      Regroup3(x, lead, Join(Items(es), "\n\n"), tail);
      Regroup5(x, pre, ParaOpen, es[0], ParaClose, post);
      QuietFree(pre, ParaOpen);
      QuietFree(es[0], ParaClose);
      GroupsStep(x, pre, ParaOpen, es[0], ParaClose, post);
      var x' := x + pre + ParaOpen + es[0] + ParaClose;
      assert s == x' + post;
      if |es| == 1 {
        QuietFree(tail, ParaOpen);
        GroupsNone(x', tail, ParaOpen, ParaClose);
      } else {
        Regroup3(x', "\n\n", Join(Items(es[1..]), "\n\n"), tail);
        ItemsGroups(x', "\n\n", es[1..], tail);
      }
      assert [es[0]] + es[1..] == es;
    }
  }

  lemma BodyGroups(body: string)
    ensures AllGroups(BodyText(body), ParaOpen, ParaClose) == EscapeEach(Paragraphs(body))
  {
    var es := EscapeEach(Paragraphs(body));
    forall k | 0 <= k < |es|
      ensures '<' !in es[k]
    {
      EscapeNoMarkup(Paragraphs(body)[k]);
    }
    ItemsGroups("", "\n", es, "\n      ");
    EmptyFront("\n", Join(Items(es), "\n\n"), "\n      ");
  }

  /** Decoding undoes escaping paragraph by paragraph. */
  lemma {:induction false} DecodeEachEscape(ps: seq<string>)
    requires forall k :: 0 <= k < |ps| ==> Trimmed(ps[k]) && NoEntityText(ps[k])
    ensures DecodeEach(EscapeEach(ps)) == ps
    decreases |ps|
  {
    if |ps| > 0 {
      EscapeTrimmed(ps[0]);
      TrimTrimmed(EscapeHtml(ps[0]));
      DecodeEscape(ps[0]);
      DecodeEachEscape(ps[1..]);
      assert EscapeEach(ps)[1..] == EscapeEach(ps[1..]);
      assert [ps[0]] + ps[1..] == ps;
    }
  }

  lemma {:induction false} CleanAbsent(ps: seq<string>, m: string)
    requires forall k :: 0 <= k < |ps| ==> Absent(ps[k], m)
    ensures forall k :: 0 <= k < |Clean(ps)| ==> Absent(Clean(ps)[k], m)
    decreases |ps|
  {
    if |ps| > 0 {
      CleanAbsent(ps[1..], m);
      var t := Trim(ps[0]);
      AbsentSlice(ps[0], m, TrimOffset(ps[0]), TrimOffset(ps[0]) + |t|);
    }
  }

  lemma {:induction false} CleanNoBlank(ps: seq<string>)
    requires forall k :: 0 <= k < |ps| ==> NoBlankLine(ps[k])
    ensures forall k :: 0 <= k < |Clean(ps)| ==> NoBlankLine(Clean(ps)[k])
    decreases |ps|
  {
    if |ps| > 0 {
      CleanNoBlank(ps[1..]);
      var t := Trim(ps[0]);
      NoBlankLineSlice(ps[0], TrimOffset(ps[0]), TrimOffset(ps[0]) + |t|);
    }
  }

  /** Paragraphs already trimmed and non-blank pass the filter unchanged. */
  lemma {:induction false} CleanFixed(ps: seq<string>)
    requires forall k :: 0 <= k < |ps| ==> |ps[k]| > 0 && Trimmed(ps[k])
    ensures Clean(ps) == ps
    decreases |ps|
  {
    if |ps| > 0 {
      TrimTrimmed(ps[0]);
      CleanFixed(ps[1..]);
      assert [ps[0]] + ps[1..] == ps;
    }
  }

  /** A body without entity text comes back as its paragraphs, trimmed and
      joined by one blank line. */
  lemma ParseRenderBody(p: Post)
    requires NoEntityText(p.body)
    ensures ParsePost(RenderPost(p)).body == Join(Paragraphs(p.body), "\n\n")
  {
    var ps := Paragraphs(p.body);
    BodyMatch(p);
    BodyGroups(p.body);
    SplitBlankPieces(p.body, "&lt;");
    SplitBlankPieces(p.body, "&gt;");
    SplitBlankPieces(p.body, "&quot;");
    SplitBlankPieces(p.body, "&#39;");
    CleanAbsent(SplitBlank(p.body), "&lt;");
    CleanAbsent(SplitBlank(p.body), "&gt;");
    CleanAbsent(SplitBlank(p.body), "&quot;");
    CleanAbsent(SplitBlank(p.body), "&#39;");
    DecodeEachEscape(ps);
  }

  /** Splitting the joined paragraphs again gives the same paragraphs. */
  lemma ParagraphsIdempotent(body: string)
    ensures Paragraphs(Join(Paragraphs(body), "\n\n")) == Paragraphs(body)
  {
    var ps := Paragraphs(body);
    if |ps| == 0 {
      assert Join(ps, "\n\n") == "";
      NoParagraphs();
    } else {
      SplitBlankPieces(body, "");
      CleanNoBlank(SplitBlank(body));
      forall k | 0 <= k < |ps|
        ensures ps[k][0] != '\n' && ps[k][|ps[k]| - 1] != '\n'
      {
        assert IsJsSpace('\n');
      }
      SplitJoin(ps);
      CleanFixed(ps);
    }
  }

  /** A single blank piece is filtered out. */
  lemma CleanBlank(x: string)
    requires Trim(x) == ""
    ensures Clean([x]) == []
  {
    assert [x][1..] == [];
  }

  lemma NoParagraphs()
    ensures Paragraphs("") == []
  {
    assert BlankFrom("", 0) == 0;
    assert SplitBlank("") == [""];
    CleanBlank("");
  }

  /** Saving the body the page gives back renders the same page again. */
  lemma RenderParsedBody(p: Post)
    requires NoEntityText(p.body)
    ensures RenderPost(p.(body := ParsePost(RenderPost(p)).body)) == RenderPost(p)
  {
    ParseRenderBody(p);
    ParagraphsIdempotent(p.body);
  }

  /** A title holding a line break is lost: the title expression cannot
      cross the line, and no later title tag exists to match instead. */
  lemma ParseRenderTitleBreak(p: Post)
    requires !NoLineBreak(p.title)
    ensures ParsePost(RenderPost(p)).title == ""
  {
    var e := EscapeHtml(p.title);
    EscapeLineBreaks(p.title);
    var j :| 0 <= j < |e| && IsLineTerminator(e[j]);
    TitleBreakSkips(p, j);
    TitleNoneAfter(p);
  }

  /** The search passes the title's opening tag when the title holds a line
      break. */
  lemma TitleBreakSkips(p: Post, j: nat)
    requires j < |EscapeHtml(p.title)| && IsLineTerminator(EscapeHtml(p.title)[j])
    ensures |PageHead(p)| < |RenderPost(p)|
    ensures FirstMatch(RenderPost(p), TitleOpen, TitleClose, false, 0)
         == FirstMatch(RenderPost(p), TitleOpen, TitleClose, false, |PageHead(p)| + 1)
  {
    var pre := PageHead(p);
    var e := EscapeHtml(p.title);
    EscapedFree(p.title, TitleClose);
    PageHeadFree(p, TitleOpen);
    SkipPre(pre, TitleOpen, e, TitleClose, AfterTitle(p), false);
    FirstMatchBreak(pre, TitleOpen, e, TitleClose, AfterTitle(p), j);
  }

  /** No title tag follows the first one's opening `<`. */
  lemma TitleNoneAfter(p: Post)
    requires |PageHead(p)| < |RenderPost(p)|
    ensures FirstMatch(RenderPost(p), TitleOpen, TitleClose, false, |PageHead(p)| + 1) == None
  {
    var pre := PageHead(p);
    var e := EscapeHtml(p.title);
    var rest := TitleOpen[1..] + e + TitleClose + AfterTitle(p);
    TitleRestFree(p);
    TitleOpenSplit(pre, e, AfterTitle(p));
    NoneAfter(pre + TitleOpen[..1], rest, TitleOpen);
    FirstMatchNoneFrom(RenderPost(p), TitleOpen, TitleClose, false, |pre| + 1);
  }

  lemma TitleOpenSplit(pre: string, e: string, post: string)
    ensures pre + TitleOpen + e + TitleClose + post
         == (pre + TitleOpen[..1]) + (TitleOpen[1..] + e + TitleClose + post)
  {
    assert TitleOpen == TitleOpen[..1] + TitleOpen[1..];
  }

  lemma AfterDateFree(p: Post, m: string)
    requires m == TitleOpen
    ensures MarkerFree(AfterDate(p), m)
  {
    PromptEndFree(m);
    TagsFree();
    BodyTextFree(p.body, m);
    MarkerFreeConcat("\n\n      ", BodyOpen, m);
    MarkerFreeConcat("\n\n      " + BodyOpen, BodyText(p.body), m);
    MarkerFreeConcat("\n\n      " + BodyOpen + BodyText(p.body), BodyClose, m);
    MarkerFreeConcat("\n\n      " + BodyOpen + BodyText(p.body) + BodyClose, PostTail, m);
  }

  lemma AfterTitleFree(p: Post, m: string)
    requires m == TitleOpen
    ensures MarkerFree(AfterTitle(p), m)
  {
    PromptEndFree(m);
    TagsFree();
    EscapedFree(p.date, m);
    AfterDateFree(p, m);
    MarkerFreeConcat("\n      ", DateOpen, m);
    MarkerFreeConcat("\n      " + DateOpen, EscapeHtml(p.date), m);
    MarkerFreeConcat("\n      " + DateOpen + EscapeHtml(p.date), DateClose, m);
    MarkerFreeConcat("\n      " + DateOpen + EscapeHtml(p.date) + DateClose, AfterDate(p), m);
  }

  /** Past the first character of the title tag, no title tag begins. */
  lemma TitleRestFree(p: Post)
    ensures MarkerFree(TitleOpen[1..] + EscapeHtml(p.title) + TitleClose + AfterTitle(p), TitleOpen)
  {
    var m := TitleOpen;
    TagsFree();
    EscapedFree(p.title, m);
    AfterTitleFree(p, m);
    MarkerFreeConcat(TitleOpen[1..], EscapeHtml(p.title), m);
    MarkerFreeConcat(TitleOpen[1..] + EscapeHtml(p.title), TitleClose, m);
    MarkerFreeConcat(TitleOpen[1..] + EscapeHtml(p.title) + TitleClose, AfterTitle(p), m);
  }

  /** Pages without the tags give empty fields. */
  lemma ParseMissing(html: string)
    ensures Absent(html, TitleOpen) ==> ParsePost(html).title == ""
    ensures Absent(html, DateOpen) ==> ParsePost(html).date == ""
    ensures Absent(html, BodyOpen) ==> ParsePost(html).body == ""
  {
    if Absent(html, TitleOpen) {
      FirstMatchAbsent(html, TitleOpen, TitleClose, false);
    }
    if Absent(html, DateOpen) {
      FirstMatchAbsent(html, DateOpen, DateClose, false);
    }
    if Absent(html, BodyOpen) {
      FirstMatchAbsent(html, BodyOpen, BodyClose, true);
    }
  }

  /** Entities in a title survive the trip as entities: a post titled
      `Q&A` is read back as titled `Q&amp;A`. */
  lemma TitleStaysEscaped(p: Post)
    requires p.title == "Q&A"
    ensures ParsePost(RenderPost(p)).title == "Q&amp;A"
  {
    ParseRenderTitle(p);
    EscapeQandA();
  }
}
