/** The pieces both generated pages are assembled from: the tags the parser
    searches for, the fixed page chrome, and concatenation of a list of
    pieces. */
module Markup {
  import opened Text
  import opened Regex

  const TitleOpen: string := "<h1 class=\"post-title\">"
  const TitleClose: string := "</h1>"
  const DateOpen: string := "<p class=\"post-date\">"
  const DateClose: string := "</p>"
  const BodyOpen: string := "<div class=\"post-body\">"
  const BodyClose: string := "</div>"
  const ParaOpen: string := "<p>"
  const ParaClose: string := "</p>"
  const ItemOpen: string := "<li>"

  /** Tags that differ from one another at their second or third character
      cannot begin inside one another. */
  lemma TagsFree()
    ensures MarkerFree(TitleOpen, DateOpen) && MarkerFree(TitleOpen, BodyOpen)
    ensures MarkerFree(TitleClose, TitleOpen) && MarkerFree(TitleClose, DateOpen) && MarkerFree(TitleClose, BodyOpen)
    ensures MarkerFree(DateOpen, TitleOpen) && MarkerFree(DateOpen, BodyOpen)
    ensures MarkerFree(DateClose, TitleOpen) && MarkerFree(DateClose, BodyOpen)
    ensures MarkerFree(BodyOpen, TitleOpen) && MarkerFree(BodyClose, TitleOpen)
    ensures MarkerFree(ParaOpen, TitleOpen) && MarkerFree(ParaClose, TitleOpen)
    ensures MarkerFree(ParaOpen, BodyClose) && MarkerFree(ParaClose, BodyClose)
    ensures MarkerFree(TitleOpen[1..], TitleOpen)
  {
    TitleTagsFree();
    DateTagsFree();
    BodyTagsFree();
  }

  lemma TitleTagsFree()
    ensures MarkerFree(TitleOpen, DateOpen) && MarkerFree(TitleOpen, BodyOpen)
    ensures MarkerFree(TitleClose, TitleOpen) && MarkerFree(TitleClose, DateOpen) && MarkerFree(TitleClose, BodyOpen)
    ensures MarkerFree(TitleOpen[1..], TitleOpen)
  {
    TitleQuiet();
    TagFree(TitleOpen, DateOpen, 1);
    TagFree(TitleOpen, BodyOpen, 1);
    TagFree(TitleClose, TitleOpen, 1);
    TagFree(TitleClose, DateOpen, 1);
    TagFree(TitleClose, BodyOpen, 1);
    QuietFree(TitleOpen[1..], TitleOpen);
  }

  lemma DateTagsFree()
    ensures MarkerFree(DateOpen, TitleOpen) && MarkerFree(DateOpen, BodyOpen)
    ensures MarkerFree(DateClose, TitleOpen) && MarkerFree(DateClose, BodyOpen)
  {
    DateQuiet();
    TagFree(DateOpen, TitleOpen, 1);
    TagFree(DateOpen, BodyOpen, 1);
    TagFree(DateClose, TitleOpen, 1);
    TagFree(DateClose, BodyOpen, 1);
  }

  lemma BodyTagsFree()
    ensures MarkerFree(BodyOpen, TitleOpen) && MarkerFree(BodyClose, TitleOpen)
    ensures MarkerFree(ParaOpen, TitleOpen) && MarkerFree(ParaClose, TitleOpen)
    ensures MarkerFree(ParaOpen, BodyClose) && MarkerFree(ParaClose, BodyClose)
  {
    BodyQuiet();
    TagFree(BodyOpen, TitleOpen, 1);
    TagFree(BodyClose, TitleOpen, 1);
    TagFree(ParaOpen, TitleOpen, 1);
    TagFree(ParaClose, TitleOpen, 1);
    TagFree(ParaOpen, BodyClose, 1);
    TagFree(ParaClose, BodyClose, 2);
  }

  /** After its opening `<`, a tag holds no other `<`. */
  lemma QuietTail(s: string, t: string)
    requires s == "<" + t && '<' !in t
    ensures |s| > 0 && s[0] == '<' && '<' !in s[1..]
  {
    assert s[1..] == t;
  }

  lemma TitleQuiet()
    ensures '<' !in TitleOpen[1..] && '<' !in TitleClose[1..]
  {
    QuietTail(TitleOpen, "h1 class=\"post-title\">");
    QuietTail(TitleClose, "/h1>");
  }

  lemma DateQuiet()
    ensures '<' !in DateOpen[1..] && '<' !in DateClose[1..]
  {
    QuietTail(DateOpen, "p class=\"post-date\">");
    QuietTail(DateClose, "/p>");
  }

  lemma BodyQuiet()
    ensures '<' !in BodyOpen[1..] && '<' !in BodyClose[1..]
    ensures '<' !in ParaOpen[1..] && '<' !in ParaClose[1..]
  {
    QuietTail(BodyOpen, "div class=\"post-body\">");
    QuietTail(BodyClose, "/div>");
    QuietTail(ParaOpen, "p>");
    QuietTail(ParaClose, "/p>");
  }

  /** Fixed page text (document head, stylesheet, terminal header, footer and
      theme script). Its characters are not modelled; what matters to the
      parser and to the listing is that none of the searched-for tags can
      begin inside it. */
  predicate ChromeText(s: string) {
    MarkerFree(s, TitleOpen) && MarkerFree(s, DateOpen)
    && MarkerFree(s, BodyOpen) && MarkerFree(s, ItemOpen)
  }

  type Chrome = s: string | ChromeText(s) witness ""

  /** Moving the start of a nested concatenation into the text before it. */
  lemma Regroup(x: string, a: string, b: string, c: string, d: string, y: string)
    ensures x + ((((a + b) + c) + d) + y) == x + a + b + c + d + y
  {
  }

  /** A join of marker-free pieces with a marker-free separator is marker-free. */
  lemma {:induction false} JoinFree(parts: seq<string>, sep: string, m: string)
    requires MarkerFree(sep, m)
    requires forall k :: 0 <= k < |parts| ==> MarkerFree(parts[k], m)
    ensures MarkerFree(Join(parts, sep), m)
    decreases |parts|
  {
    if |parts| > 1 {
      JoinFree(parts[1..], sep, m);
      MarkerFreeConcat(parts[0], sep, m);
      MarkerFreeConcat(parts[0] + sep, Join(parts[1..], sep), m);
    }
  }

  /** Text without `<` starts no tag. */
  lemma QuietFree(s: string, m: string)
    requires '<' !in s && |m| > 0 && m[0] == '<'
    ensures MarkerFree(s, m)
  {
    MarkerFreeNoHead(s, m);
  }

  /** A single tag whose name differs from the marker's at offset `k` starts
      no occurrence of the marker. */
  lemma TagFree(s: string, m: string, k: nat)
    requires |m| > 0 && m[0] == '<' && |s| > 0 && s[0] == '<' && '<' !in s[1..]
    requires 0 < k < |s| && k < |m| && s[k] != m[k]
    ensures MarkerFree(s, m)
  {
    MarkerFreeTag(s, m, k);
  }
}
