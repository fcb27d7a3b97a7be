/** The blog listing: `renderIndex` sorts post summaries newest first and
    writes one list item per post. */
module IndexPage {
  import opened Text
  import opened Regex
  import opened Escape
  import opened Markup

  /** What the listing shows of a post. */
  datatype Summary = Summary(slug: string, title: string, date: string)

  /** The page up to and including the opening `<ul class="post-list">`
      line: head, stylesheet, terminal header and prompt. */
  const IndexTop: Chrome
  /** From the closing `</ul>` through the footer, theme script and end. */
  const IndexBottom: Chrome

  // ---------------------------------------------------------------------
  // Ordering

  /** `a` sorts strictly before `b` by character order; a proper prefix sorts
      first. */
  predicate LexLess(a: string, b: string)
    decreases |a|
  {
    if |a| == 0 then |b| > 0
    else if |b| == 0 then false
    else if a[0] != b[0] then a[0] < b[0]
    else LexLess(a[1..], b[1..])
  }

  lemma {:induction false} LexIrreflexive(a: string)
    ensures !LexLess(a, a)
    decreases |a|
  {
    if |a| > 0 {
      LexIrreflexive(a[1..]);
    }
  }

  lemma {:induction false} LexTrans(a: string, b: string, c: string)
    requires LexLess(a, b) && LexLess(b, c)
    ensures LexLess(a, c)
    decreases |a|
  {
    if |a| > 0 && a[0] == b[0] && b[0] == c[0] {
      LexTrans(a[1..], b[1..], c[1..]);
    }
  }

  lemma {:induction false} LexTotal(a: string, b: string)
    ensures a == b || LexLess(a, b) || LexLess(b, a)
    decreases |a|
  {
    if |a| > 0 && |b| > 0 && a[0] == b[0] {
      LexTotal(a[1..], b[1..]);
      if a[1..] == b[1..] {
        assert a == [a[0]] + a[1..] && b == [b[0]] + b[1..];
      }
    }
  }

  lemma LexAsym(a: string, b: string)
    requires LexLess(a, b)
    ensures !LexLess(b, a)
  {
    if LexLess(b, a) {
      LexTrans(a, b, a);
      LexIrreflexive(a);
    }
  }

  /** "Not before" is transitive. */
  lemma LexNotLessTrans(a: string, b: string, c: string)
    requires !LexLess(a, b) && !LexLess(b, c)
    ensures !LexLess(a, c)
  {
    LexTotal(a, b);
    LexTotal(b, c);
    if LexLess(a, c) {
      if a == b {
      } else if b == c {
      } else {
        LexTrans(c, b, a);
        LexAsym(c, a);
      }
    }
  }

  /** No later entry has a newer date than an earlier one. */
  predicate Sorted(s: seq<Summary>) {
    forall i, j :: 0 <= i < j < |s| ==> !LexLess(s[i].date, s[j].date)
  }

  /** Places `x` before the first entry that is not newer than it. */
  function Insert(x: Summary, ys: seq<Summary>): (r: seq<Summary>)
    ensures multiset(r) == multiset(ys) + multiset{x}
    ensures |r| == |ys| + 1
    decreases |ys|
  {
    if |ys| == 0 then [x]
    else if !LexLess(x.date, ys[0].date) then [x] + ys
    else
      assert multiset(ys) == multiset{ys[0]} + multiset(ys[1..]) by {
        assert ys == [ys[0]] + ys[1..];
      }
      [ys[0]] + Insert(x, ys[1..])
  }

  /** A date no older than `x` and every entry of `ys` is no older than any
      entry after the insertion. */
  lemma {:induction false} InsertBelow(x: Summary, ys: seq<Summary>, d: string)
    requires !LexLess(d, x.date)
    requires forall k :: 0 <= k < |ys| ==> !LexLess(d, ys[k].date)
    ensures forall k :: 0 <= k < |Insert(x, ys)| ==> !LexLess(d, Insert(x, ys)[k].date)
    decreases |ys|
  {
    var r := Insert(x, ys);
    if |ys| > 0 && LexLess(x.date, ys[0].date) {
      var rest := Insert(x, ys[1..]);
      forall k | 0 <= k < |ys[1..]|
        ensures !LexLess(d, ys[1..][k].date)
      {
        assert ys[1..][k] == ys[k + 1];
      }
      InsertBelow(x, ys[1..], d);
      assert r == [ys[0]] + rest;
      forall k | 0 <= k < |r|
        ensures !LexLess(d, r[k].date)
      {
        if k > 0 {
          assert r[k] == rest[k - 1];
        }
      }
    } else if |ys| > 0 {
      assert r == [x] + ys;
      forall k | 0 <= k < |r|
        ensures !LexLess(d, r[k].date)
      {
        if k > 0 {
          assert r[k] == ys[k - 1];
        }
      }
    }
  }

  lemma {:induction false} InsertSorted(x: Summary, ys: seq<Summary>)
    requires Sorted(ys)
    ensures Sorted(Insert(x, ys))
    decreases |ys|
  {
    if |ys| > 0 {
      var r := Insert(x, ys);
      if !LexLess(x.date, ys[0].date) {
        assert r == [x] + ys;
        forall i, j | 0 <= i < j < |r|
          ensures !LexLess(r[i].date, r[j].date)
        {
          if i == 0 {
            if j > 1 {
              LexNotLessTrans(x.date, ys[0].date, ys[j - 1].date);
            }
          }
        }
      } else {
        var rest := Insert(x, ys[1..]);
        InsertSorted(x, ys[1..]);
        LexAsym(x.date, ys[0].date);
        forall k | 0 <= k < |ys[1..]|
          ensures !LexLess(ys[0].date, ys[1..][k].date)
        {
          assert ys[1..][k] == ys[k + 1];
        }
        InsertBelow(x, ys[1..], ys[0].date);
        assert r == [ys[0]] + rest;
        forall i, j | 0 <= i < j < |r|
          ensures !LexLess(r[i].date, r[j].date)
        {
          assert r[j] == rest[j - 1];
          if i > 0 {
            assert r[i] == rest[i - 1];
          }
        }
      }
    }
  }

  /** `posts.slice().sort((a, b) => b.date.localeCompare(a.date))`: newest
      first. */
  function SortByDate(s: seq<Summary>): (r: seq<Summary>)
    ensures multiset(r) == multiset(s)
    ensures Sorted(r)
    decreases |s|
  {
    if |s| == 0 then []
    else
      InsertSorted(s[0], SortByDate(s[1..]));
      assert multiset(s) == multiset(s[1..]) + multiset{s[0]} by {
        assert s == [s[0]] + s[1..];
      }
      Insert(s[0], SortByDate(s[1..]))
  }

  /** A list already in order is left as it is; in particular sorting twice
      changes nothing. */
  lemma {:induction false} SortSorted(s: seq<Summary>)
    requires Sorted(s)
    ensures SortByDate(s) == s
    decreases |s|
  {
    if |s| > 0 {
      SortedTail(s);
      SortSorted(s[1..]);
      InsertFront(s);
    }
  }

  /** The newest entry of a sorted list goes back in front. */
  lemma InsertFront(s: seq<Summary>)
    requires Sorted(s) && |s| > 0
    ensures Insert(s[0], s[1..]) == s
  {
    if |s| > 1 {
      assert !LexLess(s[0].date, s[1..][0].date);
    }
    assert s == [s[0]] + s[1..];
  }

  lemma SortIdempotent(s: seq<Summary>)
    ensures SortByDate(SortByDate(s)) == SortByDate(s)
  {
    SortSorted(SortByDate(s));
  }

  /** No two different posts share a date. */
  predicate DistinctDates(s: seq<Summary>) {
    forall i, j :: 0 <= i < |s| && 0 <= j < |s| && s[i].date == s[j].date ==> s[i] == s[j]
  }

  /** The first entry of a sorted list is at least as new as any entry. */
  lemma SortedHead(s: seq<Summary>, e: Summary)
    requires Sorted(s) && e in multiset(s)
    ensures |s| > 0 && !LexLess(s[0].date, e.date)
  {
    assert e in s;
    var k :| 0 <= k < |s| && s[k] == e;
    if k == 0 {
      LexIrreflexive(e.date);
    }
  }

  /** With distinct dates, there is only one sorted order of the same posts. */
  lemma {:induction false} SortedUnique(a: seq<Summary>, b: seq<Summary>)
    requires Sorted(a) && Sorted(b) && multiset(a) == multiset(b) && DistinctDates(a)
    ensures a == b
    decreases |a|
  {
    if |a| > 0 {
      SameHead(a, b);
      MultisetTail(a, b);
      SortedTail(a);
      SortedTail(b);
      DistinctTail(a);
      SortedUnique(a[1..], b[1..]);
      assert a == [a[0]] + a[1..] && b == [b[0]] + b[1..];
    }
  }

  lemma SameHead(a: seq<Summary>, b: seq<Summary>)
    requires Sorted(a) && Sorted(b) && multiset(a) == multiset(b) && DistinctDates(a)
    requires |a| > 0
    ensures |b| > 0 && a[0] == b[0]
  {
    assert a[0] in multiset(b);
    SortedHead(b, a[0]);
    assert b[0] in multiset(a);
    SortedHead(a, b[0]);
    LexTotal(a[0].date, b[0].date);
    assert b[0] in a;
    var k :| 0 <= k < |a| && a[k] == b[0];
  }

  lemma MultisetTail(a: seq<Summary>, b: seq<Summary>)
    requires |a| > 0 && |b| > 0 && a[0] == b[0] && multiset(a) == multiset(b)
    ensures multiset(a[1..]) == multiset(b[1..])
  {
    assert a == [a[0]] + a[1..] && b == [b[0]] + b[1..];
    assert multiset(a) == multiset{a[0]} + multiset(a[1..]);
    assert multiset(b) == multiset{b[0]} + multiset(b[1..]);
    assert multiset(a[1..]) == multiset(a) - multiset{a[0]};
    assert multiset(b[1..]) == multiset(b) - multiset{b[0]};
  }

  lemma DistinctTail(a: seq<Summary>)
    requires DistinctDates(a) && |a| > 0
    ensures DistinctDates(a[1..])
  {
    forall i, j | 0 <= i < |a[1..]| && 0 <= j < |a[1..]| && a[1..][i].date == a[1..][j].date
      ensures a[1..][i] == a[1..][j]
    {
      assert a[1..][i] == a[i + 1] && a[1..][j] == a[j + 1];
    }
  }

  lemma SortedTail(s: seq<Summary>)
    requires Sorted(s) && |s| > 0
    ensures Sorted(s[1..])
  {
    forall i, j | 0 <= i < j < |s[1..]|
      ensures !LexLess(s[1..][i].date, s[1..][j].date)
    {
      assert s[1..][i] == s[i + 1] && s[1..][j] == s[j + 1];
    }
  }

  /** When no two posts share a date, the order the posts are read in does
      not matter. */
  lemma SortOrderFree(a: seq<Summary>, b: seq<Summary>)
    requires multiset(a) == multiset(b) && DistinctDates(a)
    ensures SortByDate(a) == SortByDate(b)
  {
    var sa := SortByDate(a);
    assert DistinctDates(sa) by {
      forall i, j | 0 <= i < |sa| && 0 <= j < |sa| && sa[i].date == sa[j].date
        ensures sa[i] == sa[j]
      {
        assert sa[i] in multiset(a) && sa[j] in multiset(a);
        assert sa[i] in a && sa[j] in a;
      }
    }
    SortedUnique(sa, SortByDate(b));
  }

  // ---------------------------------------------------------------------
  // Rendering

  /** Everything after `<li>` in a list item. */
  function ItemBody(s: Summary): string {
    ItemDate(s) + ItemLink(s)
  }

  function ItemDate(s: Summary): string {
    "\n          " + "<span class=\"post-date\">" + EscapeHtml(s.date) + "</span>\n          "
  }

  function ItemLink(s: Summary): string {
    "<a href=\"/blog/" + EscapeHtml(s.slug) + ".html\">" + EscapeHtml(s.slug) + ".txt — "
      + EscapeHtml(s.title) + "</a>\n        " + "</li>"
  }

  function IndexItem(s: Summary): string {
    "        " + ItemOpen + ItemBody(s)
  }

  function IndexItems(s: seq<Summary>): (r: seq<string>)
    ensures |r| == |s| && forall k :: 0 <= k < |s| ==> r[k] == IndexItem(s[k])
    decreases |s|
  {
    if |s| == 0 then [] else [IndexItem(s[0])] + IndexItems(s[1..])
  }

  /** `renderIndex(posts)`. */
  function RenderIndex(posts: seq<Summary>): string {
    IndexTop + Join(IndexItems(SortByDate(posts)), "\n") + IndexBottom
  }

  lemma ItemDateFree(s: Summary)
    ensures MarkerFree(ItemDate(s), ItemOpen)
  {
    var m := ItemOpen;
    SpanOpenQuiet();
    SpanCloseQuiet();
    QuietFree("\n          ", m);
    TagFree("<span class=\"post-date\">", m, 1);
    EscapeNoMarkup(s.date);
    QuietFree(EscapeHtml(s.date), m);
    TagFree("</span>\n          ", m, 1);
    Free4("\n          ", "<span class=\"post-date\">", EscapeHtml(s.date), "</span>\n          ", m);
  }

  lemma ItemLinkFree(s: Summary)
    ensures MarkerFree(ItemLink(s), ItemOpen)
  {
    var m := ItemOpen;
    var es := EscapeHtml(s.slug);
    var et := EscapeHtml(s.title);
    LinkQuiet();
    ItemCloseQuiet();
    TagFree("<a href=\"/blog/", m, 1);
    EscapeNoMarkup(s.slug);
    EscapeNoMarkup(s.title);
    QuietFree(es, m);
    QuietFree(et, m);
    QuietFree(".html\">", m);
    QuietFree(".txt — ", m);
    TagFree("</a>\n        ", m, 1);
    TagFree("</li>", m, 1);
    Free4("<a href=\"/blog/", es, ".html\">", es, m);
    Free5("<a href=\"/blog/" + es + ".html\">" + es, ".txt — ", et, "</a>\n        ", "</li>", m);
  }

  /** The tags of a list item hold no `<` after their first character. */
  lemma SpanOpenQuiet()
    ensures '<' !in "<span class=\"post-date\">"[1..]
  {
  }

  lemma SpanCloseQuiet()
    ensures '<' !in "</span>\n          "[1..]
  {
  }

  lemma LinkQuiet()
    ensures '<' !in "<a href=\"/blog/"[1..] && '<' !in "</a>\n        "[1..]
  {
  }

  lemma ItemCloseQuiet()
    ensures '<' !in "</li>"[1..]
  {
  }

  lemma Free4(a: string, b: string, c: string, d: string, m: string)
    requires MarkerFree(a, m) && MarkerFree(b, m) && MarkerFree(c, m) && MarkerFree(d, m)
    ensures MarkerFree(a + b + c + d, m)
  {
    MarkerFreeConcat(a, b, m);
    MarkerFreeConcat(a + b, c, m);
    MarkerFreeConcat(a + b + c, d, m);
  }

  lemma Free5(a: string, b: string, c: string, d: string, e: string, m: string)
    requires MarkerFree(a, m) && MarkerFree(b, m) && MarkerFree(c, m) && MarkerFree(d, m)
    requires MarkerFree(e, m)
    ensures MarkerFree(a + b + c + d + e, m)
  {
    Free4(a, b, c, d, m);
    MarkerFreeConcat(a + b + c + d, e, m);
  }

  lemma ItemBodyFree(s: Summary)
    ensures MarkerFree(ItemBody(s), ItemOpen)
  {
    ItemDateFree(s);
    ItemLinkFree(s);
    MarkerFreeConcat(ItemDate(s), ItemLink(s), ItemOpen);
  }

  /** Each item holds exactly one `<li>`, at its start. */
  lemma CountItem(s: Summary, rest: string)
    ensures Count(IndexItem(s) + rest, ItemOpen) == 1 + Count(rest, ItemOpen)
  {
    QuietFree("        ", ItemOpen);
    ItemBodyFree(s);
    OpenHead();
    CountMarked("        ", ItemOpen, ItemBody(s), rest);
  }

  /** `<li>` does not repeat its first character. */
  lemma OpenHead()
    ensures |ItemOpen| > 0 && ItemOpen[0] !in ItemOpen[1..]
  {
  }

  /** A marker between two marker-free texts is counted once. */
  lemma CountMarked(pre: string, m: string, b: string, rest: string)
    requires MarkerFree(pre, m) && MarkerFree(b, m)
    requires |m| > 0 && m[0] !in m[1..]
    ensures Count(pre + m + b + rest, m) == 1 + Count(rest, m)
  {
    assert pre + m + b + rest == pre + (m + (b + rest));
    CountAfterFree(pre, m + (b + rest), m);
    CountAtFront(m, b + rest);
    CountAfterFree(b, rest, m);
  }

  lemma {:induction false} CountItems(s: seq<Summary>, tail: string)
    requires MarkerFree(tail, ItemOpen)
    ensures Count(Join(IndexItems(s), "\n") + tail, ItemOpen) == |s|
    decreases |s|
  {
    var items := IndexItems(s);
    if |s| == 0 {
      assert Join(items, "\n") + tail == tail + "";
      CountAfterFree(tail, "", ItemOpen);
    } else if |s| == 1 {
      CountItem(s[0], tail);
      CountAfterFree(tail, "", ItemOpen);
      assert tail + "" == tail;
    } else {
      assert items[1..] == IndexItems(s[1..]);
      var j := Join(IndexItems(s[1..]), "\n");
      ItemsJoin(IndexItem(s[0]), j, tail);
      CountItem(s[0], "\n" + (j + tail));
      QuietFree("\n", ItemOpen);
      CountAfterFree("\n", j + tail, ItemOpen);
      CountItems(s[1..], tail);
    }
  }

  lemma ItemsJoin(item: string, j: string, tail: string)
    ensures item + "\n" + j + tail == item + ("\n" + (j + tail))
  {
  }

  /** The listing holds one `<li>` per post. */
  lemma IndexCountsPosts(posts: seq<Summary>)
    ensures Count(RenderIndex(posts), ItemOpen) == |posts|
  {
    var sorted := SortByDate(posts);
    SortLength(posts);
    CountItems(sorted, IndexBottom);
    CountFramed(IndexTop, Join(IndexItems(sorted), "\n"), IndexBottom, ItemOpen);
  }

  lemma SortLength(posts: seq<Summary>)
    ensures |SortByDate(posts)| == |posts|
  {
    assert |SortByDate(posts)| == |multiset(SortByDate(posts))|;
  }

  /** A marker-free text in front adds no occurrences. */
  lemma CountFramed(top: string, mid: string, bottom: string, m: string)
    requires MarkerFree(top, m)
    ensures Count(top + mid + bottom, m) == Count(mid + bottom, m)
  {
    assert top + mid + bottom == top + (mid + bottom);
    CountAfterFree(top, mid + bottom, m);
  }

  /** Every post has its item on the listing page. */
  lemma IndexShowsPost(posts: seq<Summary>, p: Summary)
    requires p in posts
    ensures exists i :: OccursAt(RenderIndex(posts), IndexItem(p), i)
  {
    var sorted := SortByDate(posts);
    assert p in multiset(sorted);
    var k :| 0 <= k < |sorted| && sorted[k] == p;
    var items := IndexItems(sorted);
    JoinHolds(items, "\n", k);
    var j :| OccursAt(Join(items, "\n"), items[k], j);
    assert items[k] == IndexItem(p);
    ListShows(posts, IndexItem(p), j);
  }

  lemma ListShows(posts: seq<Summary>, x: string, j: nat)
    requires OccursAt(Join(IndexItems(SortByDate(posts)), "\n"), x, j)
    ensures OccursAt(RenderIndex(posts), x, |IndexTop| + j)
  {
    OccursFramed(IndexTop, Join(IndexItems(SortByDate(posts)), "\n"), IndexBottom, x, j);
  }

  /** An item's link text shows the summary's title, escaped once more. */
  lemma ItemShowsTitle(s: Summary)
    ensures exists j :: OccursAt(IndexItem(s), EscapeHtml(s.title), j)
  {
    var k := LinkShowsTitle(s);
    OccursAfter(ItemDate(s), ItemLink(s), EscapeHtml(s.title), k);
    OccursAfter("        " + ItemOpen, ItemBody(s), EscapeHtml(s.title), |ItemDate(s)| + k);
    assert OccursAt(IndexItem(s), EscapeHtml(s.title), |"        " + ItemOpen| + |ItemDate(s)| + k);
  }

  lemma LinkShowsTitle(s: Summary) returns (k: nat)
    ensures OccursAt(ItemLink(s), EscapeHtml(s.title), k)
  {
    var es := EscapeHtml(s.slug);
    var et := EscapeHtml(s.title);
    var front := "<a href=\"/blog/" + es + ".html\">" + es + ".txt — ";
    k := |front|;
    OccursFramed(front, et, "</a>\n        ", et, 0);
    OccursBefore(front + et + "</a>\n        ", "</li>", et, k);
  }

  /** With distinct dates, the listing does not depend on the order in which
      the posts are read. */
  lemma IndexOrderFree(a: seq<Summary>, b: seq<Summary>)
    requires multiset(a) == multiset(b) && DistinctDates(a)
    ensures RenderIndex(a) == RenderIndex(b)
  {
    SortOrderFree(a, b);
  }
}
