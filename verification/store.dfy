/** The blog API over the directory of generated pages: listing, reading,
    creating, updating and deleting posts, each write followed by
    `regenerateIndex`. */
module Store {
  import opened Wrappers
  import opened Text
  import opened Escape
  import opened Validate
  import opened PostPage
  import opened IndexPage
  import opened Regex
  import opened Markup

  // ---------------------------------------------------------------------
  // The blog directory

  datatype File = File(name: string, text: string)

  /** The directory's entries in the order a directory read returns them. */
  type Dir = seq<File>

  const Ext: string := ".html"
  /** `index.html`, the listing page. */
  const IndexFile: string := "index" + Ext

  function Names(d: Dir): set<string>
    decreases |d|
  {
    if |d| == 0 then {} else {d[0].name} + Names(d[1..])
  }

  /** No two entries share a name, as in a real directory. */
  predicate UniqueNames(d: Dir)
    decreases |d|
  {
    |d| == 0 || (d[0].name !in Names(d[1..]) && UniqueNames(d[1..]))
  }

  /** `fs.existsSync` and `fs.readFileSync` of one name. */
  function Find(d: Dir, name: string): (r: Option<string>)
    ensures r.Some? <==> name in Names(d)
    decreases |d|
  {
    if |d| == 0 then None
    else if d[0].name == name then Some(d[0].text)
    else Find(d[1..], name)
  }

  /** `fs.writeFileSync`: replaces an existing entry where it stands, or
      adds a new one at the end. */
  function Write(d: Dir, name: string, text: string): (r: Dir)
    ensures Names(r) == Names(d) + {name}
    ensures Find(r, name) == Some(text)
    ensures forall n :: n != name ==> Find(r, n) == Find(d, n)
    ensures UniqueNames(d) ==> UniqueNames(r)
    decreases |d|
  {
    if |d| == 0 then [File(name, text)]
    else if d[0].name == name then [File(name, text)] + d[1..]
    else [d[0]] + Write(d[1..], name, text)
  }

  /** `fs.unlinkSync`. */
  function Remove(d: Dir, name: string): (r: Dir)
    ensures Names(r) == Names(d) - {name}
    ensures Find(r, name) == None
    ensures forall n :: n != name ==> Find(r, n) == Find(d, n)
    ensures UniqueNames(d) ==> UniqueNames(r)
    decreases |d|
  {
    if |d| == 0 then []
    else if d[0].name == name then Remove(d[1..], name)
    else [d[0]] + Remove(d[1..], name)
  }

  // ---------------------------------------------------------------------
  // regenerateIndex

  /** The files read as posts: `.html` names other than the listing. */
  predicate IsPostFile(name: string) {
    EndsWith(name, Ext) && name != IndexFile
  }

  /** `{ slug: file.replace('.html', ''), title, date }`. */
  function SummaryOf(f: File): Summary {
    var p := ParsePost(f.text);
    Summary(ReplaceFirst(f.name, Ext, ""), p.title, p.date)
  }

  /** The summaries of the post files, in directory order. */
  function Summaries(d: Dir): (r: seq<Summary>)
    decreases |d|
  {
    if |d| == 0 then [] else Own(d[0]) + Summaries(d[1..])
  }

  /** The summary one entry contributes: one for a post file, none else. */
  function Own(f: File): seq<Summary> {
    if IsPostFile(f.name) then [SummaryOf(f)] else []
  }

  /** The listing page shows exactly the posts in the directory. */
  predicate IndexCurrent(d: Dir) {
    Find(d, IndexFile) == Some(RenderIndex(Summaries(d)))
  }

  function RegenerateIndex(d: Dir): (r: Dir)
    ensures IndexCurrent(r)
    ensures Summaries(r) == Summaries(d)
    ensures Names(r) == Names(d) + {IndexFile}
    ensures forall n :: n != IndexFile ==> Find(r, n) == Find(d, n)
    ensures UniqueNames(d) ==> UniqueNames(r)
  {
    SummariesWriteOther(d, IndexFile, RenderIndex(Summaries(d)));
    Write(d, IndexFile, RenderIndex(Summaries(d)))
  }

  /** Writing a file that is not a post leaves the summaries as they are. */
  lemma {:induction false} SummariesWriteOther(d: Dir, n: string, t: string)
    requires !IsPostFile(n)
    ensures Summaries(Write(d, n, t)) == Summaries(d)
    decreases |d|
  {
    if |d| > 0 && d[0].name != n {
      SummariesWriteOther(d[1..], n, t);
      assert Write(d, n, t)[1..] == Write(d[1..], n, t);
    } else if |d| > 0 {
      assert Write(d, n, t)[1..] == d[1..];
    }
  }

  /** A new post file adds its summary to those already read. */
  lemma {:induction false} SummariesWriteNew(d: Dir, n: string, t: string)
    requires IsPostFile(n) && n !in Names(d)
    ensures multiset(Summaries(Write(d, n, t))) == multiset(Summaries(d)) + multiset{SummaryOf(File(n, t))}
    decreases |d|
  {
    var w := Write(d, n, t);
    if |d| == 0 {
      assert w[1..] == [];
    } else {
      SummariesWriteNew(d[1..], n, t);
      WritePast(d, n, t);
      assert multiset(Summaries(w)) == multiset(Own(d[0])) + multiset(Summaries(Write(d[1..], n, t)));
    }
  }

  /** Rewriting an existing post file swaps its summary for the new one. */
  lemma {:induction false} SummariesWriteOld(d: Dir, n: string, t: string)
    requires IsPostFile(n) && n in Names(d) && UniqueNames(d)
    ensures multiset(Summaries(Write(d, n, t)))
      == multiset(Summaries(d)) - multiset{SummaryOf(File(n, Find(d, n).value))} + multiset{SummaryOf(File(n, t))}
    decreases |d|
  {
    var w := Write(d, n, t);
    if d[0].name == n {
      assert w[1..] == d[1..];
      assert Find(d, n).value == d[0].text && d[0] == File(n, d[0].text);
    } else {
      SummariesWriteOld(d[1..], n, t);
      WritePast(d, n, t);
      SummaryIn(d[1..], n);
      SwapBelow(multiset(Own(d[0])), multiset(Summaries(d[1..])),
        multiset{SummaryOf(File(n, Find(d, n).value))}, multiset{SummaryOf(File(n, t))});
    }
  }

  /** Writing past the first entry keeps its summary in front. */
  lemma WritePast(d: Dir, n: string, t: string)
    requires |d| > 0 && d[0].name != n
    ensures Summaries(Write(d, n, t)) == Own(d[0]) + Summaries(Write(d[1..], n, t))
  {
    assert Write(d, n, t)[1..] == Write(d[1..], n, t);
  }

  /** Taking out a part of the tail of a multiset is taking it out of the
      whole. */
  lemma SwapBelow(h: multiset<Summary>, a: multiset<Summary>, o: multiset<Summary>, x: multiset<Summary>)
    requires o <= a
    ensures h + (a - o + x) == (h + a) - o + x
    ensures h + (a - o) == (h + a) - o
  {
  }

  /** The summary of a present post file is among the summaries. */
  lemma {:induction false} SummaryIn(d: Dir, n: string)
    requires IsPostFile(n) && n in Names(d)
    ensures SummaryOf(File(n, Find(d, n).value)) in multiset(Summaries(d))
    decreases |d|
  {
    if d[0].name == n {
      assert d[0] == File(n, Find(d, n).value);
      assert Summaries(d)[0] == SummaryOf(d[0]);
    } else {
      SummaryIn(d[1..], n);
    }
  }

  /** Removing a post file removes its summary and nothing else. */
  lemma {:induction false} SummariesRemove(d: Dir, n: string)
    requires IsPostFile(n) && n in Names(d) && UniqueNames(d)
    ensures multiset(Summaries(Remove(d, n)))
      == multiset(Summaries(d)) - multiset{SummaryOf(File(n, Find(d, n).value))}
    decreases |d|
  {
    if d[0].name == n {
      RemoveAbsent(d[1..], n);
      assert Find(d, n).value == d[0].text && d[0] == File(n, d[0].text);
      assert Summaries(d) == [SummaryOf(d[0])] + Summaries(d[1..]);
    } else {
      SummariesRemove(d[1..], n);
      RemovePast(d, n);
      SummaryIn(d[1..], n);
      SwapBelow(multiset(Own(d[0])), multiset(Summaries(d[1..])), multiset{SummaryOf(File(n, Find(d, n).value))}, multiset{});
    }
  }

  /** Removing past the first entry keeps its summary in front. */
  lemma RemovePast(d: Dir, n: string)
    requires |d| > 0 && d[0].name != n
    ensures Summaries(Remove(d, n)) == Own(d[0]) + Summaries(Remove(d[1..], n))
  {
    assert Remove(d, n)[1..] == Remove(d[1..], n);
  }

  /** Removing a name that is not there changes nothing. */
  lemma {:induction false} RemoveAbsent(d: Dir, n: string)
    requires n !in Names(d)
    ensures Remove(d, n) == d
    decreases |d|
  {
    if |d| > 0 {
      RemoveAbsent(d[1..], n);
      assert d == [d[0]] + d[1..];
    }
  }

  /** Every post file contributes one summary. */
  function PostCount(d: Dir): nat
    decreases |d|
  {
    if |d| == 0 then 0 else (if IsPostFile(d[0].name) then 1 else 0) + PostCount(d[1..])
  }

  lemma {:induction false} SummariesCount(d: Dir)
    ensures |Summaries(d)| == PostCount(d)
    decreases |d|
  {
    if |d| > 0 {
      SummariesCount(d[1..]);
    }
  }

  // ---------------------------------------------------------------------
  // File names of slugs

  /** The file a slug is stored in. */
  function FileOf(slug: string): string {
    slug + Ext
  }

  /** A valid slug names a post file unless it is `index`, and gives itself
      back when `.html` is stripped. */
  lemma SlugFile(slug: string)
    requires IsValidSlug(slug)
    ensures EndsWith(FileOf(slug), Ext)
    ensures IsPostFile(FileOf(slug)) <==> slug != "index"
    ensures ReplaceFirst(FileOf(slug), Ext, "") == slug
  {
    SlugIsSafe(slug);
    assert FileOf(slug)[|FileOf(slug)| - |Ext|..] == Ext;
    forall i | 0 <= i < |slug|
      ensures !(Ext <= (slug + Ext + "")[i..])
    {
      assert (slug + Ext + "")[i..][0] == slug[i];
    }
    ReplaceFirstAt(slug, Ext, "", "");
    assert slug + Ext + "" == FileOf(slug) && slug + "" + "" == slug;
    if FileOf(slug) == IndexFile {
      assert slug == FileOf(slug)[..|slug|] == IndexFile[..5];
    }
  }

  // ---------------------------------------------------------------------
  // Requests and replies

  /** A JSON request body. A field that is missing is `None`. */
  datatype Request = Request(title: Option<string>, date: Option<string>, body: Option<string>, slug: Option<string>)

  datatype Payload =
    | Error(error: string)
    | Listing(posts: seq<Summary>)
    | Full(slug: string, title: string, date: string, body: string)
    | Saved(slug: string, title: string, date: string)
    | Message(message: string)

  datatype Reply = Reply(status: int, payload: Payload)

  /** The reply together with the directory after the request. */
  datatype Outcome = Outcome(reply: Reply, dir: Dir)

  /** A present, non-empty string: JavaScript truthiness of a string field. */
  predicate Truthy(o: Option<string>) {
    o.Some? && o.value != ""
  }

  /** The field holds something other than white space. */
  predicate HasText(o: Option<string>) {
    o.Some? && exists i :: 0 <= i < |o.value| && !IsJsSpace(o.value[i])
  }

  /** The checks the create and update handlers make of the fields, in
      order: title, date, body. */
  function CheckFields(req: Request): (r: Option<Reply>)
    ensures r.None? <==> HasText(req.title) && req.date.Some? && IsValidDate(req.date.value) && HasText(req.body)
    ensures r.Some? ==> r.value.status == 400
    ensures r.Some? && !HasText(req.title) ==> r.value.payload == Error("Title required")
    ensures r.Some? && HasText(req.title) && !(req.date.Some? && IsValidDate(req.date.value))
      ==> r.value.payload == Error("Valid date required (YYYY-MM-DD)")
    ensures r.Some? && HasText(req.title) && req.date.Some? && IsValidDate(req.date.value)
      ==> r.value.payload == Error("Body required")
  {
    FieldText(req.title);
    FieldText(req.body);
    if !Truthy(req.title) || Trim(req.title.value) == "" then Some(Reply(400, Error("Title required")))
    else if !Truthy(req.date) || !IsValidDate(req.date.value) then Some(Reply(400, Error("Valid date required (YYYY-MM-DD)")))
    else if !Truthy(req.body) || Trim(req.body.value) == "" then Some(Reply(400, Error("Body required")))
    else None
  }

  /** `!x || !x.trim()` is the test that the field lacks text. */
  lemma FieldText(o: Option<string>)
    ensures HasText(o) <==> Truthy(o) && Trim(o.value) != ""
  {
    if o.Some? {
      TrimEmpty(o.value);
    }
  }

  /** `req.body.slug || slugify(title)`. */
  function SlugFor(req: Request): string
    requires req.title.Some?
  {
    if Truthy(req.slug) then req.slug.value else Slugify(req.title.value)
  }

  /** The post a create or update request stores. */
  function PostFor(slug: string, req: Request): Post
    requires req.title.Some? && req.date.Some? && req.body.Some?
  {
    Post(slug, Trim(req.title.value), req.date.value, Trim(req.body.value))
  }

  // ---------------------------------------------------------------------
  // Handlers

  /** `GET /api/blog/posts`. */
  function ListPosts(d: Dir): (r: Reply)
    ensures r.status == 200 && r.payload.Listing?
    ensures Sorted(r.payload.posts)
    ensures multiset(r.payload.posts) == multiset(Summaries(d))
    ensures |r.payload.posts| == PostCount(d)
  {
    SummariesCount(d);
    var s := SortByDate(Summaries(d));
    assert |s| == |multiset(s)| == |multiset(Summaries(d))|;
    Reply(200, Listing(s))
  }

  /** `GET /api/blog/posts/:slug`. */
  function GetPost(d: Dir, slug: string): (r: Reply)
    ensures r.status == 400 <==> !IsValidSlug(slug)
    ensures r.status == 404 <==> IsValidSlug(slug) && FileOf(slug) !in Names(d)
    ensures r.status == 200 <==> IsValidSlug(slug) && FileOf(slug) in Names(d)
  {
    if !IsValidSlug(slug) then Reply(400, Error("Invalid slug"))
    else match Find(d, FileOf(slug))
      case None => Reply(404, Error("Post not found"))
      case Some(html) =>
        var p := ParsePost(html);
        Reply(200, Full(slug, p.title, p.date, p.body))
  }

  /** After writing `name` and regenerating the listing: the file holds
      `text` (unless it is the listing itself), the listing is current, and
      every other file is as it was. */
  ghost predicate Stored(d: Dir, name: string, text: string, d2: Dir)
  {
    && Names(d2) == Names(d) + {name, IndexFile}
    && Summaries(d2) == Summaries(Write(d, name, text))
    && (name != IndexFile ==> Find(d2, name) == Some(text))
    && IndexCurrent(d2)
    && (forall n :: n != name && n != IndexFile ==> Find(d2, n) == Find(d, n))
    && (UniqueNames(d) ==> UniqueNames(d2))
  }

  lemma SaveStores(d: Dir, name: string, text: string)
    ensures Stored(d, name, text, RegenerateIndex(Write(d, name, text)))
  {
  }

  /** After removing `name` and regenerating the listing. */
  ghost predicate Dropped(d: Dir, name: string, d2: Dir)
  {
    && Names(d2) == Names(d) - {name} + {IndexFile}
    && IndexCurrent(d2)
    && (forall n :: n != name && n != IndexFile ==> Find(d2, n) == Find(d, n))
    && (UniqueNames(d) ==> UniqueNames(d2))
  }

  lemma DropStores(d: Dir, name: string)
    ensures Dropped(d, name, RegenerateIndex(Remove(d, name)))
  {
  }

  /** `index` is the one slug whose file is the listing. */
  lemma FileOfIndex(slug: string)
    ensures FileOf(slug) == IndexFile <==> slug == "index"
  {
    if FileOf(slug) == IndexFile {
      assert slug == FileOf(slug)[..|slug|] == IndexFile[..|slug|];
    }
  }

  /** `POST /api/blog/posts`. */
  function CreatePost(d: Dir, req: Request): (r: Outcome)
    ensures r.reply.status in {201, 400, 409}
    ensures r.reply.status != 201 ==> r.dir == d
    ensures r.reply.status == 400 <==> CheckFields(req).Some? || !IsValidSlug(SlugFor(req))
    ensures r.reply.status == 409 <==> CheckFields(req).None? && IsValidSlug(SlugFor(req)) && FileOf(SlugFor(req)) in Names(d)
    ensures r.reply.status == 201 <==> CheckFields(req).None? && IsValidSlug(SlugFor(req)) && FileOf(SlugFor(req)) !in Names(d)
    ensures r.reply.status == 201 ==> Created(d, req, r)
  {
    match CheckFields(req)
    case Some(err) => Outcome(err, d)
    case None =>
      var slug := SlugFor(req);
      if !IsValidSlug(slug) then Outcome(Reply(400, Error("Invalid slug")), d)
      else if Find(d, FileOf(slug)).Some? then Outcome(Reply(409, Error("A post with this slug already exists")), d)
      else
        var post := PostFor(slug, req);
        SaveStores(d, FileOf(slug), RenderPost(post));
        Outcome(Reply(201, Saved(slug, post.title, post.date)), RegenerateIndex(Write(d, FileOf(slug), RenderPost(post))))
  }

  /** What a successful create leaves behind: a fresh file for the slug
      holding the rendered post, a current listing, and every other file as
      it was. */
  ghost predicate Created(d: Dir, req: Request, r: Outcome)
  {
    && CheckFields(req).None?
    && var slug := SlugFor(req);
    && IsValidSlug(slug) && FileOf(slug) !in Names(d)
    && r.reply.payload == Saved(slug, Trim(req.title.value), req.date.value)
    && Stored(d, FileOf(slug), RenderPost(PostFor(slug, req)), r.dir)
  }

  /** `PUT /api/blog/posts/:slug`: the slug is checked first, then that the
      post exists, then the fields. */
  function UpdatePost(d: Dir, slug: string, req: Request): (r: Outcome)
    ensures r.reply.status in {200, 400, 404}
    ensures r.reply.status != 200 ==> r.dir == d
    ensures r.reply.status == 400 <==> !IsValidSlug(slug) || (FileOf(slug) in Names(d) && CheckFields(req).Some?)
    ensures r.reply.status == 404 <==> IsValidSlug(slug) && FileOf(slug) !in Names(d)
    ensures r.reply.status == 200 <==> IsValidSlug(slug) && FileOf(slug) in Names(d) && CheckFields(req).None?
    ensures r.reply.status == 200 ==> Updated(d, slug, req, r)
  {
    if !IsValidSlug(slug) then Outcome(Reply(400, Error("Invalid slug")), d)
    else if Find(d, FileOf(slug)).None? then Outcome(Reply(404, Error("Post not found")), d)
    else match CheckFields(req)
      case Some(err) => Outcome(err, d)
      case None =>
        var post := PostFor(slug, req);
        SaveStores(d, FileOf(slug), RenderPost(post));
        Outcome(Reply(200, Saved(slug, post.title, post.date)), RegenerateIndex(Write(d, FileOf(slug), RenderPost(post))))
  }

  ghost predicate Updated(d: Dir, slug: string, req: Request, r: Outcome)
  {
    && IsValidSlug(slug) && FileOf(slug) in Names(d) && CheckFields(req).None?
    && r.reply.payload == Saved(slug, Trim(req.title.value), req.date.value)
    && Stored(d, FileOf(slug), RenderPost(PostFor(slug, req)), r.dir)
  }

  /** `DELETE /api/blog/posts/:slug`. */
  function DeletePost(d: Dir, slug: string): (r: Outcome)
    ensures r.reply.status in {200, 400, 404}
    ensures r.reply.status != 200 ==> r.dir == d
    ensures r.reply.status == 400 <==> !IsValidSlug(slug)
    ensures r.reply.status == 404 <==> IsValidSlug(slug) && FileOf(slug) !in Names(d)
    ensures r.reply.status == 200 <==> IsValidSlug(slug) && FileOf(slug) in Names(d)
    ensures r.reply.status == 200 ==> r.reply.payload == Message("Post deleted") && Dropped(d, FileOf(slug), r.dir)
  {
    if !IsValidSlug(slug) then Outcome(Reply(400, Error("Invalid slug")), d)
    else if Find(d, FileOf(slug)).None? then Outcome(Reply(404, Error("Post not found")), d)
    else
      DropStores(d, FileOf(slug));
      Outcome(Reply(200, Message("Post deleted")), RegenerateIndex(Remove(d, FileOf(slug))))
  }

  // ---------------------------------------------------------------------
  // Properties across requests

  /** Trimming keeps a text free of line breaks and entity text. */
  lemma TrimKeeps(s: string)
    ensures NoLineBreak(s) ==> NoLineBreak(Trim(s))
    ensures NoEntityText(s) ==> NoEntityText(Trim(s))
  {
    if NoLineBreak(s) {
      TrimNoBreak(s);
    }
    if NoEntityText(s) {
      TrimAbsent(s, "&lt;");
      TrimAbsent(s, "&gt;");
      TrimAbsent(s, "&quot;");
      TrimAbsent(s, "&#39;");
    }
  }

  /** A page rendered from a post with no line break in its title and no
      entity text in its body reads back as the escaped title, the date and
      the body's paragraphs. */
  lemma ParseStored(post: Post)
    requires NoLineBreak(post.title) && IsValidDate(post.date) && NoEntityText(post.body)
    ensures ParsePost(RenderPost(post)) == Parsed(EscapeHtml(post.title), post.date, Join(Paragraphs(post.body), "\n\n"))
  {
    DateIsPlain(post.date);
    ParseRenderTitle(post);
    ParseRenderDate(post);
    ParseRenderBody(post);
  }

  /** The reply to reading a slug whose file holds `html`. */
  lemma GetStored(d: Dir, slug: string, html: string)
    requires IsValidSlug(slug) && Find(d, FileOf(slug)) == Some(html)
    ensures GetPost(d, slug) == Reply(200, Full(slug, ParsePost(html).title, ParsePost(html).date, ParsePost(html).body))
  {
  }

  /** The post a create or update stores, in terms of the request fields. */
  lemma PostForFacts(slug: string, req: Request)
    requires CheckFields(req).None?
    requires NoLineBreak(Trim(req.title.value)) && NoEntityText(req.body.value)
    ensures var post := PostFor(slug, req);
      NoLineBreak(post.title) && IsValidDate(post.date) && NoEntityText(post.body)
  {
    TrimKeeps(req.body.value);
  }

  /** Reading a post just created gives back its title escaped, its date,
      and its body as trimmed paragraphs. */
  lemma CreateThenGet(d: Dir, req: Request)
    requires CreatePost(d, req).reply.status == 201
    requires SlugFor(req) != "index"
    requires NoLineBreak(Trim(req.title.value)) && NoEntityText(req.body.value)
    ensures var slug := SlugFor(req);
      GetPost(CreatePost(d, req).dir, slug)
      == Reply(200, Full(slug, EscapeHtml(Trim(req.title.value)), req.date.value,
                         Join(Paragraphs(Trim(req.body.value)), "\n\n")))
  {
    var slug := SlugFor(req);
    var post := PostFor(slug, req);
    var d2 := CreatePost(d, req).dir;
    FileOfIndex(slug);
    assert Stored(d, FileOf(slug), RenderPost(post), d2);
    GetStored(d2, slug, RenderPost(post));
    PostForFacts(slug, req);
    ParseStored(post);
  }

  /** A new post is listed with its title escaped. */
  lemma CreateThenList(d: Dir, req: Request)
    requires CreatePost(d, req).reply.status == 201
    requires SlugFor(req) != "index"
    requires NoLineBreak(Trim(req.title.value))
    ensures var slug := SlugFor(req);
      var posts := ListPosts(CreatePost(d, req).dir).payload.posts;
      multiset(posts) == multiset(Summaries(d)) + multiset{Summary(slug, EscapeHtml(Trim(req.title.value)), req.date.value)}
  {
    var slug := SlugFor(req);
    var post := PostFor(slug, req);
    var d2 := CreatePost(d, req).dir;
    assert d2 == RegenerateIndex(Write(d, FileOf(slug), RenderPost(post)));
    SlugFile(slug);
    SummariesWriteNew(d, FileOf(slug), RenderPost(post));
    NewSummary(slug, post);
  }

  /** The summary a freshly rendered post file gives. */
  lemma NewSummary(slug: string, post: Post)
    requires IsValidSlug(slug) && NoLineBreak(post.title) && IsValidDate(post.date)
    ensures SummaryOf(File(FileOf(slug), RenderPost(post))) == Summary(slug, EscapeHtml(post.title), post.date)
  {
    SlugFile(slug);
    DateIsPlain(post.date);
    ParseRenderTitle(post);
    ParseRenderDate(post);
  }

  /** A second create with the same fields is refused. */
  lemma CreateTwice(d: Dir, req: Request)
    requires CreatePost(d, req).reply.status == 201
    ensures CreatePost(CreatePost(d, req).dir, req).reply.status == 409
  {
  }

  /** A deleted post can no longer be read. */
  lemma DeleteThenGet(d: Dir, slug: string)
    requires DeletePost(d, slug).reply.status == 200
    requires slug != "index"
    ensures GetPost(DeletePost(d, slug).dir, slug).status == 404
  {
    FileOfIndex(slug);
  }

  /** Deleting a post drops exactly its summary from the listing. */
  lemma DeleteThenList(d: Dir, slug: string)
    requires DeletePost(d, slug).reply.status == 200
    requires slug != "index" && UniqueNames(d)
    ensures multiset(ListPosts(DeletePost(d, slug).dir).payload.posts)
      == multiset(Summaries(d)) - multiset{SummaryOf(File(FileOf(slug), Find(d, FileOf(slug)).value))}
  {
    SlugFile(slug);
    SummariesRemove(d, FileOf(slug));
  }

  /** Updating a post keeps the number of posts. */
  lemma UpdateKeepsCount(d: Dir, slug: string, req: Request)
    requires UpdatePost(d, slug, req).reply.status == 200
    requires slug != "index" && UniqueNames(d)
    ensures |ListPosts(UpdatePost(d, slug, req).dir).payload.posts| == |ListPosts(d).payload.posts|
  {
    UpdatedKeepsCount(d, slug, req, UpdatePost(d, slug, req));
  }

  lemma UpdatedKeepsCount(d: Dir, slug: string, req: Request, r: Outcome)
    requires Updated(d, slug, req, r)
    requires slug != "index" && UniqueNames(d)
    ensures PostCount(r.dir) == PostCount(d)
  {
    SlugFile(slug);
    StoredKeepsCount(d, FileOf(slug), RenderPost(PostFor(slug, req)), r.dir);
  }

  lemma StoredKeepsCount(d: Dir, n: string, t: string, d2: Dir)
    requires Stored(d, n, t, d2) && IsPostFile(n) && n in Names(d) && UniqueNames(d)
    ensures PostCount(d2) == PostCount(d)
  {
    SwapKeepsCount(d, n, t);
    SummariesCount(d);
    SummariesCount(d2);
  }

  /** Rewriting a post file keeps the number of posts. */
  lemma SwapKeepsCount(d: Dir, n: string, t: string)
    requires IsPostFile(n) && n in Names(d) && UniqueNames(d)
    ensures |Summaries(Write(d, n, t))| == |Summaries(d)|
  {
    SummariesWriteOld(d, n, t);
    SummaryIn(d, n);
    assert |multiset(Summaries(Write(d, n, t)))| == |multiset(Summaries(d))|;
  }

  /** A current listing page shows the posts the list request returns, in
      the same order, one item each. */
  lemma ListMatchesIndex(d: Dir)
    requires IndexCurrent(d)
    ensures Find(d, IndexFile) == Some(IndexTop + Join(IndexItems(ListPosts(d).payload.posts), "\n") + IndexBottom)
    ensures Count(Find(d, IndexFile).value, ItemOpen) == |ListPosts(d).payload.posts|
  {
    SortIdempotent(Summaries(d));
    IndexCountsPosts(Summaries(d));
    SummariesCount(d);
  }

  /** After a create the listing page shows the new post, with a title
      escaped twice: once when the page was written and once more in the
      listing, so `Q&A` appears as `Q&amp;amp;A`. */
  lemma CreateThenIndex(d: Dir, req: Request)
    requires CreatePost(d, req).reply.status == 201
    requires SlugFor(req) != "index"
    requires NoLineBreak(Trim(req.title.value))
    ensures var s := Summary(SlugFor(req), EscapeHtml(Trim(req.title.value)), req.date.value);
      var page := Find(CreatePost(d, req).dir, IndexFile);
      && page.Some?
      && (exists i :: OccursAt(page.value, IndexItem(s), i))
      && (exists i :: OccursAt(page.value, EscapeHtml(EscapeHtml(Trim(req.title.value))), i))
  {
    var s := Summary(SlugFor(req), EscapeHtml(Trim(req.title.value)), req.date.value);
    var d2 := CreatePost(d, req).dir;
    CreateThenList(d, req);
    assert s in multiset(ListPosts(d2).payload.posts);
    assert s in Summaries(d2);
    assert Find(d2, IndexFile) == Some(RenderIndex(Summaries(d2)));
    IndexShowsPost(Summaries(d2), s);
    var i :| OccursAt(RenderIndex(Summaries(d2)), IndexItem(s), i);
    ItemShowsTitle(s);
    var k :| OccursAt(IndexItem(s), EscapeHtml(s.title), k);
    OccursWithin(RenderIndex(Summaries(d2)), IndexItem(s), EscapeHtml(s.title), i, k);
  }

  /** The slug `index` names the listing file: once a listing exists, such a
      post is refused as a duplicate. */
  lemma IndexSlugTaken(d: Dir, req: Request)
    requires IndexCurrent(d) && CheckFields(req).None? && SlugFor(req) == "index"
    ensures CreatePost(d, req).reply.status == 409
  {
    IndexValid("index");
  }

  lemma IndexValid(s: string)
    requires s == "index"
    ensures IsValidSlug(s) && FileOf(s) == IndexFile
  {
  }

  /** In a directory without a listing a post with slug `index` is accepted
      but then overwritten by the listing, which does not show it. */
  lemma IndexSlugLost(d: Dir, req: Request)
    requires CheckFields(req).None? && SlugFor(req) == "index" && IndexFile !in Names(d)
    ensures var r := CreatePost(d, req);
      && r.reply.status == 201
      && Find(r.dir, IndexFile) == Some(RenderIndex(Summaries(d)))
  {
    IndexValid("index");
    var post := PostFor("index", req);
    var d2 := CreatePost(d, req).dir;
    assert d2 == RegenerateIndex(Write(d, IndexFile, RenderPost(post)));
    SummariesWriteOther(d, IndexFile, RenderPost(post));
  }
}
