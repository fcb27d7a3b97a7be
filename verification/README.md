# Portfolio site blog engine and page scripts, in Dafny

This project models the core of a small personal site.

- **Blog API.** A Node.js service stores each post as one generated HTML page in a blog directory. It keeps an `index.html` listing of all posts up to date.
  - It reads posts back by parsing the generated pages.
  - It validates and derives URL slugs.
  - It answers list, get, create, update and delete requests.
- **Home page scripts.** Three behaviours are modelled:
  - the uptime counter (also used on a standalone page);
  - the light/dark theme toggle;
  - the Konami-code listener that starts a "matrix rain" animation.

Every operation is a pure function over immutable values.

- **The blog directory** is a sequence of `File(name, text)` entries, in the order a directory read returns them.
- **A request handler** maps the directory and the request to an `Outcome`: the reply (status and JSON payload) plus the directory afterwards.
- **Page generation** is written with the exact markup around each user-supplied field. The fixed page chrome (head, CSS, header, footer, theme script) is an uninterpreted constant. Its only stated property is that it contains none of the tags the parser searches for.
- **The parser's regular expressions** (`/<h1 class="post-title">(.*?)<\/h1>/` and the others) become a first-match, lazy-close search, `Regex.FirstMatch`. Its `.` excludes the JavaScript line terminators. The global paragraph expression `/<p>([\s\S]*?)<\/p>/g` is the same search repeated after each match, `Regex.AllGroups`.

The modules follow the program's structure.

- `Text`: JavaScript `trim`, `split(/\n\n+/)`, `join`, global and first-occurrence `replace`.
- `Regex`: the lazy tag search and occurrence counting.
- `Escape`: `escapeHtml` and the entity decoding chain.
- `Markup`: facts about the tags in generated pages.
- `PostPage`: `renderPost` and `parsePost`.
- `IndexPage`: the date sort and `renderIndex`.
- `Validate`: `isValidSlug`, `isValidDate` and `slugify`.
- `Store`: the directory, `regenerateIndex` and the five handlers.
- `Uptime`, `Theme` and `Konami`: the page scripts.

Behaviours of the code that the proofs make explicit:

- **Titles stay escaped.** `parsePost` returns the title as it appears in the page, still escaped: a post titled `Q&A` reads back as `Q&amp;A`. The listing escapes it again, so the index shows the entity text: `Q&A` appears there as `Q&amp;amp;A`.
- **Line breaks lose the title.** A title containing a line break is not matched by the title expression and reads back as the empty string.
- **The slug `index` clashes with the listing.**
  - Once a listing exists, creating a post with slug `index` is refused with 409.
  - In a directory without a listing, the post is accepted. Regenerating the index then overwrites it, and it is never listed.
- **`slugify` can produce an invalid slug.** It cuts the slug at 100 characters after stripping hyphens. The cut can leave a trailing hyphen, which `isValidSlug` then rejects.
- **Uptime goes negative before launch.** When the clock is before the launch date the counters are negative. Hours can reach -24 and minutes -60.

## Model

| member | source | states |
|---|---|---|
| Text.Trim | blog-api/template.js:108-109 | the result is a slice of the input with no JavaScript white space at either end, and only white space was removed |
| Text.TrimEmpty | blog-api/server.js:148 | trimming gives the empty string exactly when every character is white space |
| Text.TrimIdempotent | blog-api/template.js:109 | trimming a trimmed text changes nothing |
| Text.SplitJoin | blog-api/template.js:107 | splitting on blank-line runs gives back the pieces that were joined with blank lines, when the pieces hold no blank line |
| Text.SplitBlankPieces | blog-api/template.js:107 | no piece of the split holds a blank line, and pieces keep any text absent from the input absent |
| Text.SplitBlank | blog-api/template.js:107 | `split(/\n\n+/)` gives at least one piece; `Text.SplitJoin` states that it undoes joining with blank lines and `Text.SplitBlankPieces` what the pieces hold |
| Text.ReplaceAll | blog-api/template.js:13-17 | a global `replace` with a fixed pattern; `Escape.EscapeHtml` states what the chain of five of them computes |
| Text.JoinHolds | blog-api/template.js:224 | every part appears in the text `join` builds |
| Text.ReplaceFirstAt | blog-api/server.js:109 | replacing the first occurrence rewrites exactly the leftmost occurrence |
| Regex.FirstMatch | blog-api/template.js:271-273 | a non-global `match`: a found group lies after the opening tag and leaves room for the closing tag; `Regex.MatchSound` and `Regex.LazyCloseAfterOpen` state where it starts and stops |
| Regex.AllGroups | blog-api/template.js:281-284 | the groups of a global `exec` loop; `PostPage.BodyGroups` states that on a rendered body they are exactly the paragraphs, in order |
| Regex.MatchSound | blog-api/template.js:271-273 | a match is preceded by the opening tag, followed by the closing tag, and holds no line break when `.` is used |
| Regex.LazyCloseAfterOpen | blog-api/template.js:271 | the lazy group stops at the first closing tag after the opening tag |
| Regex.GroupIn | blog-api/template.js:271-276 | in `pre + open + content + close + post`, with no opening tag in `pre` and no closing tag or line break in `content`, the captured group is `content` |
| Regex.FirstMatchBreak | blog-api/template.js:271 | a line break between the tags makes the title expression skip that pair |
| Regex.FirstMatchAbsent | blog-api/template.js:275-276 | without an opening tag there is no match and the field is empty |
| Escape.EscapeHtml | blog-api/template.js:11-18 | the chain of five global replacements, `&` first, writes every special character as its entity and keeps every other character |
| Escape.EscapeNoMarkup | blog-api/template.js:14-17 | the escaped text contains no `<`, `>`, `"` or `'` |
| Escape.EscapeAmpersands | blog-api/template.js:13-17 | every `&` in the escaped text starts one of the five entities |
| Escape.EscapeLength | blog-api/template.js:11-18 | escaping at least keeps and at most sextuples the length |
| Escape.EscapePlain | blog-api/template.js:11-18 | a text without special characters is left unchanged |
| Escape.EscapeLineBreaks | blog-api/template.js:11-18 | the escaped text is free of line breaks exactly when the input is |
| Escape.EscapeTrimmed | blog-api/template.js:109 | escaping a trimmed text gives a trimmed text |
| Escape.EscapeQandA | blog-api/template.js:13 | `Q&A` is escaped as `Q&amp;A` |
| Escape.EscapeTwiceQandA | blog-api/template.js:223 | escaping `Q&A` a second time gives `Q&amp;amp;A` |
| Escape.DecodeEntities | blog-api/template.js:286-291 | the chain of five global replacements, `&amp;` first; `Escape.DecodeEscape` states when it undoes escaping and `Escape.DecodeEscapeAmpFirst` where it does not |
| Escape.DecodeEscape | blog-api/template.js:286-291 | the decoding chain undoes escaping for every text without entity text other than `&amp;` |
| Escape.DecodeEscapeAmpFirst | blog-api/template.js:287-288 | the text `&lt;` is escaped as `&amp;lt;` and decoded to `<`, not back to itself |
| Escape.ScanEscape | blog-api/template.js:286-291 | a left-to-right entity decoder undoes escaping for every text |
| Escape.ScanKeepsEntityText | blog-api/template.js:286-291 | the scanning decoder keeps `&lt;` where the chain changes it |
| Markup.TagsFree | blog-api/template.js:138-143 | no tag the parser looks for can start inside another tag of the page, so the searches cannot find each other's tags |
| PostPage.RenderPost | blog-api/template.js:106-154 | the generated post page; `Store.ParseStored` states what parsing it gives back |
| Store.ParseStored | blog-api/template.js:106-154 | a page rendered from a title without line breaks, a valid date and a body without entity text parses back to the escaped title, the date and the body's paragraphs |
| PostPage.Paragraphs | blog-api/template.js:107-108 | every paragraph is non-empty and trimmed |
| PostPage.ParsePost | blog-api/template.js:270-298 | the parsed title and date never contain a line break |
| PostPage.ParseRenderTitle | blog-api/template.js:138 | a rendered page whose title has no line break parses back to the escaped title |
| PostPage.ParseRenderDate | blog-api/template.js:139 | a rendered page whose date has no line break parses back to the escaped date |
| PostPage.BodyGroups | blog-api/template.js:281-293 | the paragraph expression finds exactly the rendered paragraphs, in order |
| PostPage.ParseRenderBody | blog-api/template.js:279-295 | for a body without entity text, the parsed body is the body's paragraphs joined by blank lines |
| PostPage.ParagraphsIdempotent | blog-api/template.js:107-110 | splitting a parsed body into paragraphs gives the same paragraphs again |
| PostPage.RenderParsedBody | blog-api/template.js:106-110 | saving a parsed body again renders the same paragraphs |
| PostPage.ParseRenderTitleBreak | blog-api/template.js:271 | a title with a line break parses back as the empty string |
| PostPage.ParseMissing | blog-api/template.js:275-277 | a page missing a tag parses that field as the empty string |
| PostPage.TitleStaysEscaped | blog-api/template.js:275 | a post titled `Q&A` parses back with title `Q&amp;A` |
| IndexPage.LexTotal | blog-api/template.js:220 | of two different dates one sorts before the other |
| IndexPage.SortByDate | blog-api/template.js:220 | the result is a permutation of the input, sorted newest date first |
| IndexPage.SortSorted | blog-api/template.js:220 | sorting a sorted list changes nothing |
| IndexPage.SortIdempotent | blog-api/template.js:220 | sorting twice is sorting once |
| IndexPage.SortedUnique | blog-api/template.js:220 | two sorted permutations of a list with distinct dates are equal |
| IndexPage.SortOrderFree | blog-api/template.js:220 | with distinct dates the sorted list does not depend on the input order |
| IndexPage.IndexItems | blog-api/template.js:222-223 | one list item per post, each built from that post's escaped date, slug and title |
| IndexPage.IndexCountsPosts | blog-api/template.js:222-254 | the listing page holds exactly one `<li>` per post |
| IndexPage.RenderIndex | blog-api/template.js:218-265 | the listing page; `IndexPage.IndexShowsPost` and `IndexPage.IndexCountsPosts` state that it holds each post's item and no other |
| IndexPage.IndexShowsPost | blog-api/template.js:218-265 | the item of every post appears on the listing page |
| IndexPage.ItemShowsTitle | blog-api/template.js:223 | an item's link text holds the summary's title escaped |
| IndexPage.IndexOrderFree | blog-api/template.js:218-224 | with distinct dates the listing page does not depend on the order the posts were read in |
| Store.Find | blog-api/server.js:128-131 | a file is found exactly when its name is in the directory |
| Store.Write | blog-api/server.js:163 | the name is added, holds the new text, every other file is unchanged and names stay unique |
| Store.Remove | blog-api/server.js:215 | the name is gone, every other file is unchanged and names stay unique |
| Store.RegenerateIndex | blog-api/template.js:303-316 | the listing shows the summaries of exactly the post files, and every other file is unchanged |
| Store.SummaryOf | blog-api/template.js:307-311 | the summary of one post file; `Store.NewSummary` states it for a freshly rendered page |
| Store.NewSummary | blog-api/template.js:307-311 | a freshly rendered post file summarises to its slug, its escaped title and its date |
| Store.Summaries | blog-api/template.js:304-312 | the summaries of the post files; `Store.SummariesWriteNew`, `Store.SummariesWriteOld` and `Store.SummariesRemove` state how each write changes them |
| Store.SummariesWriteNew | blog-api/template.js:304-312 | writing a new post file adds its summary to the summaries read and changes no other, wherever the directory read places the file |
| Store.SummariesWriteOld | blog-api/template.js:304-312 | rewriting a post file swaps its old summary for its new one |
| Store.SummariesRemove | blog-api/template.js:304-312 | removing a post file drops its summary and nothing else |
| Store.SlugFile | blog-api/server.js:109 | a valid slug's file is a post file unless the slug is `index`, and stripping `.html` gives the slug back |
| Store.FieldText | blog-api/server.js:148 | the test that a field is missing, empty or blank holds exactly when it has no non-space character |
| Store.CheckFields | blog-api/server.js:148-150 | the fields pass exactly when the title and body have text and the date is valid; otherwise 400 with `Title required`, else `Valid date required (YYYY-MM-DD)`, else `Body required`, checked in that order |
| Store.ListPosts | blog-api/server.js:103-117 | 200 with the summaries of exactly the post files, sorted newest first |
| Store.GetPost | blog-api/server.js:122-140 | 400 exactly for an invalid slug, 404 exactly for a valid slug with no file, 200 otherwise |
| Store.CreatePost | blog-api/server.js:145-170 | 400 exactly when a field fails or the slug is invalid, 409 exactly when they pass and the slug's file exists, 201 exactly when they pass and it does not; failures change nothing; 201 stores the rendered post and a current listing |
| Store.UpdatePost | blog-api/server.js:175-199 | 400 exactly when the slug is invalid or its file exists and a field fails, 404 exactly when the slug is valid and has no file, 200 exactly when the slug is valid, its file exists and the fields pass; failures change nothing; 200 stores the rendered post and a current listing |
| Store.DeletePost | blog-api/server.js:204-222 | 400 exactly when the slug is invalid, 404 exactly when it is valid and has no file, 200 exactly when its file exists; failures change nothing; on 200 the file is removed, the listing is current, and nothing else changes |
| Store.CreateThenGet | blog-api/server.js:160-165 | reading a created post gives back its escaped trimmed title, its date and its body as trimmed paragraphs |
| Store.CreateThenList | blog-api/server.js:160-165 | after a create the list holds the previous summaries plus the new one |
| Store.CreateThenIndex | blog-api/server.js:160-165 | after a create the listing page holds the new post's item, whose title is escaped twice |
| Store.CreateTwice | blog-api/server.js:155-158 | creating the same post twice gives 409 the second time |
| Store.DeleteThenGet | blog-api/server.js:204-217 | after a delete the post reads as 404 |
| Store.DeleteThenList | blog-api/server.js:204-217 | after a delete the list holds the previous summaries minus the deleted one |
| Store.UpdateKeepsCount | blog-api/server.js:175-199 | an update keeps the number of listed posts |
| Store.ListMatchesIndex | blog-api/template.js:303-316 | a current listing page is made of the items of exactly the posts the list request returns, in the same order, one `<li>` each |
| Store.IndexSlugTaken | blog-api/server.js:152-158 | with a listing present, a post with slug `index` is refused with 409 |
| Store.IndexSlugLost | blog-api/server.js:160-165 | without a listing, a post with slug `index` is accepted, then overwritten by the listing |
| Validate.IsValidSlug | blog-api/server.js:30-32 | 2 to 100 characters of the slug pattern; `Validate.MatchSlug` states that the pattern is the regular expression and `Validate.SlugIsSafe` that such a slug is a safe file name |
| Validate.MatchSlug | blog-api/server.js:28-32 | the scanning check accepts exactly the strings the slug pattern matches |
| Validate.SlugIsSafe | blog-api/server.js:28-32 | a valid slug has no `/`, `\` or `.`, no line break, and is unchanged by escaping |
| Validate.IsValidDate | blog-api/server.js:34-36 | the date pattern; `Validate.MatchDate` states that it is the regular expression and `Validate.DateShapeOnly` that month and day are not range-checked |
| Validate.MatchDate | blog-api/server.js:34-36 | the scanning check accepts exactly four digits, hyphen, two digits, hyphen, two digits |
| Validate.DateShapeOnly | blog-api/server.js:34-36 | the shape is checked, not the calendar: `2024-13-99` passes and `2024-1-01` does not |
| Validate.DateIsPlain | blog-api/server.js:34-36 | a valid date has no special character or line break |
| Validate.Slugify | blog-api/server.js:39-45 | at most 100 characters, only slug characters, no double hyphen and no leading hyphen |
| Validate.SlugifyEmpty | blog-api/server.js:39-45 | the slug is empty exactly when the title has no ASCII letter or digit |
| Validate.SlugifyValid | blog-api/server.js:39-45 | the derived slug is valid exactly when it has at least two characters and does not end with a hyphen |
| Validate.SlugifyFixed | blog-api/server.js:39-45 | slugifying a valid slug without double hyphens gives it back |
| Validate.SlugifyExample | blog-api/server.js:39-45 | `Hello World` becomes `hello-world` |
| Validate.SlugifyCutAtHyphen | blog-api/server.js:44 | a 99-letter word followed by ` b` is cut to a slug ending in a hyphen, which is invalid |
| Konami.Step | site/main.js:60-70 | a matching key advances, the last key fires and resets, any other key resets without being compared again |
| Konami.CodeLastUnique | site/main.js:57 | the Konami code ends with its only A key |
| Konami.PositionSound | site/main.js:56-70 | the position counts code keys just typed, and firing implies the keys end with the code |
| Konami.CodeFires | site/main.js:56-70 | from position 0, typing the code fires on its last key |
| Konami.MissedCode | site/main.js:61-69 | an extra up arrow before the code leaves keys ending with the code that do not fire |
| Konami.WindowStep | site/main.js:56-70 | the corrected step fires exactly when the kept keys and the new key make up the code |
| Konami.WindowFires | site/main.js:56-70 | the corrected listener fires exactly when the keys typed so far end with the code |
| Konami.WindowCatchesMissed | site/main.js:61-69 | on the missed input the corrected listener fires |
| Theme.Current | site/main.js:42 | a present non-empty attribute is the theme, otherwise `dark` |
| Theme.Label | site/main.js:41-44 | the button reads `[light]` exactly when the theme is dark |
| Theme.Init | site/main.js:37-40 | a saved non-empty choice becomes the theme, otherwise the page's attribute stays |
| Theme.Click | site/main.js:46-52 | a click stores what it sets, switches dark to light and anything else to dark, and relabels the button |
| Theme.ClickTwice | site/main.js:46-52 | two clicks restore a light or dark theme |
| Theme.ClickFromOther | site/main.js:47-48 | any theme other than dark is switched to dark |
| Theme.ReloadKeeps | site/main.js:37-50 | a reload shows the theme the last click saved |
| Theme.FirstClick | site/main.js:37-52 | with nothing saved, a dark page offers light and the first click stores light |
| Uptime.FloorDiv | site/main.js:6-8 | the quotient is rounded down |
| Uptime.JsRem | site/main.js:7-8 | the remainder has the dividend's sign and is smaller than the divisor |
| Uptime.JsDivision | site/main.js:7-8 | dividend = quotient rounded toward zero × divisor + remainder |
| Uptime.Decompose | site/main.js:5-8 | the day, hour and minute counters; `Uptime.DecomposeBounds` and `Uptime.DecomposeCompose` state that after the launch they are the clock reading of the elapsed time |
| Uptime.DecomposeBounds | site/main.js:5-8 | after the launch: days ≥ 0, hours < 24, minutes < 60, and together they give the elapsed time to the minute |
| Uptime.DecomposeCompose | site/uptime.js:4-7 | a clock reading decomposes back into itself |
| Uptime.BeforeLaunch | site/main.js:5-8 | before the launch: negative days, hours from -24 to 0 and minutes from -60 to 0 |
| Uptime.OneMsEarly | site/uptime.js:4-7 | one millisecond early reads -1 days, -1 hours, -1 minutes |
| Uptime.AlmostDayEarly | site/uptime.js:4-7 | just under a day early reads -1 days, -24 hours, -60 minutes |
| Uptime.NatTextValue | site/main.js:10 | the decimal text of a number reads back as the number and has no leading zero |
| Uptime.UptimeText | site/uptime.js:9 | the displayed text; `Uptime.UptimeReadsBack` states what it shows |
| Uptime.UptimeReadsBack | site/uptime.js:5-9 | after the launch the text is the unsigned decimal days, hours and minutes, each followed by its words, and each reads back as whole days, whole hours within the day and whole minutes within the hour |
| Uptime.UptimeStartsWithDays | site/uptime.js:9 | the displayed text starts with the day count |

## Left out

- **HTTP layer.** Routing, JSON parsing, the JWT `auth` middleware, the login route with bcrypt, and the 401 replies are not modelled. Each handler is a function of the directory and the request.
- **Request fields that are not strings.** A field is either a string or missing. Numbers or arrays in the JSON body, which make `trim` throw and produce a 500 reply, are not modelled.
- **File-system errors.** The 500 replies from a failed read, write or delete are left out. Every file-system call succeeds in the model.
- **Concurrency.** Each request is modelled as one atomic step. The write lock (`withWriteLock`) serialises the writing handlers. The interleaving of unlocked reads with writes is not modelled.
- **Paths.** `path.join` with the blog directory is the file name alone, since a valid slug contains no separator (`Validate.SlugIsSafe`).
- **Page chrome.** The CSS, header, footer and theme-script text of the generated pages are uninterpreted constants, known only to be free of the tags the parser searches for.
- **Directory order.** The order of `readdirSync` is whatever order the directory sequence has. `Store.Write` happens to put a new file last, but no stated property depends on that: writes are described by multisets of summaries, and the list and the listing by the date-sorted order.
- **Strings.** Strings are sequences of Unicode scalar values, whereas JavaScript counts UTF-16 code units. This only differs for characters outside the Basic Multilingual Plane. Derived slugs are ASCII, so `substring(0, 100)` is unaffected.
- Validate.Slugify: lower-cases ASCII letters only. JavaScript's `toLowerCase` also maps non-ASCII letters, a few of them to ASCII (the Kelvin sign to `k`). A title made of such letters can therefore give a slug that the model's `slugify` does not produce.
- IndexPage.SortByDate: `localeCompare` is modelled as character order. The two agree on well-formed `YYYY-MM-DD` dates, but may differ for dates parsed out of hand-edited pages with other characters. The order of posts with the same date is not stated, although the source's sort keeps their read order.
- **The clock.** The current time and the parse of the launch date `2026-02-09T00:00:00` in the browser's time zone are not modelled. The elapsed milliseconds are a parameter.
- Uptime.Decompose: division is exact integer division. This equals the script's floating-point `Math.floor(diff / n)` and `%` while the milliseconds stay below 2^53.
- **The DOM and local storage.** Reading and writing the page attribute, the button text and the stored theme are parameters and results. The missing `#uptime` element case (no text written) is not modelled.
- **Other scripts.** The live-stats fetch and the matrix-rain canvas animation are not modelled.

## Findings

| source | as written | input that shows it | evidently intended | confidence | as-written member | corrected member |
|---|---|---|---|---|---|---|
| site/main.js:61-69 | a key that breaks the sequence resets the position to 0 without being compared with the first code key | up, up, up, down, down, left, right, left, right, B, A (one up too many) never starts the rain | the rain starts whenever the last ten keys are the code | medium; not executed | Konami.MissedCode | Konami.WindowFires |
| blog-api/template.js:287-291 | `&amp;` is decoded first, so the `&lt;` it leaves is decoded a second time | a body paragraph reading `&lt;` is saved as `&amp;lt;` and comes back from the get request as `<` | decoding returns exactly the text that was escaped | high; not executed | Escape.DecodeEscapeAmpFirst | Escape.ScanEscape |

The handlers keep the decoding chain as written, so `Store.CreateThenGet` requires a body free of entity text. `Escape.ScanEscape` is the decoder that would make that round trip hold for every body.
