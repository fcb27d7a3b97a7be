/** Request validation of the blog API: the slug and date checks, and the
    slug derived from a title when the request names none. */
module Validate {
  import opened Text
  import opened Escape

  predicate IsLowerAlnum(c: char) {
    ('a' <= c <= 'z') || ('0' <= c <= '9')
  }

  predicate IsSlugChar(c: char) {
    IsLowerAlnum(c) || c == '-'
  }

  /** `\d`: an ASCII digit. */
  predicate IsDigit(c: char) {
    '0' <= c <= '9'
  }

  // ---------------------------------------------------------------------
  // isValidSlug

  /** The strings `/^[a-z0-9][a-z0-9-]*[a-z0-9]$/` accepts. */
  predicate SlugShape(s: string) {
    && |s| >= 2
    && IsLowerAlnum(s[0]) && IsLowerAlnum(s[|s| - 1])
    && forall i :: 0 < i < |s| - 1 ==> IsSlugChar(s[i])
  }

  /** `isValidSlug(slug)`: non-empty, 2 to 100 characters, and of slug shape. */
  predicate IsValidSlug(s: string) {
    |s| > 0 && 2 <= |s| <= 100 && SlugShape(s)
  }

  /** Runs the slug expression left to right as the regular expression
      engine would: one character of `[a-z0-9]`, then `[a-z0-9-]*`, which
      must give back one last `[a-z0-9]` before the end. */
  method MatchSlug(s: string) returns (ok: bool)
    ensures ok == SlugShape(s)
  {
    if |s| < 2 || !IsLowerAlnum(s[0]) {
      return false;
    }
    var i := 1;
    while i < |s| && IsSlugChar(s[i])
      invariant 1 <= i <= |s|
      invariant forall j :: 1 <= j < i ==> IsSlugChar(s[j])
    {
      i := i + 1;
    }
    if i < |s| {
      return false;
    }
    ok := IsLowerAlnum(s[|s| - 1]);
  }

  /** A valid slug names a file inside the blog directory: it holds no path
      separator or dot, and no character that escaping would change. */
  lemma SlugIsSafe(s: string)
    requires IsValidSlug(s)
    ensures '/' !in s && '\\' !in s && '.' !in s
    ensures EscapeHtml(s) == s
    ensures NoLineBreak(s)
  {
    forall i | 0 <= i < |s|
      ensures IsSlugChar(s[i])
    {
    }
    EscapePlain(s);
  }

  // ---------------------------------------------------------------------
  // isValidDate

  /** The strings `/^\d{4}-\d{2}-\d{2}$/` accepts. */
  predicate DateShape(s: string) {
    |s| == 10 && forall i :: 0 <= i < 10 ==> if i == 4 || i == 7 then s[i] == '-' else IsDigit(s[i])
  }

  predicate IsValidDate(s: string) {
    DateShape(s)
  }

  /** Checks the date expression one position at a time. */
  method MatchDate(s: string) returns (ok: bool)
    ensures ok == DateShape(s)
  {
    if |s| != 10 {
      return false;
    }
    var i := 0;
    while i < 10
      invariant 0 <= i <= 10
      invariant forall j :: 0 <= j < i ==> if j == 4 || j == 7 then s[j] == '-' else IsDigit(s[j])
    {
      var good := if i == 4 || i == 7 then s[i] == '-' else IsDigit(s[i]);
      if !good {
        return false;
      }
      i := i + 1;
    }
    return true;
  }

  /** The expression checks shape only: month 13 and day 99 pass. */
  lemma DateShapeOnly()
    ensures IsValidDate("2024-13-99")
    ensures !IsValidDate("2024-1-01")
  {
  }

  /** A valid date is written unchanged into a page and read back unchanged. */
  lemma DateIsPlain(s: string)
    requires IsValidDate(s)
    ensures EscapeHtml(s) == s && NoLineBreak(s)
  {
    forall i | 0 <= i < |s|
      ensures !IsSpecial(s[i]) && !IsLineTerminator(s[i])
    {
      assert i == 4 || i == 7 || IsDigit(s[i]);
    }
    EscapePlain(s);
  }

  // ---------------------------------------------------------------------
  // slugify

  /** `toLowerCase` on the ASCII letters; other characters are kept. */
  function LowerAscii(c: char): char {
    if 'A' <= c <= 'Z' then (c as int + 32) as char else c
  }

  function Lower(s: string): (r: string)
    ensures |r| == |s| && forall i :: 0 <= i < |s| ==> r[i] == LowerAscii(s[i])
    decreases |s|
  {
    if |s| == 0 then "" else [LowerAscii(s[0])] + Lower(s[1..])
  }

  /** `s` without its leading run of characters outside `[a-z0-9]`. */
  function DropRun(s: string): (r: string)
    ensures |r| <= |s| && r == s[|s| - |r|..]
    ensures |r| == 0 || IsLowerAlnum(r[0])
    ensures forall i :: 0 <= i < |s| - |r| ==> !IsLowerAlnum(s[i])
    decreases |s|
  {
    if |s| == 0 || IsLowerAlnum(s[0]) then s else DropRun(s[1..])
  }

  /** `replace(/[^a-z0-9]+/g, '-')`: each maximal run of characters outside
      `[a-z0-9]` becomes one hyphen. */
  function Collapse(s: string): (r: string)
    ensures forall i :: 0 <= i < |r| ==> IsSlugChar(r[i])
    ensures NoDoubleHyphen(r)
    ensures |r| <= |s|
    ensures |r| > 0 <==> |s| > 0
    ensures |s| > 0 ==> (r[0] == '-' <==> !IsLowerAlnum(s[0]))
    decreases |s|
  {
    if |s| == 0 then ""
    else if IsLowerAlnum(s[0]) then [s[0]] + Collapse(s[1..])
    else "-" + Collapse(DropRun(s[1..]))
  }

  predicate NoDoubleHyphen(s: string) {
    forall i :: 0 <= i < |s| - 1 ==> !(s[i] == '-' && s[i + 1] == '-')
  }

  /** `s` without leading hyphens. */
  function StripStart(s: string): (r: string)
    ensures |r| <= |s| && r == s[|s| - |r|..]
    ensures |r| == 0 || r[0] != '-'
    ensures forall i :: 0 <= i < |s| - |r| ==> s[i] == '-'
    decreases |s|
  {
    if |s| > 0 && s[0] == '-' then StripStart(s[1..]) else s
  }

  /** `s` without trailing hyphens. */
  function StripEnd(s: string): (r: string)
    ensures |r| <= |s| && r == s[..|r|]
    ensures |r| == 0 || r[|r| - 1] != '-'
    ensures forall i :: |r| <= i < |s| ==> s[i] == '-'
    decreases |s|
  {
    if |s| > 0 && s[|s| - 1] == '-' then StripEnd(s[..|s| - 1]) else s
  }

  /** `s.substring(0, n)`. */
  function Take(s: string, n: nat): (r: string)
    ensures |r| == if |s| <= n then |s| else n
    ensures r <= s
  {
    if |s| <= n then s else s[..n]
  }

  const MaxSlug: nat := 100

  /** The letters and digits of `s`, in order. */
  function Alnums(s: string): string
    decreases |s|
  {
    if |s| == 0 then "" else AlnumOf(s[0]) + Alnums(s[1..])
  }

  function AlnumOf(c: char): string {
    if IsLowerAlnum(c) then [c] else ""
  }

  /** `slugify(title)`. The trailing hyphens are stripped before the cut to
      100 characters, so the cut can leave a hyphen at the end. */
  function Slugify(title: string): (r: string)
    ensures |r| <= MaxSlug
    ensures forall i :: 0 <= i < |r| ==> IsSlugChar(r[i])
    ensures NoDoubleHyphen(r)
    ensures |r| == 0 || r[0] != '-'
  {
    var c := Collapse(Lower(title));
    var t := StripEnd(StripStart(c));
    StripFacts(c);
    TakeFacts(t, MaxSlug);
    Take(t, MaxSlug)
  }

  predicate SlugText(s: string) {
    (forall i :: 0 <= i < |s| ==> IsSlugChar(s[i])) && NoDoubleHyphen(s)
  }

  lemma SliceSlugText(s: string, a: nat, b: nat)
    requires SlugText(s) && a <= b <= |s|
    ensures SlugText(s[a..b])
  {
    assert forall i :: 0 <= i < b - a ==> s[a..b][i] == s[a + i];
  }

  lemma StripFacts(c: string)
    requires SlugText(c)
    ensures var t := StripEnd(StripStart(c));
      SlugText(t) && (|t| == 0 || t[0] != '-')
  {
    var a := StripStart(c);
    SliceSlugText(c, |c| - |a|, |c|);
    assert c[|c| - |a|..|c|] == a;
    var t := StripEnd(a);
    SliceSlugText(a, 0, |t|);
    assert a[0..|t|] == t;
  }

  lemma TakeFacts(t: string, n: nat)
    requires SlugText(t) && (|t| == 0 || t[0] != '-')
    ensures var r := Take(t, n); SlugText(r) && (|r| == 0 || r[0] != '-')
  {
    SliceSlugText(t, 0, |Take(t, n)|);
    assert t[0..|Take(t, n)|] == Take(t, n);
  }

  // ---------------------------------------------------------------------
  // Properties of slugify

  lemma {:induction false} AlnumsAppend(a: string, b: string)
    ensures Alnums(a + b) == Alnums(a) + Alnums(b)
    decreases |a|
  {
    if |a| == 0 {
      assert a + b == b;
    } else {
      AlnumsCons(a, b);
      AlnumsAppend(a[1..], b);
      Assoc(AlnumOf(a[0]), Alnums(a[1..]), Alnums(b));
    }
  }

  lemma AlnumsCons(a: string, b: string)
    requires |a| > 0
    ensures Alnums(a + b) == AlnumOf(a[0]) + Alnums(a[1..] + b)
  {
    assert (a + b)[1..] == a[1..] + b;
  }

  lemma {:induction false} AlnumsNone(s: string)
    requires forall i :: 0 <= i < |s| ==> !IsLowerAlnum(s[i])
    ensures Alnums(s) == ""
    decreases |s|
  {
    if |s| > 0 {
      AlnumsNone(s[1..]);
    }
  }

  /** Collapsing keeps every letter and digit, in order. */
  lemma {:induction false} CollapseKeeps(s: string)
    ensures Alnums(Collapse(s)) == Alnums(s)
    decreases |s|
  {
    if |s| > 0 {
      if IsLowerAlnum(s[0]) {
        CollapseKeeps(s[1..]);
        AlnumsPrepend(s[0], Collapse(s[1..]));
      } else {
        var d := DropRun(s[1..]);
        CollapseKeeps(d);
        AlnumsPrepend('-', Collapse(d));
        RunKeeps(s[1..]);
      }
    }
  }

  lemma AlnumsPrepend(c: char, t: string)
    ensures Alnums([c] + t) == AlnumOf(c) + Alnums(t)
  {
    assert ([c] + t)[1..] == t;
  }

  lemma SplitAt(s: string, k: nat)
    requires k <= |s|
    ensures s[..k] + s[k..] == s
  {
  }

  /** The separators `DropRun` skips hold no letter or digit. */
  lemma RunKeeps(s: string)
    ensures Alnums(DropRun(s)) == Alnums(s)
  {
    var d := DropRun(s);
    var k := |s| - |d|;
    SplitAt(s, k);
    AlnumsNone(s[..k]);
    AlnumsAppend(s[..k], s[k..]);
  }

  /** Stripping hyphens keeps every letter and digit. */
  lemma StripKeeps(s: string)
    ensures Alnums(StripEnd(StripStart(s))) == Alnums(s)
  {
    StripStartKeeps(s);
    StripEndKeeps(StripStart(s));
  }

  lemma StripStartKeeps(s: string)
    ensures Alnums(StripStart(s)) == Alnums(s)
  {
    var a := StripStart(s);
    var h := s[..|s| - |a|];
    assert s == h + a;
    AlnumsNone(h);
    AlnumsAppend(h, a);
  }

  lemma StripEndKeeps(a: string)
    ensures Alnums(StripEnd(a)) == Alnums(a)
  {
    var b := StripEnd(a);
    var h := a[|b|..];
    assert a == b + h;
    AlnumsNone(h);
    AlnumsAppend(b, h);
  }

  lemma {:induction false} AlnumsEmpty(s: string)
    ensures Alnums(s) == "" <==> forall i :: 0 <= i < |s| ==> !IsLowerAlnum(s[i])
    decreases |s|
  {
    if |s| > 0 {
      AlnumsEmpty(s[1..]);
      if Alnums(s) == "" {
        assert !IsLowerAlnum(s[0]);
        forall i | 0 <= i < |s|
          ensures !IsLowerAlnum(s[i])
        {
          if i > 0 {
            assert s[i] == s[1..][i - 1];
          }
        }
      } else if !IsLowerAlnum(s[0]) {
        var i :| 0 <= i < |s[1..]| && IsLowerAlnum(s[1..][i]);
        assert IsLowerAlnum(s[i + 1]);
      }
    }
  }

  /** A title gives an empty slug exactly when it holds no ASCII letter or
      digit. */
  lemma SlugifyEmpty(title: string)
    ensures Slugify(title) == "" <==> forall i :: 0 <= i < |title| ==> !IsLowerAlnum(LowerAscii(title[i]))
  {
    SlugifyEmptyAlnums(title);
    LowerEmptyAlnums(title);
  }

  /** The slug is empty exactly when the lower-cased title has no letter or
      digit to keep. */
  lemma SlugifyEmptyAlnums(title: string)
    ensures Slugify(title) == "" <==> Alnums(Lower(title)) == ""
  {
    var l := Lower(title);
    var c := Collapse(l);
    var t := StripEnd(StripStart(c));
    CollapseKeeps(l);
    StripKeeps(c);
    AlnumsEmpty(t);
    if t != "" {
      assert Take(t, MaxSlug) != "";
    }
  }

  lemma LowerEmptyAlnums(title: string)
    ensures Alnums(Lower(title)) == "" <==> forall i :: 0 <= i < |title| ==> !IsLowerAlnum(LowerAscii(title[i]))
  {
    var l := Lower(title);
    AlnumsEmpty(l);
    assert forall i :: 0 <= i < |title| ==> l[i] == LowerAscii(title[i]);
  }

  /** A derived slug is valid exactly when it has two characters or more and
      does not end in a hyphen. */
  lemma SlugifyValid(title: string)
    ensures var r := Slugify(title);
      IsValidSlug(r) <==> |r| >= 2 && r[|r| - 1] != '-'
  {
    var r := Slugify(title);
    SlugTextValid(r);
  }

  /** Slug text that does not start with a hyphen and fits the length limit
      is a valid slug exactly when it is long enough and does not end in a
      hyphen. */
  lemma SlugTextValid(r: string)
    requires |r| <= MaxSlug && (forall i :: 0 <= i < |r| ==> IsSlugChar(r[i]))
    requires |r| == 0 || r[0] != '-'
    ensures IsValidSlug(r) <==> |r| >= 2 && r[|r| - 1] != '-'
  {
    if |r| >= 2 {
      assert IsSlugChar(r[0]) && IsSlugChar(r[|r| - 1]);
    }
  }

  /** Text already made of letters, digits and single hyphens collapses to
      itself. */
  lemma {:induction false} CollapseSlug(s: string)
    requires SlugText(s)
    ensures Collapse(s) == s
    decreases |s|
  {
    if |s| > 0 {
      SliceSlugText(s, 1, |s|);
      assert s[1..|s|] == s[1..];
      CollapseSlug(s[1..]);
      if !IsLowerAlnum(s[0]) {
        assert |s| == 1 || s[1] != '-';
        assert DropRun(s[1..]) == s[1..];
      }
      assert s == [s[0]] + s[1..];
    }
  }

  /** A valid slug without doubled hyphens is its own slug; valid slugs with
      `--` are not, because the run collapses. */
  lemma SlugifyFixed(s: string)
    requires IsValidSlug(s) && NoDoubleHyphen(s)
    ensures Slugify(s) == s
  {
    CollapseValidSlug(s);
    StripSlug(s);
    SlugifyOfSlug(s, s);
  }

  lemma SlugifyOfSlug(title: string, c: string)
    requires Collapse(Lower(title)) == c && StripEnd(StripStart(c)) == c && |c| <= MaxSlug
    ensures Slugify(title) == c
  {
    SlugifyOf(title, c);
    TakeAll(c, MaxSlug);
  }

  lemma TakeAll(s: string, n: nat)
    requires |s| <= n
    ensures Take(s, n) == s
  {
  }

  lemma CollapseValidSlug(s: string)
    requires IsValidSlug(s) && NoDoubleHyphen(s)
    ensures Collapse(Lower(s)) == s
  {
    ValidSlugText(s);
    LowerPlain(s);
    CollapseSlug(s);
  }

  lemma ValidSlugText(s: string)
    requires IsValidSlug(s) && NoDoubleHyphen(s)
    ensures SlugText(s)
    ensures forall i :: 0 <= i < |s| ==> !('A' <= s[i] <= 'Z')
  {
    forall i | 0 <= i < |s|
      ensures IsSlugChar(s[i])
    {
    }
  }

  /** A valid slug has no hyphen at either end to strip. */
  lemma StripSlug(s: string)
    requires IsValidSlug(s)
    ensures StripEnd(StripStart(s)) == s
  {
    assert StripStart(s) == s;
  }

  /** Text without ASCII capitals is its own lower case. */
  lemma LowerPlain(s: string)
    requires forall i :: 0 <= i < |s| ==> !('A' <= s[i] <= 'Z')
    ensures Lower(s) == s
  {
  }

  /** `Hello World` becomes `hello-world`. */
  lemma SlugifyExample(title: string)
    requires title == "Hello World"
    ensures Slugify(title) == "hello-world"
  {
    LowerHello(title);
    SlugifyWords("hello", ' ', "world");
    SlugifyOf(title, "hello" + "-" + "world");
    HelloWorld();
  }

  lemma HelloWorld()
    ensures Take("hello" + "-" + "world", MaxSlug) == "hello-world"
  {
  }

  lemma LowerHello(title: string)
    requires title == "Hello World"
    ensures Lower(title) == "hello" + [' '] + "world"
  {
  }

  /** Slugify once the collapsed text is known and has no hyphen to strip. */
  lemma SlugifyOf(title: string, c: string)
    requires Collapse(Lower(title)) == c && StripEnd(StripStart(c)) == c
    ensures Slugify(title) == Take(c, MaxSlug)
  {
  }

  /** Two words with one separator between them. */
  lemma SlugifyWords(a: string, x: char, b: string)
    requires |a| > 0 && |b| > 0 && !IsLowerAlnum(x)
    requires forall i :: 0 <= i < |a| ==> IsLowerAlnum(a[i])
    requires forall i :: 0 <= i < |b| ==> IsLowerAlnum(b[i])
    ensures Collapse(a + [x] + b) == a + "-" + b
    ensures StripEnd(StripStart(a + "-" + b)) == a + "-" + b
  {
    CollapseWords(a, x, b);
    StripWords(a, b);
  }

  lemma StripWords(a: string, b: string)
    requires |a| > 0 && |b| > 0 && IsLowerAlnum(a[0]) && IsLowerAlnum(b[|b| - 1])
    ensures StripEnd(StripStart(a + "-" + b)) == a + "-" + b
  {
    var w := a + "-" + b;
    assert w[0] == a[0] && w[|w| - 1] == b[|b| - 1];
  }

  lemma CollapseWords(a: string, x: char, b: string)
    requires |a| > 0 && |b| > 0 && !IsLowerAlnum(x)
    requires forall i :: 0 <= i < |a| ==> IsLowerAlnum(a[i])
    requires forall i :: 0 <= i < |b| ==> IsLowerAlnum(b[i])
    ensures Collapse(a + [x] + b) == a + "-" + b
  {
    Assoc(a, [x], b);
    CollapsePrefix(a, [x] + b);
    assert ([x] + b)[1..] == b;
    assert DropRun(b) == b;
    CollapsePrefix(b, "");
    assert b + "" == b;
    Assoc(a, "-", b);
  }

  lemma Assoc(a: string, b: string, c: string)
    ensures a + (b + c) == a + b + c
  {
  }

  /** A long title can be cut right after a hyphen: the slug then ends in
      `-` and is rejected. */
  lemma SlugifyCutAtHyphen(title: string)
    requires title == seq(99, _ => 'a') + " b"
    ensures Slugify(title) == seq(99, _ => 'a') + "-"
    ensures !IsValidSlug(Slugify(title))
  {
    var a := seq(99, _ => 'a');
    LowerPlain(title);
    assert title == a + [' '] + "b";
    SlugifyWords(a, ' ', "b");
    SlugifyOf(title, a + "-" + "b");
    TakeAfter(a + "-", "b");
    EndsInHyphen(a, Slugify(title));
  }

  lemma EndsInHyphen(a: string, r: string)
    requires r == a + "-"
    ensures !IsValidSlug(r)
  {
    assert r[|r| - 1] == '-';
  }

  lemma TakeAfter(u: string, v: string)
    requires |u| == MaxSlug && |v| > 0
    ensures Take(u + v, MaxSlug) == u
  {
    assert (u + v)[..|u|] == u;
  }

  /** Collapsing a run of letters and digits, then the rest. */
  lemma {:induction false} CollapsePrefix(a: string, b: string)
    requires forall i :: 0 <= i < |a| ==> IsLowerAlnum(a[i])
    ensures Collapse(a + b) == a + Collapse(b)
    decreases |a|
  {
    if |a| == 0 {
      assert a + b == b;
    } else {
      assert (a + b)[0] == a[0] && (a + b)[1..] == a[1..] + b;
      CollapsePrefix(a[1..], b);
      ConsTail(a, Collapse(b));
    }
  }
}
