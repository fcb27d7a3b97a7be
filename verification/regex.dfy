/** The three regular-expression shapes the post parser uses, each built
    from literal text: `open(.*?)close` with the first match taken
    (`String.prototype.match` without the global flag), the same with
    `[\s\S]*?`, and repeated `exec` with the global flag. A match starts at
    the leftmost offset where one exists and its lazy group is the shortest
    that lets `close` follow. */
module Regex {
  import opened Wrappers
  import opened Text

  /** No occurrence of `m` can begin inside `s`, whatever text follows `s`. */
  predicate MarkerFree(s: string, m: string) {
    forall i :: 0 <= i < |s| ==> !(m <= s[i..]) && !(s[i..] <= m)
  }

  lemma PrefixOfConcat(m: string, x: string, y: string)
    requires m <= x + y
    ensures m <= x || x <= m
  {
    if |m| <= |x| {
      assert m == (x + y)[..|m|] == x[..|m|];
    } else {
      assert x == (x + y)[..|x|] == m[..|x|];
    }
  }

  lemma MarkerFreeConcat(a: string, b: string, m: string)
    requires MarkerFree(a, m) && MarkerFree(b, m)
    ensures MarkerFree(a + b, m)
  {
    forall i | 0 <= i < |a + b|
      ensures !(m <= (a + b)[i..]) && !((a + b)[i..] <= m)
    {
      if i < |a| {
        assert (a + b)[i..] == a[i..] + b;
        if m <= (a + b)[i..] {
          PrefixOfConcat(m, a[i..], b);
        }
        assert a[i..] <= a[i..] + b;
      } else {
        assert (a + b)[i..] == b[i - |a|..];
      }
    }
  }

  /** A string without the marker's first character cannot start it. */
  lemma MarkerFreeNoHead(s: string, m: string)
    requires |m| > 0 && m[0] !in s
    ensures MarkerFree(s, m)
  {
    forall i | 0 <= i < |s|
      ensures !(m <= s[i..]) && !(s[i..] <= m)
    {
      assert s[i..][0] == s[i];
    }
  }

  /** A tag whose only `<`-like character is its first, and which differs
      from the marker at some offset `k` inside it, cannot start the marker. */
  lemma MarkerFreeTag(s: string, m: string, k: nat)
    requires 0 < k < |s| && k < |m| && s[k] != m[k] && m[0] !in s[1..]
    ensures MarkerFree(s, m)
  {
    forall i | 0 <= i < |s|
      ensures !(m <= s[i..]) && !(s[i..] <= m)
    {
      if i == 0 {
        assert s[0..] == s;
      } else {
        assert s[i..][0] == s[1..][i - 1];
      }
    }
  }

  lemma MarkerFreeNotAt(a: string, b: string, m: string, i: nat)
    requires MarkerFree(a, m) && i < |a|
    ensures !OccursAt(a + b, m, i)
  {
    assert (a + b)[i..] == a[i..] + b;
    if m <= (a + b)[i..] {
      PrefixOfConcat(m, a[i..], b);
    }
  }

  /** Characters `j` onwards of `m` appear in `s` from offset `i + j`. */
  predicate AgreeFrom(s: string, m: string, i: nat, j: nat)
    requires j <= |m| && i + |m| <= |s|
    decreases |m| - j
  {
    j == |m| || (s[i + j] == m[j] && AgreeFrom(s, m, i, j + 1))
  }

  /** The matcher's test that `m` occurs in `s` at offset `i`, one character
      at a time. */
  predicate Agrees(s: string, m: string, i: nat) {
    i + |m| <= |s| && AgreeFrom(s, m, i, 0)
  }

  lemma {:induction false} AgreeFromAll(s: string, m: string, i: nat, j: nat)
    requires j <= |m| && i + |m| <= |s|
    ensures AgreeFrom(s, m, i, j) <==> forall t :: j <= t < |m| ==> s[i + t] == m[t]
    decreases |m| - j
  {
    if j < |m| {
      AgreeFromAll(s, m, i, j + 1);
    }
  }

  /** The character test and the prefix test agree. */
  lemma AgreesOccurs(s: string, m: string, i: nat)
    requires i <= |s|
    ensures Agrees(s, m, i) <==> OccursAt(s, m, i)
  {
    if i + |m| <= |s| {
      AgreeFromAll(s, m, i, 0);
      if OccursAt(s, m, i) {
        forall t | 0 <= t < |m|
          ensures s[i + t] == m[t]
        {
          assert s[i..][t] == m[t];
        }
      }
      if Agrees(s, m, i) {
        assert s[i..][..|m|] == m;
      }
    }
  }

  /** Offsets of a match's group in the searched string. */
  datatype Span = Span(start: nat, end: nat)

  /** The end of the shortest lazy group that begins at `k` and is followed
      by `close`; without `dotAll` the group may hold no line terminator. */
  function LazyClose(s: string, close: string, k: nat, dotAll: bool): (r: Option<nat>)
    requires k <= |s|
    ensures r.Some? ==> k <= r.value && r.value + |close| <= |s|
    decreases |s| - k
  {
    if Agrees(s, close, k) then Some(k)
    else if k == |s| || (!dotAll && IsLineTerminator(s[k])) then None
    else LazyClose(s, close, k + 1, dotAll)
  }

  /** The group ends where `close` occurs, and without `dotAll` it holds no
      line terminator. */
  lemma {:induction false} LazyCloseSound(s: string, close: string, k: nat, dotAll: bool)
    requires k <= |s| && LazyClose(s, close, k, dotAll).Some?
    ensures OccursAt(s, close, LazyClose(s, close, k, dotAll).value)
    ensures !dotAll ==> forall j :: k <= j < LazyClose(s, close, k, dotAll).value ==> !IsLineTerminator(s[j])
    decreases |s| - k
  {
    if Agrees(s, close, k) {
      AgreesOccurs(s, close, k);
    } else {
      LazyCloseSound(s, close, k + 1, dotAll);
    }
  }

  /** The first match of `open(.*?)close` (or `open([\s\S]*?)close` when
      `dotAll`) at offset `from` or later, as the offsets of its group. */
  function FirstMatch(s: string, open: string, close: string, dotAll: bool, from: nat): (r: Option<Span>)
    requires from <= |s|
    ensures r.Some? ==> from + |open| <= r.value.start <= r.value.end && r.value.end + |close| <= |s|
    decreases |s| - from
  {
    if Agrees(s, open, from) && LazyClose(s, close, from + |open|, dotAll).Some? then
      Some(Span(from + |open|, LazyClose(s, close, from + |open|, dotAll).value))
    else if from == |s| then None
    else FirstMatch(s, open, close, dotAll, from + 1)
  }

  /** A match is preceded by `open` and followed by `close`, and without
      `dotAll` its group holds no line terminator. */
  lemma {:induction false} MatchSound(s: string, open: string, close: string, dotAll: bool, from: nat)
    requires from <= |s| && FirstMatch(s, open, close, dotAll, from).Some?
    ensures var sp := FirstMatch(s, open, close, dotAll, from).value;
      && OccursAt(s, open, sp.start - |open|) && OccursAt(s, close, sp.end)
      && (!dotAll ==> NoLineBreak(s[sp.start..sp.end]))
    decreases |s| - from
  {
    if Agrees(s, open, from) && LazyClose(s, close, from + |open|, dotAll).Some? {
      AgreesOccurs(s, open, from);
      LazyCloseSound(s, close, from + |open|, dotAll);
      var sp := FirstMatch(s, open, close, dotAll, from).value;
      forall i | 0 <= i < sp.end - sp.start
        ensures !IsLineTerminator(s[sp.start..sp.end][i]) || dotAll
      {
        if !dotAll {
          assert s[sp.start..sp.end][i] == s[sp.start + i];
        }
      }
    } else {
      MatchSound(s, open, close, dotAll, from + 1);
    }
  }

  /** The captured group of the first match, or `''` when there is none: the
      `m ? m[1] : ''` idiom of the parser. */
  function GroupOrEmpty(s: string, open: string, close: string, dotAll: bool): (r: string)
    ensures !dotAll ==> NoLineBreak(r)
  {
    match FirstMatch(s, open, close, dotAll, 0)
    case Some(sp) => MatchSound(s, open, close, dotAll, 0); s[sp.start..sp.end]
    case None => ""
  }

  /** Offsets before `to` where `open` does not occur cannot start a match. */
  lemma {:induction false} FirstMatchSkip(s: string, open: string, close: string, dotAll: bool, from: nat, to: nat)
    requires from <= to <= |s|
    requires forall i :: from <= i < to ==> !OccursAt(s, open, i)
    ensures FirstMatch(s, open, close, dotAll, from) == FirstMatch(s, open, close, dotAll, to)
    decreases (to as int) - (from as int)
  {
    if from < to {
      AgreesOccurs(s, open, from);
      FirstMatchSkip(s, open, close, dotAll, from + 1, to);
    }
  }

  lemma {:induction false} LazyCloseFrom(x: string, content: string, close: string, post: string, dotAll: bool, k: nat)
    requires MarkerFree(content, close)
    requires dotAll || NoLineBreak(content)
    requires |x| <= k <= |x| + |content|
    ensures LazyClose(x + content + close + post, close, k, dotAll) == Some(|x| + |content|)
    decreases |x| + |content| - k
  {
    var s := x + content + close + post;
    AgreesOccurs(s, close, k);
    if k == |x| + |content| {
      assert s[k..] == close + post;
    } else {
      var k' := k - |x|;
      assert s[k..] == content[k'..] + (close + post);
      MarkerFreeNotAt(content, close + post, close, k');
      assert (content + (close + post))[k'..] == content[k'..] + (close + post);
      assert s[k] == content[k'];
      LazyCloseFrom(x, content, close, post, dotAll, k + 1);
    }
  }

  /** The match lands on the first `open`, and its group is everything up to
      the first `close` after it. */
  lemma FirstMatchIn(pre: string, open: string, content: string, close: string, post: string, dotAll: bool)
    requires MarkerFree(pre, open) && MarkerFree(content, close)
    requires dotAll || NoLineBreak(content)
    ensures FirstMatch(pre + open + content + close + post, open, close, dotAll, 0)
         == Some(Span(|pre| + |open|, |pre| + |open| + |content|))
  {
    SkipPre(pre, open, content, close, post, dotAll);
    FirstMatchAt(pre, open, content, close, post, dotAll);
  }

  lemma LazyCloseAfterOpen(pre: string, open: string, content: string, close: string, post: string, dotAll: bool)
    requires MarkerFree(content, close)
    requires dotAll || NoLineBreak(content)
    ensures LazyClose(pre + open + content + close + post, close, |pre| + |open|, dotAll)
         == Some(|pre| + |open| + |content|)
  {
    LazyCloseFrom(pre + open, content, close, post, dotAll, |pre| + |open|);
  }

  lemma SkipPre(pre: string, open: string, content: string, close: string, post: string, dotAll: bool)
    requires MarkerFree(pre, open)
    ensures FirstMatch(pre + open + content + close + post, open, close, dotAll, 0)
         == FirstMatch(pre + open + content + close + post, open, close, dotAll, |pre|)
  {
    var s := pre + open + content + close + post;
    var rest := open + content + close + post;
    assert s == pre + rest;
    NoneBefore(pre, rest, open);
    FirstMatchSkip(s, open, close, dotAll, 0, |pre|);
  }

  lemma NoneBefore(a: string, b: string, m: string)
    requires MarkerFree(a, m)
    ensures forall i :: 0 <= i < |a| ==> !OccursAt(a + b, m, i)
  {
    forall i | 0 <= i < |a|
      ensures !OccursAt(a + b, m, i)
    {
      MarkerFreeNotAt(a, b, m, i);
    }
  }

  lemma OpenAt(pre: string, open: string, content: string, close: string, post: string)
    ensures OccursAt(pre + open + content + close + post, open, |pre|)
  {
    var s := pre + open + content + close + post;
    assert s[|pre|..] == open + content + close + post;
    assert s[|pre|..][..|open|] == open;
  }

  lemma FirstMatchAt(pre: string, open: string, content: string, close: string, post: string, dotAll: bool)
    requires MarkerFree(content, close)
    requires dotAll || NoLineBreak(content)
    ensures FirstMatch(pre + open + content + close + post, open, close, dotAll, |pre|)
         == Some(Span(|pre| + |open|, |pre| + |open| + |content|))
  {
    LazyCloseAfterOpen(pre, open, content, close, post, dotAll);
    OpenAt(pre, open, content, close, post);
    AgreesOccurs(pre + open + content + close + post, open, |pre|);
  }

  /** With no occurrence of `open` at `from` or later, there is no match. */
  lemma {:induction false} FirstMatchNoneFrom(s: string, open: string, close: string, dotAll: bool, from: nat)
    requires from <= |s|
    requires forall i :: from <= i <= |s| ==> !OccursAt(s, open, i)
    ensures FirstMatch(s, open, close, dotAll, from) == None
    decreases |s| - from
  {
    AgreesOccurs(s, open, from);
    if from < |s| {
      FirstMatchNoneFrom(s, open, close, dotAll, from + 1);
    }
  }

  /** Without the opening text anywhere, there is no match. */
  lemma FirstMatchAbsent(s: string, open: string, close: string, dotAll: bool)
    requires Absent(s, open)
    ensures FirstMatch(s, open, close, dotAll, 0) == None
  {
    FirstMatchNoneFrom(s, open, close, dotAll, 0);
  }

  /** The group the first match captures, as `GroupOrEmpty` returns it. */
  lemma GroupIn(pre: string, open: string, content: string, close: string, post: string, dotAll: bool)
    requires MarkerFree(pre, open) && MarkerFree(content, close)
    requires dotAll || NoLineBreak(content)
    ensures GroupOrEmpty(pre + open + content + close + post, open, close, dotAll) == content
  {
    FirstMatchIn(pre, open, content, close, post, dotAll);
    Pieces(pre, open, content, close, post);
  }

  /** Without `dotAll`, a line terminator ahead of the next `close` ends the
      search for the group. */
  lemma {:induction false} LazyCloseBreak(x: string, content: string, close: string, post: string, j: nat, k: nat)
    requires MarkerFree(content, close)
    requires j < |content| && IsLineTerminator(content[j])
    requires |x| <= k <= |x| + j
    ensures LazyClose(x + content + close + post, close, k, false) == None
    decreases |x| + j - k
  {
    var s := x + content + close + post;
    var k' := k - |x|;
    AgreesOccurs(s, close, k);
    assert s[k..] == content[k'..] + (close + post);
    MarkerFreeNotAt(content, close + post, close, k');
    assert (content + (close + post))[k'..] == content[k'..] + (close + post);
    assert s[k] == content[k'];
    if k < |x| + j {
      LazyCloseBreak(x, content, close, post, j, k + 1);
    }
  }

  /** An `open` whose group would have to cross a line end yields no match,
      and the search moves on to the next offset. */
  lemma FirstMatchBreak(pre: string, open: string, content: string, close: string, post: string, j: nat)
    requires MarkerFree(content, close)
    requires j < |content| && IsLineTerminator(content[j])
    ensures FirstMatch(pre + open + content + close + post, open, close, false, |pre|)
         == FirstMatch(pre + open + content + close + post, open, close, false, |pre| + 1)
  {
    LazyCloseBreak(pre + open, content, close, post, j, |pre| + |open|);
  }

  /** A marker-free suffix holds no occurrence of the marker. */
  lemma NoneAfter(a: string, b: string, m: string)
    requires MarkerFree(b, m) && |m| > 0
    ensures forall i :: |a| <= i <= |a + b| ==> !OccursAt(a + b, m, i)
  {
    forall i | |a| <= i <= |a + b|
      ensures !OccursAt(a + b, m, i)
    {
      if i < |a + b| {
        assert (a + b)[i..] == b[i - |a|..];
        assert !(m <= b[i - |a|..]);
      }
    }
  }

  /** Every group of `open([\s\S]*?)close` under the global flag, in order:
      `exec` searches from `lastIndex`, which each match moves past its
      closing text. */
  function AllGroups(s: string, open: string, close: string): seq<string>
    requires |open| > 0
  {
    GroupsFrom(s, open, close, 0)
  }

  /** The groups `exec` finds with `lastIndex` at `from`. */
  function GroupsFrom(s: string, open: string, close: string, from: nat): seq<string>
    requires |open| > 0 && from <= |s|
    decreases |s| - from
  {
    match FirstMatch(s, open, close, true, from)
    case None => []
    case Some(sp) => [s[sp.start..sp.end]] + GroupsFrom(s, open, close, sp.end + |close|)
  }

  /** After text `x` already searched, a match of `content` gives that group
      and the search resumes past its closing text. */
  lemma GroupsStep(x: string, pre: string, open: string, content: string, close: string, post: string)
    requires |open| > 0
    requires MarkerFree(pre, open) && MarkerFree(content, close)
    ensures var s := x + pre + open + content + close + post;
      && |x + pre + open + content + close| <= |s|
      && GroupsFrom(s, open, close, |x|)
         == [content] + GroupsFrom(s, open, close, |x + pre + open + content + close|)
  {
    var s := x + pre + open + content + close + post;
    var a := |x| + |pre| + |open|;
    FirstMatchInAt(x, pre, open, content, close, post);
    GroupsAt(s, open, close, |x|, a, a + |content|);
    PiecesAt(x, pre, open, content, close, post);
  }

  /** The first group found from `from`, then the groups after it. */
  lemma GroupsAt(s: string, open: string, close: string, from: nat, a: nat, b: nat)
    requires |open| > 0 && from <= |s| && FirstMatch(s, open, close, true, from) == Some(Span(a, b))
    ensures GroupsFrom(s, open, close, from) == [s[a..b]] + GroupsFrom(s, open, close, b + |close|)
  {
  }

  /** `FirstMatchIn` for a search starting after text `x`. */
  lemma FirstMatchInAt(x: string, pre: string, open: string, content: string, close: string, post: string)
    requires MarkerFree(pre, open) && MarkerFree(content, close)
    ensures FirstMatch(x + pre + open + content + close + post, open, close, true, |x|)
         == Some(Span(|x| + |pre| + |open|, |x| + |pre| + |open| + |content|))
  {
    var s := x + pre + open + content + close + post;
    var rest := open + content + close + post;
    assert s == x + (pre + rest);
    forall i | |x| <= i < |x| + |pre|
      ensures !OccursAt(s, open, i)
    {
      MarkerFreeNotAt(pre, rest, open, i - |x|);
      assert s[i..] == (pre + rest)[i - |x|..];
    }
    FirstMatchSkip(s, open, close, true, |x|, |x| + |pre|);
    assert s == (x + pre) + open + content + close + post;
    FirstMatchAt(x + pre, open, content, close, post, true);
  }

  lemma Pieces(pre: string, open: string, content: string, close: string, post: string)
    ensures var s := pre + open + content + close + post;
      && s[|pre| + |open|..|pre| + |open| + |content|] == content
      && s[|pre| + |open| + |content| + |close|..] == post
  {
  }

  lemma PiecesAt(x: string, pre: string, open: string, content: string, close: string, post: string)
    ensures var s := x + pre + open + content + close + post;
      var a := |x| + |pre| + |open|;
      s[a..a + |content|] == content
  {
  }

  /** After text `x`, a tail free of `open` yields no more groups. */
  lemma GroupsNone(x: string, t: string, open: string, close: string)
    requires |open| > 0 && MarkerFree(t, open)
    ensures GroupsFrom(x + t, open, close, |x|) == []
  {
    NoneAfter(x, t, open);
    FirstMatchNoneFrom(x + t, open, close, true, |x|);
  }

  /** Number of offsets at which `m` occurs in `s`. */
  function Count(s: string, m: string): nat
    decreases |s|
  {
    if |s| == 0 then 0
    else (if m <= s then 1 else 0) + Count(s[1..], m)
  }

  /** A marker-free prefix adds no occurrences. */
  lemma {:induction false} CountAfterFree(a: string, b: string, m: string)
    requires MarkerFree(a, m)
    ensures Count(a + b, m) == Count(b, m)
    decreases |a|
  {
    if |a| > 0 {
      MarkerFreeNotAt(a, b, m, 0);
      assert (a + b)[0..] == a + b;
      assert (a + b)[1..] == a[1..] + b;
      forall i | 0 <= i < |a[1..]|
        ensures !(m <= a[1..][i..]) && !(a[1..][i..] <= m)
      {
        assert a[1..][i..] == a[i + 1..];
      }
      CountAfterFree(a[1..], b, m);
    } else {
      assert a + b == b;
    }
  }

  /** An occurrence at the front counts once, the rest is counted after it. */
  lemma CountAtFront(m: string, b: string)
    requires |m| > 0 && m[0] !in m[1..]
    ensures Count(m + b, m) == 1 + Count(b, m)
  {
    assert (m + b)[1..] == m[1..] + b;
    MarkerFreeNoHead(m[1..], m);
    CountAfterFree(m[1..], b, m);
  }
}
