/** String primitives of the JavaScript runtime that the blog code leans on:
    `trim`, `join`, `replace` with a global literal pattern, `endsWith`, and
    the blank-line `split` of post bodies. JavaScript strings are sequences
    of UTF-16 code units; a `char` here is a Unicode character, which agrees
    with one code unit inside the Basic Multilingual Plane. */
module Text {

  /** The characters `String.prototype.trim` removes: ECMAScript WhiteSpace
      (tab, vertical tab, form feed, space, no-break space, byte order mark
      and the space separators) and LineTerminator. */
  predicate IsJsSpace(c: char) {
    || c == '\t' || c == '\U{000B}' || c == '\U{000C}' || c == ' '
    || c == '\U{00A0}' || c == '\U{FEFF}' || c == '\U{1680}'
    || ('\U{2000}' <= c <= '\U{200A}') || c == '\U{202F}' || c == '\U{205F}'
    || c == '\U{3000}' || IsLineTerminator(c)
  }

  /** The characters a regular expression `.` refuses to match. */
  predicate IsLineTerminator(c: char) {
    c == '\n' || c == '\r' || c == '\U{2028}' || c == '\U{2029}'
  }

  predicate NoLineBreak(s: string) {
    forall i :: 0 <= i < |s| ==> !IsLineTerminator(s[i])
  }

  /** Neither end of `s` is white space. */
  predicate Trimmed(s: string) {
    |s| == 0 || (!IsJsSpace(s[0]) && !IsJsSpace(s[|s| - 1]))
  }

  /** The first index from `i` on that is not white space. */
  function SpaceEnd(s: string, i: nat): (k: nat)
    requires i <= |s|
    ensures i <= k <= |s|
    ensures forall j :: i <= j < k ==> IsJsSpace(s[j])
    ensures k == |s| || !IsJsSpace(s[k])
    decreases |s| - i
  {
    if i < |s| && IsJsSpace(s[i]) then SpaceEnd(s, i + 1) else i
  }

  /** The index after the last character before `j`, down to `k`, that is
      not white space. */
  function SpaceStart(s: string, k: nat, j: nat): (e: nat)
    requires k <= j <= |s|
    ensures k <= e <= j
    ensures forall x :: e <= x < j ==> IsJsSpace(s[x])
    ensures e == k || !IsJsSpace(s[e - 1])
    decreases j
  {
    if k < j && IsJsSpace(s[j - 1]) then SpaceStart(s, k, j - 1) else j
  }

  /** Where the trimmed slice begins. */
  function TrimOffset(s: string): (k: nat)
    ensures k <= |s|
  {
    SpaceEnd(s, 0)
  }

  /** `s.trim()`: the longest slice of `s` with no white space at either end,
      obtained by removing only white space. */
  function Trim(s: string): (r: string)
    ensures Trimmed(r)
    ensures TrimOffset(s) + |r| <= |s|
    ensures r == s[TrimOffset(s)..TrimOffset(s) + |r|]
    ensures forall i :: 0 <= i < TrimOffset(s) ==> IsJsSpace(s[i])
    ensures forall i :: TrimOffset(s) + |r| <= i < |s| ==> IsJsSpace(s[i])
  {
    var k := SpaceEnd(s, 0);
    var e := SpaceStart(s, k, |s|);
    s[k..e]
  }

  /** A `trim()` result is empty exactly when the input was all white space,
      the test `p.trim()` that JavaScript treats as falsy. */
  lemma TrimEmpty(s: string)
    ensures Trim(s) == "" <==> forall i :: 0 <= i < |s| ==> IsJsSpace(s[i])
  {
    if Trim(s) != "" {
      var k := TrimOffset(s);
      assert !IsJsSpace(Trim(s)[0]) && Trim(s)[0] == s[k];
    }
  }

  /** Trimming changes nothing on a string that is already trimmed, so it is
      idempotent. */
  lemma TrimTrimmed(s: string)
    requires Trimmed(s)
    ensures Trim(s) == s
  {
    var r := Trim(s);
    var k := TrimOffset(s);
    if |s| > 0 {
      assert !IsJsSpace(s[0]);
      assert k == 0;
      assert !IsJsSpace(s[|s| - 1]);
      assert |r| == |s|;
    }
  }

  /** Trimming adds no line break. */
  lemma TrimNoBreak(s: string)
    requires NoLineBreak(s)
    ensures NoLineBreak(Trim(s))
  {
    var a := TrimOffset(s);
    var t := Trim(s);
    forall i | 0 <= i < |t|
      ensures !IsLineTerminator(t[i])
    {
      assert t[i] == s[a + i];
    }
  }

  /** Trimming creates no occurrence of a text. */
  lemma TrimAbsent(s: string, m: string)
    requires Absent(s, m)
    ensures Absent(Trim(s), m)
  {
    var a := TrimOffset(s);
    var t := Trim(s);
    assert t == s[a..a + |t|];
    AbsentSlice(s, m, a, a + |t|);
  }

  lemma TrimIdempotent(s: string)
    ensures Trim(Trim(s)) == Trim(s)
  {
    TrimTrimmed(Trim(s));
  }

  /** `parts.join(sep)`. */
  function Join(parts: seq<string>, sep: string): string
    decreases |parts|
  {
    if |parts| == 0 then ""
    else if |parts| == 1 then parts[0]
    else parts[0] + sep + Join(parts[1..], sep)
  }

  /** `m` occurs in `s` at offset `i`. */
  predicate OccursAt(s: string, m: string, i: nat) {
    i <= |s| && m <= s[i..]
  }

  /** `m` occurs nowhere in `s`. */
  predicate Absent(s: string, m: string) {
    forall i :: 0 <= i <= |s| ==> !(m <= s[i..])
  }

  lemma AbsentTail(s: string, m: string)
    requires Absent(s, m) && |s| > 0
    ensures Absent(s[1..], m) && !(m <= s)
  {
    forall i | 0 <= i <= |s[1..]|
      ensures !(m <= s[1..][i..])
    {
      assert s[1..][i..] == s[i + 1..];
    }
    assert s[0..] == s;
  }

  lemma AbsentSlice(s: string, m: string, a: nat, b: nat)
    requires Absent(s, m) && a <= b <= |s|
    ensures Absent(s[a..b], m)
  {
    forall i | 0 <= i <= |s[a..b]|
      ensures !(m <= s[a..b][i..])
    {
      assert s[a..b][i..] <= s[a + i..];
    }
  }

  /** `s.replace(/pat/g, rep)` for a pattern without metacharacters and a
      replacement without `$` forms: the leftmost occurrences, not
      overlapping, are replaced from left to right. */
  function ReplaceAll(s: string, pat: string, rep: string): string
    requires |pat| > 0
    decreases |s|
  {
    if |s| == 0 then ""
    else if pat <= s then rep + ReplaceAll(s[|pat|..], pat, rep)
    else [s[0]] + ReplaceAll(s[1..], pat, rep)
  }

  /** A prefix that holds no first character of the pattern passes through. */
  lemma {:induction false} ReplaceAllSkip(u: string, t: string, pat: string, rep: string)
    requires |pat| > 0 && pat[0] !in u
    ensures ReplaceAll(u + t, pat, rep) == u + ReplaceAll(t, pat, rep)
    decreases |u|
  {
    if |u| == 0 {
      assert u + t == t;
    } else {
      assert (u + t)[0] == u[0] && !(pat <= u + t);
      assert (u + t)[1..] == u[1..] + t;
      ReplaceAllSkip(u[1..], t, pat, rep);
      ConsTail(u, ReplaceAll(t, pat, rep));
    }
  }

  /** Replacing in a string free of the pattern's first character is the identity. */
  lemma ReplaceAllNone(s: string, pat: string, rep: string)
    requires |pat| > 0 && pat[0] !in s
    ensures ReplaceAll(s, pat, rep) == s
  {
    ReplaceAllSkip(s, "", pat, rep);
    assert s + "" == s;
  }

  /** `s.endsWith(suffix)`. */
  predicate EndsWith(s: string, suffix: string) {
    |suffix| <= |s| && s[|s| - |suffix|..] == suffix
  }

  /** `s.replace(pat, rep)` with a string pattern: only the first occurrence. */
  function ReplaceFirst(s: string, pat: string, rep: string): (r: string)
    requires |pat| > 0
    decreases |s|
  {
    if |s| == 0 then ""
    else if pat <= s then rep + s[|pat|..]
    else [s[0]] + ReplaceFirst(s[1..], pat, rep)
  }

  /** The first occurrence of `pat` in `u + pat`, when `u` holds none that
      could start before `|u|`, is the one at `|u|`. */
  lemma {:induction false} ReplaceFirstAt(u: string, pat: string, rep: string, t: string)
    requires |pat| > 0
    requires forall i :: 0 <= i < |u| ==> !(pat <= (u + pat + t)[i..])
    ensures ReplaceFirst(u + pat + t, pat, rep) == u + rep + t
    decreases |u|
  {
    var s := u + pat + t;
    if |u| == 0 {
      assert s == pat + t && pat <= s && s[|pat|..] == t;
    } else {
      assert !(pat <= s[0..]) && s[0..] == s;
      assert s[1..] == u[1..] + pat + t;
      forall i | 0 <= i < |u[1..]|
        ensures !(pat <= (u[1..] + pat + t)[i..])
      {
        assert (u[1..] + pat + t)[i..] == s[i + 1..];
      }
      ReplaceFirstAt(u[1..], pat, rep, t);
    }
  }

  // ---------------------------------------------------------------------
  // `body.split(/\n\n+/)`

  /** Offset of the first pair of adjacent newlines at or after `i`, or `|s|`. */
  function BlankFrom(s: string, i: nat): (r: nat)
    requires i <= |s|
    ensures i <= r <= |s|
    ensures r < |s| ==> r + 1 < |s| && s[r] == '\n' && s[r + 1] == '\n'
    ensures forall j :: i <= j < r && j + 1 < |s| ==> !(s[j] == '\n' && s[j + 1] == '\n')
    decreases |s| - i
  {
    if i + 1 >= |s| then |s|
    else if s[i] == '\n' && s[i + 1] == '\n' then i
    else BlankFrom(s, i + 1)
  }

  /** Offset of the first non-newline at or after `i`, or `|s|`. */
  function RunEnd(s: string, i: nat): (r: nat)
    requires i <= |s|
    ensures i <= r <= |s|
    ensures r < |s| ==> s[r] != '\n'
    ensures forall j :: i <= j < r ==> s[j] == '\n'
    decreases |s| - i
  {
    if i < |s| && s[i] == '\n' then RunEnd(s, i + 1) else i
  }

  /** The pieces of `s` between maximal runs of two or more newlines,
      leftmost run first, as `split(/\n\n+/)` returns them. */
  function SplitBlank(s: string): (r: seq<string>)
    ensures |r| >= 1
    decreases |s|
  {
    var i := BlankFrom(s, 0);
    if i == |s| then [s]
    else
      var j := RunEnd(s, i);
      [s[..i]] + SplitBlank(s[j..])
  }

  /** No piece of the split contains a blank line. */
  predicate NoBlankLine(s: string) {
    forall j :: 0 <= j < |s| - 1 ==> !(s[j] == '\n' && s[j + 1] == '\n')
  }

  lemma NoBlankLineSlice(s: string, a: nat, b: nat)
    requires NoBlankLine(s) && a <= b <= |s|
    ensures NoBlankLine(s[a..b])
  {
    forall j | 0 <= j < |s[a..b]| - 1
      ensures !(s[a..b][j] == '\n' && s[a..b][j + 1] == '\n')
    {
      assert s[a..b][j] == s[a + j] && s[a..b][j + 1] == s[a + j + 1];
    }
  }

  /** Every piece of the split is free of blank lines, and of any text the
      whole string is free of. */
  lemma {:induction false} SplitBlankPieces(s: string, m: string)
    ensures forall k :: 0 <= k < |SplitBlank(s)| ==> NoBlankLine(SplitBlank(s)[k])
    ensures Absent(s, m) ==> forall k :: 0 <= k < |SplitBlank(s)| ==> Absent(SplitBlank(s)[k], m)
    decreases |s|
  {
    var i := BlankFrom(s, 0);
    if i == |s| {
      assert SplitBlank(s) == [s];
      forall j | 0 <= j < |s| - 1
        ensures !(s[j] == '\n' && s[j + 1] == '\n')
      {
      }
    } else {
      var j := RunEnd(s, i);
      var rest := s[j..];
      assert SplitBlank(s) == [s[..i]] + SplitBlank(rest);
      SplitBlankPieces(rest, m);
      forall q | 0 <= q && q + 1 < i
        ensures !(s[..i][q] == '\n' && s[..i][q + 1] == '\n')
      {
      }
      if Absent(s, m) {
        AbsentSlice(s, m, 0, i);
        AbsentSlice(s, m, j, |s|);
        assert s[0..i] == s[..i] && s[j..|s|] == rest;
      }
    }
  }

  /** Every part appears in the joined text. */
  lemma {:induction false} JoinHolds(parts: seq<string>, sep: string, k: nat)
    requires k < |parts|
    ensures exists i :: OccursAt(Join(parts, sep), parts[k], i)
    decreases |parts|
  {
    if k == 0 {
      JoinStartsWith(parts, sep);
      assert OccursAt(Join(parts, sep), parts[0], 0);
    } else {
      JoinHolds(parts[1..], sep, k - 1);
      var i :| OccursAt(Join(parts[1..], sep), parts[1..][k - 1], i);
      assert parts[1..][k - 1] == parts[k];
      OccursAfter(parts[0] + sep, Join(parts[1..], sep), parts[k], i);
      assert Join(parts, sep) == parts[0] + sep + Join(parts[1..], sep);
      assert OccursAt(Join(parts, sep), parts[k], |parts[0] + sep| + i);
    }
  }

  /** An occurrence stays one when text is put in front of it. */
  lemma OccursAfter(a: string, b: string, m: string, i: nat)
    requires OccursAt(b, m, i)
    ensures OccursAt(a + b, m, |a| + i)
  {
    assert (a + b)[|a| + i..] == b[i..];
  }

  /** An occurrence stays one when text is put after it. */
  lemma OccursBefore(a: string, b: string, m: string, i: nat)
    requires OccursAt(a, m, i)
    ensures OccursAt(a + b, m, i)
  {
    assert (a + b)[i..] == a[i..] + b;
  }

  /** An occurrence stays one inside a frame. */
  lemma OccursFramed(a: string, b: string, c: string, m: string, i: nat)
    requires OccursAt(b, m, i)
    ensures OccursAt(a + b + c, m, |a| + i)
  {
    OccursAfter(a, b, m, i);
    OccursBefore(a + b, c, m, |a| + i);
  }

  /** An occurrence inside an occurrence. */
  lemma OccursWithin(s: string, m: string, n: string, i: nat, j: nat)
    requires OccursAt(s, m, i) && OccursAt(m, n, j)
    ensures OccursAt(s, n, i + j)
  {
    assert s[i + j..] == s[i..][j..];
    assert m[j..] <= s[i..][j..];
  }

  lemma JoinStartsWith(parts: seq<string>, sep: string)
    requires |parts| > 0
    ensures parts[0] <= Join(parts, sep)
  {
  }

  /** Joining pieces with a single blank line and splitting again gives the
      pieces back, when no piece is empty, holds a blank line, or begins or
      ends with a newline. */
  lemma {:induction false} SplitJoin(ps: seq<string>)
    requires |ps| > 0
    requires forall k :: 0 <= k < |ps| ==>
      |ps[k]| > 0 && NoBlankLine(ps[k]) && ps[k][0] != '\n' && ps[k][|ps[k]| - 1] != '\n'
    ensures SplitBlank(Join(ps, "\n\n")) == ps
    decreases |ps|
  {
    var p := ps[0];
    if |ps| == 1 {
      assert Join(ps, "\n\n") == p;
      assert BlankFrom(p, 0) == |p|;
    } else {
      var rest := Join(ps[1..], "\n\n");
      var s := Join(ps, "\n\n");
      assert s == p + "\n\n" + rest;
      JoinStartsWith(ps[1..], "\n\n");
      assert rest[0] == ps[1][0];
      assert s[|p|] == '\n' && s[|p| + 1] == '\n';
      forall q | 0 <= q < |p| && q + 1 < |s|
        ensures !(s[q] == '\n' && s[q + 1] == '\n')
      {
        if q + 1 < |p| {
          assert s[q] == p[q] && s[q + 1] == p[q + 1];
        } else {
          assert s[q] == p[|p| - 1];
        }
      }
      var i := BlankFrom(s, 0);
      assert i == |p|;
      assert s[|p| + 2] == rest[0];
      var j := RunEnd(s, i);
      assert j == |p| + 2;
      assert s[..i] == p;
      assert s[j..] == rest;
      SplitJoin(ps[1..]);
      assert ps == [p] + ps[1..];
    }
  }

  /** A text is its first character followed by the rest. */
  lemma ConsTail(a: string, t: string)
    requires |a| > 0
    ensures [a[0]] + (a[1..] + t) == a + t
  {
    assert a == [a[0]] + a[1..];
  }

  lemma HeadTail(a: string)
    requires |a| > 0
    ensures [a[0]] + a[1..] == a
  {
  }
}
