/** HTML escaping of user text (`escapeHtml`) and the entity decoding chain
    the post parser applies to body paragraphs, both written as the source
    writes them: a chain of global literal replacements. Each is related to
    a character-wise reference definition, `EscapeSome`. */
module Escape {
  import opened Text

  /** The five characters `escapeHtml` rewrites. */
  predicate IsSpecial(c: char) {
    c == '&' || c == '<' || c == '>' || c == '"' || c == '\''
  }

  const AllSpecials: set<char> := {'&', '<', '>', '"', '\''}

  /** The entity each special character is written as. */
  function Entity(c: char): string {
    match c
    case '&' => "&amp;"
    case '<' => "&lt;"
    case '>' => "&gt;"
    case '"' => "&quot;"
    case '\'' => "&#39;"
    case _ => [c]
  }

  /** Reference definition: `s` with exactly the characters in `escaped`
      written as their entities, every other character kept. */
  function EscapeSome(s: string, escaped: set<char>): string
    decreases |s|
  {
    if |s| == 0 then "" else Piece(s[0], escaped) + EscapeSome(s[1..], escaped)
  }

  /** What one character becomes under `EscapeSome`. */
  function Piece(x: char, escaped: set<char>): string {
    if x in escaped then Entity(x) else [x]
  }

  /** `escapeHtml(str)`: `&` is replaced first, so that the ampersands of the
      later entities are not escaped again. It agrees with writing every
      special character as its entity. */
  function EscapeHtml(s: string): (r: string)
    ensures r == EscapeSome(s, AllSpecials)
  {
    var s1 := ReplaceAll(s, "&", "&amp;");
    var s2 := ReplaceAll(s1, "<", "&lt;");
    var s3 := ReplaceAll(s2, ">", "&gt;");
    var s4 := ReplaceAll(s3, "\"", "&quot;");
    var s5 := ReplaceAll(s4, "'", "&#39;");
    EscapeNone(s);
    EscapeStep(s, {}, '&');
    assert {} + {'&'} == {'&'};
    assert s1 == EscapeSome(s, {'&'});
    EscapeStep(s, {'&'}, '<');
    assert {'&'} + {'<'} == {'&', '<'};
    assert s2 == EscapeSome(s, {'&', '<'});
    EscapeStep(s, {'&', '<'}, '>');
    assert {'&', '<'} + {'>'} == {'&', '<', '>'};
    assert s3 == EscapeSome(s, {'&', '<', '>'});
    EscapeStep(s, {'&', '<', '>'}, '"');
    assert {'&', '<', '>'} + {'"'} == {'&', '<', '>', '"'};
    assert s4 == EscapeSome(s, {'&', '<', '>', '"'});
    EscapeStep(s, {'&', '<', '>', '"'}, '\'');
    assert {'&', '<', '>', '"'} + {'\''} == AllSpecials;
    s5
  }

  /** The text `parsePost` leaves behind for entities: `&amp;` first, then the
      other four, each replaced globally. */
  function DecodeEntities(s: string): string
  {
    var s1 := ReplaceAll(s, "&amp;", "&");
    var s2 := ReplaceAll(s1, "&lt;", "<");
    var s3 := ReplaceAll(s2, "&gt;", ">");
    var s4 := ReplaceAll(s3, "&quot;", "\"");
    ReplaceAll(s4, "&#39;", "'")
  }

  /** `s` contains none of the entity texts other than `&amp;`. */
  predicate NoEntityText(s: string) {
    Absent(s, "&lt;") && Absent(s, "&gt;") && Absent(s, "&quot;") && Absent(s, "&#39;")
  }

  /** An escaped text begins with one of the five entities here. */
  predicate EntityStart(t: string) {
    "&amp;" <= t || "&lt;" <= t || "&gt;" <= t || "&quot;" <= t || "&#39;" <= t
  }

  // ---------------------------------------------------------------------
  // The replacement chains against the reference definition

  lemma {:induction false} EscapeNone(s: string)
    ensures EscapeSome(s, {}) == s
    decreases |s|
  {
    if |s| > 0 {
      EscapeNone(s[1..]);
      assert s == [s[0]] + s[1..];
    }
  }

  /** Entities hold no special character except their leading `&`. */
  lemma EntityShape(x: char)
    requires IsSpecial(x)
    ensures |Entity(x)| >= 4 && Entity(x)[0] == '&'
    ensures forall c :: c in Entity(x)[1..] ==> !IsSpecial(c)
  {
  }

  /** One escaping replacement adds one character to the escaped set. */
  lemma {:induction false} EscapeStep(s: string, e: set<char>, c: char)
    requires IsSpecial(c) && c !in e && e <= AllSpecials
    requires c == '&' ==> e == {}
    ensures ReplaceAll(EscapeSome(s, e), [c], Entity(c)) == EscapeSome(s, e + {c})
    decreases |s|
  {
    if |s| > 0 {
      var x := s[0];
      var t := EscapeSome(s[1..], e);
      EscapeStep(s[1..], e, c);
      if x in e {
        EntityShape(x);
        assert c !in Entity(x);
        ReplaceAllSkip(Entity(x), t, [c], Entity(c));
      } else if x == c {
        assert [c] <= [c] + t && ([c] + t)[1..] == t;
      } else {
        ReplaceAllSkip([x], t, [c], Entity(c));
      }
    }
  }

  /** What an escaped string starts with, when that text holds no special
      character, the unescaped string starts with too. */
  lemma {:induction false} EscapedPrefix(u: string, r: set<char>, w: string)
    requires r <= AllSpecials
    requires forall c :: c in w ==> !IsSpecial(c)
    ensures w <= EscapeSome(u, r) ==> w <= u
    decreases |w|
  {
    if |w| > 0 && w <= EscapeSome(u, r) {
      assert |u| > 0;
      EscapeSomeHead(u, r);
      assert w[0] in w;
      if u[0] in r {
        assert false;
      } else {
        assert EscapeSome(u, r) == [u[0]] + EscapeSome(u[1..], r);
        assert w[1..] <= EscapeSome(u[1..], r);
        assert w[0] in w;
        EscapedPrefix(u[1..], r, w[1..]);
      }
    }
  }

  lemma EscapeSomeHead(u: string, r: set<char>)
    requires |u| > 0 && r <= AllSpecials
    ensures |EscapeSome(u, r)| > 0
    ensures EscapeSome(u, r)[0] == (if u[0] in r then '&' else u[0])
  {
    if u[0] in r {
      EntityShape(u[0]);
    }
  }

  /** One decoding replacement takes one character out of the escaped set.
      Decoding `&amp;` needs nothing of the text; decoding a later entity
      needs the original text not to contain it. */
  lemma {:induction false} DecodeStep(s: string, r: set<char>, c: char)
    requires c in r && r <= AllSpecials
    requires c == '&' ==> r == AllSpecials
    requires c != '&' ==> '&' !in r && Absent(s, Entity(c))
    ensures ReplaceAll(EscapeSome(s, r), Entity(c), [c]) == EscapeSome(s, r - {c})
    decreases |s|
  {
    if |s| > 0 {
      var t := EscapeSome(s[1..], r);
      EntityShape(c);
      if c != '&' {
        AbsentTail(s, Entity(c));
      }
      DecodeStep(s[1..], r, c);
      if s[0] == '&' && '&' !in r {
        NotEntityAfterAmp(s, r, c);
      }
      DecodePiece(s[0], t, r, c);
    }
  }

  /** A bare `&` of the original text does not start the entity being decoded. */
  lemma NotEntityAfterAmp(s: string, r: set<char>, c: char)
    requires |s| > 0 && s[0] == '&' && c != '&' && IsSpecial(c)
    requires r <= AllSpecials && Absent(s, Entity(c))
    ensures !(Entity(c)[1..] <= EscapeSome(s[1..], r))
  {
    EntityShape(c);
    var tail := Entity(c)[1..];
    AbsentTail(s, Entity(c));
    assert Entity(c) == [s[0]] + tail;
    assert s == [s[0]] + s[1..];
    assert !(tail <= s[1..]);
    EscapedPrefix(s[1..], r, tail);
  }

  /** Decoding one entity across the piece of one character. */
  lemma DecodePiece(x: char, t: string, r: set<char>, c: char)
    requires IsSpecial(c) && c in r && r <= AllSpecials
    requires x == '&' && x !in r ==> !(Entity(c)[1..] <= t)
    ensures ReplaceAll(Piece(x, r) + t, Entity(c), [c])
         == Piece(x, r - {c}) + ReplaceAll(t, Entity(c), [c])
  {
    var pat := Entity(c);
    EntityShape(c);
    if x == c {
      assert pat <= pat + t && (pat + t)[|pat|..] == t;
    } else if x in r {
      DecodeOther(x, t, c);
    } else if x == '&' {
      assert ([x] + t)[1..] == t;
      assert !(pat <= [x] + t);
    } else {
      ReplaceAllSkip([x], t, pat, [c]);
    }
  }

  /** Another entity passes through the decoding of `Entity(c)` unchanged. */
  lemma DecodeOther(x: char, t: string, c: char)
    requires IsSpecial(x) && IsSpecial(c) && x != c
    ensures ReplaceAll(Entity(x) + t, Entity(c), [c]) == Entity(x) + ReplaceAll(t, Entity(c), [c])
  {
    EntityShape(x);
    EntityShape(c);
    var ex := Entity(x);
    var pat := Entity(c);
    assert ex[1] != pat[1];
    assert !(pat <= ex + t);
    assert (ex + t)[1..] == ex[1..] + t;
    assert '&' !in ex[1..];
    ReplaceAllSkip(ex[1..], t, pat, [c]);
    ConsTail(ex, t);
    ConsTail(ex, ReplaceAll(t, pat, [c]));
  }

  // ---------------------------------------------------------------------
  // Properties of escaping

  /** Escaping then decoding gives the text back whenever the text contains
      none of `&lt;`, `&gt;`, `&quot;`, `&#39;`. */
  lemma DecodeEscape(s: string)
    requires NoEntityText(s)
    ensures DecodeEntities(EscapeHtml(s)) == s
  {
    SpecialsShrink();
    DecodeStep(s, AllSpecials, '&');
    DecodeStep(s, {'<', '>', '"', '\''}, '<');
    DecodeStep(s, {'>', '"', '\''}, '>');
    DecodeStep(s, {'"', '\''}, '"');
    DecodeStep(s, {'\''}, '\'');
    EscapeNone(s);
  }

  /** The escaped sets the five decoding replacements pass through. */
  lemma SpecialsShrink()
    ensures AllSpecials - {'&'} == {'<', '>', '"', '\''}
    ensures {'<', '>', '"', '\''} - {'<'} == {'>', '"', '\''}
    ensures {'>', '"', '\''} - {'>'} == {'"', '\''}
    ensures {'"', '\''} - {'"'} == {'\''}
    ensures {'\''} - {'\''} == {}
  {
  }

  /** Because `&amp;` is decoded first, text that already read `&lt;` comes
      back as `<`: the round trip fails without the entity precondition. */
  lemma DecodeEscapeAmpFirst()
    ensures EscapeHtml("&lt;") == "&amp;lt;"
    ensures DecodeEntities(EscapeHtml("&lt;")) == "<"
  {
    EscapeLtText();
    DecodeAmpLt();
  }

  lemma EscapeLtText()
    ensures EscapeHtml("&lt;") == "&amp;lt;"
  {
    EscapeSomeLt();
  }

  lemma EscapeSomeLt()
    ensures EscapeSome("&lt;", AllSpecials) == "&amp;lt;"
  {
    var s := "&lt;";
    assert EscapeSome(s, AllSpecials) == "&amp;" + EscapeSome("lt;", AllSpecials) by {
      assert s[1..] == "lt;";
    }
    assert EscapeSome("lt;", AllSpecials) == "lt;" by {
      assert "lt;"[1..] == "t;" && "t;"[1..] == ";" && ";"[1..] == "";
    }
  }

  lemma DecodeAmpLt()
    ensures DecodeEntities("&amp;lt;") == "<"
  {
    AmpStep();
    LtStep();
    ReplaceAllNone("<", "&gt;", ">");
    ReplaceAllNone("<", "&quot;", "\"");
    ReplaceAllNone("<", "&#39;", "'");
  }

  lemma AmpStep()
    ensures ReplaceAll("&amp;lt;", "&amp;", "&") == "&lt;"
  {
    var e := "&amp;lt;";
    assert "&amp;" <= e && e[5..] == "lt;";
    ReplaceAllNone("lt;", "&amp;", "&");
  }

  lemma LtStep()
    ensures ReplaceAll("&lt;", "&lt;", "<") == "<"
  {
    var d := "&lt;";
    assert "&lt;" <= d && d[4..] == "";
  }

  lemma EscapeQandA()
    ensures EscapeHtml("Q&A") == "Q&amp;A"
  {
    EscapeSomeQandA();
  }

  lemma EscapeSomeQandA()
    ensures EscapeSome("Q&A", AllSpecials) == "Q&amp;A"
  {
    var s := "Q&A";
    assert s[1..] == "&A" && s[1..][1..] == "A" && s[1..][1..][1..] == "";
    assert EscapeSome(s, AllSpecials) == "Q" + ("&amp;" + ("A" + ""));
  }

  /** Escaping an escaped text escapes its entities again: `Q&A` becomes
      `Q&amp;amp;A`. */
  lemma EscapeTwiceQandA()
    ensures EscapeHtml(EscapeHtml("Q&A")) == "Q&amp;amp;A"
  {
    EscapeSomeQandA();
    EscapeSomeAmpA();
  }

  lemma EscapeSomeAmpA()
    ensures EscapeSome("Q&amp;A", AllSpecials) == "Q&amp;amp;A"
  {
    var s := "Q&amp;A";
    EscapeSomeAmpTail();
    assert EscapeSome(s, AllSpecials) == "Q" + EscapeSome("&amp;A", AllSpecials) by {
      assert s[1..] == "&amp;A";
    }
  }

  lemma EscapeSomeAmpTail()
    ensures EscapeSome("&amp;A", AllSpecials) == "&amp;amp;A"
  {
    EscapeSomePlainTail();
    assert EscapeSome("&amp;A", AllSpecials) == "&amp;" + EscapeSome("amp;A", AllSpecials) by {
      assert "&amp;A"[1..] == "amp;A";
    }
  }

  lemma EscapeSomePlainTail()
    ensures EscapeSome("amp;A", AllSpecials) == "amp;A"
  {
    assert "amp;A"[1..] == "mp;A" && "mp;A"[1..] == "p;A" && "p;A"[1..] == ";A";
    assert ";A"[1..] == "A" && "A"[1..] == "";
  }

  /** No `<`, `>`, `"` or `'` survives escaping. */
  lemma EscapeNoMarkup(s: string)
    ensures var r := EscapeHtml(s);
      '<' !in r && '>' !in r && '"' !in r && '\'' !in r
  {
    NoMarkupSome(s);
  }

  lemma {:induction false} NoMarkupSome(s: string)
    ensures var r := EscapeSome(s, AllSpecials);
      '<' !in r && '>' !in r && '"' !in r && '\'' !in r
    decreases |s|
  {
    if |s| > 0 {
      NoMarkupSome(s[1..]);
      PieceNoMarkup(s[0]);
    }
  }

  /** What one character becomes is never markup. */
  lemma PieceNoMarkup(x: char)
    ensures var p := Piece(x, AllSpecials);
      '<' !in p && '>' !in p && '"' !in p && '\'' !in p
  {
  }

  /** Every `&` in `r` begins one of the five entities. */
  predicate AmpersandsStartEntities(r: string) {
    forall i :: 0 <= i < |r| && r[i] == '&' ==> EntityStart(r[i..])
  }

  /** Every `&` in escaped text begins one of the five entities. */
  lemma EscapeAmpersands(s: string)
    ensures AmpersandsStartEntities(EscapeHtml(s))
  {
    AmpersandsSome(s);
  }

  lemma {:induction false} AmpersandsSome(s: string)
    ensures AmpersandsStartEntities(EscapeSome(s, AllSpecials))
    decreases |s|
  {
    if |s| > 0 {
      AmpersandsSome(s[1..]);
      AmpersandsCons(s[0], EscapeSome(s[1..], AllSpecials));
    }
  }

  /** Putting one escaped character in front keeps every `&` at an entity. */
  lemma AmpersandsCons(x: char, t: string)
    requires AmpersandsStartEntities(t)
    ensures AmpersandsStartEntities(Piece(x, AllSpecials) + t)
  {
    var p := Piece(x, AllSpecials);
    var r := p + t;
    if IsSpecial(x) {
      EntityShape(x);
      EntityStarts(x, t);
      forall i | 0 <= i < |r| && r[i] == '&'
        ensures EntityStart(r[i..])
      {
        if i >= |p| {
          AmpersandInTail(p, t, i);
        } else if i > 0 {
          assert false;
        } else {
          assert r[0..] == r;
        }
      }
    } else {
      forall i | 0 <= i < |r| && r[i] == '&'
        ensures EntityStart(r[i..])
      {
        AmpersandInTail(p, t, i);
      }
    }
  }

  lemma AmpersandInTail(p: string, t: string, i: int)
    requires AmpersandsStartEntities(t)
    requires |p| <= i < |p| + |t| && (p + t)[i] == '&'
    ensures EntityStart((p + t)[i..])
  {
    assert t[i - |p|] == (p + t)[i];
    assert (p + t)[i..] == t[i - |p|..];
  }

  /** An entity followed by any text starts with that entity. */
  lemma EntityStarts(x: char, t: string)
    requires IsSpecial(x)
    ensures EntityStart(Piece(x, AllSpecials) + t)
  {
    assert x in AllSpecials;
    var e := Entity(x);
    assert e <= e + t;
  }

  /** Escaping never shrinks text and at most multiplies its length by six. */
  lemma EscapeLength(s: string)
    ensures |s| <= |EscapeHtml(s)| <= 6 * |s|
  {
    LengthSome(s);
  }

  lemma {:induction false} LengthSome(s: string)
    ensures |s| <= |EscapeSome(s, AllSpecials)| <= 6 * |s|
    decreases |s|
  {
    if |s| > 0 {
      LengthSome(s[1..]);
    }
  }

  /** Text without special characters (a valid slug or date) is unchanged. */
  lemma EscapePlain(s: string)
    requires forall i :: 0 <= i < |s| ==> !IsSpecial(s[i])
    ensures EscapeHtml(s) == s
  {
    PlainSome(s);
  }

  lemma {:induction false} PlainSome(s: string)
    requires forall i :: 0 <= i < |s| ==> !IsSpecial(s[i])
    ensures EscapeSome(s, AllSpecials) == s
    decreases |s|
  {
    if |s| > 0 {
      PlainSome(s[1..]);
      HeadTail(s);
    }
  }

  /** Escaping adds and removes no line terminator. */
  lemma EscapeLineBreaks(s: string)
    ensures NoLineBreak(EscapeHtml(s)) <==> NoLineBreak(s)
  {
    LineBreaksSome(s);
  }

  lemma {:induction false} LineBreaksSome(s: string)
    ensures NoLineBreak(EscapeSome(s, AllSpecials)) <==> NoLineBreak(s)
    decreases |s|
  {
    if |s| > 0 {
      var piece := Piece(s[0], AllSpecials);
      var t := EscapeSome(s[1..], AllSpecials);
      LineBreaksSome(s[1..]);
      if NoLineBreak(s) {
        forall i | 0 <= i < |s[1..]|
          ensures !IsLineTerminator(s[1..][i])
        {
          assert s[1..][i] == s[i + 1];
        }
        forall i | 0 <= i < |piece + t|
          ensures !IsLineTerminator((piece + t)[i])
        {
          if i >= |piece| {
            assert (piece + t)[i] == t[i - |piece|];
          }
        }
      }
      if NoLineBreak(piece + t) {
        assert !IsLineTerminator((piece + t)[0]);
        forall i | 0 <= i < |t|
          ensures !IsLineTerminator(t[i])
        {
          assert (piece + t)[i + |piece|] == t[i];
        }
        forall i | 0 <= i < |s|
          ensures !IsLineTerminator(s[i])
        {
          if i > 0 {
            assert s[i] == s[1..][i - 1];
          }
        }
      }
    }
  }

  /** Escaping a trimmed text leaves it trimmed: its ends are either the
      original non-space ends or the `&` and `;` of an entity. */
  lemma EscapeTrimmed(s: string)
    requires Trimmed(s)
    ensures Trimmed(EscapeHtml(s))
  {
    if |s| > 0 {
      EscapeFirst(s);
      EscapeLast(s);
    }
  }

  /** The first character of escaped text is the first original character,
      or the `&` of the entity it became. */
  lemma EscapeFirst(s: string)
    requires |s| > 0
    ensures var r := EscapeSome(s, AllSpecials);
      |r| > 0 && r[0] == (if IsSpecial(s[0]) then '&' else s[0])
  {
    if IsSpecial(s[0]) {
      EntityShape(s[0]);
    }
  }

  /** The last character of escaped text is the last original character, or
      the `;` of the entity it became. */
  lemma {:induction false} EscapeLast(s: string)
    requires |s| > 0
    ensures var r := EscapeSome(s, AllSpecials);
      |r| > 0 && r[|r| - 1] == (if IsSpecial(s[|s| - 1]) then ';' else s[|s| - 1])
    decreases |s|
  {
    var p := Piece(s[0], AllSpecials);
    var rest := EscapeSome(s[1..], AllSpecials);
    if |s| > 1 {
      EscapeLast(s[1..]);
      LastOfAppend(p, rest);
      assert s[1..][|s| - 2] == s[|s| - 1];
    } else {
      PieceLast(s[0]);
      assert p + rest == p;
    }
  }

  /** What one character becomes ends in that character or in `;`. */
  lemma PieceLast(x: char)
    ensures var p := Piece(x, AllSpecials);
      |p| > 0 && p[|p| - 1] == (if IsSpecial(x) then ';' else x)
  {
  }

  lemma LastOfAppend(a: string, b: string)
    requires |b| > 0
    ensures (a + b)[|a + b| - 1] == b[|b| - 1]
  {
  }

  // ---------------------------------------------------------------------
  // A decoder that undoes escaping

  /** Reads each entity once, left to right, so that what one entity
      decodes to is never read as part of another. */
  function DecodeScan(t: string): string
    decreases |t|
  {
    if |t| == 0 then ""
    else if "&amp;" <= t then "&" + DecodeScan(t[5..])
    else if "&lt;" <= t then "<" + DecodeScan(t[4..])
    else if "&gt;" <= t then ">" + DecodeScan(t[4..])
    else if "&quot;" <= t then "\"" + DecodeScan(t[6..])
    else if "&#39;" <= t then "'" + DecodeScan(t[5..])
    else [t[0]] + DecodeScan(t[1..])
  }

  /** The scanning decoder gives back every text escaping started from,
      entity text included. */
  lemma {:induction false} ScanEscape(s: string)
    ensures DecodeScan(EscapeHtml(s)) == s
  {
    ScanEscapeSome(s);
  }

  lemma {:induction false} ScanEscapeSome(s: string)
    ensures DecodeScan(EscapeSome(s, AllSpecials)) == s
    decreases |s|
  {
    if |s| > 0 {
      ScanEscapeSome(s[1..]);
      var rest := EscapeSome(s[1..], AllSpecials);
      var p := Piece(s[0], AllSpecials);
      var t := p + rest;
      assert t[|p|..] == rest;
      HeadTail(s);
      if !IsSpecial(s[0]) {
        assert t[0] == s[0] && t[1..] == rest;
        assert !("&" <= t);
        assert DecodeScan(t) == [s[0]] + DecodeScan(rest);
      } else {
        ScanEntity(s[0], rest);
      }
    }
  }

  /** An entity at the front decodes to its character alone. */
  lemma ScanEntity(x: char, rest: string)
    requires IsSpecial(x)
    ensures DecodeScan(Entity(x) + rest) == [x] + DecodeScan(rest)
  {
    var t := Entity(x) + rest;
    assert Entity(x) <= t && t[|Entity(x)|..] == rest;
    if x == '&' {
      assert "&amp;" <= t;
    } else if x == '<' {
      assert t[1] == 'l';
    } else if x == '>' {
      assert t[1] == 'g';
    } else if x == '"' {
      assert t[1] == 'q';
    } else {
      assert t[1] == '#';
    }
  }

  /** Where the decoding chain turns `&lt;` into `<`, the scan keeps it. */
  lemma ScanKeepsEntityText()
    ensures DecodeScan(EscapeHtml("&lt;")) == "&lt;"
    ensures DecodeEntities(EscapeHtml("&lt;")) != "&lt;"
  {
    ScanEscape("&lt;");
    DecodeEscapeAmpFirst();
  }
}
