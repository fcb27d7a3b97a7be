/** The Konami-code listener of the home page: a position in the key code
    advanced by each keydown, which starts the matrix rain when the whole
    code has been typed. */
module Konami {
  /** Up, up, down, down, left, right, left, right, B, A as key codes. */
  const Code: seq<int> := [38, 38, 40, 40, 37, 39, 37, 39, 66, 65]

  // ---------------------------------------------------------------------
  // The listener as written, for any key sequence `c` it listens for

  /** The position after one key and whether the rain starts. A matching
      key advances the position, and completing the code resets it to 0; any
      other key resets it to 0 without being compared with the first key. */
  function Step(c: seq<int>, pos: nat, key: int): (r: (nat, bool))
    requires pos < |c|
    ensures r.0 < |c|
    ensures r.1 ==> pos == |c| - 1 && key == c[pos] && r.0 == 0
    ensures !r.1 && key == c[pos] ==> r.0 == pos + 1
    ensures key != c[pos] ==> r == (0, false)
  {
    if key == c[pos] then
      if pos + 1 == |c| then (0, true) else (pos + 1, false)
    else (0, false)
  }

  /** The position after a sequence of keys, starting from 0. */
  function Position(c: seq<int>, keys: seq<int>): (r: nat)
    requires |c| > 0
    ensures r < |c|
    decreases |keys|
  {
    if |keys| == 0 then 0 else Step(c, Position(c, keys[..|keys| - 1]), keys[|keys| - 1]).0
  }

  /** The last key of `keys` started the rain. */
  predicate Fired(c: seq<int>, keys: seq<int>)
    requires |c| > 0
  {
    |keys| > 0 && Step(c, Position(c, keys[..|keys| - 1]), keys[|keys| - 1]).1
  }

  predicate EndsWith(keys: seq<int>, w: seq<int>) {
    |w| <= |keys| && keys[|keys| - |w|..] == w
  }

  /** The position counts exactly the code keys just typed, and the rain
      starts only when the whole code was just typed. */
  lemma {:induction false} PositionSound(c: seq<int>, keys: seq<int>)
    requires |c| > 0
    ensures EndsWith(keys, c[..Position(c, keys)])
    ensures Fired(c, keys) ==> EndsWith(keys, c)
    decreases |keys|
  {
    if |keys| > 0 {
      PositionSound(c, keys[..|keys| - 1]);
      StepSound(c, keys, Position(c, keys[..|keys| - 1]));
    }
  }

  /** One key keeps the position sound. */
  lemma StepSound(c: seq<int>, keys: seq<int>, p: nat)
    requires |keys| > 0 && p < |c| && EndsWith(keys[..|keys| - 1], c[..p])
    ensures EndsWith(keys, c[..Step(c, p, keys[|keys| - 1]).0])
    ensures Step(c, p, keys[|keys| - 1]).1 ==> EndsWith(keys, c)
  {
    var n := |keys|;
    if keys[n - 1] == c[p] {
      forall i | 0 <= i <= p
        ensures keys[n - 1 - p + i] == c[i]
      {
        if i < p {
          assert keys[..n - 1][n - 1 - p..][i] == c[..p][i];
        }
      }
      assert keys[n - (p + 1)..] == c[..p + 1];
    }
  }

  /** From position 0, the code itself starts the rain on its last key. */
  lemma {:induction false} CodeAdvances(c: seq<int>, prefix: seq<int>, k: nat)
    requires |c| > 0 && Position(c, prefix) == 0 && k < |c|
    ensures Position(c, prefix + c[..k]) == k
    decreases k
  {
    if k == 0 {
      assert prefix + c[..k] == prefix;
    } else {
      CodeAdvances(c, prefix, k - 1);
      var keys := prefix + c[..k];
      assert keys[..|keys| - 1] == prefix + c[..k - 1];
      assert keys[|keys| - 1] == c[k - 1];
    }
  }

  lemma CodeFires(c: seq<int>, prefix: seq<int>)
    requires |c| > 0 && Position(c, prefix) == 0
    ensures Fired(c, prefix + c)
  {
    CodeAdvances(c, prefix, |c| - 1);
    var keys := prefix + c;
    assert keys[..|keys| - 1] == prefix + c[..|c| - 1];
  }

  /** Typing up once too often before the Konami code: after up, up the
      third up resets the position to 0, so the code that follows is not
      recognised, although the keys end with it. */
  lemma MissedCode(keys: seq<int>)
    requires keys == [38] + Code
    ensures EndsWith(keys, Code) && !Fired(Code, keys)
  {
    MissedSteps(keys);
  }

  lemma MissedSteps(keys: seq<int>)
    requires keys == [38] + Code
    ensures Position(Code, keys[..3]) == 0
    ensures forall k :: 3 <= k < |keys| ==> Position(Code, keys[..k]) == 0
  {
    assert Position(Code, keys[..2]) == 2 by {
      assert keys[..2][..1] == [38];
      assert Position(Code, [38]) == 1 by { assert [38][..0] == []; }
    }
    assert keys[..3][..2] == keys[..2];
    forall k | 3 <= k < |keys|
      ensures Position(Code, keys[..k]) == 0
    {
      MissedTail(keys, k);
    }
  }

  lemma {:induction false} MissedTail(keys: seq<int>, k: nat)
    requires keys == [38] + Code && 3 <= k < |keys|
    requires Position(Code, keys[..3]) == 0
    ensures Position(Code, keys[..k]) == 0
    decreases k
  {
    if k > 3 {
      MissedTail(keys, k - 1);
      assert keys[..k][..k - 1] == keys[..k - 1];
      assert keys[..k][k - 1] == Code[k - 2];
    }
  }

  // ---------------------------------------------------------------------
  // A listener that recognises every typing of the code

  /** Keeps the last keys typed since the rain last started, fewer than the
      code's length, and starts the rain when they and the new key make up
      the code. */
  function WindowStep(c: seq<int>, w: seq<int>, key: int): (r: (seq<int>, bool))
    requires |w| < |c|
    ensures |r.0| < |c|
    ensures r.1 <==> w + [key] == c
  {
    var w2 := w + [key];
    if w2 == c then ([], true)
    else if |w2| == |c| then (w2[1..], false)
    else (w2, false)
  }

  function Window(c: seq<int>, keys: seq<int>): (r: seq<int>)
    requires |c| > 0
    ensures |r| < |c|
    decreases |keys|
  {
    if |keys| == 0 then [] else WindowStep(c, Window(c, keys[..|keys| - 1]), keys[|keys| - 1]).0
  }

  predicate WindowFired(c: seq<int>, keys: seq<int>)
    requires |c| > 0
  {
    |keys| > 0 && WindowStep(c, Window(c, keys[..|keys| - 1]), keys[|keys| - 1]).1
  }

  /** The window holds the last keys; when it holds fewer than the code's
      length less one, it holds every key typed, or every key since the
      code was last typed. */
  predicate WindowInvariant(c: seq<int>, keys: seq<int>, w: seq<int>) {
    && EndsWith(keys, w)
    && (|w| < |c| - 1 ==> |w| == |keys| || EndsWith(keys[..|keys| - |w|], c))
  }

  lemma {:induction false} WindowKept(c: seq<int>, keys: seq<int>)
    requires |c| > 0
    ensures WindowInvariant(c, keys, Window(c, keys))
    decreases |keys|
  {
    if |keys| > 0 {
      WindowKept(c, keys[..|keys| - 1]);
      WindowStepKept(c, keys, Window(c, keys[..|keys| - 1]));
    }
  }

  /** A suffix of the keys before the last, followed by the last key, is a
      suffix of the keys. */
  lemma ExtendEnds(keys: seq<int>, w: seq<int>)
    requires |keys| > 0 && EndsWith(keys[..|keys| - 1], w)
    ensures EndsWith(keys, w + [keys[|keys| - 1]])
  {
    var n := |keys|;
    forall i | 0 <= i < |w|
      ensures keys[n - 1 - |w| + i] == w[i]
    {
      assert keys[..n - 1][n - 1 - |w|..][i] == w[i];
    }
    assert keys[n - (|w| + 1)..] == w + [keys[n - 1]];
  }

  lemma WindowStepKept(c: seq<int>, keys: seq<int>, w: seq<int>)
    requires |keys| > 0 && |w| < |c| && WindowInvariant(c, keys[..|keys| - 1], w)
    ensures WindowInvariant(c, keys, WindowStep(c, w, keys[|keys| - 1]).0)
  {
    var n := |keys|;
    var w2 := w + [keys[n - 1]];
    ExtendEnds(keys, w);
    if w2 == c {
      assert keys[..n - 0] == keys;
    } else if |w2| == |c| {
      assert keys[n - |w2[1..]|..] == w2[1..];
    } else if |w| != n - 1 {
      assert keys[..n - |w2|] == keys[..n - 1][..n - 1 - |w|];
    }
  }

  /** The last key of the code appears nowhere else in it. */
  predicate LastUnique(c: seq<int>) {
    |c| > 0 && forall i :: 0 <= i < |c| - 1 ==> c[i] != c[|c| - 1]
  }

  /** The Konami code ends with its only A. */
  lemma CodeLastUnique()
    ensures LastUnique(Code)
  {
  }

  /** Two typings of such a code cannot overlap. */
  lemma NoOverlap(c: seq<int>, keys: seq<int>, p: nat)
    requires LastUnique(c)
    requires EndsWith(keys, c) && p < |keys| && |keys| - p < |c|
    ensures !EndsWith(keys[..p], c)
  {
    var i := |c| - (|keys| - p) - 1;
    assert keys[p - 1] == keys[|keys| - |c|..][i] == c[i];
    assert keys[..p][p - 1] != c[|c| - 1];
  }

  /** Two suffixes of the same length are equal. */
  lemma SameSuffix(s: seq<int>, a: seq<int>, b: seq<int>)
    requires EndsWith(s, a) && EndsWith(s, b)
    ensures |a| == |b| ==> a == b
  {
  }

  /** The corrected listener starts the rain exactly when the keys typed so
      far end with the code, for every code whose last key is unique. */
  lemma WindowFires(c: seq<int>, keys: seq<int>)
    requires LastUnique(c) && |keys| > 0
    ensures WindowFired(c, keys) <==> EndsWith(keys, c)
  {
    var w := Window(c, keys[..|keys| - 1]);
    WindowKept(c, keys[..|keys| - 1]);
    ExtendEnds(keys, w);
    if EndsWith(keys, c) {
      WindowCompletes(c, keys, w);
    }
  }

  /** When the keys end with the code, the window and the last key make up
      the code: a typing the window missed would overlap an earlier one. */
  lemma WindowCompletes(c: seq<int>, keys: seq<int>, w: seq<int>)
    requires LastUnique(c) && |keys| > 0 && |w| < |c|
    requires WindowInvariant(c, keys[..|keys| - 1], w)
    requires EndsWith(keys, c)
    ensures w + [keys[|keys| - 1]] == c
  {
    var n := |keys|;
    var init := keys[..n - 1];
    forall i | 0 <= i < |c| - 1
      ensures init[n - |c| + i] == c[i]
    {
      assert keys[n - |c|..][i] == c[i];
    }
    assert init[|init| - (|c| - 1)..] == c[..|c| - 1];
    assert keys[n - 1] == keys[n - |c|..][|c| - 1];
    if |w| < |c| - 1 {
      assert init[..|init| - |w|] == keys[..n - 1 - |w|];
      NoOverlap(c, keys, n - 1 - |w|);
    } else {
      SameSuffix(init, w, c[..|c| - 1]);
      forall i | 0 <= i < |c|
        ensures (w + [keys[n - 1]])[i] == c[i]
      {
      }
    }
  }

  /** On the keys where the listener as written fails, the corrected one
      starts the rain. */
  lemma WindowCatchesMissed(keys: seq<int>)
    requires keys == [38] + Code
    ensures WindowFired(Code, keys) && !Fired(Code, keys)
  {
    MissedCode(keys);
    CodeLastUnique();
    WindowFires(Code, keys);
  }
}
