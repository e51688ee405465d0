/** Tokenisation of one syllable: the string becomes a list of one-character
    strings, and a loop folds a tilde into the token before it when the two
    together are a nasal vowel of the inventory.

    The loop runs `x` over `0 .. len - 2`, a bound fixed before any merge, and
    each merge is a Python slice assignment `syl[x-1:x+1] = [...]`.  Both are
    modelled with Python's own rules, because they decide what the loop does:
      - at `x == 0` the subscript `syl[-1]` reads the LAST token, and the slice
        `syl[-1:1]` is empty, so a merge there inserts an empty token before
        the last one instead of joining two tokens;
      - after merges shorten the list, `syl[x]` can run past its end, which
        raises IndexError (here: `None`);
      - a tilde in the last position is never examined. */
module Tokenize {
  import opened Failures
  import opened Strings
  import opened Inventory

  /** Python's normalisation of a slice bound `i` against a list of length `n`. */
  function SliceBound(i: int, n: nat): (b: nat)
    ensures b <= n
  {
    if i < 0 then (if i + n < 0 then 0 else i + n) else if i > n then n else i
  }

  /** `s[lo:hi]` */
  function PySlice<T>(s: seq<T>, lo: int, hi: int): seq<T>
  {
    var a, b := SliceBound(lo, |s|), SliceBound(hi, |s|);
    if b <= a then [] else s[a..b]
  }

  /** `s[lo:hi] = v`; when the slice is empty or reversed, `v` is inserted at
      the normalised `lo`. */
  function PySliceAssign<T>(s: seq<T>, lo: int, hi: int, v: seq<T>): seq<T>
  {
    var a, b := SliceBound(lo, |s|), SliceBound(hi, |s|);
    var c := if b < a then a else b;
    s[..a] + v + s[c..]
  }

  /** `s[i]` for an index in `-len(s) .. len(s) - 1`. */
  function PyAt<T>(s: seq<T>, i: int): T
    requires -|s| <= i < |s|
  {
    if i < 0 then s[|s| + i] else s[i]
  }

  /** One pass of the loop body at index `x`; `None` when `syl[x]` raises IndexError. */
  function MergeStep(syl: seq<string>, x: nat): Option<seq<string>>
  {
    if x >= |syl| then None
    else if syl[x] == "~" && IsVowel(PyAt(syl, x - 1) + syl[x]) then
      Some(PySliceAssign(syl, x - 1, x + 1, [Concat(PySlice(syl, x - 1, x + 1))]))
    else Some(syl)
  }

  /** The passes `x .. stop - 1` of the loop, starting from the list `syl`. */
  function MergeFrom(syl: seq<string>, x: nat, stop: nat): Option<seq<string>>
    decreases stop - x
  {
    if x >= stop then Some(syl)
    else match MergeStep(syl, x)
      case None => None
      case Some(next) => MergeFrom(next, x + 1, stop)
  }

  /** The end of `range(len(syl) - 1)`, fixed before the loop starts. */
  function LoopBound(chars: string): nat
  {
    if |chars| == 0 then 0 else |chars| - 1
  }

  /** The token list of a syllable, or `None` where the loop raises IndexError. */
  function Tokens(chars: string): Option<seq<string>>
  {
    MergeFrom(Chars(chars), 0, LoopBound(chars))
  }

  /** The merge loop of the extractor, rewriting the list as it goes. */
  method MergeTildes(chars: string) returns (r: Option<seq<string>>)
    ensures r == Tokens(chars)
  {
    var syl := Chars(chars);
    var stop := LoopBound(chars);
    var x: nat := 0;
    while x < stop
      invariant x <= stop
      invariant MergeFrom(syl, x, stop) == Tokens(chars)
      decreases stop - x
    {
      if x >= |syl| {
        return None;
      }
      if syl[x] == "~" && IsVowel(PyAt(syl, x - 1) + syl[x]) {
        syl := PySliceAssign(syl, x - 1, x + 1, [Concat(PySlice(syl, x - 1, x + 1))]);
      }
      x := x + 1;
    }
    return Some(syl);
  }

  /** The forms a token can take: one character, a character and a tilde that
      together are a vowel, or the empty token a merge at `x == 0` inserts. */
  predicate Shaped(t: string)
  {
    |t| == 1 || t == "" || (|t| == 2 && t[1] == '~' && IsVowel(t))
  }

  predicate AllShaped(toks: seq<string>)
  {
    forall i :: 0 <= i < |toks| ==> Shaped(toks[i])
  }

  predicate NoEmpty(toks: seq<string>)
  {
    forall i :: 0 <= i < |toks| ==> toks[i] != ""
  }

  /** Whether the pass at `x` merges: `syl[x]` is a tilde and the token
      before it (the last one when `x == 0`) plus the tilde is a vowel. */
  predicate Merges(syl: seq<string>, x: nat)
    requires x < |syl|
  {
    syl[x] == "~" && IsVowel(PyAt(syl, x - 1) + "~")
  }

  /** What one pass does: nothing, a merge of `syl[x-1]` with the tilde at `x`,
      or (at `x == 0`) the insertion of an empty token before the last one. */
  lemma MergeStepCases(syl: seq<string>, x: nat)
    requires x < |syl|
    ensures !Merges(syl, x) ==> MergeStep(syl, x) == Some(syl)
    ensures Merges(syl, x) && x > 0 ==>
      MergeStep(syl, x) == Some(syl[..x - 1] + [syl[x - 1] + "~"] + syl[x + 1..])
    ensures Merges(syl, x) && x == 0 ==>
      |syl| >= 2 && MergeStep(syl, x) == Some(syl[..|syl| - 1] + [""] + syl[|syl| - 1..])
  {
    if Merges(syl, x) {
      if x > 0 {
        assert PySlice(syl, x - 1, x + 1) == [syl[x - 1], syl[x]];
        assert [syl[x - 1], syl[x]] == [syl[x - 1]] + [syl[x]];
        ConcatAppend([syl[x - 1]], [syl[x]]);
        ConcatOne(syl[x - 1]);
        ConcatOne(syl[x]);
      } else {
        if |syl| == 1 {
          NotVowels(PyAt(syl, x - 1) + "~");
        }
        assert PySlice(syl, x - 1, x + 1) == [];
      }
    }
  }

  lemma ShapedJoin(a: seq<string>, b: seq<string>)
    ensures AllShaped(a + b) <==> AllShaped(a) && AllShaped(b)
    ensures NoEmpty(a + b) <==> NoEmpty(a) && NoEmpty(b)
  {
    if AllShaped(a) && AllShaped(b) {
      forall i | 0 <= i < |a + b| ensures Shaped((a + b)[i]) {
        if i >= |a| { assert (a + b)[i] == b[i - |a|]; }
      }
    }
    if NoEmpty(a) && NoEmpty(b) {
      forall i | 0 <= i < |a + b| ensures (a + b)[i] != "" {
        if i >= |a| { assert (a + b)[i] == b[i - |a|]; }
      }
    }
    if AllShaped(a + b) {
      forall i | 0 <= i < |a| ensures Shaped(a[i]) {
        assert a[i] == (a + b)[i];
      }
      forall i | 0 <= i < |b| ensures Shaped(b[i]) {
        assert b[i] == (a + b)[i + |a|];
      }
    }
    if NoEmpty(a + b) {
      forall i | 0 <= i < |a| ensures a[i] != "" {
        assert a[i] == (a + b)[i];
      }
      forall i | 0 <= i < |b| ensures b[i] != "" {
        assert b[i] == (a + b)[i + |a|];
      }
    }
  }

  /** A merge replaces `c`, `"~"` by the vowel `c + "~"`. */
  lemma MergeKeeps(a: seq<string>, c: string, b: seq<string>)
    requires IsVowel(c + "~")
    ensures var before, after := a + [c] + ["~"] + b, a + [c + "~"] + b;
      && Concat(after) == Concat(before)
      && (AllShaped(before) ==> AllShaped(after))
      && (NoEmpty(before) ==> NoEmpty(after))
      && (before[0] != "" ==> after[0] != "" && after[0][0] == before[0][0])
      && |after| - multiset(after)["~"] >= |before| - multiset(before)["~"]
  {
    ConcatAround(a, c + "~", b);
    ConcatAround(a + [c], "~", b);
    ConcatAppend(a, [c]);
    ConcatOne(c);
    TildeVowel(c);
    assert Shaped(c + "~") && c + "~" != "";
    ShapedJoin(a + [c], ["~"]);
    ShapedJoin(a, [c]);
    ShapedJoin(a + [c] + ["~"], b);
    ShapedJoin(a + [c + "~"], b);
    ShapedJoin(a, [c + "~"]);
    assert a + [c] + ["~"] + b == a + [c, "~"] + b;
    var before, after := a + [c] + ["~"] + b, a + [c + "~"] + b;
    assert multiset(before) == multiset(a) + multiset([c, "~"]) + multiset(b);
    assert multiset(after) == multiset(a) + multiset([c + "~"]) + multiset(b);
  }

  /** The merge at `x == 0` inserts an empty token between `a` and `b`. */
  lemma InsertKeeps(a: seq<string>, b: seq<string>)
    requires |a| > 0
    ensures var before, after := a + b, a + [""] + b;
      && Concat(after) == Concat(before)
      && (AllShaped(before) ==> AllShaped(after))
      && (before[0] != "" ==> after[0] != "" && after[0][0] == before[0][0])
      && |after| - multiset(after)["~"] >= |before| - multiset(before)["~"]
  {
    ConcatAround(a, "", b);
    ConcatAppend(a, b);
    assert Shaped("");
    ShapedJoin(a, b);
    ShapedJoin(a, [""]);
    ShapedJoin(a + [""], b);
    assert multiset(a + [""] + b) == multiset(a) + multiset([""]) + multiset(b);
  }

  /** The list after one pass, when it merges: the tokens around the merge
      are `before` split as `a + [c] + ["~"] + b` or `a + b`. */
  lemma MergeStepShape(syl: seq<string>, x: nat)
    requires x < |syl| && Merges(syl, x)
    ensures x > 0 ==> syl == syl[..x - 1] + [syl[x - 1]] + ["~"] + syl[x + 1..]
    ensures x > 0 ==> IsVowel(syl[x - 1] + "~")
    ensures x == 0 ==> |syl| >= 2 && syl == syl[..|syl| - 1] + syl[|syl| - 1..]
  {
    MergeStepCases(syl, x);
  }

  /** One pass keeps the text, the token forms and the first character, and
      never lowers the count of tokens that are not a lone tilde. */
  lemma MergeStepKeeps(syl: seq<string>, x: nat, next: seq<string>)
    requires MergeStep(syl, x) == Some(next)
    ensures Concat(next) == Concat(syl)
    ensures AllShaped(syl) ==> AllShaped(next)
    ensures x > 0 && NoEmpty(syl) ==> NoEmpty(next)
    ensures x == 0 && syl[0] != "~" ==> next == syl
    ensures |syl| > 0 && syl[0] != "" ==> |next| > 0 && next[0] != "" && next[0][0] == syl[0][0]
    ensures |next| - multiset(next)["~"] >= |syl| - multiset(syl)["~"]
  {
    MergeStepCases(syl, x);
    if !Merges(syl, x) {
      assert next == syl;
    } else if x > 0 {
      MergeStepShape(syl, x);
      MergeKeeps(syl[..x - 1], syl[x - 1], syl[x + 1..]);
    } else {
      MergeStepShape(syl, x);
      InsertKeeps(syl[..|syl| - 1], syl[|syl| - 1..]);
    }
  }

  lemma {:induction false} MergeFromKeeps(syl: seq<string>, x: nat, stop: nat, toks: seq<string>)
    requires MergeFrom(syl, x, stop) == Some(toks)
    ensures Concat(toks) == Concat(syl)
    ensures AllShaped(syl) ==> AllShaped(toks)
    ensures x > 0 && NoEmpty(syl) ==> NoEmpty(toks)
    ensures |syl| > 0 && syl[0] != "" ==> |toks| > 0 && toks[0] != "" && toks[0][0] == syl[0][0]
    decreases stop - x
  {
    if x < stop {
      var next :| MergeStep(syl, x) == Some(next) && MergeFrom(next, x + 1, stop) == Some(toks);
      MergeStepKeeps(syl, x, next);
      MergeFromKeeps(next, x + 1, stop, toks);
    }
  }

  /** Tokenisation neither drops nor invents characters; every token has one
      of the three forms; the empty token appears only when the syllable
      starts with a tilde; and the first token starts with the first character. */
  lemma TokensSound(chars: string, toks: seq<string>)
    requires Tokens(chars) == Some(toks)
    ensures Concat(toks) == chars
    ensures forall i :: 0 <= i < |toks| ==> Shaped(toks[i])
    ensures |chars| == 0 || chars[0] != '~' ==> forall i :: 0 <= i < |toks| ==> toks[i] != ""
    ensures |chars| > 0 ==> |toks| > 0 && toks[0] != "" && toks[0][0] == chars[0]
  {
    TokensText(chars, toks);
    TokensFirst(chars, toks);
    TokensNoEmpty(chars, toks);
  }

  lemma TokensText(chars: string, toks: seq<string>)
    requires Tokens(chars) == Some(toks)
    ensures Concat(toks) == chars && AllShaped(toks)
  {
    var syl := Chars(chars);
    ConcatChars(chars);
    assert AllShaped(syl);
    MergeFromKeeps(syl, 0, LoopBound(chars), toks);
  }

  lemma TokensOfNothing(chars: string, toks: seq<string>)
    requires Tokens(chars) == Some(toks)
    ensures |toks| > 0 ==> |chars| > 0
  {
    if |chars| == 0 {
      assert Chars(chars) == [];
    }
  }

  lemma TokensFirst(chars: string, toks: seq<string>)
    requires Tokens(chars) == Some(toks)
    ensures |chars| > 0 ==> |toks| > 0 && toks[0] != "" && toks[0][0] == chars[0]
  {
    MergeFromKeeps(Chars(chars), 0, LoopBound(chars), toks);
  }

  lemma TokensNoEmpty(chars: string, toks: seq<string>)
    requires Tokens(chars) == Some(toks)
    ensures |chars| == 0 || chars[0] != '~' ==> NoEmpty(toks)
  {
    var syl, stop := Chars(chars), LoopBound(chars);
    if stop > 0 && chars[0] != '~' {
      MergeStepKeeps(syl, 0, syl);
      assert MergeStep(syl, 0) == Some(syl);
      assert MergeFrom(syl, 1, stop) == Some(toks);
      MergeFromKeeps(syl, 1, stop, toks);
    } else if stop == 0 {
      assert toks == syl;
    }
  }

  /** The leading token is the stress mark exactly when the syllable starts with it. */
  lemma StressTokenFirst(chars: string, toks: seq<string>)
    requires Tokens(chars) == Some(toks) && |chars| > 0
    ensures |toks| > 0 && (toks[0] == "'" <==> chars[0] == '\'')
  {
    TokensSound(chars, toks);
    assert Shaped(toks[0]);
    if chars[0] == '\'' && |toks[0]| == 2 {
      NotVowels(toks[0]);
    }
  }

  lemma {:induction false} MergeFromDefined(syl: seq<string>, x: nat, stop: nat)
    requires x <= stop <= |syl| - multiset(syl)["~"]
    ensures MergeFrom(syl, x, stop).Some?
    decreases stop - x
  {
    if x < stop {
      assert multiset(syl)["~"] >= 0;
      var next := MergeStep(syl, x).value;
      MergeStepKeeps(syl, x, next);
      MergeFromDefined(next, x + 1, stop);
    }
  }

  lemma {:induction false} TildeCount(s: string)
    ensures multiset(Chars(s))["~"] == multiset(s)['~']
    decreases |s|
  {
    if |s| > 0 {
      var n := |s|;
      assert Chars(s) == Chars(s[..n - 1]) + [[s[n - 1]]];
      assert s == s[..n - 1] + [s[n - 1]];
      TildeCount(s[..n - 1]);
    }
  }

  /** A syllable with at most one tilde never makes the loop overrun the list:
      only a second merge can shorten it below the loop bound. */
  lemma TokensDefined(chars: string)
    requires multiset(chars)['~'] <= 1
    ensures Tokens(chars).Some?
  {
    TildeCount(chars);
    MergeFromDefined(Chars(chars), 0, LoopBound(chars));
  }

  lemma {:induction false} MergeFromNoTilde(syl: seq<string>, x: nat, stop: nat)
    requires "~" !in syl
    ensures x <= stop <= |syl| ==> MergeFrom(syl, x, stop) == Some(syl)
    decreases stop - x
  {
    if x < stop <= |syl| {
      MergeStepCases(syl, x);
      MergeFromNoTilde(syl, x + 1, stop);
    }
  }

  /** Only tildes are merged: without one, every character is its own token,
      so the consonant digraphs of the language (`tS`, `dZ`) count as two. */
  lemma NoTildeNoMerge(chars: string)
    requires '~' !in chars
    ensures Tokens(chars) == Some(Chars(chars))
  {
    var syl := Chars(chars);
    assert "~" !in syl;
    MergeFromNoTilde(syl, 0, LoopBound(chars));
  }

  /** Passes over tokens that are not a tilde change nothing. */
  lemma {:induction false} MergeFromQuiet(syl: seq<string>, x: nat, y: nat, stop: nat)
    requires x <= y <= stop && y <= |syl|
    requires forall i :: x <= i < y ==> syl[i] != "~"
    ensures MergeFrom(syl, x, stop) == MergeFrom(syl, y, stop)
    decreases y - x
  {
    if x < y {
      MergeStepCases(syl, x);
      MergeFromQuiet(syl, x + 1, y, stop);
    }
  }

  /** The token list of a syllable whose only tilde is at `p > 0`: the tilde
      joins the character before it when the two form a vowel of the
      inventory, unless it is the last character, which the loop never
      examines; every other character is a token of its own. */
  lemma SingleTilde(chars: string, p: nat)
    requires 0 < p < |chars| && chars[p] == '~'
    requires forall i :: 0 <= i < |chars| && i != p ==> chars[i] != '~'
    ensures p <= |chars| - 2 ==>
      Tokens(chars) == Some(if IsVowel([chars[p - 1]] + "~")
                            then Chars(chars[..p - 1]) + [chars[p - 1..p + 1]] + Chars(chars[p + 1..])
                            else Chars(chars))
    ensures p == |chars| - 1 ==> Tokens(chars) == Some(Chars(chars))
  {
    var syl, stop := Chars(chars), LoopBound(chars);
    TildeChars(chars, p);
    MergeFromQuiet(syl, 0, p, stop);
    if p < stop {
      TildeStep(syl, p, stop);
      if Merges(syl, p) {
        SingleTildeMerged(chars, p);
      }
    }
  }

  /** The tokens of a syllable whose only tilde is at `p`. */
  lemma TildeChars(chars: string, p: nat)
    requires 0 < p < |chars| && chars[p] == '~'
    requires forall i :: 0 <= i < |chars| && i != p ==> chars[i] != '~'
    ensures var syl := Chars(chars);
      && (forall i :: 0 <= i < |syl| && i != p ==> syl[i] != "~")
      && syl[p] == "~" && syl[p - 1] == [chars[p - 1]]
      && (Merges(syl, p) <==> IsVowel([chars[p - 1]] + "~"))
  {
    var syl := Chars(chars);
    forall i | 0 <= i < |syl| && i != p
      ensures syl[i] != "~"
    {
      assert syl[i] == [chars[i]];
    }
  }

  /** The passes from the only tilde, at `p`, to the end of the loop. */
  lemma TildeStep(syl: seq<string>, p: nat, stop: nat)
    requires 0 < p < stop && stop + 1 == |syl| && syl[p] == "~"
    requires forall i :: 0 <= i < |syl| && i != p ==> syl[i] != "~"
    ensures MergeFrom(syl, p, stop)
      == Some(if Merges(syl, p) then syl[..p - 1] + [syl[p - 1] + "~"] + syl[p + 1..] else syl)
  {
    MergeStepCases(syl, p);
    var next := MergeStep(syl, p).value;
    if Merges(syl, p) {
      assert forall i :: p <= i < |next| ==> next[i] == syl[i + 1];
      MergeFromQuiet(next, p + 1, stop, stop);
    } else {
      MergeFromQuiet(syl, p + 1, stop, stop);
    }
  }

  /** The characters of a syllable with the pair at `p - 1, p` as one token. */
  lemma SingleTildeMerged(chars: string, p: nat)
    requires 0 < p < |chars| && chars[p] == '~'
    ensures var syl := Chars(chars);
      syl[..p - 1] + [syl[p - 1] + "~"] + syl[p + 1..]
        == Chars(chars[..p - 1]) + [chars[p - 1..p + 1]] + Chars(chars[p + 1..])
  {
    var syl := Chars(chars);
    assert syl[..p - 1] == Chars(chars[..p - 1]);
    assert syl[p + 1..] == Chars(chars[p + 1..]);
    assert syl[p - 1] + "~" == chars[p - 1..p + 1];
  }

  /** `ma~s`: a tilde after a vowel character is folded into it. */
  lemma PlainMergeExample()
    ensures Tokens("ma~s") == Some(["m", "a~", "s"])
  {
    var chars := "ma~s";
    assert chars[0] == 'm' && chars[1] == 'a' && chars[2] == '~' && chars[3] == 's';
    SingleTilde(chars, 2);
    assert [chars[1]] + "~" == "a~";
    assert IsVowel("a~");
    var before, pair, after := chars[..1], chars[1..3], chars[3..];
    assert before == "m" && pair == "a~" && after == "s";
    assert Chars(before) == ["m"] && Chars(after) == ["s"];
    assert Chars(before) + [pair] + Chars(after) == ["m", "a~", "s"];
  }

  /** Two merges shorten `ma~w~s` to four tokens while the loop still goes
      on to index 4, where `syl[4]` raises IndexError. */
  lemma OverrunExample()
    ensures Tokens("ma~w~s") == None
  {
    var s0 := Chars("ma~w~s");
    assert s0 == ["m", "a", "~", "w", "~", "s"];
    var s1, s2 := ["m", "a~", "w", "~", "s"], ["m", "a~", "w~", "s"];
    MergeFromQuiet(s0, 0, 2, 5);
    OverrunFirstMerge(s0);
    OverrunSecondMerge(s1);
    assert MergeStep(s2, 4) == None;
    assert MergeFrom(s2, 4, 5) == None;
    assert MergeFrom(s1, 3, 5) == None;
  }

  /** The tilde at index 2 of `ma~w~s` joins the `a` before it. */
  lemma OverrunFirstMerge(s0: seq<string>)
    requires s0 == ["m", "a", "~", "w", "~", "s"]
    ensures MergeStep(s0, 2) == Some(["m", "a~", "w", "~", "s"])
  {
    MergeStepCases(s0, 2);
    assert "a" + "~" == "a~" && IsVowel("a~");
    assert Merges(s0, 2);
    assert s0[..1] + [s0[1] + "~"] + s0[3..] == ["m", "a~", "w", "~", "s"];
  }

  /** After the first merge, the tilde now at index 3 joins the `w` before it. */
  lemma OverrunSecondMerge(s1: seq<string>)
    requires s1 == ["m", "a~", "w", "~", "s"]
    ensures MergeStep(s1, 3) == Some(["m", "a~", "w~", "s"])
  {
    MergeStepCases(s1, 3);
    assert "w" + "~" == "w~" && IsVowel("w~");
    assert Merges(s1, 3);
    assert s1[..2] + [s1[2] + "~"] + s1[4..] == ["m", "a~", "w~", "s"];
  }

  /** A leading tilde after a vowel-final syllable: `syl[-1]` is the last
      character, and the empty slice `syl[-1:1]` makes the assignment insert
      an empty token instead of merging. */
  lemma LeadingTildeExample()
    ensures Tokens("~a") == Some(["~", "", "a"])
  {
    var s0 := Chars("~a");
    assert s0 == ["~", "a"];
    assert "a" + "~" == "a~" && IsVowel("a~");
    assert Merges(s0, 0);
    MergeStepCases(s0, 0);
    assert s0[..1] + [""] + s0[1..] == ["~", "", "a"];
  }

  /** The last character is never examined, so a final tilde stays a token of its own. */
  lemma TrailingTildeExample()
    ensures Tokens("pa~") == Some(["p", "a", "~"])
  {
    var s0 := Chars("pa~");
    assert s0 == ["p", "a", "~"];
    MergeStepCases(s0, 0);
    MergeStepCases(s0, 1);
  }
}
