/** The string operations the script takes from Python: `''.join`,
    `list(s)`, `str.split` with a one-character separator and `str.rstrip()`. */
module Strings {

  /** `''.join(parts)` */
  function Concat(parts: seq<string>): string
  {
    if |parts| == 0 then "" else Concat(parts[..|parts| - 1]) + parts[|parts| - 1]
  }

  lemma {:induction false} ConcatAppend(a: seq<string>, b: seq<string>)
    ensures Concat(a + b) == Concat(a) + Concat(b)
    decreases |b|
  {
    if |b| == 0 {
      assert a + b == a;
    } else {
      assert (a + b)[..|a + b| - 1] == a + b[..|b| - 1];
      ConcatAppend(a, b[..|b| - 1]);
    }
  }

  lemma ConcatOne(t: string)
    ensures Concat([t]) == t
  {
    assert [t][..0] == [];
  }

  /** Joining a list is joining its two halves around any cut. */
  lemma ConcatSplit(parts: seq<string>, i: nat)
    requires i <= |parts|
    ensures Concat(parts) == Concat(parts[..i]) + Concat(parts[i..])
  {
    assert parts == parts[..i] + parts[i..];
    ConcatAppend(parts[..i], parts[i..]);
  }

  /** Joining around one token in the middle. */
  lemma ConcatAround(a: seq<string>, t: string, b: seq<string>)
    ensures Concat(a + [t] + b) == Concat(a) + t + Concat(b)
  {
    ConcatAppend(a + [t], b);
    ConcatAppend(a, [t]);
    ConcatOne(t);
  }

  /** `list(s)`: the one-character strings of `s`, in order. */
  function Chars(s: string): seq<string>
  {
    seq(|s|, i requires 0 <= i < |s| => [s[i]])
  }

  lemma {:induction false} ConcatChars(s: string)
    ensures Concat(Chars(s)) == s
    decreases |s|
  {
    if |s| > 0 {
      assert Chars(s)[..|s| - 1] == Chars(s[..|s| - 1]);
      ConcatChars(s[..|s| - 1]);
      assert s == s[..|s| - 1] + [s[|s| - 1]];
    }
  }

  /** `s.split(sep)`: the maximal runs of `s` between occurrences of `sep`. */
  function Split(s: string, sep: char): (parts: seq<string>)
    ensures |parts| >= 1
    ensures forall i :: 0 <= i < |parts| ==> sep !in parts[i]
    decreases |s|
  {
    if |s| == 0 then [""]
    else
      var rest := Split(s[1..], sep);
      if s[0] == sep then [""] + rest
      else [[s[0]] + rest[0]] + rest[1..]
  }

  /** `sep.join(parts)` */
  function JoinWith(parts: seq<string>, sep: char): string
    requires |parts| >= 1
    decreases |parts|
  {
    if |parts| == 1 then parts[0] else parts[0] + [sep] + JoinWith(parts[1..], sep)
  }

  /** Splitting loses nothing: joining the parts back gives the line. */
  lemma {:induction false} SplitJoin(s: string, sep: char)
    ensures JoinWith(Split(s, sep), sep) == s
    decreases |s|
  {
    if |s| > 0 {
      var rest := Split(s[1..], sep);
      SplitJoin(s[1..], sep);
      if s[0] == sep {
        assert ([""] + rest)[1..] == rest;
      } else {
        var parts := [[s[0]] + rest[0]] + rest[1..];
        if |rest| > 1 {
          assert parts[1..] == rest[1..];
          assert JoinWith(rest, sep) == rest[0] + [sep] + JoinWith(rest[1..], sep);
        }
        assert s == [s[0]] + s[1..];
      }
    }
  }

  lemma {:induction false} SplitPrefix(h: string, t: string, sep: char)
    requires sep !in h
    ensures Split(h + t, sep) == [h + Split(t, sep)[0]] + Split(t, sep)[1..]
    decreases |h|
  {
    if |h| > 0 {
      var tail := Split(t, sep);
      var rest := Split(h[1..] + t, sep);
      assert (h + t)[1..] == h[1..] + t;
      assert (h + t)[0] == h[0] && h[0] != sep;
      SplitPrefix(h[1..], t, sep);
      assert Split(h + t, sep) == [[h[0]] + rest[0]] + rest[1..];
      assert rest[0] == h[1..] + tail[0] && rest[1..] == tail[1..];
      assert [h[0]] + (h[1..] + tail[0]) == h + tail[0];
    } else {
      assert h + t == t;
      assert h + Split(t, sep)[0] == Split(t, sep)[0];
    }
  }

  /** Parts free of the separator come back unchanged from a join and a split. */
  lemma {:induction false} JoinSplit(parts: seq<string>, sep: char)
    requires |parts| >= 1
    requires forall i :: 0 <= i < |parts| ==> sep !in parts[i]
    ensures Split(JoinWith(parts, sep), sep) == parts
    decreases |parts|
  {
    if |parts| == 1 {
      SplitPrefix(parts[0], "", sep);
      assert parts[0] + "" == parts[0];
    } else {
      var tail := [sep] + JoinWith(parts[1..], sep);
      JoinSplit(parts[1..], sep);
      assert Split(tail, sep) == [""] + parts[1..] by {
        assert tail[0] == sep && tail[1..] == JoinWith(parts[1..], sep);
      }
      assert parts[0] + [sep] + JoinWith(parts[1..], sep) == parts[0] + tail;
      SplitPrefix(parts[0], tail, sep);
      assert Split(parts[0] + tail, sep) == [parts[0] + ""] + parts[1..];
      assert parts[0] + "" == parts[0];
      assert parts == [parts[0]] + parts[1..];
    }
  }

  /** The characters `str.rstrip()` removes: ASCII space, tab, newline,
      vertical tab, form feed and carriage return. */
  predicate IsSpace(c: char)
  {
    c == ' ' || c == '\t' || c == '\n' || c == '\U{000B}' || c == '\U{000C}' || c == '\r'
  }

  /** `s.rstrip()`: `s` without its longest all-space suffix. */
  function RStrip(s: string): (r: string)
    ensures r <= s
    ensures |r| == 0 || !IsSpace(r[|r| - 1])
    ensures forall i :: |r| <= i < |s| ==> IsSpace(s[i])
    decreases |s|
  {
    if |s| > 0 && IsSpace(s[|s| - 1]) then RStrip(s[..|s| - 1]) else s
  }
}
