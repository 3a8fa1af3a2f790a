/** Text primitives the converter is built on: the UTF-8 byte length that
    `str::len` reports, substring replacement as `str::replace` does it, and
    the split of a file into the lines that successive `read_line` calls
    return. A `string` is a sequence of Unicode scalar values; each value is
    taken to be one grapheme. */
module Text {

  /** Number of bytes of the UTF-8 encoding of `c`. */
  function Utf8Width(c: char): (w: nat)
    ensures 1 <= w <= 4
    ensures w == 1 <==> c as int < 0x80
  {
    if c as int < 0x80 then 1
    else if c as int < 0x800 then 2
    else if c as int < 0x10000 then 3
    else 4
  }

  /** Length in bytes of the UTF-8 encoding of `s`. */
  function ByteLen(s: string): (n: nat)
    ensures |s| <= n <= 4 * |s|
  {
    if s == [] then 0 else Utf8Width(s[0]) + ByteLen(s[1..])
  }

  lemma {:induction false} ByteLenAppend(a: string, b: string)
    ensures ByteLen(a + b) == ByteLen(a) + ByteLen(b)
  {
    if a == [] {
      assert a + b == b;
    } else {
      assert (a + b)[1..] == a[1..] + b;
      ByteLenAppend(a[1..], b);
    }
  }

  /** The bytes of `ss` written one after the other. */
  function Concat(ss: seq<string>): string
  {
    if ss == [] then [] else ss[0] + Concat(ss[1..])
  }

  lemma {:induction false} ConcatAppend(ss: seq<string>, s: string)
    ensures Concat(ss + [s]) == Concat(ss) + s
  {
    if ss == [] {
      assert ss + [s] == [s];
      assert Concat([s]) == s + Concat([]);
    } else {
      assert (ss + [s])[1..] == ss[1..] + [s];
      ConcatAppend(ss[1..], s);
    }
  }

  predicate StartsWith(s: string, p: string)
  {
    |p| <= |s| && s[..|p|] == p
  }

  /** `p` occurs somewhere in `s`. */
  predicate Occurs(s: string, p: string)
  {
    exists i :: 0 <= i <= |s| - |p| && StartsWith(s[i..], p)
  }

  /** `str::replace` for an empty pattern: `rep` at every character boundary,
      including the very start and the very end. */
  function ReplaceEmpty(s: string, rep: string): (r: string)
    ensures rep == [] ==> r == s
  {
    if s == [] then rep
    else
      assert s == [s[0]] + s[1..];
      rep + [s[0]] + ReplaceEmpty(s[1..], rep)
  }

  /** `str::replace(s, pat, rep)`: every non-overlapping occurrence of `pat`,
      found from left to right, is replaced by `rep`; text after a match is
      searched again from the end of that match. */
  function Replace(s: string, pat: string, rep: string): (r: string)
    ensures rep == pat ==> r == s
    decreases |s|
  {
    if pat == [] then ReplaceEmpty(s, rep)
    else if |s| < |pat| then s
    else if s[..|pat|] == pat then
      assert s == s[..|pat|] + s[|pat|..];
      rep + Replace(s[|pat|..], pat, rep)
    else
      assert s == [s[0]] + s[1..];
      [s[0]] + Replace(s[1..], pat, rep)
  }

  /** Number of occurrences `Replace` substitutes; the empty pattern occurs
      at each of the `|s| + 1` character boundaries. */
  function MatchCount(s: string, pat: string): nat
    decreases |s|
  {
    if pat == [] then |s| + 1
    else if |s| < |pat| then 0
    else if s[..|pat|] == pat then 1 + MatchCount(s[|pat|..], pat)
    else MatchCount(s[1..], pat)
  }

  /** A text in which the pattern does not occur comes back unchanged. */
  lemma {:induction false} ReplaceWithoutOccurrence(s: string, pat: string, rep: string)
    requires pat != [] && !Occurs(s, pat)
    ensures Replace(s, pat, rep) == s
    ensures MatchCount(s, pat) == 0
    decreases |s|
  {
    if |s| >= |pat| {
      assert s[0..] == s;
      assert !StartsWith(s[0..], pat);
      assert !Occurs(s[1..], pat) by {
        forall i | 0 <= i <= |s[1..]| - |pat|
          ensures !StartsWith(s[1..][i..], pat)
        {
          assert s[1..][i..] == s[i + 1..];
          assert !StartsWith(s[i + 1..], pat);
        }
      }
      ReplaceWithoutOccurrence(s[1..], pat, rep);
    }
  }

  /** Each substitution changes the byte length by the difference of the
      byte lengths of `rep` and `pat`. */
  lemma {:induction false} ReplaceByteLen(s: string, pat: string, rep: string)
    ensures ByteLen(Replace(s, pat, rep)) as int
         == ByteLen(s) + MatchCount(s, pat) * (ByteLen(rep) - ByteLen(pat))
    decreases |s|
  {
    if pat == [] {
      ReplaceEmptyByteLen(s, rep);
    } else if |s| < |pat| {
    } else if s[..|pat|] == pat {
      var rest := s[|pat|..];
      ReplaceByteLen(rest, pat, rep);
      ByteLenAppend(rep, Replace(rest, pat, rep));
      assert s == pat + rest;
      ByteLenAppend(pat, rest);
      MulStep(MatchCount(rest, pat), ByteLen(rep) - ByteLen(pat));
    } else {
      ReplaceByteLen(s[1..], pat, rep);
      ByteLenAppend([s[0]], Replace(s[1..], pat, rep));
    }
  }

  /** Inserting `rep` at each of the `|s| + 1` boundaries adds its length
      that many times. */
  lemma {:induction false} ReplaceEmptyByteLen(s: string, rep: string)
    ensures ByteLen(ReplaceEmpty(s, rep)) == ByteLen(s) + (|s| + 1) * ByteLen(rep)
    decreases |s|
  {
    if s != [] {
      var tail := ReplaceEmpty(s[1..], rep);
      ReplaceEmptyByteLen(s[1..], rep);
      ByteLenAppend(rep + [s[0]], tail);
      ByteLenAppend(rep, [s[0]]);
      ByteLenAppend([s[0]], s[1..]);
      assert s == [s[0]] + s[1..];
      MulStep(|s[1..]| + 1, ByteLen(rep));
    }
  }

  lemma MulStep(m: int, d: int)
    ensures (1 + m) * d == d + m * d
  {
  }

  /** A one-character replacement that does not occur in the text can be
      turned back into the original pattern, the empty one included. */
  lemma {:induction false} ReplaceRoundTrip(s: string, pat: string, c: char)
    requires c !in s
    ensures Replace(Replace(s, pat, [c]), [c], pat) == s
    decreases |s|
  {
    if pat == [] {
      EmptyPatternRoundTrip(s, c);
    } else if |s| < |pat| {
      AbsentCharUnchanged(s, c, pat);
    } else if s[..|pat|] == pat {
      var rest := s[|pat|..];
      var t := [c] + Replace(rest, pat, [c]);
      assert t[..1] == [c];
      assert t[1..] == Replace(rest, pat, [c]);
      ReplaceRoundTrip(rest, pat, c);
      assert s == pat + rest;
    } else {
      var t := [s[0]] + Replace(s[1..], pat, [c]);
      assert t[..1] == [s[0]] && s[0] != c;
      assert t[1..] == Replace(s[1..], pat, [c]);
      ReplaceRoundTrip(s[1..], pat, c);
      assert s == [s[0]] + s[1..];
    }
  }

  lemma {:induction false} EmptyPatternRoundTrip(s: string, c: char)
    requires c !in s
    ensures Replace(ReplaceEmpty(s, [c]), [c], []) == s
    decreases |s|
  {
    if s == [] {
      assert Replace([c], [c], []) == [] + Replace([], [c], []);
    } else {
      var t := ReplaceEmpty(s, [c]);
      var u := [s[0]] + ReplaceEmpty(s[1..], [c]);
      assert t == [c] + u;
      assert t[..1] == [c] && t[1..] == u;
      assert u[..1] == [s[0]] && s[0] != c;
      assert u[1..] == ReplaceEmpty(s[1..], [c]);
      EmptyPatternRoundTrip(s[1..], c);
      assert s == [s[0]] + s[1..];
    }
  }

  /** With a one-character pattern no occurrence can straddle two texts. */
  lemma {:induction false} SingleCharSplit(a: string, b: string, c: char, rep: string)
    ensures Replace(a + b, [c], rep) == Replace(a, [c], rep) + Replace(b, [c], rep)
    decreases |a|
  {
    if a == [] {
      assert a + b == b;
    } else {
      var s := a + b;
      assert s[..1] == a[..1] && s[1..] == a[1..] + b;
      SingleCharSplit(a[1..], b, c, rep);
    }
  }

  lemma {:induction false} AbsentCharUnchanged(s: string, c: char, rep: string)
    requires c !in s
    ensures Replace(s, [c], rep) == s
    decreases |s|
  {
    if s != [] {
      assert s[..1] == [s[0]] && s[0] != c;
      AbsentCharUnchanged(s[1..], c, rep);
      assert s == [s[0]] + s[1..];
    }
  }

  /** No line feed in `pat` except possibly as its last character. */
  predicate LineFeedOnlyLast(pat: string)
  {
    pat != [] && forall i :: 0 <= i < |pat| - 1 ==> pat[i] != '\n'
  }

  /** An occurrence at the front of `a + b` lies inside `a` when `a` ends
      with a line feed that the pattern holds at most as its last character. */
  lemma NoStraddle(a: string, b: string, pat: string)
    requires LineFeedOnlyLast(pat) && a != [] && a[|a| - 1] == '\n'
    requires StartsWith(a + b, pat)
    ensures |pat| <= |a| && StartsWith(a, pat)
  {
    var s := a + b;
    assert s[|a| - 1] == '\n';
    assert forall i :: 0 <= i < |pat| ==> s[i] == pat[i];
    assert a[..|pat|] == s[..|pat|];
  }

  /** Replacing in two texts separately gives the same as replacing in their
      concatenation when the first one ends with a line feed and the pattern
      holds none before its last character, so that no occurrence can
      straddle the two. */
  lemma {:induction false} ReplaceSplitAtLineEnd(a: string, b: string, pat: string, rep: string)
    requires LineFeedOnlyLast(pat)
    requires a == [] || a[|a| - 1] == '\n'
    ensures Replace(a + b, pat, rep) == Replace(a, pat, rep) + Replace(b, pat, rep)
    decreases |a|
  {
    var s := a + b;
    var p := |pat|;
    if a == [] {
      assert s == b;
    } else if |s| < p {
      assert Replace(b, pat, rep) == b;
    } else if s[..p] == pat {
      NoStraddle(a, b, pat);
      assert s[p..] == a[p..] + b;
      calc {
        Replace(s, pat, rep);
        rep + Replace(a[p..] + b, pat, rep);
        { ReplaceSplitAtLineEnd(a[p..], b, pat, rep); }
        rep + (Replace(a[p..], pat, rep) + Replace(b, pat, rep));
        Replace(a, pat, rep) + Replace(b, pat, rep);
      }
    } else {
      assert s[1..] == a[1..] + b;
      var head := [a[0]];
      if |a| < p {
        assert Replace(a[1..], pat, rep) == a[1..];
        assert a == head + a[1..];
      } else {
        assert a[..p] == s[..p];
      }
      calc {
        Replace(s, pat, rep);
        head + Replace(a[1..] + b, pat, rep);
        { ReplaceSplitAtLineEnd(a[1..], b, pat, rep); }
        head + (Replace(a[1..], pat, rep) + Replace(b, pat, rep));
        (head + Replace(a[1..], pat, rep)) + Replace(b, pat, rep);
        Replace(a, pat, rep) + Replace(b, pat, rep);
      }
    }
  }

  /** Length of the line `read_line` takes from the front of `text`: up to
      and including the first line feed, or all of `text` when it holds none. */
  function LineLen(text: string): (n: nat)
    requires text != []
    ensures 1 <= n <= |text|
    ensures forall i :: 0 <= i < n - 1 ==> text[i] != '\n'
    ensures n < |text| ==> text[n - 1] == '\n'
  {
    if text[0] == '\n' || |text| == 1 then 1 else 1 + LineLen(text[1..])
  }

  /** The lines successive `read_line` calls return on a reader over `text`,
      each with its terminator; `read_line` reports 0 bytes only after the last. */
  function Lines(text: string): (ls: seq<string>)
    ensures (ls == []) <==> (text == [])
    ensures forall i :: 0 <= i < |ls| ==> ls[i] != []
    ensures forall i :: 0 <= i < |ls| - 1 ==> ls[i][|ls[i]| - 1] == '\n'
    ensures forall i, j :: 0 <= i < |ls| && 0 <= j < |ls[i]| - 1 ==> ls[i][j] != '\n'
    decreases |text|
  {
    if text == [] then []
    else
      var n := LineLen(text);
      [text[..n]] + Lines(text[n..])
  }

  lemma LinesCons(text: string)
    requires text != []
    ensures Lines(text)[0] == text[..LineLen(text)]
    ensures Lines(text)[1..] == Lines(text[LineLen(text)..])
  {
  }

  /** Reading every line gives back the whole text. */
  lemma {:induction false} ConcatLines(text: string)
    ensures Concat(Lines(text)) == text
    decreases |text|
  {
    if text != [] {
      var n := LineLen(text);
      LinesCons(text);
      calc {
        Concat(Lines(text));
        Lines(text)[0] + Concat(Lines(text)[1..]);
        text[..n] + Concat(Lines(text[n..]));
        { ConcatLines(text[n..]); }
        text[..n] + text[n..];
        text;
      }
    }
  }
}
