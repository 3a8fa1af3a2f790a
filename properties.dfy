/** Properties of a conversion run and of the per-line transform. */
module Properties {
  import opened Text
  import opened Csvconv

  /** A checked run succeeds exactly when every line has the first line's
      delimiter count. */
  lemma CheckedSucceedsIff(lines: seq<string>, originalSep: string, newSep: string)
    requires originalSep != []
    ensures Expected(lines, originalSep, newSep, true).result.Ok?
        <==> forall i :: 0 <= i < |lines| ==>
               DelimiterCount(lines[i], originalSep) == DelimiterCount(lines[0], originalSep)
  {
  }

  /** The error of a failed checked run: the header's count, the count of the
      offending line and its 1-based number, at least 2; every line before it
      agrees with the header, and the output ends with the offending line. */
  lemma MismatchReport(lines: seq<string>, originalSep: string, newSep: string, e: CountError)
    requires originalSep != []
    requires Expected(lines, originalSep, newSep, true).result == Err(DifferentCount(e))
    ensures 2 <= e.lineNumber <= |lines|
    ensures e.delimitersAtHeader == DelimiterCount(lines[0], originalSep)
    ensures e.delimitersAtLine == DelimiterCount(lines[e.lineNumber - 1], originalSep)
    ensures e.delimitersAtLine != e.delimitersAtHeader
    ensures forall j :: 0 <= j < e.lineNumber - 1 ==>
              DelimiterCount(lines[j], originalSep) == e.delimitersAtHeader
    ensures Expected(lines, originalSep, newSep, true).written
         == Transformed(lines[..e.lineNumber], originalSep, newSep)
  {
  }

  /** Checking never changes what is written, only where writing stops: a
      checked run writes a prefix of what an unchecked run writes, all of it
      when it succeeds, and an unchecked run always succeeds. */
  lemma CheckOnlyTruncates(lines: seq<string>, originalSep: string, newSep: string)
    requires originalSep != []
    ensures Expected(lines, originalSep, newSep, false)
         == Run(Ok(()), Transformed(lines, originalSep, newSep))
    ensures Expected(lines, originalSep, newSep, true).written
         <= Expected(lines, originalSep, newSep, false).written
    ensures Expected(lines, originalSep, newSep, true).result.Ok? ==>
              (Expected(lines, originalSep, newSep, true).written
               == Expected(lines, originalSep, newSep, false).written)
  {
  }

  lemma TransformedCons(lines: seq<string>, originalSep: string, newSep: string)
    requires lines != []
    ensures Transformed(lines, originalSep, newSep)
         == [Replace(lines[0], originalSep, newSep)] + Transformed(lines[1..], originalSep, newSep)
  {
  }

  /** Converting line by line gives the same bytes as replacing in the whole
      file at once, provided the separator holds no line feed before its
      last character. */
  lemma {:induction false} StreamingMatchesWhole(text: string, originalSep: string, newSep: string)
    requires LineFeedOnlyLast(originalSep)
    ensures Concat(Transformed(Lines(text), originalSep, newSep)) == Replace(text, originalSep, newSep)
    decreases |text|
  {
    if text == [] {
      assert Transformed(Lines(text), originalSep, newSep) == [];
    } else {
      var n := LineLen(text);
      var line, rest := text[..n], text[n..];
      calc {
        Concat(Transformed(Lines(text), originalSep, newSep));
        == { ConcatTransformedCons(Lines(text), originalSep, newSep); }
        Replace(Lines(text)[0], originalSep, newSep)
          + Concat(Transformed(Lines(text)[1..], originalSep, newSep));
        == { LinesCons(text); }
        Replace(line, originalSep, newSep) + Concat(Transformed(Lines(rest), originalSep, newSep));
        == { StreamingMatchesWhole(rest, originalSep, newSep); }
        Replace(line, originalSep, newSep) + Replace(rest, originalSep, newSep);
        == { SplitAtLineEnd(text, originalSep, newSep); }
        Replace(text, originalSep, newSep);
      }
    }
  }

  lemma SplitAtLineEnd(text: string, originalSep: string, newSep: string)
    requires text != [] && LineFeedOnlyLast(originalSep)
    ensures Replace(text[..LineLen(text)], originalSep, newSep) + Replace(text[LineLen(text)..], originalSep, newSep)
         == Replace(text, originalSep, newSep)
  {
    var n := LineLen(text);
    assert text == text[..n] + text[n..];
    if n < |text| {
      ReplaceSplitAtLineEnd(text[..n], text[n..], originalSep, newSep);
    } else {
      assert text[..n] == text;
      assert Replace(text[n..], originalSep, newSep) == [];
    }
  }

  lemma ConcatTransformedCons(lines: seq<string>, originalSep: string, newSep: string)
    requires lines != []
    ensures Concat(Transformed(lines, originalSep, newSep))
         == Replace(lines[0], originalSep, newSep) + Concat(Transformed(lines[1..], originalSep, newSep))
  {
    TransformedCons(lines, originalSep, newSep);
  }

  /** Replacing the one-character separator `c` back by `sep` in the
      converted lines gives the lines again when `c` occurs in none. */
  lemma {:induction false} RoundTripLines(lines: seq<string>, sep: string, c: char)
    requires c !in Concat(lines)
    ensures Replace(Concat(Transformed(lines, sep, [c])), [c], sep) == Concat(lines)
    decreases |lines|
  {
    if lines == [] {
      assert Transformed(lines, sep, [c]) == [];
    } else {
      var head := Replace(lines[0], sep, [c]);
      var tail := Concat(Transformed(lines[1..], sep, [c]));
      assert c !in lines[0] && c !in Concat(lines[1..]);
      calc {
        Replace(Concat(Transformed(lines, sep, [c])), [c], sep);
        == { ConcatTransformedCons(lines, sep, [c]); }
        Replace(head + tail, [c], sep);
        == { SingleCharSplit(head, tail, c, sep); }
        Replace(head, [c], sep) + Replace(tail, [c], sep);
        == { ReplaceRoundTrip(lines[0], sep, c); RoundTripLines(lines[1..], sep, c); }
        lines[0] + Concat(lines[1..]);
      }
    }
  }

  /** When the one-character new separator does not occur in the file, a
      successful run can be undone: replacing it back gives the file. */
  lemma ConversionReversible(text: string, originalSep: string, c: char, check: bool)
    requires check && text != [] ==> originalSep != []
    requires c !in text
    requires Expected(Lines(text), originalSep, [c], check).result.Ok?
    ensures Replace(Concat(Expected(Lines(text), originalSep, [c], check).written), [c], originalSep) == text
  {
    if originalSep != [] {
      CheckOnlyTruncates(Lines(text), originalSep, [c]);
    }
    ConcatLines(text);
    RoundTripLines(Lines(text), originalSep, c);
  }

  /** Separators of equal byte length leave the byte count of every line, and
      so of the whole output, unchanged. */
  lemma {:induction false} SameWidthKeepsSize(lines: seq<string>, originalSep: string, newSep: string)
    requires originalSep != [] && ByteLen(originalSep) == ByteLen(newSep)
    ensures ByteLen(Concat(Transformed(lines, originalSep, newSep))) == ByteLen(Concat(lines))
  {
    if lines != [] {
      TransformedCons(lines, originalSep, newSep);
      SameWidthKeepsSize(lines[1..], originalSep, newSep);
      ReplaceByteLen(lines[0], originalSep, newSep);
      ByteLenAppend(Replace(lines[0], originalSep, newSep), Concat(Transformed(lines[1..], originalSep, newSep)));
      ByteLenAppend(lines[0], Concat(lines[1..]));
    }
  }

  /** With separators of equal byte length, the bytes written by a successful
      run, which is the final `sizeSeen`, equal the size of the input file,
      the total of the progress bar. */
  lemma ProgressReachesTotal(text: string, originalSep: string, newSep: string, check: bool)
    requires originalSep != [] && ByteLen(originalSep) == ByteLen(newSep)
    requires Expected(Lines(text), originalSep, newSep, check).result.Ok?
    ensures ByteLen(Concat(Expected(Lines(text), originalSep, newSep, check).written)) == ByteLen(text)
  {
    CheckOnlyTruncates(Lines(text), originalSep, newSep);
    SameWidthKeepsSize(Lines(text), originalSep, newSep);
    ConcatLines(text);
  }

  /** Every substituted occurrence contains the counted grapheme, so the
      delimiter count is at least the number of occurrences; for a
      one-grapheme separator the two agree. */
  lemma {:induction false} OccurrencesAtMostDelimiterCount(line: string, originalSep: string)
    requires originalSep != []
    ensures MatchCount(line, originalSep) <= DelimiterCount(line, originalSep)
    ensures |originalSep| == 1 ==> MatchCount(line, originalSep) == DelimiterCount(line, originalSep)
    decreases |line|
  {
    var p := |originalSep|;
    if |line| < p {
      if p == 1 {
        assert line == [];
      }
    } else if line[..p] == originalSep {
      OccurrencesAtMostDelimiterCount(line[p..], originalSep);
      assert line == originalSep + line[p..];
      assert originalSep[p - 1] in originalSep;
    } else {
      OccurrencesAtMostDelimiterCount(line[1..], originalSep);
      assert line == [line[0]] + line[1..];
      if p == 1 {
        assert line[0] != originalSep[0];
      }
    }
  }

  /** The counting quirk: with a two-grapheme separator, one occurrence is
      counted as two delimiters. */
  lemma MultiGraphemeSeparatorQuirk()
    ensures MatchCount("a;;b", ";;") == 1
    ensures DelimiterCount("a;;b", ";;") == 2
  {
  }

  /** Counting happens before substitution: after replacing a one-grapheme
      separator `c` by a different `d` that the line does not contain, the
      line holds no `c` any more and exactly as many `d` as it had `c`. */
  lemma {:induction false} CountSurvivesSubstitution(line: string, c: char, d: char)
    requires c != d && d !in line
    ensures DelimiterCount(Replace(line, [c], [d]), [c]) == 0
    ensures multiset(Replace(line, [c], [d]))[d] == DelimiterCount(line, [c])
    decreases |line|
  {
    if line != [] {
      CountSurvivesSubstitution(line[1..], c, d);
      var tail := Replace(line[1..], [c], [d]);
      assert line == [line[0]] + line[1..];
      if line[..1] == [c] {
        assert Replace(line, [c], [d]) == [d] + tail;
      } else {
        assert Replace(line, [c], [d]) == [line[0]] + tail;
      }
    }
  }
}
