# csvconv core in Dafny

csvconv rewrites the field delimiter of a delimiter-separated text file. It
reads the input line by line. Each line, with its terminator, is written to
`new.csv` with every occurrence of the original separator replaced by the new
one. A running byte counter, `size_seen`, drives a progress bar. With
`--check`, the first line's delimiter count becomes the reference, and every
later line is compared with it. The first mismatch stops the run with a
`CountError` that carries the header count, the line's count and the 1-based
line number.

The model:

- `text.dfy`, module `Text`, holds the standard-library behaviour the program
  relies on:
  - UTF-8 byte length (`str::len`), as `ByteLen`;
  - substring replacement (`str::replace`), as `Replace`, including the
    empty-pattern case;
  - the lines successive `read_line` calls yield on a file, as `Lines`;
  - lemmas: a replacement round trip, the byte length after replacement, and
    replacement splitting at line ends or around a one-character pattern.
- `csvconv.dfy`, module `Csvconv`, holds `src/main.rs`:
  - the enums `LineProcessingResult`, `FileError` and `CountError`;
  - `DelimiterCount` for `get_number_of_delimiters`;
  - the class `Converter`. Its fields are the input lines, the read position,
    the written lines and `sizeSeen`. Its methods are `ProcessLine`,
    `RunWithoutCheck` and `RunWithCheck`, the last two with the source's
    loops;
  - `Convert` for the first-line dispatch in `main`;
  - `Expected`, a reference semantics of a whole run, against which `Convert`
    is proved.
- `properties.dfy`, module `Properties`, holds lemmas about runs: the
  success if-and-only-if, the error report, checking only truncating the
  output, streaming against whole-file replacement, reversibility, byte
  counts, and the counting quirk.

The enums `LineProcessingResult` (src/main.rs:183-187), `FileError`
(src/main.rs:189-193) and the struct `CountError` (src/main.rs:207-212)
become the datatypes of the same names, with the same variants and fields,
except that `IoError` carries no `std::io::Error` payload and the
`CountError` fields are renamed to camelCase (`delimitersAtHeader`,
`delimitersAtLine`, `lineNumber`).
Datatypes carry no contract, so they have no row in the table below.

Each character (Unicode scalar value) is taken as one grapheme. Under that
reading, `main`'s requirement that `new_sep` be exactly one grapheme becomes
`|newSep| == 1`.

## Model

| member | source | states |
|---|---|---|
| `Text.Utf8Width` | src/main.rs:168 | a character's UTF-8 encoding takes 1 to 4 bytes, and exactly 1 for ASCII |
| `Text.ByteLen` | src/main.rs:168 | the byte length added to `size_seen` is the UTF-8 length: between 1 and 4 bytes per character |
| `Text.Lines` | src/main.rs:156-160 | the lines `read_line` yields are non-empty, every one but the last ends with a line feed, none holds a line feed before its end, and the input is empty exactly when there is no line (the first read reports 0 bytes) |
| `Text.LineLen` | src/main.rs:158 | one `read_line` takes at least one character, stops after the first line feed, and holds no line feed before its end |
| `Text.ConcatLines` | src/main.rs:156-160 | reading every line gives back the whole file |
| `Text.Replace` | src/main.rs:165-173 | `str::replace`, left to right without overlaps; replacing a separator by itself leaves the line unchanged |
| `Text.ReplaceEmpty` | src/main.rs:165 | `str::replace` with an empty pattern inserts the replacement before every character and at the end; an empty replacement leaves the line unchanged |
| `Text.ReplaceWithoutOccurrence` | src/main.rs:165 | a line in which the original separator does not occur is written unchanged, with no substitution |
| `Text.ReplaceByteLen` | src/main.rs:165-168 | for every original separator, the empty one included, the written line's byte length is the read line's plus, per substituted occurrence, the new separator's length minus the original's; the empty separator occurs at each of the line's character boundaries, one more than its length |
| `Text.ReplaceEmptyByteLen` | src/main.rs:173-176 | with an empty original separator, the written line's byte length is the read line's plus the new separator's once per character boundary |
| `Text.ReplaceRoundTrip` | src/main.rs:165 | replacing by a one-character separator absent from the text, then replacing that back, gives the text again |
| `Text.EmptyPatternRoundTrip` | src/main.rs:165 | with an empty original separator, removing the inserted one-character separator, absent from the text, gives the text again |
| `Text.SingleCharSplit` | src/main.rs:165 | replacing a one-character pattern in a concatenation is replacing it in each part: no occurrence straddles the two |
| `Text.ReplaceSplitAtLineEnd` | src/main.rs:165 | when the separator holds no line feed before its last character, replacing in a line that ends with a line feed and in the text after it gives the same as replacing in their concatenation |
| `Csvconv.Transformed` | src/main.rs:162-168 | the lines written are the lines read with the separator replaced; equal separators write every line unchanged |
| `Csvconv.DelimiterCount` | src/main.rs:140-145 | the count is the number of graphemes of the line equal to the last grapheme of the original separator (its multiplicity in the line), so at most the line's length |
| `Csvconv.FirstMismatch` | src/main.rs:120-134 | the index where the checked loop stops: every earlier line has the header count, and the line there, if any, does not |
| `Csvconv.Expected` | src/main.rs:40-138 | a successful run writes every line; only a checked run fails, and then with a count error whose line number, at least 2, is the number of lines written |
| `Csvconv.ExpectedUnchecked` | src/main.rs:40-97 | on an empty input, or without `--check`, a run succeeds and writes every line transformed |
| `Csvconv.ExpectedChecked` | src/main.rs:107-137 | in check mode, a run whose first mismatch after the header is at index k ends in success with all lines written, or in the error (header count, count of line k, line number k + 1) with lines 0..k written |
| `Csvconv.Converter.constructor` | src/main.rs:30-39 | the reader starts at the first line, nothing is written and `size_seen` is 0 |
| `Csvconv.Converter.ProcessLine` | src/main.rs:147-181 | at end of input: `EndOfFile` and nothing changes; otherwise the line is counted on its original text (check mode), the transformed line is appended in both branches, `sizeSeen` grows by its byte length and the read position advances by one |
| `Csvconv.Converter.RunWithoutCheck` | src/main.rs:73-97 | lines are processed in order until end of input; the output is every line transformed, in input order |
| `Csvconv.Converter.RunWithCheck` | src/main.rs:99-138 | succeeds if and only if every remaining line has `numberToCompare` delimiters; on the first mismatch it returns that line's count and its number (2 for the first line compared), after writing it and reading nothing further |
| `Csvconv.Convert` | src/main.rs:23-71 | the run on a file equals the reference semantics; `sizeSeen`, the last position given to the progress bar, equals the bytes written; empty input succeeds with nothing written; without `--check` the run succeeds with every line transformed |
| `Properties.CheckedSucceedsIff` | src/main.rs:51-61 | a checked run succeeds if and only if every line's count equals the first line's |
| `Properties.MismatchReport` | src/main.rs:121-128 | a count error holds the header count, the offending line's count (different from it) and its 1-based number, at least 2; all earlier lines agree with the header, and the output ends with the offending line |
| `Properties.CheckOnlyTruncates` | src/main.rs:162-180 | checking does not change the text written: a checked run writes a prefix of the unchecked output, all of it on success, and an unchecked run always succeeds |
| `Properties.StreamingMatchesWhole` | src/main.rs:156-168 | for a separator with no line feed before its last character, converting line by line writes the same bytes as one replacement over the whole file |
| `Properties.RoundTripLines` | src/main.rs:162-165 | replacing the one-character new separator back in the converted lines gives the lines again when it occurs in none of them |
| `Properties.ConversionReversible` | src/main.rs:26-28 | when the one-grapheme new separator does not occur in the input, replacing it back in the output of a successful run gives the input, for any original separator (the empty one included when not checking) |
| `Properties.SameWidthKeepsSize` | src/main.rs:176 | separators of equal byte length keep the total output size equal to the input size |
| `Properties.ProgressReachesTotal` | src/main.rs:32-34 | with separators of equal byte length, the final `size_seen` of a successful run equals the file's byte length, the progress bar total |
| `Properties.OccurrencesAtMostDelimiterCount` | src/main.rs:140-145 | the delimiter count is at least the number of separator occurrences substituted, and equal for a one-grapheme separator |
| `Properties.MultiGraphemeSeparatorQuirk` | src/main.rs:143 | with separator `;;`, the line `a;;b` has one occurrence but a delimiter count of 2 |
| `Properties.CountSurvivesSubstitution` | src/main.rs:162-165 | the count must be taken before substitution: replacing a one-grapheme separator by a different, absent one leaves no original delimiter, and as many new ones as were counted |

## Left out

- Command-line parsing (`Cli`, src/main.rs:13-24). Its three arguments and the flag are parameters of `Convert`.
- `Convert`: the panic when `new_sep` is not exactly one grapheme (src/main.rs:26-28) becomes the precondition `|newSep| == 1`.
- `Convert`, `DelimiterCount`: `last().unwrap()` on an empty original separator panics once a grapheme is compared (src/main.rs:143). It becomes a precondition: with `--check` and a non-empty input, the original separator is non-empty.
- Grapheme segmentation (src/main.rs:7, 142-143): each Unicode scalar value counts as one grapheme. Multi-codepoint clusters are not modelled. This includes "\r\n", which is a single grapheme under `unicode_segmentation`: with a separator of "\n" or "\r", a line ending in CRLF counts 0 for its terminator in the source and 1 in the model.
- File I/O: opening and creating files, `metadata().len()`, `BufReader`/`BufWriter` and the `?` propagation of I/O errors (src/main.rs:30-39, 166, 174). The input is its text, and the output is the sequence of lines written. `FileError.IoError` exists but no operation produces it.
- An invalid-UTF-8 read, where the `Err` of `read_line` is not matched at src/main.rs:158. The input is always valid text.
- The progress bar (src/main.rs:34, 169, 177). Only the value `size_seen` it is given is modelled.
- `Convert`: without `--check`, `main` passes `size_seen` by value (src/main.rs:66, 76), so its own variable keeps the first line's byte length. The `sizeSeen` that `Convert` returns is the counter the loop updated, which is the last position given to the progress bar; `main` never reads its copy again.
- Integer width: `size_seen` and `line_number` are `usize` in the source and `nat` here, so overflow is not modelled.
- `Display` of `CountError` and the `From` conversions (src/main.rs:195-224): string formatting and glue.
- Directory traversal and parallel processing are not in `src/main.rs` and are not part of this model.
