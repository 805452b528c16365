# IosDiff section formatter in Dafny

IosDiff compares two Cisco IOS configurations and prints the result as a
unified listing. Every configuration section of the comparison result is
printed with a prefix that says which side it comes from:

- the remove prefix for a section only in the first configuration;
- the add prefix for a section only in the second configuration;
- the common prefix for a section in both.

The prefix is followed by one space of indentation per nesting level below
the top. The renderer that does this is `ConfigurationSectionFormating.Format`.
This project models it and proves what its output looks like.

The comparison itself is not modelled. The renderer's input is a sequence of
`Section` values in document order. Each holds:

- the section's text;
- its depth, with 1 for top level;
- its membership, the set of configurations it occurs in.

These stand for what `Descendants()` and `SectionMatch` deliver.

Files:

- `wrappers.dfy`: the `Option` and `Result` datatypes.
- `text_lines.dfy`: module `TextLines`. It defines the physical lines of a text as
  `StringReader.ReadLine` returns them: `\n`, `\r` and `\r\n` end a line; a
  final terminator adds no empty line; an empty text has no lines. It also
  defines the text `StringBuilder.AppendLine` produces for a sequence of
  lines. Three round trips are proved. Lines without terminators, once
  written, read back unchanged (`SplitJoin`). Any text at all, split, written
  and split again, gives the same lines (`SplitJoinSplit`). A text without
  `\r`, split and written, comes back with a final newline added if it
  lacked one (`JoinSplit`). A text with `\r` comes back with every `\r\n` and
  lone `\r` turned into `\n`, which is not stated as a lemma.
- `string_reader.dfy`: module `StringReading`, the `StringReader` class. Its
  cursor is a field that `ReadLine` advances.
- `formatting.dfy`: module `SectionFormatting`. It holds the method `Format`,
  with its loop over the sections and the inner `ReadLine` loop, and the
  functional specification `FormatSpec` it is proved equal to. It also holds
  the properties of that specification.

`Format` either returns a string or throws `ArgumentOutOfRangeException`.
The model returns `Result<string, FormatError>`. There are two ways to fail:

- `UnknownMembership`: the membership is none of the three known flag
  values. With two flags, the only such value is the empty set.
- `NegativeIndent`: the depth is below 1, so `new string(' ', Depth - 1)`
  gets a negative count. Depth is an unbounded integer here; the 32-bit
  wrap-around at `int.MinValue` is left out (see below). That constructor runs inside the loop body, so
  it throws only when the section's text has at least one line. The model
  therefore accepts any integer depth and fails only in that case. It does
  not require a depth of at least 1.

When a section fails, the whole call fails. The text already built is lost
with the exception, so the model then returns no text.

## Model

| member | source | states |
|---|---|---|
| SectionFormatting.Format | IosDiff/ConfigurationSectionFormating.cs:8-33 | The method, with its builder loop over the sections, returns exactly `FormatSpec`. With no sections the result is the closing marker alone. A successful result always ends with the closing marker. |
| SectionFormatting.AppendSectionLines | IosDiff/ConfigurationSectionFormating.cs:23-27 | The inner `ReadLine` loop for one section appends to the builder exactly the joined `SectionLines` of the section's text, each line behind the prefix and its indentation and followed by a newline. If the depth is below 1 and there is a line to indent, it fails with `NegativeIndent` instead. |
| SectionFormatting.LinePrefix | IosDiff/ConfigurationSectionFormating.cs:15-21 | Only-first selects the remove prefix, only-second the add prefix, both the common prefix. The result is "throws" exactly when the membership is empty. |
| SectionFormatting.MembershipCases | IosDiff/ConfigurationSectionFormating.cs:15-20 | A membership over the two configurations is one of exactly four values, so the discard arm catches the empty one only. |
| SectionFormatting.Spaces | IosDiff/ConfigurationSectionFormating.cs:27 | `new string(' ', n)` has length n and consists of spaces only. |
| SectionFormatting.OutputLine | IosDiff/ConfigurationSectionFormating.cs:27 | An interpolated output line is as long as the prefix, `depth - 1` and the line together. |
| SectionFormatting.OutputLineParts | IosDiff/ConfigurationSectionFormating.cs:27 | An output line begins with the prefix, then holds exactly `depth - 1` spaces, then ends with the unchanged physical line. |
| SectionFormatting.SectionLines | IosDiff/ConfigurationSectionFormating.cs:23-27 | For one section with a known prefix, it fails exactly when the text is non-empty and the depth is below 1. The error is `NegativeIndent`. Otherwise it yields one output line per physical line of the text, the j-th being the j-th physical line behind prefix and indentation. |
| SectionFormatting.RenderSection | IosDiff/ConfigurationSectionFormating.cs:14-27 | For one section, it fails exactly when the independent `SectionError` reports an error, and with that error. Otherwise it yields one output line per physical line, each behind the prefix the membership selects. |
| SectionFormatting.RenderAllStopsAtFailure | IosDiff/ConfigurationSectionFormating.cs:12-28 | Once the sections up to some point fail, the later sections cannot change the error. |
| SectionFormatting.RenderAllAppend | IosDiff/ConfigurationSectionFormating.cs:12-28 | Rendering is compositional. The output lines of `a + b` are those of `a` followed by those of `b`. An error in `a` takes precedence over one in `b`. |
| SectionFormatting.FormatFailsAtFirstBadSection | IosDiff/ConfigurationSectionFormating.cs:12-28 | `Format` succeeds exactly when no section has a `SectionError`. When it fails, the error is that of the first failing section, all earlier sections being fine. |
| SectionFormatting.RenderAllLineCount | IosDiff/ConfigurationSectionFormating.cs:23-27 | Every physical line of every section text becomes exactly one output line. |
| SectionFormatting.OutputLineNoBreak | IosDiff/ConfigurationSectionFormating.cs:26-27 | An output line contains no terminator when its prefix contains none. |
| SectionFormatting.RenderAllNoBreak | IosDiff/ConfigurationSectionFormating.cs:23-28 | With terminator-free prefixes, no rendered output line contains a terminator. |
| SectionFormatting.FormatReadsBack | IosDiff/ConfigurationSectionFormating.cs:26-32 | Assume the prefixes hold no terminators. Then reading the returned text back line by line gives the rendered output lines in order, followed by the lines of the closing marker. Their number is the total line count of the sections plus that of the marker. |
| SectionFormatting.LinePrefixSwapped | IosDiff/ConfigurationSectionFormating.cs:15-21 | Swapping the membership together with the add and remove prefixes selects the same prefix. |
| SectionFormatting.FormatSymmetric | IosDiff/ConfigurationSectionFormating.cs:15-32 | Rendering the comparison taken the other way round gives exactly the same result when the add and remove prefixes are exchanged, including the same error. |
| SectionFormatting.RenderAllSymmetric | IosDiff/ConfigurationSectionFormating.cs:12-28 | Swapping sides and prefixes gives the same output lines, or the same error. |
| StringReading.StringReader.constructor | IosDiff/ConfigurationSectionFormating.cs:23 | A fresh reader over a text will hand out exactly the physical lines of that text. |
| StringReading.StringReader.ReadLine | IosDiff/ConfigurationSectionFormating.cs:26 | Each call returns the next pending line and removes it from the pending lines. Once none is left, the call returns null (`None`) and stays exhausted. |
| TextLines.FindBreak | IosDiff/ConfigurationSectionFormating.cs:26 | The scan for the end of the current line returns a position at or after the start. That position is the end of the text or a `\r`/`\n`. |
| TextLines.FindBreakSpec | IosDiff/ConfigurationSectionFormating.cs:26 | No terminator lies between the start and the position the scan finds. |
| TextLines.FindBreakUnique | IosDiff/ConfigurationSectionFormating.cs:26 | Any terminator-free stretch ending at a terminator or at the end of the text is the one the scan finds. |
| TextLines.SkipBreak | IosDiff/ConfigurationSectionFormating.cs:26 | The next line starts one or two characters after the terminator. It is two exactly when the terminator is `\r\n`, so a lone `\r` or `\n` is consumed as one character. |
| TextLines.LinesFrom | IosDiff/ConfigurationSectionFormating.cs:26 | No lines are left exactly when the reader's position is at the end of the text. |
| TextLines.SplitLines | IosDiff/ConfigurationSectionFormating.cs:23-26 | A text has no lines exactly when it is empty. |
| TextLines.LinesFromNoBreak | IosDiff/ConfigurationSectionFormating.cs:26 | No line handed out from a position on contains a terminator. |
| TextLines.SplitLinesNoBreak | IosDiff/ConfigurationSectionFormating.cs:26 | No line `ReadLine` returns contains a terminator. |
| TextLines.JoinLines | IosDiff/ConfigurationSectionFormating.cs:27 | Text built by `AppendLine` calls ends with a newline whenever at least one line was appended. |
| TextLines.JoinLinesAppend | IosDiff/ConfigurationSectionFormating.cs:27 | Appending two batches of lines gives the concatenation of their texts. |
| TextLines.JoinLinesSnoc | IosDiff/ConfigurationSectionFormating.cs:27 | Appending one more line adds that line and a newline at the end. |
| TextLines.AppendLineTo | IosDiff/ConfigurationSectionFormating.cs:27 | The same holds behind any text already in the builder. |
| TextLines.SplitAfterLine | IosDiff/ConfigurationSectionFormating.cs:26-27 | A terminator-free line followed by one terminator reads back as that line, followed by the lines of what comes after. The terminator may be `\n`, `\r\n`, or a `\r` not followed by `\n`. |
| TextLines.SplitJoinedLines | IosDiff/ConfigurationSectionFormating.cs:26-30 | Text of `AppendLine`d terminator-free lines followed by any tail reads back as those lines, then the tail's lines. |
| TextLines.SplitJoin | IosDiff/ConfigurationSectionFormating.cs:26-27 | Reading back the text of `AppendLine`d terminator-free lines gives exactly those lines. |
| TextLines.SplitJoinSplit | IosDiff/ConfigurationSectionFormating.cs:23-27 | For any text, with any mix of `\r\n`, `\r` and `\n`: writing its lines with `AppendLine` and reading them back gives the same lines. |
| TextLines.JoinLinesFrom | IosDiff/ConfigurationSectionFormating.cs:26-27 | Take a text without `\r` and re-append its lines from a position on. The result is the rest of the text, plus a newline when the text did not already end in one. |
| TextLines.JoinSplit | IosDiff/ConfigurationSectionFormating.cs:26-27 | Re-emitting the lines of a text without `\r` gives the text back, with a final newline added if it lacked one. |

## Left out

- The comparison that produces the sections is not part of this model. That means the `Bitvantage.Cisco` parser, `Descendants()`, the `SectionMatch` dictionary and `Compare`. Its outcome is the input sequence of sections.
- The `KeyNotFoundException` of `SectionMatch[section]` for a section missing from the dictionary is not modelled. The input pairs every section with its membership.
- A null `section.Line` makes `StringReader` throw `ArgumentNullException`. This is not modelled, since a section's text is a string.
- TextLines.JoinSplit: covers only texts without `\r`. For other texts the model proves only the line-level round trip `SplitJoinSplit`, not the character-level result in which `\r\n` and a lone `\r` become `\n`.
- `Environment.NewLine` is fixed to `"\n"`. On platforms where it is `"\r\n"` the output differs, and `JoinSplit` would need restating.
- `StringBuilder` is modelled as an immutable string that the loop reassigns. Capacity, chunking and `ToString` copying are left out.
- `StringReading.StringReader` models only the constructor and `ReadLine` that `Format` uses. `Peek`, `Read`, `ReadToEnd`, disposal and the exception after disposal are left out.
- SectionFormatting.Format: on failure the model returns the error without the partly built text, since the exception discards it.
- The callers in `Runner.cs` are out of scope, and so is the command line in `Program.cs`. This covers which prefix strings and ANSI colour codes are passed, and file I/O. `FormatSymmetric` covers the property that the "unique to first" view relies on when it exchanges the add and remove prefixes.
- Strings are sequences of Dafny `char`, which are Unicode scalar values, not the UTF-16 code units of a C# `string`. A C# string holding a lone surrogate cannot be represented. Lengths such as the one `OutputLine` states count scalar values, not `string.Length`. No normalisation or culture handling takes place in the source either.
- The section depth is an unbounded integer, not C#'s 32-bit `int`. `Depth - 1` is unchecked in the source, so at `int.MinValue` it wraps to `int.MaxValue`, and `new string` then throws `OutOfMemoryException` instead of the negative-count error. A very large depth, or output beyond the capacity of `StringBuilder`, throws likewise. The model succeeds in all these cases.
