# pdfremover — a Dafny model of `process`

`pdfremover.py` takes a PDF, runs `qpdf --qdf --object-streams=disable` on it
to get an uncompressed copy, and deletes a list of strings from the raw bytes of
that copy. This project models the two pieces of logic in `process`:

- **Output-name resolution** (module `OutputName`, class `PdfRemover.Arguments`).
  This covers the case-insensitive `re.match('^.+\.pdf$', ...)` test, modelled
  exactly. `.` never matches a newline, and `$` also matches just before one
  final newline. A supplied output name that fails the test gets `.pdf`
  appended. When no output name is given, the output is `edited_` + the input.
  Python's `if args.output:` is a truthiness test, so an empty output name counts
  as no output name.
- **Literal-mode removal**. Each removal string goes through `re.escape`. The
  escaped strings are joined into `(s1|...|sn)` (module `Pattern`). The pattern
  is encoded as UTF-8 (module `Utf8`). Then `re.sub(pattern, b'', content)`
  runs over the file's bytes (module `Removal`).

  A small parser reads the encoded pattern back the way the regex compiler does
  for literal syntax. The round-trip proof (`Pattern.LiteralPatternRoundTrip`)
  shows that the compiled group is exactly the list of each string's UTF-8
  bytes, in order. Special characters therefore match only themselves.

  The substitution is the recursive function `Removal.Remove`. At each position
  it tries the alternatives in the order listed and deletes the first one that
  matches. It then resumes right after that match. Where nothing matches, it
  keeps one byte and moves on by one. `Removal.LeftmostFirst` describes the
  same scan without recursion, as a sequence of kept bytes and deleted
  occurrences, and that description is proved to have exactly one solution.
  `Removal.RemoveAll` is the same scan written as a loop.

`PdfRemover.Process` puts these together. The file system and the `qpdf` run
come in as parameters: whether the input exists, whether `qpdf` succeeded, and
the bytes read back from the output path (`None` when the read fails). The
result is an `Outcome`: skipped, read failed, or the path and bytes written,
together with the console warnings in the order they are printed.

Two things the code does differ from what one might expect; the model follows
the code. One might expect a second run of the substitution to change nothing
and no occurrence of a removal string to be left. Neither holds: a
deletion can join two halves into a new occurrence (`Removal.NotIdempotent`).
Also, when the input name has a directory part, the default output
(`edited_dir/in.pdf`) puts the prefix in front of the directory, not the file
name. The model keeps that, as `OutputName.DefaultOutput` states.

## Model

| member | source | states |
|---|---|---|
| `Utf8.EncodeChar` | pdfremover.py:63 | each character takes 1 to 4 bytes; ASCII is encoded as itself, and every byte of a non-ASCII character is at least 0x80 |
| `Utf8.EncodeCharRoundTrip` | pdfremover.py:63 | decoding the bytes of a character gives its code point back |
| `Utf8.EncodeConcat` | pdfremover.py:62-63 | encoding the joined pattern equals joining the encodings of its parts |
| `Utf8.Encode` | pdfremover.py:63 | `str.encode()` of a whole string: every character takes one to four bytes, so the encoding is at least as long as the string and at most four times as long; in particular a non-empty string encodes to non-empty bytes |
| `Utf8.EncodeAscii` | pdfremover.py:63 | an ASCII string encodes byte for byte as its code points |
| `OutputName.IsPdfName` | pdfremover.py:39-40 | the computed test holds exactly when `^.+\.pdf$` matches under IGNORECASE (both directions): some k >= 1 newline-free characters, then `.pdf` in any case, then the end or one final newline |
| `OutputName.ResolvedOutput` | pdfremover.py:42-47 | the value `args.output` ends with: a supplied name is kept as a prefix, gains at most four characters, and is changed exactly when it fails the test; with no name (or an empty one) it is `edited_` + input |
| `OutputName.NameWarnings` | pdfremover.py:40-44 | the input warning is printed exactly when the input fails the test; the suffix warning exactly when an output name was supplied and fails it |
| `OutputName.DefaultOutput` | pdfremover.py:42-47 | with no output name (or an empty one) the output is exactly `edited_` + input, with no test and no suffix |
| `OutputName.SuppliedOutput` | pdfremover.py:42-45 | a supplied name that fails the test gets exactly one `.pdf` appended; one that passes is unchanged |
| `OutputName.AppendedPasses` | pdfremover.py:39-45 | a non-empty, newline-free name with `.pdf` appended passes the test |
| `OutputName.SuppliedResolvesToPdf` | pdfremover.py:39-45 | a supplied newline-free name always resolves to one that passes the test |
| `OutputName.ResolutionIdempotent` | pdfremover.py:39-45 | resolving a resolved supplied name again changes nothing and warns about nothing |
| `OutputName.BarePdf` | pdfremover.py:39-45 | `.pdf` alone fails the test because `.+` needs a character first, so it resolves to `.pdf.pdf` |
| `OutputName.UpperCaseKept` | pdfremover.py:39-43 | the test ignores case: `OUT.PDF` is kept unchanged |
| `OutputName.NamingExamples` | pdfremover.py:42-47 | `report.pdf` with no output gives `edited_report.pdf`; output `result` gives `result.pdf` with the suffix warning |
| `OutputName.NonPdfInput` | pdfremover.py:40-47 | a non-PDF input only warns, and its default output keeps the non-PDF name |
| `OutputName.NewlineEdges` | pdfremover.py:39 | `$` matches before a final newline (`a.pdf\n` passes); `.` does not match a newline (`a\nb.pdf` fails) |
| `Pattern.Escape` | pdfremover.py:58 | `re.escape` never shortens a string, and leaves it unchanged exactly when it holds no character that `re.escape` escapes (both directions) |
| `Pattern.EscapeAll` | pdfremover.py:58 | `map(re.escape, strings)` keeps the number and order of the strings and escapes each one |
| `Pattern.Join` | pdfremover.py:62 | `'\|'.join` of a non-empty list is as long as the parts together plus one separator between each two, and starts with the first part |
| `Pattern.LiteralPattern` | pdfremover.py:58-62 | the literal-mode pattern starts with `(`, ends with `)`, and is at least as long as the strings together plus the separators and the two parentheses |
| `Pattern.UnescapedPattern` | pdfremover.py:58-62 | strings with no character `re.escape` escapes enter the pattern unchanged: it is `(` + `'\|'.join(strings)` + `)` |
| `Pattern.ParseLiteral` | pdfremover.py:63 | reading one literal alternative leaves no more than the pattern it started from, and stops only at an unescaped `\|`, an unescaped `)`, or the end |
| `Pattern.ParseLiteralSplits` | pdfremover.py:63 | reading one literal alternative consumes a prefix of the pattern: what is left is a suffix, and the literal bytes are no more than the bytes consumed |
| `Pattern.ParseAlternatives` | pdfremover.py:62-63 | reading `a1\|...\|an)` gives at least one alternative; the pattern then ends in `)`, and the alternatives with their separators fit in it |
| `Pattern.ParseGroup` | pdfremover.py:62-63 | a compiled group `(a1\|...\|an)` starts with `(` and ends with `)`, and holds at least one alternative, all of which with their separators fit between the parentheses |
| `Pattern.ParseEscaped` | pdfremover.py:58-63 | the encoded `re.escape` of a string reads back as the string's own bytes, up to the next `\|` or `)` |
| `Pattern.ParseJoined` | pdfremover.py:58-63 | the encoded `'\|'.join` of the escaped strings, followed by `)`, reads back as the list of the strings' bytes |
| `Pattern.LiteralPatternRoundTrip` | pdfremover.py:58-63 | the encoded literal-mode group `(s1\|...\|sn)` compiles to exactly the strings' UTF-8 bytes, in the order given |
| `Pattern.DotIsLiteral` | pdfremover.py:58-62 | the pattern for `a.b` is `(a\.b)` and stands for the three bytes a, dot, b |
| `Removal.FirstMatch` | pdfremover.py:62-63 | the alternative taken at a position is one of the listed alternatives, and it matches there |
| `Removal.FirstMatchIsFirst` | pdfremover.py:62-63 | no alternative listed before the one taken matches at that position, and no alternative is taken exactly when none matches (both directions) |
| `Removal.Remove` | pdfremover.py:63 | the substitution never makes the content longer |
| `Removal.SourceLength` | pdfremover.py:63 | the length of the input a scan covers is the number of kept bytes plus the total length of the deleted occurrences |
| `Removal.LeftmostFirstTail` | pdfremover.py:63 | a leftmost-first reading starts with the engine's decision at position 0 and goes on with a leftmost-first reading of the rest |
| `Removal.LeftmostFirstPrepend` | pdfremover.py:63 | the engine's decision at position 0, followed by a leftmost-first reading of the rest, is a leftmost-first reading |
| `Removal.ScanIsLeftmostFirst` | pdfremover.py:63 | the engine's scan is a leftmost-first, non-overlapping reading of the content |
| `Removal.LeftmostFirstUnique` | pdfremover.py:63 | any leftmost-first reading of the content is the engine's scan |
| `Removal.ScanKeeps` | pdfremover.py:63 | the bytes the scan keeps are the substitution's result |
| `Removal.RemoveIsDeletion` | pdfremover.py:62-63 | the result is the input with non-overlapping leftmost-first occurrences deleted, kept bytes in order, and shorter by exactly the deleted length |
| `Removal.LeftmostFirstKeeps` | pdfremover.py:63 | every leftmost-first reading of the content keeps exactly the bytes of the result |
| `Removal.RemoveAtLeftmost` | pdfremover.py:62-63 | at the leftmost position where some string occurs, the first listed one that matches there is deleted and the scan resumes after it; everything before is kept |
| `Removal.NoOccurrenceUnchanged` | pdfremover.py:62-63 | if no removal string occurs anywhere, the result equals the input byte for byte |
| `Removal.OccurrenceShortens` | pdfremover.py:63 | an occurrence anywhere makes the result strictly shorter |
| `Removal.UnchangedIff` | pdfremover.py:62-63 | the content is unchanged exactly when no removal string occurs in it (both directions) |
| `Removal.FirstListedWins` | pdfremover.py:58-63 | `["ab","abc"]` on `abc` gives `c`; `["abc","ab"]` gives nothing |
| `Removal.ResumesAfterMatch` | pdfremover.py:63 | `["aa"]` on `aaa` gives `a`: matches do not overlap |
| `Removal.NotIdempotent` | pdfremover.py:63 | `["ab"]` on `aabb` gives `ab`, and a second pass gives nothing, so the substitution is not idempotent |
| `Removal.DotMatchesOnlyDot` | pdfremover.py:58-63 | the escaped alternative `a.b` removes `a.b` and leaves `axb` unchanged |
| `Removal.RemoveAll` | pdfremover.py:63 | the one-pass left-to-right loop computes exactly the substitution |
| `PdfRemover.Arguments.ResolveOutput` | pdfremover.py:39-47 | `output` is replaced by the resolved name, and the warnings are the name warnings in printed order |
| `PdfRemover.CompiledAlternatives` | pdfremover.py:57-63 | the compiled literal-mode pattern stands for the strings' UTF-8 bytes, none of them empty |
| `PdfRemover.RunWarnings` | pdfremover.py:40-52 | a run prints the name warnings first, and prints the qpdf warning exactly when qpdf failed |
| `PdfRemover.Process` | pdfremover.py:37-66 | a missing input changes nothing; otherwise `output` is resolved in place, and the run either reports the failed read or writes the substitution of the read-back bytes to the resolved path, with the run's warnings |
| `PdfRemover.ProcessDeletes` | pdfremover.py:57-63 | the written bytes are the read-back bytes with the leftmost-first occurrences of the strings' bytes deleted, and they are unchanged exactly when no string occurs |
| `PdfRemover.LiteralDotEndToEnd` | pdfremover.py:58-63 | end to end, the removal string `a.b` compiles to the bytes a, dot, b; it removes `a.b` and leaves `axb` unchanged |

## Left out

- The `qpdf` run (pdfremover.py:49-52): it is an external program. The model takes only whether it succeeded, which decides the warning. The command line built with `shlex.split` is not modelled.
- File I/O (pdfremover.py:38, 54-55, 65-66): `os.path.isfile`, the read and the write are parameters and the `Outcome` of `Process`. A read that raises is the `ReadFailed` outcome; the write always succeeds in the model.
- The command-line front end (pdfremover.py:17-34, 69-86): `argparse`, `usage`, the `shutil.which('qpdf')` check and the `__main__` dispatch. Console output is modelled only as the list of warnings.
- Raw-regex mode (`-r`, pdfremover.py:59-60): it hands arbitrary patterns to Python's regex engine. The model covers literal mode only, and `PdfRemover.Arguments` has no `regex` field.
- Empty removal strings and an empty list: `Process` requires at least one string and no empty ones. `main` calls `process` only when the list is non-empty (pdfremover.py:81). Empty matches follow engine-specific rules in `re.sub`.
- Lone surrogates in Python strings (where `str.encode` raises): Dafny characters are Unicode scalar values.
- `re.escape` is modelled with the set of characters it escapes since Python 3.7. Earlier versions escape every non-alphanumeric character; the compiled pattern means the same either way.
- The regex parser in `Pattern` covers only the literal part of the syntax that `re.escape` produces. It returns `None` for anything else.
