/**
 * `process` (pdfremover.py:37-66) in literal mode. The file system and the
 * qpdf run are parameters: whether the input file exists, whether qpdf exited
 * successfully, and the bytes read back from the output path afterwards
 * (None when that read fails).
 */
module PdfRemover {
  import opened Wrappers
  import opened Utf8
  import opened OutputName
  import opened Pattern
  import opened Removal

  /** The fields of the parsed command line that `process` reads, and the one it reassigns. */
  class Arguments {
    var file: string
    var output: Option<string>
    var strings: seq<string>

    constructor (file: string, output: Option<string>, strings: seq<string>)
      ensures this.file == file && this.output == output && this.strings == strings
    {
      this.file := file;
      this.output := output;
      this.strings := strings;
    }

    /** pdfremover.py:39-47: print the name warnings and settle `output` in place. */
    method ResolveOutput() returns (warnings: seq<Warning>)
      modifies this`output
      ensures output == Some(ResolvedOutput(file, old(output)))
      ensures warnings == NameWarnings(file, old(output))
    {
      warnings := [];
      if !IsPdfName(file) {
        warnings := warnings + [InputNotPdf];
      }
      if Supplied(output) {
        if !IsPdfName(output.value) {
          warnings := warnings + [OutputSuffixAdded];
          output := Some(output.value + ".pdf");
        }
      } else {
        output := Some("edited_" + file);
      }
    }
  }

  /** What the caller guarantees: at least one removal string, none of them empty. */
  predicate UsableStrings(strings: seq<string>)
  {
    strings != [] && forall i :: 0 <= i < |strings| ==> strings[i] != ""
  }

  /**
   * The alternatives of the compiled literal-mode pattern: the group built at
   * pdfremover.py:58 and 62, encoded at line 63, read back by the regex compiler.
   * They are the UTF-8 bytes of the removal strings, none of them empty.
   */
  function CompiledAlternatives(strings: seq<string>): (alts: seq<seq<Byte>>)
    requires UsableStrings(strings)
    ensures alts == EncodeAll(strings)
    ensures NonEmptyPatterns(alts)
  {
    LiteralPatternRoundTrip(strings);
    assert NonEmptyPatterns(EncodeAll(strings)) by {
      forall k | 0 <= k < |strings| ensures |EncodeAll(strings)[k]| > 0 {
      }
    }
    ParseGroup(Encode(LiteralPattern(strings))).value
  }

  /** What one call of `process` ends with. */
  datatype Outcome =
    | Skipped                                                          // the input file does not exist
    | ReadFailed(path: string, warnings: seq<Warning>)                 // reading the output path raised
    | Written(path: string, content: seq<Byte>, warnings: seq<Warning>) // the edited bytes written back

  /** The warnings of one run: the name warnings, then the one printed when qpdf fails. */
  function RunWarnings(file: string, output: Option<string>, qpdfSucceeded: bool): (w: seq<Warning>)
    ensures |w| >= |NameWarnings(file, output)| && w[..|NameWarnings(file, output)|] == NameWarnings(file, output)
    ensures (QpdfProblem in w) <==> !qpdfSucceeded
  {
    NameWarnings(file, output) + (if qpdfSucceeded then [] else [QpdfProblem])
  }

  /** `process(args)` in literal mode. */
  method Process(args: Arguments, inputExists: bool, qpdfSucceeded: bool, readBack: Option<seq<Byte>>)
    returns (outcome: Outcome)
    requires UsableStrings(args.strings)
    modifies args`output
    ensures !inputExists ==> outcome == Skipped && args.output == old(args.output)
    ensures inputExists ==> args.output == Some(ResolvedOutput(args.file, old(args.output)))
    ensures inputExists && readBack.None? ==>
      outcome == ReadFailed(ResolvedOutput(args.file, old(args.output)), RunWarnings(args.file, old(args.output), qpdfSucceeded))
    ensures inputExists && readBack.Some? ==>
      outcome == Written(ResolvedOutput(args.file, old(args.output)),
                         Remove(readBack.value, EncodeAll(args.strings)),
                         RunWarnings(args.file, old(args.output), qpdfSucceeded))
  {
    if !inputExists {
      return Skipped;
    }
    ghost var resolved := ResolvedOutput(args.file, args.output);
    ghost var runWarnings := RunWarnings(args.file, args.output, qpdfSucceeded);
    var warnings := args.ResolveOutput();
    if !qpdfSucceeded {
      warnings := warnings + [QpdfProblem];
    }
    assert warnings == runWarnings;
    var path := args.output.value;
    assert path == resolved;
    match readBack
    case None =>
      outcome := ReadFailed(path, warnings);
    case Some(content) =>
      var alternatives := CompiledAlternatives(args.strings);
      var edited := RemoveAll(content, alternatives);
      outcome := Written(path, edited, warnings);
  }

  /** The edited content is the input with leftmost-first occurrences of the strings' bytes deleted. */
  lemma {:induction false} ProcessDeletes(strings: seq<string>, content: seq<Byte>)
    requires UsableStrings(strings)
    ensures NonEmptyPatterns(EncodeAll(strings))
    ensures LeftmostFirst(content, EncodeAll(strings), Scan(content, EncodeAll(strings)))
    ensures Remove(content, EncodeAll(strings)) == KeptBytes(Scan(content, EncodeAll(strings)))
    ensures Remove(content, EncodeAll(strings)) == content <==> NoOccurrence(content, EncodeAll(strings))
  {
    var alts := CompiledAlternatives(strings);
    RemoveIsDeletion(content, alts);
    UnchangedIff(content, alts);
  }

  /** End to end, `a.b` is removed from a.b and leaves axb alone. */
  lemma LiteralDotEndToEnd()
    ensures CompiledAlternatives(["a.b"]) == [[0x61, 0x2E, 0x62]]
    ensures Remove(Encode("a.b"), CompiledAlternatives(["a.b"])) == []
    ensures Remove(Encode("axb"), CompiledAlternatives(["a.b"])) == Encode("axb")
  {
    DotIsLiteral();
    EncodeAscii3('a', '.', 'b');
    EncodeAscii3('a', 'x', 'b');
    DotMatchesOnlyDot();
  }
}
