/**
 * How `process` decides the output path: the case-insensitive test
 * `^.+\.pdf$` applied with `re.match`, the `.pdf` suffix added to a supplied
 * name that fails it, and the `edited_` prefix used when no name is supplied.
 */
module OutputName {
  import opened Wrappers

  predicate NoNewline(s: string)
  {
    forall i :: 0 <= i < |s| ==> s[i] != '\n'
  }

  /** `\.pdf` under IGNORECASE, starting at position k: a dot, then p, d, f in either case. */
  predicate PdfSuffixAt(s: string, k: nat)
    requires k + 4 <= |s|
  {
    s[k] == '.' && (s[k + 1] == 'p' || s[k + 1] == 'P') &&
    (s[k + 2] == 'd' || s[k + 2] == 'D') && (s[k + 3] == 'f' || s[k + 3] == 'F')
  }

  /** `$` without MULTILINE: the end of the string, or just before a final newline. */
  predicate EndAnchorAt(s: string, k: nat)
    requires k <= |s|
  {
    k == |s| || (k == |s| - 1 && s[k] == '\n')
  }

  /**
   * What `re.match('^.+\.pdf$', name, re.IGNORECASE)` accepts, read off the
   * pattern: `.+` takes k >= 1 characters, none a newline, then `\.pdf`, then `$`.
   */
  ghost predicate MatchesPdfPattern(name: string)
  {
    exists k :: 1 <= k && k + 4 <= |name| && NoNewline(name[..k]) && PdfSuffixAt(name, k) && EndAnchorAt(name, k + 4)
  }

  /** The name with one final newline dropped, the only place where `$` can match before the end. */
  function Trimmed(name: string): string
  {
    if name != [] && name[|name| - 1] == '\n' then name[..|name| - 1] else name
  }

  /** The test applied at pdfremover.py:39-40 and 43, computed without a search over k. */
  function IsPdfName(name: string): (b: bool)
    ensures b <==> MatchesPdfPattern(name)
  {
    var t := Trimmed(name);
    var ok := |t| >= 5 && NoNewline(t[..|t| - 4]) && PdfSuffixAt(t, |t| - 4);
    assert ok ==> MatchesPdfPattern(name) by {
      if ok {
        var k := |t| - 4;
        assert name[..k] == t[..k];
        assert PdfSuffixAt(name, k) && EndAnchorAt(name, k + 4);
      }
    }
    assert MatchesPdfPattern(name) ==> ok by {
      if MatchesPdfPattern(name) {
        var k :| 1 <= k && k + 4 <= |name| && NoNewline(name[..k]) && PdfSuffixAt(name, k) && EndAnchorAt(name, k + 4);
        assert |t| == k + 4;
        assert t[..k] == name[..k];
      }
    }
    ok
  }

  /** The console warnings `process` prints while it resolves the names, in order. */
  datatype Warning = InputNotPdf | OutputSuffixAdded | QpdfProblem

  /** Python's truthiness test `if args.output:` — None and the empty string are both false. */
  predicate Supplied(output: Option<string>)
  {
    output.Some? && output.value != ""
  }

  /** The value `args.output` holds after pdfremover.py:42-47. */
  function ResolvedOutput(file: string, output: Option<string>): (r: string)
    ensures Supplied(output) ==> |output.value| <= |r| <= |output.value| + 4 && r[..|output.value|] == output.value
    ensures Supplied(output) ==> (r == output.value <==> IsPdfName(output.value))
    ensures !Supplied(output) ==> r == "edited_" + file
  {
    if Supplied(output) then
      if IsPdfName(output.value) then output.value else output.value + ".pdf"
    else
      "edited_" + file
  }

  /** The warnings printed at pdfremover.py:41 and 44. */
  function NameWarnings(file: string, output: Option<string>): (w: seq<Warning>)
    ensures (InputNotPdf in w) <==> !IsPdfName(file)
    ensures (OutputSuffixAdded in w) <==> Supplied(output) && !IsPdfName(output.value)
    ensures QpdfProblem !in w
    ensures |w| <= 2
  {
    (if IsPdfName(file) then [] else [InputNotPdf]) +
    (if Supplied(output) && !IsPdfName(output.value) then [OutputSuffixAdded] else [])
  }

  /** With no output name (or an empty one) the result is exactly `edited_` + input: no test, no suffix. */
  lemma DefaultOutput(file: string, output: Option<string>)
    requires !Supplied(output)
    ensures ResolvedOutput(file, output) == "edited_" + file
    ensures OutputSuffixAdded !in NameWarnings(file, output)
  {
  }

  /** A supplied name that fails the test gets exactly one `.pdf`; one that passes is kept as is. */
  lemma SuppliedOutput(file: string, name: string)
    requires name != ""
    ensures !IsPdfName(name) ==> ResolvedOutput(file, Some(name)) == name + ".pdf"
    ensures IsPdfName(name) ==> ResolvedOutput(file, Some(name)) == name
  {
  }

  /** Appending `.pdf` to a non-empty name without newlines makes it pass the test. */
  lemma {:induction false} AppendedPasses(name: string)
    requires name != "" && NoNewline(name)
    ensures IsPdfName(name + ".pdf")
  {
    var s := name + ".pdf";
    assert s[|s| - 1] == 'f';
    assert Trimmed(s) == s;
    assert s[..|s| - 4] == name;
  }

  /** A supplied name without newlines always resolves to one the test accepts. */
  lemma {:induction false} SuppliedResolvesToPdf(file: string, name: string)
    requires name != "" && NoNewline(name)
    ensures IsPdfName(ResolvedOutput(file, Some(name)))
  {
    if !IsPdfName(name) {
      AppendedPasses(name);
    }
  }

  /** Resolving an already resolved supplied name changes nothing and prints no warning. */
  lemma {:induction false} ResolutionIdempotent(file: string, name: string)
    requires name != "" && NoNewline(name)
    ensures ResolvedOutput(file, Some(ResolvedOutput(file, Some(name)))) == ResolvedOutput(file, Some(name))
    ensures OutputSuffixAdded !in NameWarnings(file, Some(ResolvedOutput(file, Some(name))))
  {
    SuppliedResolvesToPdf(file, name);
  }

  /** `.pdf` alone fails the test (`.+` needs a character first), so it becomes `.pdf.pdf`. */
  lemma BarePdf(file: string)
    ensures !IsPdfName(".pdf")
    ensures ResolvedOutput(file, Some(".pdf")) == ".pdf.pdf"
  {
  }

  /** The test ignores case: `OUT.PDF` is kept as it is. */
  lemma UpperCaseKept(file: string)
    ensures IsPdfName("OUT.PDF")
    ensures ResolvedOutput(file, Some("OUT.PDF")) == "OUT.PDF"
  {
    assert Trimmed("OUT.PDF") == "OUT.PDF";
    assert "OUT.PDF"[..3] == "OUT";
  }

  /** `report.pdf` with no output name gives `edited_report.pdf`; output `result` gives `result.pdf` with a warning. */
  lemma NamingExamples()
    ensures ResolvedOutput("report.pdf", None) == "edited_report.pdf"
    ensures ResolvedOutput("report.pdf", Some("result")) == "result.pdf"
    ensures NameWarnings("report.pdf", Some("result")) == [OutputSuffixAdded]
  {
    assert Trimmed("report.pdf") == "report.pdf";
    assert "report.pdf"[..6] == "report";
    assert Trimmed("result") == "result";
  }

  /** A non-PDF input only warns; its default output keeps the non-PDF name. */
  lemma NonPdfInput()
    ensures NameWarnings("notes.txt", None) == [InputNotPdf]
    ensures ResolvedOutput("notes.txt", None) == "edited_notes.txt"
  {
    assert Trimmed("notes.txt") == "notes.txt";
  }

  /** `$` may match before one final newline, but `.` never matches a newline. */
  lemma NewlineEdges()
    ensures IsPdfName("a.pdf\n")
    ensures !IsPdfName("a\nb.pdf")
  {
    assert Trimmed("a.pdf\n") == "a.pdf";
    assert "a.pdf"[..1] == "a";
    assert Trimmed("a\nb.pdf") == "a\nb.pdf";
    assert "a\nb.pdf"[..3][1] == '\n';
  }
}
