/**
 * Upload validation and page-text assembly of the PDF service.
 *
 * The PDF library is not modelled: what it makes of the uploaded bytes is an
 * input, either a parse failure or the per-page results of `extract_text()`.
 */
module PdfService {
  import opened Wrappers
  import opened Text
  import opened Errors

  const Mebibyte: nat := 1024 * 1024
  const PdfFailurePrefix := "Failed to process PDF: "

  // ---------------------------------------------------------------- validate_file

  /** The file name ends in ".pdf" in any mix of letter case. */
  predicate PdfNamed(filename: string)
  {
    var n := |filename|;
    && n >= 4
    && filename[n - 4] == '.'
    && filename[n - 3] in {'p', 'P'}
    && filename[n - 2] in {'d', 'D'}
    && filename[n - 1] in {'f', 'F'}
  }

  /** `filename.lower().endswith('.pdf')`. */
  predicate HasPdfExtension(filename: string)
  {
    EndsWith(Lower(filename), ".pdf")
  }

  /** What follows the last '.' of `s` (`s.split('.')[-1]`). */
  function AfterLastDot(s: string): (r: string)
    ensures EndsWith(s, r)
    ensures '.' !in r
    ensures |r| < |s| ==> s[|s| - |r| - 1] == '.'
  {
    if s == [] || s[|s| - 1] == '.' then []
    else
      var r := AfterLastDot(s[..|s| - 1]);
      assert s[..|s| - 1][|s| - 1 - |r|..] == s[|s| - 1 - |r|..|s| - 1];
      r + [s[|s| - 1]]
  }

  /** The type reported for a rejected file: its extension, or "unknown" when it has none. */
  function ExtensionLabel(filename: string): (r: string)
    ensures '.' in filename ==> EndsWith(filename, "." + r) && '.' !in r
    ensures '.' !in filename ==> r == "unknown"
  {
    if '.' in filename then
      var r := AfterLastDot(filename);
      assert |r| < |filename|;
      assert filename[|filename| - |r| - 1..] == "." + r;
      r
    else "unknown"
  }

  /**
   * `validate_file`: the checks run in a fixed order (type, then upper size
   * bound, then emptiness) and the first that fails is reported.
   */
  function ValidateFile(filename: string, fileSize: nat, maxSizeMb: int): (r: Outcome<Reason>)
    ensures r.Fail? && r.error.InvalidFileType? <==> !PdfNamed(filename)
    ensures r.Fail? && r.error.InvalidFileType? ==> r.error.got == ExtensionLabel(filename)
    ensures r == Fail(FileTooLarge(maxSizeMb, fileSize)) <==>
              PdfNamed(filename) && fileSize > maxSizeMb * Mebibyte
    ensures r == Fail(EmptyFile) <==>
              PdfNamed(filename) && fileSize <= maxSizeMb * Mebibyte && fileSize == 0
    ensures r == Pass <==> PdfNamed(filename) && 0 < fileSize <= maxSizeMb * Mebibyte
  {
    PdfExtensionCaseInsensitive(filename);
    if !HasPdfExtension(filename) then Fail(InvalidFileType(ExtensionLabel(filename)))
    else if fileSize > maxSizeMb * 1024 * 1024 then Fail(FileTooLarge(maxSizeMb, fileSize))
    else if fileSize == 0 then Fail(EmptyFile)
    else Pass
  }

  /** Lower-casing and then testing the suffix is a case-insensitive test of the last four characters. */
  lemma PdfExtensionCaseInsensitive(filename: string)
    ensures HasPdfExtension(filename) <==> PdfNamed(filename)
  {
    var low := Lower(filename);
    var n := |filename|;
    if HasPdfExtension(filename) {
      assert low[n - 4..][0] == low[n - 4] == '.';
      assert low[n - 4..][1] == low[n - 3] == 'p';
      assert low[n - 4..][2] == low[n - 2] == 'd';
      assert low[n - 4..][3] == low[n - 1] == 'f';
    }
    if PdfNamed(filename) {
      assert low[n - 4..] == ".pdf";
    }
  }

  // ---------------------------------------------------------------- extract_text

  /** A failure raised inside the PDF library; `valueError` says whether it is a `ValueError`. */
  datatype LibraryFault = LibraryFault(valueError: bool, message: string)

  /** What one page's `extract_text()` gave. */
  datatype PageText = Text(text: string) | Unextractable(fault: LibraryFault)

  /** What `PdfReader` made of the uploaded bytes. */
  datatype PdfReading = Unparsable(fault: LibraryFault) | Parsed(pages: seq<PageText>)

  /**
   * How `extract_text` re-raises a library failure: a `ValueError` passes
   * through unchanged, anything else is wrapped with a fixed prefix.
   */
  function Escalate(fault: LibraryFault): (f: Failure)
    ensures f.Invalid? <==> fault.valueError
    ensures fault.valueError ==> f == Invalid(LibraryValueError(fault.message))
    ensures f.Fault? ==> f.message == PdfFailurePrefix + fault.message
  {
    if fault.valueError then Invalid(LibraryValueError(fault.message))
    else Fault(PdfFailurePrefix + fault.message)
  }

  /** The marker written before the text of page `number` (1-based). */
  function PageMarker(number: nat): string
  {
    "\n--- Page " + Decimal(number) + " ---\n"
  }

  /** What page `index` (0-based) contributes: nothing if its text is empty, else marker and text. */
  function Section(index: nat, text: string): string
  {
    if text == [] then [] else PageMarker(index + 1) + text
  }

  /** The first `n` pages were all extracted. */
  predicate ExtractedUpTo(pages: seq<PageText>, n: nat)
  {
    n <= |pages| && forall j :: 0 <= j < n ==> pages[j].Text?
  }

  /** The accumulated text after the loop has visited the first `n` pages, in order. */
  function Joined(pages: seq<PageText>, n: nat): string
    requires ExtractedUpTo(pages, n)
  {
    if n == 0 then [] else Joined(pages, n - 1) + Section(n - 1, pages[n - 1].text)
  }

  /** The index of the first page at or after `from` whose extraction failed, or the page count if none did. */
  function FirstUnextractableFrom(pages: seq<PageText>, from: nat): (k: nat)
    requires from <= |pages|
    ensures from <= k <= |pages|
    ensures forall j :: from <= j < k ==> pages[j].Text?
    ensures k < |pages| ==> pages[k].Unextractable?
    decreases |pages| - from
  {
    if from == |pages| || pages[from].Unextractable? then from
    else FirstUnextractableFrom(pages, from + 1)
  }

  /** The index of the first page whose extraction failed, or the page count if none did. */
  function FirstUnextractable(pages: seq<PageText>): (k: nat)
    ensures k <= |pages| && ExtractedUpTo(pages, k)
    ensures k < |pages| ==> pages[k].Unextractable?
  {
    FirstUnextractableFrom(pages, 0)
  }

  /** The result `extract_text` returns or raises for a given reading of the file. */
  function ExtractOutcome(reading: PdfReading): Result<(string, nat), Failure>
  {
    match reading
    case Unparsable(fault) => Failure(Escalate(fault))
    case Parsed(pages) =>
      if |pages| == 0 then Failure(Invalid(NoPages))
      else
        var k := FirstUnextractable(pages);
        if k < |pages| then Failure(Escalate(pages[k].fault))
        else
          var text := Strip(Joined(pages, |pages|));
          if text == [] then Failure(Invalid(NoExtractableText))
          else Success((text, |pages|))
  }

  /**
   * `extract_text`: walks the pages in order, appending a numbered marker and
   * the text of every page whose text is non-empty, then strips the result.
   */
  method ExtractText(reading: PdfReading) returns (r: Result<(string, nat), Failure>)
    ensures r == ExtractOutcome(reading)
  {
    if reading.Unparsable? {
      return Failure(Escalate(reading.fault));
    }
    var pages := reading.pages;
    assert reading == Parsed(pages);
    var pageCount := |pages|;
    if pageCount == 0 {
      return Failure(Invalid(NoPages));
    }
    var extracted, stoppedAt := CollectPageTexts(pages);
    if stoppedAt < pageCount {
      return Failure(Escalate(pages[stoppedAt].fault));
    }
    var text := Strip(extracted);
    if text == [] {
      return Failure(Invalid(NoExtractableText));
    }
    return Success((text, pageCount));
  }

  /**
   * The loop of `extract_text`. It stops at the first page whose extraction
   * fails (the exception leaves the loop); otherwise `stoppedAt` is the page
   * count and `extracted` holds every page's section in order.
   */
  method CollectPageTexts(pages: seq<PageText>) returns (extracted: string, stoppedAt: nat)
    ensures stoppedAt == FirstUnextractable(pages)
    ensures stoppedAt == |pages| ==> extracted == Joined(pages, |pages|)
  {
    extracted := "";
    var i := 0;
    while i < |pages|
      invariant ExtractedUpTo(pages, i)
      invariant extracted == Joined(pages, i)
    {
      var page := pages[i];
      if page.Unextractable? {
        FirstUnextractableAt(pages, i);
        return extracted, i;
      }
      extracted := AppendPage(extracted, i, page.text);
      JoinedStep(pages, i);
      i := i + 1;
    }
    FirstUnextractableAt(pages, i);
    return extracted, i;
  }

  /**
   * The body of the loop for an extracted page: a page with non-empty text
   * adds its marker and then its text; an empty page adds nothing.
   */
  method AppendPage(extracted: string, index: nat, pageText: string) returns (result: string)
    ensures result == extracted + Section(index, pageText)
  {
    result := extracted;
    if pageText != [] {
      result := result + PageMarker(index + 1);
      result := result + pageText;
    }
  }

  /** Visiting one more extracted page appends that page's section. */
  lemma JoinedStep(pages: seq<PageText>, i: nat)
    requires ExtractedUpTo(pages, i) && i < |pages| && pages[i].Text?
    ensures ExtractedUpTo(pages, i + 1)
    ensures Joined(pages, i + 1) == Joined(pages, i) + Section(i, pages[i].text)
  {
  }

  /** A page index preceded only by extracted pages, and itself failed or past the end, is the first failure. */
  lemma FirstUnextractableAt(pages: seq<PageText>, i: nat)
    requires ExtractedUpTo(pages, i)
    requires i < |pages| ==> pages[i].Unextractable?
    ensures FirstUnextractable(pages) == i
  {
  }

  // ---------------------------------------------------------------- properties of the assembly

  /** A marker always contains visible characters, so a page section is blank only when it is empty. */
  lemma SectionBlank(index: nat, text: string)
    ensures IsBlank(Section(index, text)) <==> text == []
  {
    if text != [] {
      assert Section(index, text)[1] == '-';
      assert !IsSpace(Section(index, text)[1]);
    }
  }

  /** The joined text is blank exactly when every page's text is empty; whitespace-only pages still count. */
  lemma {:induction false} JoinedBlank(pages: seq<PageText>, n: nat)
    requires ExtractedUpTo(pages, n)
    ensures IsBlank(Joined(pages, n)) <==> forall j :: 0 <= j < n ==> pages[j].text == []
  {
    if n > 0 {
      var last := pages[n - 1].text;
      var before := Joined(pages, n - 1);
      var section := Section(n - 1, last);
      JoinedStep(pages, n - 1);
      JoinedBlank(pages, n - 1);
      BlankConcat(before, section);
      SectionBlank(n - 1, last);
      assert (forall j :: 0 <= j < n ==> pages[j].text == []) <==>
             (forall j :: 0 <= j < n - 1 ==> pages[j].text == []) && last == [];
    }
  }

  /** The text gathered after `m` pages is a prefix of the text gathered after `n >= m` pages. */
  lemma {:induction false} JoinedPrefix(pages: seq<PageText>, m: nat, n: nat)
    requires m <= n && ExtractedUpTo(pages, n)
    ensures Joined(pages, m) <= Joined(pages, n)
    decreases n
  {
    if m < n {
      JoinedPrefix(pages, m, n - 1);
      PrefixOfAppend(Joined(pages, m), Joined(pages, n - 1), Section(n - 1, pages[n - 1].text));
    }
  }

  lemma PrefixOfAppend(a: string, b: string, c: string)
    requires a <= b
    ensures a <= b + c
  {
    assert (b + c)[..|a|] == b[..|a|];
  }

  lemma SliceAfterPrefix(a: string, b: string, whole: string)
    requires a + b <= whole
    ensures OccursAt(whole, b, |a|)
  {
    assert whole[..|a| + |b|] == a + b;
    assert whole[|a|..|a| + |b|] == (a + b)[|a|..];
  }

  /**
   * Every page with non-empty text appears in the joined text as its
   * 1-based marker followed by its text, right after the sections of the
   * pages before it.
   */
  lemma PageSectionAt(pages: seq<PageText>, k: nat)
    requires ExtractedUpTo(pages, |pages|) && k < |pages| && pages[k].text != []
    ensures OccursAt(Joined(pages, |pages|), PageMarker(k + 1) + pages[k].text, |Joined(pages, k)|)
  {
    var before := Joined(pages, k);
    var section := Section(k, pages[k].text);
    JoinedStep(pages, k);
    JoinedPrefix(pages, k + 1, |pages|);
    SliceAfterPrefix(before, section, Joined(pages, |pages|));
    assert section == PageMarker(k + 1) + pages[k].text;
  }

  /**
   * `extract_text` succeeds exactly when the reading has at least one page,
   * every page was extracted and some page has non-empty text; it then
   * returns non-empty stripped text and the full page count.
   */
  lemma ExtractSucceeds(reading: PdfReading)
    ensures ExtractOutcome(reading).Success? <==>
              && reading.Parsed? && |reading.pages| > 0
              && ExtractedUpTo(reading.pages, |reading.pages|)
              && (exists j :: 0 <= j < |reading.pages| && reading.pages[j].text != [])
    ensures ExtractOutcome(reading).Success? ==>
              var (text, pageCount) := ExtractOutcome(reading).value;
              && text == Strip(Joined(reading.pages, |reading.pages|))
              && text != [] && !IsSpace(text[0]) && !IsSpace(text[|text| - 1])
              && pageCount == |reading.pages| >= 1
  {
    if reading.Parsed? && ExtractedUpTo(reading.pages, |reading.pages|) {
      FirstUnextractableAt(reading.pages, |reading.pages|);
      JoinedBlank(reading.pages, |reading.pages|);
    }
  }

  /**
   * The "could not extract text" error is raised exactly when every page was
   * extracted and every page's text is empty.
   */
  lemma NoExtractableTextIff(pages: seq<PageText>)
    requires |pages| > 0
    ensures ExtractOutcome(Parsed(pages)) == Failure(Invalid(NoExtractableText)) <==>
              forall j :: 0 <= j < |pages| ==> pages[j] == Text([])
  {
    if ExtractedUpTo(pages, |pages|) {
      FirstUnextractableAt(pages, |pages|);
      JoinedBlank(pages, |pages|);
    }
  }

  /** A reading with no pages is rejected, and nothing else is rejected for that reason. */
  lemma NoPagesIff(reading: PdfReading)
    ensures ExtractOutcome(reading) == Failure(Invalid(NoPages)) <==>
              reading.Parsed? && reading.pages == []
  {
  }

  /** Library failures other than `ValueError` surface as wrapped faults, never as validation errors. */
  lemma FaultsComeFromTheLibrary(reading: PdfReading)
    ensures ExtractOutcome(reading).Failure? && ExtractOutcome(reading).error.Fault? ==>
              exists fault: LibraryFault :: && !fault.valueError
                              && ExtractOutcome(reading).error.message == PdfFailurePrefix + fault.message
                              && (reading == Unparsable(fault) ||
                                  (reading.Parsed? && Unextractable(fault) in reading.pages))
  {
    if ExtractOutcome(reading).Failure? && ExtractOutcome(reading).error.Fault? {
      if reading.Parsed? {
        var k := FirstUnextractable(reading.pages);
        assert reading.pages[k] == Unextractable(reading.pages[k].fault);
      }
    }
  }
}
