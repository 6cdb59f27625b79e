/**
 * Plain text of a PDF: each page's words, without the blank ones and the ones
 * holding a NUL character, trimmed and joined by single spaces, one line per page.
 * A page is given as the text of its words in reading order; opening and
 * parsing the PDF file itself is outside the model.
 */
module DocumentTextReader {
  import opened Text
  import Seqs

  /** A word survives when it is not null, empty or white space and has no NUL in it. */
  predicate KeepWord(w: string)
  {
    !AllWhiteSpace(w) && '\0' !in w
  }

  /** The surviving words of a page, trimmed, in their original order: the Where, then the Select. */
  function PageWords(words: seq<string>): seq<string>
  {
    var kept := Seqs.Filter(words, KeepWord);
    seq(|kept|, i requires 0 <= i < |kept| => Trim(kept[i]))
  }

  /**
   * At most one output word per input word; none exactly when no word survives;
   * every output word non-empty, free of NUL and without white space at either end.
   */
  lemma PageWordsShape(words: seq<string>)
    ensures var r := PageWords(words);
            && |r| <= |words|
            && (r == [] <==> forall i :: 0 <= i < |words| ==> !KeepWord(words[i]))
            && (forall i :: 0 <= i < |r| ==> r[i] != [] && '\0' !in r[i])
            && (forall i :: 0 <= i < |r| ==> !IsWhiteSpace(r[i][0]) && !IsWhiteSpace(r[i][|r[i]| - 1]))
  {
    var kept := Seqs.Filter(words, KeepWord);
    var r := PageWords(words);
    forall i | 0 <= i < |r|
      ensures r[i] != [] && '\0' !in r[i] && !IsWhiteSpace(r[i][0]) && !IsWhiteSpace(r[i][|r[i]| - 1])
    {
      assert kept[i] in kept;
      if '\0' in r[i] { TrimChars(kept[i], '\0'); }
    }
    if r == [] {
      forall i | 0 <= i < |words| ensures !KeepWord(words[i]) {
        assert words[i] in words;
        assert words[i] !in kept;
      }
    } else {
      assert kept[0] in kept;
    }
  }

  /** The line a page contributes (before its line terminator). */
  function PageText(words: seq<string>): string
  {
    Join(" ", PageWords(words))
  }

  /** A page line holds a character only if one of the page's words does (or it is the separating space). */
  lemma PageTextAvoids(words: seq<string>, c: char)
    requires c != ' '
    requires forall i :: 0 <= i < |words| ==> c !in words[i]
    ensures c !in PageText(words)
  {
    PageWordsAvoid(words, c);
    JoinAvoids(" ", PageWords(words), c);
  }

  /** The page words hold a character only if one of the page's words does. */
  lemma PageWordsAvoid(words: seq<string>, c: char)
    requires forall i :: 0 <= i < |words| ==> c !in words[i]
    ensures forall i :: 0 <= i < |PageWords(words)| ==> c !in PageWords(words)[i]
  {
    var kept := Seqs.Filter(words, KeepWord);
    forall i | 0 <= i < |kept| ensures c !in Trim(kept[i]) {
      assert kept[i] in words;
      if c in Trim(kept[i]) { TrimChars(kept[i], c); }
    }
  }

  /** Splitting a non-empty page line at spaces gives its words back, when no word holds a space. */
  lemma PageTextSplits(words: seq<string>)
    requires PageWords(words) != []
    requires forall i :: 0 <= i < |words| ==> ' ' !in words[i]
    ensures Split(PageText(words), ' ') == PageWords(words)
  {
    PageWordsAvoid(words, ' ');
    SplitJoin(PageWords(words), ' ');
  }

  /** One line per page. */
  function PageLines(pages: seq<seq<string>>): (r: seq<string>)
    ensures |r| == |pages|
    ensures forall i :: 0 <= i < |pages| ==> r[i] == PageText(pages[i])
  {
    Seqs.Map(PageText, pages)
  }

  lemma PageLinesSnoc(pages: seq<seq<string>>)
    requires pages != []
    ensures PageLines(pages) == PageLines(pages[..|pages| - 1]) + [PageText(pages[|pages| - 1])]
  {
    Seqs.MapSnoc(PageText, pages);
  }

  /** The whole extracted text: every page's line, each followed by a line terminator. */
  function PdfText(pages: seq<seq<string>>): (r: string)
    ensures r == [] <==> pages == []
    ensures r != [] ==> r[|r| - 1] == '\n'
  {
    Terminated(PageLines(pages))
  }

  /** One more page appends its line and a terminator to the text. */
  lemma PdfTextSnoc(pages: seq<seq<string>>)
    requires pages != []
    ensures PdfText(pages) == PdfText(pages[..|pages| - 1]) + PageText(pages[|pages| - 1]) + NewLine
  {
    var n := |pages| - 1;
    var lines := PageLines(pages);
    PageLinesSnoc(pages);
    Seqs.SnocParts(lines);
    assert Terminated(lines) == Terminated(lines[..n]) + (lines[n] + NewLine);
  }

  /** The page loop: one page's line and terminator appended per page. */
  method ExtractTextFromPdf(pages: seq<seq<string>>) returns (text: string)
    ensures text == PdfText(pages)
  {
    text := "";
    var i := 0;
    while i < |pages|
      invariant 0 <= i <= |pages|
      invariant text == PdfText(pages[..i])
    {
      var pageText := Join(" ", PageWords(pages[i]));
      PdfTextSnoc(pages[..i + 1]);
      assert pages[..i + 1][..i] == pages[..i];
      text := text + pageText + NewLine;
      i := i + 1;
    }
    assert pages[..|pages|] == pages;
  }

  /** Read back line by line, the text gives one line per page, when no word holds a line terminator. */
  lemma PdfTextLines(pages: seq<seq<string>>)
    requires forall i, j :: 0 <= i < |pages| && 0 <= j < |pages[i]| ==> '\n' !in pages[i][j]
    ensures Lines(PdfText(pages)) == PageLines(pages)
  {
    var lines := PageLines(pages);
    forall i | 0 <= i < |lines| ensures '\n' !in lines[i] {
      PageTextAvoids(pages[i], '\n');
    }
    LinesTerminated(lines);
  }
}
