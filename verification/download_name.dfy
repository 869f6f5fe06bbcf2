/**
 The name offered for the converted file: the uploaded file's name up to its
 first `.`, followed by `.pdf` (Python's `name.split('.')[0] + ".pdf"`).
 */
module DownloadName {
  import opened Strings

  const Dot: string := "."
  const PdfExtension: string := ".pdf"

  /** A one-character pattern matches exactly where that character stands. */
  lemma CharMatch(s: string, c: char, i: int)
    ensures MatchAt(s, [c], i) <==> 0 <= i < |s| && s[i] == c
  {
    if MatchAt(s, [c], i) {
      assert s[i + 0] == [c][0];
    }
  }

  /** Containing a one-character pattern is containing that character. */
  lemma ContainsChar(s: string, c: char)
    ensures Contains(s, [c]) <==> c in s
  {
    if c in s {
      var i :| 0 <= i < |s| && s[i] == c;
      CharMatch(s, c, i);
    }
    if Contains(s, [c]) {
      var i :| 0 <= i <= |s| - 1 && MatchAt(s, [c], i);
      CharMatch(s, c, i);
    }
  }

  /**
   The first piece of the name split at `.`: the longest prefix without a
   dot, so it stops at the first dot or takes the whole name.
   */
  function BaseName(name: string): (base: string)
    ensures base <= name
    ensures '.' !in base
    ensures |base| == |name| || name[|base|] == '.'
    ensures '.' !in name ==> base == name
  {
    var parts := Split(name, Dot);
    ContainsChar(parts[0], '.');
    ContainsChar(name, '.');
    if |parts| > 1 then CharMatch(name, '.', |parts[0]|); parts[0] else parts[0]
  }

  /**
   Any dot-free prefix of the name that ends at a dot or at the end of the
   name is the base name: the base is exactly the text before the first dot.
   */
  lemma BaseNameIsFirstPiece(name: string, base: string)
    requires base <= name && '.' !in base
    requires |base| == |name| || name[|base|] == '.'
    ensures base == BaseName(name)
  {
  }

  /** The file name offered for download. */
  function PdfName(name: string): (r: string)
    ensures |r| >= |PdfExtension| && r[|r| - |PdfExtension|..] == PdfExtension
    ensures var base := r[..|r| - |PdfExtension|];
      base <= name && '.' !in base && (|base| == |name| || name[|base|] == '.')
  {
    var base := BaseName(name);
    assert (base + PdfExtension)[..|base|] == base;
    base + PdfExtension
  }

  /** The download name, given any text that meets the base name's description. */
  lemma PdfNameFromBase(name: string, base: string)
    requires base <= name && '.' !in base
    requires |base| == |name| || name[|base|] == '.'
    ensures PdfName(name) == base + PdfExtension
  {
    BaseNameIsFirstPiece(name, base);
  }

  /** A name with several dots loses everything from its first dot. */
  lemma SeveralDotsExample()
    ensures PdfName("a.b.html") == "a.pdf"
  {
    var name := "a.b.html";
    assert name[1] == '.';
    assert "a" <= name;
    PdfNameFromBase(name, "a");
  }

  /** A name without a dot keeps its whole text. */
  lemma NoDotExample()
    ensures PdfName("report") == "report.pdf"
  {
    assert '.' !in "report";
  }

  /** A name that starts with a dot leaves an empty base. */
  lemma LeadingDotExample()
    ensures PdfName(".html") == ".pdf"
  {
    BaseNameIsFirstPiece(".html", "");
  }
}
