/**
 The enrichment step of the converter. With Korean font support switched on,
 the uploaded HTML receives a `<meta charset>` tag and a `<style>` block that
 declares the chosen font through `@font-face` and forces it on the common
 text elements. A document with a `<head>` tag gets the block right after
 every `<head>`; a document without one is wrapped in a minimal document that
 carries the same block. With the option off the upload is passed through.
 */
module Enrichment {
  import opened Strings

  /** The tag the enrichment looks for, matched literally and case-sensitively. */
  const Head: string := "<head>"

  /** The fonts offered by the font select box. */
  datatype KoreanFont = NanumGothic | NanumMyeongjo | NanumBarunGothic | MalgunGothic | Gungseo {

    /** The family name as the select box shows it and the style block uses it. */
    function Name(): (name: string)
      ensures name != [] && '<' !in name
    {
      match this
      case NanumGothic => "NanumGothic"
      case NanumMyeongjo => "NanumMyeongjo"
      case NanumBarunGothic => "NanumBarunGothic"
      case MalgunGothic => "맑은 고딕"
      case Gungseo => "궁서체"
    }
  }

  /** The CSS declaration that selects `font`. */
  function FontFamilyDecl(font: string): string {
    "font-family: '" + font + "'"
  }

  /** The `@font-face` source that resolves `font` among the installed fonts. */
  function LocalSource(font: string): string {
    "local('" + font + "')"
  }

  const MetaLine: string := "<meta charset=\"utf-8\">\n"
  const StyleOpen: string := "<style>\n"
  const StyleClose: string := "</style>"

  /** The `@font-face` rule aliasing `font` to the installed font of that name. */
  function FontFace(font: string): string {
    "@font-face {\n" + FontFamilyDecl(font) + ";\nsrc: " + LocalSource(font) + ";\n}\n"
  }

  /** The selector list the forcing rule applies to. */
  const TextElements: string :=
    "body, p, h1, h2, " + "h3, h4, h5, h6, " + "div, span, li, a, " + "table, th, td"

  /** The rule forcing `font` on the common text-bearing elements. */
  function ForceRule(font: string): string {
    TextElements + " {\n" + FontFamilyDecl(font) + ", sans-serif !important;\n}\n"
  }

  /** The body of the style block. */
  function FontRules(font: string): string {
    FontFace(font) + ForceRule(font)
  }

  /** The meta and style block placed right after `<head>`. */
  function Block(font: string): string {
    "\n" + MetaLine + StyleOpen + FontRules(font) + StyleClose
  }

  const DocType: string := "<!DOCTYPE html>\n"
  const HtmlOpen: string := "<html>\n"
  const HeadEnd: string := "</head>\n"
  const BodyOpen: string := "<body>\n"
  const BodyEnd: string := "</body>\n"
  const HtmlEnd: string := "</html>"

  /** What follows `<head>` in a wrapped document, up to the content. */
  function HeadRest(font: string): string {
    Block(font) + "\n" + HeadEnd + BodyOpen
  }

  /** Everything a wrapped document puts before the content. */
  function WrapPrefix(font: string): string {
    DocType + HtmlOpen + (Head + HeadRest(font))
  }

  /** Everything a wrapped document puts after the content. */
  const WrapSuffix: string := "\n" + BodyEnd + HtmlEnd

  /** The enriched HTML handed to the renderer. */
  function Enrich(content: string, useKoreanFont: bool, font: KoreanFont): (r: string)
    ensures !useKoreanFont ==> r == content
    ensures useKoreanFont ==> Contains(r, Head)
    ensures useKoreanFont ==> Contains(r, FontFamilyDecl(font.Name()))
    ensures useKoreanFont ==> Contains(r, LocalSource(font.Name()))
  {
    if useKoreanFont then
      if Contains(content, Head) then
        InjectedKeepsHeadAndFont(content, font.Name());
        ReplaceAll(content, Head, Head + Block(font.Name()))
      else
        WrappedKeepsHeadAndFont(content, font.Name());
        WrapPrefix(font.Name()) + content + WrapSuffix
    else
      content
  }

  /** The block names the font in a `font-family` declaration. */
  lemma BlockDeclaresFamily(font: string)
    ensures Contains(Block(font), FontFamilyDecl(font))
  {
    var decl := FontFamilyDecl(font);
    ContainsSelf(decl);
    ContainsLeft("@font-face {\n", decl, decl);
    ContainsRight("@font-face {\n" + decl, ";\nsrc: ", decl);
    ContainsRight("@font-face {\n" + decl + ";\nsrc: ", LocalSource(font), decl);
    ContainsRight("@font-face {\n" + decl + ";\nsrc: " + LocalSource(font), ";\n}\n", decl);
    ContainsRight(FontFace(font), ForceRule(font), decl);
    ContainsLeft("\n" + MetaLine + StyleOpen, FontRules(font), decl);
    ContainsRight("\n" + MetaLine + StyleOpen + FontRules(font), StyleClose, decl);
  }

  /** The block names the font as a local font source. */
  lemma BlockDeclaresSource(font: string)
    ensures Contains(Block(font), LocalSource(font))
  {
    var src := LocalSource(font);
    var front := "@font-face {\n" + FontFamilyDecl(font) + ";\nsrc: ";
    ContainsSelf(src);
    ContainsLeft(front, src, src);
    ContainsRight(front + src, ";\n}\n", src);
    ContainsRight(FontFace(font), ForceRule(font), src);
    ContainsLeft("\n" + MetaLine + StyleOpen, FontRules(font), src);
    ContainsRight("\n" + MetaLine + StyleOpen + FontRules(font), StyleClose, src);
  }

  /** With a font name free of `<`, the two font references hold no `<`. */
  lemma ReferencesHaveNoTag(font: string)
    requires '<' !in font
    ensures '<' !in FontFamilyDecl(font) && '<' !in LocalSource(font)
  {
  }

  /** The selector list holds no `<`. */
  lemma SelectorsHaveNoTag()
    ensures '<' !in TextElements
  {
    assert '<' !in "body, p, h1, h2, " + "h3, h4, h5, h6, ";
    assert '<' !in "div, span, li, a, " + "table, th, td";
  }

  /** With a font name free of `<`, the style rules hold no `<` at all. */
  lemma RulesHaveNoTag(font: string)
    requires '<' !in font
    ensures '<' !in FontRules(font)
  {
    ReferencesHaveNoTag(font);
    SelectorsHaveNoTag();
    assert '<' !in FontFace(font);
    assert '<' !in ForceRule(font);
  }

  /** The block cannot start a `<head>`, whatever follows it, as long as the
      font name has no `<`. */
  lemma BlockIsInert(font: string)
    requires '<' !in font
    ensures Inert(Block(font), Head)
  {
    InertWithoutLead("\n", Head);
    InertTag(MetaLine, Head, 1);
    InertConcat("\n", MetaLine, Head);
    InertTag(StyleOpen, Head, 1);
    InertConcat("\n" + MetaLine, StyleOpen, Head);
    RulesHaveNoTag(font);
    InertWithoutLead(FontRules(font), Head);
    InertConcat("\n" + MetaLine + StyleOpen, FontRules(font), Head);
    InertTag(StyleClose, Head, 1);
    InertConcat("\n" + MetaLine + StyleOpen + FontRules(font), StyleClose, Head);
  }

  /** The rest of a wrapped document's head cannot start a `<head>`. */
  lemma HeadRestIsInert(font: string)
    requires '<' !in font
    ensures Inert(HeadRest(font), Head)
  {
    BlockIsInert(font);
    InertWithoutLead("\n", Head);
    InertConcat(Block(font), "\n", Head);
    InertTag(HeadEnd, Head, 1);
    InertConcat(Block(font) + "\n", HeadEnd, Head);
    InertTag(BodyOpen, Head, 1);
    InertConcat(Block(font) + "\n" + HeadEnd, BodyOpen, Head);
  }

  /** The doctype and `<html>` lines cannot start a `<head>`. */
  lemma DocStartIsInert()
    ensures Inert(DocType + HtmlOpen, Head)
  {
    InertTag(DocType, Head, 1);
    InertTag(HtmlOpen, Head, 2);
    InertConcat(DocType, HtmlOpen, Head);
  }

  /** The closing lines cannot start a `<head>`. */
  lemma WrapSuffixIsInert()
    ensures Inert(WrapSuffix, Head)
  {
    InertWithoutLead("\n", Head);
    InertTag(BodyEnd, Head, 1);
    InertConcat("\n", BodyEnd, Head);
    InertTag(HtmlEnd, Head, 1);
    InertConcat("\n" + BodyEnd, HtmlEnd, Head);
  }

  /** Injecting after every `<head>` keeps a `<head>` and declares the font. */
  lemma InjectedKeepsHeadAndFont(content: string, font: string)
    requires Contains(content, Head)
    ensures Contains(ReplaceAll(content, Head, Head + Block(font)), Head)
    ensures Contains(ReplaceAll(content, Head, Head + Block(font)), FontFamilyDecl(font))
    ensures Contains(ReplaceAll(content, Head, Head + Block(font)), LocalSource(font))
  {
    var i := Find(content, Head).value;
    var out := ReplaceAll(content, Head, Head + Block(font));
    var rest := ReplaceAll(content[i + |Head|..], Head, Head + Block(font));
    ReplaceStep(content, Head, Head + Block(font));
    assert out == content[..i] + (Head + Block(font)) + rest;
    ReplaceKeepsFirst(content, Head, Block(font), i);
    MatchOfExtension(out, Head, Block(font), i);
    assert Contains(out, Head);
    BlockDeclaresFamily(font);
    ContainsLeft(Head, Block(font), FontFamilyDecl(font));
    ContainsWidened(content[..i], Head + Block(font), rest, FontFamilyDecl(font));
    BlockDeclaresSource(font);
    ContainsLeft(Head, Block(font), LocalSource(font));
    ContainsWidened(content[..i], Head + Block(font), rest, LocalSource(font));
  }

  /** A wrapped document has a `<head>` and declares the font. */
  lemma WrappedKeepsHeadAndFont(content: string, font: string)
    ensures Contains(WrapPrefix(font) + content + WrapSuffix, Head)
    ensures Contains(WrapPrefix(font) + content + WrapSuffix, FontFamilyDecl(font))
    ensures Contains(WrapPrefix(font) + content + WrapSuffix, LocalSource(font))
  {
    ContainsSelf(Head);
    ContainsRight(Head, HeadRest(font), Head);
    PrefixPartInWrapped(content, font, Head + HeadRest(font), Head);
    BlockDeclaresFamily(font);
    BlockInWrapped(content, font, FontFamilyDecl(font));
    BlockDeclaresSource(font);
    BlockInWrapped(content, font, LocalSource(font));
  }

  /** Whatever the block contains, the wrapped document contains. */
  lemma BlockInWrapped(content: string, font: string, x: string)
    requires Contains(Block(font), x)
    ensures Contains(WrapPrefix(font) + content + WrapSuffix, x)
  {
    ContainsRight(Block(font), "\n", x);
    ContainsRight(Block(font) + "\n", HeadEnd, x);
    ContainsRight(Block(font) + "\n" + HeadEnd, BodyOpen, x);
    ContainsLeft(Head, HeadRest(font), x);
    PrefixPartInWrapped(content, font, Head + HeadRest(font), x);
  }

  /** Whatever the head part of the prefix contains, the wrapped document contains. */
  lemma PrefixPartInWrapped(content: string, font: string, part: string, x: string)
    requires part == Head + HeadRest(font) && Contains(part, x)
    ensures Contains(WrapPrefix(font) + content + WrapSuffix, x)
  {
    ContainsLeft(DocType + HtmlOpen, part, x);
    ContainsRight(WrapPrefix(font), content, x);
    ContainsRight(WrapPrefix(font) + content, WrapSuffix, x);
  }

  /**
   Regrouping a wrapped document around its `<head>`. The regrouping lemmas
   state associativity over named parts rather than over the literals, so
   that the proofs using them never compare long literal sequences.
   */
  lemma RegroupAtHead(docStart: string, head: string, headRest: string, content: string, suffix: string)
    ensures docStart + (head + headRest) + content + suffix
         == docStart + (head + (headRest + (content + suffix)))
  {
  }

  /** Regrouping a wrapped document around its body (see `RegroupAtHead`). */
  lemma RegroupAtBody(docStart: string, head: string, block: string, bodyOpen: string, content: string,
                      newline: string, bodyEnd: string, htmlEnd: string)
    ensures docStart + (head + (block + bodyOpen)) + content + (newline + bodyEnd + htmlEnd)
         == docStart + (head + block) + (bodyOpen + content + newline + bodyEnd) + htmlEnd
  {
  }

  /** The suffix starts with a character `<head>` never uses. */
  lemma SuffixBreaksHead()
    ensures |WrapSuffix| > 0 && WrapSuffix[0] !in Head
  {
    assert WrapSuffix[0] == '\n';
  }

  /** A wrapped document has exactly one `<head>`, given content without one. */
  lemma WrappedCountsOneHead(content: string, font: string)
    requires '<' !in font && !Contains(content, Head)
    ensures Count(WrapPrefix(font) + content + WrapSuffix, Head) == 1
  {
    var hr := HeadRest(font);
    var start := DocType + HtmlOpen;
    var tail := hr + (content + WrapSuffix);
    RegroupAtHead(start, Head, hr, content, WrapSuffix);
    DocStartIsInert();
    CountAfterInert(start, Head + tail, Head);
    CountAtHead(Head, tail);
    HeadRestIsInert(font);
    CountAfterInert(hr, content + WrapSuffix, Head);
    SuffixBreaksHead();
    CountAfterClean(content, WrapSuffix, Head);
    WrapSuffixIsInert();
    InertCountsNothing(WrapSuffix, Head);
  }

  /**
   With a `<head>` present, enrichment puts the block after every `<head>`:
   the output is the upload's `<head>`-separated pieces, in order and
   unchanged, joined by `<head>` plus the block, so there are as many blocks
   as there were `<head>` tags, and the first `<head>` stays where it was.
   */
  lemma EnrichInjectsAfterEveryHead(content: string, font: KoreanFont)
    requires Contains(content, Head)
    ensures Enrich(content, true, font) == Join(Split(content, Head), Head + Block(font.Name()))
    ensures Count(Enrich(content, true, font), Head + Block(font.Name())) == Count(content, Head)
    ensures Find(Enrich(content, true, font), Head) == Find(content, Head)
  {
    ReplaceIsJoinOfSplit(content, Head, Head + Block(font.Name()));
    ReplaceCountsInsertions(content, Head, Block(font.Name()));
    ReplaceKeepsFind(content, Head, Block(font.Name()));
  }

  /** Removing the injected blocks gives back the upload exactly. */
  lemma EnrichIsUndone(content: string, font: KoreanFont)
    ensures Contains(content, Head) ==>
      ReplaceAll(Enrich(content, true, font), Head + Block(font.Name()), Head) == content
  {
    ReplaceUndone(content, Head, Block(font.Name()));
  }

  /**
   Enrichment never changes the number of `<head>` tags in a document that
   has one, and leaves exactly one in a document that has none.
   */
  lemma EnrichHeadCount(content: string, font: KoreanFont)
    ensures Contains(content, Head) ==> Count(Enrich(content, true, font), Head) == Count(content, Head)
    ensures !Contains(content, Head) ==> Count(Enrich(content, true, font), Head) == 1
  {
    if Contains(content, Head) {
      BlockIsInert(font.Name());
      ReplaceKeepsCount(content, Head, Block(font.Name()));
    } else {
      WrappedCountsOneHead(content, font.Name());
    }
  }

  /**
   Without a `<head>`, enrichment wraps the upload in a whole document whose
   body holds the upload verbatim.
   */
  lemma EnrichWrapsVerbatim(content: string, font: KoreanFont)
    requires !Contains(content, Head)
    ensures Enrich(content, true, font) == WrapPrefix(font.Name()) + content + WrapSuffix
    ensures Contains(Enrich(content, true, font), BodyOpen + content + "\n" + BodyEnd)
    ensures DocType <= Enrich(content, true, font)
  {
    var name := font.Name();
    var x := Block(name) + "\n" + HeadEnd;
    WrappedBody(DocType + HtmlOpen, Head, x, BodyOpen, content, "\n", BodyEnd, HtmlEnd);
    WrappedStart(DocType, HtmlOpen + (Head + HeadRest(name)), content + WrapSuffix);
  }

  /** The body of a wrapped document, in terms of its parts. */
  lemma WrappedBody(docStart: string, head: string, block: string, bodyOpen: string, content: string,
                    newline: string, bodyEnd: string, htmlEnd: string)
    ensures Contains(docStart + (head + (block + bodyOpen)) + content + (newline + bodyEnd + htmlEnd),
                     bodyOpen + content + newline + bodyEnd)
  {
    RegroupAtBody(docStart, head, block, bodyOpen, content, newline, bodyEnd, htmlEnd);
    ContainsInfix(docStart + (head + block), bodyOpen + content + newline + bodyEnd, htmlEnd);
  }

  /** The start of a wrapped document, in terms of its parts. */
  lemma WrappedStart(docType: string, rest: string, content: string)
    ensures docType <= docType + rest + content
  {
  }

  /** The tag's opening `<` does not recur in it, so two tags cannot overlap. */
  lemma HeadCannotOverlap()
    ensures Head[0] !in Head[1..]
  {
    assert Head[1..] == "head>";
  }

  /**
   A document with exactly one `<head>` (none in the text before it, none in
   the text after it) gets the block right after that tag and is otherwise
   unchanged.
   */
  lemma EnrichSoleHead(lead: string, tail: string, font: KoreanFont)
    requires !Contains(lead, Head) && !Contains(tail, Head)
    ensures Enrich(lead + Head + tail, true, font) == lead + (Head + Block(font.Name())) + tail
  {
    var hb := Head + Block(font.Name());
    HeadCannotOverlap();
    CleanBeforeInfix(lead, Head, tail);
    ReplaceAtFirst(lead, Head, tail, hb);
    ContainsInfix(lead, Head, tail);
  }

  /** The text after the `<head>` of the minimal document cannot start one. */
  lemma MinimalTailIsInert()
    ensures Inert("</head>" + "<body>" + "Hi" + ("</body>" + "</html>"), Head)
  {
    InertTag("</head>", Head, 1);
    InertTag("<body>", Head, 1);
    InertConcat("</head>", "<body>", Head);
    InertWithoutLead("Hi", Head);
    InertConcat("</head>" + "<body>", "Hi", Head);
    InertTag("</body>", Head, 1);
    InertTag("</html>", Head, 1);
    InertConcat("</body>", "</html>", Head);
    InertConcat("</head>" + "<body>" + "Hi", "</body>" + "</html>", Head);
  }

  /** The minimal document, cut at its `<head>`. */
  lemma MinimalDocumentParts()
    ensures "<html>" + Head + ("</head>" + "<body>" + "Hi" + ("</body>" + "</html>"))
         == "<html><head></head><body>Hi</body></html>"
  {
  }

  /** Enriching the minimal document puts the block right after its `<head>`. */
  lemma MinimalDocumentEnriched()
    ensures Enrich("<html><head></head><body>Hi</body></html>", true, NanumGothic)
         == "<html>" + (Head + Block(NanumGothic.Name())) + ("</head>" + "<body>" + "Hi" + ("</body>" + "</html>"))
  {
    MinimalDocumentParts();
    InertTag("<html>", Head, 2);
    InertCountsNothing("<html>", Head);
    MinimalTailIsInert();
    InertCountsNothing("</head>" + "<body>" + "Hi" + ("</body>" + "</html>"), Head);
    EnrichSoleHead("<html>", "</head>" + "<body>" + "Hi" + ("</body>" + "</html>"), NanumGothic);
  }

  /** Regrouping a document around one piece of its text (see `RegroupAtHead`). */
  lemma RegroupAroundText(lead: string, headAndBlock: string, rest: string, text: string, close: string)
    ensures lead + headAndBlock + (rest + text + close) == lead + headAndBlock + rest + text + close
  {
  }

  /**
   A minimal document with an empty head: after enrichment with NanumGothic
   it declares that family and still says `Hi`.
   */
  lemma MinimalDocumentExample()
    ensures var r := Enrich("<html><head></head><body>Hi</body></html>", true, NanumGothic);
      Contains(r, FontFamilyDecl("NanumGothic")) && Contains(r, "Hi")
  {
    var front := "<html>" + (Head + Block(NanumGothic.Name())) + ("</head>" + "<body>");
    var close := "</body>" + "</html>";
    MinimalDocumentEnriched();
    RegroupAroundText("<html>", Head + Block(NanumGothic.Name()), "</head>" + "<body>", "Hi", close);
    ContainsInfix(front, "Hi", close);
  }
}
