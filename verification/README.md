# html2pdf: enrichment, renderer options and download name

html2pdf is a small web application. It takes an uploaded HTML file and can
inject Korean font declarations into it. It then hands the file to the
wkhtmltopdf renderer with a fixed options dictionary, and offers the PDF for
download under a name derived from the upload's name. This project models the
three pure computations at the heart of that request as Dafny functions, and
proves what they promise:

- **Enrichment** (module `Enrichment`).
  - When the Korean-font flag is off, the HTML is left alone.
  - When the flag is on and the text contains the literal `<head>`, every
    `<head>` is followed by a meta/style block naming the chosen font.
  - Otherwise the upload is wrapped verbatim in a complete document whose head
    carries the same block.
- **Renderer options** (module `RenderOptions`). The dictionary always has
  ten entries. Two of them carry the selected page size and the lower-cased
  orientation; the other eight are constants. The font flag re-assigns the
  encoding to the value it already has. A `user-style-sheet` entry is
  added exactly when a CSS file was uploaded.
- **Download name** (module `DownloadName`). This is the upload's name up to
  its first `.`, followed by `.pdf`.

Module `Strings` models the Python string operations the application calls:
`in` (`Strings.Contains`, which `Enrichment.Enrich` branches on), `replace`
(`Strings.ReplaceAll`) and `split` (`Strings.Split`), each built on a
leftmost, non-overlapping scan (`Strings.Find`). The application's `lower` is
`RenderOptions.Lower`. `Strings.Count` and `Strings.Join` are not called by
the application; they are reference definitions, used to state how many
occurrences an output holds and that `replace` equals a split followed by a
join. Module `Optional` gives the `None`-or-value type.

Matching is plain and case-sensitive, as in the application. `<HEAD>` and
`<head lang="ko">` are not `<head>`.

The code calls Python's `str.replace` without a count, so every `<head>` gets
the block, not only the first. The model follows the code:

- `Enrichment.EnrichInjectsAfterEveryHead` proves one block per `<head>`.
- `Enrichment.EnrichHeadCount` proves that the number of `<head>` tags is
  unchanged, whatever it was. The model claims exactly one only for wrapped
  documents.

Two further behaviours of the code are kept as written:

- Setting `encoding` when the font flag is on has no effect, because the
  dictionary already holds `UTF-8` there.
- An upload named `.html` is offered as `.pdf`, because the part before the
  first dot is empty.

## Model

| member | source | states |
|---|---|---|
| Strings.Find | streamlit_app.py:74-84 | the scan behind `replace` and `split`: the first occurrence of a pattern exists exactly when the text contains the pattern; it is an occurrence, and none starts earlier |
| Strings.ReplaceAll | streamlit_app.py:74-84 | replacing every occurrence leaves a text without the pattern unchanged |
| Strings.Split | streamlit_app.py:157 | splitting yields at least one piece; no piece contains the separator; the first piece is a prefix followed by a separator when there are more; there is one piece, the whole text, exactly when the separator is absent |
| Strings.SplitJoinRoundTrip | streamlit_app.py:157 | joining the pieces of a split with the same separator gives the text back |
| Strings.SplitCountsSeparators | streamlit_app.py:157 | a split has one piece more than the text has separators |
| Strings.ReplaceIsJoinOfSplit | streamlit_app.py:74-84 | replacing every occurrence equals splitting at the pattern and joining with the replacement |
| Strings.ReplaceKeepsFind | streamlit_app.py:74-84 | inserting text after every occurrence leaves the first occurrence at the same position |
| Strings.ReplaceCountsInsertions | streamlit_app.py:74-84 | after inserting a text after every occurrence, the pattern followed by the insertion occurs as often as the pattern did |
| Strings.ReplaceKeepsCount | streamlit_app.py:74-84 | an insertion that cannot start the pattern leaves the pattern's count unchanged |
| Strings.ReplaceUndone | streamlit_app.py:74-84 | replacing each pattern-plus-insertion by the pattern undoes the insertion exactly |
| Enrichment.Enrich | streamlit_app.py:72-105 | with the flag off the HTML is returned unchanged; with it on the output has a `<head>`, a `font-family: '<font>'` declaration and a `local('<font>')` source |
| Enrichment.BlockIsInert | streamlit_app.py:74-84 | no `<head>` can start inside the injected block, whatever follows it, for every font name without `<` |
| Enrichment.EnrichInjectsAfterEveryHead | streamlit_app.py:73-84 | with a `<head>` present, the output is the upload's `<head>`-separated pieces, unchanged and in order, joined by `<head>` plus the block; there are as many blocks as `<head>` tags; the first `<head>` does not move |
| Enrichment.EnrichIsUndone | streamlit_app.py:73-84 | removing every injected block from the output gives back the upload exactly |
| Enrichment.EnrichHeadCount | streamlit_app.py:73-103 | the number of `<head>` tags is unchanged when there was one; a wrapped upload has exactly one |
| Enrichment.WrappedCountsOneHead | streamlit_app.py:85-103 | a wrapped document around text with no `<head>` holds exactly one `<head>` |
| Enrichment.EnrichWrapsVerbatim | streamlit_app.py:85-103 | without a `<head>`, the output is the fixed prefix, the upload and the fixed suffix; it starts with the doctype; its body holds the upload verbatim |
| Enrichment.EnrichSoleHead | streamlit_app.py:73-84 | a document with exactly one `<head>` (none before it, none after it) gets the block right after that tag, and the rest of the document is unchanged |
| Enrichment.MinimalDocumentExample | streamlit_app.py:72-84 | `<html><head></head><body>Hi</body></html>` enriched with NanumGothic declares `font-family: 'NanumGothic'` and still contains `Hi` |
| RenderOptions.NamesAreDistinct | streamlit_app.py:119-138 | the option names are pairwise different, so the options map is a dictionary keyed by name |
| RenderOptions.FixedOptions | streamlit_app.py:119-130 | the fixed dictionary has exactly the ten fixed keys; the four flags are empty strings; `no-outline` is None; the encoding is UTF-8, dpi 300, javascript delay 1000; the page size is the selected label; the orientation is the lower-cased selection |
| RenderOptions.OrientationWords | streamlit_app.py:122 | the renderer receives `portrait` or `landscape` |
| RenderOptions.LowerIdempotent | streamlit_app.py:122 | lower-casing twice is lower-casing once, and no capital letter remains |
| RenderOptions.StyleSheetPath | streamlit_app.py:112-116 | a style-sheet path exists exactly when a CSS file was uploaded; it is the work directory, a `/`, and the file name `styles.css`, which holds no `/`, so the file lies directly inside the work directory |
| RenderOptions.BuildOptions | streamlit_app.py:119-138 | the keys are the ten fixed ones, plus `user-style-sheet` exactly when a CSS path is given; every fixed entry keeps its fixed value whatever the font flag and the CSS input; the style-sheet value is the path |
| RenderOptions.FontFlagIsIrrelevant | streamlit_app.py:133-134 | the Korean-font flag does not change the options |
| RenderOptions.StyleSheetOnlyAddsItsEntry | streamlit_app.py:137-138 | a CSS path adds its own entry and changes no other; removing that entry gives the options without CSS |
| RenderOptions.OptionsDetermineSelection | streamlit_app.py:119-138 | two selections give equal options exactly when they agree on page size, orientation and CSS path |
| DownloadName.BaseName | streamlit_app.py:157 | the base is a dot-free prefix of the name that ends at a dot or at the end; a name without a dot is its own base |
| DownloadName.BaseNameIsFirstPiece | streamlit_app.py:157 | any dot-free prefix ending at a dot or at the end is the base, so the base is exactly the text before the first dot |
| DownloadName.PdfName | streamlit_app.py:157 | the download name ends in `.pdf`, and what precedes that suffix is a dot-free prefix of the upload's name that ends at its first dot or at its end |
| DownloadName.PdfNameFromBase | streamlit_app.py:157 | the download name is any such base followed by `.pdf` |
| DownloadName.SeveralDotsExample | streamlit_app.py:157 | `a.b.html` gives `a.pdf` |
| DownloadName.NoDotExample | streamlit_app.py:157 | `report` gives `report.pdf` |
| DownloadName.LeadingDotExample | streamlit_app.py:157 | `.html` gives `.pdf` |

## Left out

- Web page widgets, sidebar state, stopping the page and user messages (streamlit_app.py:17-60, 141-174): user-interface glue with no computation. The sidebar choices are inputs to the model. The page size and orientation are datatypes, and the font is one of five names.
- Probing for the renderer binary and installed fonts through `which` and `ls` subprocesses (streamlit_app.py:9-33): environment I/O.
- UTF-8 decoding of the upload (streamlit_app.py:69): the model takes the content as an already decoded character sequence.
- The temporary directory, file writes and reads, and cleanup (streamlit_app.py:63-116, 151-152): filesystem I/O. Only the style-sheet path the code computes is modelled, as the work directory followed by `/styles.css`.
- The call into pdfkit and wkhtmltopdf, and its error handling (streamlit_app.py:145, 160-174): a foreign call to an external renderer whose behaviour is not visible here. How the renderer turns the options map into command-line flags is not modelled either.
- The indentation inside the injected literals: the model keeps each literal's lines, tags and declarations but not the leading spaces. The proofs rely only on the block's content (the font declarations, and no `<head>` inside it).
- RenderOptions.Lower: folds ASCII capitals only, unlike Python's Unicode `lower()`. The only strings it is applied to are the ASCII labels `Portrait` and `Landscape`.
- HTML parsing or well-formedness: the application does none, and neither does the model.
