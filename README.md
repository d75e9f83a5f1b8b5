# Sectioned study notes: a verified model of the Markdown-to-HTML core

The application turns a Markdown study note into a styled HTML page. This
project models the part of `app.py` that decides the structure of that page:

- `cleanup_markdown`: the text rewrites done before parsing. Empty ATX
  headings are removed, backslash-escaped punctuation is unescaped, and an
  empty line is put between a pipe-table row and a heading line that follows it.
- `heading_text`, `normalize_heading`, `classify_section` and
  `is_topic_title_tag`: how a heading's text becomes one of ten section tags
  (syllabus, context, analysis, beyond, wayforward, prelims, exercise, mains,
  recall, recap), or none. An h2 with text and no tag is a topic title.
- `tables_to_gridtables`: each table becomes a two-column grid.
- `wrap_sections_and_tag_topics` with its inner `wrap_from`. Topic titles get
  the `topic-title` class. Each classified heading then opens a `colorbox`
  container and moves itself and the following siblings into it, up to the
  next `hr`, topic title or classified heading.
- The page title: the first h1's text upper-cased, or the fallback.

Modules follow the program's parts:

- `Text`: the Python string primitives app.py relies on.
- `Cleanup`: `cleanup_markdown`.
- `Headings`: heading normalisation and classification.
- `Tables`: the grid rewrite.
- `Nodes`: the parsed document and per-node decisions.
- `Sections`: the section partition as a function.
- `Pipeline`: the in-place rewrites on a `Soup` class, and the title.

Parsing and tree traversal are done by libraries. The model represents the
parsed document as the sequence of top-level siblings, and takes it as input.

The structural code in `Sections` and `Pipeline` is written over two decisions
passed as parameters:

- `opens`: which section a node opens;
- `stops`: whether a node ends a box.

The source's own decisions are `Nodes.SectionOf` and `Nodes.IsBoundary`.

Some behaviours of `app.py` that a reader might not expect:

- A separator line is inserted only when the line *immediately* after a
  table row is a heading line (app.py:360-363). It is not inserted when the
  heading comes after blank lines.
- No `{...}` attribute suffix is stripped from headings, either in
  `cleanup_markdown` or in `normalize_heading`.
- The ten keyword tests are not mutually exclusive; the first test that
  matches wins. For example, "the context of key analysis" is a context
  heading (`Headings.ClassifyKeyFirstMatch`).
- A table whose header row has a single `th` gets a one-cell grid head,
  while its body rows still get two cells (app.py:429-440). The head is not
  padded to match the rows.
- There is no image normaliser in this code path.
- The marker class `[ivxlcdm]` is matched case-insensitively, so it also
  matches the dotted capital `İ` (U+0130) and the dotless small `ı` (U+0131)
  (`Headings.IsNumeralLetter`).

## Model

| member | source | states |
|---|---|---|
| Text.CollapseSpaces | app.py:373 | `re.sub(r"\s+", " ", s)`: the result is single-spaced. It has the same non-whitespace characters in order. It is empty exactly when the input is, and starts with a space exactly when the input starts with whitespace. `CollapseSpacesValue` gives its exact value. |
| Text.Words | app.py:367 | `str.split()`: the words are non-empty, hold no whitespace, and the first begins with the text's first character when that is not whitespace. |
| Text.WordsNone | app.py:367 | A text has no words exactly when it is all whitespace. |
| Text.WordsStrip | app.py:367 | Stripping keeps the words. |
| Text.CollapseWords | app.py:367 | Collapsing whitespace keeps the words: `re.sub(r"\s+", " ", s).split() == s.split()`. |
| Text.CollapseSpacesValue | app.py:373 | The exact value of the collapse: the words joined by single spaces, plus one space in front when the text starts with whitespace and one behind when it ends with whitespace. Whitespace alone becomes one space, and the empty text stays empty. |
| Text.TrimmedJoinWords | app.py:367 | A trimmed, single-spaced text is its words joined by single spaces. |
| Text.CollapseLast | app.py:373 | The collapsed text ends in a space exactly when the input ends in whitespace. |
| Text.CollapseSingleSpaced | app.py:367 | Collapsing leaves already single-spaced text unchanged, so collapsing a heading's text again (app.py:373) changes nothing. |
| Text.SplitLinesNoBreaks | app.py:355 | No line returned by `splitlines` contains a line-break character. |
| Text.JoinSplitLines | app.py:355-364 | Re-joining the lines of a `\n`-separated text that does not end in `\n` gives the text back. |
| Text.JoinSplitLinesDropsFinalNewline | app.py:355-364 | A final `\n` is lost: split and re-join of `s + "\n"` gives `s`. |
| Text.SplitLinesJoin | app.py:355-364 | Splitting the join of break-free lines gives the lines back, provided the last line is not empty. |
| Cleanup.EmptyHeadingMatch | app.py:351 | A match of the empty-heading pattern at `p` is non-empty, covers only whitespace and `#`, and has a run of one to six `#`. It ends at the end of the text or right after a `\n`. |
| Cleanup.EmptyHeadingMatchExact | app.py:351 | `EmptyHeadingMatch` returns `m` exactly when the pattern matches from `p` to `m`. A match is whitespace, one to six `#`, then the whole following run of whitespace; it ends at the end of the text, or just after the last `\n` of that run. |
| Cleanup.RemoveEmptyHeadingsKeepsContent | app.py:351 | Removing empty headings deletes only whitespace and `#`: every other character survives, in order. |
| Cleanup.RemoveEmptyHeadingsNoHash | app.py:351 | Text without `#` is unchanged. |
| Cleanup.EmptyHeadingLineRemoved | app.py:351 | Any empty heading at a line start is deleted, with its line end and the blank lines after it. This holds whether the `#` run is indented or not, and whether or not it is on the last line. |
| Cleanup.TitledHeadingKept | app.py:351 | A heading line with a title does not match the empty-heading pattern, wherever the line is in the text. In such a line, the `#` run is followed, possibly after whitespace on the same line, by a character that is neither whitespace nor `#`. |
| Cleanup.UnescapeEscape | app.py:352 | Unescaping undoes backslash-escaping of the eighteen punctuation characters. |
| Cleanup.EscapedCharUnescaped | app.py:352 | A backslash before an escapable character is dropped. |
| Cleanup.OtherBackslashKept | app.py:352 | A backslash before any other character, or at the end of the text, is kept. |
| Cleanup.UnescapeNoBackslash | app.py:352 | Text without backslashes is unchanged. |
| Cleanup.SeparateLayout | app.py:355-364 | Every input line appears in the output in order. An empty line follows line `i` exactly when it is a table row followed by a non-blank heading line. Nothing else is added. |
| Cleanup.SeparateLeavesNoneNeeded | app.py:357-363 | After the pass, no table row is directly followed by a heading line. |
| Cleanup.SeparateNoOp | app.py:357-363 | Lines that need no separator pass through unchanged. |
| Cleanup.SeparateIdempotent | app.py:357-363 | A second pass inserts nothing. |
| Cleanup.HeadingLineNotBlank | app.py:362 | A line that passes the heading test is never blank, so the `strip()` test never decides. |
| Cleanup.SeparateTableHeadings | app.py:355-363 | The line loop builds exactly `Separate(lines)`. |
| Cleanup.CleanupMarkdown | app.py:350-364 | The method runs the three rewrites in order and re-joins the lines with `\n`. It computes `Cleanup`, which the three lemmas below describe end to end. |
| Cleanup.CleanupUnchanged | app.py:350-364 | Some texts come out of `cleanup_markdown` unchanged: those with no `#`, no backslash, no line break other than `\n`, and no final `\n`. |
| Cleanup.CleanupDropsFinalNewline | app.py:350-364 | The same text with one final `\n` comes out without that `\n`. |
| Cleanup.CleanupRemovesEmptyHeading | app.py:350-364 | An empty `##` line between two lines of such text is removed with its line end: `a + "\n##\n" + b` comes out as `a + "\n" + b`. This requires `a` to end in, and `b` to start with, a non-space character. |
| Cleanup.RemoveAroundHeading | app.py:351 | The empty-heading pass alone turns `a + "\n##\n" + b` into `a + "\n" + b` under the same conditions. |
| Cleanup.LaterRewritesKeep | app.py:352-364 | Text with no `#`, no backslash, only `\n` breaks and no final `\n` passes the unescaping, the separator pass and the re-join unchanged. |
| Headings.OrdinalLength | app.py:374 | A non-zero ordinal is a whole run: one or two digits not followed by a digit, or one to six numeral letters not followed by one. Every such run is taken. So three digits, or seven numeral letters, give no ordinal. |
| Headings.MarkerSeparator | app.py:374 | When the marker regex matches, the result is the index of its separator, one of `.):-`. |
| Headings.MarkerSeparatorExact | app.py:374 | `MarkerSeparator` returns `k` exactly when the text starts with a match of the marker regex whose separator is at `k`. That match is an optional `(`, whitespace, one or two digits or one to six numeral letters, whitespace, then the separator. |
| Headings.MarkerLength | app.py:374 | The substitution removes something exactly when a marker is found. It removes the marker up to its separator and all whitespace after it, so the rest is empty or starts with a non-space. |
| Headings.MarkerLengthExact | app.py:374 | For any text that starts with a marker whose separator is at `k`, followed by whitespace up to `j`, the substitution removes exactly the first `j` characters. |
| Headings.NoMarkerKept | app.py:374 | A text that starts with no marker loses nothing. |
| Headings.NormalizeHeading | app.py:372-375 | The normalised key is trimmed, single-spaced and has no upper-case letter. |
| Headings.NormalizeHeadingDropsMarker | app.py:372-375 | The key is the lower-cased, collapsed title with its marker cut off. The second strip never removes anything. |
| Headings.DigitMarker | app.py:374 | `N. title`, with `N` one or two digits, matches with its separator right after `N` and removes `N` plus two characters. |
| Headings.LongNumberIsNoMarker | app.py:374 | Three or more leading digits are not a marker. |
| Headings.RomanMarker | app.py:374 | `(r) title`, where `r` is one to six letters of `ivxlcdm`, is a marker that removes `r` plus three characters. |
| Headings.NumeralWordMarker | app.py:374 | Any word of one to six letters of `ivxlcdm` before `: ` is a marker, e.g. `Civil: `. |
| Headings.NormalizeMarked | app.py:372-375 | For a trimmed, single-spaced heading that starts with a marker, the key is the rest of the heading lower-cased. |
| Headings.NormalizeDigitMarked | app.py:372-375 | For any trimmed, single-spaced title `t`, `N. t` with `N` one or two digits normalises to `t` lower-cased; `1. Key Analysis` becomes `key analysis`. |
| Headings.NormalizeRomanMarked | app.py:372-375 | For any trimmed, single-spaced title `t`, `(r) t` with `r` one to six letters of `ivxlcdm` normalises to `t` lower-cased. |
| Headings.NormalizeNumeralWordMarked | app.py:372-375 | For any trimmed, single-spaced title `t`, `r: t` with `r` one to six letters of `ivxlcdm` (such as `IV`) normalises to `t` lower-cased. |
| Headings.NormalizeUnmarked | app.py:372-375 | A heading that starts with a letter outside `ivxlcdm` is only lower-cased. |
| Headings.NormalizeLongNumber | app.py:372-375 | A heading that starts with three or more digits keeps its number. |
| Headings.CatalogueKeyword | app.py:381-400 | Every keyword `classify_section` tests has the keyword shape. It starts with a non-space character, contains none of `.):-`, and contains a lower-case letter outside `ivxlcdm`, which is what keeps it out of a marker. |
| Headings.KeywordAfterMarker | app.py:374-400 | A catalogue keyword occurs in the lower-cased title exactly when it occurs after the marker. |
| Headings.ClassifyKeyAfterMarker | app.py:377-401 | Cutting off the marker changes no keyword test. |
| Headings.ClassifyIgnoresMarker | app.py:377-401 | `classify_section` gives the same tag as the keyword search over the whole collapsed, lower-cased title. |
| Headings.ClassifyUnderMarker | app.py:377-401 | Putting a marker in front of a normal title does not change its tag. |
| Headings.ClassifyKeyFirstMatch | app.py:377-401 | The tag is `tag` exactly when the text mentions one of `tag`'s keywords and none of an earlier test's keywords. |
| Headings.ClassifyKeyNone | app.py:377-401 | The text is unclassified exactly when it mentions no catalogue keyword. |
| Nodes.HeadingText | app.py:366-367 | The heading text is trimmed and single-spaced, and it keeps every non-whitespace character of the heading, in order. |
| Nodes.HeadingTextWords | app.py:366-367 | `heading_text` is `" ".join(text.split())`: the heading's words joined by single spaces. |
| Nodes.HeadingTextEmpty | app.py:366-367 | `heading_text` is empty exactly when the heading holds nothing but whitespace. This is the emptiness test of app.py:405. |
| Nodes.TagTopic | app.py:454-456 | Tagging keeps a node's kind, level and text, and leaves non-heading, non-box nodes unchanged. A box keeps its tag and child count. |
| Nodes.TagTopicClasses | app.py:455-456 | Exactly the topic titles get `topic-title` appended to their classes. |
| Nodes.TagTopicKeepsSection | app.py:403-405 | Tagging changes neither a node's section nor whether it is a topic title. |
| Nodes.TagTopicKeepsBoundary | app.py:463-467 | Tagging changes no box boundary. |
| Nodes.TagTopics | app.py:454-456 | Every sibling is tagged in place, and the count is kept. |
| Nodes.GridNodeOf | app.py:413-450 | A table node becomes the grid of that table. Other non-box nodes are unchanged. A box is searched like any other part of the tree; `md_to_full_html` runs this pass before any box exists. |
| Nodes.GridNodeKeepsDecisions | app.py:413-450 | Replacing tables by grids changes no section or boundary decision. |
| Nodes.Gridded | app.py:413 | Every sibling is rewritten, and the count is kept. |
| Nodes.GriddedNoTables | app.py:413-450 | After the rewrite no table is left anywhere in the tree. |
| Tables.GridHeader | app.py:429 | The head is the default `Category`, `Fact / Detail` when there are no header texts, and otherwise the first one or two header texts. |
| Tables.RowOf | app.py:436-447 | A grid row is cell 0 and cell 1, with `""` for a missing second cell. |
| Tables.GridRowsFollowSource | app.py:436-448 | Grid row `i` is built from the `i`-th non-empty source row; empty rows are skipped and the order is kept. |
| Tables.GridRowsAppend | app.py:436-448 | Rows are converted one by one: concatenated rows give concatenated grid rows. |
| Tables.ExtraCellsDropped | app.py:441-447 | Cells past the second never reach the grid. |
| Tables.PadRow | app.py:439-440 | Padding keeps the cells and appends `""` up to two cells. |
| Tables.PaddedRow | app.py:439-447 | The first two cells of the padded row are the row's grid row. |
| Tables.BuildGrid | app.py:426-448 | The grid built by the loops is `ToGrid(t)`. |
| Sections.RunLength | app.py:476-487 | The run before the first stopping node contains no stopping node, and ends at a stop or at the end. |
| Sections.Extent | app.py:469-487 | A box takes at least its heading, and no more than the remaining siblings. |
| Sections.FlattenPartition | app.py:489-494 | Unwrapping the boxes gives the siblings back: partitioning loses and reorders nothing. |
| Sections.PartitionShape | app.py:469-494 | Every box starts with the node that opened it and carries its tag. No later box member is a boundary. No opening node is left outside a box. What follows a box is a boundary or another box. |
| Sections.PartitionIdempotent | app.py:460-461 | A second pass wraps nothing more: boxes never nest. |
| Sections.PartitionNothingOpens | app.py:489-494 | With no classified heading among the siblings, nothing is wrapped. |
| Sections.PartitionAppendAtSection | app.py:489-494 | A document cut just before a classified heading partitions part by part. |
| Sections.BoxEndsAtStop | app.py:477-487 | A heading followed by non-boundary siblings and then a boundary gets a box of exactly the heading and those siblings. |
| Sections.SectionsConsistent | app.py:466-467 | Every classified heading is also a boundary. |
| Sections.WrapShape | app.py:489-494 | With the source's decisions, wrapping keeps every node in order, has the partition's shape and is idempotent. |
| Sections.WrapSectionsShape | app.py:452-494 | Unwrapping the result of the whole pass gives the tagged siblings back. The result has the partition's shape. |
| Sections.HeadingBeforeRule | app.py:480-482 | A classified heading followed by whitespace text and an `hr` gets a box of just the heading and that text. The `hr` stays outside. |
| Sections.WhatStopsABox | app.py:480-484 | An unclassified h1 or h3-h6, an unclassified h2 without text, text nodes and other elements do not stop a box. A topic title or a classified heading of any level does. |
| Sections.TagTopicsKeepsSections | app.py:454-467 | The tagging pre-pass changes no decision of the partition. |
| Pipeline.Soup.constructor | app.py:501 | The soup holds the parsed siblings. |
| Pipeline.Soup.TablesToGridTables | app.py:413-450 | Each sibling is replaced, in place, by its gridded form. |
| Pipeline.Soup.TagTopicTitles | app.py:454-456 | Each sibling is replaced, in place, by its tagged form. |
| Pipeline.Soup.WrapFrom | app.py:469-487 | After inserting the box and moving siblings one at a time, the siblings are those before `start`, one box of the `Extent` run, and those after the run. |
| Pipeline.ExtentIsMoved | app.py:476-487 | The number of siblings the loop moved is exactly `Extent`. |
| Pipeline.Soup.WrapAll | app.py:489-494 | The main loop leaves exactly `Partition` of the original siblings. |
| Pipeline.Soup.WrapSectionsAndTagTopics | app.py:452-494 | The soup ends as `WrapSections` of its old siblings. |
| Pipeline.DocTitle | app.py:505-506 | The title has no lower-case letter. Lower-cased, it equals the first h1's text lower-cased, or the fallback lower-cased when there is no h1. |
| Text.UpperUnique | app.py:505-506 | Only the upper-cased text has both of those properties, so they pin the title to the first h1's text (or the fallback) upper-cased. |
| Pipeline.FirstH1Partition | app.py:505 | Wrapping into boxes does not change which h1 comes first. |
| Pipeline.FirstH1Tagged | app.py:505 | Tagging does not change the first h1. |
| Pipeline.FirstH1Gridded | app.py:505 | The grid rewrite does not change the first h1. |
| Pipeline.TitleSurvivesRewrites | app.py:501-506 | The title of the rewritten document is the title of the parsed document. |
| Pipeline.Render | app.py:501-506 | The body is the parsed siblings gridded, tagged and wrapped, and the title is computed from the parsed document. |

## Left out

- Markdown parsing (`mdlib.markdown`) and HTML parsing (BeautifulSoup) are foreign calls. The parsed document is an input: a sequence of sibling nodes.
- A heading's `get_text(" ", strip=True)` is an input too: the `text` field of `Heading`.
- Nodes.Node: only the top-level sibling sequence is modelled. Other elements are opaque (`Other`), so headings and tables nested inside lists, blockquotes or other elements are not visited, as `find_all` would visit them.
- Tables.Table: a cell's inner HTML is an opaque string. Re-parsing it with `append_fragment` is not modelled.
- Text.Lower, Text.Upper: only ASCII letters change case. Python's Unicode case mapping, including mappings that change the length, is not modelled.
- Headings.LeadingDigits: `\d` is modelled as the ASCII digits only. Python also matches other Unicode decimal digits.
- The regex at app.py:499, which deletes `<p>######</p>` from the HTML, works on HTML text that is not modelled.
- Pipeline.Render: the HTML template and the style sheet are not modelled. app.py:513 puts `doc_title` into the page without HTML escaping, and the model likewise returns the title unescaped; what that does to the page markup is not modelled.
- The Streamlit user interface, Playwright/Chromium PDF rendering, file I/O and `ensure_playwright_chromium` are I/O and are not modelled.
- `already_in_box` is not a separate test. In the sibling model, a moved heading is no longer a sibling, so the main loop never reaches it.
