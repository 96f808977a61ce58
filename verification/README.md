# playwrightmd core, modelled in Dafny

playwrightmd turns a web page, a local HTML file or HTML on standard input
into Markdown. Around a headless browser, an HTTP client and the
markdownify library sits a small amount of its own logic, all in
`src/playwrightmd/__init__.py`, and that logic is what this project models
and proves things about:

- **input classification** (`detect_input_type`): standard input, URL or
  local file, decided by an ordered chain of string tests and one
  filesystem probe;
- **Markdown detection** (`is_markdown_file`, `is_markdown_content_type`):
  extension and Content-Type tests that let Markdown bypass conversion;
- **content extraction** (`clean_html`): remove boilerplate subtrees
  (scripts, navigation, header/footer, comments, ...) and pick the
  main-content subtree by a fixed priority list, or defer to a
  user-supplied CSS selector;
- **whitespace normalisation** (the loop at the end of `html_to_markdown`):
  drop repeated blank lines, right-trim lines, strip the text, end it with
  one newline.

Files:

| file | module | what |
|---|---|---|
| `wrappers.dfy` | `Wrappers` | `Option`, `Result` (Python's `None` and raised `ValueError`s) |
| `text.dfy` | `Text` | Python's whitespace set, `strip`/`lstrip`/`rstrip`, `split("\n")`/`"\n".join`, prefix/suffix/substring tests, ASCII `lower` |
| `input_classifier.dfy` | `InputClassifier` | `detect_input_type` |
| `markdown_detection.dfy` | `MarkdownDetection` | `is_markdown_file`, `is_markdown_content_type` |
| `normalizer.dfy` | `Normalizer` | the clean-up loop and the final strip |
| `dom.dfy` | `Dom` | abstract document tree, document order, `find`, subtree removal |
| `extractor.dfy` | `Extractor` | `clean_html` |
| `conversion.dfy` | `Conversion` | `html_to_markdown` as extraction, converter, normaliser |

Things the code takes from outside are parameters: whether a path exists
(`pathExists`, which answers `Exists`, `Missing`, or `StatFailed` for the
`OSError` that `Path.exists` lets through when `stat` fails for a reason
other than a missing file, such as a name that is too long), the CSS selector engine (`selectOne`), the two class-list
tests of `clean_html` (`navClass`, `contentClass`), and the markdownify
conversion (`toMarkdown`). A parsed document is a forest of
`Element(tag, classes, role, children) | Text | Comment` nodes; document
order is pre-order. A removal test is always applied to the node with its
children dropped (`Shallow`), which makes every removal node-local.

Two details of the code worth knowing: it removes header/footer in its
fifth loop, after the class and role loops, and `Dom.PassOrderIrrelevant`
shows the order of the loops makes no difference; and the final `.strip()`
also removes leading whitespace of the first kept line, not only blank
lines.

## Model

| member | source | states |
|---|---|---|
| `InputClassifier.DetectInputType` | src/playwrightmd/__init__.py:28-39 | for each outcome, exactly which arguments produce it: `None`/`-` give standard input; an `http://`/`https://` prefix gives URL; otherwise an existing path gives file, and an existence test that raises gives an error carrying the argument; otherwise (the path is missing) a dotted, non-absolute name gives URL and every other argument is a "cannot determine" error carrying the argument |
| `InputClassifier.FilesystemNotConsultedEarly` | src/playwrightmd/__init__.py:30-34 | for `None`, `-` and HTTP(S) arguments the answer is the same whatever the filesystem holds, and never an error |
| `InputClassifier.ExistenceBeforeDomainGuess` | src/playwrightmd/__init__.py:34-38 | a dotted relative name is a file if it exists, a URL only if it is missing, and an error if the existence test raises |
| `InputClassifier.DetectInputTypeExamplesUrl` | tests/test_main_function.py:11-12 | arguments with an `http://` or `https://` scheme are classified as URLs |
| `InputClassifier.DetectInputTypeExamplesDomain` | tests/test_main_function.py:13 | `example.com`, when no such path exists, is taken for a domain and classified as a URL |
| `InputClassifier.DetectInputTypeExamplesFile` | tests/test_main_function.py:16-18 | an absolute or relative path that exists is classified as a file |
| `InputClassifier.DetectInputTypeExamplesStdin` | tests/test_main_function.py:21-22 | no argument, or `-`, selects standard input |
| `MarkdownDetection.IsMarkdownFile` | src/playwrightmd/__init__.py:205-208 | true exactly when the last extension (from the last dot on) of the lower-cased path is one of the nine Markdown extensions |
| `MarkdownDetection.EndsWithExtension` | src/playwrightmd/__init__.py:208 | a string ends with a dot-extension exactly when that extension is its last one, which is what makes the suffix test an extension test |
| `MarkdownDetection.LastExtension` | src/playwrightmd/__init__.py:208 | the result is empty exactly when there is no dot, and otherwise a dot-extension the string ends with |
| `MarkdownDetection.MarkdownFileIgnoresCase` | src/playwrightmd/__init__.py:208 | paths differing only in letter case are classified alike |
| `MarkdownDetection.MarkdownFileByExtension` | src/playwrightmd/__init__.py:207-208 | once the lower-cased path is known to end with a given extension, the path is Markdown exactly when that extension is one of the nine |
| `MarkdownDetection.MarkdownFileExampleUpper` | tests/test_markdown_detection.py:25 | `test.MD` is Markdown |
| `MarkdownDetection.MarkdownFileExampleLong` | tests/test_markdown_detection.py:26 | `TEST.MARKDOWN` is Markdown |
| `MarkdownDetection.MarkdownFileExampleText` | tests/test_markdown_detection.py:30 | `test.txt` is not Markdown |
| `MarkdownDetection.MarkdownFileExampleBare` | tests/test_markdown_detection.py:33 | `test` (no extension) is not Markdown |
| `MarkdownDetection.IsMarkdownContentType` | src/playwrightmd/__init__.py:211-215 | false for a missing or empty header; otherwise true exactly when the lower-cased header contains `markdown` |
| `MarkdownDetection.MarkdownPatternsReduce` | src/playwrightmd/__init__.py:215 | containing one of the three listed patterns is the same as containing `markdown` |
| `MarkdownDetection.ContentTypeExampleParameter` | tests/test_markdown_detection.py:40 | `text/plain; charset=utf-8; format=markdown` is Markdown |
| `MarkdownDetection.ContentTypeExamplePlain` | tests/test_markdown_detection.py:48 | `text/plain` is not Markdown |
| `Text.Split` | src/playwrightmd/__init__.py:191 | at least one piece, no piece holds a newline, and joining the pieces with newlines gives the input back |
| `Text.SplitJoin` | src/playwrightmd/__init__.py:191 | splitting a join of newline-free lines gives the lines back |
| `Text.RStrip` | src/playwrightmd/__init__.py:199 | the result is a prefix of the input, what was cut is whitespace, and it does not end in whitespace |
| `Text.LStrip` | src/playwrightmd/__init__.py:202 | the result is a suffix of the input, what was cut is whitespace, and it does not start with whitespace |
| `Text.Strip` | src/playwrightmd/__init__.py:202 | the result sits inside the input between two whitespace-only pieces and neither starts nor ends with whitespace |
| `Text.Lower` | src/playwrightmd/__init__.py:208 | the lower-cased path or header has the same length, no upper-case ASCII letter left, each upper-case letter replaced by its lower-case partner and every other character unchanged |
| `Text.LowerIdempotent` | src/playwrightmd/__init__.py:215 | lower-casing an already lower-cased header changes nothing, and text without upper-case letters is its own lower-case form |
| `Normalizer.Collapse` | src/playwrightmd/__init__.py:193-200 | kept lines have no trailing whitespace, no two neighbouring kept lines are empty, newline-free input gives newline-free lines, and the last kept line is empty exactly when the last input line is blank |
| `Normalizer.CollapseLoop` | src/playwrightmd/__init__.py:191-200 | the loop with its `prev_empty` flag computes the closed form in which a blank line is dropped exactly when the previous input line is blank |
| `Normalizer.Normalize` | src/playwrightmd/__init__.py:190-202 | the output ends in a newline; it is either just `"\n"` or starts with a non-whitespace character and ends with a non-whitespace character followed by one newline |
| `Normalizer.NormalizeStructure` | src/playwrightmd/__init__.py:190-202 | the output is the collapsed lines without leading and trailing blank lines, first line left-trimmed, joined and closed by one newline |
| `Normalizer.NormalizedLinesClean` | src/playwrightmd/__init__.py:196-202 | no output line carries trailing whitespace and no two neighbouring output lines are both empty |
| `Normalizer.NonBlankLinesSurvive` | src/playwrightmd/__init__.py:193-202 | the non-blank output lines are exactly the non-blank input lines, in order, right-trimmed, the first also left-trimmed |
| `Normalizer.NormalizeIdempotent` | src/playwrightmd/__init__.py:190-202 | normalising a normalised text changes nothing |
| `Dom.FindFirst` | src/playwrightmd/__init__.py:164-170 | nothing is found exactly when no node in document order passes the test; otherwise the earliest such node is returned |
| `Dom.Prune` | src/playwrightmd/__init__.py:135-160 | no node anywhere in the result is selected by the removal test, and there are no more top-level nodes than before |
| `Dom.PruneKeepsUnselected` | src/playwrightmd/__init__.py:135-160 | at the top level exactly the unselected nodes remain, in order, with their own attributes |
| `Dom.PruneOutline` | src/playwrightmd/__init__.py:135-160 | at every depth: the pruned document, listed in document order with depths, is the original list with each selected node and everything below it skipped; every node with no selected node on its path from the root stays, at its depth, in order, with its own attributes |
| `Dom.OutlineDeterminesForest` | src/playwrightmd/__init__.py:135-160 | the depth-tagged document-order listing loses nothing: two documents with the same listing are equal, so `PruneOutline` fixes the whole pruned tree |
| `Dom.PruneIsSkipSelected` | src/playwrightmd/__init__.py:135-160 | the pruned document is the only document whose listing is the original listing with the selected subtrees skipped |
| `Dom.PruneTwice` | src/playwrightmd/__init__.py:134-160 | two removal passes in a row equal one pass with the disjunction of their tests |
| `Dom.PruneEachIsOnePass` | src/playwrightmd/__init__.py:134-160 | a list of removal passes run in order equals one pass removing what any of them selects |
| `Dom.PassOrderIrrelevant` | src/playwrightmd/__init__.py:134-160 | reordering the removal loops does not change the cleaned document |
| `Dom.PruneSameTest` | src/playwrightmd/__init__.py:134-160 | removal depends only on which nodes the test selects |
| `Dom.PruneNothing` | src/playwrightmd/__init__.py:134-160 | a pass that selects nothing leaves the document unchanged |
| `Dom.SubtreeWithinDocument` | src/playwrightmd/__init__.py:163-174 | every node under a selected node is a node of the document |
| `Extractor.CleanupPassesSelectBoilerplate` | src/playwrightmd/__init__.py:134-160 | the six loops together select exactly the nine tags, the three roles, the class-pattern hits and the comments |
| `Extractor.Clean` | src/playwrightmd/__init__.py:134-160 | the six loops equal a single pass removing every boilerplate node with its subtree, and no boilerplate node is left anywhere |
| `Extractor.FirstCandidate` | src/playwrightmd/__init__.py:163-172 | nothing is chosen exactly when no candidate test matches any node; otherwise the earliest node of the first candidate that matches anything |
| `Extractor.SelectMainContent` | src/playwrightmd/__init__.py:163-172 | the whole document exactly when none of `main`, `article`, `role="main"`, content `div`, `body` occurs; otherwise the first node in document order of the first of these, in that priority, that occurs at all |
| `Extractor.MainWins` | src/playwrightmd/__init__.py:164 | if the document has a `main` element, the first one in document order is chosen |
| `Extractor.ArticleNext` | src/playwrightmd/__init__.py:165 | with no `main` but some `article`, the first `article` is chosen |
| `Extractor.WholeDocumentOnlyWithoutCandidates` | src/playwrightmd/__init__.py:163-172 | the whole document is returned exactly when none of `main`, `article`, `role="main"`, content `div`, `body` occurs |
| `Extractor.CleanHtml` | src/playwrightmd/__init__.py:124-174 | with a selector: no clean-up, the selector's match, and an error naming the selector exactly when it matches nothing; without one: never an error, the main content of the cleaned document, holding no boilerplate node |
| `Extractor.ExtractOfCleanIsClean` | src/playwrightmd/__init__.py:134-172 | whatever the priority list picks from the cleaned document holds no boilerplate node |
| `Extractor.NoScriptsStylesOrComments` | src/playwrightmd/__init__.py:134-160 | without a selector, no script, style or comment node reaches the converter |
| `Conversion.HtmlToMarkdown` | src/playwrightmd/__init__.py:177-202 | fails exactly when extraction fails, with the same error; a produced text is the converter's output for the extract, normalised; it is a fixed point of the normaliser and ends in one newline after non-whitespace, or is `"\n"` |
| `Conversion.ConverterLinesSurvive` | src/playwrightmd/__init__.py:182-202 | when extraction succeeds, the non-blank lines of the produced text are the converter's non-blank lines, in order, right-trimmed, the first also left-trimmed |

## Left out

- `fetch_with_playwright` and `render_local_html`: headless-browser automation, timeouts (including the swallowed network-idle timeout) and resource clean-up are foreign, I/O-bound code.
- `get_html_content`: HTTP, file and standard-input reads; its `https://` prefixing and Markdown flag are glue around that I/O.
- `write_output`, `create_parser`, `main`: file/stdout writing, argument parsing and the mapping of exceptions to exit codes.
- `DEFAULT_USER_AGENT`: only used by the browser and HTTP fetching code.
- `WAIT_UNTIL_CHOICES`: only argparse's list of allowed values for `--wait-until` in `create_parser`; command-line parsing is not part of this model.
- HTML parsing with lxml, BeautifulSoup's `select_one`, serialisation with `str(...)` and the markdownify conversion with its options: external libraries, present only as the parameters `selectOne` and `toMarkdown` (the document is taken as already parsed).
- The two class-pattern lambdas: they are the abstract parameters `navClass` and `contentClass`, because whether BeautifulSoup hands them a class list or single class strings is library behaviour; nothing proved depends on what they compute.
- `InputClassifier.DetectInputType`: which `stat` failures `Path.exists` reports as a missing path and which it re-raises (this depends on the errno and on the Python version) is left to the `pathExists` oracle; the model only fixes what the classifier does with each answer.
- `Text.Lower`: lower-cases ASCII letters only; Python's `str.lower` is Unicode-wide (for example the Kelvin sign lower-cases to `k`), so for non-ASCII paths and headers the model may answer differently.
- Node kinds other than elements, text and comments (doctype, CDATA, processing instructions): `clean_html` never tests for them.
- Attributes other than tag, class and role (`id`, `href`, `src`, `alt`, ...): the removal and priority tests never read them, but the CSS selector engine, the serialisation of the extract and markdownify do. Because `Node` has no such fields, `selectOne` and `toMarkdown` are oracles that cannot tell apart documents differing only in those attributes; a selector such as `#main` is modelled only through what `selectOne` returns.
- `Extractor.CleanHtml`: `selectOne` returns an `Option`, so the exception that `select_one` raises on a malformed selector, which `clean_html` lets propagate, is not modelled; neither extraction nor `Conversion.HtmlToMarkdown` has an error case for it.
- Link-URL truncation and a plain-text extension classifier: described for the tool but not present in `src/playwrightmd/__init__.py`.
