# A verified model of a markdown-to-HTML compiler

This project models the compiler at the heart of a small static site
generator in Dafny. The generator turns a markdown document into an HTML
render tree and then into HTML text. The model follows the program's
stages:

- `HtmlNode` (`htmlnode.dfy`) is the render tree. Leaf nodes hold raw text
  or one tag around a value. Parent nodes hold a tag around a non-empty
  list of children. The module covers the constructors' checks, the
  attribute text and serialisation.
- `TextNodes` (`textnode.dfy`) is the inline tokenizer. It holds the text
  spans and the three splitting passes (delimiters, images, links). Each
  pass is written as a loop, as in the program, and proved equal to a
  functional reference. The module also holds the five-pass pipeline and
  the conversion of a span to an HTML leaf.
- `Blocks` (`textnode.dfy`) splits a document into blocks and classifies
  each block as a heading, code block, quote, unordered list, ordered list
  or paragraph.
- `MarkdownUtilities` (`markdown_utilities.dfy`) holds the image and link
  extractors and the title extractor. The two regular expressions are
  modelled as explicit scanners.
- `MarkdownCore` (`markdown_core.dfy`) turns each block into its node and
  a whole document into a `div` of block nodes.

Two support modules stand in for the host language:

- `Wrappers` holds `Option`, `Result` and the exception values. A Python
  exception is modelled as an `Err` result carrying the same class and
  message.
- `PyStr` holds the Python string operations the program uses: `split`,
  `split(sep, 1)`, the no-argument `split()` (`FirstWord`), `strip`,
  `strip(chars)` (`StripChars`), `lstrip`, `splitlines`, `startswith`,
  `endswith`, `isdigit`, `join`, `int()` on a digit string (`DigitsValue`)
  and `str()` of a natural number (`NatToString`).

Behaviour of the code that a reader may not expect:

- The document is always wrapped in a `div`, even when it has one block.
- Blocks are separated by the literal text `"\n\n"`. A line holding only
  spaces does not separate blocks.
- A quote block becomes one `blockquote` holding one paragraph. Its text
  is the block's lines, each with its leading `>` and space characters
  removed and then stripped, joined by `"\n"`. A nested quote `> a\n> > b`
  is therefore flattened into the paragraph `a\nb`.
- A heading's level is the length of the block's first word, with no
  upper bound.
- An image span renders as `<img src="u" alt=""></img>`. The tokenizer
  stores the caption in the span's `text`, while the conversion reads the
  alt attribute from `alt_text`, which is never set; the caption is
  dropped. The conversion passes the value `""` rather than `None`, so the
  leaf takes the closing-tag form (`ImageSpanRendering`).
- The ordered-list test raises `IndexError` on a line made only of digits.
  The program evaluates `line.split(". ", 1)[1]` once the first piece
  passes `isdigit` (`DigitsOnlyLineRaises`).

## Model

| member | source | states |
|---|---|---|
| HtmlNode.NewLeaf | src/htmlnode.py:20-24 | A leaf is refused, with "LeafNode must have a value.", exactly when it has no value and its tag is not `hr`, `br` or `img`; every leaf it builds is well formed |
| HtmlNode.NewParent | src/htmlnode.py:44-50 | A missing tag is refused first; then missing or empty children are refused; construction succeeds exactly when there is a tag and at least one child; the node is well formed exactly when all its children are |
| HtmlNode.PropsToHtml | src/htmlnode.py:11-14 | The attribute text is empty exactly when there are no attributes, and otherwise starts with the first `key="value"` pair |
| HtmlNode.PropsToHtmlSingle | src/htmlnode.py:11-14 | One attribute renders as `key="value"` |
| HtmlNode.PropsToHtmlAppend | src/htmlnode.py:11-14 | Attributes are rendered in insertion order, with exactly one space between consecutive pairs |
| HtmlNode.LeafRendering | src/htmlnode.py:26-42 | The leaf serialisations: the bare value without a tag; the value between open and close tags, with a space before any attributes; the self-closing form for a value-less `hr`/`br`/`img`; and "LeafNode must have a value" otherwise |
| HtmlNode.RendersIffWellFormed | src/htmlnode.py:26-63 | A whole tree serialises without raising exactly when it satisfies the constructors' checks at every node |
| HtmlNode.ChildrenRenderIffWellFormed | src/htmlnode.py:62 | The children's concatenation succeeds exactly when every child is well formed |
| HtmlNode.ChildrenHtmlIsJoin | src/htmlnode.py:62 | The children's HTML is the children's serialisations concatenated left to right |
| HtmlNode.ParentRendering | src/htmlnode.py:52-63 | A parent with well-formed children serialises as its open tag, its children's HTML in order, and its close tag |
| Wrappers.MapResult | src/markdown_core.py:50 | Mapping a raising function over a list succeeds exactly when every element succeeds, keeping order and length; otherwise it fails with the error of the first failing element |
| TextNodes.AfterConversion | src/textnode.py:114-115 | Converting an image span with a url and no alt text leaves the span with an alt text; the span stays equal to what it was, because `__eq__` ignores `alt_text`; every other span is unchanged |
| TextNodes.SplitNodeDelimiter | src/textnode.py:75-89 | A non-text span passes through unchanged; a text span is refused exactly when splitting at the delimiter gives an even number of pieces, with the "Unmatched delimiter" message |
| TextNodes.SplitNodesDelimiter | src/textnode.py:72-91 | The loop over the spans and their pieces computes the whole delimiter pass, error included |
| TextNodes.DelimitedPieces | src/textnode.py:84-89 | The inner loop keeps the non-empty even pieces as plain text and every odd piece with the pass's type, in order |
| TextNodes.SplitNodesImage | src/textnode.py:22-45 | The image pass loop computes the image pass as specified, error included |
| TextNodes.SplitNodesLink | src/textnode.py:47-70 | The link pass loop computes the link pass as specified, error included |
| TextNodes.SplitNodesLiterals | src/textnode.py:22-70 | The shared loop of the image and link passes computes the specified pass |
| TextNodes.SplitTextAtLiterals | src/textnode.py:34-43 | The loop over the extracted pairs computes the text before each match, the typed span, and the trailing text |
| TextNodes.SplitNodeLiterals | src/textnode.py:25-32 | A non-text span, or a text span with nothing extracted, passes through unchanged |
| TextNodes.ApplyOutcome | src/textnode.py:121-130 | A pass succeeds exactly when every span's split succeeds; when it fails, it fails with the error of the first failing span |
| TextNodes.ApplyStopsAtError | src/textnode.py:24-45 | Once a prefix of the spans raises, the whole pass raises the same error |
| TextNodes.ApplyAppend | src/textnode.py:24-45 | A pass over two concatenated lists is the pass over each, concatenated, with the first list's error taking precedence |
| TextNodes.PassKeepsTypedInPlace | src/textnode.py:25-27 | A non-text span passes through every pass unchanged and stays in its position |
| TextNodes.DelimiterFailsIff | src/textnode.py:80-82 | A delimiter pass raises exactly when some text span holds an odd number of delimiters, and the error names the failing span's text |
| TextNodes.UnparsePieces | src/textnode.py:84-89 | Writing the spans of a split back as markdown puts the delimiter around each odd piece and gives back the original text |
| TextNodes.UnparseSplitAtLiterals | src/textnode.py:34-43 | Writing the spans of an image or link split back as markdown gives back the original text |
| TextNodes.SplitNodePreservesMarkup | src/textnode.py:22-91 | Each of the five passes turns one span into spans that stand for the same markdown |
| TextNodes.ApplyPreservesMarkup | src/textnode.py:22-91 | A whole pass preserves the markdown the span list stands for |
| TextNodes.TextToTextNodesRoundTrip | src/textnode.py:121-130 | When tokenizing succeeds, writing the spans back as markdown gives exactly the input text |
| TextNodes.DelimitedSpans | src/textnode.py:84-89 | The spans a delimiter pass produces with its type are exactly the odd pieces, in order; every plain span it produces is non-empty |
| TextNodes.LiteralSpans | src/textnode.py:35-43 | The image or link spans produced are exactly the extracted (caption, url) pairs, in order, each with its url; every plain span produced is non-empty |
| TextNodes.ApplyConvertible | src/textnode.py:121-130 | A pass keeps every span convertible to HTML |
| TextNodes.TextToTextNodesConvertible | src/textnode.py:121-130 | Every span the tokenizer produces has a known type and, for links and images, a url, so converting it to HTML cannot raise |
| TextNodes.UnmarkedTextIsOneSpan | src/textnode.py:121-130 | Non-empty text with no `*`, backtick or `[` comes out as a single plain span |
| TextNodes.DelimitedKeepsUnmarked | src/textnode.py:80-87 | Text that does not contain the delimiter is kept as one plain span |
| TextNodes.TextNodeToHtmlNode | src/textnode.py:93-119 | Conversion raises exactly for an unknown type or a link or image without a url, with the program's messages; otherwise it gives a well-formed leaf whose value is the span's text (empty for an image) and which has no tag exactly for plain text |
| TextNodes.SpanRendering | src/textnode.py:94-109 | Plain text renders as itself; bold, italic and code render inside `b`, `i` and `code`; a link renders as an `a` element with its url as `href` |
| TextNodes.ImageSpanRendering | src/textnode.py:111-116 | An image span from the tokenizer renders as `<img src="url" alt=""></img>` |
| Blocks.MarkdownToBlocks | src/textnode.py:132-136 | Every block is non-empty and has no leading or trailing whitespace |
| Blocks.KeptBlocksAreBlocks | src/textnode.py:134-135 | Stripping and dropping empty pieces leaves only non-empty stripped blocks |
| Blocks.NoBlocksIff | src/textnode.py:133-135 | A document has no blocks exactly when every piece between blank-line separators is whitespace |
| Blocks.KeptBlocksAppend | src/textnode.py:134-135 | The blocks kept from two lists of pieces are the blocks kept from each, in order |
| Blocks.NoBlocksInEmptyDocument | src/textnode.py:132-136 | The empty document has no blocks |
| Blocks.SingleBlock | src/textnode.py:132-136 | A document with no blank-line separator and some non-whitespace text is one block, its stripped text |
| Blocks.BlockToBlockType | src/textnode.py:138-152 | A block is a heading exactly when it starts with `#`s followed by a space; it is code exactly when it is not a heading and both starts and ends with three backticks; otherwise the line rules decide |
| Blocks.LineRules | src/textnode.py:143-152 | The line rules give a quote exactly when every line starts with `>`; they give an unordered list exactly when not every line is a quote line and every line starts with `*` or `-` then a space; any error is `IndexError` |
| Blocks.OrderedLineTest | src/textnode.py:148 | The per-line ordered test passes exactly for `<digits>. <text>` lines and raises `IndexError` exactly on a line made only of digits |
| Blocks.AllOrderedLines | src/textnode.py:148 | The `all(...)` test passes exactly when every line is an ordered line; it raises exactly when a digits-only line comes before any line that fails the test |
| Blocks.OrderedRule | src/textnode.py:147-152 | The ordered-list rule answers an ordered list or a paragraph; it raises exactly when the per-line test raises, always with `IndexError`; it gives an ordered list exactly when every line passes the test and the numbers are 1 to n |
| Blocks.OrderedListRule | src/textnode.py:147-152 | A block that is neither a quote nor a bullet list is an ordered list exactly when its lines are numbered 1, 2, 3, ... in order; classification raises exactly when the test meets a digits-only line first; otherwise the block is a paragraph |
| Blocks.Misnumbered | src/textnode.py:149-152 | Numbered lines whose numbers are not 1, 2, 3, ... in order make a paragraph |
| Blocks.ProseLineIsParagraph | src/textnode.py:138-152 | A single line starting with none of `#`, a backtick, `>`, `*`, `-` or a digit is a paragraph |
| Blocks.DigitsOnlyLineRaises | src/textnode.py:148 | The block `12` raises `IndexError` instead of being classified |
| Blocks.SkippedNumberIsParagraph | src/textnode.py:149-152 | The block `1. a` / `3. b` is a paragraph, because its numbers skip 2 |
| MarkdownUtilities.MatchAtFacts | src/markdown_utilities.py:5-13 | A match found by the scanner spells `![alt](url)` or `[text](url)`; both groups are non-greedy, so the caption stops at the first `](` and the url at the first `)`; neither crosses a line break; a link match is not preceded by `!` |
| MarkdownUtilities.ScanMatches | src/markdown_utilities.py:5-13 | Every match the scan returns is the match found at its own start position |
| MarkdownUtilities.Scan | src/markdown_utilities.py:7 | Matches are returned left to right and do not overlap |
| MarkdownUtilities.MatchAtComplete | src/markdown_utilities.py:5-13 | Wherever the pattern can match (the shape of an image or link, on one line, for a link not after `!`), the scanner finds a match at that position |
| MarkdownUtilities.MatchAtSound | src/markdown_utilities.py:5-13 | What the scanner finds at a position is a match of the pattern: the right shape, on one line, and for a link not after `!` |
| MarkdownUtilities.NothingFoundIff | src/markdown_utilities.py:5-13 | Over any range of positions, the scanner finds nothing exactly when the pattern matches nowhere there |
| MarkdownUtilities.ScanSkipsNoMatch | src/markdown_utilities.py:7 | No match of the pattern starts between the scan position and the first match returned |
| MarkdownUtilities.ScanGapsHoldNoMatch | src/markdown_utilities.py:7 | No match of the pattern starts between two consecutive matches returned, so no match is skipped |
| MarkdownUtilities.NoImagesIff | src/markdown_utilities.py:5-8 | The image extractor returns nothing exactly when the image pattern matches nowhere in the text |
| MarkdownUtilities.NoLinksIff | src/markdown_utilities.py:10-13 | The link extractor returns nothing exactly when the link pattern matches nowhere in the text |
| MarkdownUtilities.ImageIsNotLink | src/markdown_utilities.py:11 | The bracket of an image is never also taken as the start of a link |
| MarkdownUtilities.Groups | src/markdown_utilities.py:7 | The extractor returns, for each match in order, its caption and its url |
| MarkdownUtilities.TitleIn | src/markdown_utilities.py:15-20 | The title is the stripped rest of the first line that starts with `# `; it raises "No h1 header found in the markdown file." exactly when no line starts with `# ` |
| MarkdownUtilities.TitleOfSingleLine | src/markdown_utilities.py:15-20 | A one-line document has a title exactly when the line starts with `# ` |
| MarkdownCore.TextToChildren | src/markdown_core.py:5-7 | Converting text to children fails exactly when tokenizing fails, with the same error; otherwise each child is the well-formed leaf converted from the corresponding span, in order |
| MarkdownCore.InlineParent | src/markdown_core.py:9-13 | A block element around inline text fails when tokenizing fails or when the text yields no spans ("ParentNode must have children."); otherwise it is a well-formed parent over the converted spans |
| MarkdownCore.CreateCodeBlockNode | src/markdown_core.py:15-16 | A code block always succeeds: a `pre` holding a `code` holding the block's text with its backticks stripped from both ends, never tokenized |
| MarkdownCore.CreateQuoteNode | src/markdown_core.py:18-20 | A quote is a `blockquote` around one paragraph of the quote's cleaned lines joined by newlines; it succeeds exactly when that paragraph does |
| MarkdownCore.OrderedListItem | src/markdown_core.py:29 | An ordered item without `. ` raises `IndexError`; otherwise it is a list item of the stripped text after the first `. ` |
| MarkdownCore.ListNode | src/markdown_core.py:22-30 | A list has one item per line, in order, under its tag; when every item succeeds, it succeeds exactly when there is at least one line; an empty block raises "ParentNode must have children."; on a non-empty block it fails with the error of the first item that fails, every earlier item having succeeded |
| MarkdownCore.BlockRoot | src/markdown_core.py:32-46 | The node built for a block is a parent with no attributes. A heading's tag is `h` followed by the length of its first word. The other types map to `pre`, `blockquote`, `ul`, `ol` and `p` through the separate table `RootTag` |
| MarkdownCore.BlockFailsIff | src/markdown_core.py:9-46 | A block fails exactly when its classification raises (an `IndexError`) or its type's builder raises. A code block never fails. A paragraph, heading or quote fails exactly when its text does not tokenize into at least one span. A list fails exactly when one of its lines fails: an unordered item's text does not tokenize, or an ordered line has no ". " or its text does not tokenize |
| MarkdownCore.BlockNodeWellFormed | src/markdown_core.py:32-46 | Every node built for a block is well formed, so it serialises without raising |
| MarkdownCore.HeadingLevel | src/markdown_core.py:12-13 | A heading of n `#`s and a space becomes an `h<n>` element of its stripped text, for every n >= 1, with no upper bound |
| MarkdownCore.MarkdownToHtmlNode | src/markdown_core.py:48-51 | A document with no blocks raises "ParentNode must have children."; otherwise the result is a `div` without attributes with one child per block, each the node built for that block, in order |
| MarkdownCore.CompileOutcome | src/markdown_core.py:48-51 | Compiling succeeds exactly when the document has a block and every block's node succeeds; otherwise it fails with the error of the first failing block |
| MarkdownCore.CompiledDocumentRenders | src/markdown_core.py:48-51 | A compiled document is well formed and serialises without raising |
| MarkdownCore.EmptyDocumentFails | src/markdown_core.py:48-51 | The empty document raises "ParentNode must have children." |
| MarkdownCore.OneBlockDocument | src/markdown_core.py:48-51 | A single block compiles to a `div` holding just that block's node |
| MarkdownCore.PlainParagraphDocument | src/markdown_core.py:9-10 | A line of plain text compiles to `<div><p>text</p></div>` |
| MarkdownCore.PlainTextExample | src/markdown_core.py:48-51 | `plain text` compiles to `<div><p>plain text</p></div>` |
| MarkdownCore.HeadingDocument | src/markdown_core.py:12-13 | `#`×n, a space and plain text compile to `<div><hn>text</hn></div>` |
| MarkdownCore.CodeBlockRendering | src/markdown_core.py:15-16 | A code block renders as `<pre><code>…</code></pre>` around its text with the backticks stripped |
| MarkdownCore.QuoteDocument | src/markdown_core.py:18-20 | `> text` compiles to `<div><blockquote><p>text</p></blockquote></div>` |
| MarkdownCore.NestedQuoteDocument | src/markdown_core.py:18-20 | `> a` then `> > b` compiles to one blockquote holding one paragraph `a\nb`: the nesting is flattened |
| MarkdownCore.UnorderedListDocument | src/markdown_core.py:22-25 | `- a` then `- b` compiles to `<div><ul><li>a</li><li>b</li></ul></div>` |
| MarkdownCore.OrderedListDocument | src/markdown_core.py:27-30 | `1. a` then `2. b` compiles to `<div><ol><li>a</li><li>b</li></ol></div>` |

## Left out

- `copy_static_files` (src/markdown_utilities.py:22-25) copies a directory tree. It is file-system I/O and is not part of this model. The same holds for the driver in `src/main.py`.
- `__repr__` of `HTMLNode` and of `TextNode` only produce debugging text and are not modelled.
- `HTMLNode.to_html` on the base class only raises `NotImplementedError`. The model has only the two concrete node kinds, so a base-class node cannot be built.
- Unicode: whitespace is the ASCII set that Python's `str.isspace` accepts, `isdigit` accepts ASCII digits only, and `splitlines` breaks only at `"\n"`. The other line terminators `splitlines` knows (`"\r"`, `"\r\n"`, `"\x0b"`, `"\x0c"`, `"\x1c"` to `"\x1e"`, `"\x85"`, `"\u2028"`, `"\u2029"`) and non-ASCII digits and spaces are not modelled.
- Regular expressions: the two patterns of the extractors are modelled by hand-written scanners for exactly those patterns, not by a regular-expression engine.
- TextNodes.AfterConversion: the write to `alt_text` in `text_node_to_html_node` is modelled on values, as the span's state after the call. Aliasing of that span elsewhere is not modelled.
- Attribute dictionaries are modelled as insertion-ordered lists of pairs. Every call site uses distinct keys, so key replacement is not modelled.
- `TextNode.__eq__` is modelled as the predicate `Equal`, which ignores `alt_text`. Lists of spans are compared with the model's own equality.
- Integer width: Python integers are unbounded, like Dafny's, so nothing is truncated.
- The builders `CreateParagraphNode`, `CreateHeadingNode`, `ListItem`, `UnorderedListItem`, `CreateUnorderedListNode` and `CreateOrderedListNode` are plain definitions. Their behaviour is stated by `InlineParent`, `ListNode`, `BlockRoot`, `BlockFailsIff` and the rendering lemmas above.
