/** The block-to-tree compiler: one HTML node per block, built by the
    builder for the block's type, and the whole document wrapped in a
    `div`. Quotes are not nested: every line of a quote loses its leading
    `>` and space characters and the lines form one paragraph. */
module MarkdownCore {
  import opened Wrappers
  import opened PyStr
  import opened HtmlNode
  import opened TextNodes
  import opened Blocks

  /** `text_to_children`: one HTML leaf per span of the text, in order.
      Converting the spans cannot fail, so this fails exactly when
      tokenizing does, with the tokenizer's error. */
  function TextToChildren(text: string): (r: Result<seq<Node>>)
    ensures r.Err? <==> TextToTextNodes(text).Err?
    ensures r.Err? ==> r.error == TextToTextNodes(text).error
    ensures r.Ok? ==> |r.value| == |TextToTextNodes(text).value|
    ensures r.Ok? ==> forall i :: 0 <= i < |r.value| ==>
                        TextNodeToHtmlNode(TextToTextNodes(text).value[i]) == Ok(r.value[i])
    ensures r.Ok? ==> forall i :: 0 <= i < |r.value| ==> r.value[i].Leaf? && WellFormed(r.value[i])
  {
    var spans :- TextToTextNodes(text);
    TextToTextNodesConvertible(text);
    MapResult(spans, TextNodeToHtmlNode)
  }

  /** A parent node with tag `tag` over the children of `text`. It fails
      when the text does not tokenize, or gives no span at all. */
  function InlineParent(tag: string, text: string): (r: Result<Node>)
    ensures r.Ok? <==> TextToChildren(text).Ok? && TextToChildren(text).value != []
    ensures TextToChildren(text).Ok? && TextToChildren(text).value == [] ==>
              r == Err(ValueError("ParentNode must have children."))
    ensures TextToChildren(text).Err? ==> r == Err(TextToChildren(text).error)
    ensures r.Ok? ==> r.value == Parent(Some(tag), TextToChildren(text).value, []) && WellFormed(r.value)
  {
    var children :- TextToChildren(text);
    NewParent(Some(tag), Some(children), [])
  }

  /** `create_paragraph_node`. */
  function CreateParagraphNode(block: string): (r: Result<Node>)
  {
    InlineParent("p", block)
  }

  /** `create_heading_node`: the tag is `h` followed by the level, and the
      content is the block without its leading `#`s, stripped. */
  function CreateHeadingNode(block: string, level: nat): (r: Result<Node>)
  {
    InlineParent("h" + NatToString(level), Strip(LStripChars(block, "#")))
  }

  /** `create_code_block_node`: `pre > code > leaf`, the leaf holding the
      block with its leading and trailing backticks removed, not tokenized. */
  function CreateCodeBlockNode(block: string): (r: Result<Node>)
    ensures r.Ok? && WellFormed(r.value)
    ensures r.value.Parent? && r.value.tag == Some("pre") && |r.value.children| == 1
    ensures r.value.children[0] == Parent(Some("code"), [Leaf(None, Some(StripChars(block, "`")), [])], [])
  {
    // Neither inner constructor can fail: the leaf has a value and the
    // `code` node has a child.
    var leaf := NewLeaf(None, Some(StripChars(block, "`")), []).value;
    var code := NewParent(Some("code"), Some([leaf]), []).value;
    NewParent(Some("pre"), Some([code]), [])
  }

  /** One line of a quote: leading `>` and space characters removed, then
      stripped. */
  function QuoteLineText(line: string): string {
    Strip(LStripChars(line, "> "))
  }

  /** The text of a quote: its lines, each cleaned, joined with `"\n"`. */
  function QuoteText(block: string): string {
    Join(MapStrings(QuoteLineText, SplitLines(block)), "\n")
  }

  /** `create_quote_node`: one paragraph of the quote's text inside a
      `blockquote`. */
  function CreateQuoteNode(block: string): (r: Result<Node>)
    ensures r.Ok? <==> CreateParagraphNode(QuoteText(block)).Ok?
    ensures r.Ok? ==> r.value == Parent(Some("blockquote"), [CreateParagraphNode(QuoteText(block)).value], [])
    ensures r.Ok? ==> WellFormed(r.value)
  {
    var p :- CreateParagraphNode(QuoteText(block));
    NewParent(Some("blockquote"), Some([p]), [])
  }

  /** An `li` over the children of an item's text. */
  function ListItem(text: string): (r: Result<Node>)
  {
    InlineParent("li", text)
  }

  /** An unordered item: its first two characters dropped, then stripped. */
  function UnorderedListItem(item: string): (r: Result<Node>)
  {
    ListItem(Strip(Drop(item, 2)))
  }

  /** An ordered item: the text after its first `". "`, stripped; an item
      without `". "` raises `IndexError`. */
  function OrderedListItem(item: string): (r: Result<Node>)
    ensures !Contains(item, ". ") ==> r == Err(IndexError(IndexOutOfRange))
    ensures Contains(item, ". ") ==> r == ListItem(Strip(SplitOnce(item, ". ")[1]))
  {
    var parts := SplitOnce(item, ". ");
    if |parts| < 2 then Err(IndexError(IndexOutOfRange))
    else ListItem(Strip(parts[1]))
  }

  /** A list node `tag` with the items the lines give, one per line, in
      order; the first line that fails aborts. */
  function ListNode(tag: string, lines: seq<string>, item: string -> Result<Node>): (r: Result<Node>)
    ensures r.Ok? ==> r.value.Parent? && r.value.tag == Some(tag) && r.value.props == []
    ensures r.Ok? ==> |r.value.children| == |lines| && lines != []
    ensures r.Ok? ==> forall i :: 0 <= i < |lines| ==> item(lines[i]) == Ok(r.value.children[i])
    ensures (forall i :: 0 <= i < |lines| ==> item(lines[i]).Ok?) ==> (r.Ok? <==> lines != [])
    ensures lines == [] ==> r == Err(ValueError("ParentNode must have children."))
    ensures r.Err? && lines != [] ==> exists i :: 0 <= i < |lines| && item(lines[i]) == Err(r.error)
                                                  && forall j :: 0 <= j < i ==> item(lines[j]).Ok?
  {
    var children :- MapResult(lines, item);
    NewParent(Some(tag), Some(children), [])
  }

  /** `create_unordered_list_node`. */
  function CreateUnorderedListNode(block: string): (r: Result<Node>)
  {
    ListNode("ul", SplitLines(block), UnorderedListItem)
  }

  /** `create_ordered_list_node`. */
  function CreateOrderedListNode(block: string): (r: Result<Node>)
  {
    ListNode("ol", SplitLines(block), OrderedListItem)
  }

  /** `block_to_html_node`: classify, then build. The heading level is the
      length of the block's first whitespace-separated word. */
  function BlockToHtmlNode(block: string): (r: Result<Node>)
    ensures BlockToBlockType(block).Err? ==> r == Err(BlockToBlockType(block).error)
    ensures BlockToBlockType(block).Ok? ==> r == NodeOfType(block, BlockToBlockType(block).value)
  {
    var blockType :- BlockToBlockType(block);
    NodeOfType(block, blockType)
  }

  /** The builder a block type selects; a heading's level is the length of
      its first whitespace-separated word. */
  function NodeOfType(block: string, blockType: BlockType): (r: Result<Node>)
    ensures blockType == Heading && FirstWord(block).None? ==> r == Err(IndexError(IndexOutOfRange))
    ensures blockType == Heading && FirstWord(block).Some? ==>
              r == CreateHeadingNode(block, |FirstWord(block).value|)
    ensures blockType == CodeBlock ==> r == CreateCodeBlockNode(block)
    ensures blockType == Quote ==> r == CreateQuoteNode(block)
    ensures blockType == UnorderedList ==> r == CreateUnorderedListNode(block)
    ensures blockType == OrderedList ==> r == CreateOrderedListNode(block)
    ensures blockType == Paragraph ==> r == CreateParagraphNode(block)
  {
    match blockType
    case Heading =>
      (match FirstWord(block)
       case None => Err(IndexError(IndexOutOfRange))
       case Some(word) => CreateHeadingNode(block, |word|))
    case CodeBlock => CreateCodeBlockNode(block)
    case Quote => CreateQuoteNode(block)
    case UnorderedList => CreateUnorderedListNode(block)
    case OrderedList => CreateOrderedListNode(block)
    case Paragraph => CreateParagraphNode(block)
  }

  // The builder each block type selects.

  lemma {:induction false} DispatchParagraph(block: string)
    requires BlockToBlockType(block) == Ok(Paragraph)
    ensures BlockToHtmlNode(block) == CreateParagraphNode(block)
  {
    assert BlockToHtmlNode(block) == NodeOfType(block, Paragraph);
  }

  lemma {:induction false} DispatchQuote(block: string)
    requires BlockToBlockType(block) == Ok(Quote)
    ensures BlockToHtmlNode(block) == CreateQuoteNode(block)
  {
    assert BlockToHtmlNode(block) == NodeOfType(block, Quote);
  }

  lemma {:induction false} DispatchCode(block: string)
    requires BlockToBlockType(block) == Ok(CodeBlock)
    ensures BlockToHtmlNode(block) == CreateCodeBlockNode(block)
  {
    assert BlockToHtmlNode(block) == NodeOfType(block, CodeBlock);
  }

  lemma {:induction false} DispatchUnordered(block: string)
    requires BlockToBlockType(block) == Ok(UnorderedList)
    ensures BlockToHtmlNode(block) == CreateUnorderedListNode(block)
  {
    assert BlockToHtmlNode(block) == NodeOfType(block, UnorderedList);
  }

  lemma {:induction false} DispatchOrdered(block: string)
    requires BlockToBlockType(block) == Ok(OrderedList)
    ensures BlockToHtmlNode(block) == CreateOrderedListNode(block)
  {
    assert BlockToHtmlNode(block) == NodeOfType(block, OrderedList);
  }

  lemma {:induction false} DispatchHeading(block: string, word: string)
    requires BlockToBlockType(block) == Ok(Heading) && FirstWord(block) == Some(word)
    ensures BlockToHtmlNode(block) == CreateHeadingNode(block, |word|)
  {
    assert BlockToHtmlNode(block) == NodeOfType(block, Heading);
  }

  /** Every node the builders return satisfies the constructors' checks. */
  lemma {:induction false} BlockNodeWellFormed(block: string)
    requires BlockToHtmlNode(block).Ok?
    ensures WellFormed(BlockToHtmlNode(block).value)
  {
    var t := BlockToBlockType(block).value;
    assert BlockToHtmlNode(block) == NodeOfType(block, t);
    TypedNodeWellFormed(block, t);
  }

  lemma {:induction false} TypedNodeWellFormed(block: string, t: BlockType)
    requires NodeOfType(block, t).Ok?
    ensures WellFormed(NodeOfType(block, t).value)
  {
    var lines := SplitLines(block);
    match t
    case UnorderedList =>
      ListWellFormed("ul", lines, UnorderedListItem);
    case OrderedList =>
      ListWellFormed("ol", lines, OrderedListItem);
    case _ =>
  }

  /** A list whose items are each well formed is well formed. */
  lemma {:induction false} ListWellFormed(tag: string, lines: seq<string>, item: string -> Result<Node>)
    requires ListNode(tag, lines, item).Ok?
    requires forall line :: item(line).Ok? ==> WellFormed(item(line).value)
    ensures WellFormed(ListNode(tag, lines, item).value)
  {
    var n := ListNode(tag, lines, item).value;
    forall i | 0 <= i < |n.children| ensures WellFormed(n.children[i]) {
      assert item(lines[i]) == Ok(n.children[i]);
    }
  }

  // ---------------------------------------------------------------------
  // What the dispatcher builds, and when it fails.

  /** The root tag of the node built for a block of type `t`, for every
      type but a heading, whose tag depends on its level. */
  function RootTag(t: BlockType): string
    requires t != Heading
  {
    if t == CodeBlock then "pre"
    else if t == Quote then "blockquote"
    else if t == UnorderedList then "ul"
    else if t == OrderedList then "ol"
    else "p"
  }

  /** `text` tokenizes into at least one span, so a parent can be built
      over its children. */
  predicate Tokenizes(text: string) {
    TextToTextNodes(text).Ok? && TextToTextNodes(text).value != []
  }

  /** The node built for a block is a parent without attributes whose tag
      is `h<n>` for a heading whose first word has `n` characters, and
      `pre`, `blockquote`, `ul`, `ol` or `p` for the other types. */
  lemma {:induction false} BlockRoot(block: string)
    requires BlockToHtmlNode(block).Ok?
    ensures BlockToBlockType(block).Ok?
    ensures BlockToHtmlNode(block).value.Parent? && BlockToHtmlNode(block).value.props == []
    ensures BlockToBlockType(block) == Ok(Heading) ==>
              FirstWord(block).Some?
              && BlockToHtmlNode(block).value.tag == Some("h" + NatToString(|FirstWord(block).value|))
    ensures BlockToBlockType(block).Ok? && BlockToBlockType(block).value != Heading ==>
              BlockToHtmlNode(block).value.tag == Some(RootTag(BlockToBlockType(block).value))
  {
    var t := BlockToBlockType(block).value;
    TypedRoot(block, t);
  }

  lemma {:induction false} TypedRoot(block: string, t: BlockType)
    requires NodeOfType(block, t).Ok?
    ensures NodeOfType(block, t).value.Parent? && NodeOfType(block, t).value.props == []
    ensures t == Heading ==>
              FirstWord(block).Some? && NodeOfType(block, t).value.tag == Some("h" + NatToString(|FirstWord(block).value|))
    ensures t != Heading ==> NodeOfType(block, t).value.tag == Some(RootTag(t))
  {
  }

  /** A block fails exactly as follows: classification raises
      `IndexError`; a code block never fails; a paragraph, heading or quote
      fails exactly when its text does not tokenize into at least one span;
      a list fails exactly when one of its items does. */
  lemma {:induction false} BlockFailsIff(block: string)
    ensures BlockToBlockType(block).Err? ==> BlockToHtmlNode(block) == Err(IndexError(IndexOutOfRange))
    ensures BlockToBlockType(block) == Ok(CodeBlock) ==> BlockToHtmlNode(block).Ok?
    ensures BlockToBlockType(block) == Ok(Paragraph) ==> (BlockToHtmlNode(block).Ok? <==> Tokenizes(block))
    ensures BlockToBlockType(block) == Ok(Heading) ==>
              (BlockToHtmlNode(block).Ok? <==> Tokenizes(Strip(LStripChars(block, "#"))))
    ensures BlockToBlockType(block) == Ok(Quote) ==> (BlockToHtmlNode(block).Ok? <==> Tokenizes(QuoteText(block)))
    ensures BlockToBlockType(block) == Ok(UnorderedList) ==>
              (BlockToHtmlNode(block).Ok? <==>
                 forall i :: 0 <= i < |SplitLines(block)| ==> Tokenizes(Strip(Drop(SplitLines(block)[i], 2))))
    ensures BlockToBlockType(block) == Ok(OrderedList) ==>
              (BlockToHtmlNode(block).Ok? <==>
                 forall i :: 0 <= i < |SplitLines(block)| ==>
                   Contains(SplitLines(block)[i], ". ") && Tokenizes(Strip(SplitOnce(SplitLines(block)[i], ". ")[1])))
  {
    var r := BlockToBlockType(block);
    if r.Err? {
      ClassifyError(block);
    } else {
      match r.value
      case Paragraph => InlineOkIff("p", block);
      case Heading => HeadingOkIff(block);
      case Quote =>
        InlineOkIff("p", QuoteText(block));
      case UnorderedList => UnorderedOkIff(block);
      case OrderedList => OrderedOkIff(block);
      case CodeBlock =>
    }
  }

  lemma {:induction false} ClassifyError(block: string)
    requires BlockToBlockType(block).Err?
    ensures BlockToHtmlNode(block) == Err(IndexError(IndexOutOfRange))
  {
    var lines := SplitLines(block);
    assert BlockToBlockType(block) == LineRules(lines);
  }

  /** A parent over the children of `text` is built exactly when `text`
      tokenizes into at least one span. */
  lemma {:induction false} InlineOkIff(tag: string, text: string)
    ensures InlineParent(tag, text).Ok? <==> Tokenizes(text)
  {
    var c := TextToChildren(text);
    if c.Ok? {
      assert |c.value| == |TextToTextNodes(text).value|;
    }
  }

  lemma {:induction false} HeadingOkIff(block: string)
    requires BlockToBlockType(block) == Ok(Heading)
    ensures BlockToHtmlNode(block).Ok? <==> Tokenizes(Strip(LStripChars(block, "#")))
  {
    HeadingHasWord(block);
    InlineOkIff("h" + NatToString(|FirstWord(block).value|), Strip(LStripChars(block, "#")));
  }

  /** A heading starts with `#`, so it has a first word. */
  lemma {:induction false} HeadingHasWord(block: string)
    requires IsHeading(block)
    ensures FirstWord(block).Some?
  {
    assert block[..1] == "#";
    assert block[0] == '#';
    assert '#' !in Whitespace;
  }

  lemma {:induction false} UnorderedOkIff(block: string)
    requires BlockToBlockType(block) == Ok(UnorderedList)
    ensures BlockToHtmlNode(block).Ok? <==>
              forall i :: 0 <= i < |SplitLines(block)| ==> Tokenizes(Strip(Drop(SplitLines(block)[i], 2)))
  {
    DispatchUnordered(block);
    ListLinesNonEmpty(block);
    UnorderedItemsOkIff(SplitLines(block));
  }

  lemma {:induction false} OrderedOkIff(block: string)
    requires BlockToBlockType(block) == Ok(OrderedList)
    ensures BlockToHtmlNode(block).Ok? <==>
              forall i :: 0 <= i < |SplitLines(block)| ==>
                Contains(SplitLines(block)[i], ". ") && Tokenizes(Strip(SplitOnce(SplitLines(block)[i], ". ")[1]))
  {
    DispatchOrdered(block);
    ListLinesNonEmpty(block);
    OrderedItemsOkIff(SplitLines(block));
  }

  /** A block classified as a list has at least one line: over no lines
      the quote rule holds vacuously. */
  lemma {:induction false} ListLinesNonEmpty(block: string)
    requires BlockToBlockType(block) == Ok(UnorderedList) || BlockToBlockType(block) == Ok(OrderedList)
    ensures SplitLines(block) != []
  {
    assert BlockToBlockType(block) == LineRules(SplitLines(block));
  }

  lemma {:induction false} UnorderedItemsOkIff(lines: seq<string>)
    requires lines != []
    ensures ListNode("ul", lines, UnorderedListItem).Ok? <==>
              forall i :: 0 <= i < |lines| ==> Tokenizes(Strip(Drop(lines[i], 2)))
  {
    forall i | 0 <= i < |lines| ensures UnorderedListItem(lines[i]).Ok? <==> Tokenizes(Strip(Drop(lines[i], 2))) {
      InlineOkIff("li", Strip(Drop(lines[i], 2)));
    }
    ListOkIff("ul", lines, UnorderedListItem);
  }

  lemma {:induction false} OrderedItemsOkIff(lines: seq<string>)
    requires lines != []
    ensures ListNode("ol", lines, OrderedListItem).Ok? <==>
              forall i :: 0 <= i < |lines| ==>
                Contains(lines[i], ". ") && Tokenizes(Strip(SplitOnce(lines[i], ". ")[1]))
  {
    forall i | 0 <= i < |lines|
      ensures OrderedListItem(lines[i]).Ok? <==>
                Contains(lines[i], ". ") && Tokenizes(Strip(SplitOnce(lines[i], ". ")[1]))
    {
      if Contains(lines[i], ". ") {
        InlineOkIff("li", Strip(SplitOnce(lines[i], ". ")[1]));
      }
    }
    ListOkIff("ol", lines, OrderedListItem);
  }

  /** A list over at least one line is built exactly when every item is. */
  lemma {:induction false} ListOkIff(tag: string, lines: seq<string>, item: string -> Result<Node>)
    requires lines != []
    ensures ListNode(tag, lines, item).Ok? <==> forall i :: 0 <= i < |lines| ==> item(lines[i]).Ok?
  {
  }

  /** `markdown_to_html_node`: the nodes of the blocks, in order, under a
      `div`. */
  function MarkdownToHtmlNode(markdown: string): (r: Result<Node>)
    ensures MarkdownToBlocks(markdown) == [] ==> r == Err(ValueError("ParentNode must have children."))
    ensures r.Ok? ==> r.value.Parent? && r.value.tag == Some("div") && r.value.props == []
    ensures r.Ok? ==> |r.value.children| == |MarkdownToBlocks(markdown)|
    ensures r.Ok? ==> forall i :: 0 <= i < |r.value.children| ==>
                        BlockToHtmlNode(MarkdownToBlocks(markdown)[i]) == Ok(r.value.children[i])
  {
    var blocks := MarkdownToBlocks(markdown);
    var nodes :- MapResult(blocks, BlockToHtmlNode);
    NewParent(Some("div"), Some(nodes), [])
  }

  // ---------------------------------------------------------------------
  // The document as a whole.

  /** A document compiles exactly when it has a block and every block
      compiles; otherwise the error is the first failing block's, and no
      tree is returned. */
  lemma {:induction false} CompileOutcome(markdown: string)
    ensures var blocks := MarkdownToBlocks(markdown);
      MarkdownToHtmlNode(markdown).Ok? <==>
        blocks != [] && forall i :: 0 <= i < |blocks| ==> BlockToHtmlNode(blocks[i]).Ok?
    ensures var blocks := MarkdownToBlocks(markdown);
      MarkdownToHtmlNode(markdown).Err? && blocks != [] ==>
        exists i :: 0 <= i < |blocks| && BlockToHtmlNode(blocks[i]) == Err(MarkdownToHtmlNode(markdown).error)
                    && forall j :: 0 <= j < i ==> BlockToHtmlNode(blocks[j]).Ok?
  {
    var blocks := MarkdownToBlocks(markdown);
    var nodes := MapResult(blocks, BlockToHtmlNode);
    if nodes.Ok? {
      assert MarkdownToHtmlNode(markdown) == NewParent(Some("div"), Some(nodes.value), []);
    } else {
      assert MarkdownToHtmlNode(markdown) == Err(nodes.error);
    }
  }

  /** A compiled document always serialises: its tree satisfies the
      constructors' checks. */
  lemma {:induction false} CompiledDocumentRenders(markdown: string)
    requires MarkdownToHtmlNode(markdown).Ok?
    ensures WellFormed(MarkdownToHtmlNode(markdown).value)
    ensures ToHtml(MarkdownToHtmlNode(markdown).value).Ok?
  {
    var n := MarkdownToHtmlNode(markdown).value;
    var blocks := MarkdownToBlocks(markdown);
    forall i | 0 <= i < |n.children| ensures WellFormed(n.children[i]) {
      BlockNodeWellFormed(blocks[i]);
    }
    RendersIffWellFormed(n);
  }

  /** The empty document does not compile: the `div` would have no
      children. */
  lemma {:induction false} EmptyDocumentFails()
    ensures MarkdownToHtmlNode("") == Err(ValueError("ParentNode must have children."))
  {
    NoBlocksInEmptyDocument();
  }

  // ---------------------------------------------------------------------
  // Serialising small trees.

  /** `<tag>inner</tag>`. */
  function Tagged(tag: string, inner: string): string {
    "<" + tag + ">" + inner + "</" + tag + ">"
  }

  /** A parent with one child and no attributes wraps the child's HTML in
      its tags. */
  lemma {:induction false} WrapRendering(tag: string, child: Node, html: string)
    requires ToHtml(child) == Ok(html)
    ensures ToHtml(Parent(Some(tag), [child], [])) == Ok(Tagged(tag, html))
  {
    RendersIffWellFormed(child);
    ParentRendering(tag, [child], []);
    assert Rendered([child]) == [html];
    assert OpenTag(tag, []) == "<" + tag + ">";
  }

  /** A parent with two children and no attributes wraps their HTML, in
      order, in its tags. */
  lemma {:induction false} PairRendering(tag: string, a: Node, ha: string, b: Node, hb: string)
    requires ToHtml(a) == Ok(ha) && ToHtml(b) == Ok(hb)
    ensures ToHtml(Parent(Some(tag), [a, b], [])) == Ok(Tagged(tag, ha + hb))
  {
    RendersIffWellFormed(a);
    RendersIffWellFormed(b);
    ParentRendering(tag, [a, b], []);
    RenderedPair(a, ha, b, hb);
    JoinPair(ha, hb);
    assert OpenTag(tag, []) == "<" + tag + ">";
  }

  lemma {:induction false} RenderedPair(a: Node, ha: string, b: Node, hb: string)
    requires ToHtml(a) == Ok(ha) && ToHtml(b) == Ok(hb)
    ensures Rendered([a, b]) == [ha, hb]
  {
  }

  lemma {:induction false} JoinPair(ha: string, hb: string)
    ensures Join([ha, hb], "") == ha + hb
  {
    assert [ha, hb][1..] == [hb];
    assert ha + "" + hb == ha + hb;
  }

  /** A leaf of plain text serialises as its text. */
  function TextLeaf(text: string): Node {
    Leaf(None, Some(text), [])
  }

  /** `<outer><inner>text</inner></outer>` for a leaf of plain text. */
  lemma {:induction false} TwoLevelHtml(outer: string, inner: string, text: string)
    ensures ToHtml(Parent(Some(outer), [Parent(Some(inner), [TextLeaf(text)], [])], []))
            == Ok(Tagged(outer, Tagged(inner, text)))
  {
    LeafRendering(None, Some(text), []);
    WrapRendering(inner, TextLeaf(text), text);
    WrapRendering(outer, Parent(Some(inner), [TextLeaf(text)], []), Tagged(inner, text));
  }

  /** Markup-free text has one child: a leaf of plain text. */
  lemma {:induction false} PlainChildren(text: string)
    requires text != "" && '*' !in text && '`' !in text && '[' !in text
    ensures TextToChildren(text) == Ok([TextLeaf(text)])
  {
    UnmarkedTextIsOneSpan(text);
    assert TextNodeToHtmlNode(Plain(text)) == Ok(TextLeaf(text));
    var r := TextToChildren(text);
    assert r.Ok? && |r.value| == 1;
    assert TextNodeToHtmlNode(TextToTextNodes(text).value[0]) == Ok(r.value[0]);
    assert r.value == [TextLeaf(text)];
  }

  /** Markup-free text under `tag` is one leaf of plain text. */
  lemma {:induction false} PlainInline(tag: string, text: string)
    requires text != "" && '*' !in text && '`' !in text && '[' !in text
    ensures InlineParent(tag, text) == Ok(Parent(Some(tag), [TextLeaf(text)], []))
  {
    PlainChildren(text);
  }

  // ---------------------------------------------------------------------
  // One block per document.

  /** A document that is one block, with no blank line inside, is a `div`
      around that block's node. */
  lemma {:induction false} OneBlockDocument(block: string)
    requires IsBlock(block) && !Contains(block, "\n\n")
    requires BlockToHtmlNode(block).Ok?
    ensures MarkdownToHtmlNode(block) == Ok(Parent(Some("div"), [BlockToHtmlNode(block).value], []))
  {
    OneBlock(block);
    DivOfOneBlock(block, block, BlockToHtmlNode(block).value);
  }

  lemma {:induction false} OneBlock(block: string)
    requires IsBlock(block) && !Contains(block, "\n\n")
    ensures MarkdownToBlocks(block) == [block]
  {
    StripCharsOfStripped(block, Whitespace);
    SingleBlock(block);
  }

  lemma {:induction false} DivOfOneBlock(markdown: string, block: string, v: Node)
    requires MarkdownToBlocks(markdown) == [block] && BlockToHtmlNode(block) == Ok(v)
    ensures MarkdownToHtmlNode(markdown) == Ok(Parent(Some("div"), [v], []))
  {
    OneBlockCompiles(markdown, block);
    DivOfOneChild(MarkdownToHtmlNode(markdown), v);
  }

  lemma {:induction false} OneBlockCompiles(markdown: string, block: string)
    requires MarkdownToBlocks(markdown) == [block] && BlockToHtmlNode(block).Ok?
    ensures MarkdownToHtmlNode(markdown).Ok?
  {
    CompileOutcome(markdown);
  }

  lemma {:induction false} DivOfOneChild(r: Result<Node>, v: Node)
    requires r.Ok? && r.value.Parent? && r.value.tag == Some("div") && r.value.props == []
    requires |r.value.children| == 1 && r.value.children[0] == v
    ensures r == Ok(Parent(Some("div"), [v], []))
  {
    assert r.value.children == [v];
  }

  /** A single line with no newline and no whitespace at its ends is a
      block with no blank line. */
  lemma {:induction false} LineIsBlock(line: string)
    requires IsBlock(line) && '\n' !in line
    ensures !Contains(line, "\n\n")
  {
    SplitAbsent(line, "\n\n");
  }

  // ---------------------------------------------------------------------
  // Paragraphs.

  /** A single line of prose without markup compiles to one paragraph in
      the `div`. */
  lemma {:induction false} PlainParagraphDocument(text: string)
    requires IsBlock(text) && '\n' !in text
    requires '*' !in text && '`' !in text && '[' !in text
    requires text[0] !in "#>-" && !IsDigit(text[0])
    ensures MarkdownToHtmlNode(text) == Ok(Parent(Some("div"), [Parent(Some("p"), [TextLeaf(text)], [])], []))
    ensures ToHtml(MarkdownToHtmlNode(text).value) == Ok(Tagged("div", Tagged("p", text)))
  {
    PlainParagraphNode(text);
    LineIsBlock(text);
    OneBlockDocument(text);
    TwoLevelHtml("div", "p", text);
  }

  lemma {:induction false} PlainParagraphNode(text: string)
    requires IsBlock(text) && '\n' !in text
    requires '*' !in text && '`' !in text && '[' !in text
    requires text[0] !in "#>-" && !IsDigit(text[0])
    ensures BlockToHtmlNode(text) == Ok(Parent(Some("p"), [TextLeaf(text)], []))
  {
    ProseLineIsParagraph(text);
    DispatchParagraph(text);
    PlainInline("p", text);
  }

  /** `plain text` compiles to `<div><p>plain text</p></div>`. */
  lemma {:induction false} PlainTextExample()
    ensures MarkdownToHtmlNode("plain text").Ok?
    ensures ToHtml(MarkdownToHtmlNode("plain text").value) == Ok("<div><p>plain text</p></div>")
  {
    var text := "plain text";
    assert IsBlock(text) && '\n' !in text && '*' !in text && '`' !in text && '[' !in text;
    assert text[0] !in "#>-" && !IsDigit(text[0]);
    PlainParagraphDocument(text);
    PlainTextSpelling();
  }

  lemma PlainTextSpelling()
    ensures Tagged("div", Tagged("p", "plain text")) == "<div><p>plain text</p></div>"
  {
  }

  // ---------------------------------------------------------------------
  // Headings.

  /** `"#" * n`. */
  function Hashes(n: nat): (r: string)
    ensures |r| == n && forall i :: 0 <= i < n ==> r[i] == '#'
  {
    seq(n, _ => '#')
  }

  /** A heading's level is the number of its leading `#`s, with no cap at
      six, and its content is the rest of the line, stripped. */
  lemma {:induction false} HeadingLevel(n: nat, rest: string)
    requires n >= 1
    ensures BlockToHtmlNode(Hashes(n) + " " + rest) == InlineParent("h" + NatToString(n), Strip(rest))
  {
    var block := Hashes(n) + " " + rest;
    HeadingParts(n, rest);
    assert BlockToBlockType(block) == Ok(Heading);
    DispatchHeading(block, Hashes(n));
  }

  lemma {:induction false} HeadingParts(n: nat, rest: string)
    requires n >= 1
    ensures var block := Hashes(n) + " " + rest;
      IsHeading(block) && FirstWord(block) == Some(Hashes(n)) && Strip(LStripChars(block, "#")) == Strip(rest)
  {
    HeadingShape(n, rest);
    HashesWord(n, rest);
    HashesStripped(n, rest);
    SpaceThenStrip(rest);
  }

  /** `#`s then a space pass the heading test. */
  lemma {:induction false} HeadingShape(n: nat, rest: string)
    requires n >= 1
    ensures IsHeading(Hashes(n) + " " + rest)
  {
    HashesStripped(n, rest);
    var block := Hashes(n) + " " + rest;
    assert block[..1] == "#";
    assert (" " + rest)[..1] == " ";
  }

  lemma {:induction false} SpaceThenStrip(rest: string)
    ensures Strip(" " + rest) == Strip(rest)
  {
    StripLeadingWhitespace(' ', rest);
    assert [' '] + rest == " " + rest;
  }

  lemma {:induction false} HashesStripped(n: nat, rest: string)
    ensures LStripChars(Hashes(n) + " " + rest, "#") == " " + rest
  {
    assert Hashes(n) + " " + rest == Hashes(n) + (" " + rest);
    LStripPrefix(Hashes(n), " " + rest, "#");
    assert (" " + rest)[0] == ' ';
  }

  lemma {:induction false} HashesWord(n: nat, rest: string)
    requires n >= 1
    ensures FirstWord(Hashes(n) + " " + rest) == Some(Hashes(n))
  {
    assert Hashes(n) + " " + rest == Hashes(n) + (" " + rest);
    assert (" " + rest)[0] == ' ';
    FirstWordOfPrefix(Hashes(n), " " + rest);
  }

  /** `#` repeated `n` times, a space and a line of markup-free text
      compiles to an `h<n>` node around the text, for every `n >= 1`. */
  lemma {:induction false} HeadingDocument(n: nat, text: string)
    requires n >= 1 && IsBlock(text) && '\n' !in text
    requires '*' !in text && '`' !in text && '[' !in text
    ensures var h := "h" + NatToString(n);
      MarkdownToHtmlNode(Hashes(n) + " " + text)
      == Ok(Parent(Some("div"), [Parent(Some(h), [TextLeaf(text)], [])], []))
    ensures var h := "h" + NatToString(n);
      ToHtml(MarkdownToHtmlNode(Hashes(n) + " " + text).value) == Ok(Tagged("div", Tagged(h, text)))
  {
    var block := Hashes(n) + " " + text;
    var h := "h" + NatToString(n);
    HeadingNode(n, text);
    HeadingIsBlock(n, text);
    OneBlockDocument(block);
    TwoLevelHtml("div", h, text);
  }

  lemma {:induction false} HeadingNode(n: nat, text: string)
    requires n >= 1 && IsBlock(text)
    requires '*' !in text && '`' !in text && '[' !in text
    ensures BlockToHtmlNode(Hashes(n) + " " + text)
            == Ok(Parent(Some("h" + NatToString(n)), [TextLeaf(text)], []))
  {
    HeadingLevel(n, text);
    StripCharsOfStripped(text, Whitespace);
    PlainInline("h" + NatToString(n), text);
  }

  lemma {:induction false} HeadingIsBlock(n: nat, text: string)
    requires n >= 1 && IsBlock(text) && '\n' !in text
    ensures IsBlock(Hashes(n) + " " + text) && !Contains(Hashes(n) + " " + text, "\n\n")
  {
    var block := Hashes(n) + " " + text;
    assert block[0] == '#' && block[|block| - 1] == text[|text| - 1];
    assert '\n' !in Hashes(n);
    assert '\n' !in block;
    SplitAbsent(block, "\n\n");
  }

  // ---------------------------------------------------------------------
  // Code blocks.

  /** A code block is its content between backticks, untokenized, inside
      `pre` and `code`. */
  lemma {:induction false} CodeBlockRendering(block: string)
    requires IsCode(block)
    ensures BlockToHtmlNode(block).Ok?
    ensures ToHtml(BlockToHtmlNode(block).value) == Ok(Tagged("pre", Tagged("code", StripChars(block, "`"))))
  {
    assert !IsHeading(block) by {
      assert block[..3] == "```";
      NotStartsWith(block, "#");
    }
    DispatchCode(block);
    TwoLevelHtml("pre", "code", StripChars(block, "`"));
  }

  // ---------------------------------------------------------------------
  // Quotes.

  /** Any run of `>` and space markers in front of a quote line is
      removed, so a nested quote line `> > x` gives the same text as `> x`. */
  lemma {:induction false} QuoteLineOfMarkers(markers: string, text: string)
    requires forall i :: 0 <= i < |markers| ==> markers[i] in "> "
    requires text != "" ==> text[0] !in "> "
    ensures QuoteLineText(markers + text) == Strip(text)
  {
    LStripPrefix(markers, text, "> ");
  }

  /** The node of a quote whose text is markup-free. */
  lemma {:induction false} QuoteNode(block: string, text: string)
    requires BlockToBlockType(block) == Ok(Quote) && QuoteText(block) == text
    requires text != "" && '*' !in text && '`' !in text && '[' !in text
    ensures BlockToHtmlNode(block) == Ok(Parent(Some("blockquote"), [Parent(Some("p"), [TextLeaf(text)], [])], []))
  {
    DispatchQuote(block);
    PlainInline("p", text);
  }

  /** `<div><blockquote><p>text</p></blockquote></div>`. */
  lemma {:induction false} QuoteHtml(text: string)
    ensures var p := Parent(Some("p"), [TextLeaf(text)], []);
      ToHtml(Parent(Some("div"), [Parent(Some("blockquote"), [p], [])], []))
      == Ok(Tagged("div", Tagged("blockquote", Tagged("p", text))))
  {
    TwoLevelHtml("blockquote", "p", text);
    var p := Parent(Some("p"), [TextLeaf(text)], []);
    WrapRendering("div", Parent(Some("blockquote"), [p], []), Tagged("blockquote", Tagged("p", text)));
  }

  /** A one-line quote is still wrapped in the `div`: `> ` and a line of
      markup-free text gives `<div><blockquote><p>text</p></blockquote></div>`. */
  lemma {:induction false} QuoteDocument(text: string)
    requires IsBlock(text) && '\n' !in text && text[0] != '>'
    requires '*' !in text && '`' !in text && '[' !in text
    ensures MarkdownToHtmlNode("> " + text).Ok?
    ensures ToHtml(MarkdownToHtmlNode("> " + text).value) == Ok(Tagged("div", Tagged("blockquote", Tagged("p", text))))
  {
    var block := "> " + text;
    OneLineQuote(text);
    QuoteNode(block, text);
    QuoteLineIsBlock(text);
    OneBlockDocument(block);
    QuoteHtml(text);
  }

  lemma {:induction false} QuoteLineIsBlock(text: string)
    requires IsBlock(text) && '\n' !in text
    ensures IsBlock("> " + text) && !Contains("> " + text, "\n\n")
  {
    var block := "> " + text;
    assert block[|block| - 1] == text[|text| - 1];
    assert '\n' !in block;
    LineIsBlock(block);
  }

  lemma {:induction false} OneLineQuote(text: string)
    requires IsBlock(text) && '\n' !in text && text[0] != '>'
    ensures BlockToBlockType("> " + text) == Ok(Quote) && QuoteText("> " + text) == text
  {
    var block := "> " + text;
    assert '\n' !in block;
    SplitLinesSingle(block);
    OneLineQuoteType(block);
    QuoteLineOfMarkers("> ", text);
    StripCharsOfStripped(text, Whitespace);
    MapStringsOfOne(QuoteLineText, block);
  }

  lemma {:induction false} OneLineQuoteType(block: string)
    requires StartsWith(block, ">") && SplitLines(block) == [block]
    ensures BlockToBlockType(block) == Ok(Quote)
  {
    assert block[0] == '>';
    NotStartsWith(block, "#");
    NotStartsWith(block, "```");
    assert IsQuoteLine(SplitLines(block)[0]);
  }

  /** Quotes do not nest: a `> ` line followed by a `> > ` line is one
      quote whose paragraph holds both texts, separated by a newline. */
  lemma {:induction false} NestedQuoteDocument(outer: string, inner: string)
    requires IsBlock(outer) && '\n' !in outer && outer[0] != '>'
    requires IsBlock(inner) && '\n' !in inner && inner[0] != '>'
    requires '*' !in outer && '`' !in outer && '[' !in outer
    requires '*' !in inner && '`' !in inner && '[' !in inner
    ensures MarkdownToHtmlNode("> " + outer + "\n> > " + inner).Ok?
    ensures ToHtml(MarkdownToHtmlNode("> " + outer + "\n> > " + inner).value)
            == Ok(Tagged("div", Tagged("blockquote", Tagged("p", outer + "\n" + inner))))
  {
    var block := "> " + outer + "\n> > " + inner;
    var text := outer + "\n" + inner;
    NestedQuoteNode(outer, inner);
    NestedQuoteIsBlock(outer, inner);
    OneBlockDocument(block);
    QuoteHtml(text);
  }

  lemma {:induction false} NestedQuoteNode(outer: string, inner: string)
    requires IsBlock(outer) && '\n' !in outer && outer[0] != '>'
    requires IsBlock(inner) && '\n' !in inner && inner[0] != '>'
    requires '*' !in outer && '`' !in outer && '[' !in outer
    requires '*' !in inner && '`' !in inner && '[' !in inner
    ensures var text := outer + "\n" + inner;
      BlockToHtmlNode("> " + outer + "\n> > " + inner)
      == Ok(Parent(Some("blockquote"), [Parent(Some("p"), [TextLeaf(text)], [])], []))
  {
    var text := outer + "\n" + inner;
    var block := "> " + outer + "\n> > " + inner;
    TwoLineQuote(outer, inner);
    UnmarkedLines(outer, inner);
    QuoteNode(block, text);
  }

  lemma {:induction false} UnmarkedLines(outer: string, inner: string)
    requires '*' !in outer && '`' !in outer && '[' !in outer
    requires '*' !in inner && '`' !in inner && '[' !in inner
    ensures var text := outer + "\n" + inner;
      text != "" && '*' !in text && '`' !in text && '[' !in text
  {
    var text := outer + "\n" + inner;
    assert text[|outer|] == '\n';
  }

  lemma {:induction false} NestedQuoteIsBlock(outer: string, inner: string)
    requires IsBlock(outer) && '\n' !in outer
    requires IsBlock(inner) && '\n' !in inner
    ensures var block := "> " + outer + "\n> > " + inner;
      IsBlock(block) && !Contains(block, "\n\n")
  {
    var first := "> " + outer;
    var second := "> > " + inner;
    assert '\n' !in first && '\n' !in second;
    assert first + "\n" + second == "> " + outer + "\n> > " + inner;
    NoBlankLineBetween(first, second);
    assert second[|second| - 1] == inner[|inner| - 1];
  }

  lemma {:induction false} TwoLineQuote(outer: string, inner: string)
    requires IsBlock(outer) && '\n' !in outer && outer[0] != '>'
    requires IsBlock(inner) && '\n' !in inner && inner[0] != '>'
    ensures var block := "> " + outer + "\n> > " + inner;
      BlockToBlockType(block) == Ok(Quote) && QuoteText(block) == outer + "\n" + inner
  {
    var first := "> " + outer;
    var second := "> > " + inner;
    var block := first + "\n" + second;
    assert block == "> " + outer + "\n> > " + inner;
    assert '\n' !in first && '\n' !in second;
    TwoLines(first, second);
    TwoQuoteLinesType(block, first, second);
    QuoteLineOfMarkers("> ", outer);
    QuoteLineOfMarkers("> > ", inner);
    StripCharsOfStripped(outer, Whitespace);
    StripCharsOfStripped(inner, Whitespace);
    TwoQuoteLinesText(block, first, second);
  }

  lemma {:induction false} TwoQuoteLinesType(block: string, first: string, second: string)
    requires SplitLines(block) == [first, second] && block[..1] == ">"
    requires StartsWith(first, ">") && StartsWith(second, ">")
    ensures BlockToBlockType(block) == Ok(Quote)
  {
    NotStartsWith(block, "#");
    NotStartsWith(block, "```");
    assert IsQuoteLine(SplitLines(block)[0]) && IsQuoteLine(SplitLines(block)[1]);
  }

  lemma {:induction false} TwoQuoteLinesText(block: string, first: string, second: string)
    requires SplitLines(block) == [first, second]
    ensures QuoteText(block) == QuoteLineText(first) + "\n" + QuoteLineText(second)
  {
    TwoQuoteLinesPieces(block, first, second);
    JoinTwo(QuoteLineText(first), QuoteLineText(second), "\n");
  }

  lemma {:induction false} TwoQuoteLinesPieces(block: string, first: string, second: string)
    requires SplitLines(block) == [first, second]
    ensures QuoteText(block) == Join([QuoteLineText(first), QuoteLineText(second)], "\n")
  {
    MapStringsOfTwo(QuoteLineText, first, second);
  }

  /** Two lines joined by a newline split back into the two lines. */
  lemma {:induction false} TwoLines(first: string, second: string)
    requires second != "" && '\n' !in first && '\n' !in second
    ensures SplitLines(first + "\n" + second) == [first, second]
  {
    assert Join([first, second], "\n") == first + "\n" + second;
    SplitLinesOfJoin([first, second]);
  }

  /** Two lines, each a block, joined by a newline form one block. */
  lemma {:induction false} TwoLineBlock(first: string, second: string)
    requires IsBlock(first) && IsBlock(second) && '\n' !in first && '\n' !in second
    ensures IsBlock(first + "\n" + second) && !Contains(first + "\n" + second, "\n\n")
  {
    NoBlankLineBetween(first, second);
  }

  // ---------------------------------------------------------------------
  // Lists.

  /** A two-item unordered list is one `ul` whose two `li` hold the items'
      texts, in order. */
  lemma {:induction false} UnorderedListDocument(a: string, b: string)
    requires IsBlock(a) && '\n' !in a && '*' !in a && '`' !in a && '[' !in a
    requires IsBlock(b) && '\n' !in b && '*' !in b && '`' !in b && '[' !in b
    ensures MarkdownToHtmlNode("- " + a + "\n- " + b).Ok?
    ensures ToHtml(MarkdownToHtmlNode("- " + a + "\n- " + b).value)
            == Ok(Tagged("div", Tagged("ul", Tagged("li", a) + Tagged("li", b))))
  {
    var first := "- " + a;
    var second := "- " + b;
    var block := first + "\n" + second;
    assert block == "- " + a + "\n- " + b;
    BulletLine(a);
    BulletLine(b);
    TwoLines(first, second);
    TwoBulletLinesType(block, first, second);
    DispatchUnordered(block);
    ListOfTwo("ul", first, second, UnorderedListItem, ListEntry(a), ListEntry(b));
    TwoLineBlock(first, second);
    OneBlockDocument(block);
    ListHtml("ul", a, b);
  }

  /** A two-item ordered list numbered 1, 2 is one `ol` whose two `li` hold
      the items' texts, in order. */
  lemma {:induction false} OrderedListDocument(a: string, b: string)
    requires IsBlock(a) && '\n' !in a && '*' !in a && '`' !in a && '[' !in a
    requires IsBlock(b) && '\n' !in b && '*' !in b && '`' !in b && '[' !in b
    ensures MarkdownToHtmlNode("1. " + a + "\n2. " + b).Ok?
    ensures ToHtml(MarkdownToHtmlNode("1. " + a + "\n2. " + b).value)
            == Ok(Tagged("div", Tagged("ol", Tagged("li", a) + Tagged("li", b))))
  {
    var first := "1" + ". " + a;
    var second := "2" + ". " + b;
    var block := first + "\n" + second;
    OrderedSpelling(a, b);
    OrderedListBlock(block, first, second, a, b);
    TwoLineBlock(first, second);
    OneBlockDocument(block);
    ListHtml("ol", a, b);
  }

  lemma {:induction false} OrderedSpelling(a: string, b: string)
    ensures ("1" + ". " + a) + "\n" + ("2" + ". " + b) == "1. " + a + "\n2. " + b
  {
  }

  /** The block of the two numbered lines builds the `ol` of the two items. */
  lemma {:induction false} OrderedListBlock(block: string, first: string, second: string, a: string, b: string)
    requires IsBlock(a) && '\n' !in a && '*' !in a && '`' !in a && '[' !in a
    requires IsBlock(b) && '\n' !in b && '*' !in b && '`' !in b && '[' !in b
    requires first == "1" + ". " + a && second == "2" + ". " + b && block == first + "\n" + second
    ensures IsBlock(first) && IsBlock(second) && '\n' !in first && '\n' !in second
    ensures BlockToHtmlNode(block) == Ok(Parent(Some("ol"), [ListEntry(a), ListEntry(b)], []))
  {
    NumberedPair(first, second, a, b);
    TwoLines(first, second);
    assert block[0] == first[0] == '1';
    TwoNumberedLinesType(block, first, second);
    OrderedListOfTwo(block, first, second, a, b);
  }

  lemma {:induction false} NumberedPair(first: string, second: string, a: string, b: string)
    requires IsBlock(a) && '\n' !in a && '*' !in a && '`' !in a && '[' !in a
    requires IsBlock(b) && '\n' !in b && '*' !in b && '`' !in b && '[' !in b
    requires first == "1" + ". " + a && second == "2" + ". " + b
    ensures IsBlock(first) && IsBlock(second) && '\n' !in first && '\n' !in second && first[0] == '1'
    ensures IsOrderedLine(first) && ItemNumber(first) == 1 && !IsQuoteLine(first) && !IsUnorderedLine(first)
    ensures IsOrderedLine(second) && ItemNumber(second) == 2
    ensures OrderedListItem(first) == Ok(ListEntry(a)) && OrderedListItem(second) == Ok(ListEntry(b))
  {
    OneAndTwo();
    NumberedAs(first, "1", 1, a);
    NumberedAs(second, "2", 2, b);
  }

  lemma {:induction false} OneAndTwo()
    ensures IsDigits("1") && DigitsValue("1") == 1 && IsDigits("2") && DigitsValue("2") == 2
  {
  }

  lemma {:induction false} NumberedAs(line: string, digits: string, n: nat, text: string)
    requires IsDigits(digits) && digits != "" && DigitsValue(digits) == n
    requires IsBlock(text) && '\n' !in text && '*' !in text && '`' !in text && '[' !in text
    requires line == digits + ". " + text
    ensures IsOrderedLine(line) && ItemNumber(line) == n && !IsQuoteLine(line) && !IsUnorderedLine(line)
    ensures IsBlock(line) && '\n' !in line && line[0] == digits[0]
    ensures OrderedListItem(line) == Ok(ListEntry(text))
  {
    NumberedLine(digits, text);
  }

  lemma {:induction false} OrderedListOfTwo(block: string, first: string, second: string, a: string, b: string)
    requires BlockToBlockType(block) == Ok(OrderedList) && SplitLines(block) == [first, second]
    requires OrderedListItem(first) == Ok(ListEntry(a)) && OrderedListItem(second) == Ok(ListEntry(b))
    ensures BlockToHtmlNode(block) == Ok(Parent(Some("ol"), [ListEntry(a), ListEntry(b)], []))
  {
    DispatchOrdered(block);
    ListOfTwo("ol", first, second, OrderedListItem, ListEntry(a), ListEntry(b));
  }

  /** The `li` of a markup-free item text. */
  function ListEntry(text: string): Node {
    Parent(Some("li"), [TextLeaf(text)], [])
  }

  /** `- text` is an unordered line, and its item is the `li` of `text`. */
  lemma {:induction false} BulletLine(text: string)
    requires IsBlock(text) && '\n' !in text && '*' !in text && '`' !in text && '[' !in text
    ensures var line := "- " + text;
      IsUnorderedLine(line) && !IsQuoteLine(line) && IsBlock(line) && '\n' !in line
      && UnorderedListItem(line) == Ok(ListEntry(text))
  {
    var line := "- " + text;
    BulletLineShape(line, text);
    BulletItem(line, text);
  }

  lemma {:induction false} BulletLineShape(line: string, text: string)
    requires IsBlock(text) && '\n' !in text
    requires line == "- " + text
    ensures IsUnorderedLine(line) && !IsQuoteLine(line) && IsBlock(line) && '\n' !in line
  {
    assert line[0] == '-' && line[1] == ' ';
    assert line[|line| - 1] == text[|text| - 1];
    NotStartsWith(line, ">");
    assert StartsWith(line, "-") by {
      assert line[..1] == "-";
    }
    assert forall i :: 0 <= i < |line| ==> line[i] != '\n' by {
      forall i | 0 <= i < |line| ensures line[i] != '\n' {
        if i >= 2 {
          assert line[i] == text[i - 2];
        }
      }
    }
  }

  lemma {:induction false} BulletItem(line: string, text: string)
    requires IsBlock(text) && '*' !in text && '`' !in text && '[' !in text
    requires line == "- " + text
    ensures UnorderedListItem(line) == Ok(ListEntry(text))
  {
    assert line[..2] == "- ";
    assert Drop(line, 2) == text;
    StripCharsOfStripped(text, Whitespace);
    PlainInline("li", text);
  }

  /** `<digits>. text` is an ordered line numbered by its digits, and its
      item is the `li` of `text`. */
  lemma {:induction false} NumberedLine(digits: string, text: string)
    requires IsDigits(digits) && digits != ""
    requires IsBlock(text) && '\n' !in text && '*' !in text && '`' !in text && '[' !in text
    ensures var line := digits + ". " + text;
      IsOrderedLine(line) && ItemNumber(line) == DigitsValue(digits)
      && !IsQuoteLine(line) && !IsUnorderedLine(line) && IsBlock(line) && '\n' !in line
      && OrderedListItem(line) == Ok(ListEntry(text))
  {
    var line := digits + ". " + text;
    OrderedLineParts(digits, text);
    NumberedLineShape(digits, text, line);
    NumberedItem(line, text);
  }

  lemma {:induction false} NumberedLineShape(digits: string, text: string, line: string)
    requires IsDigits(digits) && digits != "" && IsBlock(text) && '\n' !in text
    requires line == digits + ". " + text
    ensures !IsQuoteLine(line) && !IsUnorderedLine(line) && IsBlock(line) && '\n' !in line
  {
    assert line[0] == digits[0];
    NeitherQuoteNorBullet(line);
    assert line[|line| - 1] == text[|text| - 1];
    assert forall i :: 0 <= i < |digits| ==> IsDigit(digits[i]);
    assert forall i :: 0 <= i < |line| ==> line[i] != '\n' by {
      forall i | 0 <= i < |line| ensures line[i] != '\n' {
        if i < |digits| {
          assert line[i] == digits[i];
        } else if i >= |digits| + 2 {
          assert line[i] == text[i - |digits| - 2];
        }
      }
    }
  }

  lemma {:induction false} NumberedItem(line: string, text: string)
    requires IsBlock(text) && '*' !in text && '`' !in text && '[' !in text
    requires SplitOnce(line, ". ") == [SplitOnce(line, ". ")[0], text]
    ensures OrderedListItem(line) == Ok(ListEntry(text))
  {
    assert Contains(line, ". ");
    StripCharsOfStripped(text, Whitespace);
    PlainInline("li", text);
  }

  lemma {:induction false} TwoBulletLinesType(block: string, first: string, second: string)
    requires SplitLines(block) == [first, second] && block[0] == '-'
    requires IsUnorderedLine(first) && IsUnorderedLine(second) && !IsQuoteLine(first)
    ensures BlockToBlockType(block) == Ok(UnorderedList)
  {
    NotStartsWith(block, "#");
    NotStartsWith(block, "```");
    var lines := SplitLines(block);
    assert !IsQuoteLine(lines[0]);
    assert IsUnorderedLine(lines[0]) && IsUnorderedLine(lines[1]);
  }

  lemma {:induction false} TwoNumberedLinesType(block: string, first: string, second: string)
    requires SplitLines(block) == [first, second] && block[0] == '1'
    requires IsOrderedLine(first) && ItemNumber(first) == 1 && !IsQuoteLine(first) && !IsUnorderedLine(first)
    requires IsOrderedLine(second) && ItemNumber(second) == 2
    ensures BlockToBlockType(block) == Ok(OrderedList)
  {
    NotStartsWith(block, "#");
    NotStartsWith(block, "```");
    var lines := SplitLines(block);
    TwoNumberedLines(lines, first, second);
    NumberedIsOrdered(lines);
  }

  lemma {:induction false} TwoNumberedLines(lines: seq<string>, first: string, second: string)
    requires lines == [first, second]
    requires IsOrderedLine(first) && ItemNumber(first) == 1 && !IsQuoteLine(first) && !IsUnorderedLine(first)
    requires IsOrderedLine(second) && ItemNumber(second) == 2
    ensures exists i :: 0 <= i < |lines| && !IsQuoteLine(lines[i])
    ensures exists i :: 0 <= i < |lines| && !IsUnorderedLine(lines[i])
    ensures NumberedFromOne(lines)
  {
    assert !IsQuoteLine(lines[0]) && !IsUnorderedLine(lines[0]);
  }

  /** A list of two lines whose items both build is the list node of the
      two items. */
  lemma {:induction false} ListOfTwo(tag: string, l1: string, l2: string, item: string -> Result<Node>, n1: Node, n2: Node)
    requires item(l1) == Ok(n1) && item(l2) == Ok(n2)
    ensures ListNode(tag, [l1, l2], item) == Ok(Parent(Some(tag), [n1, n2], []))
  {
    var lines := [l1, l2];
    assert forall i :: 0 <= i < |lines| ==> item(lines[i]).Ok?;
    var r := ListNode(tag, lines, item);
    assert item(lines[0]) == Ok(r.value.children[0]);
    assert item(lines[1]) == Ok(r.value.children[1]);
    assert r.value.children == [n1, n2];
  }

  /** `<div><tag><li>a</li><li>b</li></tag></div>`. */
  lemma {:induction false} ListHtml(tag: string, a: string, b: string)
    ensures ToHtml(Parent(Some("div"), [Parent(Some(tag), [ListEntry(a), ListEntry(b)], [])], []))
            == Ok(Tagged("div", Tagged(tag, Tagged("li", a) + Tagged("li", b))))
  {
    LeafRendering(None, Some(a), []);
    LeafRendering(None, Some(b), []);
    WrapRendering("li", TextLeaf(a), a);
    WrapRendering("li", TextLeaf(b), b);
    PairRendering(tag, ListEntry(a), Tagged("li", a), ListEntry(b), Tagged("li", b));
    WrapRendering("div", Parent(Some(tag), [ListEntry(a), ListEntry(b)], []), Tagged(tag, Tagged("li", a) + Tagged("li", b)));
  }
}
