/** The inline tokenizer: text spans, the three splitting passes over a
    list of spans, the fixed pipeline of passes, and the conversion of a
    span to an HTML leaf. The same file of the program also holds the block
    segmenter and classifier, modelled in `Blocks`. */
module TextNodes {
  import opened Wrappers
  import opened PyStr
  import opened HtmlNode
  import opened MarkdownUtilities

  /** A span's `text_type`: the six strings the program knows ("text",
      "bold", "italic", "code", "link", "image"), and any other string, on
      which the conversion to HTML fails. */
  datatype TextType = Text | Bold | Italic | Code | Link | Image | Other(name: UnknownName)

  /** A `text_type` string that is none of the six the program knows. */
  type UnknownName = name: string | name !in ["text", "bold", "italic", "code", "link", "image"] witness ""

  /** `TextNode(text, text_type, url=None, alt_text=None)`. */
  datatype TextNode = TextNode(text: string, textType: TextType, url: Option<string>, altText: Option<string>)

  /** `TextNode.__eq__`: `alt_text` takes no part in equality. */
  predicate Equal(a: TextNode, b: TextNode) {
    a.text == b.text && a.textType == b.textType && a.url == b.url
  }

  /** `TextNode(s, "text")`. */
  function Plain(s: string): TextNode {
    TextNode(s, Text, None, None)
  }

  /** The span made for one image (`image`) or link match. */
  function Typed(caption: string, url: string, image: bool): TextNode {
    TextNode(caption, if image then Image else Link, Some(url), None)
  }

  // ---------------------------------------------------------------------
  // The three passes, one node at a time.

  /** A pass over a list of spans: `split_nodes_delimiter` with its two
      arguments, `split_nodes_image` or `split_nodes_link`. */
  datatype Pass = Delimited(delimiter: string, textType: TextType) | Images | Links

  /** What `split_nodes_delimiter` appends for the piece of index `i`:
      even pieces are plain text and only kept when non-empty, odd pieces
      are always kept, with the pass's type. */
  function PieceNode(i: nat, part: string, textType: TextType): seq<TextNode> {
    if i % 2 == 0 then (if part == "" then [] else [Plain(part)])
    else [TextNode(part, textType, None, None)]
  }

  /** The nodes appended for the pieces, in order. */
  function PieceNodes(parts: seq<string>, textType: TextType): seq<TextNode>
    decreases |parts|
  {
    if parts == [] then []
    else PieceNodes(parts[..|parts| - 1], textType) + PieceNode(|parts| - 1, parts[|parts| - 1], textType)
  }

  /** The body of the loop of `split_nodes_delimiter` for one node. Python's
      `split` with an empty separator raises "empty separator". */
  function SplitNodeDelimiter(n: TextNode, delimiter: string, textType: TextType): (r: Result<seq<TextNode>>)
    ensures n.textType != Text ==> r == Ok([n])
    ensures n.textType == Text && delimiter != "" ==>
              (r.Err? <==> |Split(n.text, delimiter)| % 2 == 0)
    ensures n.textType == Text && delimiter != "" && r.Err? ==>
              r.error == ValueError("Unmatched delimiter '" + delimiter + "' in text: " + n.text)
  {
    if n.textType != Text then Ok([n])
    else if delimiter == "" then Err(ValueError("empty separator"))
    else
      var parts := Split(n.text, delimiter);
      if |parts| % 2 == 0 then
        Err(ValueError("Unmatched delimiter '" + delimiter + "' in text: " + n.text))
      else
        Ok(PieceNodes(parts, textType))
  }

  /** The inner loop of `split_nodes_image`/`split_nodes_link`: for each
      match, cut the remaining text once at the literal's first occurrence,
      emit the non-empty text before it and the match's span, and go on with
      the text after it; finally emit the non-empty rest. When the literal
      does not occur, `sections[1]` raises `IndexError`. */
  function SplitAtLiterals(current: string, pairs: seq<(string, string)>, image: bool): Result<seq<TextNode>>
    decreases |pairs|
  {
    if pairs == [] then Ok(if current == "" then [] else [Plain(current)])
    else
      var caption := pairs[0].0;
      var url := pairs[0].1;
      var sections := SplitOnce(current, Literal(image, caption, url));
      if |sections| < 2 then Err(IndexError(IndexOutOfRange))
      else
        var rest :- SplitAtLiterals(sections[1], pairs[1..], image);
        Ok((if sections[0] == "" then [] else [Plain(sections[0])]) + [Typed(caption, url, image)] + rest)
  }

  /** The matches the pass looks for in `text`. */
  function Found(text: string, image: bool): seq<(string, string)> {
    if image then ExtractMarkdownImages(text) else ExtractMarkdownLinks(text)
  }

  /** The body of the loop of `split_nodes_image` (`image`) or
      `split_nodes_link` for one node. */
  function SplitNodeLiterals(n: TextNode, image: bool): (r: Result<seq<TextNode>>)
    ensures n.textType != Text || Found(n.text, image) == [] ==> r == Ok([n])
  {
    if n.textType != Text then Ok([n])
    else
      var found := Found(n.text, image);
      if found == [] then Ok([n])
      else SplitAtLiterals(n.text, found, image)
  }

  function SplitNode(p: Pass, n: TextNode): Result<seq<TextNode>> {
    match p
    case Delimited(d, t) => SplitNodeDelimiter(n, d, t)
    case Images => SplitNodeLiterals(n, true)
    case Links => SplitNodeLiterals(n, false)
  }

  /** A whole pass: the nodes each node gives, concatenated in order; the
      first node that raises aborts the pass. */
  function Apply(p: Pass, ns: seq<TextNode>): Result<seq<TextNode>>
    decreases |ns|
  {
    if ns == [] then Ok([])
    else
      var front :- Apply(p, ns[..|ns| - 1]);
      var last :- SplitNode(p, ns[|ns| - 1]);
      Ok(front + last)
  }

  /** A pass succeeds exactly when every node's split succeeds; when it
      fails, its error is that of the first node whose split fails. */
  lemma {:induction false} ApplyOutcome(p: Pass, ns: seq<TextNode>)
    ensures Apply(p, ns).Ok? <==> forall i :: 0 <= i < |ns| ==> SplitNode(p, ns[i]).Ok?
    ensures Apply(p, ns).Err? ==> exists i :: FirstFailure(p, ns, i) && SplitNode(p, ns[i]) == Apply(p, ns)
  {
    ApplySucceedsIff(p, ns);
    ApplyFirstFailure(p, ns);
  }

  lemma {:induction false} ApplySucceedsIff(p: Pass, ns: seq<TextNode>)
    ensures Apply(p, ns).Ok? <==> forall i :: 0 <= i < |ns| ==> SplitNode(p, ns[i]).Ok?
  {
    if Apply(p, ns).Ok? {
      ApplyOkEach(p, ns);
    }
    if forall i :: 0 <= i < |ns| ==> SplitNode(p, ns[i]).Ok? {
      EachOkApply(p, ns);
    }
  }

  lemma {:induction false} ApplyOkEach(p: Pass, ns: seq<TextNode>)
    requires Apply(p, ns).Ok?
    ensures forall i :: 0 <= i < |ns| ==> SplitNode(p, ns[i]).Ok?
  {
    forall i | 0 <= i < |ns| ensures SplitNode(p, ns[i]).Ok? {
      ApplyOkAt(p, ns, i);
    }
  }

  lemma {:induction false} ApplyOkAt(p: Pass, ns: seq<TextNode>, i: nat)
    requires Apply(p, ns).Ok? && i < |ns|
    ensures SplitNode(p, ns[i]).Ok?
    decreases |ns|
  {
    ApplyOkSplit(p, ns);
    if i < |ns| - 1 {
      var init := ns[..|ns| - 1];
      ApplyOkAt(p, init, i);
      assert init[i] == ns[i];
    }
  }

  /** A successful pass succeeds on all nodes but the last, and on the last. */
  lemma {:induction false} ApplyOkSplit(p: Pass, ns: seq<TextNode>)
    requires Apply(p, ns).Ok? && ns != []
    ensures Apply(p, ns[..|ns| - 1]).Ok? && SplitNode(p, ns[|ns| - 1]).Ok?
  {
    ApplyLast(p, ns);
  }

  lemma {:induction false} EachOkApply(p: Pass, ns: seq<TextNode>)
    requires forall i :: 0 <= i < |ns| ==> SplitNode(p, ns[i]).Ok?
    ensures Apply(p, ns).Ok?
    decreases |ns|
  {
    if ns != [] {
      var init := ns[..|ns| - 1];
      assert forall i :: 0 <= i < |init| ==> init[i] == ns[i];
      EachOkApply(p, init);
      ApplyLast(p, ns);
    }
  }

  lemma {:induction false} ApplyFirstFailure(p: Pass, ns: seq<TextNode>)
    ensures Apply(p, ns).Err? ==> exists i :: FirstFailure(p, ns, i) && SplitNode(p, ns[i]) == Apply(p, ns)
    decreases |ns|
  {
    if ns != [] && Apply(p, ns).Err? {
      var init := ns[..|ns| - 1];
      ApplyLast(p, ns);
      if Apply(p, init).Err? {
        ApplyFirstFailure(p, init);
        var i :| FirstFailure(p, init, i) && SplitNode(p, init[i]) == Apply(p, init);
        FailureInInit(p, ns, init, i);
      } else {
        ApplyOkEach(p, init);
        FailureAtLast(p, ns, init);
      }
    }
  }

  lemma {:induction false} FailureInInit(p: Pass, ns: seq<TextNode>, init: seq<TextNode>, i: int)
    requires ns != [] && init == ns[..|ns| - 1] && FirstFailure(p, init, i)
    ensures FirstFailure(p, ns, i) && ns[i] == init[i]
  {
    assert forall j :: 0 <= j <= i ==> init[j] == ns[j];
  }

  lemma {:induction false} FailureAtLast(p: Pass, ns: seq<TextNode>, init: seq<TextNode>)
    requires ns != [] && init == ns[..|ns| - 1]
    requires forall j :: 0 <= j < |init| ==> SplitNode(p, init[j]).Ok?
    requires SplitNode(p, ns[|ns| - 1]).Err?
    ensures FirstFailure(p, ns, |ns| - 1)
  {
    assert forall j :: 0 <= j < |init| ==> init[j] == ns[j];
  }

  /** Node `i` is the first whose split fails. */
  predicate FirstFailure(p: Pass, ns: seq<TextNode>, i: int) {
    0 <= i < |ns| && SplitNode(p, ns[i]).Err? && forall j :: 0 <= j < i ==> SplitNode(p, ns[j]).Ok?
  }

  /** `text_to_textnodes`: bold, italic, code, images, links, in that order. */
  function TextToTextNodes(text: string): Result<seq<TextNode>> {
    var nodes := [Plain(text)];
    var nodes :- Apply(Delimited("**", Bold), nodes);
    var nodes :- Apply(Delimited("*", Italic), nodes);
    var nodes :- Apply(Delimited("`", Code), nodes);
    var nodes :- Apply(Images, nodes);
    Apply(Links, nodes)
  }

  // ---------------------------------------------------------------------
  // The passes as the program writes them: loops appending to a list.

  /** `split_nodes_delimiter`. */
  method SplitNodesDelimiter(oldNodes: seq<TextNode>, delimiter: string, textType: TextType)
    returns (r: Result<seq<TextNode>>)
    ensures r == Apply(Delimited(delimiter, textType), oldNodes)
  {
    var p := Delimited(delimiter, textType);
    var newNodes: seq<TextNode> := [];
    for i := 0 to |oldNodes|
      invariant Apply(p, oldNodes[..i]) == Ok(newNodes)
    {
      var node := oldNodes[i];
      ApplySnoc(p, oldNodes, i);
      assert SplitNode(p, node) == SplitNodeDelimiter(node, delimiter, textType);
      if node.textType != Text {
        newNodes := newNodes + [node];
        continue;
      }
      if delimiter == "" {
        ApplyStopsAtError(p, oldNodes, i + 1);
        return Err(ValueError("empty separator"));
      }
      var splitParts := Split(node.text, delimiter);
      if |splitParts| % 2 == 0 {
        ApplyStopsAtError(p, oldNodes, i + 1);
        return Err(ValueError("Unmatched delimiter '" + delimiter + "' in text: " + node.text));
      }
      var pieces := DelimitedPieces(splitParts, textType);
      newNodes := newNodes + pieces;
      assert SplitNode(p, node) == Ok(PieceNodes(splitParts, textType));
    }
    assert oldNodes[..|oldNodes|] == oldNodes;
    return Ok(newNodes);
  }

  /** The inner loop of `split_nodes_delimiter` over the pieces of one node. */
  method DelimitedPieces(splitParts: seq<string>, textType: TextType) returns (nodes: seq<TextNode>)
    ensures nodes == PieceNodes(splitParts, textType)
  {
    nodes := [];
    for j := 0 to |splitParts|
      invariant nodes == PieceNodes(splitParts[..j], textType)
    {
      PieceNodesSnoc(splitParts, j, textType);
      if j % 2 == 0 {
        if splitParts[j] != "" {
          nodes := nodes + [Plain(splitParts[j])];
        }
      } else {
        nodes := nodes + [TextNode(splitParts[j], textType, None, None)];
      }
    }
    assert splitParts[..|splitParts|] == splitParts;
  }

  /** `split_nodes_image`. */
  method SplitNodesImage(oldNodes: seq<TextNode>) returns (r: Result<seq<TextNode>>)
    ensures r == Apply(Images, oldNodes)
  {
    r := SplitNodesLiterals(oldNodes, true);
  }

  /** `split_nodes_link`. */
  method SplitNodesLink(oldNodes: seq<TextNode>) returns (r: Result<seq<TextNode>>)
    ensures r == Apply(Links, oldNodes)
  {
    r := SplitNodesLiterals(oldNodes, false);
  }

  /** The shared loop of `split_nodes_image` (`image`) and `split_nodes_link`. */
  method SplitNodesLiterals(oldNodes: seq<TextNode>, image: bool) returns (r: Result<seq<TextNode>>)
    ensures r == Apply(if image then Images else Links, oldNodes)
  {
    var p := if image then Images else Links;
    var newNodes: seq<TextNode> := [];
    for i := 0 to |oldNodes|
      invariant Apply(p, oldNodes[..i]) == Ok(newNodes)
    {
      var node := oldNodes[i];
      ApplySnoc(p, oldNodes, i);
      assert SplitNode(p, node) == SplitNodeLiterals(node, image);
      if node.textType != Text {
        newNodes := newNodes + [node];
        continue;
      }
      var found := if image then ExtractMarkdownImages(node.text) else ExtractMarkdownLinks(node.text);
      if found == [] {
        newNodes := newNodes + [node];
        continue;
      }
      var pieces := SplitTextAtLiterals(node.text, found, image);
      assert found == Found(node.text, image);
      assert SplitNodeLiterals(node, image) == pieces;
      if pieces.Err? {
        ApplyStopsAtError(p, oldNodes, i + 1);
        return pieces;
      }
      newNodes := newNodes + pieces.value;
    }
    assert oldNodes[..|oldNodes|] == oldNodes;
    return Ok(newNodes);
  }

  /** The inner loop of `split_nodes_image`/`split_nodes_link` over the
      matches of one node, with `current_text` cut once per match. */
  method SplitTextAtLiterals(text: string, found: seq<(string, string)>, image: bool)
    returns (r: Result<seq<TextNode>>)
    ensures r == SplitAtLiterals(text, found, image)
  {
    var nodes: seq<TextNode> := [];
    var currentText := text;
    assert found[0..] == found;
    PrependNothing(SplitAtLiterals(text, found, image));
    for k := 0 to |found|
      invariant Prepend(nodes, SplitAtLiterals(currentText, found[k..], image)) == SplitAtLiterals(text, found, image)
    {
      var caption := found[k].0;
      var url := found[k].1;
      var sections := SplitOnce(currentText, Literal(image, caption, url));
      assert found[k..][0] == found[k] && found[k..][1..] == found[k + 1..];
      LiteralLoopStep(nodes, currentText, found[k..], image, SplitAtLiterals(text, found, image));
      if |sections| < 2 {
        return Err(IndexError(IndexOutOfRange));
      }
      if sections[0] != "" {
        nodes := nodes + [Plain(sections[0])];
      }
      nodes := nodes + [Typed(caption, url, image)];
      currentText := sections[1];
    }
    SplitAtLiteralsDone(nodes, currentText, found[|found|..], image);
    if currentText != "" {
      nodes := nodes + [Plain(currentText)];
    }
    return Ok(nodes);
  }

  /** The text left after the last match becomes the last node, when there
      is any. */
  lemma SplitAtLiteralsDone(acc: seq<TextNode>, current: string, pairs: seq<(string, string)>, image: bool)
    requires pairs == []
    ensures current == "" ==> Prepend(acc, SplitAtLiterals(current, pairs, image)) == Ok(acc)
    ensures current != "" ==> Prepend(acc, SplitAtLiterals(current, pairs, image)) == Ok(acc + [Plain(current)])
  {
    assert acc + [] == acc;
  }

  /** One step of `SplitAtLiterals`. */
  lemma SplitAtLiteralsStep(current: string, pairs: seq<(string, string)>, image: bool)
    requires pairs != []
    ensures var sections := SplitOnce(current, Literal(image, pairs[0].0, pairs[0].1));
      var emitted := (if sections[0] == "" then [] else [Plain(sections[0])]) + [Typed(pairs[0].0, pairs[0].1, image)];
      && (|sections| < 2 ==> SplitAtLiterals(current, pairs, image) == Err(IndexError(IndexOutOfRange)))
      && (|sections| == 2 ==>
            var rest := SplitAtLiterals(sections[1], pairs[1..], image);
            SplitAtLiterals(current, pairs, image) == if rest.Ok? then Ok(emitted + rest.value) else rest)
  {
  }

  /** The loop of `SplitTextAtLiterals` keeps its invariant across one
      match. */
  lemma LiteralLoopStep(acc: seq<TextNode>, current: string, pairs: seq<(string, string)>, image: bool,
                        goal: Result<seq<TextNode>>)
    requires pairs != [] && Prepend(acc, SplitAtLiterals(current, pairs, image)) == goal
    ensures var sections := SplitOnce(current, Literal(image, pairs[0].0, pairs[0].1));
      var typed := Typed(pairs[0].0, pairs[0].1, image);
      && (|sections| < 2 ==> goal == Err(IndexError(IndexOutOfRange)))
      && (|sections| == 2 && sections[0] == "" ==>
            Prepend(acc + [typed], SplitAtLiterals(sections[1], pairs[1..], image)) == goal)
      && (|sections| == 2 && sections[0] != "" ==>
            Prepend(acc + [Plain(sections[0])] + [typed], SplitAtLiterals(sections[1], pairs[1..], image)) == goal)
  {
    var sections := SplitOnce(current, Literal(image, pairs[0].0, pairs[0].1));
    SplitAtLiteralsStep(current, pairs, image);
    if |sections| == 2 {
      var typed := Typed(pairs[0].0, pairs[0].1, image);
      var emitted := (if sections[0] == "" then [] else [Plain(sections[0])]) + [typed];
      PrependStep(acc, emitted, SplitAtLiterals(sections[1], pairs[1..], image));
      if sections[0] == "" {
        assert emitted == [typed];
      } else {
        assert acc + emitted == acc + [Plain(sections[0])] + [typed];
      }
    }
  }

  lemma PrependNothing(r: Result<seq<TextNode>>)
    ensures Prepend([], r) == r
  {
    if r.Ok? {
      assert [] + r.value == r.value;
    }
  }

  lemma PrependStep(acc: seq<TextNode>, emitted: seq<TextNode>, r: Result<seq<TextNode>>)
    ensures Prepend(acc, if r.Ok? then Ok(emitted + r.value) else r) == Prepend(acc + emitted, r)
  {
    if r.Ok? {
      assert acc + (emitted + r.value) == acc + emitted + r.value;
    }
  }

  /** `acc` followed by the nodes of `r`, or `r`'s error. */
  function Prepend(acc: seq<TextNode>, r: Result<seq<TextNode>>): Result<seq<TextNode>> {
    if r.Ok? then Ok(acc + r.value) else r
  }

  /** Extending the prefix a pass has consumed by one node. */
  lemma ApplySnoc(p: Pass, ns: seq<TextNode>, i: nat)
    requires i < |ns|
    ensures Apply(p, ns[..i]).Ok? && SplitNode(p, ns[i]).Ok? ==>
              Apply(p, ns[..i + 1]) == Ok(Apply(p, ns[..i]).value + SplitNode(p, ns[i]).value)
    ensures Apply(p, ns[..i]).Ok? && SplitNode(p, ns[i]).Err? ==> Apply(p, ns[..i + 1]) == SplitNode(p, ns[i])
  {
    var pre := ns[..i + 1];
    assert pre[..|pre| - 1] == ns[..i];
    assert pre[|pre| - 1] == ns[i];
    ApplyLast(p, pre);
  }

  /** One unfolding of `Apply`. */
  lemma ApplyLast(p: Pass, ns: seq<TextNode>)
    requires ns != []
    ensures var front := Apply(p, ns[..|ns| - 1]); var last := SplitNode(p, ns[|ns| - 1]);
      Apply(p, ns) == if front.Err? then front else if last.Err? then last else Ok(front.value + last.value)
  {
  }

  /** One more piece of a split. */
  lemma PieceNodesSnoc(parts: seq<string>, j: nat, textType: TextType)
    requires j < |parts|
    ensures PieceNodes(parts[..j + 1], textType) == PieceNodes(parts[..j], textType) + PieceNode(j, parts[j], textType)
  {
    var pre := parts[..j + 1];
    assert pre[..|pre| - 1] == parts[..j];
  }

  /** Once a prefix of the nodes makes a pass raise, the whole pass raises
      the same error. */
  lemma {:induction false} ApplyStopsAtError(p: Pass, ns: seq<TextNode>, j: nat)
    requires j <= |ns| && Apply(p, ns[..j]).Err?
    ensures Apply(p, ns) == Apply(p, ns[..j])
    decreases |ns| - j
  {
    if j < |ns| {
      assert ns[..j + 1][..j] == ns[..j];
      ApplyStopsAtError(p, ns, j + 1);
    } else {
      assert ns[..j] == ns;
    }
  }

  // ---------------------------------------------------------------------
  // The passes lose no text: printing the spans back as markdown gives the
  // text they were cut from.

  /** The markdown a span stands for: its text between the markers of its
      type. */
  function Markup(n: TextNode): string {
    Opening(n.textType) + n.text + Closing(n.textType, n.url)
  }

  function Opening(t: TextType): string {
    match t
    case Bold => "**"
    case Italic => "*"
    case Code => "`"
    case Image => "!["
    case Link => "["
    case _ => ""
  }

  function Closing(t: TextType, url: Option<string>): string {
    match t
    case Bold => "**"
    case Italic => "*"
    case Code => "`"
    case Image => "](" + url.GetOr("") + ")"
    case Link => "](" + url.GetOr("") + ")"
    case _ => ""
  }

  /** The markdown a list of spans stands for. */
  function Unparse(ns: seq<TextNode>): string {
    ConcatMap(ns, Markup)
  }

  /** The strings `f` gives for `xs`, concatenated left to right. */
  function ConcatMap<T>(xs: seq<T>, f: T -> string): string
    decreases |xs|
  {
    if xs == [] then "" else ConcatMap(xs[..|xs| - 1], f) + f(xs[|xs| - 1])
  }

  /** The delimiters `text_to_textnodes` passes, with their span types. */
  predicate KnownDelimiter(d: string, t: TextType) {
    (d == "**" && t == Bold) || (d == "*" && t == Italic) || (d == "`" && t == Code)
  }

  /** The five passes of `text_to_textnodes`. */
  predicate KnownPass(p: Pass) {
    p.Delimited? ==> KnownDelimiter(p.delimiter, p.textType)
  }

  lemma UnparseAppend(a: seq<TextNode>, b: seq<TextNode>)
    ensures Unparse(a + b) == Unparse(a) + Unparse(b)
  {
    ConcatMapAppend(a, b, Markup);
  }

  lemma {:induction false} ConcatMapAppend<T>(a: seq<T>, b: seq<T>, f: T -> string)
    ensures ConcatMap(a + b, f) == ConcatMap(a, f) + ConcatMap(b, f)
    decreases |b|
  {
    if b == [] {
      assert a + b == a;
    } else {
      var c := a + b;
      var binit := b[..|b| - 1];
      assert c[..|c| - 1] == a + binit;
      assert c[|c| - 1] == b[|b| - 1];
      ConcatMapAppend(a, binit, f);
    }
  }

  lemma UnparseSingle(n: TextNode)
    ensures Unparse([n]) == Markup(n)
  {
    assert [n][..0] == [];
    assert ConcatMap([n], Markup) == ConcatMap([], Markup) + Markup(n);
  }

  /** An even piece prints back as itself, whether or not it was kept. */
  lemma UnparseEvenPiece(i: nat, x: string, t: TextType)
    requires i % 2 == 0
    ensures Unparse(PieceNode(i, x, t)) == x
  {
    if x != "" {
      UnparseSingle(Plain(x));
    }
  }

  /** An odd piece prints back between two delimiters. */
  lemma UnparseOddPiece(i: nat, x: string, d: string, t: TextType)
    requires i % 2 == 1 && KnownDelimiter(d, t)
    ensures Unparse(PieceNode(i, x, t)) == d + x + d
  {
    UnparseSingle(TextNode(x, t, None, None));
  }

  /** Joining the pieces with the delimiter is printing their spans. */
  lemma {:induction false} UnparsePieces(parts: seq<string>, d: string, t: TextType)
    requires KnownDelimiter(d, t) && |parts| % 2 == 1
    ensures Unparse(PieceNodes(parts, t)) == Join(parts, d)
    decreases |parts|
  {
    var n := |parts|;
    if n == 1 {
      UnparseOnePiece(parts, t);
    } else {
      var pre := parts[..n - 2];
      OddMinusTwo(n);
      UnparsePieces(pre, d, t);
      UnparseTwoMorePieces(parts, d, t);
    }
  }

  lemma {:induction false} UnparseOnePiece(parts: seq<string>, t: TextType)
    requires |parts| == 1
    ensures Unparse(PieceNodes(parts, t)) == parts[0]
  {
    PieceNodesSnoc(parts, 0, t);
    assert parts[..0] == [] && parts[..1] == parts;
    assert PieceNodes(parts, t) == PieceNode(0, parts[0], t);
    UnparseEvenPiece(0, parts[0], t);
  }

  /** The induction step above: two more pieces, a delimited one and a
      plain one. */
  lemma {:induction false} UnparseTwoMorePieces(parts: seq<string>, d: string, t: TextType)
    requires KnownDelimiter(d, t) && |parts| % 2 == 1 && |parts| >= 3
    requires Unparse(PieceNodes(parts[..|parts| - 2], t)) == Join(parts[..|parts| - 2], d)
    ensures Unparse(PieceNodes(parts, t)) == Join(parts, d)
  {
    var n := |parts|;
    var pre := parts[..n - 2];
    var x := parts[n - 2];
    var y := parts[n - 1];
    PieceNodesTwoMore(parts, t);
    OddMinusTwo(n);
    var a := PieceNodes(pre, t);
    var b := PieceNode(n - 2, x, t);
    var c := PieceNode(n - 1, y, t);
    UnparseThree(a, b, c);
    UnparseOddPiece(n - 2, x, d, t);
    UnparseEvenPiece(n - 1, y, t);
    assert Unparse(PieceNodes(parts, t)) == Join(pre, d) + (d + x + d) + y;
    JoinTwoMore(parts, d);
  }

  /** Counting back from an odd number of pieces. */
  lemma OddMinusTwo(n: int)
    requires n % 2 == 1 && n >= 3
    ensures (n - 2) % 2 == 1 && (n - 1) % 2 == 0
  {
  }

  /** The last two pieces of a split, unfolded. */
  lemma {:induction false} PieceNodesTwoMore(parts: seq<string>, t: TextType)
    requires |parts| >= 2
    ensures var n := |parts|;
      PieceNodes(parts, t)
      == PieceNodes(parts[..n - 2], t) + PieceNode(n - 2, parts[n - 2], t) + PieceNode(n - 1, parts[n - 1], t)
  {
    var n := |parts|;
    var mid := parts[..n - 1];
    assert mid[..n - 2] == parts[..n - 2];
    assert mid[n - 2] == parts[n - 2];
    assert PieceNodes(mid, t) == PieceNodes(parts[..n - 2], t) + PieceNode(n - 2, parts[n - 2], t);
  }

  lemma {:induction false} UnparseThree(a: seq<TextNode>, b: seq<TextNode>, c: seq<TextNode>)
    ensures Unparse(a + b + c) == Unparse(a) + Unparse(b) + Unparse(c)
  {
    UnparseAppend(a + b, c);
    UnparseAppend(a, b);
  }

  /** The spans cut from a text by the matches print back as that text. */
  lemma {:induction false} UnparseSplitAtLiterals(current: string, pairs: seq<(string, string)>, image: bool)
    requires SplitAtLiterals(current, pairs, image).Ok?
    ensures Unparse(SplitAtLiterals(current, pairs, image).value) == current
    decreases |pairs|
  {
    if pairs == [] {
      if current != "" {
        UnparseSingle(Plain(current));
      }
    } else {
      var caption := pairs[0].0;
      var url := pairs[0].1;
      SplitAtLiteralsStep(current, pairs, image);
      var sections := SplitOnce(current, Literal(image, caption, url));
      var head := if sections[0] == "" then [] else [Plain(sections[0])];
      var typed := Typed(caption, url, image);
      UnparseSplitAtLiterals(sections[1], pairs[1..], image);
      var rest := SplitAtLiterals(sections[1], pairs[1..], image).value;
      assert SplitAtLiterals(current, pairs, image).value == head + [typed] + rest;
      UnparseThree(head, [typed], rest);
      UnparseKept(sections[0]);
      UnparseTyped(caption, url, image);
    }
  }

  /** A non-empty text kept as a plain span, or dropped when empty, prints
      back as itself. */
  lemma {:induction false} UnparseKept(x: string)
    ensures Unparse(if x == "" then [] else [Plain(x)]) == x
  {
    if x != "" {
      UnparseSingle(Plain(x));
    }
  }

  /** An image or link span prints back as its markdown literal. */
  lemma {:induction false} UnparseTyped(caption: string, url: string, image: bool)
    ensures Unparse([Typed(caption, url, image)]) == Literal(image, caption, url)
  {
    UnparseSingle(Typed(caption, url, image));
  }

  /** One node's split prints back as the node. */
  lemma SplitNodePreservesMarkup(p: Pass, n: TextNode)
    requires KnownPass(p) && SplitNode(p, n).Ok?
    ensures Unparse(SplitNode(p, n).value) == Markup(n)
  {
    if n.textType != Text {
      UnparseSingle(n);
    } else if p.Delimited? {
      DelimitedPreservesMarkup(p.delimiter, p.textType, n);
    } else {
      LiteralsPreserveMarkup(p.Images?, n);
    }
  }

  lemma {:induction false} DelimitedPreservesMarkup(d: string, t: TextType, n: TextNode)
    requires KnownDelimiter(d, t) && n.textType == Text && SplitNodeDelimiter(n, d, t).Ok?
    ensures Unparse(SplitNodeDelimiter(n, d, t).value) == Markup(n)
  {
    var parts := Split(n.text, d);
    DelimiterSplitText(d, t, n);
    SplitJoin(n.text, d);
    UnparsePieces(parts, d, t);
    MarkupOfText(n);
  }

  /** A text span that splits is replaced by the nodes of its pieces. */
  lemma {:induction false} DelimiterSplitText(d: string, t: TextType, n: TextNode)
    requires KnownDelimiter(d, t) && n.textType == Text && SplitNodeDelimiter(n, d, t).Ok?
    ensures |Split(n.text, d)| % 2 == 1
    ensures SplitNodeDelimiter(n, d, t).value == PieceNodes(Split(n.text, d), t)
  {
  }

  lemma {:induction false} LiteralsPreserveMarkup(image: bool, n: TextNode)
    requires n.textType == Text && SplitNodeLiterals(n, image).Ok?
    ensures Unparse(SplitNodeLiterals(n, image).value) == Markup(n)
  {
    var found := Found(n.text, image);
    if found == [] {
      UnparseSingle(n);
    } else {
      LiteralsSplitText(image, n);
      UnparseSplitAtLiterals(n.text, found, image);
      MarkupOfText(n);
    }
  }

  /** A text span with literals found is split at them. */
  lemma {:induction false} LiteralsSplitText(image: bool, n: TextNode)
    requires n.textType == Text && Found(n.text, image) != []
    ensures SplitNodeLiterals(n, image) == SplitAtLiterals(n.text, Found(n.text, image), image)
  {
  }

  /** A plain span stands for its own text. */
  lemma {:induction false} MarkupOfText(n: TextNode)
    requires n.textType == Text
    ensures Markup(n) == n.text
  {
    assert Opening(Text) == "" && Closing(Text, n.url) == "";
  }

  /** A successful pass prints back as its input. */
  lemma {:induction false} ApplyPreservesMarkup(p: Pass, ns: seq<TextNode>)
    requires KnownPass(p) && Apply(p, ns).Ok?
    ensures Unparse(Apply(p, ns).value) == Unparse(ns)
    decreases |ns|
  {
    if ns != [] {
      var init := ns[..|ns| - 1];
      var last := ns[|ns| - 1];
      ApplyLast(p, ns);
      ApplyPreservesMarkup(p, init);
      SplitNodePreservesMarkup(p, last);
      UnparseAppend(Apply(p, init).value, SplitNode(p, last).value);
    }
  }

  /** The spans `text_to_textnodes` returns print back as its input. */
  lemma TextToTextNodesRoundTrip(text: string)
    requires TextToTextNodes(text).Ok?
    ensures Unparse(TextToTextNodes(text).value) == text
  {
    var n0 := [Plain(text)];
    UnparseSingle(Plain(text));
    var n1 := Apply(Delimited("**", Bold), n0).value;
    ApplyPreservesMarkup(Delimited("**", Bold), n0);
    var n2 := Apply(Delimited("*", Italic), n1).value;
    ApplyPreservesMarkup(Delimited("*", Italic), n1);
    var n3 := Apply(Delimited("`", Code), n2).value;
    ApplyPreservesMarkup(Delimited("`", Code), n2);
    var n4 := Apply(Images, n3).value;
    ApplyPreservesMarkup(Images, n3);
    ApplyPreservesMarkup(Links, n4);
  }

  // ---------------------------------------------------------------------
  // Typed spans are left where they are.

  /** A span some pass has typed is kept, alone, by every later pass. */
  lemma SplitNodeKeepsTyped(p: Pass, n: TextNode)
    requires n.textType != Text
    ensures SplitNode(p, n) == Ok([n])
  {
  }

  /** A pass over two lists is the pass over each, concatenated; the first
      list's error wins. */
  lemma {:induction false} ApplyAppend(p: Pass, a: seq<TextNode>, b: seq<TextNode>)
    ensures Apply(p, a + b) == (if Apply(p, a).Err? then Apply(p, a)
                                else if Apply(p, b).Err? then Apply(p, b)
                                else Ok(Apply(p, a).value + Apply(p, b).value))
    decreases |b|
  {
    if b == [] {
      assert a + b == a;
      assert Apply(p, a).Ok? ==> Apply(p, a).value + [] == Apply(p, a).value;
    } else {
      var c := a + b;
      var binit := b[..|b| - 1];
      assert c[..|c| - 1] == a + binit;
      assert c[|c| - 1] == b[|b| - 1];
      ApplyLast(p, c);
      ApplyLast(p, b);
      ApplyAppend(p, a, binit);
      if Apply(p, a).Ok? && Apply(p, binit).Ok? && SplitNode(p, b[|b| - 1]).Ok? {
        var x := Apply(p, a).value;
        var y := Apply(p, binit).value;
        var z := SplitNode(p, b[|b| - 1]).value;
        assert x + y + z == x + (y + z);
      }
    }
  }

  /** A typed span stays in its place: the pass over `a + [n] + b` is the
      pass over `a`, then `n` itself, then the pass over `b`. */
  lemma {:induction false} PassKeepsTypedInPlace(p: Pass, a: seq<TextNode>, n: TextNode, b: seq<TextNode>)
    requires n.textType != Text && Apply(p, a).Ok? && Apply(p, b).Ok?
    ensures Apply(p, a + [n] + b) == Ok(Apply(p, a).value + [n] + Apply(p, b).value)
  {
    assert [n][..0] == [];
    ApplyLast(p, [n]);
    ApplyAppend(p, a, [n]);
    ApplyAppend(p, a + [n], b);
  }

  // ---------------------------------------------------------------------
  // What the delimiter pass produces.

  /** A delimiter pass fails exactly when some plain span holds an odd
      number of delimiters, that is, splits into an even number of pieces. */
  lemma {:induction false} DelimiterFailsIff(d: string, t: TextType, ns: seq<TextNode>)
    requires d != ""
    ensures Apply(Delimited(d, t), ns).Err? <==>
            exists i :: 0 <= i < |ns| && ns[i].textType == Text && Count(ns[i].text, d) % 2 == 1
    ensures Apply(Delimited(d, t), ns).Err? ==>
            exists i :: 0 <= i < |ns| && ns[i].textType == Text && |Split(ns[i].text, d)| % 2 == 0
                        && Apply(Delimited(d, t), ns)
                           == Err(ValueError("Unmatched delimiter '" + d + "' in text: " + ns[i].text))
  {
    var p := Delimited(d, t);
    ApplyOutcome(p, ns);
    NodeFailsIff(d, t, ns);
    if Apply(p, ns).Err? {
      var i :| FirstFailure(p, ns, i) && SplitNode(p, ns[i]) == Apply(p, ns);
      FailingNode(d, t, ns[i]);
    }
  }

  /** A plain span fails the delimiter pass exactly when it holds an odd
      number of delimiters. */
  lemma {:induction false} NodeFailsIff(d: string, t: TextType, ns: seq<TextNode>)
    requires d != ""
    ensures forall i :: 0 <= i < |ns| ==>
              (SplitNode(Delimited(d, t), ns[i]).Err? <==> ns[i].textType == Text && Count(ns[i].text, d) % 2 == 1)
  {
    forall i | 0 <= i < |ns|
      ensures SplitNode(Delimited(d, t), ns[i]).Err? <==> ns[i].textType == Text && Count(ns[i].text, d) % 2 == 1
    {
      NodeFails(d, t, ns[i]);
    }
  }

  lemma {:induction false} NodeFails(d: string, t: TextType, n: TextNode)
    requires d != ""
    ensures SplitNode(Delimited(d, t), n).Err? <==> n.textType == Text && Count(n.text, d) % 2 == 1
  {
    SplitCount(n.text, d);
    SuccessorParity(Count(n.text, d));
  }

  /** `k + 1` is even exactly when `k` is odd. */
  lemma SuccessorParity(k: nat)
    ensures (k + 1) % 2 == 0 <==> k % 2 == 1
  {
  }

  lemma {:induction false} FailingNode(d: string, t: TextType, n: TextNode)
    requires d != "" && SplitNode(Delimited(d, t), n).Err?
    ensures n.textType == Text && |Split(n.text, d)| % 2 == 0
    ensures SplitNode(Delimited(d, t), n) == Err(ValueError("Unmatched delimiter '" + d + "' in text: " + n.text))
  {
  }

  /** The texts of the spans of type `t`, in order. */
  function TextsOfType(ns: seq<TextNode>, t: TextType): seq<string>
    decreases |ns|
  {
    if ns == [] then []
    else TextsOfType(ns[..|ns| - 1], t) + (if ns[|ns| - 1].textType == t then [ns[|ns| - 1].text] else [])
  }

  /** The pieces of odd index, in order: the text between each opening
      delimiter and its closing one. */
  function OddPieces(parts: seq<string>): seq<string>
    decreases |parts|
  {
    if parts == [] then []
    else OddPieces(parts[..|parts| - 1]) + (if (|parts| - 1) % 2 == 1 then [parts[|parts| - 1]] else [])
  }

  /** A span a pass over a plain span may produce: non-empty plain text,
      or a span of the pass's type, with a url if it is a link or an image. */
  predicate Produced(n: TextNode, t: TextType) {
    || (n.textType == Text && n.text != "")
    || (n.textType == t && (t == Link || t == Image ==> n.url.Some?))
  }

  predicate AllProduced(ns: seq<TextNode>, t: TextType) {
    forall k :: 0 <= k < |ns| ==> Produced(ns[k], t)
  }

  lemma {:induction false} AllProducedAppend(a: seq<TextNode>, b: seq<TextNode>, t: TextType)
    requires AllProduced(a, t) && AllProduced(b, t)
    ensures AllProduced(a + b, t)
  {
    forall k | 0 <= k < |a + b| ensures Produced((a + b)[k], t) {
      if k >= |a| { assert (a + b)[k] == b[k - |a|]; }
    }
  }

  /** The spans a delimiter pass types are exactly the odd pieces, empty
      ones included, in order; the even pieces give non-empty plain spans
      only. */
  lemma {:induction false} DelimitedSpans(parts: seq<string>, t: TextType)
    requires t != Text && t != Link && t != Image
    ensures TextsOfType(PieceNodes(parts, t), t) == OddPieces(parts)
    ensures AllProduced(PieceNodes(parts, t), t)
    decreases |parts|
  {
    if parts != [] {
      var n := |parts|;
      var init := parts[..n - 1];
      DelimitedSpans(init, t);
      var front := PieceNodes(init, t);
      var last := PieceNode(n - 1, parts[n - 1], t);
      assert PieceNodes(parts, t) == front + last;
      assert OddPieces(parts) == OddPieces(init) + (if (n - 1) % 2 == 1 then [parts[n - 1]] else []);
      TextsOfTypeAppend(front, last, t);
      PieceNodeSpans(n - 1, parts[n - 1], t);
      AllProducedAppend(front, last, t);
    }
  }

  /** The spans one piece gives. */
  lemma {:induction false} PieceNodeSpans(i: nat, x: string, t: TextType)
    requires t != Text && t != Link && t != Image
    ensures TextsOfType(PieceNode(i, x, t), t) == if i % 2 == 1 then [x] else []
    ensures AllProduced(PieceNode(i, x, t), t)
  {
    var ns := PieceNode(i, x, t);
    if ns != [] {
      TextsOfTypeSingle(ns[0], t);
    }
  }

  lemma {:induction false} TextsOfTypeSingle(n: TextNode, t: TextType)
    ensures TextsOfType([n], t) == if n.textType == t then [n.text] else []
  {
    assert [n][..0] == [];
  }

  lemma {:induction false} TextsOfTypeAppend(a: seq<TextNode>, b: seq<TextNode>, t: TextType)
    ensures TextsOfType(a + b, t) == TextsOfType(a, t) + TextsOfType(b, t)
    decreases |b|
  {
    if b == [] {
      assert a + b == a;
    } else {
      var c := a + b;
      var binit := b[..|b| - 1];
      assert c[..|c| - 1] == a + binit;
      assert c[|c| - 1] == b[|b| - 1];
      TextsOfTypeAppend(a, binit, t);
    }
  }

  // ---------------------------------------------------------------------
  // What the image and link passes produce.

  /** The `(caption, url)` of each span of type `t`, in order. */
  function TargetsOfType(ns: seq<TextNode>, t: TextType): seq<(string, string)>
    decreases |ns|
  {
    if ns == [] then []
    else
      var last := ns[|ns| - 1];
      TargetsOfType(ns[..|ns| - 1], t) + (if last.textType == t then [(last.text, last.url.GetOr(""))] else [])
  }

  lemma {:induction false} TargetsOfTypeAppend(a: seq<TextNode>, b: seq<TextNode>, t: TextType)
    ensures TargetsOfType(a + b, t) == TargetsOfType(a, t) + TargetsOfType(b, t)
    decreases |b|
  {
    if b == [] {
      assert a + b == a;
    } else {
      var c := a + b;
      var binit := b[..|b| - 1];
      assert c[..|c| - 1] == a + binit;
      assert c[|c| - 1] == b[|b| - 1];
      TargetsOfTypeAppend(a, binit, t);
    }
  }

  lemma {:induction false} TargetsOfTypeSingle(n: TextNode, t: TextType)
    ensures TargetsOfType([n], t) == if n.textType == t then [(n.text, n.url.GetOr(""))] else []
  {
    assert [n][..0] == [];
  }

  /** Cutting at the matches gives one image (or link) span per match, in
      the order of the matches, with the match's caption as its text and its
      url; every other span is plain and non-empty. */
  lemma {:induction false} LiteralSpans(current: string, pairs: seq<(string, string)>, image: bool)
    requires SplitAtLiterals(current, pairs, image).Ok?
    ensures TargetsOfType(SplitAtLiterals(current, pairs, image).value, if image then Image else Link) == pairs
    ensures AllProduced(SplitAtLiterals(current, pairs, image).value, if image then Image else Link)
  {
    LiteralTargets(current, pairs, image);
    LiteralsProduced(current, pairs, image);
  }

  /** The typed spans of a cut, in order, are the matches. */
  lemma {:induction false} LiteralTargets(current: string, pairs: seq<(string, string)>, image: bool)
    requires SplitAtLiterals(current, pairs, image).Ok?
    ensures TargetsOfType(SplitAtLiterals(current, pairs, image).value, if image then Image else Link) == pairs
    decreases |pairs|
  {
    var t := if image then Image else Link;
    if pairs == [] {
      if current != "" {
        TargetsOfTypeSingle(Plain(current), t);
      }
    } else {
      var caption := pairs[0].0;
      var url := pairs[0].1;
      SplitAtLiteralsStep(current, pairs, image);
      var sections := SplitOnce(current, Literal(image, caption, url));
      var head := if sections[0] == "" then [] else [Plain(sections[0])];
      var typed := Typed(caption, url, image);
      LiteralTargets(sections[1], pairs[1..], image);
      var rest := SplitAtLiterals(sections[1], pairs[1..], image).value;
      assert SplitAtLiterals(current, pairs, image).value == head + [typed] + rest;
      TargetsOfTypeAppend(head + [typed], rest, t);
      TargetsOfTypeAppend(head, [typed], t);
      TargetsOfTypeSingle(typed, t);
      assert TargetsOfType([typed], t) == [pairs[0]];
      if head != [] {
        TargetsOfTypeSingle(head[0], t);
      }
      assert TargetsOfType(head, t) == [];
      assert TargetsOfType(head + [typed], t) == [pairs[0]];
      HeadAndRest(pairs);
    }
  }

  lemma HeadAndRest(pairs: seq<(string, string)>)
    requires pairs != []
    ensures [pairs[0]] + pairs[1..] == pairs
  {
  }

  /** Every span of a cut is one a pass may produce. */
  lemma {:induction false} LiteralsProduced(current: string, pairs: seq<(string, string)>, image: bool)
    requires SplitAtLiterals(current, pairs, image).Ok?
    ensures AllProduced(SplitAtLiterals(current, pairs, image).value, if image then Image else Link)
    decreases |pairs|
  {
    var t := if image then Image else Link;
    if pairs != [] {
      var caption := pairs[0].0;
      var url := pairs[0].1;
      SplitAtLiteralsStep(current, pairs, image);
      var sections := SplitOnce(current, Literal(image, caption, url));
      var head := if sections[0] == "" then [] else [Plain(sections[0])];
      var typed := Typed(caption, url, image);
      LiteralsProduced(sections[1], pairs[1..], image);
      var rest := SplitAtLiterals(sections[1], pairs[1..], image).value;
      assert SplitAtLiterals(current, pairs, image).value == head + [typed] + rest;
      AllProducedAppend(head, [typed], t);
      AllProducedAppend(head + [typed], rest, t);
    }
  }

  // ---------------------------------------------------------------------
  // Every span the tokenizer makes can be converted to HTML.

  /** The span has one of the types the conversion knows and, if it is a
      link or an image, a url. */
  predicate Convertible(n: TextNode) {
    !n.textType.Other? && (n.textType == Link || n.textType == Image ==> n.url.Some?)
  }

  predicate AllConvertible(ns: seq<TextNode>) {
    forall i :: 0 <= i < |ns| ==> Convertible(ns[i])
  }

  lemma {:induction false} AllConvertibleAppend(a: seq<TextNode>, b: seq<TextNode>)
    ensures AllConvertible(a + b) <==> AllConvertible(a) && AllConvertible(b)
  {
    if AllConvertible(a) && AllConvertible(b) {
      forall i | 0 <= i < |a + b| ensures Convertible((a + b)[i]) {
        if i >= |a| { assert (a + b)[i] == b[i - |a|]; }
      }
    }
    if AllConvertible(a + b) {
      forall i | 0 <= i < |a| ensures Convertible(a[i]) {
        assert (a + b)[i] == a[i];
      }
      forall i | 0 <= i < |b| ensures Convertible(b[i]) {
        assert (a + b)[|a| + i] == b[i];
      }
    }
  }

  /** What a known pass produces from a plain span can be converted. */
  lemma {:induction false} ProducedConvertible(ns: seq<TextNode>, t: TextType)
    requires AllProduced(ns, t) && !t.Other?
    ensures AllConvertible(ns)
  {
    forall k | 0 <= k < |ns| ensures Convertible(ns[k]) {
      assert Produced(ns[k], t);
    }
  }

  /** One node's split, by a pass of `text_to_textnodes`, keeps spans
      convertible. */
  lemma {:induction false} SplitNodeConvertible(p: Pass, n: TextNode)
    requires KnownPass(p) && Convertible(n) && SplitNode(p, n).Ok?
    ensures AllConvertible(SplitNode(p, n).value)
  {
    if n.textType != Text {
      assert SplitNode(p, n).value == [n];
    } else if p.Delimited? {
      DelimitedSpans(Split(n.text, p.delimiter), p.textType);
      ProducedConvertible(SplitNode(p, n).value, p.textType);
    } else {
      var image := p.Images?;
      assert SplitNode(p, n) == SplitNodeLiterals(n, image);
      if Found(n.text, image) == [] {
        assert SplitNode(p, n).value == [n];
      } else {
        LiteralSpans(n.text, Found(n.text, image), image);
        ProducedConvertible(SplitNode(p, n).value, if image then Image else Link);
      }
    }
  }

  /** A pass of `text_to_textnodes` turns convertible spans into
      convertible spans. */
  lemma {:induction false} ApplyConvertible(p: Pass, ns: seq<TextNode>)
    requires KnownPass(p) && AllConvertible(ns) && Apply(p, ns).Ok?
    ensures AllConvertible(Apply(p, ns).value)
    decreases |ns|
  {
    if ns != [] {
      var init := ns[..|ns| - 1];
      var last := ns[|ns| - 1];
      AllConvertibleAppend(init, [last]);
      assert init + [last] == ns;
      ApplyLast(p, ns);
      ApplyConvertible(p, init);
      SplitNodeConvertible(p, last);
      AllConvertibleAppend(Apply(p, init).value, SplitNode(p, last).value);
    }
  }

  /** Every span `text_to_textnodes` returns has a known type, and a url if
      it is a link or an image: converting it to HTML cannot fail. */
  lemma {:induction false} TextToTextNodesConvertible(text: string)
    requires TextToTextNodes(text).Ok?
    ensures AllConvertible(TextToTextNodes(text).value)
  {
    var n0 := [Plain(text)];
    var n1 := Apply(Delimited("**", Bold), n0).value;
    ApplyConvertible(Delimited("**", Bold), n0);
    var n2 := Apply(Delimited("*", Italic), n1).value;
    ApplyConvertible(Delimited("*", Italic), n1);
    var n3 := Apply(Delimited("`", Code), n2).value;
    ApplyConvertible(Delimited("`", Code), n2);
    var n4 := Apply(Images, n3).value;
    ApplyConvertible(Images, n3);
    ApplyConvertible(Links, n4);
  }

  // ---------------------------------------------------------------------
  // Conversion of a span to an HTML leaf.

  /** The span as `text_node_to_html_node` leaves it: an image span with a
      url and no alt text has its alt text set to the empty string; nothing
      else changes, and the span stays equal to what it was. */
  function AfterConversion(tn: TextNode): (r: TextNode)
    ensures Equal(r, tn)
    ensures tn.textType == Image && tn.url.Some? ==> r.altText.Some?
    ensures tn.altText.Some? || tn.textType != Image || tn.url.None? ==> r == tn
  {
    if tn.textType == Image && tn.url.Some? && tn.altText.None? then tn.(altText := Some("")) else tn
  }

  /** `text_node_to_html_node`. */
  function TextNodeToHtmlNode(tn: TextNode): (r: Result<Node>)
    ensures r.Err? <==> !Convertible(tn)
    ensures tn.textType.Other? ==> r == Err(ValueError("Unknown text type: " + tn.textType.name))
    ensures tn.textType == Link && tn.url.None? ==> r == Err(ValueError("Link nodes require a URL."))
    ensures tn.textType == Image && tn.url.None? ==> r == Err(ValueError("Image nodes require a URL."))
    ensures r.Ok? ==> r.value.Leaf? && WellFormed(r.value)
    ensures r.Ok? ==> r.value.value == Some(if tn.textType == Image then "" else tn.text)
    ensures r.Ok? ==> (r.value.tag.None? <==> tn.textType == Text)
  {
    match tn.textType
    case Text => NewLeaf(None, Some(tn.text), [])
    case Bold => NewLeaf(Some("b"), Some(tn.text), [])
    case Italic => NewLeaf(Some("i"), Some(tn.text), [])
    case Code => NewLeaf(Some("code"), Some(tn.text), [])
    case Link =>
      if tn.url.None? then Err(ValueError("Link nodes require a URL."))
      else NewLeaf(Some("a"), Some(tn.text), [("href", tn.url.value)])
    case Image =>
      if tn.url.None? then Err(ValueError("Image nodes require a URL."))
      else NewLeaf(Some("img"), Some(""), [("src", tn.url.value), ("alt", AfterConversion(tn).altText.value)])
    case Other(name) => Err(ValueError("Unknown text type: " + name))
  }

  /** The HTML each kind of span becomes: plain text as itself, bold,
      italic and code inside `b`, `i` and `code` tags, a link as an `a`
      element with its url as `href`. */
  lemma {:induction false} SpanRendering(tn: TextNode)
    requires Convertible(tn) && tn.textType != Image
    ensures var html := ToHtml(TextNodeToHtmlNode(tn).value);
      && (tn.textType == Text ==> html == Ok(tn.text))
      && (tn.textType == Bold ==> html == Ok("<b>" + tn.text + "</b>"))
      && (tn.textType == Italic ==> html == Ok("<i>" + tn.text + "</i>"))
      && (tn.textType == Code ==> html == Ok("<code>" + tn.text + "</code>"))
      && (tn.textType == Link ==> html == Ok("<a href=\"" + tn.url.value + "\">" + tn.text + "</a>"))
  {
    match tn.textType
    case Text => TextSpanRendering(tn);
    case Bold => BoldSpanRendering(tn);
    case Italic => ItalicSpanRendering(tn);
    case Code => CodeSpanRendering(tn);
    case Link => LinkSpanRendering(tn);
  }

  lemma {:induction false} TextSpanRendering(tn: TextNode)
    requires tn.textType == Text
    ensures ToHtml(TextNodeToHtmlNode(tn).value) == Ok(tn.text)
  {
    assert TextNodeToHtmlNode(tn) == Ok(Leaf(None, Some(tn.text), []));
  }

  lemma {:induction false} BoldSpanRendering(tn: TextNode)
    requires tn.textType == Bold
    ensures ToHtml(TextNodeToHtmlNode(tn).value) == Ok("<b>" + tn.text + "</b>")
  {
    TaggedSpanRendering(tn, "b");
    WrapIn("b", tn.text, "<b>", "</b>");
  }

  lemma {:induction false} ItalicSpanRendering(tn: TextNode)
    requires tn.textType == Italic
    ensures ToHtml(TextNodeToHtmlNode(tn).value) == Ok("<i>" + tn.text + "</i>")
  {
    TaggedSpanRendering(tn, "i");
    WrapIn("i", tn.text, "<i>", "</i>");
  }

  lemma {:induction false} CodeSpanRendering(tn: TextNode)
    requires tn.textType == Code
    ensures ToHtml(TextNodeToHtmlNode(tn).value) == Ok("<code>" + tn.text + "</code>")
  {
    TaggedSpanRendering(tn, "code");
    WrapIn("code", tn.text, "<code>", "</code>");
  }

  lemma {:induction false} LinkSpanRendering(tn: TextNode)
    requires tn.textType == Link && tn.url.Some?
    ensures ToHtml(TextNodeToHtmlNode(tn).value) == Ok("<a href=\"" + tn.url.value + "\">" + tn.text + "</a>")
  {
    var props := [("href", tn.url.value)];
    assert TextNodeToHtmlNode(tn) == Ok(Leaf(Some("a"), Some(tn.text), props));
    LeafRendering(Some("a"), Some(tn.text), props);
    PropsToHtmlSingle("href", tn.url.value);
    var open := "<a href=\"" + tn.url.value + "\">";
    assert "<" + "a" + " " + PropsToHtml(props) + ">" == open;
    WrapInAttributes("a", " " + PropsToHtml(props), tn.text, open, "</a>");
  }

  /** A bold, italic or code span inside its tag. */
  lemma {:induction false} TaggedSpanRendering(tn: TextNode, tag: string)
    requires tn.textType in {Bold, Italic, Code}
    requires tag == (match tn.textType case Bold => "b" case Italic => "i" case _ => "code")
    ensures ToHtml(TextNodeToHtmlNode(tn).value) == Ok("<" + tag + ">" + tn.text + "</" + tag + ">")
  {
    assert TextNodeToHtmlNode(tn) == Ok(Leaf(Some(tag), Some(tn.text), []));
    LeafRendering(Some(tag), Some(tn.text), []);
  }

  /** An image span from the tokenizer keeps its caption in `text`, not in
      `alt_text`, so it gets `alt=""`; since the leaf's value is `""` and
      not `None`, it is written with a closing tag rather than
      self-closing. */
  lemma {:induction false} ImageSpanRendering(tn: TextNode)
    requires tn.textType == Image && tn.url.Some? && tn.altText.None?
    ensures ToHtml(TextNodeToHtmlNode(tn).value) == Ok("<img src=\"" + tn.url.value + "\" alt=\"\"></img>")
  {
    var u := tn.url.value;
    var props := [("src", u), ("alt", "")];
    assert TextNodeToHtmlNode(tn) == Ok(Leaf(Some("img"), Some(""), props));
    ImageAttributes(u);
    LeafRendering(Some("img"), Some(""), props);
    ImageTag(u, PropsToHtml(props));
  }

  /** The attribute text of an image leaf. */
  lemma {:induction false} ImageAttributes(u: string)
    ensures PropsToHtml([("src", u), ("alt", "")]) == "src=\"" + u + "\" alt=\"\""
  {
    PropsToHtmlAppend([("src", u)], [("alt", "")]);
    PropsToHtmlSingle("src", u);
    PropsToHtmlSingle("alt", "");
    assert [("src", u)] + [("alt", "")] == [("src", u), ("alt", "")];
  }

  /** An image tag with that attribute text and an empty value. */
  lemma {:induction false} ImageTag(u: string, attrs: string)
    requires attrs == "src=\"" + u + "\" alt=\"\""
    ensures "<" + "img" + " " + attrs + ">" + "" + "</" + "img" + ">" == "<img src=\"" + u + "\" alt=\"\"></img>"
  {
  }

  /** A value between an open and a close tag without attributes. */
  lemma {:induction false} WrapIn(tag: string, v: string, open: string, close: string)
    requires open == "<" + tag + ">" && close == "</" + tag + ">"
    ensures "<" + tag + ">" + v + "</" + tag + ">" == open + v + close
  {
  }

  /** A value between an open tag with attributes and a close tag. */
  lemma {:induction false} WrapInAttributes(tag: string, attrs: string, v: string, open: string, close: string)
    requires open == "<" + tag + attrs + ">" && close == "</" + tag + ">"
    ensures "<" + tag + attrs + ">" + v + "</" + tag + ">" == open + v + close
  {
  }

  // ---------------------------------------------------------------------
  // Text without markup.

  /** Text holding no `*`, backtick or `[` passes through the tokenizer as
      one plain span. */
  lemma {:induction false} UnmarkedTextIsOneSpan(text: string)
    requires text != ""
    requires '*' !in text && '`' !in text && '[' !in text
    ensures TextToTextNodes(text) == Ok([Plain(text)])
  {
    var n := Plain(text);
    DelimitedKeepsUnmarked(text, "**", Bold);
    DelimitedKeepsUnmarked(text, "*", Italic);
    DelimitedKeepsUnmarked(text, "`", Code);
    NoLiteralsWithoutBracket(text);
    ApplyOne(Delimited("**", Bold), n);
    ApplyOne(Delimited("*", Italic), n);
    ApplyOne(Delimited("`", Code), n);
    ApplyOne(Images, n);
    ApplyOne(Links, n);
  }

  /** A pass over one node is that node's split. */
  lemma {:induction false} ApplyOne(p: Pass, n: TextNode)
    ensures Apply(p, [n]) == SplitNode(p, n)
  {
    assert [n][..0] == [];
    assert Apply(p, [][..0]) == Ok([]);
    if SplitNode(p, n).Ok? {
      assert [] + SplitNode(p, n).value == SplitNode(p, n).value;
    }
  }

  /** A delimiter whose first character the text lacks leaves the text
      whole. */
  lemma {:induction false} DelimitedKeepsUnmarked(text: string, d: string, t: TextType)
    requires text != "" && d != "" && d[0] !in text
    ensures SplitNodeDelimiter(Plain(text), d, t) == Ok([Plain(text)])
  {
    SplitAbsent(text, d);
    assert [text][..0] == [];
    assert PieceNodes([text], t) == PieceNodes([], t) + PieceNode(0, text, t);
    assert PieceNode(0, text, t) == [Plain(text)];
    assert PieceNodes([text], t) == [Plain(text)];
    assert |Split(text, d)| % 2 == 1;
  }

  /** Without `[` there is no image and no link. */
  lemma {:induction false} NoLiteralsWithoutBracket(text: string)
    requires '[' !in text
    ensures Found(text, true) == [] && Found(text, false) == []
  {
    forall p | 0 <= p < |text| ensures MatchAt(text, p, true).None? && MatchAt(text, p, false).None? {
      assert p + 1 < |text| ==> text[p + 1] != '[';
      assert text[p] != '[';
    }
    NoImagesIff(text);
    NoLinksIff(text);
  }

}

/** The block segmenter and classifier of the same source file:
    `markdown_to_blocks` and `block_to_block_type`. */
module Blocks {
  import opened Wrappers
  import opened PyStr

  // ---------------------------------------------------------------------
  // Segmentation.

  /** `markdown_to_blocks`: split at every `"\n\n"`, strip each piece and
      drop the pieces that are empty after stripping. */
  function MarkdownToBlocks(markdown: string): (r: seq<string>)
    ensures forall i :: 0 <= i < |r| ==> IsBlock(r[i])
  {
    KeptBlocksAreBlocks(Split(markdown, "\n\n"));
    KeptBlocks(Split(markdown, "\n\n"))
  }

  /** The stripped, non-empty pieces, in order. */
  function KeptBlocks(raw: seq<string>): (r: seq<string>)
    ensures |r| <= |raw|
    decreases |raw|
  {
    if raw == [] then [] else KeptPiece(raw[0]) + KeptBlocks(raw[1..])
  }

  /** One piece, stripped, kept when not empty. */
  function KeptPiece(piece: string): seq<string> {
    var b := Strip(piece);
    if b == "" then [] else [b]
  }

  /** A block as segmentation leaves it: non-empty, and its own strip. */
  predicate IsBlock(b: string) {
    b != "" && b[0] !in Whitespace && b[|b| - 1] !in Whitespace
  }

  /** Every kept piece is stripped and non-empty. */
  lemma {:induction false} KeptBlocksAreBlocks(raw: seq<string>)
    ensures forall i :: 0 <= i < |KeptBlocks(raw)| ==> IsBlock(KeptBlocks(raw)[i])
    decreases |raw|
  {
    if raw != [] {
      KeptBlocksAreBlocks(raw[1..]);
      StrippedIsBlock(raw[0]);
      KeptBlocksUnfold(raw);
      BlocksAppend(KeptPiece(raw[0]), KeptBlocks(raw[1..]));
    }
  }

  /** A stripped piece that is not empty is a block. */
  lemma {:induction false} StrippedIsBlock(x: string)
    ensures Strip(x) != "" ==> IsBlock(Strip(x))
  {
  }

  lemma {:induction false} BlocksAppend(a: seq<string>, b: seq<string>)
    requires forall i :: 0 <= i < |a| ==> IsBlock(a[i])
    requires forall i :: 0 <= i < |b| ==> IsBlock(b[i])
    ensures forall i :: 0 <= i < |a + b| ==> IsBlock((a + b)[i])
  {
    forall i | 0 <= i < |a + b| ensures IsBlock((a + b)[i]) {
      if i >= |a| {
        assert (a + b)[i] == b[i - |a|];
      } else {
        assert (a + b)[i] == a[i];
      }
    }
  }

  /** No block is kept exactly when every piece is blank. */
  lemma {:induction false} NoBlocksIff(raw: seq<string>)
    ensures KeptBlocks(raw) == [] <==> forall j :: 0 <= j < |raw| ==> Strip(raw[j]) == ""
    decreases |raw|
  {
    if raw != [] {
      NoBlocksIff(raw[1..]);
      NoBlocksCons(raw);
      AllBlankCons(raw);
    }
  }

  lemma {:induction false} NoBlocksCons(raw: seq<string>)
    requires raw != []
    ensures KeptBlocks(raw) == [] <==> Strip(raw[0]) == "" && KeptBlocks(raw[1..]) == []
  {
    KeptBlocksUnfold(raw);
  }

  lemma {:induction false} AllBlankCons(raw: seq<string>)
    requires raw != []
    ensures (forall j :: 0 <= j < |raw| ==> Strip(raw[j]) == "") <==>
            Strip(raw[0]) == "" && forall j :: 0 <= j < |raw[1..]| ==> Strip(raw[1..][j]) == ""
  {
    assert forall j :: 1 <= j < |raw| ==> raw[j] == raw[1..][j - 1];
  }

  /** Segmentation keeps source order: the blocks of two runs of pieces are
      the blocks of the first run followed by those of the second. */
  lemma {:induction false} KeptBlocksAppend(a: seq<string>, b: seq<string>)
    ensures KeptBlocks(a + b) == KeptBlocks(a) + KeptBlocks(b)
    decreases |a|
  {
    if a != [] {
      KeptBlocksAppend(a[1..], b);
      ConsAppend(a, b);
      KeptBlocksUnfold(a + b);
      KeptBlocksUnfold(a);
      Associative(KeptPiece(a[0]), KeptBlocks(a[1..]), KeptBlocks(b));
    } else {
      assert a + b == b;
    }
  }

  lemma {:induction false} KeptBlocksUnfold(raw: seq<string>)
    requires raw != []
    ensures KeptBlocks(raw) == KeptPiece(raw[0]) + KeptBlocks(raw[1..])
  {
  }

  lemma {:induction false} Associative(x: seq<string>, y: seq<string>, z: seq<string>)
    ensures x + (y + z) == (x + y) + z
  {
  }

  lemma {:induction false} ConsAppend(a: seq<string>, b: seq<string>)
    requires a != []
    ensures a + b != [] && (a + b)[0] == a[0] && (a + b)[1..] == a[1..] + b
  {
  }


  /** The empty document has no blocks. */
  lemma {:induction false} NoBlocksInEmptyDocument()
    ensures MarkdownToBlocks("") == []
  {
    FindFromEmpty("\n\n");
  }

  lemma {:induction false} FindFromEmpty(pat: string)
    requires |pat| > 0
    ensures FindFrom("", pat, 0) == None
  {
  }

  /** A document without a blank line and with some non-blank text is one
      block: the stripped document. */
  lemma {:induction false} SingleBlock(markdown: string)
    requires !Contains(markdown, "\n\n") && Strip(markdown) != ""
    ensures MarkdownToBlocks(markdown) == [Strip(markdown)]
  {
    forall j | 0 <= j ensures !OccursAt(markdown, "\n\n", j) {
      if j <= |markdown| && OccursAt(markdown, "\n\n", j) {
        assert Contains(markdown, "\n\n");
      }
    }
    assert Split(markdown, "\n\n") == [markdown];
    assert [markdown][1..] == [];
  }

  // ---------------------------------------------------------------------
  // Classification.

  /** The six values `block_to_block_type` returns. */
  datatype BlockType = Heading | CodeBlock | Quote | UnorderedList | OrderedList | Paragraph

  /** `block.startswith("#") and block.lstrip("#").startswith(" ")`. */
  predicate IsHeading(block: string) {
    StartsWith(block, "#") && StartsWith(LStripChars(block, "#"), " ")
  }

  /** `block.startswith("```") and block.endswith("```")`. */
  predicate IsCode(block: string) {
    StartsWith(block, "```") && EndsWith(block, "```")
  }

  /** `line.startswith(">")`. */
  predicate IsQuoteLine(line: string) {
    StartsWith(line, ">")
  }

  /** `line.startswith(("*", "-")) and line[1:2] == " "`. */
  predicate IsUnorderedLine(line: string) {
    (StartsWith(line, "*") || StartsWith(line, "-")) && |line| >= 2 && line[1] == ' '
  }

  /** A line of the form `<digits>. <non-empty text>`. */
  predicate IsOrderedLine(line: string) {
    var parts := SplitOnce(line, ". ");
    |parts| == 2 && IsDigits(parts[0]) && parts[1] != ""
  }

  /** The number in front of an ordered line. */
  function ItemNumber(line: string): nat
    requires IsOrderedLine(line)
  {
    DigitsValue(SplitOnce(line, ". ")[0])
  }

  /** `line.split(". ", 1)[0].isdigit() and line.split(". ", 1)[1]` for one
      line: the indexing raises `IndexError` when the part before the
      (missing) `". "` is all digits. */
  function OrderedLineTest(line: string): (r: Result<bool>)
    ensures r == Ok(true) <==> IsOrderedLine(line)
    ensures r.Err? <==> IsDigits(line)
    ensures r.Err? ==> r.error == IndexError(IndexOutOfRange)
  {
    var parts := SplitOnce(line, ". ");
    if !IsDigits(parts[0]) then
      assert IsDigits(line) ==> parts[0] == line by {
        if IsDigits(line) { NoDotInDigits(line); }
      }
      Ok(false)
    else if |parts| < 2 then Err(IndexError(IndexOutOfRange))
    else
      assert !IsDigits(line) by {
        assert Contains(line, ". ");
        if IsDigits(line) { NoDotInDigits(line); }
      }
      Ok(parts[1] != "")
  }

  /** A string of digits holds no `". "`. */
  lemma {:induction false} NoDotInDigits(s: string)
    requires IsDigits(s)
    ensures !Contains(s, ". ")
  {
    forall i | 0 <= i <= |s| ensures !OccursAt(s, ". ", i) {
      if i + 2 <= |s| {
        assert s[i..i + 2][0] == s[i];
      }
    }
  }

  /** `all(...)` over the lines with the test above: it stops at the first
      line that fails the test, or raises on it. */
  function AllOrderedLines(lines: seq<string>): (r: Result<bool>)
    ensures r == Ok(true) <==> forall i :: 0 <= i < |lines| ==> IsOrderedLine(lines[i])
    ensures r.Err? <==> exists i :: 0 <= i < |lines| && IsDigits(lines[i]) &&
                                    forall j :: 0 <= j < i ==> IsOrderedLine(lines[j])
    ensures r.Err? ==> r.error == IndexError(IndexOutOfRange)
    decreases |lines|
  {
    if lines == [] then Ok(true)
    else
      var test := OrderedLineTest(lines[0]);
      if test.Err? then
        DigitsFirst(lines);
        Err(test.error)
      else if !test.value then
        NeitherOrderedNorDigitsFirst(lines);
        Ok(false)
      else
        var tail := lines[1..];
        var r := AllOrderedLines(tail);
        OrderedVerdictStep(lines, tail, r);
        r
  }

  /** A digits-only first line makes the test raise at once. */
  lemma {:induction false} DigitsFirst(lines: seq<string>)
    requires lines != [] && IsDigits(lines[0])
    ensures exists i :: 0 <= i < |lines| && IsDigits(lines[i]) && forall j :: 0 <= j < i ==> IsOrderedLine(lines[j])
  {
  }

  /** A first line that fails the test without raising settles the verdict. */
  lemma {:induction false} NeitherOrderedNorDigitsFirst(lines: seq<string>)
    requires lines != [] && !IsOrderedLine(lines[0]) && !IsDigits(lines[0])
    ensures !forall i :: 0 <= i < |lines| ==> IsOrderedLine(lines[i])
    ensures !exists i :: 0 <= i < |lines| && IsDigits(lines[i]) && forall j :: 0 <= j < i ==> IsOrderedLine(lines[j])
  {
  }

  /** The verdict on the lines after an ordered first line is the verdict
      on all of them. */
  lemma {:induction false} OrderedVerdictStep(lines: seq<string>, tail: seq<string>, r: Result<bool>)
    requires lines != [] && tail == lines[1..] && IsOrderedLine(lines[0]) && !IsDigits(lines[0])
    requires r == Ok(true) <==> forall i :: 0 <= i < |tail| ==> IsOrderedLine(tail[i])
    requires r.Err? <==> exists i :: 0 <= i < |tail| && IsDigits(tail[i]) &&
                                     forall j :: 0 <= j < i ==> IsOrderedLine(tail[j])
    ensures r == Ok(true) <==> forall i :: 0 <= i < |lines| ==> IsOrderedLine(lines[i])
    ensures r.Err? <==> exists i :: 0 <= i < |lines| && IsDigits(lines[i]) &&
                                    forall j :: 0 <= j < i ==> IsOrderedLine(lines[j])
  {
    assert forall i :: 1 <= i < |lines| ==> lines[i] == tail[i - 1];
    DigitsLineInTail(lines);
  }

  /** Past an ordered first line, a digits-only line reached before any
      failing line is one in the remaining lines. */
  lemma {:induction false} DigitsLineInTail(lines: seq<string>)
    requires lines != [] && IsOrderedLine(lines[0]) && !IsDigits(lines[0])
    ensures (exists i :: 0 <= i < |lines| && IsDigits(lines[i]) &&
                         forall j :: 0 <= j < i ==> IsOrderedLine(lines[j]))
            <==> (exists i :: 0 <= i < |lines[1..]| && IsDigits(lines[1..][i]) &&
                              forall j :: 0 <= j < i ==> IsOrderedLine(lines[1..][j]))
  {
    if exists i :: 0 <= i < |lines| && IsDigits(lines[i]) && forall j :: 0 <= j < i ==> IsOrderedLine(lines[j]) {
      var i :| 0 <= i < |lines| && IsDigits(lines[i]) && forall j :: 0 <= j < i ==> IsOrderedLine(lines[j]);
      DigitsLineShiftsDown(lines, i);
    }
    if exists i :: 0 <= i < |lines[1..]| && IsDigits(lines[1..][i]) && forall j :: 0 <= j < i ==> IsOrderedLine(lines[1..][j]) {
      var i :| 0 <= i < |lines[1..]| && IsDigits(lines[1..][i]) && forall j :: 0 <= j < i ==> IsOrderedLine(lines[1..][j]);
      DigitsLineShiftsUp(lines, i);
    }
  }

  lemma {:induction false} DigitsLineShiftsDown(lines: seq<string>, i: nat)
    requires i < |lines| && IsDigits(lines[i]) && !IsDigits(lines[0])
    requires forall j :: 0 <= j < i ==> IsOrderedLine(lines[j])
    ensures 1 <= i && IsDigits(lines[1..][i - 1]) && forall j :: 0 <= j < i - 1 ==> IsOrderedLine(lines[1..][j])
  {
    var tail := lines[1..];
    assert i > 0;
    forall j | 0 <= j < i - 1 ensures IsOrderedLine(tail[j]) {
      assert tail[j] == lines[j + 1];
    }
  }

  lemma {:induction false} DigitsLineShiftsUp(lines: seq<string>, i: nat)
    requires lines != [] && IsOrderedLine(lines[0])
    requires i < |lines[1..]| && IsDigits(lines[1..][i]) && forall j :: 0 <= j < i ==> IsOrderedLine(lines[1..][j])
    ensures IsDigits(lines[i + 1]) && forall j :: 0 <= j < i + 1 ==> IsOrderedLine(lines[j])
  {
    var tail := lines[1..];
    forall j | 0 <= j < i + 1 ensures IsOrderedLine(lines[j]) {
      if j > 0 { assert lines[j] == tail[j - 1]; }
    }
  }

  /** `[int(line.split(". ", 1)[0]) for line in lines]`. */
  function ItemNumbers(lines: seq<string>): (r: seq<nat>)
    requires forall i :: 0 <= i < |lines| ==> IsOrderedLine(lines[i])
    ensures |r| == |lines| && forall i :: 0 <= i < |lines| ==> r[i] == ItemNumber(lines[i])
  {
    seq(|lines|, i requires 0 <= i < |lines| && IsOrderedLine(lines[i]) => ItemNumber(lines[i]))
  }

  /** `list(range(1, n + 1))`. */
  function OneTo(n: nat): (r: seq<nat>)
    ensures |r| == n && forall i :: 0 <= i < n ==> r[i] == i + 1
  {
    seq(n, i requires 0 <= i < n => i + 1)
  }

  /** The ordered-list rule on its own: every line is `<digits>. <text>`
      and the numbers are 1, 2, ..., n in order. */
  predicate NumberedFromOne(lines: seq<string>) {
    forall i :: 0 <= i < |lines| ==> IsOrderedLine(lines[i]) && ItemNumber(lines[i]) == i + 1
  }

  /** `block_to_block_type`: the first rule that holds wins. */
  function BlockToBlockType(block: string): (r: Result<BlockType>)
    ensures r == Ok(Heading) <==> IsHeading(block)
    ensures r == Ok(CodeBlock) <==> !IsHeading(block) && IsCode(block)
    ensures !IsHeading(block) && !IsCode(block) ==> r == LineRules(SplitLines(block))
  {
    if IsHeading(block) then Ok(Heading)
    else if IsCode(block) then Ok(CodeBlock)
    else LineRules(SplitLines(block))
  }

  /** The rules of `block_to_block_type` that look at every line: quote,
      unordered list, ordered list, and paragraph when none holds. */
  function LineRules(lines: seq<string>): (r: Result<BlockType>)
    ensures r != Ok(Heading) && r != Ok(CodeBlock)
    ensures r == Ok(Quote) <==> forall i :: 0 <= i < |lines| ==> IsQuoteLine(lines[i])
    ensures r == Ok(UnorderedList) <==>
              (exists i :: 0 <= i < |lines| && !IsQuoteLine(lines[i]))
              && forall i :: 0 <= i < |lines| ==> IsUnorderedLine(lines[i])
    ensures r.Err? ==> r.error == IndexError(IndexOutOfRange)
  {
    if forall i :: 0 <= i < |lines| ==> IsQuoteLine(lines[i]) then Ok(Quote)
    else if forall i :: 0 <= i < |lines| ==> IsUnorderedLine(lines[i]) then Ok(UnorderedList)
    else OrderedRule(lines)
  }

  /** The last rule of `block_to_block_type`: every line passes the
      ordered-list test and the numbers are 1 to n, or else a paragraph;
      the test itself may raise. */
  function OrderedRule(lines: seq<string>): (r: Result<BlockType>)
    ensures r.Ok? ==> r.value == OrderedList || r.value == Paragraph
    ensures r.Err? <==> AllOrderedLines(lines).Err?
    ensures r.Err? ==> r.error == IndexError(IndexOutOfRange)
    ensures r == Ok(OrderedList) <==> AllOrderedLines(lines) == Ok(true) && ItemNumbers(lines) == OneTo(|lines|)
  {
    var allOrdered :- AllOrderedLines(lines);
    if allOrdered && ItemNumbers(lines) == OneTo(|lines|) then Ok(OrderedList)
    else Ok(Paragraph)
  }

  /** A block of lines that are neither all quote lines nor all unordered
      items is an ordered list exactly when its lines are numbered 1 to n
      in order, and the classification raises exactly when a line made of
      digits only is reached before any line that fails the ordered-list
      test. */
  lemma {:induction false} OrderedListRule(lines: seq<string>)
    requires exists i :: 0 <= i < |lines| && !IsQuoteLine(lines[i])
    requires exists i :: 0 <= i < |lines| && !IsUnorderedLine(lines[i])
    ensures LineRules(lines) == Ok(OrderedList) <==> NumberedFromOne(lines)
    ensures LineRules(lines).Err? <==>
              exists i :: 0 <= i < |lines| && IsDigits(lines[i]) && forall j :: 0 <= j < i ==> IsOrderedLine(lines[j])
    ensures LineRules(lines) == Ok(Paragraph) <==>
              !NumberedFromOne(lines) && forall i :: 0 <= i < |lines| && IsDigits(lines[i]) ==>
                                           exists j :: 0 <= j < i && !IsOrderedLine(lines[j])
  {
    OrderedIffNumbered(lines);
    RaisesIffDigitsLine(lines);
    var r := LineRules(lines);
    assert r.Ok? ==> r.value != Quote && r.value != UnorderedList;
  }

  /** The ordered-list half of the rule above. */
  lemma {:induction false} OrderedIffNumbered(lines: seq<string>)
    requires exists i :: 0 <= i < |lines| && !IsQuoteLine(lines[i])
    requires exists i :: 0 <= i < |lines| && !IsUnorderedLine(lines[i])
    ensures LineRules(lines) == Ok(OrderedList) <==> NumberedFromOne(lines)
  {
    if NumberedFromOne(lines) {
      NumberedIsOrdered(lines);
    }
    if LineRules(lines) == Ok(OrderedList) {
      OrderedIsNumbered(lines);
    }
  }

  lemma {:induction false} NumberedIsOrdered(lines: seq<string>)
    requires exists i :: 0 <= i < |lines| && !IsQuoteLine(lines[i])
    requires exists i :: 0 <= i < |lines| && !IsUnorderedLine(lines[i])
    requires NumberedFromOne(lines)
    ensures LineRules(lines) == Ok(OrderedList)
  {
    NumbersAreOneTo(lines);
    OrderedLinesRule(lines);
  }

  /** Once every line passes the ordered-list test, the numbering alone
      decides between an ordered list and a paragraph. */
  lemma {:induction false} OrderedLinesRule(lines: seq<string>)
    requires exists i :: 0 <= i < |lines| && !IsQuoteLine(lines[i])
    requires exists i :: 0 <= i < |lines| && !IsUnorderedLine(lines[i])
    requires forall i :: 0 <= i < |lines| ==> IsOrderedLine(lines[i])
    ensures ItemNumbers(lines) == OneTo(|lines|) ==> LineRules(lines) == Ok(OrderedList)
    ensures ItemNumbers(lines) != OneTo(|lines|) ==> LineRules(lines) == Ok(Paragraph)
  {
    LineRulesReachOrdered(lines);
    assert AllOrderedLines(lines) == Ok(true);
  }

  /** When neither the quote rule nor the unordered-list rule applies, the
      ordered-list rule decides. */
  lemma {:induction false} LineRulesReachOrdered(lines: seq<string>)
    requires exists i :: 0 <= i < |lines| && !IsQuoteLine(lines[i])
    requires exists i :: 0 <= i < |lines| && !IsUnorderedLine(lines[i])
    ensures LineRules(lines) == OrderedRule(lines)
  {
  }

  lemma {:induction false} NumbersAreOneTo(lines: seq<string>)
    requires NumberedFromOne(lines)
    ensures forall i :: 0 <= i < |lines| ==> IsOrderedLine(lines[i])
    ensures ItemNumbers(lines) == OneTo(|lines|)
  {
    var numbers := ItemNumbers(lines);
    var expected := OneTo(|lines|);
    assert forall i :: 0 <= i < |lines| ==> numbers[i] == expected[i];
  }

  lemma {:induction false} OrderedIsNumbered(lines: seq<string>)
    requires LineRules(lines) == Ok(OrderedList)
    ensures NumberedFromOne(lines)
  {
    assert AllOrderedLines(lines) == Ok(true);
    assert ItemNumbers(lines) == OneTo(|lines|);
    forall i | 0 <= i < |lines| ensures IsOrderedLine(lines[i]) && ItemNumber(lines[i]) == i + 1 {
      assert ItemNumbers(lines)[i] == OneTo(|lines|)[i];
    }
  }

  /** The raising half of the rule above. */
  lemma {:induction false} RaisesIffDigitsLine(lines: seq<string>)
    requires exists i :: 0 <= i < |lines| && !IsQuoteLine(lines[i])
    requires exists i :: 0 <= i < |lines| && !IsUnorderedLine(lines[i])
    ensures LineRules(lines).Err? <==>
              exists i :: 0 <= i < |lines| && IsDigits(lines[i]) && forall j :: 0 <= j < i ==> IsOrderedLine(lines[j])
  {
    assert LineRules(lines).Err? <==> AllOrderedLines(lines).Err?;
  }

  // ---------------------------------------------------------------------
  // Examples.

  /** A single line starting with none of `#`, backtick, `>`, `*`, `-`
      or a digit is a paragraph. */
  lemma {:induction false} ProseLineIsParagraph(line: string)
    requires line != "" && '\n' !in line
    requires line[0] !in "#`>*-" && !IsDigit(line[0])
    ensures BlockToBlockType(line) == Ok(Paragraph)
  {
    SplitLinesSingle(line);
    NotStartsWith(line, "#");
    NotStartsWith(line, "```");
    NotStartsWith(line, ">");
    NotStartsWith(line, "*");
    NotStartsWith(line, "-");
    assert !IsDigits(line);
    assert !IsOrderedLine(line) by {
      var parts := SplitOnce(line, ". ");
      if |parts| == 2 && parts[0] != "" {
        assert (parts[0] + ". " + parts[1])[0] == parts[0][0];
      }
    }
    assert !IsQuoteLine([line][0]) && !IsUnorderedLine([line][0]);
    OrderedListRule([line]);
  }

  /** A line made of digits alone, such as `"12"`, makes the classifier
      raise: it has no `". "`, so `split(". ", 1)` gives one part and
      taking the second raises `IndexError`. */
  lemma {:induction false} DigitsOnlyLineRaises()
    ensures BlockToBlockType("12") == Err(IndexError(IndexOutOfRange))
  {
    var block := "12";
    SplitLinesSingle(block);
    assert IsDigits(block);
    NotStartsWith(block, "#");
    NotStartsWith(block, "```");
    NotStartsWith(block, ">");
    NotStartsWith(block, "*");
    NotStartsWith(block, "-");
    assert OrderedLineTest(block).Err?;
  }

  /** Numbers that skip a value make a paragraph: `"1. a\n3. b"`. */
  lemma {:induction false} SkippedNumberIsParagraph()
    ensures BlockToBlockType("1. a\n3. b") == Ok(Paragraph)
  {
    var block := "1. a\n3. b";
    var lines := ["1. a", "3. b"];
    assert SplitLines(block) == lines by {
      assert Join(lines, "\n") == block;
      SplitLinesOfJoin(lines);
    }
    assert !IsHeading(block) && !IsCode(block) by {
      NotStartsWith(block, "#");
      NotStartsWith(block, "```");
    }
    SkippedNumberLines(lines);
  }

  lemma {:induction false} SkippedNumberLines(lines: seq<string>)
    requires lines == ["1. a", "3. b"]
    ensures LineRules(lines) == Ok(Paragraph)
  {
    SkippedLineFacts(lines);
    Misnumbered(lines, 1);
  }

  lemma {:induction false} SkippedLineFacts(lines: seq<string>)
    requires lines == ["1. a", "3. b"]
    ensures exists i :: 0 <= i < |lines| && !IsQuoteLine(lines[i])
    ensures exists i :: 0 <= i < |lines| && !IsUnorderedLine(lines[i])
    ensures forall i :: 0 <= i < |lines| ==> IsOrderedLine(lines[i])
    ensures ItemNumber(lines[1]) != 2
  {
    NeitherQuoteNorBullet(lines[0]);
    OrderedLineParts("1", "a");
    OrderedLineParts("3", "b");
    SkippedSpelling();
    BothOrdered(lines);
  }

  lemma SkippedSpelling()
    ensures "1" + ". " + "a" == "1. a" && "3" + ". " + "b" == "3. b"
  {
  }

  lemma {:induction false} BothOrdered(lines: seq<string>)
    requires |lines| == 2 && IsOrderedLine(lines[0]) && IsOrderedLine(lines[1])
    ensures forall i :: 0 <= i < |lines| ==> IsOrderedLine(lines[i])
  {
    forall i | 0 <= i < |lines| ensures IsOrderedLine(lines[i]) {
      if i == 0 {
        assert lines[i] == lines[0];
      } else {
        assert lines[i] == lines[1];
      }
    }
  }

  /** A line starting with a digit is neither a quote line nor a bullet. */
  lemma {:induction false} NeitherQuoteNorBullet(line: string)
    requires line != [] && IsDigit(line[0])
    ensures !IsQuoteLine(line) && !IsUnorderedLine(line)
  {
    NotStartsWith(line, ">");
    NotStartsWith(line, "*");
    NotStartsWith(line, "-");
  }

  /** Ordered lines whose numbers are not 1 to n make a paragraph. */
  lemma {:induction false} Misnumbered(lines: seq<string>, k: nat)
    requires exists i :: 0 <= i < |lines| && !IsQuoteLine(lines[i])
    requires exists i :: 0 <= i < |lines| && !IsUnorderedLine(lines[i])
    requires forall i :: 0 <= i < |lines| ==> IsOrderedLine(lines[i])
    requires k < |lines| && ItemNumber(lines[k]) != k + 1
    ensures LineRules(lines) == Ok(Paragraph)
  {
    OrderedLinesRule(lines);
    assert ItemNumbers(lines)[k] != OneTo(|lines|)[k];
  }

  /** `<digits>. <text>`, with `text` free of `". "`, splits at its `". "`. */
  lemma {:induction false} OrderedLineParts(digits: string, text: string)
    requires IsDigits(digits) && text != ""
    ensures SplitOnce(digits + ". " + text, ". ") == [digits, text]
    ensures IsOrderedLine(digits + ". " + text) && ItemNumber(digits + ". " + text) == DigitsValue(digits)
  {
    var line := digits + ". " + text;
    NoDotInDigits(digits);
    assert OccursAt(line, ". ", |digits|);
    forall j | 0 <= j < |digits| ensures !OccursAt(line, ". ", j) {
      assert line[j] == digits[j];
    }
    assert FindFrom(line, ". ", 0) == Some(|digits|);
    assert line[..|digits|] == digits && line[|digits| + 2..] == text;
  }
}
