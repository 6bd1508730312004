/** The HTML render tree: leaf nodes (raw text or a single tag around a
    value) and parent nodes (a tag around a list of children), their
    construction checks and their serialisation. Serialisation escapes
    nothing: values are emitted verbatim. */
module HtmlNode {
  import opened Wrappers
  import opened PyStr

  /** An attribute dictionary, in insertion order. */
  type Props = seq<(string, string)>

  /** `LeafNode` and `ParentNode`. Fields are set once, by the
      constructors below, and never updated. */
  datatype Node =
    | Leaf(tag: Option<string>, value: Option<string>, props: Props)
    | Parent(tag: Option<string>, children: seq<Node>, props: Props)

  /** The tags a leaf may carry without a value. */
  predicate SelfClosing(tag: Option<string>) {
    tag == Some("hr") || tag == Some("br") || tag == Some("img")
  }

  /** The invariant the two constructors establish, for a whole tree. */
  predicate WellFormed(n: Node) {
    match n
    case Leaf(tag, value, _) => value.Some? || SelfClosing(tag)
    case Parent(tag, children, _) =>
      tag.Some? && children != [] &&
      forall i :: 0 <= i < |children| ==> WellFormed(children[i])
  }

  // ---------------------------------------------------------------------
  // Construction.

  /** `LeafNode(tag, value, props)`. */
  function NewLeaf(tag: Option<string>, value: Option<string>, props: Props): (r: Result<Node>)
    ensures r.Err? <==> value.None? && !SelfClosing(tag)
    ensures r.Err? ==> r.error == ValueError("LeafNode must have a value.")
    ensures r.Ok? ==> r.value == Leaf(tag, value, props) && WellFormed(r.value)
  {
    if value.None? && !SelfClosing(tag) then Err(ValueError("LeafNode must have a value."))
    else Ok(Leaf(tag, value, props))
  }

  /** `ParentNode(tag, children, props)`: the tag is checked first. */
  function NewParent(tag: Option<string>, children: Option<seq<Node>>, props: Props): (r: Result<Node>)
    ensures tag.None? ==> r == Err(ValueError("ParentNode must have a tag."))
    ensures tag.Some? && (children.None? || children.value == []) ==>
              r == Err(ValueError("ParentNode must have children."))
    ensures r.Ok? <==> tag.Some? && children.Some? && children.value != []
    ensures r.Ok? ==> r.value == Parent(tag, children.value, props)
    ensures r.Ok? ==> (WellFormed(r.value) <==>
                       forall i :: 0 <= i < |children.value| ==> WellFormed(children.value[i]))
  {
    if tag.None? then Err(ValueError("ParentNode must have a tag."))
    else if children.None? || children.value == [] then Err(ValueError("ParentNode must have children."))
    else Ok(Parent(tag, children.value, props))
  }

  // ---------------------------------------------------------------------
  // Serialisation.

  function Attribute(key: string, value: string): string {
    key + "=\"" + value + "\""
  }

  function Attributes(props: Props): (r: seq<string>)
    ensures |r| == |props| && forall i :: 0 <= i < |props| ==> r[i] == Attribute(props[i].0, props[i].1)
  {
    seq(|props|, i requires 0 <= i < |props| => Attribute(props[i].0, props[i].1))
  }

  /** `props_to_html`: `key="value"` pairs joined by single spaces. */
  function PropsToHtml(props: Props): (r: string)
    ensures r == "" <==> props == []
    ensures props != [] ==> StartsWith(r, Attribute(props[0].0, props[0].1))
  {
    if props == [] then ""
    else
      JoinStartsWithFirst(Attributes(props), " ");
      Join(Attributes(props), " ")
  }

  /** The attribute text of a tag: a space, then the attributes, when there
      are any. */
  function Spaced(attributes: string): string {
    if attributes == "" then "" else " " + attributes
  }

  function OpenTag(tag: string, props: Props): string {
    "<" + tag + Spaced(PropsToHtml(props)) + ">"
  }

  /** `to_html` for both node kinds. */
  function ToHtml(n: Node): Result<string> {
    match n
    case Leaf(tag, value, props) =>
      if value.None? && SelfClosing(tag) then
        Ok("<" + tag.value + Spaced(PropsToHtml(props)) + " />")
      else if value.None? then
        Err(ValueError("LeafNode must have a value"))
      else if tag.None? then
        Ok(value.value)
      else
        Ok(OpenTag(tag.value, props) + value.value + "</" + tag.value + ">")
    case Parent(tag, children, props) =>
      if tag.None? then
        Err(ValueError("ParentNode must have a tag."))
      else if children == [] then
        Err(ValueError("ParentNode must have children."))
      else
        var inner :- ChildrenHtml(children);
        Ok(OpenTag(tag.value, props) + inner + "</" + tag.value + ">")
  }

  /** `"".join(child.to_html() for child in children)`: left to right, the
      first failing child aborts. */
  function ChildrenHtml(children: seq<Node>): Result<string> {
    if children == [] then Ok("")
    else
      var head :- ToHtml(children[0]);
      var tail :- ChildrenHtml(children[1..]);
      Ok(head + tail)
  }

  /** The serialisations of nodes that all serialise. */
  function Rendered(children: seq<Node>): (r: seq<string>)
    requires forall i :: 0 <= i < |children| ==> ToHtml(children[i]).Ok?
    ensures |r| == |children| && forall i :: 0 <= i < |children| ==> ToHtml(children[i]) == Ok(r[i])
  {
    seq(|children|, i requires 0 <= i < |children| && ToHtml(children[i]).Ok? => ToHtml(children[i]).value)
  }

  // ---------------------------------------------------------------------
  // Lemmas.

  lemma JoinStartsWithFirst(parts: seq<string>, sep: string)
    requires |parts| >= 1
    ensures StartsWith(Join(parts, sep), parts[0])
  {
  }

  /** Joining two non-empty lists is joining each and the separator between. */
  lemma {:induction false} JoinAppend(a: seq<string>, b: seq<string>, sep: string)
    requires |a| >= 1 && |b| >= 1
    ensures Join(a + b, sep) == Join(a, sep) + sep + Join(b, sep)
    decreases |a|
  {
    if |a| > 1 {
      assert (a + b)[1..] == a[1..] + b;
      JoinAppend(a[1..], b, sep);
    } else {
      assert (a + b)[1..] == b;
    }
  }

  /** Attribute text of a single attribute. */
  lemma PropsToHtmlSingle(key: string, value: string)
    ensures PropsToHtml([(key, value)]) == key + "=\"" + value + "\""
  {
  }

  /** Attributes are emitted in insertion order, separated by one space. */
  lemma PropsToHtmlAppend(p: Props, q: Props)
    requires p != [] && q != []
    ensures PropsToHtml(p + q) == PropsToHtml(p) + " " + PropsToHtml(q)
  {
    assert Attributes(p + q) == Attributes(p) + Attributes(q);
    JoinAppend(Attributes(p), Attributes(q), " ");
  }

  /** The four outcomes of serialising a leaf. */
  lemma LeafRendering(tag: Option<string>, value: Option<string>, props: Props)
    ensures value.Some? && tag.None? ==> ToHtml(Leaf(tag, value, props)) == Ok(value.value)
    ensures value.Some? && tag.Some? && props == [] ==>
              ToHtml(Leaf(tag, value, props)) == Ok("<" + tag.value + ">" + value.value + "</" + tag.value + ">")
    ensures value.Some? && tag.Some? && props != [] ==>
              ToHtml(Leaf(tag, value, props))
              == Ok("<" + tag.value + " " + PropsToHtml(props) + ">" + value.value + "</" + tag.value + ">")
    ensures value.None? && SelfClosing(tag) && props == [] ==>
              ToHtml(Leaf(tag, value, props)) == Ok("<" + tag.value + " />")
    ensures value.None? && SelfClosing(tag) && props != [] ==>
              ToHtml(Leaf(tag, value, props)) == Ok("<" + tag.value + " " + PropsToHtml(props) + " />")
    ensures value.None? && !SelfClosing(tag) ==>
              ToHtml(Leaf(tag, value, props)) == Err(ValueError("LeafNode must have a value"))
  {
    var a := Spaced(PropsToHtml(props));
    if tag.Some? {
      var t := tag.value;
      if props == [] {
        assert "<" + t + a == "<" + t;
      } else {
        assert "<" + t + a == "<" + t + " " + PropsToHtml(props);
      }
    }
  }

  /** A tree serialises exactly when it satisfies the constructors' checks. */
  lemma {:induction false} RendersIffWellFormed(n: Node)
    ensures ToHtml(n).Ok? <==> WellFormed(n)
    decreases n
  {
    match n
    case Leaf(_, _, _) =>
    case Parent(tag, children, props) =>
      ChildrenRenderIffWellFormed(children);
  }

  lemma {:induction false} ChildrenRenderIffWellFormed(children: seq<Node>)
    ensures ChildrenHtml(children).Ok? <==> forall i :: 0 <= i < |children| ==> WellFormed(children[i])
    decreases children
  {
    if children != [] {
      RendersIffWellFormed(children[0]);
      ChildrenRenderIffWellFormed(children[1..]);
      assert forall i :: 1 <= i < |children| ==> children[i] == children[1..][i - 1];
    }
  }

  /** The children's serialisation is their serialisations concatenated in
      order. */
  lemma {:induction false} ChildrenHtmlIsJoin(children: seq<Node>)
    requires forall i :: 0 <= i < |children| ==> ToHtml(children[i]).Ok?
    ensures ChildrenHtml(children) == Ok(Join(Rendered(children), ""))
    decreases children
  {
    if children != [] {
      var tail := children[1..];
      assert forall i :: 0 <= i < |tail| ==> tail[i] == children[i + 1];
      ChildrenHtmlIsJoin(tail);
      var h := ToHtml(children[0]).value;
      assert Rendered(children) == [h] + Rendered(tail);
      ConcatIsJoin(h, Rendered(tail));
    }
  }

  /** Joining with the empty separator is concatenation. */
  lemma ConcatIsJoin(h: string, rest: seq<string>)
    ensures Join([h] + rest, "") == h + Join(rest, "")
  {
    if rest == [] {
      assert h + "" == h;
    } else {
      assert ([h] + rest)[1..] == rest;
      assert h + "" + Join(rest, "") == h + Join(rest, "");
    }
  }

  /** A parent serialises as its open tag, the concatenated serialisations of
      its children in order, and its close tag. */
  lemma ParentRendering(tag: string, children: seq<Node>, props: Props)
    requires children != []
    requires forall i :: 0 <= i < |children| ==> WellFormed(children[i])
    ensures forall i :: 0 <= i < |children| ==> ToHtml(children[i]).Ok?
    ensures ToHtml(Parent(Some(tag), children, props))
            == Ok(OpenTag(tag, props) + Join(Rendered(children), "") + "</" + tag + ">")
  {
    forall i | 0 <= i < |children| ensures ToHtml(children[i]).Ok? {
      RendersIffWellFormed(children[i]);
    }
    ChildrenHtmlIsJoin(children);
  }
}
