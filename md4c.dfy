/** The vocabulary the md4c parser hands to its callbacks, and the document
    tree (`MarkdownNode`: a type tag, a payload and an ordered list of
    children) that the renderer walks. */
module Md4c {
  import opened Bytes

  /** `MD_BLOCKTYPE`, in md4c's declaration order (`MD_BLOCK_DOC` is 0). */
  datatype BlockType =
    | DocBlock | QuoteBlock | UnorderedList | OrderedList | ListItem | HorizontalRule
    | HeadingBlock | CodeBlock | HtmlBlock | ParagraphBlock
    | TableBlock | TableHead | TableBody | TableRow | TableHeader | TableCell

  /** `MD_SPANTYPE`, in md4c's declaration order (`MD_SPAN_EM` is 0). */
  datatype SpanType =
    | Emphasis | Strong | Link | ImageSpan | InlineCode | Strikethrough
    | LatexMath | LatexMathDisplay | WikiLink | Underline

  /** `MD_TEXTTYPE`, in md4c's declaration order (`MD_TEXT_NORMAL` is 0). */
  datatype TextType =
    | NormalText | NullChar | HardBreak | SoftBreak | Entity | CodeText | HtmlText | LatexMathText

  /** The parts of md4c's detail structures the renderer reads. */
  datatype BlockDetail =
    | NoBlockDetail
    | HeadingDetail(level: nat)          // MD_BLOCK_H_DETAIL.level
    | OrderedListDetail(start: nat)      // MD_BLOCK_OL_DETAIL.start

  datatype SpanDetail =
    | NoSpanDetail
    | ImageDetail(src: seq<Byte>)        // MD_SPAN_IMG_DETAIL.src, `size` bytes

  /** One node of the document tree; `children` lists `first_child` and its
      `next_sibling` chain in order. A text node's byte length is `size`. */
  datatype MarkdownNode =
    | TextNode(textType: TextType, text: seq<Byte>)
    | SpanNode(spanType: SpanType, spanDetail: SpanDetail, children: seq<MarkdownNode>)
    | BlockNode(blockType: BlockType, blockDetail: BlockDetail, children: seq<MarkdownNode>)

  /** The first child, when it is a text node: what a heading or a styled
      span reads through `first_child->value.text`. */
  predicate FirstChildIsText(children: seq<MarkdownNode>)
  {
    |children| > 0 && children[0].TextNode?
  }

  predicate AllText(children: seq<MarkdownNode>)
  {
    forall k :: 0 <= k < |children| ==> children[k].TextNode?
  }

  /** What the renderer dereferences without checking: a heading's detail
      and first text child, a code block's text children, an ordered list's
      detail and an image's detail. Only nodes the walk actually descends
      into are constrained. */
  predicate Renderable(n: MarkdownNode)
    decreases n
  {
    match n
    case TextNode(_, _) => true
    case SpanNode(t, d, _) => t == ImageSpan ==> d.ImageDetail?
    case BlockNode(t, d, cs) =>
      match t
      case HeadingBlock => d.HeadingDetail? && FirstChildIsText(cs)
      case CodeBlock => AllText(cs)
      case OrderedList => d.OrderedListDetail? && AllRenderable(cs)
      case ParagraphBlock => AllRenderable(cs)
      case QuoteBlock => AllRenderable(cs)
      case UnorderedList => AllRenderable(cs)
      case ListItem => AllRenderable(cs)
      case _ => true
  }

  predicate AllRenderable(cs: seq<MarkdownNode>)
    decreases cs
  {
    forall k :: 0 <= k < |cs| ==> Renderable(cs[k])
  }
}
