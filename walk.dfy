/** The render walk of one frame (`render_markdown_tree` down to
    `render_text_node`) as functions on the renderer's state: the line
    packer, the current list mode, the ordered-list counter, the image
    cache and whether the process has exited. */
module Walk {
  import opened Bytes
  import opened Utf8
  import opened Md4c
  import opened Styles
  import opened Layout
  import opened LinePacker
  import opened Images

  /** `ListMode` */
  datatype ListMode = Unordered | Ordered

  /** The render globals a walk reads and writes. `halted` records that
      `find_or_load_image` called `exit(1)`; nothing runs after that. */
  datatype Frame = Frame(packer: Packer, mode: ListMode, index: nat, images: seq<ImageInfo>, halted: bool)

  /** What stays fixed during a walk: the character budget, the files an
      image path can name, and whether `strdup` succeeds. */
  datatype Env = Env(budget: int, files: Files, strdupOk: bool)

  ghost predicate Ready(f: Frame, env: Env)
  {
    env.budget >= 1 && LineOk(f.packer, env.budget) && |f.images| <= MAX_IMAGES && DistinctPaths(f.images)
  }

  /** U+2023, the bullet of unordered items, in UTF-8. */
  const BULLET: seq<Byte> := [0xE2, 0x80, 0xA3]

  /** U+1F5BC and " Image not loaded", the placeholder of a missing image. */
  const PLACEHOLDER: seq<Byte> :=
    [0xF0, 0x9F, 0x96, 0xBC, 0x20, 0x49, 0x6D, 0x61, 0x67, 0x65, 0x20, 0x6E, 0x6F, 0x74,
     0x20, 0x6C, 0x6F, 0x61, 0x64, 0x65, 0x64]

  lemma GlyphsAreUtf8()
    ensures BULLET == Encode(0x2023)
    ensures PLACEHOLDER[..4] == Encode(0x1F5BC)
    ensures forall k :: 4 <= k < |PLACEHOLDER| ==> PLACEHOLDER[k] < 0x80
  {
  }

  function Emit(f: Frame, ds: seq<Decl>): (r: Frame)
    ensures r.packer.out == f.packer.out + ds
    ensures r.packer.pending == f.packer.pending && r.packer.chars == f.packer.chars
    ensures r.packer.temps == f.packer.temps
    ensures r.mode == f.mode && r.index == f.index && r.images == f.images && r.halted == f.halted
  {
    f.(packer := f.packer.(out := f.packer.out + ds))
  }

  function PushText(f: Frame, src: seq<Byte>, style: Style, env: Env): (r: Frame)
    requires Ready(f, env)
    ensures Ready(r, env)
    ensures r.packer == Push(f.packer, src, style, env.budget)
    ensures r.mode == f.mode && r.index == f.index && r.images == f.images && r.halted == f.halted
  {
    f.(packer := Push(f.packer, src, style, env.budget))
  }

  function FlushLine(f: Frame): (r: Frame)
    ensures r.packer == Flush(f.packer)
    ensures r.mode == f.mode && r.index == f.index && r.images == f.images && r.halted == f.halted
  {
    f.(packer := Flush(f.packer))
  }

  function InitLine(f: Frame): (r: Frame)
    ensures r.packer == LinePacker.Init(f.packer)
    ensures r.mode == f.mode && r.index == f.index && r.images == f.images && r.halted == f.halted
  {
    f.(packer := LinePacker.Init(f.packer))
  }

  /** `render_node`: blocks, images, and then text and the other spans. */
  function RenderNode(f: Frame, n: MarkdownNode, env: Env): (r: Frame)
    requires Ready(f, env) && !f.halted && Renderable(n)
    ensures Ready(r, env)
    decreases n, 3, 0
  {
    match n
    case BlockNode(_, _, _) => RenderBlock(f, n, env)
    case SpanNode(t, d, _) => if t == ImageSpan then RenderImage(f, d.src, env) else RenderInline(f, n, env)
    case TextNode(_, _) => RenderInline(f, n, env)
  }

  /** `render_text_node`: a soft break first pushes one regular space; a
      text node pushes its bytes in the regular role; an emphasis, strong
      or code span pushes its first child's text in its role when that
      child is text; every other span pushes nothing. */
  function RenderInline(f: Frame, n: MarkdownNode, env: Env): (r: Frame)
    requires Ready(f, env) && !f.halted
    ensures Ready(r, env) && !r.halted
    ensures r.mode == f.mode && r.index == f.index && r.images == f.images
  {
    match n
    case TextNode(t, text) =>
      var f1 := if t == SoftBreak then PushText(f, [SPACE], BodyRegular, env) else f;
      PushText(f1, text, BodyRegular, env)
    case SpanNode(t, _, cs) =>
      (match SpanStyle(t)
       case None => f
       case Some(style) => if FirstChildIsText(cs) then PushText(f, cs[0].text, style, env) else f)
    case BlockNode(_, _, _) => f
  }

  /** `render_image`: look the source path up in the cache, loading it the
      first time; show the picture when it loaded and the placeholder in
      bold otherwise. A fatal lookup ends the process. */
  function RenderImage(f: Frame, src: seq<Byte>, env: Env): (r: Frame)
    requires Ready(f, env) && !f.halted
    ensures Ready(r, env)
    ensures r.mode == f.mode && r.index == f.index
  {
    var res := FindOrLoad(f.images, src, |src|, env.files, env.strdupOk);
    KeepsPathsDistinct(f.images, src, |src|, env.files, env.strdupOk);
    if !res.0.Found? then f.(halted := true)
    else
      var g := f.(images := res.1);
      if res.1[res.0.index].loaded then Emit(g, [Open(ImageFrame), Picture(res.0.index), Close])
      else Emit(g, [Open(PlaceholderBox), Text(TextElement(PLACEHOLDER, BodyBold)), Close])
  }

  /** `render_block`: dispatch on the block type and restore the list mode
      afterwards. Lists flush the pending line first and set the mode for
      their items. */
  function RenderBlock(f: Frame, n: MarkdownNode, env: Env): (r: Frame)
    requires Ready(f, env) && !f.halted && n.BlockNode? && Renderable(n)
    ensures Ready(r, env)
    decreases n, 2, 0
  {
    var r := RenderBlockBody(f, n, env);
    if r.halted then r else r.(mode := f.mode)
  }

  /** The switch of `render_block`. */
  function RenderBlockBody(f: Frame, n: MarkdownNode, env: Env): (r: Frame)
    requires Ready(f, env) && !f.halted && n.BlockNode? && Renderable(n)
    ensures Ready(r, env)
    decreases n, 1, 1
  {
    match n.blockType
      case ParagraphBlock => RenderParagraph(f, n, env)
      case HeadingBlock => RenderHeading(f, n)
      case HorizontalRule => Emit(f, [Open(RuleBox), Close])
      case CodeBlock => Emit(f, [Open(CodeBox)] + CodeLines(n.children) + [Close])
      case QuoteBlock => RenderQuote(f, n, env)
      case UnorderedList => RenderUnorderedList(FlushLine(f).(mode := Unordered), n, env)
      case OrderedList => RenderOrderedList(FlushLine(f.(mode := Ordered)), n, env)
      case ListItem => RenderListItem(f, n, env)
      case _ => f
  }

  /** `render_node` on a block: the switch, then the list mode restored. */
  lemma BlockSteps(f: Frame, n: MarkdownNode, env: Env)
    requires Ready(f, env) && !f.halted && n.BlockNode? && Renderable(n)
    ensures var body := RenderBlockBody(f, n, env);
      RenderNode(f, n, env) == RenderBlock(f, n, env) == if body.halted then body else body.(mode := f.mode)
  {
  }

  /** The children of `parent` from the `i`-th on, in order, stopping at
      an exit. */
  function RenderChildren(f: Frame, parent: MarkdownNode, i: nat, env: Env): (r: Frame)
    requires Ready(f, env) && !f.halted && parent.BlockNode? && AllRenderable(parent.children)
    requires i <= |parent.children|
    ensures Ready(r, env)
    decreases parent, 0, |parent.children| - i
  {
    if i == |parent.children| then f
    else
      var f1 := RenderNode(f, parent.children[i], env);
      if f1.halted then f1 else RenderChildren(f1, parent, i + 1, env)
  }

  /** `render_paragraph`: a box holding the lines of the paragraph's inline
      content, which starts on a fresh line and is flushed at the end. */
  function RenderParagraph(f: Frame, n: MarkdownNode, env: Env): (r: Frame)
    requires Ready(f, env) && !f.halted && n.BlockNode? && AllRenderable(n.children)
    ensures Ready(r, env)
    decreases n, 1, 0
  {
    var f1 := RenderChildren(InitLine(Emit(f, [Open(ParagraphBox)])), n, 0, env);
    if f1.halted then f1 else Emit(FlushLine(f1), [Close])
  }

  /** `render_heading`: the first child's text as one element in the role
      of the heading level; the line packer is not involved. */
  function RenderHeading(f: Frame, n: MarkdownNode): (r: Frame)
    requires n.BlockNode? && n.blockDetail.HeadingDetail? && FirstChildIsText(n.children)
  {
    var text := n.children[0].text;
    Emit(f, [Open(HeadingBox), Text(TextElement(text, HeadingStyle(n.blockDetail.level))), Close])
  }

  /** `render_code_block`: one regular text per child, verbatim. */
  function CodeLines(cs: seq<MarkdownNode>): (ds: seq<Decl>)
    requires AllText(cs)
    ensures |ds| == |cs|
    ensures forall k :: 0 <= k < |cs| ==> ds[k] == Text(TextElement(cs[k].text, BodyRegular))
  {
    seq(|cs|, k requires 0 <= k < |cs| => Text(TextElement(cs[k].text, BodyRegular)))
  }

  function RenderQuote(f: Frame, n: MarkdownNode, env: Env): (r: Frame)
    requires Ready(f, env) && !f.halted && n.BlockNode? && AllRenderable(n.children)
    ensures Ready(r, env)
    decreases n, 1, 0
  {
    var f1 := RenderChildren(Emit(f, [Open(QuoteBox)]), n, 0, env);
    if f1.halted then f1 else Emit(f1, [Close])
  }

  /** `render_ordered_list`: number the items from the list's start and
      give the outer counter back afterwards. */
  function RenderOrderedList(f: Frame, n: MarkdownNode, env: Env): (r: Frame)
    requires Ready(f, env) && !f.halted && n.BlockNode? && n.blockDetail.OrderedListDetail?
    requires AllRenderable(n.children)
    ensures Ready(r, env)
    decreases n, 1, 0
  {
    if n.children == [] then f
    else
      var f1 := RenderChildren(Emit(f.(index := n.blockDetail.start), [Open(OrderedListBox)]), n, 0, env);
      if f1.halted then f1 else Emit(f1, [Close]).(index := f.index)
  }

  function RenderUnorderedList(f: Frame, n: MarkdownNode, env: Env): (r: Frame)
    requires Ready(f, env) && !f.halted && n.BlockNode? && AllRenderable(n.children)
    ensures Ready(r, env)
    decreases n, 1, 0
  {
    if n.children == [] then f
    else
      var f1 := RenderChildren(Emit(f, [Open(UnorderedListBox)]), n, 0, env);
      if f1.halted then f1 else Emit(f1, [Close])
  }

  /** `render_list_item`: a fresh line, the marker (the counter, which then
      moves on, for an ordered list; the bullet otherwise), the item's
      content and a final flush. */
  function RenderListItem(f: Frame, n: MarkdownNode, env: Env): (r: Frame)
    requires Ready(f, env) && !f.halted && n.BlockNode? && AllRenderable(n.children)
    ensures Ready(r, env)
    decreases n, 1, 0
  {
    if n.children == [] then f
    else
      var f3 := RenderChildren(OpenItem(f), n, 0, env);
      if f3.halted then f3 else Emit(FlushLine(f3), [Close, Close])
  }

  /** The start of a list item: the pending line is discarded (nothing is
      emitted for it), then the item's box, its marker and the box of its
      content are opened. */
  function OpenItem(f: Frame): (r: Frame)
    ensures r.packer.out == f.packer.out +
      [Open(ListItemBox),
       if f.mode == Ordered then Marker(Decimal(f.index)) else Text(TextElement(BULLET, BodyBold)),
       Open(ItemContentBox)]
    ensures r.packer.pending == [] && r.packer.chars == 0 && r.packer.temps == f.packer.temps
    ensures r.mode == f.mode && r.images == f.images && r.halted == f.halted
    ensures r.index == if f.mode == Ordered then f.index + 1 else f.index
  {
    Emit(ItemMarker(Emit(InitLine(f), [Open(ListItemBox)])), [Open(ItemContentBox)])
  }

  /** The marker of a list item: the counter, which then moves on, in an
      ordered list; the bullet in bold otherwise. */
  function ItemMarker(f: Frame): (r: Frame)
    ensures r.packer.out == f.packer.out +
      [if f.mode == Ordered then Marker(Decimal(f.index)) else Text(TextElement(BULLET, BodyBold))]
    ensures r.packer.pending == f.packer.pending && r.packer.chars == f.packer.chars
    ensures r.packer.temps == f.packer.temps
    ensures r.mode == f.mode && r.images == f.images && r.halted == f.halted
    ensures r.index == if f.mode == Ordered then f.index + 1 else f.index
  {
    if f.mode == Ordered then Emit(f, [Marker(Decimal(f.index))]).(index := f.index + 1)
    else Emit(f, [Text(TextElement(BULLET, BodyBold))])
  }

  /** `render_markdown_tree`: a fresh layout (`Clay_BeginLayout`) holding
      the main container around the document's children. */
  function RenderTree(f: Frame, root: MarkdownNode, env: Env): (r: Frame)
    requires Ready(f, env) && !f.halted && root.BlockNode? && AllRenderable(root.children)
    ensures Ready(r, env)
  {
    var f1 := RenderChildren(Emit(f.(packer := f.packer.(out := [])), [Open(MainBox)]), root, 0, env);
    if f1.halted then f1 else Emit(f1, [Close])
  }

  /** The rendering part of `update_frame`: lay the tree out, then release
      every temporary buffer of the frame. */
  function RenderFrame(f: Frame, root: MarkdownNode, env: Env): (r: Frame)
    requires Ready(f, env) && !f.halted && root.BlockNode? && AllRenderable(root.children)
    ensures Ready(r, env)
    ensures !r.halted ==> r.packer.temps == []
  {
    var f1 := RenderTree(f, root, env);
    if f1.halted then f1 else f1.(packer := f1.packer.(temps := []))
  }
}
