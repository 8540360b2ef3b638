/** The renderer's globals and the code that updates them in place: the
    current line (`g_current_line`), the temporary text registry, the image
    cache, the list mode and counter, the character budget and the base
    font size. Each method is proved against the functions of the walk
    model in `Walk` and `LinePacker`. */
module Render {
  import opened Bytes
  import opened Md4c
  import opened Styles
  import opened Layout
  import opened LinePacker
  import opened TempText
  import opened Images
  import opened Walk

  class Renderer {
    /** `g_current_line.elements` */
    const elements: array<TextElement>
    /** `g_current_line.count` */
    var count: int
    /** `g_current_line.char_count` */
    var charCount: int
    /** `g_available_characters` */
    var available: int
    /** The layout declarations issued since `Clay_BeginLayout`. */
    var out: seq<Decl>
    /** `g_current_list_mode` */
    var listMode: ListMode
    /** `list_item_index` */
    var listIndex: nat
    /** `g_base_font_size` */
    var baseFontSize: int
    const registry: Registry
    const images: ImageCache
    /** Set when `find_or_load_image` has called `exit(1)`. */
    var halted: bool
    ghost var Repr: set<object>

    ghost predicate Valid()
      reads this, Repr
    {
      this in Repr && elements in Repr && images in Repr && images.entries in Repr &&
      registry in Repr && registry.Repr <= Repr &&
      Repr == {this, elements, images, images.entries} + registry.Repr &&
      this !in registry.Repr && elements !in registry.Repr &&
      images !in registry.Repr && images.entries !in registry.Repr &&
      registry.Valid() && elements.Length == MAX_TEXT_ELEMENTS && 0 <= count <= MAX_TEXT_ELEMENTS &&
      (!halted ==> images.Valid())
    }

    /** The line packer's state: what has been declared, the pending
        elements, their byte count and this frame's temporary buffers. */
    ghost function Line(): Packer
      reads this, Repr
      requires Valid()
    {
      Packer(out, elements[..count], charCount, registry.Contents())
    }

    /** The state the walk functions describe. */
    ghost function State(): Frame
      reads this, Repr
      requires Valid() && !halted
    {
      Frame(Line(), listMode, listIndex, images.Cached(), false)
    }

    ghost predicate Ready()
      reads this, Repr
    {
      Valid() && !halted && available >= 1 && LineOk(Line(), available)
    }

    /** The renderer has reached the walk state `f`: it has exited when `f`
        has, and agrees with `f` otherwise. */
    ghost predicate Reached(f: Frame)
      reads this, Repr
      requires Valid()
    {
      if f.halted then halted else !halted && State() == f
    }

    constructor ()
      ensures Valid() && fresh(Repr) && !halted
      ensures count == 0 && charCount == 0 && available == 0 && out == []
      ensures listMode == Ordered && listIndex == 1 && baseFontSize == BASE_FONT_SIZE
      ensures registry.Contents() == [] && images.Cached() == []
    {
      elements := new TextElement[MAX_TEXT_ELEMENTS](_ => TextElement([], BodyRegular));
      count, charCount, available, out := 0, 0, 0, [];
      listMode, listIndex, baseFontSize := Ordered, 1, BASE_FONT_SIZE;
      var r := new Registry();
      var c := new ImageCache();
      registry, images := r, c;
      halted := false;
      Repr := {this, elements, c, c.entries} + r.Repr;
    }

    /** `textline_init` */
    method TextlineInit()
      requires Valid() && !halted
      modifies this
      ensures Valid() && !halted && Repr == old(Repr)
      ensures Line() == LinePacker.Init(old(Line()))
      ensures State() == InitLine(old(State()))
      ensures old(available) >= 1 ==> Ready()
      ensures available == old(available) && listMode == old(listMode) && listIndex == old(listIndex)
      ensures halted == old(halted) && baseFontSize == old(baseFontSize)
    {
      count, charCount := 0, 0;
    }

    /** `textline_flush`: the pending elements, in index order, become one
        row. */
    method TextlineFlush()
      requires Valid() && !halted
      modifies this
      ensures Valid() && !halted && Repr == old(Repr)
      ensures Line() == Flush(old(Line()))
      ensures State() == FlushLine(old(State()))
      ensures old(Ready()) ==> Ready()
      ensures available == old(available) && listMode == old(listMode) && listIndex == old(listIndex)
      ensures halted == old(halted) && baseFontSize == old(baseFontSize)
    {
      if count == 0 {
        return;
      }
      var row := [];
      for i := 0 to count
        invariant row == elements[..i]
      {
        row := row + [elements[i]];
      }
      out := out + [Row(row)];
      count, charCount := 0, 0;
    }

    /** `textline_push(src, |src|, style)`: make room when the line is at
        capacity, then place the fragment or handle the overflow. */
    method TextlinePush(src: seq<Byte>, style: Style)
      requires Ready()
      modifies this, elements, registry.Repr
      ensures Ready() && fresh(Repr - old(Repr))
      ensures Line() == Push(old(Line()), src, style, old(available))
      ensures available == old(available) && listMode == old(listMode) && listIndex == old(listIndex)
      ensures baseFontSize == old(baseFontSize)
      decreases |src|, charCount, 2
    {
      if count >= MAX_TEXT_ELEMENTS {
        TextlineFlush();
      }
      if charCount + |src| > available {
        TextlineOverflow(src, style);
      } else {
        TextlinePlace(src, style);
      }
    }

    /** The normal push (render.c's `malloc`, `memcpy`, registration and
        element store) and the eager flush when the line is exactly full. */
    method TextlinePlace(src: seq<Byte>, style: Style)
      requires Ready() && count < MAX_TEXT_ELEMENTS && charCount + |src| <= available
      modifies this, elements, registry.Repr
      ensures Ready() && fresh(Repr - old(Repr))
      ensures Line() == Place(old(Line()), src, style, old(available))
      ensures available == old(available) && listMode == old(listMode) && listIndex == old(listIndex)
      ensures baseFontSize == old(baseFontSize)
    {
      ghost var p := Line();
      AppendElement(src, style);
      if charCount >= available {
        TextlineFlush();
      } else {
        assert Line() == Place(p, src, style, available);
      }
    }

    /** The `malloc`, `memcpy`, registration and element store of a
        fragment that fits. */
    method AppendElement(src: seq<Byte>, style: Style)
      requires Valid() && !halted && count < MAX_TEXT_ELEMENTS
      requires charCount == SumLen(elements[..count])
      modifies this, elements, registry.Repr
      ensures Valid() && !halted && fresh(Repr - old(Repr))
      ensures Line() == Append(old(Line()), src, style)
      ensures available == old(available) && listMode == old(listMode) && listIndex == old(listIndex)
      ensures baseFontSize == old(baseFontSize) && images.Cached() == old(images.Cached())
    {
      StoreElement(TextElement(src, style));
      registry.Push(src + [NUL]);
      Repr := {this, elements, images, images.entries} + registry.Repr;
    }

    /** `g_current_line.elements[g_current_line.count++] = ...` and the
        byte count that goes with it. */
    method StoreElement(e: TextElement)
      requires Valid() && !halted && count < MAX_TEXT_ELEMENTS
      modifies this, elements
      ensures Valid() && !halted && Repr == old(Repr)
      ensures elements[..count] == old(elements[..count]) + [e]
      ensures charCount == old(charCount) + |e.text|
      ensures out == old(out) && registry.Contents() == old(registry.Contents())
      ensures available == old(available) && listMode == old(listMode) && listIndex == old(listIndex)
      ensures baseFontSize == old(baseFontSize) && images.Cached() == old(images.Cached())
    {
      elements[count] := e;
      count := count + 1;
      charCount := charCount + |e.text|;
      assert elements[..count] == old(elements[..count]) + [e];
    }

    /** A fragment that does not fit: search backwards for the last space
        within the remaining room, move a fragment that fits an empty line
        to a fresh one, and split otherwise. */
    method TextlineOverflow(src: seq<Byte>, style: Style)
      requires Ready() && count < MAX_TEXT_ELEMENTS && charCount + |src| > available
      modifies this, elements, registry.Repr
      ensures Ready() && fresh(Repr - old(Repr))
      ensures Line() == Overflow(old(Line()), src, style, old(available))
      ensures available == old(available) && listMode == old(listMode) && listIndex == old(listIndex)
      ensures baseFontSize == old(baseFontSize)
      decreases |src|, charCount, 1
    {
      ghost var p := Line();
      var remaining := available - charCount;
      var wrap := FindWrap(src, remaining);
      if wrap == -1 && |src| <= available {
        assert Overflow(p, src, style, available) == Push(Flush(p), src, style, available);
        TextlineFreshLine(src, style);
      } else {
        var cut := if wrap == -1 then remaining else wrap;
        assert Overflow(p, src, style, available) == SplitAt(p, src, cut, style, available);
        TextlineSplitAt(src, cut, style);
      }
    }

    /** A fragment that fits an empty line but not this one moves, whole,
        to a fresh line. */
    method TextlineFreshLine(src: seq<Byte>, style: Style)
      requires Ready() && charCount + |src| > available && |src| <= available
      modifies this, elements, registry.Repr
      ensures Ready() && fresh(Repr - old(Repr))
      ensures Line() == Push(Flush(old(Line())), src, style, old(available))
      ensures available == old(available) && listMode == old(listMode) && listIndex == old(listIndex)
      ensures baseFontSize == old(baseFontSize)
      decreases |src|, charCount, 0
    {
      TextlineFlush();
      TextlinePush(src, style);
    }

    /** The backward search of `textline_push`: the last `i` in
        `1..remaining` with a space at `src[i - 1]`, or -1. */
    static method FindWrap(src: seq<Byte>, remaining: int) returns (wrap: int)
      requires remaining <= |src|
      ensures wrap == LastSpace(src, remaining)
    {
      wrap := -1;
      var i := remaining;
      while i > 0
        invariant i <= remaining
        invariant LastSpace(src, remaining) == LastSpace(src, i)
        decreases i
      {
        if src[i - 1] == SPACE {
          return i;
        }
        i := i - 1;
      }
    }

    /** The loop of `textline_push` that skips the spaces after a cut. */
    static method SkipLeadingSpaces(src: seq<Byte>, cut: nat) returns (start: nat)
      requires cut <= |src|
      ensures start == SkipSpaces(src, cut)
      ensures cut <= start <= |src| && (start < |src| ==> src[start] != SPACE)
    {
      start := cut;
      while start < |src| && src[start] == SPACE
        invariant cut <= start <= |src|
        invariant SkipSpaces(src, cut) == SkipSpaces(src, start)
        decreases |src| - start
      {
        start := start + 1;
      }
    }

    /** Push the first `cut` bytes, end the line, skip the spaces after the
        cut and push the remainder, if any. */
    method TextlineSplitAt(src: seq<Byte>, cut: int, style: Style)
      requires Ready() && 1 <= cut < |src|
      modifies this, elements, registry.Repr
      ensures Ready() && fresh(Repr - old(Repr))
      ensures Line() == SplitAt(old(Line()), src, cut, style, old(available))
      ensures available == old(available) && listMode == old(listMode) && listIndex == old(listIndex)
      ensures baseFontSize == old(baseFontSize)
      decreases |src|, 0, 0
    {
      TextlinePush(src[..cut], style);
      TextlineFlush();
      var start := SkipLeadingSpaces(src, cut);
      if start < |src| {
        TextlinePush(src[start..], style);
      }
    }

    // -------------------------------------------------------------------
    // The render walk

    /** A Clay declaration (`CLAY_AUTO_ID`, `CLAY_TEXT` or the end of an
        element) appended to the layout. */
    method Declare(ds: seq<Decl>)
      requires Valid() && !halted
      modifies this
      ensures Valid() && !halted && Repr == old(Repr)
      ensures State() == Emit(old(State()), ds)
      ensures available == old(available) && baseFontSize == old(baseFontSize)
      ensures old(Ready()) ==> Ready()
    {
      out := out + ds;
    }

    /** `render_node` */
    method RenderNode(n: MarkdownNode, files: Files, strdupOk: bool)
      requires Ready() && Renderable(n)
      modifies Repr
      ensures Valid() && fresh(Repr - old(Repr))
      ensures available == old(available) && baseFontSize == old(baseFontSize)
      ensures Reached(Walk.RenderNode(old(State()), n, Env(old(available), files, strdupOk)))
      decreases n, 3, 0
    {
      if n.BlockNode? {
        RenderBlock(n, files, strdupOk);
      } else if n.SpanNode? && n.spanType == ImageSpan {
        RenderImage(n.spanDetail.src, files, strdupOk);
      } else {
        RenderTextNode(n);
      }
    }

    /** `render_text_node` */
    method RenderTextNode(n: MarkdownNode)
      requires Ready()
      modifies this, elements, registry.Repr
      ensures Ready() && fresh(Repr - old(Repr))
      ensures available == old(available) && baseFontSize == old(baseFontSize)
      ensures State() == Walk.RenderInline(old(State()), n, Env(old(available), map[], false))
    {
      match n {
        case TextNode(t, text) =>
          if t == SoftBreak {
            TextlinePush([SPACE], BodyRegular);
          }
          TextlinePush(text, BodyRegular);
        case SpanNode(t, _, cs) =>
          var style := SpanStyle(t);
          if style.None? {
            return;
          }
          if FirstChildIsText(cs) {
            TextlinePush(cs[0].text, style.value);
          }
        case BlockNode(_, _, _) =>
      }
    }

    /** `render_image` */
    method RenderImage(src: seq<Byte>, files: Files, strdupOk: bool)
      requires Ready()
      modifies this, images, images.entries
      ensures Valid() && Repr == old(Repr)
      ensures available == old(available) && baseFontSize == old(baseFontSize)
      ensures Reached(Walk.RenderImage(old(State()), src, Env(old(available), files, strdupOk)))
    {
      ghost var f0 := State();
      ghost var res := FindOrLoad(f0.images, src, |src|, files, strdupOk);
      var info := images.FindOrLoadImage(src, |src|, files, strdupOk);
      if !info.Found? {
        halted := true;
        return;
      }
      assert State() == f0.(images := res.1);
      if images.entries[info.index].loaded {
        Declare([Open(ImageFrame), Picture(info.index), Close]);
      } else {
        Declare([Open(PlaceholderBox), Text(TextElement(PLACEHOLDER, BodyBold)), Close]);
      }
    }

    /** `render_block`: dispatch, then give the list mode back. */
    method RenderBlock(n: MarkdownNode, files: Files, strdupOk: bool)
      requires Ready() && n.BlockNode? && Renderable(n)
      modifies Repr
      ensures Valid() && fresh(Repr - old(Repr))
      ensures available == old(available) && baseFontSize == old(baseFontSize)
      ensures Reached(Walk.RenderBlock(old(State()), n, Env(old(available), files, strdupOk)))
      decreases n, 2, 0
    {
      var previousListMode := listMode;
      BlockSwitch(n, files, strdupOk);
      BlockSteps(old(State()), n, Env(old(available), files, strdupOk));
      if halted {
        return;
      }
      listMode := previousListMode;
    }

    /** The switch of `render_block`. */
    method BlockSwitch(n: MarkdownNode, files: Files, strdupOk: bool)
      requires Ready() && n.BlockNode? && Renderable(n)
      modifies Repr
      ensures Valid() && fresh(Repr - old(Repr))
      ensures available == old(available) && baseFontSize == old(baseFontSize)
      ensures Reached(Walk.RenderBlockBody(old(State()), n, Env(old(available), files, strdupOk)))
      decreases n, 1, 1
    {
      match n.blockType {
        case ParagraphBlock => RenderParagraph(n, files, strdupOk);
        case HeadingBlock => RenderHeading(n);
        case HorizontalRule => Declare([Open(RuleBox), Close]);
        case CodeBlock => RenderCodeBlock(n);
        case QuoteBlock => RenderQuoteBlock(n, files, strdupOk);
        case UnorderedList =>
          EnterList(Unordered);
          RenderUnorderedList(n, files, strdupOk);
        case OrderedList =>
          EnterList(Ordered);
          RenderOrderedList(n, files, strdupOk);
        case ListItem => RenderListItem(n, files, strdupOk);
        case _ =>
      }
    }

    /** What `render_block` does before a list: end the pending line and set
        the mode its items are marked in. */
    method EnterList(mode: ListMode)
      requires Ready()
      modifies this
      ensures Ready() && Repr == old(Repr)
      ensures available == old(available) && baseFontSize == old(baseFontSize)
      ensures State() == FlushLine(old(State())).(mode := mode)
    {
      TextlineFlush();
      listMode := mode;
    }

    /** The loops over `first_child` / `next_sibling`. */
    method RenderChildren(parent: MarkdownNode, files: Files, strdupOk: bool)
      requires Ready() && parent.BlockNode? && AllRenderable(parent.children)
      modifies Repr
      ensures Valid() && fresh(Repr - old(Repr))
      ensures available == old(available) && baseFontSize == old(baseFontSize)
      ensures Reached(Walk.RenderChildren(old(State()), parent, 0, Env(old(available), files, strdupOk)))
      decreases parent, 0, 0
    {
      ghost var env := Env(available, files, strdupOk);
      ghost var goal := Walk.RenderChildren(State(), parent, 0, env);
      var i := 0;
      while i < |parent.children|
        invariant 0 <= i <= |parent.children|
        invariant Ready() && fresh(Repr - old(Repr))
        invariant available == old(available) && baseFontSize == old(baseFontSize)
        invariant Walk.RenderChildren(State(), parent, i, env) == goal
        decreases |parent.children| - i
      {
        RenderNode(parent.children[i], files, strdupOk);
        if halted {
          return;
        }
        i := i + 1;
      }
    }

    /** `render_paragraph` */
    method RenderParagraph(n: MarkdownNode, files: Files, strdupOk: bool)
      requires Ready() && n.BlockNode? && AllRenderable(n.children)
      modifies Repr
      ensures Valid() && fresh(Repr - old(Repr))
      ensures available == old(available) && baseFontSize == old(baseFontSize)
      ensures Reached(Walk.RenderParagraph(old(State()), n, Env(old(available), files, strdupOk)))
      decreases n, 1, 0
    {
      Declare([Open(ParagraphBox)]);
      TextlineInit();
      RenderChildren(n, files, strdupOk);
      if halted {
        return;
      }
      TextlineFlush();
      Declare([Close]);
    }

    /** `render_heading` */
    method RenderHeading(n: MarkdownNode)
      requires Valid() && !halted && n.BlockNode? && n.blockDetail.HeadingDetail? && FirstChildIsText(n.children)
      modifies this
      ensures Valid() && Repr == old(Repr)
      ensures available == old(available) && baseFontSize == old(baseFontSize)
      ensures !halted && State() == Walk.RenderHeading(old(State()), n)
    {
      var style := HeadingStyle(n.blockDetail.level);
      out := out + [Open(HeadingBox), Text(TextElement(n.children[0].text, style)), Close];
    }

    /** `render_code_block`: one text per child, verbatim. */
    method RenderCodeBlock(n: MarkdownNode)
      requires Valid() && !halted && n.BlockNode? && AllText(n.children)
      modifies this
      ensures Valid() && Repr == old(Repr)
      ensures available == old(available) && baseFontSize == old(baseFontSize)
      ensures !halted && State() == Emit(old(State()), [Open(CodeBox)] + CodeLines(n.children) + [Close])
    {
      ghost var lines := CodeLines(n.children);
      var texts := [];
      for i := 0 to |n.children|
        invariant texts == lines[..i]
      {
        texts := texts + [Text(TextElement(n.children[i].text, BodyRegular))];
        assert lines[..i + 1] == lines[..i] + [lines[i]];
      }
      assert lines[..|n.children|] == lines;
      out := out + [Open(CodeBox)] + texts + [Close];
    }

    /** `render_quote_block` */
    method RenderQuoteBlock(n: MarkdownNode, files: Files, strdupOk: bool)
      requires Ready() && n.BlockNode? && AllRenderable(n.children)
      modifies Repr
      ensures Valid() && fresh(Repr - old(Repr))
      ensures available == old(available) && baseFontSize == old(baseFontSize)
      ensures Reached(Walk.RenderQuote(old(State()), n, Env(old(available), files, strdupOk)))
      decreases n, 1, 0
    {
      Declare([Open(QuoteBox)]);
      RenderChildren(n, files, strdupOk);
      if halted {
        return;
      }
      Declare([Close]);
    }

    /** `render_ordered_list`: count from the list's start and give the
        outer counter back afterwards. */
    method RenderOrderedList(n: MarkdownNode, files: Files, strdupOk: bool)
      requires Ready() && n.BlockNode? && n.blockDetail.OrderedListDetail? && AllRenderable(n.children)
      modifies Repr
      ensures Valid() && fresh(Repr - old(Repr))
      ensures available == old(available) && baseFontSize == old(baseFontSize)
      ensures Reached(Walk.RenderOrderedList(old(State()), n, Env(old(available), files, strdupOk)))
      decreases n, 1, 0
    {
      if n.children == [] {
        return;
      }
      ghost var f0 := State();
      var previousIndex := listIndex;
      listIndex := n.blockDetail.start;
      assert State() == f0.(index := n.blockDetail.start);
      Declare([Open(OrderedListBox)]);
      RenderChildren(n, files, strdupOk);
      if halted {
        return;
      }
      Declare([Close]);
      listIndex := previousIndex;
    }

    /** `render_unordered_list` */
    method RenderUnorderedList(n: MarkdownNode, files: Files, strdupOk: bool)
      requires Ready() && n.BlockNode? && AllRenderable(n.children)
      modifies Repr
      ensures Valid() && fresh(Repr - old(Repr))
      ensures available == old(available) && baseFontSize == old(baseFontSize)
      ensures Reached(Walk.RenderUnorderedList(old(State()), n, Env(old(available), files, strdupOk)))
      decreases n, 1, 0
    {
      if n.children == [] {
        return;
      }
      Declare([Open(UnorderedListBox)]);
      RenderChildren(n, files, strdupOk);
      if halted {
        return;
      }
      Declare([Close]);
    }

    /** `render_list_item`: the marker, then the item's content on a fresh
        line, flushed at the end. */
    method RenderListItem(n: MarkdownNode, files: Files, strdupOk: bool)
      requires Ready() && n.BlockNode? && AllRenderable(n.children)
      modifies Repr
      ensures Valid() && fresh(Repr - old(Repr))
      ensures available == old(available) && baseFontSize == old(baseFontSize)
      ensures Reached(Walk.RenderListItem(old(State()), n, Env(old(available), files, strdupOk)))
      decreases n, 1, 0
    {
      if n.children == [] {
        return;
      }
      OpenItem();
      RenderChildren(n, files, strdupOk);
      if halted {
        return;
      }
      TextlineFlush();
      Declare([Close, Close]);
    }

    /** The start of `render_list_item`, up to its loop over the children. */
    method OpenItem()
      requires Ready()
      modifies this
      ensures Ready() && Repr == old(Repr)
      ensures available == old(available) && baseFontSize == old(baseFontSize)
      ensures State() == Walk.OpenItem(old(State()))
    {
      TextlineInit();
      Declare([Open(ListItemBox)]);
      ItemMarker();
      Declare([Open(ItemContentBox)]);
    }

    /** The marker block of `render_list_item`: `sprintf` of the counter
        into the marker box, which then moves on, or the bullet. */
    method ItemMarker()
      requires Ready()
      modifies this
      ensures Ready() && Repr == old(Repr)
      ensures available == old(available) && baseFontSize == old(baseFontSize)
      ensures State() == Walk.ItemMarker(old(State()))
    {
      if listMode == Ordered {
        out := out + [Marker(Decimal(listIndex))];
        listIndex := listIndex + 1;
      } else {
        out := out + [Text(TextElement(BULLET, BodyBold))];
      }
    }

    /** `render_markdown_tree` */
    method RenderMarkdownTree(root: MarkdownNode, files: Files, strdupOk: bool)
      requires Ready() && root.BlockNode? && AllRenderable(root.children)
      modifies Repr
      ensures Valid() && fresh(Repr - old(Repr))
      ensures available == old(available) && baseFontSize == old(baseFontSize)
      ensures Reached(Walk.RenderTree(old(State()), root, Env(old(available), files, strdupOk)))
    {
      out := [];
      Declare([Open(MainBox)]);
      RenderChildren(root, files, strdupOk);
      if halted {
        return;
      }
      Declare([Close]);
    }

    // -------------------------------------------------------------------
    // Frames

    /** `update_frame` without the debug toggle, input polling, scrolling
        and drawing: the font keys, the character budget for the window
        width, the layout of the tree, and the release of every temporary
        buffer the frame registered (returned as `freed`). The line left
        pending by the previous frame must fit the new budget. */
    method UpdateFrame(keys: Keys, screenWidth: int, root: MarkdownNode, files: Files, strdupOk: bool)
      returns (ghost freed: seq<seq<Byte>>)
      requires Valid() && !halted && root.BlockNode? && AllRenderable(root.children)
      requires BudgetDefined(UpdateFrameFontSize(baseFontSize, keys))
      requires Budget(screenWidth, UpdateFrameFontSize(baseFontSize, keys)) >= 1
      requires LineOk(Line(), Budget(screenWidth, UpdateFrameFontSize(baseFontSize, keys)))
      modifies Repr
      ensures Valid() && fresh(Repr - old(Repr))
      ensures baseFontSize == UpdateFrameFontSize(old(baseFontSize), keys)
      ensures available == Budget(screenWidth, baseFontSize)
      ensures Reached(Walk.RenderFrame(old(State()), root, Env(available, files, strdupOk)))
      ensures !halted ==>
        freed == Walk.RenderTree(old(State()), root, Env(available, files, strdupOk)).packer.temps
    {
      ghost var f0 := State();
      UpdateFrameKeys(keys);
      SetBudget(screenWidth);
      assert State() == f0 && Ready();
      RenderMarkdownTree(root, files, strdupOk);
      if halted {
        freed := [];
        return;
      }
      freed := registry.FreeAll();
    }

    /** The character budget `update_frame` derives from the window width. */
    method SetBudget(screenWidth: int)
      requires Valid() && !halted && BudgetDefined(baseFontSize)
      modifies this
      ensures Valid() && !halted && Repr == old(Repr)
      ensures State() == old(State()) && baseFontSize == old(baseFontSize)
      ensures available == Budget(screenWidth, baseFontSize)
    {
      available := CDiv(screenWidth, CDiv(baseFontSize, 2)) - 1;
    }

    /** The font keys of `update_frame`. */
    method UpdateFrameKeys(keys: Keys)
      requires Valid() && !halted
      modifies this
      ensures Valid() && !halted && Repr == old(Repr)
      ensures baseFontSize == UpdateFrameFontSize(old(baseFontSize), keys)
      ensures State() == old(State()) && available == old(available)
    {
      if keys.equal {
        baseFontSize := baseFontSize + 2;
      }
      if keys.minus {
        baseFontSize := baseFontSize - 2;
      }
    }

    /** One pass of `start_main_loop`: its own font keys, then
        `update_frame`. */
    method MainLoopStep(keys: Keys, screenWidth: int, root: MarkdownNode, files: Files, strdupOk: bool)
      requires Valid() && !halted && root.BlockNode? && AllRenderable(root.children)
      requires BudgetDefined(FrameFontSize(baseFontSize, keys))
      requires Budget(screenWidth, FrameFontSize(baseFontSize, keys)) >= 1
      requires LineOk(Line(), Budget(screenWidth, FrameFontSize(baseFontSize, keys)))
      modifies Repr
      ensures Valid() && fresh(Repr - old(Repr))
      ensures baseFontSize == FrameFontSize(old(baseFontSize), keys)
      ensures available == Budget(screenWidth, baseFontSize)
      ensures Reached(Walk.RenderFrame(old(State()), root, Env(available, files, strdupOk)))
    {
      ghost var f0 := State();
      MainLoopKeys(keys);
      assert State() == f0;
      ghost var freed := UpdateFrame(keys, screenWidth, root, files, strdupOk);
    }

    /** The font keys `start_main_loop` handles before `update_frame`. */
    method MainLoopKeys(keys: Keys)
      requires Valid() && !halted
      modifies this
      ensures Valid() && !halted && Repr == old(Repr)
      ensures baseFontSize == MainLoopFontSize(old(baseFontSize), keys)
      ensures State() == old(State()) && available == old(available)
    {
      if keys.equal {
        baseFontSize := baseFontSize + 1;
      }
      if keys.minus {
        baseFontSize := baseFontSize - 1;
      }
      if keys.zero {
        baseFontSize := BASE_FONT_SIZE;
      }
    }

    /** `cleanup_application`: release the frame's temporary buffers and the
        image cache (`released` lists the cache entries whose texture and
        path are released). The cache is cleaned with the corrected loop,
        which also releases the newest entry. */
    method Cleanup() returns (ghost freed: seq<seq<Byte>>, ghost released: seq<nat>)
      requires Valid() && !halted
      modifies this, registry, images
      ensures Valid() && !halted && Repr == old(Repr)
      ensures freed == old(registry.Contents()) && registry.Contents() == []
      ensures images.pointer == -1 && released == VisitedByFullClean(old(images.pointer))
    {
      freed := registry.FreeAll();
      released := images.CleanAllImages();
    }
  }
}
