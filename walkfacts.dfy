/** What the render walk guarantees: lists restore the mode and the
    counter they found, ordered items are numbered consecutively from the
    list's start, soft breaks become a space, spans keep their text in
    their role, headings bypass the line packer, and an image either
    renders or ends the process. */
module WalkFacts {
  import opened Bytes
  import opened Md4c
  import opened Styles
  import opened Layout
  import opened LinePacker
  import opened Images
  import opened Walk

  // ---------------------------------------------------------------------
  // Item markers

  /** The numbers of the ordered-list markers in a declaration stream. */
  function Markers(ds: seq<Decl>): (ms: seq<seq<Byte>>)
    decreases |ds|
  {
    if ds == [] then []
    else Markers(ds[..|ds| - 1]) + (if ds[|ds| - 1].Marker? then [ds[|ds| - 1].number] else [])
  }

  lemma {:induction false} MarkersAppend(a: seq<Decl>, b: seq<Decl>)
    ensures Markers(a + b) == Markers(a) + Markers(b)
    decreases |b|
  {
    if b == [] {
      assert a + b == a;
    } else {
      assert (a + b)[..|a + b| - 1] == a + b[..|b| - 1];
      assert (a + b)[|a + b| - 1] == b[|b| - 1];
      MarkersAppend(a, b[..|b| - 1]);
    }
  }

  lemma {:induction false} NoMarkers(ds: seq<Decl>)
    requires forall k :: 0 <= k < |ds| ==> !ds[k].Marker?
    ensures Markers(ds) == []
    decreases |ds|
  {
    if ds != [] {
      NoMarkers(ds[..|ds| - 1]);
    }
  }

  /** `Decimal(start)`, `Decimal(start + 1)`, ... : `k` consecutive markers. */
  function Numbers(start: nat, k: nat): (r: seq<seq<Byte>>)
    ensures |r| == k
    ensures forall j :: 0 <= j < k ==> r[j] == Decimal(start + j)
  {
    seq(k, j requires 0 <= j < k => Decimal(start + j))
  }

  lemma NumbersCons(start: nat, k: nat)
    ensures [Decimal(start)] + Numbers(start + 1, k) == Numbers(start, k + 1)
  {
    var s := [Decimal(start)] + Numbers(start + 1, k);
    assert forall j :: 0 <= j < k + 1 ==> s[j] == Decimal(start + j);
  }

  predicate IsItem(c: MarkdownNode)
  {
    c.BlockNode? && c.blockType == ListItem
  }

  /** The items of a list that draw a number: `render_list_item` does
      nothing for an item without children. */
  function CountedItems(cs: seq<MarkdownNode>): nat
    decreases |cs|
  {
    if cs == [] then 0
    else (if IsItem(cs[0]) && cs[0].children != [] then 1 else 0) + CountedItems(cs[1..])
  }

  // ---------------------------------------------------------------------
  // Steps of the walk

  /** Walk states that agree on the markers emitted, the counter and the
      mode, unless the second one has exited. */
  ghost predicate Quiet(f: Frame, r: Frame)
  {
    !r.halted ==> Markers(r.packer.out) == Markers(f.packer.out) && r.index == f.index && r.mode == f.mode
  }

  lemma EmitQuiet(f: Frame, ds: seq<Decl>)
    requires forall k :: 0 <= k < |ds| ==> !ds[k].Marker?
    ensures Markers(Emit(f, ds).packer.out) == Markers(f.packer.out)
  {
    MarkersAppend(f.packer.out, ds);
    NoMarkers(ds);
  }

  lemma FlushQuiet(f: Frame)
    ensures Markers(FlushLine(f).packer.out) == Markers(f.packer.out)
  {
    if f.packer.pending != [] {
      EmitQuiet(f, [Row(f.packer.pending)]);
    }
  }

  lemma PushQuiet(f: Frame, src: seq<Byte>, style: Style, env: Env)
    requires Ready(f, env)
    ensures Markers(PushText(f, src, style, env).packer.out) == Markers(f.packer.out)
  {
    var before, after := f.packer.out, PushText(f, src, style, env).packer.out;
    PushEmitsFittingRows(f.packer, src, style, env.budget);
    assert after == before + after[|before|..];
    MarkersAppend(before, after[|before|..]);
    NoMarkers(after[|before|..]);
  }

  lemma InlineQuiet(f: Frame, n: MarkdownNode, env: Env)
    requires Ready(f, env) && !f.halted
    ensures Quiet(f, RenderInline(f, n, env))
  {
    match n
    case TextNode(t, text) =>
      var f1 := if t == SoftBreak then PushText(f, [SPACE], BodyRegular, env) else f;
      if t == SoftBreak {
        PushQuiet(f, [SPACE], BodyRegular, env);
      }
      PushQuiet(f1, text, BodyRegular, env);
    case SpanNode(t, _, cs) =>
      if SpanStyle(t).Some? && FirstChildIsText(cs) {
        PushQuiet(f, cs[0].text, SpanStyle(t).value, env);
      }
    case BlockNode(_, _, _) =>
  }

  lemma ImageQuiet(f: Frame, src: seq<Byte>, env: Env)
    requires Ready(f, env) && !f.halted
    ensures Quiet(f, RenderImage(f, src, env))
  {
    var res := FindOrLoad(f.images, src, |src|, env.files, env.strdupOk);
    if res.0.Found? {
      var g := f.(images := res.1);
      EmitQuiet(g, [Open(ImageFrame), Picture(res.0.index), Close]);
      EmitQuiet(g, [Open(PlaceholderBox), Text(TextElement(PLACEHOLDER, BodyBold)), Close]);
    }
  }

  // ---------------------------------------------------------------------
  // Content without lists emits no markers and keeps the counter

  ghost predicate NoLists(n: MarkdownNode)
    decreases n
  {
    match n
    case BlockNode(t, _, cs) =>
      t != OrderedList && t != UnorderedList && t != ListItem && AllNoLists(cs)
    case _ => true
  }

  ghost predicate AllNoLists(cs: seq<MarkdownNode>)
    decreases cs
  {
    forall k :: 0 <= k < |cs| ==> NoLists(cs[k])
  }

  lemma {:induction false} NodeQuiet(f: Frame, n: MarkdownNode, env: Env)
    requires Ready(f, env) && !f.halted && Renderable(n) && NoLists(n)
    ensures Quiet(f, RenderNode(f, n, env))
    decreases n, 3, 0
  {
    match n
    case BlockNode(_, _, _) => BlockQuiet(f, n, env);
    case SpanNode(t, d, _) =>
      if t == ImageSpan {
        ImageQuiet(f, d.src, env);
      } else {
        InlineQuiet(f, n, env);
      }
    case TextNode(_, _) => InlineQuiet(f, n, env);
  }

  lemma {:induction false} BlockQuiet(f: Frame, n: MarkdownNode, env: Env)
    requires Ready(f, env) && !f.halted && n.BlockNode? && Renderable(n) && NoLists(n)
    ensures Quiet(f, RenderBlock(f, n, env))
    decreases n, 2, 0
  {
    BlockSteps(f, n, env);
    match n.blockType
    case ParagraphBlock =>
      EmitQuiet(f, [Open(ParagraphBox)]);
      var g := InitLine(Emit(f, [Open(ParagraphBox)]));
      ChildrenQuiet(g, n, 0, env);
      var h := RenderChildren(g, n, 0, env);
      if !h.halted {
        FlushQuiet(h);
        EmitQuiet(FlushLine(h), [Close]);
      }
    case HeadingBlock =>
      EmitQuiet(f, [Open(HeadingBox), Text(TextElement(n.children[0].text, HeadingStyle(n.blockDetail.level))), Close]);
    case HorizontalRule =>
      EmitQuiet(f, [Open(RuleBox), Close]);
    case CodeBlock =>
      EmitQuiet(f, [Open(CodeBox)] + CodeLines(n.children) + [Close]);
    case QuoteBlock =>
      EmitQuiet(f, [Open(QuoteBox)]);
      var g := Emit(f, [Open(QuoteBox)]);
      ChildrenQuiet(g, n, 0, env);
      var h := RenderChildren(g, n, 0, env);
      if !h.halted {
        EmitQuiet(h, [Close]);
      }
    case _ =>
  }

  lemma {:induction false} ChildrenQuiet(f: Frame, parent: MarkdownNode, i: nat, env: Env)
    requires Ready(f, env) && !f.halted && parent.BlockNode? && AllRenderable(parent.children)
    requires i <= |parent.children| && AllNoLists(parent.children)
    ensures Quiet(f, RenderChildren(f, parent, i, env))
    decreases parent, 0, |parent.children| - i
  {
    if i < |parent.children| {
      NodeQuiet(f, parent.children[i], env);
      var f1 := RenderNode(f, parent.children[i], env);
      if !f1.halted {
        ChildrenQuiet(f1, parent, i + 1, env);
      }
    }
  }

  // ---------------------------------------------------------------------
  // Ordered items are numbered from the list's start

  /** The children of a list whose items hold no lists of their own. */
  ghost predicate FlatEntries(cs: seq<MarkdownNode>)
  {
    forall k :: 0 <= k < |cs| ==> if IsItem(cs[k]) then AllNoLists(cs[k].children) else NoLists(cs[k])
  }

  /** `render_list_item` in an ordered list: the item's marker is the
      current counter, which then moves on by one; an item without children
      draws nothing. */
  lemma ItemNumbered(f: Frame, c: MarkdownNode, env: Env)
    requires Ready(f, env) && !f.halted && Renderable(c) && IsItem(c) && AllNoLists(c.children)
    requires f.mode == Ordered
    ensures var r := RenderNode(f, c, env);
      var k := if c.children == [] then 0 else 1;
      !r.halted ==> Markers(r.packer.out) == Markers(f.packer.out) + Numbers(f.index, k) &&
                    r.index == f.index + k && r.mode == Ordered
  {
    var item := RenderListItem(f, c, env);
    BlockSteps(f, c, env);
    if c.children == [] {
      assert Numbers(f.index, 0) == [];
    } else {
      var f1 := Emit(InitLine(f), [Open(ListItemBox)]);
      EmitQuiet(InitLine(f), [Open(ListItemBox)]);
      var f2 := ItemMarker(f1);
      MarkerStep(f1);
      var g := Emit(f2, [Open(ItemContentBox)]);
      assert g == OpenItem(f);
      EmitQuiet(f2, [Open(ItemContentBox)]);
      ChildrenQuiet(g, c, 0, env);
      var h := RenderChildren(g, c, 0, env);
      assert item == if h.halted then h else Emit(FlushLine(h), [Close, Close]);
      if !h.halted {
        FlushQuiet(h);
        EmitQuiet(FlushLine(h), [Close, Close]);
        assert Markers(item.packer.out) == Markers(f.packer.out) + Numbers(f.index, 1);
      }
    }
  }

  /** In an ordered list the marker is the counter's decimal form. */
  lemma MarkerStep(f: Frame)
    requires f.mode == Ordered
    ensures Markers(ItemMarker(f).packer.out) == Markers(f.packer.out) + Numbers(f.index, 1)
    ensures ItemMarker(f).index == f.index + 1
  {
    MarkersAppend(f.packer.out, [Marker(Decimal(f.index))]);
    assert Markers([Marker(Decimal(f.index))]) == [Decimal(f.index)] == Numbers(f.index, 1);
  }

  lemma {:induction false} EntriesNumbered(f: Frame, parent: MarkdownNode, i: nat, env: Env)
    requires Ready(f, env) && !f.halted && parent.BlockNode? && AllRenderable(parent.children)
    requires i <= |parent.children| && FlatEntries(parent.children) && f.mode == Ordered
    ensures var r := RenderChildren(f, parent, i, env);
      var k := CountedItems(parent.children[i..]);
      !r.halted ==> Markers(r.packer.out) == Markers(f.packer.out) + Numbers(f.index, k) &&
                    r.index == f.index + k && r.mode == Ordered
    decreases |parent.children| - i
  {
    var cs := parent.children;
    if i < |cs| {
      assert cs[i..][1..] == cs[i + 1..];
      var c := cs[i];
      var f1 := RenderNode(f, c, env);
      if IsItem(c) {
        ItemNumbered(f, c, env);
      } else {
        NodeQuiet(f, c, env);
      }
      if !f1.halted {
        EntriesNumbered(f1, parent, i + 1, env);
        if IsItem(c) && c.children != [] {
          NumbersCons(f.index, CountedItems(cs[i + 1..]));
        }
      }
    } else {
      assert cs[i..] == [];
    }
  }

  /** An ordered list with start `S` whose `K` non-empty items hold no
      nested lists emits the markers `S`, `S + 1`, ..., `S + K - 1`, and
      gives back the counter and the mode it found. */
  lemma OrderedListNumbering(f: Frame, n: MarkdownNode, env: Env)
    requires Ready(f, env) && !f.halted && Renderable(n)
    requires n.BlockNode? && n.blockType == OrderedList && FlatEntries(n.children)
    ensures var r := RenderNode(f, n, env);
      !r.halted ==>
        Markers(r.packer.out) == Markers(f.packer.out) + Numbers(n.blockDetail.start, CountedItems(n.children)) &&
        r.index == f.index && r.mode == f.mode
  {
    var g := FlushLine(f.(mode := Ordered));
    var list := RenderOrderedList(g, n, env);
    BlockSteps(f, n, env);
    FlushQuiet(f.(mode := Ordered));
    if n.children != [] {
      var h := Emit(g.(index := n.blockDetail.start), [Open(OrderedListBox)]);
      EmitQuiet(g.(index := n.blockDetail.start), [Open(OrderedListBox)]);
      EntriesNumbered(h, n, 0, env);
      assert n.children[0..] == n.children;
      var e := RenderChildren(h, n, 0, env);
      if !e.halted {
        EmitQuiet(e, [Close]);
      }
    } else {
      assert Numbers(n.blockDetail.start, 0) == [];
    }
  }

  // ---------------------------------------------------------------------
  // Nested lists leave the outer counter and mode alone

  /** List items appear only as children of lists. */
  ghost predicate Nested(n: MarkdownNode)
    decreases n
  {
    match n
    case BlockNode(t, _, cs) =>
      t != ListItem && (if t == OrderedList || t == UnorderedList then AllEntries(cs) else AllNested(cs))
    case _ => true
  }

  ghost predicate AllNested(cs: seq<MarkdownNode>)
    decreases cs
  {
    forall k :: 0 <= k < |cs| ==> Nested(cs[k])
  }

  ghost predicate AllEntries(cs: seq<MarkdownNode>)
    decreases cs
  {
    forall k :: 0 <= k < |cs| ==> if IsItem(cs[k]) then AllNested(cs[k].children) else Nested(cs[k])
  }

  /** The counter moved on by `k` and the mode is back, unless the walk
      exited. */
  ghost predicate Counted(f: Frame, r: Frame, k: nat)
  {
    !r.halted ==> r.index == f.index + k && r.mode == f.mode
  }

  lemma {:induction false} NodeKeepsCounter(f: Frame, n: MarkdownNode, env: Env)
    requires Ready(f, env) && !f.halted && Renderable(n) && Nested(n)
    ensures Counted(f, RenderNode(f, n, env), 0)
    decreases n, 3, 0
  {
    match n
    case BlockNode(_, _, _) => BlockKeepsCounter(f, n, env);
    case SpanNode(t, d, _) =>
      if t == ImageSpan {
        ImageQuiet(f, d.src, env);
      } else {
        InlineQuiet(f, n, env);
      }
    case TextNode(_, _) => InlineQuiet(f, n, env);
  }

  /** A block other than a list item gives back the counter and the mode:
      an ordered list restores both explicitly, an unordered list numbers
      nothing, and every other block passes them through its children. */
  lemma {:induction false} BlockKeepsCounter(f: Frame, n: MarkdownNode, env: Env)
    requires Ready(f, env) && !f.halted && n.BlockNode? && Renderable(n) && Nested(n)
    ensures Counted(f, RenderBlock(f, n, env), 0)
    decreases n, 2, 0
  {
    BlockSteps(f, n, env);
    match n.blockType
    case ParagraphBlock =>
      ChildrenKeepCounter(InitLine(Emit(f, [Open(ParagraphBox)])), n, 0, env);
    case QuoteBlock =>
      ChildrenKeepCounter(Emit(f, [Open(QuoteBox)]), n, 0, env);
    case UnorderedList =>
      if n.children != [] {
        EntriesAdvanceCounter(Emit(FlushLine(f).(mode := Unordered), [Open(UnorderedListBox)]), n, 0, env);
      }
    case _ =>
  }

  lemma {:induction false} ChildrenKeepCounter(f: Frame, parent: MarkdownNode, i: nat, env: Env)
    requires Ready(f, env) && !f.halted && parent.BlockNode? && AllRenderable(parent.children)
    requires i <= |parent.children| && AllNested(parent.children)
    ensures Counted(f, RenderChildren(f, parent, i, env), 0)
    decreases parent, 0, |parent.children| - i
  {
    if i < |parent.children| {
      NodeKeepsCounter(f, parent.children[i], env);
      var f1 := RenderNode(f, parent.children[i], env);
      if !f1.halted {
        ChildrenKeepCounter(f1, parent, i + 1, env);
      }
    }
  }

  /** The children of a list move the counter on by one per non-empty
      item when the mode is ordered, and not at all otherwise, whatever
      lists the items hold. */
  lemma {:induction false} EntriesAdvanceCounter(f: Frame, parent: MarkdownNode, i: nat, env: Env)
    requires Ready(f, env) && !f.halted && parent.BlockNode? && AllRenderable(parent.children)
    requires i <= |parent.children| && AllEntries(parent.children)
    ensures Counted(f, RenderChildren(f, parent, i, env),
                    if f.mode == Ordered then CountedItems(parent.children[i..]) else 0)
    decreases parent, 0, |parent.children| - i
  {
    var cs := parent.children;
    if i < |cs| {
      assert cs[i..][1..] == cs[i + 1..];
      var c := cs[i];
      if IsItem(c) {
        ItemAdvancesCounter(f, c, env);
      } else {
        NodeKeepsCounter(f, c, env);
      }
      var f1 := RenderNode(f, c, env);
      if !f1.halted {
        EntriesAdvanceCounter(f1, parent, i + 1, env);
      }
    } else {
      assert cs[i..] == [];
    }
  }

  /** One list item takes one number in an ordered list, however deeply
      its content nests other lists. */
  lemma {:induction false} ItemAdvancesCounter(f: Frame, c: MarkdownNode, env: Env)
    requires Ready(f, env) && !f.halted && Renderable(c) && IsItem(c) && AllNested(c.children)
    ensures Counted(f, RenderNode(f, c, env), if f.mode == Ordered && c.children != [] then 1 else 0)
    decreases c, 3, 0
  {
    var item := RenderListItem(f, c, env);
    BlockSteps(f, c, env);
    if c.children != [] {
      ChildrenKeepCounter(OpenItem(f), c, 0, env);
    }
  }

  // ---------------------------------------------------------------------
  // Inline content

  /** A soft break becomes one regular space element of its own, which
      always fits because the line is below the budget; the text that
      follows is then pushed in the regular role. Plain text is pushed
      with nothing added. */
  lemma TextNodeContent(f: Frame, t: TextType, text: seq<Byte>, env: Env)
    requires Ready(f, env) && !f.halted
    ensures var r := RenderNode(f, TextNode(t, text), env);
      var p1 := Push(f.packer, [SPACE], BodyRegular, env.budget);
      !r.halted && r.mode == f.mode && r.index == f.index && r.images == f.images &&
      (t == SoftBreak ==> Elements(p1) == Elements(f.packer) + [TextElement([SPACE], BodyRegular)] &&
                          PushedAs(p1, r.packer, text, BodyRegular)) &&
      (t != SoftBreak ==> PushedAs(f.packer, r.packer, text, BodyRegular))
  {
    var p := f.packer;
    var p1 := Push(p, [SPACE], BodyRegular, env.budget);
    if t == SoftBreak {
      var q := MakeRoom(p);
      FlushKeepsElements(p);
      PlaceKeepsContent(q, [SPACE], BodyRegular, env.budget);
      PushKeepsContent(p1, text, BodyRegular, env.budget);
    } else {
      PushKeepsContent(p, text, BodyRegular, env.budget);
    }
  }

  /** Emphasis, strong emphasis and inline code push their first child's
      text, spaces at wrap points aside, in their own role; any other span,
      links included, and a span whose first child is not text change
      nothing. */
  lemma SpanContent(f: Frame, t: SpanType, d: SpanDetail, cs: seq<MarkdownNode>, env: Env)
    requires Ready(f, env) && !f.halted && t != ImageSpan
    ensures var r := RenderNode(f, SpanNode(t, d, cs), env);
      (SpanStyle(t).Some? && FirstChildIsText(cs) ==>
         r.mode == f.mode && r.index == f.index && r.images == f.images && !r.halted &&
         PushedAs(f.packer, r.packer, cs[0].text, SpanStyle(t).value)) &&
      (!(SpanStyle(t).Some? && FirstChildIsText(cs)) ==> r == f)
  {
    if SpanStyle(t).Some? && FirstChildIsText(cs) {
      PushKeepsContent(f.packer, cs[0].text, SpanStyle(t).value, env.budget);
    }
  }

  /** A heading emits its whole first text as one element in the role of
      its level, larger than body text, and leaves the pending line as it
      was. */
  lemma HeadingBypassesLine(f: Frame, n: MarkdownNode, env: Env)
    requires Ready(f, env) && !f.halted && Renderable(n) && n.BlockNode? && n.blockType == HeadingBlock
    ensures var r := RenderNode(f, n, env);
      var e := TextElement(n.children[0].text, HeadingStyle(n.blockDetail.level));
      !r.halted && r.mode == f.mode && r.index == f.index &&
      r.packer.pending == f.packer.pending && r.packer.chars == f.packer.chars &&
      r.packer.out == f.packer.out + [Open(HeadingBox), Text(e), Close] &&
      Config(e.style, BASE_FONT_SIZE).fontSize > Config(BodyRegular, BASE_FONT_SIZE).fontSize
  {
    BlockSteps(f, n, env);
    var level := n.blockDetail.level;
    HeadingSizesDecrease(1, if level == 0 then 5 else level, BASE_FONT_SIZE);
  }

  /** A paragraph leaves no pending line behind. */
  lemma ParagraphEndsLine(f: Frame, n: MarkdownNode, env: Env)
    requires Ready(f, env) && !f.halted && Renderable(n) && n.BlockNode? && n.blockType == ParagraphBlock
    ensures var r := RenderNode(f, n, env);
      !r.halted ==> r.packer.pending == [] && r.packer.chars == 0
  {
    var inner := RenderParagraph(f, n, env);
    BlockSteps(f, n, env);
  }

  // ---------------------------------------------------------------------
  // Images

  /** An image renders exactly when the cache finds or adds its path, as
      the picture when the file loaded and as the bold placeholder when it
      did not; a fatal lookup ends the process. */
  lemma ImageOutcome(f: Frame, src: seq<Byte>, cs: seq<MarkdownNode>, env: Env)
    requires Ready(f, env) && !f.halted
    ensures var res := FindOrLoad(f.images, src, |src|, env.files, env.strdupOk);
      var r := RenderNode(f, SpanNode(ImageSpan, ImageDetail(src), cs), env);
      (r.halted <==> !res.0.Found?) &&
      (res.0.Found? ==> r.images == res.1 && r.packer.pending == f.packer.pending) &&
      (res.0.Found? && res.1[res.0.index].loaded ==>
         r.packer.out == f.packer.out + [Open(ImageFrame), Picture(res.0.index), Close]) &&
      (res.0.Found? && !res.1[res.0.index].loaded ==>
         r.packer.out == f.packer.out + [Open(PlaceholderBox), Text(TextElement(PLACEHOLDER, BodyBold)), Close])
  {
  }

  /** Rendering the same image again in a later frame hits the cache: the
      cache and the declarations come out the same, whether or not
      `strdup` would succeed this time. */
  lemma ImageRerenderHits(f: Frame, src: seq<Byte>, cs: seq<MarkdownNode>, env: Env, strdupOk: bool)
    requires Ready(f, env) && !f.halted
    requires !RenderNode(f, SpanNode(ImageSpan, ImageDetail(src), cs), env).halted
    ensures var n := SpanNode(ImageSpan, ImageDetail(src), cs);
      var r := RenderNode(f, n, env);
      var g := f.(images := r.images);
      RenderNode(g, n, env.(strdupOk := strdupOk)) == RenderNode(f, n, env)
  {
    SecondLookupHits(f.images, src, |src|, env.files, env.strdupOk, strdupOk);
  }

  // ---------------------------------------------------------------------
  // The item marker buffer

  /** `char index[4]` in `render_list_item`. */
  const MARKER_BUFFER_AS_WRITTEN := 4

  /** Twelve bytes hold the decimal form of any 32-bit `int` and its NUL. */
  const MARKER_BUFFER := 12

  /** `sprintf(buffer, "%d", n)` stays inside a buffer of `size` bytes. */
  predicate SprintfFits(size: nat, n: nat)
  {
    |Decimal(n)| + 1 <= size
  }

  lemma {:induction false} DecimalWidthAtMost(n: nat, k: nat)
    requires 1 <= k && n < Pow10(k)
    ensures |Decimal(n)| <= k
    decreases k
  {
    assert Pow10(1) == 10;
    if n >= 10 {
      assert n / 10 < Pow10(k - 1);
      DecimalWidthAtMost(n / 10, k - 1);
    }
  }

  lemma {:induction false} DecimalWidthAtLeast(n: nat, k: nat)
    requires Pow10(k) <= n
    ensures |Decimal(n)| >= k + 1
    decreases k
  {
    if k > 0 {
      assert n >= 10;
      assert Pow10(k - 1) <= n / 10;
      DecimalWidthAtLeast(n / 10, k - 1);
    }
  }

  /** As written, the marker buffer holds the numbers below 1000 and no
      others: the thousandth item of a list (or a list starting at 1000)
      writes five bytes into four. */
  lemma AsWrittenMarkerFits(n: nat)
    ensures SprintfFits(MARKER_BUFFER_AS_WRITTEN, n) <==> n < 1000
  {
    assert Pow10(3) == 1000;
    if n < 1000 {
      DecimalWidthAtMost(n, 3);
    } else {
      DecimalWidthAtLeast(n, 3);
    }
  }

  lemma MarkerOverflowAt1000()
    ensures |Decimal(1000)| + 1 == 5
    ensures !SprintfFits(MARKER_BUFFER_AS_WRITTEN, 1000)
  {
    AsWrittenMarkerFits(1000);
    assert Pow10(3) == 1000 && Pow10(4) == 10000;
    DecimalLength(1000, 3);
  }

  /** With a twelve-byte buffer every marker an `int` counter can reach
      fits, which is what the walk's `Marker(Decimal(index))` assumes. */
  lemma CorrectedMarkerBufferFits(n: nat)
    requires n < 0x8000_0000
    ensures SprintfFits(MARKER_BUFFER, n)
  {
    assert Pow10(10) == 10_000_000_000 by {
      assert Pow10(2) == 100;
      assert Pow10(4) == 10_000;
      assert Pow10(6) == 1_000_000;
      assert Pow10(8) == 100_000_000;
    }
    DecimalWidthAtMost(n, 10);
  }
}
