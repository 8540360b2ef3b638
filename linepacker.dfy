/** The greedy line packer of the renderer (`textline_init`,
    `textline_flush`, `textline_push`) as functions on the packer state:
    the declarations emitted so far, the pending line, its byte count and
    the temporary buffers registered for the frame. */
module LinePacker {
  import opened Bytes
  import opened Styles
  import opened Layout

  /** `MAX_TEXT_ELEMENTS`: the capacity of the pending line. */
  const MAX_TEXT_ELEMENTS := 256

  datatype Packer = Packer(out: seq<Decl>, pending: seq<TextElement>, chars: int, temps: seq<seq<Byte>>)

  /** The bytes of a run of elements, counted as the packer counts them. */
  function SumLen(es: seq<TextElement>): nat
    decreases |es|
  {
    if es == [] then 0 else SumLen(es[..|es| - 1]) + |es[|es| - 1].text|
  }

  /** The state every push starts from and returns to: the pending line is
      below the budget and within capacity, and `char_count` is its size. */
  ghost predicate LineOk(p: Packer, budget: int)
  {
    0 <= p.chars < budget && |p.pending| <= MAX_TEXT_ELEMENTS && p.chars == SumLen(p.pending)
  }

  /** What a flushed row must satisfy. */
  ghost predicate RowFits(d: Decl, budget: int)
  {
    d.Row? && 1 <= |d.elements| <= MAX_TEXT_ELEMENTS && SumLen(d.elements) <= budget
  }

  /** `textline_init`: forget the pending line without emitting it. */
  function Init(p: Packer): (r: Packer)
    ensures r.pending == [] && r.chars == 0
    ensures r.out == p.out && r.temps == p.temps
  {
    p.(pending := [], chars := 0)
  }

  /** `textline_flush`: a no-op on an empty line; otherwise the pending
      elements become one row, in order, and the line is reset. */
  function Flush(p: Packer): (r: Packer)
    ensures p.pending == [] ==> r == p
    ensures p.pending != [] ==> r.out == p.out + [Row(p.pending)] && r.pending == [] && r.chars == 0
    ensures r.temps == p.temps
  {
    if |p.pending| == 0 then p else p.(out := p.out + [Row(p.pending)], pending := [], chars := 0)
  }

  /** The backward search of `textline_push`: the largest `i` in
      `1..room` with a space at `i - 1`, or -1 when there is none. */
  function LastSpace(src: seq<Byte>, room: int): (w: int)
    requires room <= |src|
    ensures w == -1 || 1 <= w <= room
    ensures w == -1 ==> forall i :: 0 <= i < room ==> src[i] != SPACE
    ensures w != -1 ==> src[w - 1] == SPACE && forall i :: w <= i < room ==> src[i] != SPACE
    decreases room
  {
    if room <= 0 then -1 else if src[room - 1] == SPACE then room else LastSpace(src, room - 1)
  }

  /** The first index at or after `start` that does not hold a space. */
  function SkipSpaces(src: seq<Byte>, start: nat): (k: nat)
    requires start <= |src|
    ensures start <= k <= |src|
    ensures forall i :: start <= i < k ==> src[i] == SPACE
    ensures k < |src| ==> src[k] != SPACE
    decreases |src| - start
  {
    if start < |src| && src[start] == SPACE then SkipSpaces(src, start + 1) else start
  }

  /** The flush `textline_push` does first when the line is at capacity. */
  function MakeRoom(p: Packer): (r: Packer)
    ensures |p.pending| < MAX_TEXT_ELEMENTS ==> r == p
    ensures |p.pending| >= MAX_TEXT_ELEMENTS ==> r == Flush(p)
  {
    if |p.pending| >= MAX_TEXT_ELEMENTS then Flush(p) else p
  }

  /** The normal push: the fragment becomes one more element of the line,
      and its NUL-terminated copy one more temporary buffer. */
  function Append(p: Packer, src: seq<Byte>, style: Style): (r: Packer)
    requires p.chars == SumLen(p.pending)
    ensures r.pending == p.pending + [TextElement(src, style)]
    ensures r.chars == p.chars + |src| == SumLen(r.pending)
    ensures r.out == p.out && r.temps == p.temps + [src + [NUL]]
  {
    var r := p.(pending := p.pending + [TextElement(src, style)], chars := p.chars + |src|,
                 temps := p.temps + [src + [NUL]]);
    assert r.pending[..|r.pending| - 1] == p.pending;
    r
  }

  /** `textline_push(src, |src|, style)` under the budget
      `g_available_characters`: make room when the line is at capacity,
      then place the fragment if it fits and handle an overflow otherwise.
      The line is left below the budget. */
  function Push(p: Packer, src: seq<Byte>, style: Style, budget: int): (r: Packer)
    requires budget >= 1 && LineOk(p, budget)
    ensures LineOk(r, budget)
    decreases |src|, p.chars, 2
  {
    var p1 := MakeRoom(p);
    if p1.chars + |src| > budget then Overflow(p1, src, style, budget) else Place(p1, src, style, budget)
  }

  /** The normal push of a fragment that fits, followed by the eager flush
      when it fills the line exactly. */
  function Place(p: Packer, src: seq<Byte>, style: Style, budget: int): (r: Packer)
    requires budget >= 1 && LineOk(p, budget)
    requires |p.pending| < MAX_TEXT_ELEMENTS && p.chars + |src| <= budget
    ensures LineOk(r, budget)
  {
    var p2 := Append(p, src, style);
    if p2.chars >= budget then Flush(p2) else p2
  }

  /** A fragment that overflows the line: wrap after the last space within
      the remaining room; with no such space, move a fragment that fits an
      empty line to a fresh line, and hard-split any other at the room. The
      recursion is on the same fragment only after a flush has emptied a
      non-empty line, and otherwise on a strictly shorter one. */
  function Overflow(p: Packer, src: seq<Byte>, style: Style, budget: int): (r: Packer)
    requires budget >= 1 && LineOk(p, budget)
    requires |p.pending| < MAX_TEXT_ELEMENTS && p.chars + |src| > budget
    ensures LineOk(r, budget)
    decreases |src|, p.chars, 1
  {
    var w := LastSpace(src, budget - p.chars);
    if w == -1 && |src| <= budget then Push(Flush(p), src, style, budget)
    else SplitAt(p, src, if w == -1 then budget - p.chars else w, style, budget)
  }

  /** Push `src[..cut]`, end the line, skip the spaces that follow the cut
      and push what is left, if anything. */
  function SplitAt(p: Packer, src: seq<Byte>, cut: int, style: Style, budget: int): (r: Packer)
    requires budget >= 1 && LineOk(p, budget) && 1 <= cut < |src|
    ensures LineOk(r, budget)
    decreases |src|, 0, 0
  {
    var p2 := Flush(Push(p, src[..cut], style, budget));
    var start := SkipSpaces(src, cut);
    if start < |src| then Push(p2, src[start..], style, budget) else p2
  }

  // ---------------------------------------------------------------------
  // Rows

  /** `after` extends `before` by rows that each fit the budget and the
      line capacity. */
  ghost predicate EmitsFittingRows(before: seq<Decl>, after: seq<Decl>, budget: int)
  {
    before <= after && forall k :: |before| <= k < |after| ==> RowFits(after[k], budget)
  }

  lemma EmitsFittingRowsTrans(a: seq<Decl>, b: seq<Decl>, c: seq<Decl>, budget: int)
    requires EmitsFittingRows(a, b, budget) && EmitsFittingRows(b, c, budget)
    ensures EmitsFittingRows(a, c, budget)
  {
  }

  /** Flushing a line within the budget and the capacity emits at most one
      fitting row. */
  lemma FlushEmitsFittingRow(p: Packer, budget: int)
    requires p.chars <= budget && |p.pending| <= MAX_TEXT_ELEMENTS && p.chars == SumLen(p.pending)
    ensures EmitsFittingRows(p.out, Flush(p).out, budget)
  {
  }

  /** Every row `textline_flush` emits during a push holds between 1 and
      `MAX_TEXT_ELEMENTS` elements whose bytes add up to at most the
      budget, and nothing already emitted changes. */
  lemma {:induction false} PushEmitsFittingRows(p: Packer, src: seq<Byte>, style: Style, budget: int)
    requires budget >= 1 && LineOk(p, budget)
    ensures EmitsFittingRows(p.out, Push(p, src, style, budget).out, budget)
    decreases |src|, p.chars, 2
  {
    var p1 := MakeRoom(p);
    FlushEmitsFittingRow(p, budget);
    var r := Push(p, src, style, budget);
    if p1.chars + |src| > budget {
      OverflowEmitsFittingRows(p1, src, style, budget);
    } else {
      FlushEmitsFittingRow(Append(p1, src, style), budget);
    }
    EmitsFittingRowsTrans(p.out, p1.out, r.out, budget);
  }

  lemma {:induction false} OverflowEmitsFittingRows(p: Packer, src: seq<Byte>, style: Style, budget: int)
    requires budget >= 1 && LineOk(p, budget)
    requires |p.pending| < MAX_TEXT_ELEMENTS && p.chars + |src| > budget
    ensures EmitsFittingRows(p.out, Overflow(p, src, style, budget).out, budget)
    decreases |src|, p.chars, 1
  {
    var w := LastSpace(src, budget - p.chars);
    if w == -1 && |src| <= budget {
      FlushEmitsFittingRow(p, budget);
      PushEmitsFittingRows(Flush(p), src, style, budget);
      EmitsFittingRowsTrans(p.out, Flush(p).out, Overflow(p, src, style, budget).out, budget);
    } else {
      SplitAtEmitsFittingRows(p, src, if w == -1 then budget - p.chars else w, style, budget);
    }
  }

  lemma {:induction false} SplitAtEmitsFittingRows(p: Packer, src: seq<Byte>, cut: int, style: Style, budget: int)
    requires budget >= 1 && LineOk(p, budget) && 1 <= cut < |src|
    ensures EmitsFittingRows(p.out, SplitAt(p, src, cut, style, budget).out, budget)
    decreases |src|, 0, 0
  {
    var q := Push(p, src[..cut], style, budget);
    PushEmitsFittingRows(p, src[..cut], style, budget);
    FlushEmitsFittingRow(q, budget);
    EmitsFittingRowsTrans(p.out, q.out, Flush(q).out, budget);
    var start := SkipSpaces(src, cut);
    if start < |src| {
      PushEmitsFittingRows(Flush(q), src[start..], style, budget);
      EmitsFittingRowsTrans(p.out, Flush(q).out, Push(Flush(q), src[start..], style, budget).out, budget);
    }
  }

  // ---------------------------------------------------------------------
  // Content

  /** The elements of the rows of a declaration stream, in order. */
  function RowElements(out: seq<Decl>): (es: seq<TextElement>)
    decreases |out|
  {
    if out == [] then []
    else RowElements(out[..|out| - 1]) + (if out[|out| - 1].Row? then out[|out| - 1].elements else [])
  }

  /** Every element pushed so far, emitted or pending, in order. */
  function Elements(p: Packer): seq<TextElement>
  {
    RowElements(p.out) + p.pending
  }

  /** The bytes of a run of elements, concatenated. */
  function Texts(es: seq<TextElement>): seq<Byte>
    decreases |es|
  {
    if es == [] then [] else es[0].text + Texts(es[1..])
  }

  /** The temporary buffers of a run of elements. */
  function Buffers(es: seq<TextElement>): (bs: seq<seq<Byte>>)
    ensures |bs| == |es|
  {
    seq(|es|, i requires 0 <= i < |es| => es[i].text + [NUL])
  }

  lemma {:induction false} TextsAppend(a: seq<TextElement>, b: seq<TextElement>)
    ensures Texts(a + b) == Texts(a) + Texts(b)
    decreases |a|
  {
    if a == [] {
      assert a + b == b;
    } else {
      assert (a + b)[0] == a[0];
      assert (a + b)[1..] == a[1..] + b;
      TextsAppend(a[1..], b);
    }
  }

  lemma FlushKeepsElements(p: Packer)
    ensures Elements(Flush(p)) == Elements(p)
  {
    if p.pending != [] {
      var out := p.out + [Row(p.pending)];
      assert out[..|out| - 1] == p.out;
    }
  }

  /** As written, a budget of 0 never finishes a push. On an empty line a
      fragment that does not start with a space overflows, holds no space
      within the room, does not fit an empty line, and is cut at 0. The
      head is empty: it is placed, reaches the budget and is flushed as a
      row with one empty element, whose buffer is one NUL. The tail after
      the cut is the whole fragment again, on an empty line again, so
      `textline_push` calls itself with the same arguments and the same
      line. */
  lemma ZeroBudgetRepeats(p: Packer, src: seq<Byte>, style: Style)
    requires p.pending == [] && p.chars == 0 && src != [] && src[0] != SPACE
    ensures p.chars + |src| > 0 && LastSpace(src, 0 - p.chars) == -1 && !(|src| <= 0)
    ensures src[..0] == [] && p.chars + 0 <= 0
    ensures var a := Append(p, [], style);
      a.chars >= 0 && Flush(a).pending == [] && Flush(a).chars == 0 &&
      Flush(a).out == p.out + [Row([TextElement([], style)])] && Flush(a).temps == p.temps + [[NUL]]
    ensures SkipSpaces(src, 0) == 0 && src[SkipSpaces(src, 0)..] == src
  {
    var e: seq<Byte> := [];
    assert e + [NUL] == [NUL];
  }

  // ---------------------------------------------------------------------
  // What a reader sees

  /** One symbol of the text shown: a byte of an element, or the end of a
      row. */
  datatype Sym = Ch(b: Byte) | Brk

  function Chars(s: seq<Byte>): (r: seq<Sym>)
    ensures |r| == |s| && forall i :: 0 <= i < |s| ==> r[i] == Ch(s[i])
  {
    seq(|s|, i requires 0 <= i < |s| => Ch(s[i]))
  }

  /** The rows of a declaration stream: each row's bytes, then a row end. */
  function RowStream(out: seq<Decl>): seq<Sym>
    decreases |out|
  {
    if out == [] then []
    else RowStream(out[..|out| - 1]) +
         (if out[|out| - 1].Row? then Chars(Texts(out[|out| - 1].elements)) + [Brk] else [])
  }

  /** Everything shown so far: the emitted rows, then the pending line. */
  function Stream(p: Packer): seq<Sym>
  {
    RowStream(p.out) + Chars(Texts(p.pending))
  }

  /** Where a reader of the shown text stands: just after a byte or not,
      and whether spaces of the fragment may be passed over here, which is
      only just after a row end that follows a byte. */
  datatype Reader = Reader(afterByte: bool, canSkip: bool)

  const START := Reader(false, false)

  function Step(st: Reader, s: Sym): Reader
  {
    if s.Ch? then Reader(true, false) else Reader(false, st.afterByte)
  }

  function End(st: Reader, s: seq<Sym>): Reader
    decreases |s|
  {
    if s == [] then st else End(Step(st, s[0]), s[1..])
  }

  /** `shown` spells `src` byte for byte, row ends aside, except that a run
      of spaces of `src` may be missing where the reader may skip. */
  predicate KeptFrom(src: seq<Byte>, shown: seq<Sym>, st: Reader)
    decreases |src| + |shown|
  {
    (st.canSkip && src != [] && src[0] == SPACE && KeptFrom(src[1..], shown, st)) ||
    (shown == [] && src == []) ||
    (shown != [] && shown[0].Brk? && KeptFrom(src, shown[1..], Step(st, shown[0]))) ||
    (shown != [] && shown[0].Ch? && src != [] && src[0] == shown[0].b &&
     KeptFrom(src[1..], shown[1..], Step(st, shown[0])))
  }

  /** `shown` spells `src`: every byte in order, and the only bytes missing
      are runs of spaces directly after a row end that follows a byte of
      `src`. */
  predicate Kept(src: seq<Byte>, shown: seq<Sym>)
  {
    KeptFrom(src, shown, START)
  }

  lemma Assoc(a: seq<Sym>, b: seq<Sym>, c: seq<Sym>)
    ensures (a + b) + c == a + (b + c)
  {
  }

  lemma CharsAppend(a: seq<Byte>, b: seq<Byte>)
    ensures Chars(a + b) == Chars(a) + Chars(b)
  {
  }

  lemma StreamAppend(p: Packer, src: seq<Byte>, style: Style)
    requires p.chars == SumLen(p.pending)
    ensures Stream(Append(p, src, style)) == Stream(p) + Chars(src)
  {
    var e := TextElement(src, style);
    TextsAppend(p.pending, [e]);
    assert Texts([e]) == src;
    CharsAppend(Texts(p.pending), src);
  }

  lemma StreamFlush(p: Packer)
    ensures Stream(Flush(p)) == Stream(p) + (if p.pending == [] then [] else [Brk])
  {
    if p.pending != [] {
      var out := p.out + [Row(p.pending)];
      assert out[..|out| - 1] == p.out;
      assert Chars(Texts([])) == [];
    }
  }

  lemma {:induction false} KeptChars(src: seq<Byte>, tail: seq<Sym>, st: Reader)
    requires tail == [] || tail == [Brk]
    ensures KeptFrom(src, Chars(src) + tail, st)
    decreases |src|
  {
    if src == [] {
      assert Chars(src) + tail == tail;
      if tail != [] {
        assert KeptFrom([], [], Step(st, Brk));
      }
    } else {
      var s := Chars(src) + tail;
      assert s[0] == Ch(src[0]);
      assert s[1..] == Chars(src[1..]) + tail;
      KeptChars(src[1..], tail, Step(st, s[0]));
    }
  }

  lemma LeadBreak(src: seq<Byte>, shown: seq<Sym>)
    requires Kept(src, shown)
    ensures Kept(src, [Brk] + shown)
  {
    assert ([Brk] + shown)[1..] == shown;
  }

  lemma {:induction false} KeptMono(src: seq<Byte>, shown: seq<Sym>, st: Reader, st2: Reader)
    requires KeptFrom(src, shown, st)
    requires (st.afterByte ==> st2.afterByte) && (st.canSkip ==> st2.canSkip)
    ensures KeptFrom(src, shown, st2)
    decreases |src| + |shown|
  {
    if st.canSkip && src != [] && src[0] == SPACE && KeptFrom(src[1..], shown, st) {
      KeptMono(src[1..], shown, st, st2);
    } else if shown == [] && src == [] {
    } else if shown != [] && shown[0].Brk? && KeptFrom(src, shown[1..], Step(st, shown[0])) {
      KeptMono(src, shown[1..], Step(st, shown[0]), Step(st2, shown[0]));
    } else {
      KeptMono(src[1..], shown[1..], Step(st, shown[0]), Step(st2, shown[0]));
    }
  }

  lemma {:induction false} SkipRun(gap: seq<Byte>, src: seq<Byte>, shown: seq<Sym>, st: Reader)
    requires st.canSkip && forall i :: 0 <= i < |gap| ==> gap[i] == SPACE
    requires KeptFrom(src, shown, st)
    ensures KeptFrom(gap + src, shown, st)
    decreases |gap|
  {
    if gap != [] {
      SkipRun(gap[1..], src, shown, st);
      var all := gap + src;
      assert all[0] == gap[0] == SPACE;
      assert all[1..] == gap[1..] + src;
      assert KeptFrom(all[1..], shown, st);
    } else {
      assert gap + src == src;
    }
  }

  lemma {:induction false} EndAppend(st: Reader, x: seq<Sym>, y: seq<Sym>)
    ensures End(st, x + y) == End(End(st, x), y)
    decreases |x|
  {
    if x == [] {
      assert x + y == y;
    } else {
      assert (x + y)[0] == x[0];
      assert (x + y)[1..] == x[1..] + y;
      EndAppend(Step(st, x[0]), x[1..], y);
    }
  }

  lemma {:induction false} KeptAppend(a: seq<Byte>, s: seq<Sym>, b: seq<Byte>, t: seq<Sym>, st: Reader)
    requires KeptFrom(a, s, st) && KeptFrom(b, t, End(st, s))
    ensures KeptFrom(a + b, s + t, st)
    decreases |a| + |s|
  {
    if st.canSkip && a != [] && a[0] == SPACE && KeptFrom(a[1..], s, st) {
      KeptAppend(a[1..], s, b, t, st);
      assert (a + b)[1..] == a[1..] + b;
    } else if s == [] && a == [] {
      assert a + b == b && s + t == t;
    } else if s != [] && s[0].Brk? && KeptFrom(a, s[1..], Step(st, s[0])) {
      KeptAppend(a, s[1..], b, t, Step(st, s[0]));
      assert (s + t)[1..] == s[1..] + t;
    } else {
      KeptAppend(a[1..], s[1..], b, t, Step(st, s[0]));
      assert (a + b)[1..] == a[1..] + b;
      assert (s + t)[1..] == s[1..] + t;
    }
  }

  /** After a byte and then a row end, the reader may skip spaces. */
  lemma EndAfterRowEnd(st: Reader, s: seq<Sym>)
    requires |s| >= 2 && s[|s| - 2].Ch? && s[|s| - 1] == Brk
    ensures End(st, s).canSkip
  {
    var pre, c := s[..|s| - 2], s[|s| - 2];
    assert s == pre + [c, Brk];
    EndAppend(st, pre, [c, Brk]);
    var x := End(st, pre);
    assert [c, Brk][1..] == [Brk] && [Brk][1..] == [];
    assert End(x, [c, Brk]) == End(Step(x, c), [Brk]) == End(Step(Step(x, c), Brk), []);
  }

  /** Without a row end, nothing may be skipped: the shown bytes are the
      fragment. */
  lemma {:induction false} KeptWithoutRowEnd(src: seq<Byte>, x: seq<Byte>, afterByte: bool)
    requires KeptFrom(src, Chars(x), Reader(afterByte, false))
    ensures src == x
    decreases |x|
  {
    if x != [] {
      assert Chars(x)[1..] == Chars(x[1..]);
      KeptWithoutRowEnd(src[1..], x[1..], true);
    }
  }

  /** A non-empty fragment is shown up to its end: its last shown symbol is
      a byte still on the pending line, or a byte followed by the end of the
      row it closed. */
  ghost predicate Closes(shown: seq<Sym>, r: Packer)
  {
    (|shown| >= 1 && shown[|shown| - 1].Ch? && r.pending != []) ||
    (|shown| >= 2 && shown[|shown| - 2].Ch? && shown[|shown| - 1] == Brk && r.pending == [])
  }

  lemma ClosesAfter(x: seq<Sym>, shown: seq<Sym>, r: Packer)
    requires Closes(shown, r)
    ensures Closes(x + shown, r)
  {
    var s := x + shown;
    assert s[|s| - 1] == shown[|shown| - 1];
    if |shown| >= 2 {
      assert s[|s| - 2] == shown[|shown| - 2];
    }
  }

  /** A row end shown before a fragment changes nothing of what it keeps. */
  lemma LeadShown(src: seq<Byte>, lead: seq<Sym>, rest: seq<Sym>, r: Packer)
    requires lead == [] || lead == [Brk]
    requires Kept(src, rest) && (src != [] ==> Closes(rest, r))
    ensures Kept(src, lead + rest) && (src != [] ==> Closes(lead + rest, r))
  {
    if lead == [] {
      assert lead + rest == rest;
    } else {
      LeadBreak(src, rest);
      if src != [] {
        ClosesAfter(lead, rest, r);
      }
    }
  }

  lemma {:induction false} PushShows(p: Packer, src: seq<Byte>, style: Style, budget: int) returns (shown: seq<Sym>)
    requires budget >= 1 && LineOk(p, budget)
    ensures Stream(Push(p, src, style, budget)) == Stream(p) + shown
    ensures Kept(src, shown)
    ensures src != [] ==> Closes(shown, Push(p, src, style, budget))
    decreases |src|, p.chars, 2
  {
    var p1 := MakeRoom(p);
    var r := Push(p, src, style, budget);
    StreamFlush(p);
    var lead: seq<Sym> := if |p.pending| >= MAX_TEXT_ELEMENTS then [Brk] else [];
    assert Stream(p1) == Stream(p) + lead;
    var rest;
    if p1.chars + |src| > budget {
      assert r == Overflow(p1, src, style, budget);
      rest := OverflowShows(p1, src, style, budget);
    } else {
      assert r == Place(p1, src, style, budget);
      rest := PlaceShows(p1, src, style, budget);
    }
    assert Stream(r) == Stream(p1) + rest;
    shown := lead + rest;
    Assoc(Stream(p), lead, rest);
    LeadShown(src, lead, rest, r);
  }

  lemma PlaceShows(p: Packer, src: seq<Byte>, style: Style, budget: int) returns (shown: seq<Sym>)
    requires budget >= 1 && LineOk(p, budget)
    requires |p.pending| < MAX_TEXT_ELEMENTS && p.chars + |src| <= budget
    ensures Stream(Place(p, src, style, budget)) == Stream(p) + shown
    ensures Kept(src, shown)
    ensures src != [] ==> Closes(shown, Place(p, src, style, budget))
  {
    var p2 := Append(p, src, style);
    StreamAppend(p, src, style);
    if p2.chars >= budget {
      StreamFlush(p2);
      shown := Chars(src) + [Brk];
      KeptChars(src, [Brk], START);
    } else {
      shown := Chars(src);
      KeptChars(src, [], START);
      assert Chars(src) + [] == Chars(src);
    }
  }

  lemma {:induction false} OverflowShows(p: Packer, src: seq<Byte>, style: Style, budget: int) returns (shown: seq<Sym>)
    requires budget >= 1 && LineOk(p, budget)
    requires |p.pending| < MAX_TEXT_ELEMENTS && p.chars + |src| > budget
    ensures Stream(Overflow(p, src, style, budget)) == Stream(p) + shown
    ensures Kept(src, shown)
    ensures src != [] ==> Closes(shown, Overflow(p, src, style, budget))
    decreases |src|, p.chars, 1
  {
    var w := LastSpace(src, budget - p.chars);
    if w == -1 && |src| <= budget {
      assert Overflow(p, src, style, budget) == Push(Flush(p), src, style, budget);
      StreamFlush(p);
      var rest := PushShows(Flush(p), src, style, budget);
      var lead: seq<Sym> := if p.pending == [] then [] else [Brk];
      shown := lead + rest;
      Assoc(Stream(p), lead, rest);
      LeadShown(src, lead, rest, Push(Flush(p), src, style, budget));
    } else {
      shown := SplitAtShows(p, src, if w == -1 then budget - p.chars else w, style, budget);
    }
  }

  /** Ending the row after the head of a split: what is shown so far ends
      with a byte of the head and then a row end. */
  lemma HeadRow(p: Packer, h: Packer, head: seq<Byte>, s1: seq<Sym>) returns (mid: seq<Sym>)
    requires Stream(h) == Stream(p) + s1
    requires head != [] && Kept(head, s1) && Closes(s1, h)
    ensures Stream(Flush(h)) == Stream(p) + mid
    ensures Kept(head, mid) && |mid| >= 2 && mid[|mid| - 2].Ch? && mid[|mid| - 1] == Brk
  {
    StreamFlush(h);
    var b3: seq<Sym> := if h.pending == [] then [] else [Brk];
    mid := s1 + b3;
    Assoc(Stream(p), s1, b3);
    if h.pending == [] {
      assert mid == s1;
    } else {
      assert KeptFrom([], [Brk], End(START, s1));
      KeptAppend(head, s1, [], [Brk], START);
      assert head + [] == head;
    }
  }

  lemma SplitParts(src: seq<Byte>, cut: nat, start: nat)
    requires cut <= start <= |src|
    ensures src == src[..cut] + src[cut..start] + src[start..]
  {
  }

  /** After a row end that follows a byte, the spaces of a gap may go
      unseen before the rest of the fragment. */
  lemma JoinAfterRowEnd(head: seq<Byte>, mid: seq<Sym>, gap: seq<Byte>, tail: seq<Byte>, s2: seq<Sym>)
    requires Kept(head, mid) && |mid| >= 2 && mid[|mid| - 2].Ch? && mid[|mid| - 1] == Brk
    requires forall i :: 0 <= i < |gap| ==> gap[i] == SPACE
    requires Kept(tail, s2)
    ensures Kept(head + gap + tail, mid + s2)
  {
    var e := End(START, mid);
    EndAfterRowEnd(START, mid);
    KeptMono(tail, s2, START, e);
    SkipRun(gap, tail, s2, e);
    KeptAppend(head, mid, gap + tail, s2, START);
    assert head + (gap + tail) == head + gap + tail;
  }

  /** A split shows the head, ends its row, skips the spaces after the cut
      and shows the rest. */
  lemma {:induction false} SplitAtShows(p: Packer, src: seq<Byte>, cut: int, style: Style, budget: int)
    returns (shown: seq<Sym>)
    requires budget >= 1 && LineOk(p, budget) && 1 <= cut < |src|
    ensures Stream(SplitAt(p, src, cut, style, budget)) == Stream(p) + shown
    ensures Kept(src, shown)
    ensures Closes(shown, SplitAt(p, src, cut, style, budget))
    decreases |src|, 0, 0
  {
    var head := src[..cut];
    var h := Push(p, head, style, budget);
    var s1 := PushShows(p, head, style, budget);
    var f := Flush(h);
    var mid := HeadRow(p, h, head, s1);
    var start := SkipSpaces(src, cut);
    var gap, tail := src[cut..start], src[start..];
    SplitParts(src, cut, start);
    var r := SplitAt(p, src, cut, style, budget);
    if start < |src| {
      assert r == Push(f, tail, style, budget);
      var s2 := PushShows(f, tail, style, budget);
      JoinAfterRowEnd(head, mid, gap, tail, s2);
      shown := mid + s2;
      Assoc(Stream(p), mid, s2);
      ClosesAfter(mid, s2, r);
    } else {
      assert r == f && tail == [];
      JoinAfterRowEnd(head, mid, gap, [], []);
      shown := mid;
      assert mid + [] == mid;
    }
  }

  // ---------------------------------------------------------------------
  // Content kept by a push

  /** What a push adds to the elements: the new state's elements extend the
      old ones by a run in the fragment's style, and the temporary buffers
      record exactly that run. */
  ghost predicate Added(p: Packer, r: Packer, style: Style)
  {
    var before := Elements(p);
    var after := Elements(r);
    before <= after &&
    (forall k :: |before| <= k < |after| ==> after[k].style == style) &&
    r.temps == p.temps + Buffers(after[|before|..])
  }

  /** What a push of `src` does to the packer: it adds elements in the
      fragment's style, each backed by its own buffer, and what is shown
      grows by symbols that spell the fragment, with spaces missing only
      right after a row end that follows one of its bytes. */
  ghost predicate PushedAs(p: Packer, r: Packer, src: seq<Byte>, style: Style)
  {
    Added(p, r, style) && Stream(p) <= Stream(r) && Kept(src, Stream(r)[|Stream(p)|..])
  }

  lemma AddedTrans(p: Packer, q: Packer, r: Packer, style: Style)
    requires Added(p, q, style) && Added(q, r, style)
    ensures Added(p, r, style)
  {
    var e0, e1, e2 := Elements(p), Elements(q), Elements(r);
    var first, second := e1[|e0|..], e2[|e1|..];
    assert e2[|e0|..] == first + second;
    assert Buffers(first + second) == Buffers(first) + Buffers(second);
  }

  lemma {:induction false} PushAdds(p: Packer, src: seq<Byte>, style: Style, budget: int)
    requires budget >= 1 && LineOk(p, budget)
    ensures Added(p, Push(p, src, style, budget), style)
    decreases |src|, p.chars, 2
  {
    var p1 := MakeRoom(p);
    FlushKeepsElements(p);
    assert Elements(p1) == Elements(p) && p1.temps == p.temps;
    if p1.chars + |src| > budget {
      OverflowAdds(p1, src, style, budget);
    } else {
      PlaceAdds(p1, src, style, budget);
    }
  }

  lemma PlaceAdds(p: Packer, src: seq<Byte>, style: Style, budget: int)
    requires budget >= 1 && LineOk(p, budget)
    requires |p.pending| < MAX_TEXT_ELEMENTS && p.chars + |src| <= budget
    ensures Elements(Place(p, src, style, budget)) == Elements(p) + [TextElement(src, style)]
    ensures Added(p, Place(p, src, style, budget), style)
  {
    var e := TextElement(src, style);
    var p2 := Append(p, src, style);
    var r := Place(p, src, style, budget);
    assert Elements(p2) == Elements(p) + [e];
    if p2.chars >= budget {
      FlushKeepsElements(p2);
    }
    assert Elements(r) == Elements(p) + [e] && r.temps == p2.temps;
    var added := Elements(r)[|Elements(p)|..];
    assert added == [e];
    assert Buffers(added) == [src + [NUL]];
  }

  lemma {:induction false} OverflowAdds(p: Packer, src: seq<Byte>, style: Style, budget: int)
    requires budget >= 1 && LineOk(p, budget)
    requires |p.pending| < MAX_TEXT_ELEMENTS && p.chars + |src| > budget
    ensures Added(p, Overflow(p, src, style, budget), style)
    decreases |src|, p.chars, 1
  {
    var w := LastSpace(src, budget - p.chars);
    if w == -1 && |src| <= budget {
      FlushKeepsElements(p);
      PushAdds(Flush(p), src, style, budget);
    } else {
      SplitAtAdds(p, src, if w == -1 then budget - p.chars else w, style, budget);
    }
  }

  lemma {:induction false} SplitAtAdds(p: Packer, src: seq<Byte>, cut: int, style: Style, budget: int)
    requires budget >= 1 && LineOk(p, budget) && 1 <= cut < |src|
    ensures Added(p, SplitAt(p, src, cut, style, budget), style)
    decreases |src|, 0, 0
  {
    var q := Push(p, src[..cut], style, budget);
    PushAdds(p, src[..cut], style, budget);
    FlushKeepsElements(q);
    var p2 := Flush(q);
    assert Added(q, p2, style) by {
      assert Elements(p2)[|Elements(q)|..] == [];
    }
    AddedTrans(p, q, p2, style);
    var start := SkipSpaces(src, cut);
    if start < |src| {
      PushAdds(p2, src[start..], style, budget);
      AddedTrans(p, p2, SplitAt(p, src, cut, style, budget), style);
    }
  }

  /** Content preservation: every byte of the fragment is shown, emitted or
      pending, in order and in the fragment's style; the only bytes missing
      are the spaces skipped right after the row a wrap ends. Every element
      is backed by its own temporary buffer. */
  lemma PushKeepsContent(p: Packer, src: seq<Byte>, style: Style, budget: int)
    requires budget >= 1 && LineOk(p, budget)
    ensures PushedAs(p, Push(p, src, style, budget), src, style)
  {
    var r := Push(p, src, style, budget);
    PushAdds(p, src, style, budget);
    var shown := PushShows(p, src, style, budget);
    assert Stream(r)[|Stream(p)|..] == shown;
  }

  lemma PlaceKeepsContent(p: Packer, src: seq<Byte>, style: Style, budget: int)
    requires budget >= 1 && LineOk(p, budget)
    requires |p.pending| < MAX_TEXT_ELEMENTS && p.chars + |src| <= budget
    ensures Elements(Place(p, src, style, budget)) == Elements(p) + [TextElement(src, style)]
    ensures PushedAs(p, Place(p, src, style, budget), src, style)
  {
    var r := Place(p, src, style, budget);
    PlaceAdds(p, src, style, budget);
    var shown := PlaceShows(p, src, style, budget);
    assert Stream(r)[|Stream(p)|..] == shown;
  }

  lemma OverflowKeepsContent(p: Packer, src: seq<Byte>, style: Style, budget: int)
    requires budget >= 1 && LineOk(p, budget)
    requires |p.pending| < MAX_TEXT_ELEMENTS && p.chars + |src| > budget
    ensures PushedAs(p, Overflow(p, src, style, budget), src, style)
  {
    var r := Overflow(p, src, style, budget);
    OverflowAdds(p, src, style, budget);
    var shown := OverflowShows(p, src, style, budget);
    assert Stream(r)[|Stream(p)|..] == shown;
  }

  /** A split shows the head, ends the row there, and shows the tail after
      the cut with at most the spaces that directly follow that row end
      missing. */
  lemma SplitAtKeepsContent(p: Packer, src: seq<Byte>, cut: int, style: Style, budget: int)
    requires budget >= 1 && LineOk(p, budget) && 1 <= cut < |src|
    ensures var h := Flush(Push(p, src[..cut], style, budget));
      PushedAs(p, h, src[..cut], style) && h.pending == [] &&
      Stream(h) <= Stream(SplitAt(p, src, cut, style, budget))
    ensures PushedAs(p, SplitAt(p, src, cut, style, budget), src, style)
  {
    var r := SplitAt(p, src, cut, style, budget);
    SplitAtAdds(p, src, cut, style, budget);
    var shown := SplitAtShows(p, src, cut, style, budget);
    assert Stream(r)[|Stream(p)|..] == shown;
    var head := src[..cut];
    var q := Push(p, head, style, budget);
    var h := Flush(q);
    PushAdds(p, head, style, budget);
    FlushKeepsElements(q);
    assert Elements(h)[|Elements(q)|..] == [];
    AddedTrans(p, q, h, style);
    var s1 := PushShows(p, head, style, budget);
    var mid := HeadRow(p, q, head, s1);
    assert Stream(h)[|Stream(p)|..] == mid;
    var start := SkipSpaces(src, cut);
    if start < |src| {
      assert r == Push(h, src[start..], style, budget);
      var s2 := PushShows(h, src[start..], style, budget);
    } else {
      assert r == h;
    }
  }

  /** When a push emits no row, nothing of the fragment is missing: the new
      elements spell it exactly. */
  lemma NoRowNothingDropped(p: Packer, r: Packer, src: seq<Byte>, style: Style)
    requires PushedAs(p, r, src, style) && r.out == p.out
    ensures Texts(Elements(r)[|Elements(p)|..]) == src
  {
    var added := Elements(r)[|Elements(p)|..];
    var rows := RowElements(p.out);
    assert Elements(r) == Elements(p) + added;
    assert Elements(r) == rows + r.pending;
    assert Elements(p) + added == rows + (p.pending + added);
    assert (rows + r.pending)[|rows|..] == r.pending;
    assert (rows + (p.pending + added))[|rows|..] == p.pending + added;
    TextsAppend(p.pending, added);
    CharsAppend(Texts(p.pending), Texts(added));
    assert Stream(r)[|Stream(p)|..] == Chars(Texts(added));
    KeptWithoutRowEnd(src, Texts(added), false);
  }

  // ---------------------------------------------------------------------
  // Split rules

  /** A fragment that fits the room left on a line with free capacity
      becomes exactly one element; the line is emitted at once when the
      fragment fills it exactly. */
  lemma FragmentThatFits(p: Packer, src: seq<Byte>, style: Style, budget: int)
    requires budget >= 1 && LineOk(p, budget)
    requires |p.pending| < MAX_TEXT_ELEMENTS && p.chars + |src| <= budget
    ensures var r := Push(p, src, style, budget);
      Elements(r) == Elements(p) + [TextElement(src, style)] &&
      (p.chars + |src| < budget ==> r.out == p.out && r.pending == p.pending + [TextElement(src, style)]) &&
      (p.chars + |src| == budget ==> r.out == p.out + [Row(p.pending + [TextElement(src, style)])] && r.pending == [])
  {
    PlaceKeepsContent(p, src, style, budget);
  }

  /** A non-empty line holds at least one element. */
  lemma BytesNeedElements(p: Packer)
    requires p.chars == SumLen(p.pending) && p.chars > 0
    ensures p.pending != []
  {
  }

  /** Word boundary: with a space inside the room, the first row emitted is
      the pending line followed by the fragment up to and including the
      last such space. */
  lemma WrapAtLastSpace(p: Packer, src: seq<Byte>, style: Style, budget: int)
    requires budget >= 1 && LineOk(p, budget)
    requires |p.pending| < MAX_TEXT_ELEMENTS && p.chars + |src| > budget
    requires LastSpace(src, budget - p.chars) != -1
    ensures var w := LastSpace(src, budget - p.chars);
      var r := Push(p, src, style, budget);
      src[w - 1] == SPACE && (forall i :: w <= i < budget - p.chars ==> src[i] != SPACE) &&
      |r.out| > |p.out| && r.out[|p.out|] == Row(p.pending + [TextElement(src[..w], style)])
  {
    var w := LastSpace(src, budget - p.chars);
    FirstRowOfSplit(p, src, w, style, budget);
  }

  /** No space and a fragment no longer than the budget: the pending line
      is emitted as it is and the whole fragment starts a fresh line. */
  lemma MoveToFreshLine(p: Packer, src: seq<Byte>, style: Style, budget: int)
    requires budget >= 1 && LineOk(p, budget)
    requires |p.pending| < MAX_TEXT_ELEMENTS && p.chars + |src| > budget
    requires LastSpace(src, budget - p.chars) == -1 && |src| <= budget
    ensures var r := Push(p, src, style, budget);
      var e := TextElement(src, style);
      (|src| < budget ==> r.out == p.out + [Row(p.pending)] && r.pending == [e]) &&
      (|src| == budget ==> r.out == p.out + [Row(p.pending), Row([e])] && r.pending == [])
  {
    BytesNeedElements(p);
    FragmentThatFits(Flush(p), src, style, budget);
  }

  /** No space and a fragment longer than the budget: the first row emitted
      is the pending line followed by exactly as many bytes of the fragment
      as fill it to the budget. */
  lemma HardSplit(p: Packer, src: seq<Byte>, style: Style, budget: int)
    requires budget >= 1 && LineOk(p, budget)
    requires |p.pending| < MAX_TEXT_ELEMENTS
    requires |src| > budget && LastSpace(src, budget - p.chars) == -1
    ensures var r := Push(p, src, style, budget);
      |r.out| > |p.out| && r.out[|p.out|] == Row(p.pending + [TextElement(src[..budget - p.chars], style)]) &&
      SumLen(r.out[|p.out|].elements) == budget
  {
    FirstRowOfSplit(p, src, budget - p.chars, style, budget);
    var row := p.pending + [TextElement(src[..budget - p.chars], style)];
    assert row[..|row| - 1] == p.pending;
  }

  lemma FirstRowOfSplit(p: Packer, src: seq<Byte>, cut: int, style: Style, budget: int)
    requires budget >= 1 && LineOk(p, budget)
    requires |p.pending| < MAX_TEXT_ELEMENTS && 1 <= cut < |src| && p.chars + cut <= budget
    ensures var r := SplitAt(p, src, cut, style, budget);
      |r.out| > |p.out| && r.out[|p.out|] == Row(p.pending + [TextElement(src[..cut], style)])
  {
    var q := Push(p, src[..cut], style, budget);
    FragmentThatFits(p, src[..cut], style, budget);
    var p2 := Flush(q);
    assert p2.out == p.out + [Row(p.pending + [TextElement(src[..cut], style)])];
    var start := SkipSpaces(src, cut);
    if start < |src| {
      PushEmitsFittingRows(p2, src[start..], style, budget);
    }
  }

  // ---------------------------------------------------------------------
  // A worked case: `"word "` twenty times under a budget of 20

  function Repeat(c: seq<Byte>, k: nat): (r: seq<Byte>)
    ensures |r| == k * |c|
    decreases k
  {
    if k == 0 then [] else c + Repeat(c, k - 1)
  }

  function RepeatRows(e: TextElement, k: nat): (rows: seq<Decl>)
    ensures |rows| == k
    decreases k
  {
    if k == 0 then [] else [Row([e])] + RepeatRows(e, k - 1)
  }

  /** A fragment made of `k >= 1` copies of a budget-sized chunk that starts
      with a non-space and ends with a space, pushed onto an empty line,
      becomes `k` rows of one chunk each. */
  lemma {:induction false} ChunksBecomeRows(p: Packer, c: seq<Byte>, k: nat, style: Style, budget: int)
    requires budget >= 1 && p.pending == [] && p.chars == 0
    requires |c| == budget && c[0] != SPACE && c[|c| - 1] == SPACE && k >= 1
    ensures var r := Push(p, Repeat(c, k), style, budget);
      r.out == p.out + RepeatRows(TextElement(c, style), k) && r.pending == []
    decreases k
  {
    var src := Repeat(c, k);
    var e := TextElement(c, style);
    FragmentThatFits(p, c, style, budget);
    var q := Push(p, c, style, budget);
    assert q.out == p.out + [Row([e])] && q.pending == [];
    if k == 1 {
      assert src == c + [] == c;
      assert RepeatRows(e, 1) == [Row([e])];
    } else {
      var rest := Repeat(c, k - 1);
      assert rest == c + Repeat(c, k - 2);
      ChunkThenRest(p, c, rest, style, budget);
      ChunksBecomeRows(q, c, k - 1, style, budget);
      assert p.out + [Row([e])] + RepeatRows(e, k - 1) == p.out + RepeatRows(e, k);
    }
  }

  /** One budget-sized chunk ending in a space, followed by a non-space:
      the push wraps exactly after the chunk. */
  lemma ChunkThenRest(p: Packer, c: seq<Byte>, rest: seq<Byte>, style: Style, budget: int)
    requires budget >= 1 && p.pending == [] && p.chars == 0
    requires |c| == budget && c[|c| - 1] == SPACE && rest != [] && rest[0] != SPACE
    ensures Push(p, c + rest, style, budget) == Push(Push(p, c, style, budget), rest, style, budget)
  {
    var src := c + rest;
    assert src[..budget] == c && src[budget..] == rest;
    assert src[budget - 1] == SPACE && src[budget] != SPACE;
    FragmentThatFits(p, c, style, budget);
    var q := Push(p, c, style, budget);
    calc {
      Push(p, src, style, budget);
      { assert MakeRoom(p) == p; }
      Overflow(p, src, style, budget);
      { assert LastSpace(src, budget) == budget; }
      SplitAt(p, src, budget, style, budget);
      { assert Flush(q) == q; assert SkipSpaces(src, budget) == budget; }
      Push(q, rest, style, budget);
    }
  }

  lemma {:induction false} RepeatAdd(c: seq<Byte>, a: nat, b: nat)
    ensures Repeat(c, a + b) == Repeat(c, a) + Repeat(c, b)
    decreases a
  {
    if a == 0 {
      assert Repeat(c, a) == [];
    } else {
      calc {
        Repeat(c, a + b);
        c + Repeat(c, (a - 1) + b);
        { RepeatAdd(c, a - 1, b); }
        c + (Repeat(c, a - 1) + Repeat(c, b));
        Repeat(c, a) + Repeat(c, b);
      }
    }
  }

  lemma {:induction false} RepeatNested(c: seq<Byte>, m: nat, n: nat)
    ensures Repeat(c, m * n) == Repeat(Repeat(c, m), n)
    decreases n
  {
    if n > 0 {
      assert m * n == m + m * (n - 1);
      RepeatAdd(c, m, m * (n - 1));
      RepeatNested(c, m, n - 1);
    }
  }

  /** The bytes of `"word "`. */
  const WORD: seq<Byte> := [0x77, 0x6F, 0x72, 0x64, SPACE]

  /** `"word "` repeated twenty times (100 bytes) under a budget of 20
      becomes five rows of `"word word word word "`, each ending exactly
      at a space and none longer than 20 bytes. */
  lemma TwentyWords(style: Style)
    ensures var r := Push(Packer([], [], 0, []), Repeat(WORD, 20), style, 20);
      r.out == RepeatRows(TextElement(Repeat(WORD, 4), style), 5) && r.pending == []
  {
    var chunk := Repeat(WORD, 4);
    assert chunk == WORD + WORD + WORD + WORD;
    RepeatNested(WORD, 4, 5);
    ChunksBecomeRows(Packer([], [], 0, []), chunk, 5, style, 20);
  }
}
