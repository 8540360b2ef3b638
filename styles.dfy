/** The style table of the renderer (the `g_font_*` text configurations
    rebuilt by `reset_font_styles`), the heading and span style choices,
    the per-frame character budget and the font-size keys. */
module Styles {
  import opened Md4c

  /** The semantic roles of the style table. */
  datatype Style = BodyRegular | BodyItalic | BodyBold | H1 | H2 | H3 | H4 | H5 | InlineCodeStyle

  /** `FontId`, in declaration order. */
  datatype FontId = FontRegular | FontItalic | FontSemibold | FontSemiboldItalic | FontBold | FontExtraBold | FontEmoji

  datatype Color = Foreground | Blue

  datatype TextConfig = TextConfig(fontId: FontId, fontSize: int, color: Color)

  const BASE_FONT_SIZE := 22

  predicate IsHeading(s: Style)
  {
    s == H1 || s == H2 || s == H3 || s == H4 || s == H5
  }

  /** The configuration of each role for a base font size. */
  function Config(s: Style, base: int): (c: TextConfig)
    ensures c.color == (if s == InlineCodeStyle then Blue else Foreground)
    ensures !IsHeading(s) ==> c.fontSize == base
  {
    match s
    case BodyRegular => TextConfig(FontRegular, base, Foreground)
    case BodyItalic => TextConfig(FontItalic, base, Foreground)
    case BodyBold => TextConfig(FontBold, base, Foreground)
    case H1 => TextConfig(FontExtraBold, base + 14, Foreground)
    case H2 => TextConfig(FontExtraBold, base + 12, Foreground)
    case H3 => TextConfig(FontExtraBold, base + 6, Foreground)
    case H4 => TextConfig(FontBold, base + 4, Foreground)
    case H5 => TextConfig(FontItalic, base + 2, Foreground)
    case InlineCodeStyle => TextConfig(FontRegular, base, Blue)
  }

  /** The heading switch of `render_heading`: levels 1 to 4 have their own
      role, every other level falls to the fifth. */
  function HeadingStyle(level: nat): (s: Style)
    ensures IsHeading(s)
    ensures s == H5 <==> level == 0 || level >= 5
  {
    match level
    case 1 => H1
    case 2 => H2
    case 3 => H3
    case 4 => H4
    case _ => H5
  }

  /** Deeper headings are never drawn larger, and every heading is larger
      than body text. */
  lemma HeadingSizesDecrease(a: nat, b: nat, base: int)
    requires 1 <= a <= b
    ensures Config(HeadingStyle(a), base).fontSize >= Config(HeadingStyle(b), base).fontSize
    ensures Config(HeadingStyle(b), base).fontSize > Config(BodyRegular, base).fontSize
  {
  }

  /** The span switch of `render_text_node`: emphasis, strong emphasis and
      inline code are drawn in their role; every other span (links,
      strikethrough, ...) draws nothing. */
  function SpanStyle(t: SpanType): (s: Option<Style>)
    ensures s.Some? <==> t == Emphasis || t == Strong || t == InlineCode
    ensures s.Some? ==> !IsHeading(s.value) && s.value != BodyRegular
  {
    match t
    case Emphasis => Some(BodyItalic)
    case Strong => Some(BodyBold)
    case InlineCode => Some(InlineCodeStyle)
    case _ => None
  }

  datatype Option<T> = None | Some(value: T)

  /** C's `/` on `int`: the quotient truncated toward zero. */
  function CDiv(a: int, b: int): (q: int)
    requires b != 0
    ensures b > 0 && a >= 0 ==> q == a / b
  {
    if (a >= 0) == (b > 0) then
      (if a >= 0 then a / b else (-a) / (-b))
    else
      -((if a >= 0 then a else -a) / (if b > 0 then b else -b))
  }

  /** Whether `font_size / 2` is non-zero, so that the budget is defined. */
  predicate BudgetDefined(fontSize: int)
  {
    CDiv(fontSize, 2) != 0
  }

  lemma {:induction false} BudgetDefinedIff(fontSize: int)
    ensures BudgetDefined(fontSize) <==> fontSize >= 2 || fontSize <= -2
  {
    if -2 < fontSize < 2 {
      assert CDiv(fontSize, 2) == 0;
    } else if fontSize >= 2 {
      assert CDiv(fontSize, 2) >= 1;
    } else {
      assert CDiv(fontSize, 2) == -((-fontSize) / 2);
    }
  }

  /** `g_available_characters = screen_width / (font_size / 2) - 1`. */
  function Budget(screenWidth: int, fontSize: int): int
    requires BudgetDefined(fontSize)
  {
    CDiv(screenWidth, CDiv(fontSize, 2)) - 1
  }

  /** As written, a window 21 pixels wide at the default size leaves a
      budget of 0 bytes per line. */
  lemma NarrowWindowGivesZeroBudget()
    ensures BudgetDefined(BASE_FONT_SIZE) && Budget(21, BASE_FONT_SIZE) == 0
  {
    assert CDiv(BASE_FONT_SIZE, 2) == 11;
    assert CDiv(21, 11) == 1;
  }

  /** A window at least as wide as the font size leaves room for at least
      one byte per line; for smaller or negative widths the budget can be
      zero or negative. */
  lemma {:induction false} BudgetPositive(screenWidth: int, fontSize: int)
    requires fontSize >= 2 && screenWidth >= fontSize
    ensures BudgetDefined(fontSize)
    ensures Budget(screenWidth, fontSize) >= 1
  {
    var half := fontSize / 2;
    assert CDiv(fontSize, 2) == half && half >= 1;
    assert screenWidth >= 2 * half;
    assert CDiv(screenWidth, half) == screenWidth / half;
    DivAtLeast(screenWidth, half, 2);
  }

  lemma DivAtLeast(a: int, b: int, k: int)
    requires b > 0 && k >= 0 && a >= k * b
    ensures a / b >= k
  {
    var q, r := a / b, a % b;
    assert a == q * b + r && 0 <= r < b;
    if q < k {
      MulMonotonic(q + 1, k, b);
      assert false;
    }
  }

  lemma MulMonotonic(x: int, y: int, b: int)
    requires x <= y && b >= 0
    ensures x * b <= y * b
  {
    assert y * b - x * b == (y - x) * b;
  }

  /** A wider window never shrinks the budget; a larger font never widens it. */
  lemma {:induction false} BudgetMonotonic(w1: int, w2: int, f1: int, f2: int)
    requires 0 <= w1 <= w2 && 2 <= f2 <= f1
    ensures Budget(w1, f1) <= Budget(w2, f2)
  {
    var h1, h2 := f1 / 2, f2 / 2;
    assert CDiv(f1, 2) == h1 && CDiv(f2, 2) == h2 && 1 <= h2 <= h1;
    assert CDiv(w1, h1) == w1 / h1 && CDiv(w2, h2) == w2 / h2;
    DivMonotonic(w1, w2, h1, h2);
  }

  lemma DivMonotonic(a1: int, a2: int, b1: int, b2: int)
    requires 0 <= a1 <= a2 && 1 <= b2 <= b1
    ensures a1 / b1 <= a2 / b2
  {
    var q := a1 / b1;
    assert q >= 0;
    assert a1 == q * b1 + a1 % b1;
    MulMonotonic(b2, b1, q);
    assert b2 * q <= b1 * q;
    assert q * b2 <= a2;
    DivAtLeast(a2, b2, q);
  }

  /** The keys pressed in one pass of the main loop: `IsKeyPressed`
      reports a key only in the frame its press begins, so a key kept down
      acts in that frame alone. It is asked again inside `update_frame` in
      the same frame, so each press acts twice. */
  datatype Keys = Keys(equal: bool, minus: bool, zero: bool)

  /** The base font size after one frame, as written: the main loop adds
      or removes 1 and resets on `0`, then `update_frame` adds or removes 2. */
  function FrameFontSize(size: int, k: Keys): (r: int)
    ensures k == Keys(false, false, false) ==> r == size
    ensures k.equal && !k.minus && !k.zero ==> r == size + 3
    ensures k.minus && !k.equal && !k.zero ==> r == size - 3
    ensures k.zero && !k.equal && !k.minus ==> r == BASE_FONT_SIZE
  {
    UpdateFrameFontSize(MainLoopFontSize(size, k), k)
  }

  /** The keys as `start_main_loop` handles them: `=` adds 1, `-` removes
      1, `0` restores the default. */
  function MainLoopFontSize(size: int, k: Keys): (r: int)
    ensures k.zero ==> r == BASE_FONT_SIZE
    ensures !k.zero ==> r == size + (if k.equal then 1 else 0) - (if k.minus then 1 else 0)
  {
    var s1 := if k.equal then size + 1 else size;
    var s2 := if k.minus then s1 - 1 else s1;
    if k.zero then BASE_FONT_SIZE else s2
  }

  /** The keys as `update_frame` handles them: `=` adds 2, `-` removes 2. */
  function UpdateFrameFontSize(size: int, k: Keys): (r: int)
    ensures r == size + (if k.equal then 2 else 0) - (if k.minus then 2 else 0)
  {
    var s1 := if k.equal then size + 2 else size;
    if k.minus then s1 - 2 else s1
  }

  function RunFrames(size: int, frames: seq<Keys>): int
    decreases |frames|
  {
    if frames == [] then size else RunFrames(FrameFontSize(size, frames[0]), frames[1..])
  }

  /** Seven presses of the minus key, one per frame, from the default size, reach
      font size 1, where `font_size / 2` is zero and the budget divides by
      zero. */
  lemma MinusKeysReachDivisionByZero()
    ensures RunFrames(BASE_FONT_SIZE, seq(7, _ => Keys(false, true, false))) == 1
    ensures !BudgetDefined(1)
  {
    MinusPresses(BASE_FONT_SIZE, 7);
    assert CDiv(1, 2) == 0;
  }

  /** Every frame in which only the minus key is pressed removes 3 from
      the size. */
  lemma {:induction false} MinusPresses(size: int, n: nat)
    ensures RunFrames(size, seq(n, _ => Keys(false, true, false))) == size - 3 * n
    decreases n
  {
    var frames := seq(n, _ => Keys(false, true, false));
    if n > 0 {
      assert frames[1..] == seq(n - 1, _ => Keys(false, true, false));
      MinusPresses(size - 3, n - 1);
    }
  }

  /** The smallest base font size that keeps `font_size / 2` positive. */
  const MIN_FONT_SIZE := 2

  /** The key handling with the size held at or above `MIN_FONT_SIZE`. */
  function ClampedFrameFontSize(size: int, k: Keys): (r: int)
    ensures r >= MIN_FONT_SIZE
    ensures FrameFontSize(size, k) >= MIN_FONT_SIZE ==> r == FrameFontSize(size, k)
  {
    var r := FrameFontSize(size, k);
    if r < MIN_FONT_SIZE then MIN_FONT_SIZE else r
  }

  function RunClampedFrames(size: int, frames: seq<Keys>): int
    decreases |frames|
  {
    if frames == [] then size else RunClampedFrames(ClampedFrameFontSize(size, frames[0]), frames[1..])
  }

  /** With the clamp the budget stays defined after any sequence of frames. */
  lemma {:induction false} ClampedBudgetAlwaysDefined(size: int, frames: seq<Keys>)
    requires size >= MIN_FONT_SIZE
    ensures RunClampedFrames(size, frames) >= MIN_FONT_SIZE
    ensures BudgetDefined(RunClampedFrames(size, frames))
    decreases |frames|
  {
    if frames != [] {
      ClampedBudgetAlwaysDefined(ClampedFrameFontSize(size, frames[0]), frames[1..]);
    }
    BudgetDefinedIff(RunClampedFrames(size, frames));
  }
}
