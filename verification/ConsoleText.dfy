/** Characters on the console: what each one draws, and what a whole text does to
    cursor and memory. */
module ConsoleText {
  import opened Bytes
  import opened Memory
  import opened Arithmetic
  import opened ScreenModel

  /** Which pixels of a character's cell are set. */
  type Font = (char, nat, nat) -> bool

  const CELL := CHARACTER_WIDTH * CHARACTER_HEIGHT

  datatype Console = Console(cursor: Cursor, memory: seq<byte>)

  // ----- pixels

  function PixelAddress(g: Screen, x: nat, y: nat): nat {
    g.buffer + (Times(y, Stride(g)) + Times(x, g.depth))
  }

  lemma PixelInside(g: Screen, x: nat, y: nat, memory: nat)
    requires Fits(g, memory) && x < g.width && y < g.height
    ensures PixelAddress(g, x, y) + g.depth <= g.buffer + FrameSize(g) <= memory
  {
    Multiply(x + 1, g.width, g.depth);
    Multiply(y + 1, g.height, Stride(g));
  }

  /** The index the code computes, scaled to bytes. */
  lemma PixelIndex(g: Screen, x: nat, y: nat)
    ensures PixelAddress(g, x, y) == g.buffer + (g.width * y + x) * g.depth
  {
    TimesIsProduct(g.width, g.depth);
    TimesIsProduct(x, g.depth);
    TimesIsProduct(y, Stride(g));
    Distribute(g.width, y, x, g.depth);
  }

  lemma Distribute(w: nat, y: nat, x: nat, d: nat)
    ensures (w * y + x) * d == y * (w * d) + x * d
  {
  }

  lemma PixelsApart(g: Screen, x: nat, y: nat, x': nat, y': nat)
    requires x < g.width && (y < y' || (y == y' && x < x'))
    ensures PixelAddress(g, x, y) + g.depth <= PixelAddress(g, x', y')
  {
    if y < y' {
      Multiply(x + 1, g.width, g.depth);
      Multiply(y + 1, y', Stride(g));
    } else {
      Multiply(x + 1, x', g.depth);
    }
  }

  function Pixel(g: Screen, m: seq<byte>, x: nat, y: nat): (p: seq<byte>)
    requires Fits(g, |m|) && x < g.width && y < g.height
    ensures |p| == g.depth
  {
    PixelInside(g, x, y, |m|);
    m[PixelAddress(g, x, y)..PixelAddress(g, x, y) + g.depth]
  }

  /** set_pixel: nothing happens off the screen. */
  function PixelSet(g: Screen, m: seq<byte>, x: nat, y: nat, ink: seq<byte>): (r: seq<byte>)
    requires Fits(g, |m|) && |ink| == g.depth
    ensures |r| == |m|
  {
    if x < g.width && y < g.height then
      PixelInside(g, x, y, |m|);
      var a := PixelAddress(g, x, y);
      m[..a] + ink + m[a + g.depth..]
    else m
  }

  lemma PixelAfterSet(g: Screen, m: seq<byte>, x: nat, y: nat, ink: seq<byte>, px: nat, py: nat)
    requires Fits(g, |m|) && |ink| == g.depth && px < g.width && py < g.height
    ensures Pixel(g, PixelSet(g, m, x, y, ink), px, py)
         == if px == x && py == y then ink else Pixel(g, m, px, py)
  {
    if x < g.width && y < g.height {
      var a, b := PixelAddress(g, x, y), PixelAddress(g, px, py);
      PixelInside(g, x, y, |m|);
      PixelInside(g, px, py, |m|);
      if y < py || (y == py && x < px) {
        PixelsApart(g, x, y, px, py);
        SliceElsewhere(m, a, ink, b, g.depth);
      } else if py < y || (py == y && px < x) {
        PixelsApart(g, px, py, x, y);
        SliceElsewhere(m, a, ink, b, g.depth);
      } else {
        assert (m[..a] + ink + m[a + g.depth..])[a..a + g.depth] == ink;
      }
    }
  }

  /** Writing `ink` at `a` leaves bytes elsewhere alone. */
  lemma SliceElsewhere(m: seq<byte>, a: nat, ink: seq<byte>, b: nat, n: nat)
    requires a + |ink| <= |m| && b + n <= |m| && (b + n <= a || a + |ink| <= b)
    ensures (m[..a] + ink + m[a + |ink|..])[b..b + n] == m[b..b + n]
  {
    var r := m[..a] + ink + m[a + |ink|..];
    assert |r| == |m|;
    forall c | b <= c < b + n ensures r[c] == m[c] {
      assert c < a ==> r[c] == m[..a][c];
      assert a + |ink| <= c ==> r[c] == m[a + |ink|..][c - (a + |ink|)];
    }
  }

  function Black(g: Screen): (ink: seq<byte>)
    ensures |ink| == g.depth && forall k :: 0 <= k < |ink| ==> ink[k] == 0
  {
    seq(g.depth, _ => 0)
  }

  // ----- characters

  /** What the character puts at pixel (fx, fy) of its cell: its colour where the
      font is set, black elsewhere for a space, and otherwise nothing. */
  function CellPixel(g: Screen, ch: char, fx: nat, fy: nat, ink: seq<byte>, old': seq<byte>, font: Font): seq<byte> {
    if font(ch, fx, fy) then ink else if ch == ' ' then Black(g) else old'
  }

  function Dotted(g: Screen, m: seq<byte>, ch: char, x: nat, y: nat, fx: nat, fy: nat,
                  ink: seq<byte>, font: Font): (r: seq<byte>)
    requires Fits(g, |m|) && |ink| == g.depth
    ensures |r| == |m|
  {
    if font(ch, fx, fy) then PixelSet(g, m, x + fx, y + fy, ink)
    else if ch == ' ' then PixelSet(g, m, x + fx, y + fy, Black(g))
    else m
  }

  /** The first `k` pixels of the cell at (x, y), row by row. */
  function Drawn(g: Screen, m: seq<byte>, ch: char, x: nat, y: nat, ink: seq<byte>, font: Font, k: nat): (r: seq<byte>)
    requires Fits(g, |m|) && |ink| == g.depth
    ensures |r| == |m|
  {
    if k == 0 then m
    else Dotted(g, Drawn(g, m, ch, x, y, ink, font, k - 1), ch, x, y,
                (k - 1) % CHARACTER_WIDTH, (k - 1) / CHARACTER_WIDTH, ink, font)
  }

  /** Pixel (px, py) is among the first `k` of the cell at (x, y). */
  predicate Reached(x: nat, y: nat, k: nat, px: nat, py: nat) {
    x <= px < x + CHARACTER_WIDTH && y <= py && (py - y) * CHARACTER_WIDTH + (px - x) < k
  }

  /** Drawing a character sets exactly its cell, clipped to the screen, to what the
      font says; every other pixel keeps its colour. */
  lemma {:induction false} DrawnShowsFont(g: Screen, m: seq<byte>, ch: char, x: nat, y: nat, ink: seq<byte>, font: Font,
                                          k: nat, px: nat, py: nat)
    requires Fits(g, |m|) && |ink| == g.depth && px < g.width && py < g.height
    ensures Pixel(g, Drawn(g, m, ch, x, y, ink, font, k), px, py)
         == if Reached(x, y, k, px, py) then CellPixel(g, ch, px - x, py - y, ink, Pixel(g, m, px, py), font)
            else Pixel(g, m, px, py)
    decreases k
  {
    if k > 0 {
      var before := Drawn(g, m, ch, x, y, ink, font, k - 1);
      var fx, fy := (k - 1) % CHARACTER_WIDTH, (k - 1) / CHARACTER_WIDTH;
      DrawnShowsFont(g, m, ch, x, y, ink, font, k - 1, px, py);
      DotShows(g, before, ch, x, y, fx, fy, ink, font, px, py);
      ReachedStep(x, y, k, px, py);
    }
  }

  lemma DotShows(g: Screen, m: seq<byte>, ch: char, x: nat, y: nat, fx: nat, fy: nat,
                 ink: seq<byte>, font: Font, px: nat, py: nat)
    requires Fits(g, |m|) && |ink| == g.depth && px < g.width && py < g.height
    ensures Pixel(g, Dotted(g, m, ch, x, y, fx, fy, ink, font), px, py)
         == if px == x + fx && py == y + fy then CellPixel(g, ch, fx, fy, ink, Pixel(g, m, px, py), font)
            else Pixel(g, m, px, py)
  {
    PixelAfterSet(g, m, x + fx, y + fy, ink, px, py);
    PixelAfterSet(g, m, x + fx, y + fy, Black(g), px, py);
  }

  lemma ReachedStep(x: nat, y: nat, k: nat, px: nat, py: nat)
    requires k > 0
    ensures var here := px == x + (k - 1) % CHARACTER_WIDTH && py == y + (k - 1) / CHARACTER_WIDTH;
            && (Reached(x, y, k, px, py) <==> Reached(x, y, k - 1, px, py) || here)
            && !(Reached(x, y, k - 1, px, py) && here)
  {
  }

  // ----- text

  function LineDown(g: Screen, s: Console): (r: Console)
    requires Fits(g, |s.memory|) && Placed(g, s.cursor) && g.cursorHeight <= g.height
    ensures |r.memory| == |s.memory| && r.cursor == Down(g, s.cursor)
  {
    Console(Down(g, s.cursor), if AtBottom(g, s.cursor) then Scrolled(g, s.memory, s.cursor.y) else s.memory)
  }

  /** DisplayCharacter */
  function Displayed(g: Screen, s: Console, ch: char, ink: seq<byte>, font: Font): (r: Console)
    requires Fits(g, |s.memory|) && Usable(g) && Placed(g, s.cursor) && g.cursorHeight <= g.height && |ink| == g.depth
    ensures |r.memory| == |s.memory| && r.cursor == Moved(g, s.cursor, ch)
  {
    if ch == '\U{8}' then s.(cursor := Left(g, s.cursor))
    else if ch == '\n' then LineDown(g, s.(cursor := Returned(g, s.cursor)))
    else if ch == '\r' then s.(cursor := Returned(g, s.cursor))
    else if ' ' <= ch <= '~' then
      var drawn := s.(memory := Drawn(g, s.memory, ch, s.cursor.x, s.cursor.y, ink, font, CELL));
      if s.cursor.x + CHARACTER_WIDTH >= g.cursorWidth then LineDown(g, drawn.(cursor := Returned(g, s.cursor)))
      else drawn.(cursor := Right(g, s.cursor))
    else s
  }

  function DisplayedAll(g: Screen, s: Console, text: string, ink: seq<byte>, font: Font): (r: Console)
    requires Fits(g, |s.memory|) && Usable(g) && Placed(g, s.cursor) && g.cursorHeight <= g.height && |ink| == g.depth
    ensures |r.memory| == |s.memory| && r.cursor == MovedAll(g, s.cursor, text)
    decreases |text|
  {
    if text == [] then s else DisplayedAll(g, Displayed(g, s, text[0], ink, font), text[1..], ink, font)
  }

  predicate Outside(g: Screen, a: int) {
    a < g.buffer || g.buffer + FrameSize(g) <= a
  }

  lemma PixelSetStaysInside(g: Screen, m: seq<byte>, x: nat, y: nat, ink: seq<byte>, a: nat)
    requires Fits(g, |m|) && |ink| == g.depth && a < |m| && Outside(g, a)
    ensures PixelSet(g, m, x, y, ink)[a] == m[a]
  {
    if x < g.width && y < g.height {
      PixelInside(g, x, y, |m|);
    }
  }

  lemma {:induction false} DrawnStaysInside(g: Screen, m: seq<byte>, ch: char, x: nat, y: nat,
                                            ink: seq<byte>, font: Font, k: nat, a: nat)
    requires Fits(g, |m|) && |ink| == g.depth && a < |m| && Outside(g, a)
    ensures Drawn(g, m, ch, x, y, ink, font, k)[a] == m[a]
    decreases k
  {
    if k > 0 {
      var before := Drawn(g, m, ch, x, y, ink, font, k - 1);
      DrawnStaysInside(g, m, ch, x, y, ink, font, k - 1, a);
      PixelSetStaysInside(g, before, x + (k - 1) % CHARACTER_WIDTH, y + (k - 1) / CHARACTER_WIDTH, ink, a);
      PixelSetStaysInside(g, before, x + (k - 1) % CHARACTER_WIDTH, y + (k - 1) / CHARACTER_WIDTH, Black(g), a);
    }
  }

  lemma ScrollStaysInside(g: Screen, m: seq<byte>, y: nat, a: nat)
    requires Fits(g, |m|) && y + CHARACTER_HEIGHT <= g.height && a < |m| && Outside(g, a)
    ensures Scrolled(g, m, y)[a] == m[a]
  {
    if g.offsetY < y {
      OutsideAllRows(g, |m|, a, g.offsetY, y);
      OutsideAllRows(g, |m|, a, y, y + ErasedLines(g, y, 0));
      CopiedRowsElsewhere(g, m, g.offsetY, y - g.offsetY, a);
      FilledRowsElsewhere(g, CopiedRows(g, m, g.offsetY, y - g.offsetY), y, ErasedLines(g, y, 0), a);
    }
  }

  lemma OutsideAllRows(g: Screen, memory: nat, a: nat, lo: nat, hi: nat)
    requires Fits(g, memory) && hi <= g.height && Outside(g, a)
    ensures !InRows(g, a, lo, hi)
  {
    forall r: nat, c: nat | lo <= r < hi && c < Size(g) ensures a != Byte(g, r, c) {
      RowInside(g, r, memory);
    }
  }

  /** No text, of any length, changes a byte outside the framebuffer. */
  lemma {:induction false} TextStaysInside(g: Screen, s: Console, text: string, ink: seq<byte>, font: Font, a: nat)
    requires Fits(g, |s.memory|) && Usable(g) && Placed(g, s.cursor) && g.cursorHeight <= g.height && |ink| == g.depth
    requires a < |s.memory| && Outside(g, a)
    ensures DisplayedAll(g, s, text, ink, font).memory[a] == s.memory[a]
    decreases |text|
  {
    if text != [] {
      CharacterStaysInside(g, s, text[0], ink, font, a);
      TextStaysInside(g, Displayed(g, s, text[0], ink, font), text[1..], ink, font, a);
    }
  }

  lemma CharacterStaysInside(g: Screen, s: Console, ch: char, ink: seq<byte>, font: Font, a: nat)
    requires Fits(g, |s.memory|) && Usable(g) && Placed(g, s.cursor) && g.cursorHeight <= g.height && |ink| == g.depth
    requires a < |s.memory| && Outside(g, a)
    ensures Displayed(g, s, ch, ink, font).memory[a] == s.memory[a]
  {
    var c := s.cursor;
    DrawnStaysInside(g, s.memory, ch, c.x, c.y, ink, font, CELL, a);
    ScrollStaysInside(g, s.memory, c.y, a);
    ScrollStaysInside(g, Drawn(g, s.memory, ch, c.x, c.y, ink, font, CELL), c.y, a);
  }
}
