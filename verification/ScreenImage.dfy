/**
 What is seen on the screen: an image gives every pixel its colour, and characters
 and scrolling act on it pixel by pixel. The framebuffer of Lab12 system/screen.c,
 byte by byte, is proved to show exactly that.
 */
module ScreenImage {
  import opened Bytes
  import opened Memory
  import opened Arithmetic
  import opened ScreenModel
  import opened ConsoleText

  /** The colour of the pixel in column `x` of row `y`, as the bytes of a pixel. */
  type Image = (nat, nat) -> seq<byte>

  ghost predicate Shows(g: Screen, m: seq<byte>, img: Image)
    requires Fits(g, |m|)
  {
    forall x, y | 0 <= x < g.width && 0 <= y < g.height :: Pixel(g, m, x, y) == img(x, y)
  }

  /** What is seen at (px, py) with character `ch` in the 8 by 20 pixels from (x, y) on:
      its colour where the font is set, black in the rest of a space, otherwise what
      was there. */
  function Inked(g: Screen, img: Image, ch: char, x: nat, y: nat, ink: seq<byte>, font: Font,
                 px: nat, py: nat): seq<byte>
  {
    if x <= px < x + 8 && y <= py < y + 20 && font(ch, px - x, py - y) then ink
    else if x <= px < x + 8 && y <= py < y + 20 && ch == ' ' then Black(g)
    else img(px, py)
  }

  function WithCharacter(g: Screen, img: Image, ch: char, x: nat, y: nat, ink: seq<byte>, font: Font): Image {
    (px: nat, py: nat) => Inked(g, img, ch, x, y, ink, font, px, py)
  }

  /** What is seen there with the console's columns moved up 20 rows, down to row `y`,
      and `n` rows black from there. */
  function Shifted(g: Screen, img: Image, y: nat, n: nat, px: nat, py: nat): seq<byte> {
    if !(g.originX <= px < g.originX + g.cursorWidth) then img(px, py)
    else if g.offsetY <= py < y then img(px, py + 20)
    else if y <= py < y + n then Black(g)
    else img(px, py)
  }

  function MovedUp(g: Screen, img: Image, y: nat, n: nat): Image {
    (px: nat, py: nat) => Shifted(g, img, y, n, px, py)
  }

  // ----- a character

  lemma CharacterShows(g: Screen, m: seq<byte>, img: Image, ch: char, x: nat, y: nat, ink: seq<byte>, font: Font)
    requires Fits(g, |m|) && |ink| == g.depth && Shows(g, m, img)
    ensures Shows(g, Drawn(g, m, ch, x, y, ink, font, CELL), WithCharacter(g, img, ch, x, y, ink, font))
  {
    forall px, py | 0 <= px < g.width && 0 <= py < g.height
      ensures Pixel(g, Drawn(g, m, ch, x, y, ink, font, CELL), px, py)
           == WithCharacter(g, img, ch, x, y, ink, font)(px, py)
    {
      assert Pixel(g, m, px, py) == img(px, py);
      CharacterPixel(g, m, img, ch, x, y, ink, font, px, py);
    }
  }

  lemma CharacterPixel(g: Screen, m: seq<byte>, img: Image, ch: char, x: nat, y: nat, ink: seq<byte>, font: Font,
                       px: nat, py: nat)
    requires Fits(g, |m|) && |ink| == g.depth && px < g.width && py < g.height && Pixel(g, m, px, py) == img(px, py)
    ensures Pixel(g, Drawn(g, m, ch, x, y, ink, font, CELL), px, py)
         == WithCharacter(g, img, ch, x, y, ink, font)(px, py)
  {
    DrawnShowsFont(g, m, ch, x, y, ink, font, CELL, px, py);
    WholeCell(x, y, px, py);
  }

  lemma WholeCell(x: nat, y: nat, px: nat, py: nat)
    ensures Reached(x, y, CELL, px, py) <==> x <= px < x + 8 && y <= py < y + 20
  {
  }

  // ----- a scroll

  /** Byte `b` of a console pixel is a byte of a console row. */
  lemma PixelByte(g: Screen, cx: nat, r: nat, b: nat)
    requires cx < g.cursorWidth && b < g.depth
    ensures PixelAddress(g, g.originX + cx, r) + b == Byte(g, r, Times(cx, g.depth) + b)
    ensures Times(cx, g.depth) + b < Size(g)
  {
    TimesOfSum(g.originX, cx, g.depth);
    Multiply(cx + 1, g.cursorWidth, g.depth);
  }

  predicate InConsole(g: Screen, px: nat, py: nat, lo: nat, hi: nat) {
    g.originX <= px < g.originX + g.cursorWidth && lo <= py < hi
  }

  /** A pixel outside the console's rows shares no byte with them. */
  lemma PixelNotInRows(g: Screen, memory: nat, px: nat, py: nat, lo: nat, hi: nat, b: nat)
    requires Fits(g, memory) && px < g.width && b < g.depth && !InConsole(g, px, py, lo, hi)
    ensures !InRows(g, PixelAddress(g, px, py) + b, lo, hi)
  {
    forall r: nat, c: nat | lo <= r < hi && c < Size(g) ensures PixelAddress(g, px, py) + b != Byte(g, r, c) {
      assert g.cursorWidth > 0;
      ApartFromRow(g, px, py, r);
    }
  }

  lemma ApartFromRow(g: Screen, px: nat, py: nat, r: nat)
    requires g.originX + g.cursorWidth <= g.width && px < g.width && g.cursorWidth > 0
    requires py != r || px < g.originX || g.originX + g.cursorWidth <= px
    ensures PixelAddress(g, px, py) + g.depth <= Row(g, r) || Row(g, r) + Size(g) <= PixelAddress(g, px, py)
  {
    RowIsPixels(g, r);
    if py < r || (py == r && px < g.originX) {
      PixelsApart(g, px, py, g.originX, r);
    } else {
      PixelsApart(g, g.originX + g.cursorWidth - 1, r, px, py);
    }
  }

  lemma RowIsPixels(g: Screen, r: nat)
    requires g.cursorWidth > 0
    ensures Row(g, r) == PixelAddress(g, g.originX, r)
    ensures Row(g, r) + Size(g) == PixelAddress(g, g.originX + g.cursorWidth - 1, r) + g.depth
  {
    TimesOfSum(g.originX, g.cursorWidth - 1, g.depth);
  }

  lemma ByteOfPixel(g: Screen, m: seq<byte>, px: nat, py: nat, b: nat)
    requires Fits(g, |m|) && px < g.width && py < g.height && b < g.depth
    ensures PixelAddress(g, px, py) + b < |m| && Pixel(g, m, px, py)[b] == m[PixelAddress(g, px, py) + b]
  {
    PixelInside(g, px, py, |m|);
  }

  lemma CopyByte(g: Screen, m: seq<byte>, lo: nat, n: nat, px: nat, py: nat, b: nat)
    requires Fits(g, |m|) && lo + n + CHARACTER_HEIGHT <= g.height && px < g.width && py < g.height && b < g.depth
    ensures var from := if InConsole(g, px, py, lo, lo + n) then py + CHARACTER_HEIGHT else py;
            && PixelAddress(g, px, py) + b < |m| && PixelAddress(g, px, from) + b < |m|
            && CopiedRows(g, m, lo, n)[PixelAddress(g, px, py) + b] == m[PixelAddress(g, px, from) + b]
  {
    PixelInside(g, px, py, |m|);
    if InConsole(g, px, py, lo, lo + n) {
      PixelInside(g, px, py + CHARACTER_HEIGHT, |m|);
      PixelByte(g, px - g.originX, py, b);
      PixelByte(g, px - g.originX, py + CHARACTER_HEIGHT, b);
      CopiedRowsMove(g, m, lo, n, py, Times(px - g.originX, g.depth) + b);
    } else {
      PixelNotInRows(g, |m|, px, py, lo, lo + n, b);
      CopiedRowsElsewhere(g, m, lo, n, PixelAddress(g, px, py) + b);
    }
  }

  lemma CopyShows(g: Screen, m: seq<byte>, lo: nat, n: nat, px: nat, py: nat)
    requires Fits(g, |m|) && lo + n + CHARACTER_HEIGHT <= g.height && px < g.width && py < g.height
    ensures Pixel(g, CopiedRows(g, m, lo, n), px, py)
         == if InConsole(g, px, py, lo, lo + n) then Pixel(g, m, px, py + CHARACTER_HEIGHT) else Pixel(g, m, px, py)
  {
    var r, from := CopiedRows(g, m, lo, n), if InConsole(g, px, py, lo, lo + n) then py + CHARACTER_HEIGHT else py;
    forall b | 0 <= b < g.depth ensures Pixel(g, r, px, py)[b] == Pixel(g, m, px, from)[b] {
      ByteOfPixel(g, r, px, py, b);
      ByteOfPixel(g, m, px, from, b);
      CopyByte(g, m, lo, n, px, py, b);
    }
  }

  lemma FillByte(g: Screen, m: seq<byte>, lo: nat, n: nat, px: nat, py: nat, b: nat)
    requires Fits(g, |m|) && lo + n <= g.height && px < g.width && py < g.height && b < g.depth
    ensures PixelAddress(g, px, py) + b < |m|
    ensures FilledRows(g, m, lo, n)[PixelAddress(g, px, py) + b]
         == if InConsole(g, px, py, lo, lo + n) then 0 else m[PixelAddress(g, px, py) + b]
  {
    PixelInside(g, px, py, |m|);
    if InConsole(g, px, py, lo, lo + n) {
      PixelByte(g, px - g.originX, py, b);
      FilledRowsAreBlack(g, m, lo, n, py, Times(px - g.originX, g.depth) + b);
    } else {
      PixelNotInRows(g, |m|, px, py, lo, lo + n, b);
      FilledRowsElsewhere(g, m, lo, n, PixelAddress(g, px, py) + b);
    }
  }

  lemma FillShows(g: Screen, m: seq<byte>, lo: nat, n: nat, px: nat, py: nat)
    requires Fits(g, |m|) && lo + n <= g.height && px < g.width && py < g.height
    ensures Pixel(g, FilledRows(g, m, lo, n), px, py)
         == if InConsole(g, px, py, lo, lo + n) then Black(g) else Pixel(g, m, px, py)
  {
    var r := FilledRows(g, m, lo, n);
    forall b | 0 <= b < g.depth
      ensures Pixel(g, r, px, py)[b] == if InConsole(g, px, py, lo, lo + n) then 0 else Pixel(g, m, px, py)[b]
    {
      ByteOfPixel(g, r, px, py, b);
      ByteOfPixel(g, m, px, py, b);
      FillByte(g, m, lo, n, px, py, b);
    }
  }

  /** A scroll moves the console's rows up 20 pixels and blackens the rows the check
      lets it, on the screen and not only in memory. */
  lemma ScrollShows(g: Screen, m: seq<byte>, img: Image, y: nat)
    requires Fits(g, |m|) && y + CHARACTER_HEIGHT <= g.height && Shows(g, m, img)
    ensures Shows(g, Scrolled(g, m, y), if y <= g.offsetY then img else MovedUp(g, img, y, ErasedLines(g, y, 0)))
  {
    if g.offsetY < y {
      var n := ErasedLines(g, y, 0);
      forall px, py | 0 <= px < g.width && 0 <= py < g.height
        ensures Pixel(g, Scrolled(g, m, y), px, py) == MovedUp(g, img, y, n)(px, py)
      {
        var from := if InConsole(g, px, py, g.offsetY, y) then py + CHARACTER_HEIGHT else py;
        assert Pixel(g, m, px, from) == img(px, from);
        ScrolledPixel(g, m, y, n, px, py);
        ShiftedPixel(g, img, y, n, px, py, from);
      }
    }
  }

  lemma ShiftedPixel(g: Screen, img: Image, y: nat, n: nat, px: nat, py: nat, from: nat)
    requires from == if InConsole(g, px, py, g.offsetY, y) then py + CHARACTER_HEIGHT else py
    ensures MovedUp(g, img, y, n)(px, py) == if InConsole(g, px, py, y, y + n) then Black(g) else img(px, from)
  {
  }

  lemma ScrolledPixel(g: Screen, m: seq<byte>, y: nat, n: nat, px: nat, py: nat)
    requires Fits(g, |m|) && y + CHARACTER_HEIGHT <= g.height && g.offsetY < y && n == ErasedLines(g, y, 0)
    requires px < g.width && py < g.height
    ensures Pixel(g, Scrolled(g, m, y), px, py)
         == if InConsole(g, px, py, y, y + n) then Black(g)
            else Pixel(g, m, px, if InConsole(g, px, py, g.offsetY, y) then py + CHARACTER_HEIGHT else py)
  {
    FillShows(g, CopiedRows(g, m, g.offsetY, y - g.offsetY), y, n, px, py);
    CopyShows(g, m, g.offsetY, y - g.offsetY, px, py);
  }

  // ----- a whole text

  /** The screen: its image and the cursor. */
  datatype Display = Display(cursor: Cursor, img: Image)

  /** To the left edge and a line down, or a scroll on the bottom line. */
  function NextLine(g: Screen, d: Display): Display {
    if d.cursor.y + 40 < g.cursorHeight then d.(cursor := Cursor(g.offsetX, d.cursor.y + 20))
    else Display(Cursor(g.offsetX, d.cursor.y),
                 if d.cursor.y <= g.offsetY then d.img
                 else MovedUp(g, d.img, d.cursor.y, ErasedLines(g, d.cursor.y, 0)))
  }

  /** A backspace moves back, over the end of the line above; a line feed starts the
      next line; a printable character is shown at the cursor, which moves on. */
  function Typed(g: Screen, d: Display, ch: char, ink: seq<byte>, font: Font): Display
    requires g.cursorWidth >= 8
  {
    var c := d.cursor;
    if ch == '\U{0008}' then
      if c.x >= 8 then d.(cursor := Cursor(c.x - 8, c.y))
      else if c.y >= 20 then d.(cursor := Cursor(g.cursorWidth - 8, c.y - 20))
      else d
    else if ch == '\U{000A}' then NextLine(g, d)
    else if ch == '\U{000D}' then d.(cursor := Cursor(g.offsetX, c.y))
    else if ch < ' ' || '~' < ch then d
    else
      var shown := d.(img := WithCharacter(g, d.img, ch, c.x, c.y, ink, font));
      if c.x + 8 < g.cursorWidth then shown.(cursor := Cursor(c.x + 8, c.y)) else NextLine(g, shown)
  }

  function TypedAll(g: Screen, d: Display, text: string, ink: seq<byte>, font: Font): Display
    requires g.cursorWidth >= 8
    decreases |text|
  {
    if text == [] then d else TypedAll(g, Typed(g, d, text[0], ink, font), text[1..], ink, font)
  }

  /** The device shows what the display has. */
  ghost predicate Presents(g: Screen, s: Console, d: Display)
    requires Fits(g, |s.memory|)
  {
    s.cursor == d.cursor && Shows(g, s.memory, d.img)
  }

  predicate Ready(g: Screen, s: Console, ink: seq<byte>) {
    Fits(g, |s.memory|) && Usable(g) && Placed(g, s.cursor) && g.cursorHeight <= g.height && |ink| == g.depth
  }

  lemma NextLineShows(g: Screen, s: Console, d: Display, ink: seq<byte>)
    requires Ready(g, s, ink) && Presents(g, s, d)
    ensures Presents(g, LineDown(g, s.(cursor := Returned(g, s.cursor))), NextLine(g, d))
  {
    ScrollShows(g, s.memory, d.img, s.cursor.y);
  }

  /** What a character does to the screen, pixel by pixel. */
  lemma DisplayedShows(g: Screen, s: Console, d: Display, ch: char, ink: seq<byte>, font: Font)
    requires Ready(g, s, ink) && Presents(g, s, d)
    ensures Presents(g, Displayed(g, s, ch, ink, font), Typed(g, d, ch, ink, font))
  {
    var c := s.cursor;
    if ch == '\n' {
      NextLineShows(g, s, d, ink);
    } else if ' ' <= ch <= '~' {
      CharacterShows(g, s.memory, d.img, ch, c.x, c.y, ink, font);
      var drawn := s.(memory := Drawn(g, s.memory, ch, c.x, c.y, ink, font, CELL));
      var shown := d.(img := WithCharacter(g, d.img, ch, c.x, c.y, ink, font));
      NextLineShows(g, drawn, shown, ink);
    }
  }

  /** A whole text, of any length, shows what typing its characters one by one does to
      the image. */
  lemma {:induction false} TextShows(g: Screen, s: Console, d: Display, text: string, ink: seq<byte>, font: Font)
    requires Ready(g, s, ink) && Presents(g, s, d)
    ensures Presents(g, DisplayedAll(g, s, text, ink, font), TypedAll(g, d, text, ink, font))
    decreases |text|
  {
    if text != [] {
      DisplayedShows(g, s, d, text[0], ink, font);
      TextShows(g, Displayed(g, s, text[0], ink, font), Typed(g, d, text[0], ink, font), text[1..], ink, font);
    }
  }

  /** A backspace takes the cursor back over a character, unless that ended its line. */
  lemma BackspaceUndoes(g: Screen, c: Cursor, ch: char)
    requires Usable(g) && Placed(g, c) && ' ' <= ch <= '~'
    ensures c.x + 8 < g.cursorWidth ==> Moved(g, Moved(g, c, ch), '\U{0008}') == c
  {
  }

  lemma CellSize()
    ensures CHARACTER_WIDTH == 8 && CHARACTER_HEIGHT == 20
  {
  }
}
