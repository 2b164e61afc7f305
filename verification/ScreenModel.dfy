/**
 The text console of Lab12 system/screen.c: where its rows lie in the
 framebuffer, what scrolling does to them, and how the cursor moves.
 */
module ScreenModel {
  import opened Bytes
  import opened Memory
  import opened Arithmetic

  const CHARACTER_WIDTH := 8
  const CHARACTER_HEIGHT := 20

  /** The fixed part of ScreenDevice. `buffer` is the framebuffer's address and
      `depth` the bytes of a pixel; `originX` is CONSOLE_X_ORIENTATION, which the code
      uses as a number of pixels. */
  datatype Screen = Screen(
    buffer: nat, width: nat, height: nat, depth: nat, originX: nat,
    offsetX: nat, offsetY: nat, cursorWidth: nat, cursorHeight: nat)

  /** Bytes of a row of the frame. */
  function Stride(g: Screen): nat {
    Times(g.width, g.depth)
  }

  function FrameSize(g: Screen): nat {
    Times(g.height, Stride(g))
  }

  /** Bytes of a console row. */
  function Size(g: Screen): nat {
    Times(g.cursorWidth, g.depth)
  }

  /** The address where console row `r` starts. */
  function Row(g: Screen, r: nat): nat {
    g.buffer + Times(g.originX, g.depth) + Times(r, Stride(g))
  }

  /** The framebuffer lies in memory and the console fits its width. */
  predicate Fits(g: Screen, memory: nat) {
    && 0 < g.depth
    && g.originX + g.cursorWidth <= g.width
    && g.buffer + FrameSize(g) <= memory
  }

  lemma RowFits(g: Screen)
    requires g.originX + g.cursorWidth <= g.width
    ensures Times(g.originX, g.depth) + Size(g) <= Stride(g)
  {
    Multiply(g.originX + g.cursorWidth, g.width, g.depth);
    TimesOfSum(g.originX, g.cursorWidth, g.depth);
  }

  /** Rows lie one stride apart and do not overlap. */
  lemma RowsApart(g: Screen, a: nat, b: nat)
    requires a < b && g.originX + g.cursorWidth <= g.width
    ensures Row(g, a) + Size(g) <= Row(g, a) + Stride(g) <= Row(g, b)
  {
    RowFits(g);
    Multiply(a + 1, b, Stride(g));
  }

  lemma RowInside(g: Screen, r: nat, memory: nat)
    requires Fits(g, memory) && r < g.height
    ensures Row(g, r) + Size(g) <= g.buffer + FrameSize(g) <= memory
  {
    RowFits(g);
    Multiply(r + 1, g.height, Stride(g));
  }

  /** The address of byte `c` of console row `r`. */
  function Byte(g: Screen, r: nat, c: nat): nat {
    Row(g, r) + c
  }

  /** What memory holds there. */
  function Shown(g: Screen, m: seq<byte>, r: nat, c: nat): byte
    requires Fits(g, |m|) && r < g.height && c < Size(g)
  {
    RowInside(g, r, |m|);
    m[Byte(g, r, c)]
  }

  /** `a` lies in a console row from `lo` up to but not including `hi`. */
  ghost predicate InRows(g: Screen, a: int, lo: nat, hi: nat) {
    exists r: nat, c: nat :: lo <= r < hi && c < Size(g) && a == Byte(g, r, c)
  }

  /** No byte belongs to two rows. */
  lemma NotInRows(g: Screen, r: nat, c: nat, lo: nat, hi: nat)
    requires g.originX + g.cursorWidth <= g.width && c < Size(g)
    requires r < lo || hi <= r
    ensures !InRows(g, Byte(g, r, c), lo, hi)
  {
    forall r': nat, c': nat | lo <= r' < hi && c' < Size(g) ensures Byte(g, r, c) != Byte(g, r', c') {
      BytesDiffer(g, r, c, r', c');
    }
  }

  lemma BytesDiffer(g: Screen, r: nat, c: nat, r': nat, c': nat)
    requires g.originX + g.cursorWidth <= g.width && c < Size(g) && c' < Size(g) && r != r'
    ensures Byte(g, r, c) != Byte(g, r', c')
  {
    if r < r' {
      RowsApart(g, r, r');
    } else {
      RowsApart(g, r', r);
    }
  }

  // ----- scrolling

  /** Rows from `lo`, `n` of them, each copied from one character line below, top
      row first. */
  function CopiedRows(g: Screen, m: seq<byte>, lo: nat, n: nat): (r: seq<byte>)
    requires Fits(g, |m|) && (n > 0 ==> lo + n + CHARACTER_HEIGHT <= g.height)
    ensures |r| == |m|
  {
    if n == 0 then m
    else
      var row := lo + n - 1;
      RowInside(g, row, |m|);
      RowInside(g, row + CHARACTER_HEIGHT, |m|);
      ByteCopy(CopiedRows(g, m, lo, n - 1), Row(g, row), Row(g, row + CHARACTER_HEIGHT), Size(g))
  }

  function FilledRows(g: Screen, m: seq<byte>, lo: nat, n: nat): (r: seq<byte>)
    requires Fits(g, |m|) && lo + n <= g.height
    ensures |r| == |m|
  {
    if n == 0 then m
    else
      RowInside(g, lo + n - 1, |m|);
      Filled(FilledRows(g, m, lo, n - 1), Row(g, lo + n - 1), 0, Size(g))
  }

  /** Copying one row up: where each byte then comes from. */
  lemma CopyOneRow(g: Screen, m: seq<byte>, row: nat, a: nat)
    requires Fits(g, |m|) && row + CHARACTER_HEIGHT < g.height && a < |m|
    ensures Row(g, row) + Size(g) <= |m| && Row(g, row + CHARACTER_HEIGHT) + Size(g) <= |m|
    ensures ByteCopy(m, Row(g, row), Row(g, row + CHARACTER_HEIGHT), Size(g))[a]
         == m[Origin(a, Row(g, row), Row(g, row + CHARACTER_HEIGHT), Size(g))]
  {
    RowInside(g, row, |m|);
    RowInside(g, row + CHARACTER_HEIGHT, |m|);
    RowsApart(g, row, row + CHARACTER_HEIGHT);
    ForwardCopyMoves(m, Row(g, row), Row(g, row + CHARACTER_HEIGHT), Size(g));
  }

  /** Outside all rows from `lo` to `hi` means outside the last of them too. */
  lemma OutsideLast(g: Screen, a: nat, lo: nat, hi: nat)
    requires lo < hi && !InRows(g, a, lo, hi)
    ensures !InRows(g, a, lo, hi - 1)
    ensures !(Row(g, hi - 1) <= a < Row(g, hi - 1) + Size(g))
  {
    if Row(g, hi - 1) <= a {
      assert a == Byte(g, hi - 1, a - Row(g, hi - 1));
    }
  }

  lemma {:induction false} CopiedRowsElsewhere(g: Screen, m: seq<byte>, lo: nat, n: nat, a: nat)
    requires Fits(g, |m|) && lo + n + CHARACTER_HEIGHT <= g.height && a < |m|
    requires !InRows(g, a, lo, lo + n)
    ensures CopiedRows(g, m, lo, n)[a] == m[a]
    decreases n
  {
    if n > 0 {
      OutsideLast(g, a, lo, lo + n);
      CopiedRowsElsewhere(g, m, lo, n - 1, a);
      CopyOneRow(g, CopiedRows(g, m, lo, n - 1), lo + n - 1, a);
    }
  }

  lemma {:induction false} CopiedRowsMove(g: Screen, m: seq<byte>, lo: nat, n: nat, r: nat, c: nat)
    requires Fits(g, |m|) && lo + n + CHARACTER_HEIGHT <= g.height && lo <= r < lo + n && c < Size(g)
    ensures Shown(g, CopiedRows(g, m, lo, n), r, c) == Shown(g, m, r + CHARACTER_HEIGHT, c)
    decreases n
  {
    if r == lo + n - 1 {
      CopiedLastRow(g, m, lo, n, c);
    } else {
      CopiedEarlierRow(g, m, lo, n, r, c);
      CopiedRowsMove(g, m, lo, n - 1, r, c);
    }
  }

  lemma CopiedLastRow(g: Screen, m: seq<byte>, lo: nat, n: nat, c: nat)
    requires Fits(g, |m|) && n > 0 && lo + n + CHARACTER_HEIGHT <= g.height && c < Size(g)
    ensures Shown(g, CopiedRows(g, m, lo, n), lo + n - 1, c) == Shown(g, m, lo + n - 1 + CHARACTER_HEIGHT, c)
  {
    var row := lo + n - 1;
    RowInside(g, row, |m|);
    RowInside(g, row + CHARACTER_HEIGHT, |m|);
    NotInRows(g, row + CHARACTER_HEIGHT, c, lo, lo + n - 1);
    CopiedRowsElsewhere(g, m, lo, n - 1, Byte(g, row + CHARACTER_HEIGHT, c));
    CopyOneRow(g, CopiedRows(g, m, lo, n - 1), row, Byte(g, row, c));
  }

  lemma CopiedEarlierRow(g: Screen, m: seq<byte>, lo: nat, n: nat, r: nat, c: nat)
    requires Fits(g, |m|) && lo + n + CHARACTER_HEIGHT <= g.height && lo <= r < lo + n - 1 && c < Size(g)
    ensures Shown(g, CopiedRows(g, m, lo, n), r, c) == Shown(g, CopiedRows(g, m, lo, n - 1), r, c)
  {
    RowInside(g, r, |m|);
    RowsApart(g, r, lo + n - 1);
    CopyOneRow(g, CopiedRows(g, m, lo, n - 1), lo + n - 1, Byte(g, r, c));
  }

  lemma FillKeeps(m: seq<byte>, dst: nat, length: nat, a: nat)
    requires dst + length <= |m| && a < |m| && !(dst <= a < dst + length)
    ensures Filled(m, dst, 0, length)[a] == m[a]
  {
  }

  lemma {:induction false} FilledRowsElsewhere(g: Screen, m: seq<byte>, lo: nat, n: nat, a: nat)
    requires Fits(g, |m|) && lo + n <= g.height && a < |m|
    requires !InRows(g, a, lo, lo + n)
    ensures FilledRows(g, m, lo, n)[a] == m[a]
    decreases n
  {
    if n > 0 {
      OutsideLast(g, a, lo, lo + n);
      FilledRowsElsewhere(g, m, lo, n - 1, a);
      RowInside(g, lo + n - 1, |m|);
      FillKeeps(FilledRows(g, m, lo, n - 1), Row(g, lo + n - 1), Size(g), a);
    }
  }

  lemma {:induction false} FilledRowsAreBlack(g: Screen, m: seq<byte>, lo: nat, n: nat, r: nat, c: nat)
    requires Fits(g, |m|) && lo + n <= g.height && lo <= r < lo + n && c < Size(g)
    ensures Shown(g, FilledRows(g, m, lo, n), r, c) == 0
    decreases n
  {
    RowInside(g, r, |m|);
    RowInside(g, lo + n - 1, |m|);
    if r < lo + n - 1 {
      FilledRowsAreBlack(g, m, lo, n - 1, r, c);
    }
  }

  /** The check that stops erasing: it takes the row's bytes four times over. */
  predicate GuardTrips(g: Screen, r: nat) {
    (Row(g, r) - g.buffer) + Size(g) * 4 > FrameSize(g)
  }

  /** How many rows are erased from `y` on before the check stops it. */
  function ErasedLines(g: Screen, y: nat, lines: nat): (n: nat)
    requires lines <= CHARACTER_HEIGHT
    ensures lines <= n <= CHARACTER_HEIGHT
    ensures forall r :: y + lines <= r < y + n ==> !GuardTrips(g, r)
    ensures n < CHARACTER_HEIGHT ==> GuardTrips(g, y + n)
    decreases CHARACTER_HEIGHT - lines
  {
    if lines == CHARACTER_HEIGHT || GuardTrips(g, y + lines) then lines else ErasedLines(g, y, lines + 1)
  }

  /** Memory after a scroll that leaves the cursor on row `y`. Nothing is copied or
      erased when no console row lies above the cursor. */
  function Scrolled(g: Screen, m: seq<byte>, y: nat): (r: seq<byte>)
    requires Fits(g, |m|) && y + CHARACTER_HEIGHT <= g.height
    ensures |r| == |m|
  {
    if y <= g.offsetY then m
    else FilledRows(g, CopiedRows(g, m, g.offsetY, y - g.offsetY), y, ErasedLines(g, y, 0))
  }

  /** A scroll the check does not stop moves every console row above the cursor up
      one character line, blackens the cursor's line, and changes no other byte of
      memory. */
  lemma ScrollShifts(g: Screen, m: seq<byte>, y: nat)
    requires Fits(g, |m|) && y + CHARACTER_HEIGHT <= g.height && g.offsetY < y
    requires !GuardTrips(g, y + CHARACTER_HEIGHT - 1)
    ensures var s := Scrolled(g, m, y);
            && (forall r, c :: g.offsetY <= r < y && 0 <= c < Size(g) ==>
                  Shown(g, s, r, c) == Shown(g, m, r + CHARACTER_HEIGHT, c))
            && (forall r, c :: y <= r < y + CHARACTER_HEIGHT && 0 <= c < Size(g) ==> Shown(g, s, r, c) == 0)
            && (forall a :: 0 <= a < |m| && !InRows(g, a, g.offsetY, y + CHARACTER_HEIGHT) ==> s[a] == m[a])
  {
    ErasesAllIff(g, y);
    var s := Scrolled(g, m, y);
    forall r, c | g.offsetY <= r < y && 0 <= c < Size(g)
      ensures Shown(g, s, r, c) == Shown(g, m, r + CHARACTER_HEIGHT, c)
    {
      ScrolledRow(g, m, y, r, c);
    }
    forall r, c | y <= r < y + CHARACTER_HEIGHT && 0 <= c < Size(g) ensures Shown(g, s, r, c) == 0 {
      FilledRowsAreBlack(g, CopiedRows(g, m, g.offsetY, y - g.offsetY), y, CHARACTER_HEIGHT, r, c);
    }
    forall a | 0 <= a < |m| && !InRows(g, a, g.offsetY, y + CHARACTER_HEIGHT) ensures s[a] == m[a] {
      ScrolledElsewhere(g, m, y, a);
    }
  }

  lemma ScrolledRow(g: Screen, m: seq<byte>, y: nat, r: nat, c: nat)
    requires Fits(g, |m|) && y + CHARACTER_HEIGHT <= g.height && g.offsetY < y
    requires ErasedLines(g, y, 0) == CHARACTER_HEIGHT && g.offsetY <= r < y && c < Size(g)
    ensures Shown(g, Scrolled(g, m, y), r, c) == Shown(g, m, r + CHARACTER_HEIGHT, c)
  {
    var up := CopiedRows(g, m, g.offsetY, y - g.offsetY);
    assert Scrolled(g, m, y) == FilledRows(g, up, y, CHARACTER_HEIGHT);
    CopiedRowsMove(g, m, g.offsetY, y - g.offsetY, r, c);
    FilledRowsKeep(g, up, y, CHARACTER_HEIGHT, r, c);
  }

  lemma FilledRowsKeep(g: Screen, m: seq<byte>, lo: nat, n: nat, r: nat, c: nat)
    requires Fits(g, |m|) && lo + n <= g.height && r < lo && c < Size(g)
    ensures Shown(g, FilledRows(g, m, lo, n), r, c) == Shown(g, m, r, c)
  {
    NotInRows(g, r, c, lo, lo + n);
    RowInside(g, r, |m|);
    FilledRowsElsewhere(g, m, lo, n, Byte(g, r, c));
  }

  lemma ScrolledElsewhere(g: Screen, m: seq<byte>, y: nat, a: nat)
    requires Fits(g, |m|) && y + CHARACTER_HEIGHT <= g.height && g.offsetY < y && a < |m|
    requires !InRows(g, a, g.offsetY, y + CHARACTER_HEIGHT) && ErasedLines(g, y, 0) == CHARACTER_HEIGHT
    ensures Scrolled(g, m, y)[a] == m[a]
  {
    assert !InRows(g, a, g.offsetY, y) && !InRows(g, a, y, y + CHARACTER_HEIGHT);
    CopiedRowsElsewhere(g, m, g.offsetY, y - g.offsetY, a);
    FilledRowsElsewhere(g, CopiedRows(g, m, g.offsetY, y - g.offsetY), y, CHARACTER_HEIGHT, a);
  }

  /** The whole line is erased exactly when the check passes its last row. */
  lemma ErasesAllIff(g: Screen, y: nat)
    ensures ErasedLines(g, y, 0) == CHARACTER_HEIGHT <==> !GuardTrips(g, y + CHARACTER_HEIGHT - 1)
  {
    var n, last := ErasedLines(g, y, 0), y + CHARACTER_HEIGHT - 1;
    if n == CHARACTER_HEIGHT {
      assert y <= last < y + n;
    } else {
      LaterRowsTripToo(g, y + n, last);
    }
  }

  lemma FilledRowsStep(g: Screen, m: seq<byte>, lo: nat, n: nat)
    requires Fits(g, |m|) && lo + n < g.height
    ensures Row(g, lo + n) + Size(g) <= |m|
    ensures FilledRows(g, m, lo, n + 1) == Filled(FilledRows(g, m, lo, n), Row(g, lo + n), 0, Size(g))
  {
    RowInside(g, lo + n, |m|);
  }

  lemma CopiedRowsStep(g: Screen, m: seq<byte>, lo: nat, n: nat)
    requires Fits(g, |m|) && lo + n + CHARACTER_HEIGHT < g.height
    ensures Row(g, lo + n) + Size(g) <= |m| && Row(g, lo + n + CHARACTER_HEIGHT) + Size(g) <= |m|
    ensures CopiedRows(g, m, lo, n + 1)
         == ByteCopy(CopiedRows(g, m, lo, n), Row(g, lo + n), Row(g, lo + n + CHARACTER_HEIGHT), Size(g))
  {
    RowInside(g, lo + n, |m|);
    RowInside(g, lo + n + CHARACTER_HEIGHT, |m|);
  }

  lemma LaterRowsTripToo(g: Screen, r: nat, r': nat)
    ensures r <= r' && GuardTrips(g, r) ==> GuardTrips(g, r')
  {
    if r <= r' {
      Multiply(r, r', Stride(g));
    }
  }

  // ----- the cursor

  datatype Cursor = Cursor(x: nat, y: nat)

  /** The cursor is on a whole line, inside the console, with a line to spare. */
  predicate Placed(g: Screen, c: Cursor) {
    c.x < g.cursorWidth && c.y % CHARACTER_HEIGHT == 0 && c.y + CHARACTER_HEIGHT < g.cursorHeight
  }

  /** A line further down would leave no room. */
  predicate AtBottom(g: Screen, c: Cursor) {
    c.y + 2 * CHARACTER_HEIGHT >= g.cursorHeight
  }

  function Down(g: Screen, c: Cursor): Cursor {
    if AtBottom(g, c) then c else c.(y := c.y + CHARACTER_HEIGHT)
  }

  function Returned(g: Screen, c: Cursor): Cursor {
    c.(x := g.offsetX)
  }

  function Left(g: Screen, c: Cursor): Cursor
    requires g.cursorWidth >= CHARACTER_WIDTH
  {
    if c.x >= CHARACTER_WIDTH then c.(x := c.x - CHARACTER_WIDTH)
    else if c.y >= CHARACTER_HEIGHT then Cursor(g.cursorWidth - CHARACTER_WIDTH, c.y - CHARACTER_HEIGHT)
    else c
  }

  function Right(g: Screen, c: Cursor): Cursor {
    if c.x + CHARACTER_WIDTH >= g.cursorWidth then Down(g, Returned(g, c)) else c.(x := c.x + CHARACTER_WIDTH)
  }

  /** The console is at least a character wide and its left edge is inside it. */
  predicate Usable(g: Screen) {
    CHARACTER_WIDTH <= g.cursorWidth && g.offsetX < g.cursorWidth
  }

  function Moved(g: Screen, c: Cursor, ch: char): Cursor
    requires Usable(g)
  {
    if ch == '\U{8}' then Left(g, c)
    else if ch == '\n' then Down(g, Returned(g, c))
    else if ch == '\r' then Returned(g, c)
    else if ' ' <= ch <= '~' then Right(g, c)
    else c
  }

  function MovedAll(g: Screen, c: Cursor, text: string): Cursor
    requires Usable(g)
    decreases |text|
  {
    if text == [] then c else MovedAll(g, Moved(g, c, text[0]), text[1..])
  }

  /** Whatever is displayed, the cursor stays placed. */
  lemma {:induction false} TextKeepsPlaced(g: Screen, c: Cursor, text: string)
    requires Usable(g) && Placed(g, c)
    ensures Placed(g, MovedAll(g, c, text))
    decreases |text|
  {
    if text != [] {
      TextKeepsPlaced(g, Moved(g, c, text[0]), text[1..]);
    }
  }

  /** With two rows of frame below the console, the check never stops a scroll. */
  lemma GuardNeverTrips(g: Screen, c: Cursor)
    requires Placed(g, c) && g.originX + g.cursorWidth <= g.width && g.cursorHeight + 2 <= g.height
    ensures !GuardTrips(g, c.y + CHARACTER_HEIGHT - 1)
  {
    var r := c.y + CHARACTER_HEIGHT - 1;
    RowFits(g);
    Multiply(g.cursorWidth, g.width, g.depth);
    Multiply(r + 4, g.height, Stride(g));
    FourMore(r, Stride(g));
  }

  lemma FourMore(r: nat, c: nat)
    ensures Times(r + 4, c) == Times(r, c) + 4 * c
  {
    assert Times(r + 4, c) == Times(r + 3, c) + c == Times(r + 2, c) + c + c;
    assert Times(r + 2, c) == Times(r + 1, c) + c == Times(r, c) + c + c;
  }

  /** The check in pixels: it counts the console's part of the row four times. */
  lemma GuardInPixels(g: Screen, r: nat)
    requires g.depth > 0
    ensures GuardTrips(g, r) <==> g.originX + Times(r, g.width) + 4 * g.cursorWidth > Times(g.height, g.width)
  {
    var d := g.depth;
    TimesOfTimes(r, g.width, d);
    TimesOfTimes(g.height, g.width, d);
    TimesOfSum(g.originX, Times(r, g.width), d);
    FourTimes(g.cursorWidth, d);
    TimesOfSum(g.originX + Times(r, g.width), 4 * g.cursorWidth, d);
    MultiplyStrictly(Times(g.height, g.width), g.originX + Times(r, g.width) + 4 * g.cursorWidth, d);
  }

  lemma FourTimes(w: nat, d: nat)
    ensures Times(4 * w, d) == 4 * Times(w, d)
  {
    TimesOfSum(w, w, d);
    TimesOfSum(2 * w, 2 * w, d);
  }

  /** On a console as wide as the frame the check stops exactly in the last three
      rows of the frame, so the two rows are needed. */
  lemma GuardTripsIff(g: Screen, r: nat)
    requires g.originX == 0 && g.cursorWidth == g.width && g.width > 0 && g.depth > 0
    ensures GuardTrips(g, r) <==> r + 4 > g.height
  {
    GuardInPixels(g, r);
    FourMore(r, g.width);
    MultiplyStrictly(g.height, r + 4, g.width);
  }

  /** A scroll that leaves the cursor on row `y` is not completed. Without a console row
      above the cursor nothing is done and the check is not reached. */
  predicate ScrollStops(g: Screen, y: nat) {
    g.offsetY < y && GuardTrips(g, y + CHARACTER_HEIGHT - 1)
  }

  /** A full-screen console scrolls only on its bottom line, and there the scroll is not
      completed if and only if the frame's height is 1 or 2 above a multiple of 20 and
      the console has more than one line. */
  lemma FullScreenStopsIff(g: Screen, c: Cursor)
    requires g.originX == 0 && g.cursorWidth == g.width && g.depth > 0 && g.cursorHeight == g.height
    requires Placed(g, c) && AtBottom(g, c)
    ensures ScrollStops(g, c.y) <==> g.offsetY < c.y && 1 <= g.height % CHARACTER_HEIGHT <= 2
  {
    GuardTripsIff(g, c.y + CHARACTER_HEIGHT - 1);
  }
}
