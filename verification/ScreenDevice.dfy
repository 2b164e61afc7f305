/** The console of Lab12 system/screen.c as the code has it: a framebuffer in memory
    and a cursor, updated in place, proved to act as ScreenModel and ConsoleText
    say. */
module ScreenDevice {
  import opened Bytes
  import opened Memory
  import opened Arithmetic
  import opened ScreenModel
  import opened ConsoleText

  /** The console's settings in configure.h. */
  datatype Configuration = Configuration(originX: nat, originY: nat, divisorX: nat, divisorY: nat)

  /** What screen_device_init leaves: the console is a fraction of the frame and starts a
      number of characters from its top left. */
  function Configured(buffer: nat, width: nat, height: nat, depth: nat, config: Configuration): (g: Screen)
    requires 0 < config.divisorX && 0 < config.divisorY
    ensures g.cursorWidth <= g.width && g.cursorHeight <= g.height
    ensures g.offsetX % CHARACTER_WIDTH == 0 && g.offsetY % CHARACTER_HEIGHT == 0
  {
    FractionIsSmaller(width, config.divisorX);
    FractionIsSmaller(height, config.divisorY);
    Screen(buffer, width, height, depth, config.originX,
           config.originX * CHARACTER_WIDTH, config.originY * CHARACTER_HEIGHT,
           width / config.divisorX, height / config.divisorY)
  }

  /** A character and a line of the console fit behind its offset. */
  predicate Suits(g: Screen) {
    && CHARACTER_WIDTH <= g.cursorWidth && g.offsetX < g.cursorWidth
    && g.offsetY + CHARACTER_HEIGHT < g.cursorHeight
  }

  const WORD := 0x1_0000_0000

  /** The size screen_init trims to the frame, in 32-bit arithmetic. */
  function Trimmed(size: nat, offset: nat, frame: nat): nat {
    if (offset + size) % WORD > frame then (frame - offset) % WORD else size
  }

  /** screen_device_init sets both sizes again, and does not trim them: what screen_init
      had set stays if and only if offset and size together are within the frame. */
  lemma TrimIsKeptIff(size: nat, offset: nat, frame: nat)
    requires size < WORD && offset < WORD && frame < WORD
    ensures Trimmed(size, offset, frame) == size <==> (offset + size) % WORD <= frame
  {
  }

  /** The game of Lab12 on a frame of 640 by 480: the height is trimmed to 280 and then
      set to 480 again, and with that the console suits. */
  lemma GameConsoleIsNotTrimmed(buffer: nat)
    ensures var config := Configuration(0, 10, 4, 1);
            var g := Configured(buffer, 640, 480, 2, config);
            && Trimmed(480 / config.divisorY, g.offsetY, 480) == 280 && g.cursorHeight == 480
            && Trimmed(640 / config.divisorX, g.offsetX, 640) == g.cursorWidth == 160
            && Suits(g) && g.originX + g.cursorWidth <= g.width
  {
  }

  class Device {
    const g: Screen
    const memory: array<byte>
    var cursorX: nat
    var cursorY: nat

    ghost function View(): Console
      reads this, memory
    {
      Console(Cursor(cursorX, cursorY), memory[..])
    }

    /** The console fits the frame, the frame fits memory, the cursor is placed. */
    ghost predicate Valid()
      reads this
    {
      Fits(g, memory.Length) && Usable(g) && g.cursorHeight <= g.height
      && g.offsetY % CHARACTER_HEIGHT == 0 && Placed(g, Cursor(cursorX, cursorY))
    }

    /** screen_init and screen_device_init, for a framebuffer of `width` by `height`
        pixels found at `buffer`. Any configuration is taken; the console is valid if and
        only if it is one that suits it. */
    constructor (memory: array<byte>, buffer: nat, width: nat, height: nat, depth: nat, config: Configuration)
      requires 0 < config.divisorX && 0 < config.divisorY
      ensures this.memory == memory && g == Configured(buffer, width, height, depth, config)
      ensures cursorX == g.offsetX == 8 * config.originX && cursorY == g.offsetY == 20 * config.originY
      ensures g.cursorWidth == width / config.divisorX && g.cursorHeight == height / config.divisorY
      ensures g.originX == config.originX
      ensures Valid() <==> Fits(g, memory.Length) && Suits(g)
    {
      this.memory := memory;
      g := Configured(buffer, width, height, depth, config);
      cursorX, cursorY := config.originX * CHARACTER_WIDTH, config.originY * CHARACTER_HEIGHT;
    }

    /** Moves the cursor up a line and the rows above it with it. `complete` is false
        when the overflow check stopped the erasing. */
    method Scroll() returns (complete: bool)
      requires Fits(g, memory.Length) && g.offsetY % CHARACTER_HEIGHT == 0
      requires CHARACTER_HEIGHT <= cursorY <= g.height && cursorY % CHARACTER_HEIGHT == 0
      modifies this`cursorY, memory
      ensures cursorY == old(cursorY) - CHARACTER_HEIGHT
      ensures memory[..] == Scrolled(g, old(memory[..]), cursorY)
      ensures complete <==> !ScrollStops(g, cursorY)
    {
      cursorY := cursorY - CHARACTER_HEIGHT;
      if g.offsetY < cursorY {
        CopyLines();
        ErasesAllIff(g, cursorY);
        complete := EraseLine();
      } else {
        complete := true;
      }
    }

    /** The copying loop, which runs when a console row lies above the cursor. */
    method CopyLines()
      requires Fits(g, memory.Length) && g.offsetY % CHARACTER_HEIGHT == 0 && cursorY % CHARACTER_HEIGHT == 0
      requires g.offsetY < cursorY && cursorY + CHARACTER_HEIGHT <= g.height
      modifies memory
      ensures memory[..] == CopiedRows(g, old(memory[..]), g.offsetY, cursorY - g.offsetY)
    {
      ghost var m := memory[..];
      var y := g.offsetY;
      while y < cursorY
        invariant y % CHARACTER_HEIGHT == 0 && g.offsetY <= y <= cursorY
        invariant memory[..] == CopiedRows(g, m, g.offsetY, y - g.offsetY)
      {
        NextLine(y, cursorY);
        CopyLine(y, m);
        y := y + CHARACTER_HEIGHT;
      }
    }

    /** The inner loop of the copy: one character line, row by row. */
    method CopyLine(y: nat, ghost m: seq<byte>)
      requires Fits(g, memory.Length) && |m| == memory.Length && g.offsetY <= y
      requires y + 2 * CHARACTER_HEIGHT <= g.height
      requires memory[..] == CopiedRows(g, m, g.offsetY, y - g.offsetY)
      modifies memory
      ensures memory[..] == CopiedRows(g, m, g.offsetY, y + CHARACTER_HEIGHT - g.offsetY)
    {
      var lines := 0;
      while lines < CHARACTER_HEIGHT
        invariant 0 <= lines <= CHARACTER_HEIGHT
        invariant memory[..] == CopiedRows(g, m, g.offsetY, y + lines - g.offsetY)
      {
        CopyRow(y + lines, m);
        lines := lines + 1;
      }
    }

    method CopyRow(r: nat, ghost m: seq<byte>)
      requires Fits(g, memory.Length) && |m| == memory.Length && g.offsetY <= r && r + CHARACTER_HEIGHT < g.height
      requires memory[..] == CopiedRows(g, m, g.offsetY, r - g.offsetY)
      modifies memory
      ensures memory[..] == CopiedRows(g, m, g.offsetY, r + 1 - g.offsetY)
    {
      CopiedRowsStep(g, m, g.offsetY, r - g.offsetY);
      MemCpy(memory, Row(g, r), Row(g, r + CHARACTER_HEIGHT), Size(g));
    }

    method EraseRow(lines: nat, ghost m: seq<byte>)
      requires Fits(g, memory.Length) && |m| == memory.Length && cursorY + lines < g.height
      requires memory[..] == FilledRows(g, m, cursorY, lines)
      modifies memory
      ensures memory[..] == FilledRows(g, m, cursorY, lines + 1)
    {
      var at, size := Row(g, cursorY + lines), Size(g);
      FilledRowsStep(g, m, cursorY, lines);
      MemSet(memory, at, 0, size);
    }

    method EraseLine() returns (complete: bool)
      requires Fits(g, memory.Length) && cursorY + CHARACTER_HEIGHT <= g.height
      modifies memory
      ensures memory[..] == FilledRows(g, old(memory[..]), cursorY, ErasedLines(g, cursorY, 0))
      ensures complete <==> ErasedLines(g, cursorY, 0) == CHARACTER_HEIGHT
    {
      ghost var m := memory[..];
      var lines := 0;
      while lines < CHARACTER_HEIGHT
        invariant 0 <= lines <= CHARACTER_HEIGHT
        invariant ErasedLines(g, cursorY, 0) == ErasedLines(g, cursorY, lines)
        invariant memory[..] == FilledRows(g, m, cursorY, lines)
      {
        if GuardTrips(g, cursorY + lines) {
          return false;
        }
        EraseRow(lines, m);
        lines := lines + 1;
      }
      return true;
    }

    method CarriageReturn()
      requires Valid()
      modifies this`cursorX
      ensures Valid() && View() == old(View()).(cursor := Returned(g, old(View()).cursor))
    {
      cursorX := g.offsetX;
    }

    method CursorDown()
      requires Valid()
      modifies this`cursorY, memory
      ensures Valid() && View() == LineDown(g, old(View()))
    {
      cursorY := cursorY + CHARACTER_HEIGHT;
      if cursorY + CHARACTER_HEIGHT >= g.cursorHeight {
        var _ := Scroll();
      }
    }

    method NewLine()
      requires Valid()
      modifies this, memory
      ensures Valid() && View() == LineDown(g, old(View()).(cursor := Returned(g, old(View()).cursor)))
    {
      CarriageReturn();
      CursorDown();
    }

    method CursorLeft()
      requires Valid()
      modifies this
      ensures Valid() && View() == old(View()).(cursor := Left(g, old(View()).cursor))
    {
      if cursorX >= CHARACTER_WIDTH {
        cursorX := cursorX - CHARACTER_WIDTH;
      } else if cursorY >= CHARACTER_HEIGHT {
        cursorX := g.cursorWidth - CHARACTER_WIDTH;
        cursorY := cursorY - CHARACTER_HEIGHT;
      }
    }

    method CursorRight()
      requires Valid()
      modifies this, memory
      ensures Valid()
      ensures old(cursorX) + CHARACTER_WIDTH < g.cursorWidth ==>
                View() == old(View()).(cursor := Right(g, old(View()).cursor))
      ensures old(cursorX) + CHARACTER_WIDTH >= g.cursorWidth ==>
                View() == LineDown(g, old(View()).(cursor := Returned(g, old(View()).cursor)))
    {
      if cursorX + CHARACTER_WIDTH >= g.cursorWidth {
        NewLine();
      } else {
        cursorX := cursorX + CHARACTER_WIDTH;
      }
    }

    method SetPixel(x: nat, y: nat, ink: seq<byte>)
      requires Fits(g, memory.Length) && |ink| == g.depth
      modifies memory
      ensures memory[..] == PixelSet(g, old(memory[..]), x, y, ink)
    {
      if x < g.width && y < g.height {
        PixelInside(g, x, y, memory.Length);
        PixelIndex(g, x, y);
        var a := g.buffer + (g.width * y + x) * g.depth;
        forall k | 0 <= k < |ink| {
          memory[a + k] := ink[k];
        }
      }
    }

    method DisplayCursorChar(ch: char, x: nat, y: nat, ink: seq<byte>, font: Font)
      requires Fits(g, memory.Length) && |ink| == g.depth
      modifies memory
      ensures memory[..] == if ch < ' ' then old(memory[..]) else Drawn(g, old(memory[..]), ch, x, y, ink, font, CELL)
    {
      ghost var m := memory[..];
      if ch < ' ' {
        return;
      }
      var fontY := 0;
      while fontY < CHARACTER_HEIGHT
        invariant 0 <= fontY <= CHARACTER_HEIGHT
        invariant memory[..] == Drawn(g, m, ch, x, y, ink, font, fontY * CHARACTER_WIDTH)
      {
        DisplayCharRow(ch, x, y, fontY, ink, font, m);
        fontY := fontY + 1;
      }
    }

    /** The inner loop: row `fontY` of the cell. */
    method DisplayCharRow(ch: char, x: nat, y: nat, fontY: nat, ink: seq<byte>, font: Font, ghost m: seq<byte>)
      requires Fits(g, memory.Length) && |ink| == g.depth && |m| == memory.Length
      requires memory[..] == Drawn(g, m, ch, x, y, ink, font, fontY * CHARACTER_WIDTH)
      modifies memory
      ensures memory[..] == Drawn(g, m, ch, x, y, ink, font, (fontY + 1) * CHARACTER_WIDTH)
    {
      ghost var k, end := fontY * CHARACTER_WIDTH, (fontY + 1) * CHARACTER_WIDTH;
      var fontX := 0;
      while fontX < CHARACTER_WIDTH
        invariant 0 <= fontX <= CHARACTER_WIDTH && k + CHARACTER_WIDTH == end + fontX
        invariant memory[..] == Drawn(g, m, ch, x, y, ink, font, k)
      {
        NextDot(ch, x, y, fontX, fontY, ink, font, m, k);
        fontX := fontX + 1;
        k := k + 1;
      }
      assert k == end;
    }

    method NextDot(ch: char, x: nat, y: nat, fontX: nat, fontY: nat, ink: seq<byte>, font: Font,
                   ghost m: seq<byte>, ghost k: nat)
      requires Fits(g, memory.Length) && |ink| == g.depth && |m| == memory.Length
      requires fontX < CHARACTER_WIDTH && k == fontY * CHARACTER_WIDTH + fontX
      requires memory[..] == Drawn(g, m, ch, x, y, ink, font, k)
      modifies memory
      ensures memory[..] == Drawn(g, m, ch, x, y, ink, font, k + 1)
    {
      DrawnStep(g, m, ch, x, y, ink, font, fontX, fontY, k);
      Dot(ch, x, y, fontX, fontY, ink, font);
    }

    method Dot(ch: char, x: nat, y: nat, fontX: nat, fontY: nat, ink: seq<byte>, font: Font)
      requires Fits(g, memory.Length) && |ink| == g.depth
      modifies memory
      ensures memory[..] == Dotted(g, old(memory[..]), ch, x, y, fontX, fontY, ink, font)
    {
      if font(ch, fontX, fontY) {
        SetPixel(x + fontX, y + fontY, ink);
      } else if ch == ' ' {
        SetPixel(x + fontX, y + fontY, Black(g));
      }
    }

    method DisplayCharacter(ch: char, ink: seq<byte>, font: Font)
      requires Valid() && |ink| == g.depth
      modifies this, memory
      ensures Valid() && View() == Displayed(g, old(View()), ch, ink, font)
    {
      if ch == '\U{8}' {
        CursorLeft();
      } else if ch == '\n' {
        NewLine();
      } else if ch == '\r' {
        CarriageReturn();
      } else if ' ' <= ch <= '~' {
        DisplayCursorChar(ch, cursorX, cursorY, ink, font);
        CursorRight();
      }
    }

    /** Displays up to `length` characters, stopping at a NUL; returns how many. */
    method DisplayString(text: string, length: nat, ink: seq<byte>, font: Font) returns (result: nat)
      requires Valid() && |ink| == g.depth
      requires length <= |text| || '\0' in text
      modifies this, memory
      ensures Valid()
      ensures result <= length && result <= |text| && '\0' !in text[..result]
      ensures result < length ==> result < |text| && text[result] == '\0'
      ensures View() == DisplayedAll(g, old(View()), text[..result], ink, font)
    {
      ghost var s := View();
      result := 0;
      while result < length && text[result] != '\0'
        invariant 0 <= result <= length && result <= |text| && Valid() && '\0' !in text[..result]
        invariant result < length ==> result < |text|
        invariant View() == DisplayedAll(g, s, text[..result], ink, font)
      {
        assert text[..result + 1] == text[..result] + [text[result]];
        OneMore(g, s, text[..result], text[result], ink, font);
        DisplayCharacter(text[result], ink, font);
        result := result + 1;
        assert result == |text| ==> text[..result] == text;
      }
    }
  }

  lemma NextLine(y: nat, end: nat)
    requires y % CHARACTER_HEIGHT == 0 && end % CHARACTER_HEIGHT == 0 && y < end
    ensures y + CHARACTER_HEIGHT <= end && (y + CHARACTER_HEIGHT) % CHARACTER_HEIGHT == 0
  {
  }

  lemma DrawnStep(g: Screen, m: seq<byte>, ch: char, x: nat, y: nat, ink: seq<byte>, font: Font,
                  fontX: nat, fontY: nat, k: nat)
    requires Fits(g, |m|) && |ink| == g.depth && fontX < CHARACTER_WIDTH
    requires k == fontY * CHARACTER_WIDTH + fontX
    ensures Drawn(g, m, ch, x, y, ink, font, k + 1)
         == Dotted(g, Drawn(g, m, ch, x, y, ink, font, k), ch, x, y, fontX, fontY, ink, font)
  {
    assert k % CHARACTER_WIDTH == fontX && k / CHARACTER_WIDTH == fontY;
  }

  lemma {:induction false} OneMore(g: Screen, s: Console, text: string, ch: char, ink: seq<byte>, font: Font)
    requires Fits(g, |s.memory|) && Usable(g) && Placed(g, s.cursor) && g.cursorHeight <= g.height && |ink| == g.depth
    ensures Placed(g, DisplayedAll(g, s, text, ink, font).cursor)
    ensures DisplayedAll(g, s, text + [ch], ink, font)
         == Displayed(g, DisplayedAll(g, s, text, ink, font), ch, ink, font)
    decreases |text|
  {
    if text == [] {
      assert (text + [ch])[1..] == [];
    } else {
      assert (text + [ch])[1..] == text[1..] + [ch];
      OneMore(g, Displayed(g, s, text[0], ink, font), text[1..], ch, ink, font);
    }
  }
}
