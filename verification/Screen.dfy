/** The text screen of drivers/screen.c: video memory, the cursor registers, and scrolling in place. */
module Screen {
  import opened Bits

  const MAX_ROWS: nat := 25
  const MAX_COLS: nat := 80
  const ROW_BYTES: nat := 160
  const SCREEN_BYTES: nat := 4000
  const WHITE_ON_BLACK: byte := 0x0F
  const RED_ON_WHITE: byte := 0xF4
  const NEWLINE: byte := 10
  const BACKSPACE: byte := 8
  const SPACE: byte := 32

  // ----- offsets and the cursor

  function Offset(col: int, row: int): int { 2 * (row * MAX_COLS + col) }
  function OffsetRow(offset: nat): nat { offset / (2 * MAX_COLS) }
  function OffsetCol(offset: nat): nat { (offset - OffsetRow(offset) * 2 * MAX_COLS) / 2 }

  /** Row and column name an offset, and every even offset names its row and column. */
  lemma OffsetRoundTrip(col: nat, row: nat, offset: nat)
    requires col < MAX_COLS
    ensures OffsetRow(Offset(col, row)) == row && OffsetCol(Offset(col, row)) == col
    ensures OffsetCol(offset) < MAX_COLS
    ensures Offset(OffsetCol(offset), OffsetRow(offset)) == offset <==> offset % 2 == 0
  {
  }

  /** The two cursor registers, and the offset they stand for. */
  function CursorHigh(offset: nat): byte { offset / 2 / 0x100 % 0x100 }
  function CursorLow(offset: nat): byte { offset / 2 % 0x100 }
  function CursorOffset(high: byte, low: byte): nat { (high * 0x100 + low) * 2 }

  /** The registers give back the offset exactly when it is even and they can hold half of it. */
  lemma CursorRoundTripIff(offset: nat)
    ensures CursorOffset(CursorHigh(offset), CursorLow(offset)) == offset
       <==> offset % 2 == 0 && offset < 0x2_0000
  {
    var position := offset / 2;
    assert position == 0x100 * (position / 0x100) + position % 0x100;
    assert position < 0x1_0000 <==> position / 0x100 < 0x100;
  }

  // ----- one character

  /** A character and its attribute byte. */
  datatype Cell = Cell(c: byte, attr: byte)

  const ERROR: Cell := Cell('E' as byte, RED_ON_WHITE)

  type Video = s: seq<byte> | |s| == SCREEN_BYTES witness seq(SCREEN_BYTES, _ => 0)

  function SetCell(mem: Video, offset: nat, cell: Cell): Video
    requires offset + 1 < SCREEN_BYTES
  {
    mem[offset := cell.c][offset + 1 := cell.attr]
  }

  /** Every row moves up by one and the last one is blank. */
  function Scrolled(mem: Video): Video { mem[ROW_BYTES..] + seq(ROW_BYTES, _ => 0) }

  function Scroll(mem: Video, offset: nat): (Video, nat) {
    if offset >= SCREEN_BYTES then (Scrolled(mem), offset - ROW_BYTES) else (mem, offset)
  }

  predicate OnScreen(offset: nat) { offset % 2 == 0 && offset < SCREEN_BYTES }

  /** Whether a character can be printed there: a backspace needs a cell to its left, other characters one of their own,
      and a newline none. */
  predicate Printable(offset: nat, c: byte) {
    c == NEWLINE || if c == BACKSPACE then 2 <= offset <= SCREEN_BYTES else offset + 1 < SCREEN_BYTES
  }

  /** Where `print_char` stores the character and its attribute, relative to video memory. */
  function Stores(offset: nat, c: byte): seq<int> {
    if c == NEWLINE then [] else if c == BACKSPACE then [offset - 2, offset - 1] else [offset, offset + 1]
  }

  /** Those are exactly the characters whose stores stay in video memory. */
  lemma PrintableIff(offset: nat, c: byte)
    ensures Printable(offset, c) <==> forall a <- Stores(offset, c) :: 0 <= a < SCREEN_BYTES
  {
    var stores := Stores(offset, c);
    if c != NEWLINE {
      assert stores[0] in stores && stores[1] in stores;
    }
  }

  /** `print_char` at an offset on the screen: the memory and the offset after it. */
  function Put(mem: Video, offset: nat, cell: Cell): (Video, nat)
    requires Printable(offset, cell.c)
  {
    if cell.c == NEWLINE then Scroll(mem, Offset(0, OffsetRow(offset) + 1))
    else if cell.c == BACKSPACE then (SetCell(mem, offset - 2, Cell(SPACE, WHITE_ON_BLACK)), offset - 2)
    else Scroll(SetCell(mem, offset, cell), offset + 2)
  }

  lemma PutStays(mem: Video, offset: nat, cell: Cell)
    requires OnScreen(offset) && Printable(offset, cell.c)
    ensures OnScreen(Put(mem, offset, cell).1)
  {
    hide SetCell, Scrolled;
  }

  /** The k-th byte of video memory once the character is stored, before any scrolling. */
  function Stored(mem: Video, offset: nat, cell: Cell, k: nat): byte
    requires k < 4000
  {
    if cell.c == 10 then mem[k]
    else if cell.c == 8 then if k == offset - 2 then 32 else if k == offset - 1 then 0x0F else mem[k]
    else if k == offset then cell.c else if k == offset + 1 then cell.attr else mem[k]
  }

  /** What printing does, byte by byte: a character and its attribute at the offset, which moves on by two; a blank in
      white on black two bytes back; or on to the next multiple of 160. From 4000 on, all bytes move up by 160, the last
      160 are zero, and the offset goes back by as many. */
  lemma PutMeans(mem: Video, offset: nat, cell: Cell, k: nat)
    requires Printable(offset, cell.c) && k < 4000
    ensures var reached: nat := if cell.c == 10 then offset / 160 * 160 + 160
                                else if cell.c == 8 then offset - 2 else offset + 2;
            var (mem', offset') := Put(mem, offset, cell);
            if reached < 4000 then offset' == reached && mem'[k] == Stored(mem, offset, cell, k)
            else
              && offset' == reached - 160
              && mem'[k] == if k < 3840 then Stored(mem, offset, cell, k + 160) else 0
  {
  }

  function Coloured(c: byte, attr: byte): Cell { Cell(c, if attr == 0 then WHITE_ON_BLACK else attr) }

  // PutAll: the characters one after the other, each at the offset the one before it left.
  predicate PrintableAll(mem: Video, offset: nat, cells: seq<Cell>)
    decreases |cells|, 0
  {
    if cells == [] then true
    else
      var front, last := cells[..|cells| - 1], cells[|cells| - 1];
      PrintableAll(mem, offset, front) && Printable(PutAll(mem, offset, front).1, last.c)
  }

  function PutAll(mem: Video, offset: nat, cells: seq<Cell>): (Video, nat)
    requires PrintableAll(mem, offset, cells)
    decreases |cells|, 1
  {
    if cells == [] then (mem, offset)
    else
      var (m, o) := PutAll(mem, offset, cells[..|cells| - 1]);
      Put(m, o, cells[|cells| - 1])
  }

  /** The characters of a message in white on black. */
  function Message(text: seq<byte>): (cells: seq<Cell>)
    ensures |cells| == |text| && forall i | 0 <= i < |text| :: cells[i] == Cell(text[i], 0x0F)
  {
    seq(|text|, i requires 0 <= i < |text| => Cell(text[i], WHITE_ON_BLACK))
  }

  // ----- a message

  /** Between two characters of `kprint_at`: memory, cursor, and where the next character goes. */
  datatype Spot = Spot(mem: Video, cursor: nat, col: nat, row: nat)

  predicate Beyond(s: Spot) { s.col >= MAX_COLS || s.row >= MAX_ROWS }

  predicate Prints(s: Spot, c: byte) { Beyond(s) || Printable(Offset(s.col, s.row), c) }

  function Turn(s: Spot, c: byte): Spot
    requires Prints(s, c)
  {
    var offset: nat := Offset(s.col, s.row);
    if Beyond(s) then
      Spot(SetCell(s.mem, SCREEN_BYTES - 2, ERROR), s.cursor, OffsetCol(offset), OffsetRow(offset))
    else
      var (mem, next) := Put(s.mem, offset, Cell(c, WHITE_ON_BLACK));
      Spot(mem, next, OffsetCol(next), OffsetRow(next))
  }

  predicate PrintsAll(s: Spot, text: seq<byte>)
    decreases |text|, 0
  {
    text == [] || (PrintsAll(s, text[..|text| - 1]) && Prints(Turns(s, text[..|text| - 1]), text[|text| - 1]))
  }

  function Turns(s: Spot, text: seq<byte>): Spot
    requires PrintsAll(s, text)
    decreases |text|, 1
  {
    if text == [] then s else Turn(Turns(s, text[..|text| - 1]), text[|text| - 1])
  }

  lemma PrintsUpTo(s: Spot, text: seq<byte>, i: nat)
    requires PrintsAll(s, text) && i <= |text|
    ensures PrintsAll(s, text[..i])
    decreases |text|
  {
    hide Turn, Prints;
    if i == |text| {
      assert text[..i] == text;
    } else {
      PrintsUpTo(s, text[..|text| - 1], i);
      assert text[..|text| - 1][..i] == text[..i];
    }
  }

  lemma TurnOne(s: Spot, text: seq<byte>, i: nat)
    requires PrintsAll(s, text) && i < |text|
    ensures PrintsAll(s, text[..i]) && PrintsAll(s, text[..i + 1])
    ensures Prints(Turns(s, text[..i]), text[i])
    ensures Turns(s, text[..i + 1]) == Turn(Turns(s, text[..i]), text[i])
  {
    hide Turn, Prints;
    PrintsUpTo(s, text, i);
    PrintsUpTo(s, text, i + 1);
    assert text[..i + 1][..i] == text[..i];
  }

  /** From a place on the screen a message is its characters one after the other, each where the one before left off. */
  lemma {:induction false} MessageOnScreen(s: Spot, text: seq<byte>)
    requires !Beyond(s)
    ensures PrintsAll(s, text) <==> PrintableAll(s.mem, Offset(s.col, s.row), Message(text))
    ensures PrintsAll(s, text) ==>
              var (mem, offset) := PutAll(s.mem, Offset(s.col, s.row), Message(text));
              && OnScreen(offset)
              && Turns(s, text)
                 == Spot(mem, if text == [] then s.cursor else offset, OffsetCol(offset), OffsetRow(offset))
    decreases |text|
  {
    hide Put;
    var start: nat := Offset(s.col, s.row);
    OffsetRoundTrip(s.col, s.row, start);
    if text != [] {
      var front, c := text[..|text| - 1], text[|text| - 1];
      MessageOnScreen(s, front);
      assert Message(text)[..|text| - 1] == Message(front);
      if PrintsAll(s, front) {
        var (mem, offset) := PutAll(s.mem, start, Message(front));
        OffsetRoundTrip(0, 0, offset);
        if Printable(offset, c) { PutStays(mem, offset, Cell(c, WHITE_ON_BLACK)); }
      }
    }
  }

  lemma AtPlace(s: Spot, text: seq<byte>)
    requires PrintsAll(s, text)
    ensures s.col < 80 && s.row < 25 ==>
              && PrintableAll(s.mem, 160 * s.row + 2 * s.col, Message(text))
              && var (mem, next) := PutAll(s.mem, 160 * s.row + 2 * s.col, Message(text));
                 Turns(s, text).mem == mem && Turns(s, text).cursor == if text == [] then s.cursor else next
  {
    hide Turns, PrintsAll, PrintableAll, PutAll;
    if s.col < 80 && s.row < 25 { MessageOnScreen(s, text); }
  }

  /** The place that row and column of a cursor on the screen name is the cursor's. */
  lemma FromCursor(offset: nat)
    ensures OnScreen(offset) ==>
              && OffsetCol(offset) < 80 && OffsetRow(offset) < 25
              && 160 * OffsetRow(offset) + 2 * OffsetCol(offset) == offset
  {
    OffsetRoundTrip(0, 0, offset);
  }

  /** From a place below the screen a message is a single red E, however long it is. */
  lemma {:induction false} MessageBeyond(s: Spot, text: seq<byte>)
    requires Offset(s.col, s.row) >= SCREEN_BYTES
    ensures PrintsAll(s, text)
    ensures Offset(Turns(s, text).col, Turns(s, text).row) == Offset(s.col, s.row)
    ensures Turns(s, text).cursor == s.cursor
    ensures Turns(s, text).mem == if text == [] then s.mem else SetCell(s.mem, SCREEN_BYTES - 2, ERROR)
    decreases |text|
  {
    if text != [] {
      var front, c := text[..|text| - 1], text[|text| - 1];
      MessageBeyond(s, front);
      SetTwice(s.mem, ERROR);
      hide SetCell, Turn, Offset, Prints;
      TurnBeyond(Turns(s, front), c);
    }
  }

  lemma TurnBeyond(s: Spot, c: byte)
    requires Offset(s.col, s.row) >= SCREEN_BYTES
    ensures Prints(s, c)
    ensures var t := Turn(s, c);
            && Offset(t.col, t.row) == Offset(s.col, s.row)
            && t.cursor == s.cursor && t.mem == SetCell(s.mem, SCREEN_BYTES - 2, ERROR)
  {
    hide SetCell, OffsetRow, OffsetCol, Put, Printable;
    var offset: nat := Offset(s.col, s.row);
    assert offset % 2 == 0 && Beyond(s);
    OffsetRoundTrip(0, 0, offset);
    hide Offset, Beyond;
  }

  lemma SetTwice(mem: Video, cell: Cell)
    ensures SetCell(SetCell(mem, SCREEN_BYTES - 2, cell), SCREEN_BYTES - 2, cell)
         == SetCell(mem, SCREEN_BYTES - 2, cell)
  {
  }

  /** The error cell: an E in red on white in the last two bytes of video memory, and nothing else changes. */
  lemma ErrorMeans(mem: Video)
    ensures SetCell(mem, SCREEN_BYTES - 2, ERROR) == mem[..3998] + ['E' as byte, 0xF4]
  {
  }

  // ----- the code

  class TextScreen {
    const vidmem: array<byte>
    var cursorHigh: byte
    var cursorLow: byte

    ghost predicate Valid()
      reads this, vidmem
    {
      vidmem.Length == SCREEN_BYTES
    }

    ghost function Memory(): Video
      requires Valid()
      reads this, vidmem
    {
      vidmem[..]
    }

    function GetCursorOffset(): (offset: nat)
      reads this
      ensures offset == 2 * (0x100 * cursorHigh as int + cursorLow as int)
    {
      CursorOffset(cursorHigh, cursorLow)
    }

    method SetCursorOffset(offset: nat)
      modifies this`cursorHigh, this`cursorLow
      ensures cursorHigh == CursorHigh(offset) && cursorLow == CursorLow(offset)
      ensures cursorHigh == offset / 2 / 0x100 % 0x100 && cursorLow == offset / 2 % 0x100
      ensures GetCursorOffset() == offset <==> offset % 2 == 0 && offset < 0x2_0000
    {
      var position := offset / 2;
      cursorHigh := position / 0x100 % 0x100;
      cursorLow := position % 0x100;
      CursorRoundTripIff(offset);
    }

    /** `memcpy` within video memory, towards the front. */
    method CopyBytes(dest: nat, source: nat, nbytes: nat)
      requires Valid() && dest <= source && source + nbytes <= SCREEN_BYTES
      modifies vidmem
      ensures forall k :: dest <= k < dest + nbytes ==> vidmem[k] == old(vidmem[k + (source - dest)])
      ensures forall k :: 0 <= k < dest || dest + nbytes <= k < SCREEN_BYTES ==> vidmem[k] == old(vidmem[k])
    {
      var i := 0;
      while i < nbytes
        invariant 0 <= i <= nbytes
        invariant forall k :: dest <= k < dest + i ==> vidmem[k] == old(vidmem[k + (source - dest)])
        invariant forall k :: 0 <= k < dest || dest + i <= k < SCREEN_BYTES ==> vidmem[k] == old(vidmem[k])
      {
        vidmem[dest + i] := vidmem[source + i];
        i := i + 1;
      }
    }

    /** Rows 1 to 24 move up by one. */
    method MoveRows()
      requires Valid()
      modifies vidmem
      ensures forall k :: 0 <= k < SCREEN_BYTES - ROW_BYTES ==> vidmem[k] == old(vidmem[k + ROW_BYTES])
    {
      var i: nat := 1;
      while i < MAX_ROWS
        invariant 1 <= i <= MAX_ROWS
        invariant forall k :: 0 <= k < ROW_BYTES * (i - 1) ==> vidmem[k] == old(vidmem[k + ROW_BYTES])
        invariant forall k :: ROW_BYTES * (i - 1) <= k < SCREEN_BYTES ==> vidmem[k] == old(vidmem[k])
      {
        CopyBytes(Offset(0, i - 1), Offset(0, i), MAX_COLS * 2);
        i := i + 1;
      }
    }

    /** The scroll at the end of `print_char`. */
    method ScrollUp()
      requires Valid()
      modifies vidmem
      ensures Valid() && Memory() == Scrolled(old(Memory()))
    {
      MoveRows();
      var lastLine := Offset(0, MAX_ROWS - 1);
      var i := 0;
      while i < MAX_COLS * 2
        invariant 0 <= i <= MAX_COLS * 2
        invariant forall k :: 0 <= k < lastLine ==> vidmem[k] == old(vidmem[k + ROW_BYTES])
        invariant forall k :: lastLine <= k < lastLine + i ==> vidmem[k] == 0
      {
        vidmem[lastLine + i] := 0;
        i := i + 1;
      }
    }

    /** The two stores that put a character and its attribute on the screen. */
    method Store(offset: nat, cell: Cell)
      requires Valid() && offset + 1 < SCREEN_BYTES
      modifies vidmem
      ensures Valid() && Memory() == SetCell(old(Memory()), offset, cell)
    {
      vidmem[offset] := cell.c;
      vidmem[offset + 1] := cell.attr;
    }

    /** `print_char`. A place beyond the screen leaves only a red E in the last cell; a negative one means the
        cursor. */
    method PrintChar(c: byte, col: int, row: int, attr: byte) returns (offset: int)
      requires Valid()
      requires col < MAX_COLS && row < MAX_ROWS ==> Printable(Place(col, row, GetCursorOffset()), c)
      modifies this`cursorHigh, this`cursorLow, vidmem
      ensures Valid()
      ensures col >= MAX_COLS || row >= MAX_ROWS ==>
        && Memory() == SetCell(old(Memory()), SCREEN_BYTES - 2, ERROR)
        && GetCursorOffset() == old(GetCursorOffset()) && offset == Offset(col, row)
        && Memory() == old(Memory())[..3998] + ['E' as byte, 0xF4]
      ensures col < MAX_COLS && row < MAX_ROWS ==>
        && (Memory(), offset) == Put(old(Memory()), Place(col, row, old(GetCursorOffset())), Coloured(c, attr))
        && GetCursorOffset() == offset
    {
      hide SetCell, Scrolled, CursorHigh, CursorLow;
      var attr' := if attr == 0 then WHITE_ON_BLACK else attr;
      if col >= MAX_COLS || row >= MAX_ROWS {
        ErrorMeans(Memory());
        Store(2 * MAX_COLS * MAX_ROWS - 2, ERROR);
        return Offset(col, row);
      }
      var place: nat;
      if col >= 0 && row >= 0 {
        place := Offset(col, row);
      } else {
        place := GetCursorOffset();
      }
      hide Put, CursorOffset;
      offset := PrintHere(place, Cell(c, attr'));
    }

    /** The rest of `print_char`, for an offset at which the character can be printed. */
    method PrintHere(place: nat, cell: Cell) returns (next: nat)
      requires Valid() && Printable(place, cell.c) && place % 2 == 0 && place < 0x2_0000
      modifies this`cursorHigh, this`cursorLow, vidmem
      ensures Valid() && (Memory(), next) == Put(old(Memory()), place, cell) && GetCursorOffset() == next
    {
      hide SetCell, Scrolled, CursorHigh, CursorLow, CursorOffset;
      if cell.c == NEWLINE {
        next := Offset(0, OffsetRow(place) + 1);
      } else if cell.c == BACKSPACE {
        next := place - 2;
        Store(next, Cell(SPACE, 0x0F));
      } else {
        Store(place, cell);
        next := place + 2;
      }
      next := ScrollFor(next);
      SetCursorOffset(next);
    }

    /** The scroll, when the next character would go below the last row. */
    method ScrollFor(offset: nat) returns (next: nat)
      requires Valid()
      modifies vidmem
      ensures Valid() && (Memory(), next) == Scroll(old(Memory()), offset)
    {
      hide Scrolled;
      next := offset;
      if next >= MAX_ROWS * MAX_COLS * 2 {
        ScrollUp();
        next := next - 2 * MAX_COLS;
      }
    }

    /** `put_char`: a character at the cursor, white on black if no colour is given. */
    method PutChar(a: byte, attr: byte)
      requires Valid() && Printable(GetCursorOffset(), a)
      modifies this`cursorHigh, this`cursorLow, vidmem
      ensures Valid()
      ensures (Memory(), GetCursorOffset())
           == Put(old(Memory()), old(GetCursorOffset()), Cell(a, if attr == 0 then 0x0F else attr))
    {
      hide Put, CursorOffset;
      var colour := if attr == 0 then WHITE_ON_BLACK else attr;
      var _ := PrintChar(a, -1, -1, colour);
    }

    /** One `put_char` after the other, as all printing of the kernel does it. */
    method PutChars(cells: seq<Cell>)
      requires Valid() && PrintableAll(Memory(), GetCursorOffset(), Shades(cells))
      modifies this`cursorHigh, this`cursorLow, vidmem
      ensures Valid()
      ensures (Memory(), GetCursorOffset()) == PutAll(old(Memory()), old(GetCursorOffset()), Shades(cells))
    {
      ghost var mem, start, all := Memory(), GetCursorOffset(), Shades(cells);
      hide Put, CursorOffset, Printable;
      var i: nat := 0;
      while i < |cells|
        invariant i <= |cells| && Valid() && PrintableAll(mem, start, all[..i])
        invariant (Memory(), GetCursorOffset()) == PutAll(mem, start, all[..i])
      {
        PutOne(mem, start, all, i);
        PutChar(cells[i].c, cells[i].attr);
        i := i + 1;
      }
      assert all[..i] == all;
    }

    /** After `clear_screen`, whatever text without backspaces is put at the cursor: every cell of the screen shows the
        paper's cell 25 rows from its end. */
    method ClearAndPut(cells: seq<Cell>)
      requires Valid() && NoBackspace(Shades(cells))
      modifies this`cursorHigh, this`cursorLow, vidmem
      ensures Valid() && OnScreen(GetCursorOffset())
      ensures var paper := Paper(Shades(cells));
              var top := 80 * FirstRow(paper);
              && GetCursorOffset() == 2 * (|paper| - top)
              && forall k | 0 <= k < 2000 :: CellAt(Memory(), k) == OnPaper(paper, top + k)
    {
      ClearScreen();
      ghost var all := Shades(cells);
      ScreenShowsPaper(all);
      hide PutAll, PrintableAll, Paper, FirstRow, OnPaper, Window, Blank, CursorOffset;
      PutChars(cells);
    }

    /** `kprint_at`: at a given place or, when a coordinate is negative, at the cursor as `kprint` does. The message is
        given up to its terminating zero byte. */
    method PrintAt(message: seq<byte>, col: int, row: int)
      requires Valid() && PrintsAll(Start(col, row), message)
      modifies this`cursorHigh, this`cursorLow, vidmem
      ensures Valid()
      ensures var end := Turns(old(Start(col, row)), message); Memory() == end.mem && GetCursorOffset() == end.cursor
      ensures (col < 0 || row < 0) && OnScreen(old(GetCursorOffset())) ==>
        && PrintableAll(old(Memory()), old(GetCursorOffset()), Message(message))
        && (Memory(), GetCursorOffset()) == PutAll(old(Memory()), old(GetCursorOffset()), Message(message))
      ensures 0 <= col < 80 && 0 <= row < 25 ==>
        && PrintableAll(old(Memory()), 160 * row + 2 * col, Message(message))
        && var (mem, next) := PutAll(old(Memory()), 160 * row + 2 * col, Message(message));
           Memory() == mem && GetCursorOffset() == if message == [] then old(GetCursorOffset()) else next
    {
      ghost var start := Start(col, row);
      AtPlace(start, message);
      FromCursor(GetCursorOffset());
      hide PutAll, PrintableAll, Turns, PrintsAll, OffsetRow, OffsetCol, CursorOffset;
      PrintTurns(message, col, row);
    }

    /** The loop of `kprint_at`. */
    method PrintTurns(message: seq<byte>, col: int, row: int)
      requires Valid() && PrintsAll(Start(col, row), message)
      modifies this`cursorHigh, this`cursorLow, vidmem
      ensures Valid()
      ensures var end := Turns(old(Start(col, row)), message); Memory() == end.mem && GetCursorOffset() == end.cursor
    {
      ghost var start := Start(col, row);
      var col, row := col, row;
      if !(col >= 0 && row >= 0) {
        var offset := GetCursorOffset();
        row := OffsetRow(offset);
        col := OffsetCol(offset);
      }
      hide Turn, OffsetRow, OffsetCol, CursorOffset;
      var i: nat := 0;
      while i < |message|
        invariant i <= |message| && Valid() && col >= 0 && row >= 0 && PrintsAll(start, message[..i])
        invariant Spot(Memory(), GetCursorOffset(), col, row) == Turns(start, message[..i])
      {
        TurnOne(start, message, i);
        var offset := TakeTurn(message[i], col, row);
        row := OffsetRow(offset);
        col := OffsetCol(offset);
        i := i + 1;
      }
      assert message[..i] == message;
    }

    ghost function Start(col: int, row: int): Spot
      requires Valid()
      reads this, vidmem
    {
      if col >= 0 && row >= 0 then Spot(Memory(), GetCursorOffset(), col, row)
      else Spot(Memory(), GetCursorOffset(), OffsetCol(GetCursorOffset()), OffsetRow(GetCursorOffset()))
    }

    method TakeTurn(c: byte, col: nat, row: nat) returns (offset: nat)
      requires Valid() && Prints(Spot(Memory(), GetCursorOffset(), col, row), c)
      modifies this`cursorHigh, this`cursorLow, vidmem
      ensures Valid()
      ensures Spot(Memory(), GetCursorOffset(), OffsetCol(offset), OffsetRow(offset))
           == Turn(old(Spot(Memory(), GetCursorOffset(), col, row)), c)
    {
      hide Put, SetCell, OffsetRow, OffsetCol, CursorOffset;
      var next := PrintChar(c, col, row, WHITE_ON_BLACK);
      offset := next;
    }

    /** `clear_screen`. */
    method ClearScreen()
      requires Valid()
      modifies this`cursorHigh, this`cursorLow, vidmem
      ensures Valid() && GetCursorOffset() == 0
      ensures Memory() == Window(Blank().cells)
    {
      var screenSize := MAX_COLS * MAX_ROWS;
      var i := 0;
      while i < screenSize
        invariant 0 <= i <= screenSize
        invariant forall k :: 0 <= k < 2 * i ==> vidmem[k] == if k % 2 == 0 then SPACE else WHITE_ON_BLACK
      {
        vidmem[i * 2] := SPACE;
        vidmem[i * 2 + 1] := WHITE_ON_BLACK;
        i := i + 1;
      }
      SetCursorOffset(Offset(0, 0));
    }
  }

  function Shades(cells: seq<Cell>): seq<Cell> {
    seq(|cells|, i requires 0 <= i < |cells| => Coloured(cells[i].c, cells[i].attr))
  }

  function CellAt(mem: Video, k: nat): Cell
    requires k < 2000
  {
    Cell(mem[2 * k], mem[2 * k + 1])
  }

  lemma PutOne(mem: Video, offset: nat, cells: seq<Cell>, i: nat)
    requires PrintableAll(mem, offset, cells) && i < |cells|
    ensures PrintableAll(mem, offset, cells[..i]) && PrintableAll(mem, offset, cells[..i + 1])
    ensures var (m, o) := PutAll(mem, offset, cells[..i]);
            Printable(o, cells[i].c) && PutAll(mem, offset, cells[..i + 1]) == Put(m, o, cells[i])
  {
    hide Put, Printable;
    PrintableUpTo(mem, offset, cells, i);
    PrintableUpTo(mem, offset, cells, i + 1);
    assert cells[..i + 1][..i] == cells[..i];
  }

  lemma PrintableUpTo(mem: Video, offset: nat, cells: seq<Cell>, i: nat)
    requires PrintableAll(mem, offset, cells) && i <= |cells|
    ensures PrintableAll(mem, offset, cells[..i])
    decreases |cells|
  {
    hide Put, Printable;
    if i == |cells| {
      assert cells[..i] == cells;
    } else {
      var front := cells[..|cells| - 1];
      PrintableUpTo(mem, offset, front, i);
      assert front[..i] == cells[..i];
    }
  }

  /** Where `print_char` prints, given the cursor, when the place is not beyond the screen. */
  function Place(col: int, row: int, cursor: nat): nat
  {
    if col >= 0 && row >= 0 then Offset(col, row) else cursor
  }

  // ----- the unbounded transcript

  /** All rows ever printed, as one sequence of cells that only grows, and where the next character goes. */
  datatype Transcript = Transcript(cells: seq<Cell>, pos: nat)

  predicate Shaped(t: Transcript) { |t.cells| >= 2000 && |t.cells| % MAX_COLS == 0 && t.pos < |t.cells| }

  /** The next character goes into one of the last 25 rows. */
  predicate InView(t: Transcript) { Shaped(t) && |t.cells| - 2000 <= t.pos }

  function Blank(): Transcript { Transcript(seq(2000, _ => Cell(SPACE, WHITE_ON_BLACK)), 0) }

  /** Printing past the end appends a row. */
  function Grown(cells: seq<Cell>, pos: nat): Transcript {
    Transcript(if pos < |cells| then cells else cells + seq(MAX_COLS, _ => Cell(0, 0)), pos)
  }

  function Append(t: Transcript, cell: Cell): (r: Transcript)
    requires Shaped(t)
    ensures Shaped(r)
  {
    if cell.c == NEWLINE then Grown(t.cells, (t.pos / MAX_COLS + 1) * MAX_COLS)
    else if cell.c == BACKSPACE then
      if t.pos == 0 then t else Transcript(t.cells[t.pos - 1 := Cell(SPACE, WHITE_ON_BLACK)], t.pos - 1)
    else Grown(t.cells[t.pos := cell], t.pos + 1)
  }

  function AppendAll(cells: seq<Cell>): (t: Transcript)
    ensures Shaped(t)
  {
    if cells == [] then Blank() else Append(AppendAll(cells[..|cells| - 1]), cells[|cells| - 1])
  }

  function Bytes(cells: seq<Cell>): (mem: seq<byte>)
    ensures |mem| == 2 * |cells|
  {
    seq(2 * |cells|, i requires 0 <= i < 2 * |cells| => if i % 2 == 0 then cells[i / 2].c else cells[i / 2].attr)
  }

  /** The last 25 rows. */
  function Window(cells: seq<Cell>): Video
    requires |cells| >= 2000
  {
    Bytes(cells[|cells| - 2000..])
  }

  /** The offset on the screen of the transcript's next character. */
  function Cursor(t: Transcript): nat
    requires InView(t)
  {
    2 * (t.pos - (|t.cells| - 2000))
  }

  lemma GrownWindow(cells: seq<Cell>, pos: nat)
    requires |cells| >= 2000
    ensures Window(Grown(cells, pos).cells) == if pos < |cells| then Window(cells) else Scrolled(Window(cells))
  {
    var g := Grown(cells, pos).cells;
    if pos >= |cells| {
      var before, after := cells[|cells| - 2000..], g[|g| - 2000..];
      assert forall k :: 0 <= k < 1920 ==> after[k] == before[k + 80];
      assert forall k :: 1920 <= k < 2000 ==> after[k] == Cell(0, 0);
    }
  }

  lemma SetWindow(cells: seq<Cell>, pos: nat, cell: Cell)
    requires |cells| >= 2000 && |cells| - 2000 <= pos < |cells|
    ensures Window(cells[pos := cell]) == SetCell(Window(cells), 2 * (pos - (|cells| - 2000)), cell)
  {
    var base := |cells| - 2000;
    assert cells[pos := cell][base..] == cells[base..][pos - base := cell];
  }

  lemma NextRow(pos: nat, base: nat)
    requires base <= pos && base % MAX_COLS == 0
    ensures Offset(0, OffsetRow(2 * (pos - base)) + 1) == 2 * ((pos / MAX_COLS + 1) * MAX_COLS - base)
  {
    assert base == MAX_COLS * (base / MAX_COLS);
    var d := pos - base;
    assert d / MAX_COLS == pos / MAX_COLS - base / MAX_COLS;
    assert (2 * d) / 160 == d / 80;
  }

  /** One character on the screen is one character on the transcript. */
  lemma PutIsAppend(t: Transcript, cell: Cell)
    requires InView(t) && Printable(Cursor(t), cell.c)
    ensures var r := Append(t, cell);
            InView(r) && Put(Window(t.cells), Cursor(t), cell) == (Window(r.cells), Cursor(r))
  {
    var base := |t.cells| - 2000;
    hide SetCell, Scrolled, Window, Offset, OffsetRow;
    if cell.c == NEWLINE {
      NextRow(t.pos, base);
      GrownWindow(t.cells, (t.pos / MAX_COLS + 1) * MAX_COLS);
    } else if cell.c == BACKSPACE {
      SetWindow(t.cells, t.pos - 1, Cell(SPACE, WHITE_ON_BLACK));
    } else {
      SetWindow(t.cells, t.pos, cell);
      GrownWindow(t.cells[t.pos := cell], t.pos + 1);
    }
  }

  /** After `clear_screen`, whatever is printed at the cursor, backspaces included: the screen is the last 25 rows of
      the transcript, and the cursor is where the transcript goes on. */
  lemma {:induction false} ScreenShowsTranscript(cells: seq<Cell>)
    requires PrintableAll(Window(Blank().cells), 0, cells)
    ensures var t := AppendAll(cells);
            InView(t) && PutAll(Window(Blank().cells), 0, cells) == (Window(t.cells), Cursor(t))
    decreases |cells|
  {
    hide Put, Append, Window;
    if cells != [] {
      ScreenShowsTranscript(cells[..|cells| - 1]);
      hide Blank;
      PutIsAppend(AppendAll(cells[..|cells| - 1]), cells[|cells| - 1]);
    }
  }

  // ----- without backspaces

  predicate NoBackspace(cells: seq<Cell>) { forall cell <- cells :: cell.c != BACKSPACE }

  /** What was there before a cell was printed on: the cleared screen, or the blank row of a scroll. */
  function Unprinted(i: nat): Cell { if i < 2000 then Cell(SPACE, WHITE_ON_BLACK) else Cell(0, 0) }

  function Gap(from: nat, to: nat): seq<Cell>
    requires from <= to
  {
    seq(to - from, i requires 0 <= i < to - from => Unprinted(from + i))
  }

  /** The characters on 80-column paper: each one after the last, a newline leaving the rest of its row as it was. */
  function Paper(cells: seq<Cell>): seq<Cell> {
    if cells == [] then []
    else
      var paper, cell := Paper(cells[..|cells| - 1]), cells[|cells| - 1];
      if cell.c == NEWLINE then paper + Gap(|paper|, (|paper| / MAX_COLS + 1) * MAX_COLS)
      else paper + [cell]
  }

  function OnPaper(paper: seq<Cell>, i: nat): Cell { if i < |paper| then paper[i] else Unprinted(i) }

  /** The first row in view: there are never more than 25 down to the one being printed. */
  function FirstRow(paper: seq<Cell>): nat {
    var row := |paper| / MAX_COLS;
    if row < MAX_ROWS then 0 else row - (MAX_ROWS - 1)
  }

  /** Without backspaces anything can be printed. */
  lemma {:induction false} AlwaysPrintable(mem: Video, offset: nat, cells: seq<Cell>)
    requires OnScreen(offset) && NoBackspace(cells)
    ensures PrintableAll(mem, offset, cells) && OnScreen(PutAll(mem, offset, cells).1)
    decreases |cells|
  {
    hide Put;
    if cells != [] {
      var front, last := cells[..|cells| - 1], cells[|cells| - 1];
      AlwaysPrintable(mem, offset, front);
      var (m, o) := PutAll(mem, offset, front);
      assert Printable(o, last.c);
      PutStays(m, o, last);
    }
  }

  predicate HoldsPaper(t: Transcript, paper: seq<Cell>) {
    && Shaped(t) && t.pos == |paper|
    && |t.cells| == 80 * FirstRow(paper) + 2000
    && forall i :: 0 <= i < |t.cells| ==> t.cells[i] == OnPaper(paper, i)
  }

  lemma {:induction false} TranscriptIsPaper(cells: seq<Cell>)
    requires NoBackspace(cells)
    ensures HoldsPaper(AppendAll(cells), Paper(cells))
    decreases |cells|
  {
    if cells != [] {
      var front, last := cells[..|cells| - 1], cells[|cells| - 1];
      TranscriptIsPaper(front);
      hide AppendAll, Paper;
      AppendIsPaper(AppendAll(front), Paper(front), last);
    }
  }

  lemma AppendIsPaper(t: Transcript, paper: seq<Cell>, cell: Cell)
    requires HoldsPaper(t, paper) && cell.c != BACKSPACE
    ensures cell.c == NEWLINE ==>
      HoldsPaper(Append(t, cell), paper + Gap(|paper|, (|paper| / MAX_COLS + 1) * MAX_COLS))
    ensures cell.c != NEWLINE ==> HoldsPaper(Append(t, cell), paper + [cell])
  {
  }

  /** After `clear_screen`, for every sequence of characters other than backspace printed at the cursor: each cell of
      the screen is the one of the paper 25 rows from its end, and the cursor stays on the screen. */
  lemma ScreenShowsPaper(cells: seq<Cell>)
    requires NoBackspace(cells)
    ensures PrintableAll(Window(Blank().cells), 0, cells)
    ensures var (mem, offset) := PutAll(Window(Blank().cells), 0, cells);
            var paper := Paper(cells);
            var top := 80 * FirstRow(paper);
            && offset == 2 * (|paper| - top) && OnScreen(offset)
            && forall k | 0 <= k < 2000 :: CellAt(mem, k) == OnPaper(paper, top + k)
  {
    hide PrintableAll, PutAll, AppendAll, Paper, Blank, FirstRow, OnPaper;
    AlwaysPrintable(Window(Blank().cells), 0, cells);
    ScreenShowsTranscript(cells);
    TranscriptIsPaper(cells);
  }
}
