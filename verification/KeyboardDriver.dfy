/** drivers/keyboard.c as it runs: the ring and the line buffer updated in place, the interrupt handler, and the
    blocking read with interrupts delivered between its steps. */
module KeyboardDriver {
  import opened Bits
  import opened Options
  import opened Keyboard
  import opened LineReader

  /** Whether a machine is as the driver's zeroed globals leave it. */
  predicate Fresh(m: Machine) {
    && Shaped(m)
    && m.rp == m.wp && m.keys == Keys(false, false, false, false, "")
    && m.reader == Idle && m.lines == [] && m.finished == []
  }

  lemma FreshSound(m: Machine)
    requires Fresh(m)
    ensures Sound(m)
  {
  }

  lemma RunStep(m: Machine, es: seq<Event>, e: Event)
    requires Shaped(m)
    ensures Run(m, es + [e]) == Next(Run(m, es), e)
  {
    assert (es + [e])[..|es|] == es;
  }

  function KeyEvents(raws: seq<byte>): seq<Event> {
    seq(|raws|, i requires 0 <= i < |raws| => Key(raws[i]))
  }

  // ----- a line that is lost

  /** Key A held down 255 times, then Enter. */
  function LongLine(n: nat): seq<Event> { seq(n, _ => Key(0x1E)) }

  lemma TwoKeys()
    ensures Decode(0x1E, false, false) == 'a' && forall caps :: Decode(0x1C, false, caps) == NEWLINE
  {
    assert SC_ASCII[0x1E] == 'a' && SC_ASCII[0x1C] == NEWLINE;
  }

  lemma KeyA(k: Keys)
    requires !k.shift && !k.caps && |k.line| < BUFFER_SIZE - 1
    ensures Press(k, 0x1E) == (k.(line := k.line + ['a']), None)
  {
    TwoKeys();
    hide Decode;
  }

  lemma KeyEnter(k: Keys)
    requires !k.shift
    ensures Press(k, 0x1C) == (k.(line := ""), Some(k.line))
  {
    TwoKeys();
    hide Decode;
  }

  lemma {:induction false} Typing(m: Machine, n: nat)
    requires Fresh(m) && n < BUFFER_SIZE
    ensures FitsAll(m, LongLine(n))
    ensures var r := Run(m, LongLine(n));
            r == m.(keys := Keys(false, false, false, false, r.keys.line)) && |r.keys.line| == n
  {
    if n == 0 {
      assert LongLine(0) == [];
    } else {
      Typing(m, n - 1);
      assert LongLine(n)[..n - 1] == LongLine(n - 1);
      var r := Run(m, LongLine(n - 1));
      KeyA(r.keys);
      hide Press;
      assert Fits(r, Key(0x1E));
    }
  }

  /** From start-up, a line of 255 characters, which the line buffer takes, does not fit into the ring: once it is
      committed nothing is left of it to read. */
  lemma LongestLineIsLost(m: Machine)
    requires Fresh(m)
    ensures var es := LongLine(255) + [Key(0x1C)];
            var r := Run(m, es);
            && !FitsAll(m, es) && !Sound(r)
            && |r.lines| == 1 && |r.lines[0]| == 255 && Ring(r.buf, r.rp, r.wp) == ""
  {
    var es := LongLine(255);
    FreshSound(m);
    Typing(m, 255);
    RunSoundIff(m, es);
    var before := Run(m, es);
    assert (es + [Key(0x1C)])[..255] == es;
    LongLineLost(before);
    hide Run, Fits, Sound, Next, OnKey;
    RunStep(m, es, Key(0x1C));
  }

  lemma LongLineLost(m: Machine)
    requires Sound(m) && !m.keys.shift && |m.keys.line| == 255 && m.rp == m.wp && m.lines == []
    ensures var r := Next(m, Key(0x1C));
            && !Fits(m, Key(0x1C)) && !Sound(r)
            && |r.lines| == 1 && |r.lines[0]| == 255 && Ring(r.buf, r.rp, r.wp) == ""
  {
    KeyEnter(m.keys);
    SoundShaped(m);
    LongLineWraps(m, m.keys.line);
    hide Press, Sound, OnKey, Ring, PutAll;
    assert !Fits(m, Key(0x1C));
    OverflowLoses(m, 0x1C);
  }

  lemma LongLineWraps(m: Machine, line: string)
    requires Shaped(m) && |line| == 255 && m.rp == m.wp && m.lines == []
    requires Press(m.keys, 0x1C) == (m.keys.(line := ""), Some(line))
    ensures var r := OnKey(m, 0x1C);
            |r.lines| == 1 && |r.lines[0]| == 255 && Ring(r.buf, r.rp, r.wp) == ""
  {
    hide Press, Ring, PutAll;
    PutAllMoves(m.buf, m.wp, line + [NEWLINE]);
    assert m.lines + [line] == [line];
    assert (m.wp + 256) % BUFFER_SIZE == m.wp;
  }

  lemma {:induction false} PutAllMoves(buf: string, wp: nat, s: string)
    requires |buf| == BUFFER_SIZE && wp < BUFFER_SIZE
    ensures PutAll(buf, wp, s).1 == (wp + |s|) % BUFFER_SIZE
    decreases |s|
  {
    if s != "" {
      PutAllMoves(buf[wp := s[0]], Advanced(wp), s[1..]);
    }
  }

  // ----- the driver

  class Driver {
    const inputBuffer: array<char>
    var readPos: nat
    var writePos: nat
    const lineBuffer: array<char>
    var linePos: nat
    var shiftPressed: bool
    var ctrlPressed: bool
    var altPressed: bool
    var capsLock: bool

    // The machine at start-up, what happened since, where the reader stands, and what was committed and read.
    ghost const start: Machine
    ghost var history: seq<Event>
    ghost var reader: Reader
    ghost var lines: seq<string>
    ghost var finished: seq<Reading>

    ghost predicate Formed()
      reads this, inputBuffer, lineBuffer
    {
      && inputBuffer != lineBuffer && inputBuffer.Length == BUFFER_SIZE && lineBuffer.Length == BUFFER_SIZE
      && readPos < BUFFER_SIZE && writePos < BUFFER_SIZE && linePos < BUFFER_SIZE
    }

    ghost function View(): (m: Machine)
      requires Formed()
      reads this, inputBuffer, lineBuffer
    {
      Machine(Keys(shiftPressed, ctrlPressed, altPressed, capsLock, lineBuffer[..linePos]),
              inputBuffer[..], readPos, writePos, reader, lines, finished)
    }

    /** The driver's variables are what the machine reaches through the events so far. */
    ghost predicate Valid()
      reads this, inputBuffer, lineBuffer
    {
      Formed() && Fresh(start) && View() == Run(start, history)
    }

    /** The zeroed globals. */
    constructor ()
      ensures Valid() && history == [] && reader == Idle
    {
      inputBuffer := new char[BUFFER_SIZE](_ => 0 as char);
      lineBuffer := new char[BUFFER_SIZE](_ => 0 as char);
      readPos, writePos, linePos := 0, 0, 0;
      shiftPressed, ctrlPressed, altPressed, capsLock := false, false, false, false;
      start := Machine(Keys(false, false, false, false, ""), seq(BUFFER_SIZE, _ => 0 as char), 0, 0, Idle, [], []);
      history, reader, lines, finished := [], Idle, [], [];
      new;
      assert inputBuffer[..] == start.buf;
    }

    /** `commit_line`. */
    method CommitLine()
      requires Formed()
      modifies this`writePos, this`linePos, inputBuffer
      ensures Formed() && linePos == 0
      ensures (inputBuffer[..], writePos)
           == PutAll(old(inputBuffer[..]), old(writePos), old(lineBuffer[..linePos]) + [NEWLINE])
    {
      ghost var s := lineBuffer[..linePos] + [NEWLINE];
      var i: nat := 0;
      while i < linePos
        invariant 0 <= i <= linePos == old(linePos) && Formed()
        invariant PutAll(old(inputBuffer[..]), old(writePos), s) == PutAll(inputBuffer[..], writePos, s[i..])
      {
        assert s[i..][0] == lineBuffer[i] && s[i..][1..] == s[i + 1..];
        inputBuffer[writePos] := lineBuffer[i];
        writePos := (writePos + 1) % BUFFER_SIZE;
        i := i + 1;
      }
      assert s[i..] == [NEWLINE] && s[i..][1..] == "";
      inputBuffer[writePos] := NEWLINE;
      writePos := (writePos + 1) % BUFFER_SIZE;
      linePos := 0;
    }

    /** `keyboard_callback` on the byte read from the controller's port. */
    method Callback(raw: byte)
      requires Valid()
      modifies this, inputBuffer, lineBuffer
      ensures Valid() && history == old(history) + [Key(raw)]
      ensures readPos == old(readPos) && reader == old(reader) && finished == old(finished)
    {
      RunStep(start, history, Key(raw));
      history := history + [Key(raw)];
      Handle(raw);
    }

    method Handle(raw: byte)
      requires Formed() && Shaped(View())
      modifies this`shiftPressed, this`ctrlPressed, this`altPressed, this`capsLock, this`linePos, this`writePos,
               this`lines, inputBuffer, lineBuffer
      ensures Formed() && View() == OnKey(old(View()), raw)
    {
      hide Decode, Edit, PutAll, Ring;
      var pressed, scancode := raw < 0x80, raw % 0x80;
      if scancode == 0x2A || scancode == 0x36 {
        shiftPressed := pressed;
        return;
      } else if scancode == 0x1D {
        ctrlPressed := pressed;
        return;
      } else if scancode == 0x38 {
        altPressed := pressed;
        return;
      } else if scancode == 0x3A && pressed {
        capsLock := !capsLock;
        return;
      }
      if !pressed { return; }
      Type(Decode(scancode, shiftPressed, capsLock));
    }

    /** The rest of `keyboard_callback`: a typed character edits the line or commits it. */
    method Type(c: char)
      requires Formed()
      modifies this`linePos, this`writePos, this`lines, inputBuffer, lineBuffer
      ensures Formed()
      ensures var (line, commit) := Edit(old(lineBuffer[..linePos]), c);
        && lineBuffer[..linePos] == line
        && (inputBuffer[..], writePos)
           == (match commit
               case None => (old(inputBuffer[..]), old(writePos))
               case Some(s) => PutAll(old(inputBuffer[..]), old(writePos), s + [NEWLINE]))
        && lines == old(lines) + (match commit case None => [] case Some(s) => [s])
    {
      hide PutAll;
      ghost var line := lineBuffer[..linePos];
      if c == NEWLINE {
        CommitLine();
        lines := lines + [line];
        assert lineBuffer[..0] == "";
      } else if c == BACKSPACE {
        if linePos > 0 {
          linePos := linePos - 1;
          assert lineBuffer[..linePos] == line[..|line| - 1];
        }
      } else if c != '?' {
        if linePos < BUFFER_SIZE - 1 {
          lineBuffer[linePos] := c;
          linePos := linePos + 1;
          assert lineBuffer[..linePos] == line + [c];
        }
      }
    }

    /** `has_complete_line` undisturbed: whether an unread newline exists. */
    method HasCompleteLine() returns (complete: bool)
      requires Formed()
      ensures complete <==> NEWLINE in Ring(inputBuffer[..], readPos, writePos)
    {
      ghost var ring := Ring(inputBuffer[..], readPos, writePos);
      var pos: nat := readPos;
      while pos != writePos
        invariant pos < BUFFER_SIZE && Distance(readPos, pos) <= |ring| && NoNewline(ring[..Distance(readPos, pos)])
        decreases Distance(readPos, writePos) - Distance(readPos, pos)
      {
        RingAt(inputBuffer[..], readPos, writePos, pos);
        if inputBuffer[pos] == NEWLINE { return true; }
        NoNewlineYet(ring, Distance(readPos, pos));
        pos := (pos + 1) % BUFFER_SIZE;
      }
      assert ring[..Distance(readPos, pos)] == ring;
      return false;
    }

    /** The reader takes a step that changes none of the driver's variables. */
    ghost method Turned()
      requires Valid() && !reader.Advance?
      modifies this`reader, this`finished, this`history
      ensures Valid() && history == old(history) + [Turn]
      ensures reader == old(OnTurn(View()).reader) && finished == old(OnTurn(View()).finished)
      ensures match old(reader)
        case Scan(count, pos) =>
          reader == (if pos == writePos then Wait(count) else Look(count, pos)) && finished == old(finished)
        case Look(count, pos) =>
          && pos < BUFFER_SIZE && finished == old(finished)
          && reader == if inputBuffer[pos] == NEWLINE then Check(count, "") else Scan(count, Advanced(pos))
        case Check(count, got) =>
          if |got| < count && readPos != writePos then reader == Copy(count, got) && finished == old(finished)
          else reader == Idle && finished == old(finished) + [Reading(count, got)]
        case Test(count, got) =>
          if got != "" && got[|got| - 1] == NEWLINE then
            reader == Idle && finished == old(finished) + [Reading(count, got)]
          else reader == Check(count, got) && finished == old(finished)
        case _ => true
    {
      hide Run, Ring;
      RunStep(start, history, Turn);
      var m := OnTurn(View());
      reader, finished, history := m.reader, m.finished, history + [Turn];
    }

    /** A moment between two steps: the next batch of key interrupts, if any is still to come, is handled. */
    method Interrupt(schedule: seq<seq<byte>>) returns (rest: seq<seq<byte>>)
      requires Valid()
      modifies this, inputBuffer, lineBuffer
      ensures Valid() && readPos == old(readPos) && reader == old(reader) && finished == old(finished)
      ensures schedule == [] ==> rest == [] && history == old(history) && writePos == old(writePos)
      ensures schedule != [] ==> rest == schedule[1..] && history == old(history) + KeyEvents(schedule[0])
    {
      if schedule == [] { return []; }
      var raws := schedule[0];
      var i: nat := 0;
      while i < |raws|
        invariant 0 <= i <= |raws| && Valid()
        invariant readPos == old(readPos) && reader == old(reader) && finished == old(finished)
        invariant history == old(history) + KeyEvents(raws)[..i]
      {
        Callback(raws[i]);
        assert KeyEvents(raws)[..i + 1] == KeyEvents(raws)[..i] + [Key(raws[i])];
        i := i + 1;
      }
      assert KeyEvents(raws)[..i] == KeyEvents(raws);
      return schedule[1..];
    }

    /** The scan of `has_complete_line` with interrupts between its steps. */
    method FindLine(count: nat, schedule: seq<seq<byte>>) returns (found: bool, rest: seq<seq<byte>>)
      requires Valid() && reader == Scan(count, readPos)
      modifies this, inputBuffer, lineBuffer
      ensures Valid() && readPos == old(readPos) && finished == old(finished)
      ensures reader == if found then Check(count, "") else Wait(count)
      ensures |rest| <= |schedule|
    {
      hide Run, Ring, Next, OnTurn, Fresh;
      rest := schedule;
      var pos: nat := readPos;
      while true
        invariant pos < BUFFER_SIZE && |rest| <= |schedule|
        invariant Valid() && reader == Scan(count, pos) && readPos == old(readPos) && finished == old(finished)
        decreases |rest|, Distance(pos, writePos)
      {
        rest := Interrupt(rest);
        if pos == writePos {
          Turned();
          return false, rest;
        }
        Turned();
        found, rest := LookAt(count, pos, rest);
        if found {
          return true, rest;
        }
        NextPosition(pos);
        pos := (pos + 1) % BUFFER_SIZE;
      }
    }

    /** One byte of the scan. */
    method LookAt(count: nat, pos: nat, schedule: seq<seq<byte>>) returns (found: bool, rest: seq<seq<byte>>)
      requires Valid() && pos < BUFFER_SIZE && reader == Look(count, pos)
      modifies this, inputBuffer, lineBuffer
      ensures Valid() && readPos == old(readPos) && finished == old(finished)
      ensures reader == if found then Check(count, "") else Scan(count, Advanced(pos))
      ensures if schedule == [] then rest == [] && writePos == old(writePos) else rest == schedule[1..]
    {
      hide Run, Ring, Next, OnTurn, Fresh;
      rest := Interrupt(schedule);
      found := inputBuffer[pos] == NEWLINE;
      Turned();
    }

    /** The copied byte leaves the ring. */
    method MoveOn()
      requires Valid() && reader.Advance?
      modifies this`readPos, this`reader, this`history
      ensures Valid() && reader == Test(old(reader).count, old(reader).got)
    {
      hide Run, Ring;
      RunStep(start, history, Turn);
      readPos := (readPos + 1) % BUFFER_SIZE;
      reader, history := Test(reader.count, reader.got), history + [Turn];
    }

    /** `keyboard_read` with a batch of interrupts before every step, as the schedule says. It waits for a line for
        as long as interrupts come; the bytes it returns are those of one finished read of the machine. */
    method Read(userBuf: array<char>, count: nat, schedule: seq<seq<byte>>) returns (bytesRead: Option<nat>)
      requires Valid() && reader == Idle
      requires userBuf.Length >= count && userBuf != inputBuffer && userBuf != lineBuffer
      modifies this, inputBuffer, lineBuffer, userBuf
      ensures Valid()
      ensures bytesRead.Some? ==>
        && reader == Idle && bytesRead.value <= count
        && finished == old(finished) + [Reading(count, userBuf[..bytesRead.value])]
    {
      hide Ring;
      Begin(count);
      var rest := schedule;
      var found := false;
      while !found
        invariant Valid() && finished == old(finished)
        invariant reader == if found then Check(count, "") else Scan(count, readPos)
        decreases |rest|, if found then 0 else 1
      {
        found, rest := FindLine(count, rest);
        if !found {
          if rest == [] { return None; }
          rest := Interrupt(rest);
          Turned();
        }
      }
      var n := CopyOut(userBuf, count, rest);
      return Some(n);
    }

    ghost method Begin(count: nat)
      requires Valid() && reader == Idle
      modifies this`reader, this`history
      ensures Valid() && reader == Scan(count, readPos) && history == old(history) + [Call(count)]
    {
      hide Run, Ring;
      RunStep(start, history, Call(count));
      reader, history := Scan(count, readPos), history + [Call(count)];
    }

    /** One byte goes from the ring to the caller's buffer. */
    method CopyByte(userBuf: array<char>, n: nat, count: nat, schedule: seq<seq<byte>>) returns (rest: seq<seq<byte>>)
      requires n < count <= userBuf.Length && userBuf != inputBuffer && userBuf != lineBuffer
      requires Valid() && reader == Copy(count, userBuf[..n])
      modifies this, inputBuffer, lineBuffer, userBuf
      ensures Valid() && reader == Test(count, userBuf[..n + 1]) && finished == old(finished)
    {
      hide Ring, Run, Next;
      rest := Interrupt(schedule);
      Turned();
      ghost var got := userBuf[..n];
      userBuf[n] := inputBuffer[readPos];
      assert userBuf[..n + 1] == got + [userBuf[n]];
      rest := Interrupt(rest);
      MoveOn();
    }

    /** The copy loop of `keyboard_read`. */
    method CopyOut(userBuf: array<char>, count: nat, schedule: seq<seq<byte>>) returns (bytesRead: nat)
      requires Valid() && reader == Check(count, "")
      requires userBuf.Length >= count && userBuf != inputBuffer && userBuf != lineBuffer
      modifies this, inputBuffer, lineBuffer, userBuf
      ensures Valid() && reader == Idle && bytesRead <= count
      ensures finished == old(finished) + [Reading(count, userBuf[..bytesRead])]
    {
      hide Ring, Run, Next, OnTurn;
      var rest := schedule;
      bytesRead := 0;
      while true
        invariant Valid() && bytesRead <= count && finished == old(finished)
        invariant reader == Check(count, userBuf[..bytesRead])
        decreases count - bytesRead
      {
        rest := Interrupt(rest);
        if !(bytesRead < count && readPos != writePos) {
          Turned();
          return;
        }
        Turned();
        rest := CopyByte(userBuf, bytesRead, count, rest);
        bytesRead := bytesRead + 1;
        rest := Interrupt(rest);
        Turned();
        if userBuf[bytesRead - 1] == NEWLINE {
          return;
        }
      }
    }

    /** What programs have been given since start-up: line by line, the lines typed and edited, and nothing else. */
    lemma ProgramsGetTheLines()
      requires Valid() && FitsAll(start, history)
      ensures Delivered(finished) <= Stream(lines)
      ensures finished == Serve(Stream(lines), Counts(finished))
      ensures lines == Lines("", TypedAll(Keys(false, false, false, false, ""), Raws(history)))
    {
      hide Run, Lines, TypedAll, FitsAll;
      LinesAreTyped(start, history);
      assert [] + lines == lines;
      FreshSound(start);
      ReadsAreServed(start, history);
    }
  }
}
