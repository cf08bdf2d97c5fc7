/** The blocking read of drivers/keyboard.c as single steps, with keyboard interrupts between any two of them. */
module LineReader {
  import opened Bits
  import opened Options
  import opened Keyboard

  /** A finished read: the count asked for and the bytes returned. */
  datatype Reading = Reading(count: nat, text: string)

  /** Where `keyboard_read` stands. `got` holds the bytes already copied to the caller's buffer. */
  datatype Reader =
    | Idle
    | Scan(count: nat, pos: nat)       // in has_complete_line, about to compare pos with the write position
    | Look(count: nat, pos: nat)       // about to look at the byte there
    | Wait(count: nat)                 // no newline found: interrupts on, halted
    | Check(count: nat, got: string)   // at the copy loop's condition
    | Copy(count: nat, got: string)    // about to copy one byte
    | Advance(count: nat, got: string) // byte copied, read position not yet moved
    | Test(count: nat, got: string)    // about to test the byte for a newline

  /** The ring and its positions, the keys, the reader, and the history of committed lines and finished reads. */
  datatype Machine = Machine(keys: Keys, buf: string, rp: nat, wp: nat, reader: Reader,
                             lines: seq<string>, finished: seq<Reading>)

  datatype Event = Key(raw: byte) | Call(count: nat) | Turn

  // ----- steps

  predicate Shaped(m: Machine) {
    Positions(m.buf, m.rp, m.wp) && (m.reader.Scan? || m.reader.Look? ==> m.reader.pos < BUFFER_SIZE)
  }

  /** An interrupt: `keyboard_callback` runs to its end. */
  function OnKey(m: Machine, raw: byte): (r: Machine)
    requires Shaped(m)
    ensures Shaped(r)
  {
    hide Press;
    var (keys, commit) := Press(m.keys, raw);
    match commit
    case None => m.(keys := keys)
    case Some(line) =>
      var (buf, wp) := PutAll(m.buf, m.wp, line + [NEWLINE]);
      m.(keys := keys, buf := buf, wp := wp, lines := m.lines + [line])
  }

  function Finish(m: Machine, count: nat, got: string): Machine {
    m.(reader := Idle, finished := m.finished + [Reading(count, got)])
  }

  /** One step of `keyboard_read`. */
  function OnTurn(m: Machine): (r: Machine)
    requires Shaped(m)
    ensures Shaped(r)
  {
    match m.reader
    case Idle => m
    case Scan(count, pos) =>
      if pos == m.wp then m.(reader := Wait(count)) else m.(reader := Look(count, pos))
    case Look(count, pos) =>
      if m.buf[pos] == NEWLINE then m.(reader := Check(count, "")) else m.(reader := Scan(count, Advanced(pos)))
    case Wait(count) => m.(reader := Scan(count, m.rp))
    case Check(count, got) =>
      if |got| < count && m.rp != m.wp then m.(reader := Copy(count, got)) else Finish(m, count, got)
    case Copy(count, got) => m.(reader := Advance(count, got + [m.buf[m.rp]]))
    case Advance(count, got) => m.(rp := Advanced(m.rp), reader := Test(count, got))
    case Test(count, got) =>
      if got != "" && got[|got| - 1] == NEWLINE then Finish(m, count, got) else m.(reader := Check(count, got))
  }

  function Next(m: Machine, e: Event): (r: Machine)
    requires Shaped(m)
    ensures Shaped(r)
  {
    match e
    case Key(raw) => OnKey(m, raw)
    case Call(count) => if m.reader.Idle? then m.(reader := Scan(count, m.rp)) else m
    case Turn => OnTurn(m)
  }

  function Run(m: Machine, es: seq<Event>): (r: Machine)
    requires Shaped(m)
    ensures Shaped(r)
    decreases |es|
  {
    if es == [] then m else Next(Run(m, es[..|es| - 1]), es[|es| - 1])
  }

  /** The line a key event commits fits, with its newline, beside the unread bytes. */
  predicate Fits(m: Machine, e: Event)
    requires Shaped(m)
  {
    e.Key? && Press(m.keys, e.raw).1.Some? ==>
      |Ring(m.buf, m.rp, m.wp)| + |m.keys.line| + 1 < BUFFER_SIZE
  }

  predicate FitsAll(m: Machine, es: seq<Event>)
    requires Shaped(m)
    decreases |es|
  {
    es == [] || (FitsAll(m, es[..|es| - 1]) && Fits(Run(m, es[..|es| - 1]), es[|es| - 1]))
  }

  // ----- the stream of bytes

  /** What the committed lines put in, one after the other. */
  function Stream(lines: seq<string>): string {
    if lines == [] then "" else Stream(lines[..|lines| - 1]) + (lines[|lines| - 1] + [NEWLINE])
  }

  /** What the finished reads took out, one after the other. */
  function Delivered(rs: seq<Reading>): string {
    if rs == [] then "" else Delivered(rs[..|rs| - 1]) + rs[|rs| - 1].text
  }

  /** The bytes of the unfinished read that are out of the ring. */
  function InHand(reader: Reader): string {
    match reader
    case Check(_, got) => got
    case Copy(_, got) => got
    case Advance(_, got) => if got == "" then "" else got[..|got| - 1]
    case Test(_, got) => got
    case _ => ""
  }

  /** A read stops at the first newline or at its count, not before. */
  predicate Complete(r: Reading) {
    && |r.text| <= r.count
    && (forall i :: 0 <= i < |r.text| - 1 ==> r.text[i] != NEWLINE)
    && (|r.text| < r.count ==> r.text != "" && r.text[|r.text| - 1] == NEWLINE)
  }

  /** What holds of the reader between steps. */
  predicate ReaderSound(m: Machine)
    requires Shaped(m)
  {
    var ring := Ring(m.buf, m.rp, m.wp);
    match m.reader
    case Idle => true
    case Wait(_) => true
    case Scan(_, pos) => Distance(m.rp, pos) <= |ring| && NoNewline(ring[..Distance(m.rp, pos)])
    case Look(_, pos) => Distance(m.rp, pos) < |ring| && NoNewline(ring[..Distance(m.rp, pos)])
    case Check(count, got) => |got| <= count && NoNewline(got) && NEWLINE in ring
    case Copy(count, got) => |got| < count && NoNewline(got) && NEWLINE in ring
    case Advance(count, got) =>
      0 < |got| <= count && NoNewline(got[..|got| - 1]) && NEWLINE in ring && got[|got| - 1] == ring[0]
    case Test(count, got) =>
      && 0 < |got| <= count && NoNewline(got[..|got| - 1])
      && (got[|got| - 1] != NEWLINE ==> NEWLINE in ring)
  }

  /** Every committed byte is delivered, in hand, or still in the ring, in that order, and every read was complete. */
  predicate Sound(m: Machine) {
    && Shaped(m)
    && GoodLine(m.keys.line)
    && (forall line <- m.lines :: NoNewline(line))
    && Delivered(m.finished) + InHand(m.reader) + Ring(m.buf, m.rp, m.wp) == Stream(m.lines)
    && (forall r <- m.finished :: Complete(r))
    && ReaderSound(m)
  }

  /** Bytes only ever join the ring at its end while a key event runs. */
  lemma KeySound(m: Machine, raw: byte)
    requires Sound(m) && Fits(m, Key(raw))
    ensures Sound(OnKey(m, raw))
  {
    PressKeepsLine(m.keys, raw);
    assert NoNewline(m.keys.line);
    hide Press, GoodLine;
    var (keys, commit) := Press(m.keys, raw);
    if commit.Some? {
      assert |m.keys.line| == |commit.value|;
      var s := commit.value + [NEWLINE];
      var before := Ring(m.buf, m.rp, m.wp);
      RingPutAll(m.buf, m.rp, m.wp, s);
      var m' := OnKey(m, raw);
      hide Ring, PutAll, Complete, Distance;
      assert Ring(m'.buf, m'.rp, m'.wp) == before + s;
      assert m'.lines[..|m'.lines| - 1] == m.lines;
      Associate(Delivered(m.finished) + InHand(m.reader), before, s);
      RingGrows(m, m', s);
    }
  }

  /** A commit that does not fit loses bytes: the stream is no longer what was delivered, held and left unread. */
  lemma OverflowLoses(m: Machine, raw: byte)
    requires Sound(m) && !Fits(m, Key(raw))
    ensures !Sound(OnKey(m, raw))
  {
    PressKeepsLine(m.keys, raw);
    hide Press, GoodLine;
    var line := Press(m.keys, raw).1.value;
    var s := line + [NEWLINE];
    var before := Ring(m.buf, m.rp, m.wp);
    PutAllKeepsIff(m.buf, m.rp, m.wp, s);
    var m' := OnKey(m, raw);
    hide Ring, PutAll, Complete, Distance;
    assert m'.lines[..|m'.lines| - 1] == m.lines;
    var out := Delivered(m.finished) + InHand(m.reader);
    Associate(out, before, s);
    OtherTail(out, Ring(m'.buf, m'.rp, m'.wp), before + s);
  }

  lemma OtherTail(a: string, b: string, c: string)
    requires b != c
    ensures a + b != a + c
  {
    assert (a + b)[|a|..] == b && (a + c)[|a|..] == c;
  }

  lemma RingGrows(m: Machine, m': Machine, s: string)
    requires Shaped(m) && Shaped(m') && ReaderSound(m)
    requires m'.reader == m.reader && m'.rp == m.rp
    requires Ring(m'.buf, m'.rp, m'.wp) == Ring(m.buf, m.rp, m.wp) + s
    ensures ReaderSound(m')
  {
    hide Ring;
    var ring := Ring(m.buf, m.rp, m.wp);
    if m.reader.Scan? || m.reader.Look? {
      var d := Distance(m.rp, m.reader.pos);
      assert (ring + s)[..d] == ring[..d];
    }
  }

  lemma NoNewlineYet(ring: string, d: nat)
    requires d < |ring| && NoNewline(ring[..d]) && ring[d] != NEWLINE
    ensures NoNewline(ring[..d + 1])
  {
    assert ring[..d + 1] == ring[..d] + [ring[d]];
  }

  /** The scan has met no newline up to its position; it goes on as long as that is not the write position. */
  lemma ScanSound(m: Machine)
    requires Sound(m) && m.reader.Scan?
    ensures Sound(OnTurn(m))
  {
    var pos := m.reader.pos;
    if pos != m.wp { RingAt(m.buf, m.rp, m.wp, pos); }
    hide Ring, Stream, Delivered, Complete, GoodLine, NoNewline, Advanced;
  }

  /** The byte there is still unread: a newline ends the scan, any other byte is passed. */
  lemma LookSound(m: Machine)
    requires Sound(m) && m.reader.Look?
    ensures Sound(OnTurn(m))
  {
    var pos := m.reader.pos;
    var ring := Ring(m.buf, m.rp, m.wp);
    assert NoNewline("");
    assert pos != m.wp;
    hide Ring, Stream, Delivered, Complete, GoodLine, NoNewline;
    RingAt(m.buf, m.rp, m.wp, pos);
    var d := Distance(m.rp, pos);
    hide Advanced, Distance;
    if ring[d] == NEWLINE {
      assert OnTurn(m).reader == Check(m.reader.count, "");
    } else {
      NoNewlineYet(ring, d);
    }
  }

  lemma CheckSound(m: Machine)
    requires Sound(m) && m.reader.Check?
    ensures Sound(OnTurn(m))
  {
    var ring := Ring(m.buf, m.rp, m.wp);
    assert ring != "" ==> m.rp != m.wp;
    hide Ring, Stream, GoodLine, Distance;
    var got := m.reader.got;
    var m' := OnTurn(m);
    if m'.reader.Idle? {
      assert m'.finished[..|m'.finished| - 1] == m.finished;
      assert Delivered(m.finished) + got + "" == Delivered(m.finished) + got;
      assert Complete(Reading(m.reader.count, got));
    }
  }

  lemma CopySound(m: Machine)
    requires Sound(m) && m.reader.Copy?
    ensures Sound(OnTurn(m))
  {
    var ring := Ring(m.buf, m.rp, m.wp);
    assert m.rp != m.wp;
    RingTake(m.buf, m.rp, m.wp);
    hide Ring, Stream, Delivered, Complete, GoodLine, Distance;
    var got := m.reader.got;
    assert (got + [m.buf[m.rp]])[..|got|] == got;
  }

  lemma AdvanceSound(m: Machine)
    requires Sound(m) && m.reader.Advance?
    ensures Sound(OnTurn(m))
  {
    var ring := Ring(m.buf, m.rp, m.wp);
    assert m.rp != m.wp;
    RingTake(m.buf, m.rp, m.wp);
    hide Ring, Stream, Complete, GoodLine, Distance, Advanced;
    var m' := OnTurn(m);
    var got := m.reader.got;
    var rest := Ring(m.buf, m'.rp, m.wp);
    assert got == got[..|got| - 1] + [ring[0]];
    Associate(Delivered(m.finished), got[..|got| - 1], [ring[0]]);
    Associate(Delivered(m.finished) + got[..|got| - 1], [ring[0]], rest);
    assert got[|got| - 1] != NEWLINE ==> NEWLINE in rest;
  }

  lemma TestSound(m: Machine)
    requires Sound(m) && m.reader.Test?
    ensures Sound(OnTurn(m))
  {
    hide Ring, Stream, GoodLine, Distance;
    var got := m.reader.got;
    var m' := OnTurn(m);
    if m'.reader.Idle? {
      assert m'.finished[..|m'.finished| - 1] == m.finished;
      assert Delivered(m.finished) + got + "" == Delivered(m.finished) + got;
      assert Complete(Reading(m.reader.count, got));
    } else {
      assert got == got[..|got| - 1] + [got[|got| - 1]];
    }
  }

  /** Whatever comes next, an interrupt at any point of the reader or a step of the reader, nothing is lost,
      repeated or reordered, exactly if what a key commits fits in the ring. */
  lemma NextSoundIff(m: Machine, e: Event)
    requires Sound(m)
    ensures Sound(Next(m, e)) <==> Fits(m, e)
  {
    match e
    case Key(raw) =>
      if Fits(m, e) { KeySound(m, raw); } else { OverflowLoses(m, raw); }
    case Call(count) =>
      assert m.reader.Idle? ==> Ring(m.buf, m.rp, m.wp)[..0] == "";
      hide Ring, Stream, Delivered, Complete, GoodLine;
    case Turn =>
      match m.reader {
        case Idle =>
        case Scan(_, _) => ScanSound(m);
        case Look(_, _) => LookSound(m);
        case Wait(_) =>
          assert Ring(m.buf, m.rp, m.wp)[..0] == "";
          hide Ring, Stream, Delivered, Complete, GoodLine;
        case Check(_, _) => CheckSound(m);
        case Copy(_, _) => CopySound(m);
        case Advance(_, _) => AdvanceSound(m);
        case Test(_, _) => TestSound(m);
      }
  }

  // ----- a call that finds a line returns

  /** The reader's own steps, nothing coming between them. */
  function Turns(m: Machine, n: nat): (r: Machine)
    requires Shaped(m)
    ensures Shaped(r)
    decreases n
  {
    if n == 0 then m else Turns(OnTurn(m), n - 1)
  }

  /** n steps from here the read is finished, and it was never left waiting. */
  predicate ReturnsAfter(m: Machine, n: nat)
    requires Shaped(m)
  {
    && Turns(m, n).reader.Idle? && |Turns(m, n).finished| == |m.finished| + 1
    && forall k: nat | k < n :: !Turns(m, k).reader.Wait?
  }

  /** How far the copying still has to go, and before it the scan. */
  function Ahead(m: Machine): nat
    requires Shaped(m)
  {
    match m.reader
    case Scan(_, pos) => 2 * (BUFFER_SIZE - Distance(m.rp, pos)) + 1
    case Look(_, pos) => 2 * (BUFFER_SIZE - Distance(m.rp, pos))
    case Check(count, got) => 4 * (if |got| < count then count - |got| else 0) + 1
    case Copy(count, got) => 4 * (if |got| < count then count - |got| else 0)
    case Advance(count, got) => 4 * (if |got| < count then count - |got| else 0) + 3
    case Test(count, got) => 4 * (if |got| < count then count - |got| else 0) + 2
    case _ => 0
  }

  /** With a newline ahead of it, a read that is neither waiting nor finished takes one more step without waiting, and
      the newline stays ahead of it until it has it. */
  predicate Underway(m: Machine) {
    && Sound(m) && !m.reader.Idle? && !m.reader.Wait?
    && (m.reader.Scan? || m.reader.Look? ==> NEWLINE in Ring(m.buf, m.rp, m.wp))
  }

  lemma ScansOn(m: Machine)
    requires Underway(m) && (m.reader.Scan? || m.reader.Look?)
    ensures var m' := OnTurn(m);
            && Underway(m') && m'.finished == m.finished
            && (m'.reader.Scan? || m'.reader.Look? ==> Ahead(m') < Ahead(m))
            && (m'.reader.Scan? || m'.reader.Look? || m'.reader.Check?)
  {
    NextSoundIff(m, Turn);
    var ring, pos := Ring(m.buf, m.rp, m.wp), m.reader.pos;
    assert ring[..|ring|] == ring;
    hide Sound, Ring;
    if m.reader.Look? { RingAt(m.buf, m.rp, m.wp, pos); }
  }

  lemma CopiesOn(m: Machine)
    requires Underway(m) && !m.reader.Scan? && !m.reader.Look?
    ensures var m' := OnTurn(m);
            if m'.reader.Idle? then |m'.finished| == |m.finished| + 1
            else Underway(m') && m'.finished == m.finished && Ahead(m') < Ahead(m)
                 && !m'.reader.Scan? && !m'.reader.Look?
  {
    NextSoundIff(m, Turn);
    hide Ring;
  }

  lemma {:induction false} Returns(m: Machine) returns (n: nat)
    requires Underway(m)
    ensures ReturnsAfter(m, n)
    decreases m.reader.Scan? || m.reader.Look?, Ahead(m)
  {
    var m' := OnTurn(m);
    if m.reader.Scan? || m.reader.Look? { ScansOn(m); } else { CopiesOn(m); }
    hide Sound, Ahead, Distance;
    if m'.reader.Idle? {
      n := 1;
      assert Turns(m, 1) == Turns(m', 0) == m';
    } else {
      var rest := Returns(m');
      n := rest + 1;
      forall k: nat | k < n ensures !Turns(m, k).reader.Wait? {
        if k > 0 { assert Turns(m, k) == Turns(m', k - 1); }
      }
    }
  }

  /** A call made while a committed line is unread returns by itself, without ever waiting for an interrupt. */
  lemma CallReturns(m: Machine, count: nat) returns (n: nat)
    requires Sound(m) && m.reader.Idle? && NEWLINE in Ring(m.buf, m.rp, m.wp)
    ensures ReturnsAfter(Next(m, Call(count)), n)
  {
    NextSoundIff(m, Call(count));
    hide Sound, ReturnsAfter, Ring;
    n := Returns(Next(m, Call(count)));
  }

  lemma ScansToEnd(m: Machine)
    requires Sound(m) && (m.reader.Scan? || m.reader.Look?) && NEWLINE !in Ring(m.buf, m.rp, m.wp)
    ensures var m' := OnTurn(m);
            && Sound(m') && m' == m.(reader := m'.reader)
            && (m'.reader == Wait(m.reader.count)
                || ((m'.reader.Scan? || m'.reader.Look?) && m'.reader.count == m.reader.count && Ahead(m') < Ahead(m)))
  {
    NextSoundIff(m, Turn);
    var ring, pos := Ring(m.buf, m.rp, m.wp), m.reader.pos;
    assert m.reader.Look? ==> pos != m.wp && Distance(m.rp, pos) < |ring|;
    hide Sound, Ring;
    if m.reader.Look? {
      RingAt(m.buf, m.rp, m.wp, pos);
      assert ring[Distance(m.rp, pos)] in ring;
    }
  }

  lemma {:induction false} Waits(m: Machine) returns (n: nat)
    requires Sound(m) && (m.reader.Scan? || m.reader.Look?) && NEWLINE !in Ring(m.buf, m.rp, m.wp)
    ensures Turns(m, n) == m.(reader := Wait(m.reader.count))
    decreases Ahead(m)
  {
    ScansToEnd(m);
    var m' := OnTurn(m);
    hide Sound, Ahead, Ring;
    if m'.reader.Wait? {
      n := 1;
      assert Turns(m, 1) == Turns(m', 0) == m';
    } else {
      var rest := Waits(m');
      n := rest + 1;
    }
  }

  /** A call made while there is none ends up waiting, with nothing changed. */
  lemma CallWaits(m: Machine, count: nat) returns (n: nat)
    requires Sound(m) && m.reader.Idle? && NEWLINE !in Ring(m.buf, m.rp, m.wp)
    ensures Turns(Next(m, Call(count)), n) == m.(reader := Wait(count))
  {
    NextSoundIff(m, Call(count));
    hide Sound, Ring;
    n := Waits(Next(m, Call(count)));
  }

  /** Sound after each of the events. */
  predicate SoundAll(m: Machine, es: seq<Event>)
    requires Shaped(m)
    decreases |es|
  {
    Sound(Run(m, es)) && (es != [] ==> SoundAll(m, es[..|es| - 1]))
  }

  /** A whole run, with the interrupts wherever they fall, stays sound exactly if every commit fits. */
  lemma {:induction false} RunSoundIff(m: Machine, es: seq<Event>)
    requires Sound(m)
    ensures SoundAll(m, es) <==> FitsAll(m, es)
    decreases |es|
  {
    hide Next, Fits, Sound;
    assert Shaped(m) by { SoundShaped(m); }
    if es != [] {
      var front := es[..|es| - 1];
      RunSoundIff(m, front);
      if SoundAll(m, front) {
        NextSoundIff(Run(m, front), es[|es| - 1]);
      }
    }
  }

  lemma SoundShaped(m: Machine)
    requires Sound(m)
    ensures Shaped(m)
  {
  }

  // ----- what readers get

  /** What a line reader that sees the whole stream at once returns: up to count bytes, through the first newline. */
  function Deliver(stream: string, count: nat): (text: string)
    ensures text <= stream
  {
    if count == 0 || stream == "" then ""
    else if stream[0] == NEWLINE then [NEWLINE]
    else [stream[0]] + Deliver(stream[1..], count - 1)
  }

  /** In other words: what comes before the first newline, with it, cut at the count. */
  lemma {:induction false} DeliverMeans(stream: string, count: nat, n: nat)
    requires n <= |stream| && (n < |stream| ==> stream[n] == '\n') && forall i | 0 <= i < n :: stream[i] != '\n'
    ensures Deliver(stream, count) == stream[..Min(count, Min(n + 1, |stream|))]
  {
    if count > 0 && n > 0 {
      var rest := stream[1..];
      DeliverMeans(rest, count - 1, n - 1);
      assert stream == [stream[0]] + rest;
    }
  }

  /** One such read after the other. */
  function Serve(stream: string, counts: seq<nat>): (rs: seq<Reading>)
    ensures |rs| == |counts|
    decreases |counts|
  {
    if counts == [] then []
    else
      var text := Deliver(stream, counts[0]);
      [Reading(counts[0], text)] + Serve(stream[|text|..], counts[1..])
  }

  function Counts(rs: seq<Reading>): seq<nat> {
    seq(|rs|, i requires 0 <= i < |rs| => rs[i].count)
  }

  lemma {:induction false} CompleteIsDeliver(r: Reading, rest: string)
    requires Complete(r)
    ensures Deliver(r.text + rest, r.count) == r.text
    decreases |r.text|
  {
    if r.text == "" {
      NothingRead(r);
    } else if r.text[0] == NEWLINE {
      NewlineRead(r);
      hide Complete;
      assert (r.text + rest)[0] == NEWLINE;
    } else {
      TailIsComplete(r);
      HeadAndTail(r.text, rest);
      DeliverOne(r.text + rest, r.count);
      hide Complete, Deliver;
      CompleteIsDeliver(Reading(r.count - 1, r.text[1..]), rest);
    }
  }

  lemma HeadAndTail(text: string, rest: string)
    requires text != ""
    ensures (text + rest)[0] == text[0] && (text + rest)[1..] == text[1..] + rest
    ensures text == [text[0]] + text[1..]
  {
  }

  lemma DeliverOne(stream: string, count: nat)
    requires count > 0 && stream != "" && stream[0] != NEWLINE
    ensures Deliver(stream, count) == [stream[0]] + Deliver(stream[1..], count - 1)
  {
  }

  lemma NothingRead(r: Reading)
    requires Complete(r) && r.text == ""
    ensures r.count == 0
  {
  }

  lemma NewlineRead(r: Reading)
    requires Complete(r) && r.text != "" && r.text[0] == NEWLINE
    ensures r.count > 0 && r.text == [NEWLINE]
  {
  }

  lemma TailIsComplete(r: Reading)
    requires Complete(r) && r.text != "" && r.text[0] != NEWLINE
    ensures r.count > 0 && Complete(Reading(r.count - 1, r.text[1..]))
  {
    var tail := r.text[1..];
    forall i | 0 <= i < |tail| - 1 ensures tail[i] != NEWLINE {
      assert tail[i] == r.text[i + 1];
    }
  }

  lemma {:induction false} DeliveredFirst(rs: seq<Reading>)
    requires rs != []
    ensures Delivered(rs) == rs[0].text + Delivered(rs[1..])
    decreases |rs|
  {
    if |rs| == 1 {
      assert Delivered(rs[..0]) == "" && Delivered(rs[1..]) == "";
    } else {
      var front, last := rs[..|rs| - 1], rs[|rs| - 1].text;
      DeliveredFirst(front);
      assert front[1..] == rs[1..][..|rs| - 2];
      Associate(rs[0].text, Delivered(front[1..]), last);
    }
  }

  /** Complete reads of a stream, one after the other, are what the line reader of the whole stream returns. */
  lemma {:induction false} CompleteIsServe(rs: seq<Reading>, rest: string)
    requires forall r <- rs :: Complete(r)
    ensures Serve(Delivered(rs) + rest, Counts(rs)) == rs
    decreases |rs|
  {
    hide Complete;
    if rs != [] {
      DeliveredFirst(rs);
      var tail := Delivered(rs[1..]) + rest;
      Associate(rs[0].text, Delivered(rs[1..]), rest);
      CompleteIsDeliver(rs[0], tail);
      CompleteIsServe(rs[1..], rest);
      hide Delivered, Deliver, Serve;
      ServeFirst(rs[0], tail, Counts(rs[1..]));
      assert Counts(rs) == [rs[0].count] + Counts(rs[1..]);
      assert rs == [rs[0]] + rs[1..];
    }
  }

  lemma ServeFirst(r: Reading, tail: string, counts: seq<nat>)
    requires Deliver(r.text + tail, r.count) == r.text
    ensures Serve(r.text + tail, [r.count] + counts) == [r] + Serve(tail, counts)
  {
    hide Deliver;
    assert (r.text + tail)[|r.text|..] == tail;
    assert ([r.count] + counts)[1..] == counts;
  }

  /** Over every run whose commits fit, with interrupts at any step, the finished reads are exactly those of a line
      reader that sees all committed lines at once, and together they are a prefix of the committed bytes. */
  lemma ReadsAreServed(m: Machine, es: seq<Event>)
    requires Sound(m) && FitsAll(m, es)
    ensures var r := Run(m, es);
            && Delivered(r.finished) <= Stream(r.lines)
            && r.finished == Serve(Stream(r.lines), Counts(r.finished))
  {
    hide Fits, Next;
    RunSoundIff(m, es);
    var r := Run(m, es);
    assert Sound(r);
    hide Run, FitsAll, SoundAll, Ring;
    var hand, ring := InHand(r.reader), Ring(r.buf, r.rp, r.wp);
    Associate(Delivered(r.finished), hand, ring);
    CompleteIsServe(r.finished, hand + ring);
  }

  lemma {:induction false} StreamFirst(lines: seq<string>)
    requires lines != []
    ensures Stream(lines) == lines[0] + [NEWLINE] + Stream(lines[1..])
    decreases |lines|
  {
    if |lines| == 1 {
      assert Stream(lines[..0]) == "" && Stream(lines[1..]) == "";
    } else {
      var front, last := lines[..|lines| - 1], lines[|lines| - 1] + [NEWLINE];
      StreamFirst(front);
      assert front[1..] == lines[1..][..|lines| - 2];
      Associate(lines[0] + [NEWLINE], Stream(front[1..]), last);
    }
  }

  /** When each of the first k + 1 reads asks for more bytes than its line has, the k-th read is the k-th line
      with its newline. */
  lemma {:induction false} LineByLine(lines: seq<string>, counts: seq<nat>, k: nat)
    requires k < |lines| && k < |counts|
    requires forall i :: 0 <= i <= k ==> |lines[i]| < counts[i] && NoNewline(lines[i])
    ensures Serve(Stream(lines), counts)[k] == Reading(counts[k], lines[k] + [NEWLINE])
    decreases k
  {
    StreamFirst(lines);
    var line, rest := lines[0] + [NEWLINE], Stream(lines[1..]);
    WholeLine(lines[0], rest, counts[0]);
    if k > 0 {
      assert (line + rest)[|line|..] == rest;
      LineByLine(lines[1..], counts[1..], k - 1);
    }
  }

  lemma {:induction false} WholeLine(line: string, rest: string, count: nat)
    requires |line| < count && NoNewline(line)
    ensures Deliver(line + [NEWLINE] + rest, count) == line + [NEWLINE]
    decreases |line|
  {
    var s := line + [NEWLINE] + rest;
    if line != "" {
      WholeLine(line[1..], rest, count - 1);
      assert s[1..] == line[1..] + [NEWLINE] + rest;
      assert line + [NEWLINE] == [line[0]] + (line[1..] + [NEWLINE]);
    } else {
      assert s[0] == NEWLINE;
    }
  }

  // ----- what was typed

  /** The key events of a run. */
  function Raws(es: seq<Event>): seq<byte> {
    if es == [] then []
    else Raws(es[..|es| - 1]) + (if es[|es| - 1].Key? then [es[|es| - 1].raw] else [])
  }

  /** Whatever the reader does meanwhile, the pending line and the committed lines are what editing the typed
      characters gives. */
  lemma {:induction false} LinesAreTyped(m: Machine, es: seq<Event>)
    requires Shaped(m)
    ensures var (r, typed) := (Run(m, es), TypedAll(m.keys, Raws(es)));
            && r.keys == PressAll(m.keys, Raws(es))
            && r.keys.line == Fold(m.keys.line, typed)
            && r.lines == m.lines + Lines(m.keys.line, typed)
    decreases |es|
  {
    hide Press, Typed, Edit, TypedAll, Lines, PressAll, Fold, Ring;
    if es == [] {
      NothingTyped(m.keys);
      assert m.lines + [] == m.lines;
    } else {
      var front, e := es[..|es| - 1], es[|es| - 1];
      LinesAreTyped(m, front);
      var r := Run(m, front);
      if e.Key? {
        var k := r.keys;
        PressMore(m.keys, Raws(front), e.raw);
        PressEdits(k, e.raw);
        var typed := TypedAll(m.keys, Raws(front));
        if Typed(k, e.raw).Some? {
          LinesMore(m.keys.line, typed, Typed(k, e.raw).value);
          CommitAdds(r, e.raw);
        } else {
          assert typed + "" == typed;
          CommitAdds(r, e.raw);
        }
      } else {
        assert Raws(es) == Raws(front);
      }
    }
  }

  lemma NothingTyped(k: Keys)
    ensures PressAll(k, []) == k && TypedAll(k, []) == "" && Fold(k.line, "") == k.line && Lines(k.line, "") == []
  {
  }

  lemma CommitAdds(m: Machine, raw: byte)
    requires Shaped(m)
    ensures OnKey(m, raw).lines == m.lines + Optional(Press(m.keys, raw).1)
    ensures OnKey(m, raw).keys == Press(m.keys, raw).0
  {
    hide Press;
  }

  // ----- lines waiting

  function Newlines(s: string): nat {
    if s == "" then 0 else Newlines(s[..|s| - 1]) + (if s[|s| - 1] == NEWLINE then 1 else 0)
  }

  lemma {:induction false} NewlinesAdd(a: string, b: string)
    ensures Newlines(a + b) == Newlines(a) + Newlines(b)
    decreases |b|
  {
    if b == "" {
      assert a + b == a;
    } else {
      assert (a + b)[..|a + b| - 1] == a + b[..|b| - 1];
      NewlinesAdd(a, b[..|b| - 1]);
    }
  }

  lemma {:induction false} NewlinesNone(s: string)
    ensures Newlines(s) == 0 <==> NoNewline(s)
    decreases |s|
  {
    if s != "" {
      NewlinesNone(s[..|s| - 1]);
      assert s == s[..|s| - 1] + [s[|s| - 1]];
    }
  }

  lemma {:induction false} NewlinesOfStream(lines: seq<string>)
    requires forall line <- lines :: NoNewline(line)
    ensures Newlines(Stream(lines)) == |lines|
    decreases |lines|
  {
    if lines != [] {
      var front, last := lines[..|lines| - 1], lines[|lines| - 1];
      NewlinesOfStream(front);
      NewlinesNone(last);
      hide Stream, NoNewline;
      NewlinesAdd(Stream(front), last + [NEWLINE]);
      NewlinesAdd(last, [NEWLINE]);
      NewlinesNone("");
      assert [NEWLINE][..0] == "";
    }
  }

  /** The unread newlines count the committed lines not yet read to their end, so the scan finds one exactly when
      there is such a line. */
  lemma UnreadNewlines(m: Machine)
    requires Sound(m)
    ensures var taken := Delivered(m.finished) + InHand(m.reader);
            && Newlines(Ring(m.buf, m.rp, m.wp)) == |m.lines| - Newlines(taken)
            && (NEWLINE in Ring(m.buf, m.rp, m.wp) <==> Newlines(taken) < |m.lines|)
  {
    NewlinesOfStream(m.lines);
    var taken, ring := Delivered(m.finished) + InHand(m.reader), Ring(m.buf, m.rp, m.wp);
    NewlinesAdd(taken, ring);
    NewlinesNone(ring);
  }
}
