/** The keyboard line discipline of drivers/keyboard.c on values: key decoding, the line being edited,
    the 256-byte ring, and the reader's loops as steps between which interrupts may come. */
module Keyboard {
  import opened Bits
  import opened Options

  const BUFFER_SIZE: nat := 256
  const NEWLINE: char := '\n'
  const BACKSPACE: char := 8 as char

  const SC_ASCII: string :=
    ((("??1234567890-=" + [BACKSPACE, '\t']) + "qwertyuiop[]\n?as")
     + ("dfghjkl;'`?\\zxcv" + "bnm,./?*? ??????"))
    + ("???????789-456+1" + "230.?????")

  const SC_ASCII_SHIFT: string :=
    ((("??!@#$%^&*()_+" + [BACKSPACE, '\t']) + "QWERTYUIOP{}\n?AS")
     + ("DFGHJKL:\"~?|ZXCV" + "BNM<>??*? ??????"))
    + ("???????789-456+1" + "230.?????")

  // ----- keys

  /** Modifier keys and the line being typed. */
  datatype Keys = Keys(shift: bool, ctrl: bool, alt: bool, caps: bool, line: string)

  /** `scancode_to_ascii`. */
  function Decode(code: byte, shift: bool, caps: bool): char {
    if code >= 0x59 then '?'
    else
      var c := if shift then SC_ASCII_SHIFT[code] else SC_ASCII[code];
      if caps && 'a' <= c <= 'z' then (if shift then c else (c as int - 32) as char)
      else if caps && 'A' <= c <= 'Z' then (if shift then (c as int + 32) as char else c)
      else c
  }

  /** What one key does to the line: the new line, and the committed one if the key is Enter. */
  function Edit(line: string, c: char): (string, Option<string>) {
    if c == NEWLINE then ("", Some(line))
    else if c == BACKSPACE then (if |line| > 0 then line[..|line| - 1] else line, None)
    else if c != '?' && |line| < BUFFER_SIZE - 1 then (line + [c], None)
    else (line, None)
  }

  /** `keyboard_callback` for the byte read from the port: the keys afterwards and a committed line, if any. */
  function Press(k: Keys, raw: byte): (Keys, Option<string>) {
    var pressed, code := raw < 0x80, raw % 0x80;
    if code == 0x2A || code == 0x36 then (k.(shift := pressed), None)
    else if code == 0x1D then (k.(ctrl := pressed), None)
    else if code == 0x38 then (k.(alt := pressed), None)
    else if code == 0x3A && pressed then (k.(caps := !k.caps), None)
    else if !pressed then (k, None)
    else
      var (line, commit) := Edit(k.line, Decode(code, k.shift, k.caps));
      (k.(line := line), commit)
  }

  predicate NoNewline(s: string) { NEWLINE !in s }

  predicate GoodLine(s: string) { |s| < BUFFER_SIZE && NoNewline(s) }

  /** The pending line stays shorter than the buffer and never holds a newline; so does a committed one. */
  lemma PressKeepsLine(k: Keys, raw: byte)
    requires GoodLine(k.line)
    ensures var (k', commit) := Press(k, raw);
            && GoodLine(k'.line)
            && (commit.Some? ==> commit.value == k.line && k'.line == "")
  {
    hide Decode;
  }

  /** The character a key event types, given the modifiers; none for modifiers and releases. */
  function Typed(k: Keys, raw: byte): Option<char> {
    var code := raw % 0x80;
    if raw >= 0x80 || code == 0x2A || code == 0x36 || code == 0x1D || code == 0x38 || code == 0x3A then None
    else Some(Decode(code, k.shift, k.caps))
  }

  /** All characters a sequence of key events types. */
  function TypedAll(k: Keys, raws: seq<byte>): string
    decreases |raws|
  {
    if raws == [] then ""
    else (match Typed(k, raws[0]) case None => "" case Some(c) => [c]) + TypedAll(Press(k, raws[0]).0, raws[1..])
  }

  function PressAll(k: Keys, raws: seq<byte>): Keys
    decreases |raws|
  {
    if raws == [] then k else PressAll(Press(k, raws[0]).0, raws[1..])
  }

  /** The line that a string of characters leaves pending: the fold of appending and erasing. */
  function Fold(line: string, cs: string): string
    decreases |cs|
  {
    if cs == "" then line else Fold(Edit(line, cs[0]).0, cs[1..])
  }

  /** One key event changes the line only by the character it types. */
  lemma PressEdits(k: Keys, raw: byte)
    ensures Typed(k, raw) == None ==> Press(k, raw).0.line == k.line && Press(k, raw).1 == None
    ensures Typed(k, raw).Some? ==> (Press(k, raw).0.line, Press(k, raw).1) == Edit(k.line, Typed(k, raw).value)
  {
    hide Decode, Edit;
  }

  /** For every sequence of key events the pending line is the fold over the characters they type. */
  lemma {:induction false} PendingIsFold(k: Keys, raws: seq<byte>)
    ensures PressAll(k, raws).line == Fold(k.line, TypedAll(k, raws))
    decreases |raws|
  {
    hide Decode, Edit, Press, Typed;
    if raws != [] {
      PressEdits(k, raws[0]);
      PendingIsFold(Press(k, raws[0]).0, raws[1..]);
      var rest := TypedAll(Press(k, raws[0]).0, raws[1..]);
      match Typed(k, raws[0])
      case None => assert "" + rest == rest;
      case Some(c) => assert ([c] + rest)[1..] == rest;
    }
  }

  function Optional<T>(x: Option<T>): seq<T> { match x case None => [] case Some(v) => [v] }

  /** The lines committed while a string of characters is typed. */
  function Lines(line: string, cs: string): seq<string>
    decreases |cs|
  {
    if cs == "" then []
    else
      var (next, commit) := Edit(line, cs[0]);
      Optional(commit) + Lines(next, cs[1..])
  }

  /** One more key. */
  lemma {:induction false} PressMore(k: Keys, raws: seq<byte>, raw: byte)
    ensures PressAll(k, raws + [raw]) == Press(PressAll(k, raws), raw).0
    ensures TypedAll(k, raws + [raw]) == TypedAll(k, raws) + Optional(Typed(PressAll(k, raws), raw))
    decreases |raws|
  {
    hide Press, Typed;
    if raws == [] {
      assert [] + [raw] == [raw] && [raw][1..] == [];
    } else {
      assert (raws + [raw])[1..] == raws[1..] + [raw];
      PressMore(Press(k, raws[0]).0, raws[1..], raw);
    }
  }

  /** One more character. */
  lemma {:induction false} LinesMore(line: string, cs: string, c: char)
    ensures Fold(line, cs + [c]) == Edit(Fold(line, cs), c).0
    ensures Lines(line, cs + [c]) == Lines(line, cs) + Optional(Edit(Fold(line, cs), c).1)
    decreases |cs|
  {
    hide Edit;
    if cs == "" {
      assert "" + [c] == [c] && [c][1..] == "";
    } else {
      assert (cs + [c])[1..] == cs[1..] + [c];
      LinesMore(Edit(line, cs[0]).0, cs[1..], c);
    }
  }

  // ----- what editing means

  /** A typed character is appended, a backspace (code 8) takes the last one back, a question mark and whatever comes
      after 255 characters count for nothing, and Enter commits exactly the pending line. */
  lemma EditingLaws(line: string, cs: string, c: char)
    ensures var l := Fold(line, cs);
            && (c != '\n' && c != 8 as char && c != '?' && |l| < 255 ==>
                  Fold(line, cs + [c]) == l + [c] && Fold(line, cs + [c, 8 as char]) == l)
            && (c == '?' || (c != '\n' && c != 8 as char && |l| >= 255) ==> Fold(line, cs + [c]) == l)
            && Fold(line, cs + [8 as char]) == (if |l| == 0 then "" else l[..|l| - 1])
            && Fold(line, cs + ['\n']) == "" && Lines(line, cs + ['\n']) == Lines(line, cs) + [l]
            && (c != '\n' ==> Lines(line, cs + [c]) == Lines(line, cs))
  {
    hide Fold, Lines;
    LinesMore(line, cs, c);
    LinesMore(line, cs, 8 as char);
    LinesMore(line, cs, '\n');
    LinesMore(line, cs + [c], 8 as char);
    assert cs + [c] + [8 as char] == cs + [c, 8 as char];
  }

  /** What is left of typed characters, read from the back: an erasure takes the nearest character before it that no
      other erasure takes. */
  function Kept(cs: string, erased: nat): string
    decreases |cs|
  {
    if cs == "" then ""
    else
      var front, c := cs[..|cs| - 1], cs[|cs| - 1];
      if c == 8 as char then Kept(front, erased + 1)
      else if c == '?' then Kept(front, erased)
      else if erased > 0 then Kept(front, erased - 1)
      else Kept(front, 0) + [c]
  }

  /** The line never has 255 characters while there is more to type, and Enter is not among them. */
  predicate NeverFull(cs: string) {
    '\n' !in cs && forall i | 0 <= i < |cs| :: |Fold("", cs[..i])| < 255
  }

  lemma {:induction false} KeptIsFold(cs: string, erased: nat)
    requires NeverFull(cs)
    ensures var l := Fold("", cs); Kept(cs, erased) == if erased >= |l| then "" else l[..|l| - erased]
    decreases |cs|
  {
    if cs != "" {
      var front, c := cs[..|cs| - 1], cs[|cs| - 1];
      assert forall i | 0 <= i < |front| :: front[..i] == cs[..i];
      assert NeverFull(front) && |Fold("", front)| < 255;
      EditingLaws("", front, c);
      assert front + [c] == cs;
      hide Fold, NeverFull;
      KeptIsFold(front, if c == 8 as char then erased + 1 else if c == '?' || erased == 0 then erased else erased - 1);
    }
  }

  /** What is typed up to an Enter is committed with its erasures carried out, and what follows starts a new line. */
  lemma {:induction false} TypedLine(cs: string, rest: string)
    requires NeverFull(cs)
    ensures Lines("", cs + ['\n'] + rest) == [Kept(cs, 0)] + Lines("", rest)
    ensures Fold("", cs + ['\n'] + rest) == Fold("", rest)
  {
    KeptIsFold(cs, 0);
    assert Fold("", cs)[..|Fold("", cs)|] == Fold("", cs);
    NoLines(cs);
    EditingLaws("", cs, '\n');
    FoldOnward("", cs + ['\n'], rest);
    hide Fold, Lines, Kept;
    assert [] + [Kept(cs, 0)] == [Kept(cs, 0)];
  }

  lemma {:induction false} NoLines(cs: string)
    requires '\n' !in cs
    ensures Lines("", cs) == []
    decreases |cs|
  {
    if cs != "" {
      var front, c := cs[..|cs| - 1], cs[|cs| - 1];
      NoLines(front);
      EditingLaws("", front, c);
      hide Lines;
      assert front + [c] == cs;
    }
  }

  lemma {:induction false} FoldOnward(line: string, cs: string, rest: string)
    ensures Fold(line, cs + rest) == Fold(Fold(line, cs), rest)
    ensures Lines(line, cs + rest) == Lines(line, cs) + Lines(Fold(line, cs), rest)
    decreases |cs|
  {
    hide Edit;
    if cs == "" {
      assert cs + rest == rest;
    } else {
      var (next, commit) := Edit(line, cs[0]);
      FoldOnward(next, cs[1..], rest);
      assert (cs + rest)[1..] == cs[1..] + rest;
    }
  }

  // ----- what keys mean

  /** The letters, digits and symbols where the keys are. */
  lemma KeyRows()
    ensures forall i | 0 <= i < 10 :: SC_ASCII[0x02 + i] == "1234567890"[i]
    ensures forall i | 0 <= i < 10 :: SC_ASCII_SHIFT[0x02 + i] == "!@#$%^&*()"[i]
  {
  }

  lemma TopLetters()
    ensures forall i | 0 <= i < 10 :: SC_ASCII[0x10 + i] == "qwertyuiop"[i]
  {
  }

  lemma MiddleLetters()
    ensures forall i | 0 <= i < 9 :: SC_ASCII[0x1E + i] == "asdfghjkl"[i]
  {
  }

  lemma BottomLetters()
    ensures forall i | 0 <= i < 7 :: SC_ASCII[0x2C + i] == "zxcvbnm"[i]
  {
  }

  lemma PunctuationKeys()
    ensures [SC_ASCII[0x0C], SC_ASCII[0x0D], SC_ASCII[0x1A], SC_ASCII[0x1B], SC_ASCII[0x27], SC_ASCII[0x28]]
         == "-=[];'"
    ensures [SC_ASCII[0x29], SC_ASCII[0x2B], SC_ASCII[0x33], SC_ASCII[0x34], SC_ASCII[0x35], SC_ASCII[0x37]]
         == "`\\,./*"
  {
  }

  lemma ShiftedPunctuation()
    ensures [SC_ASCII_SHIFT[0x0C], SC_ASCII_SHIFT[0x0D], SC_ASCII_SHIFT[0x1A], SC_ASCII_SHIFT[0x1B],
             SC_ASCII_SHIFT[0x27], SC_ASCII_SHIFT[0x28]] == "_+{}:\""
    ensures [SC_ASCII_SHIFT[0x29], SC_ASCII_SHIFT[0x2B], SC_ASCII_SHIFT[0x33], SC_ASCII_SHIFT[0x34],
             SC_ASCII_SHIFT[0x35], SC_ASCII_SHIFT[0x37]] == "~|<>?*"
  {
  }

  lemma KeypadKeys()
    ensures [SC_ASCII[0x47], SC_ASCII[0x48], SC_ASCII[0x49], SC_ASCII[0x4A], SC_ASCII[0x4B], SC_ASCII[0x4C],
             SC_ASCII[0x4D], SC_ASCII[0x4E], SC_ASCII[0x4F]] == "789-456+1"
    ensures [SC_ASCII[0x50], SC_ASCII[0x51], SC_ASCII[0x52], SC_ASCII[0x53]] == "230."
  {
  }

  lemma ShiftedKeypad()
    ensures [SC_ASCII_SHIFT[0x47], SC_ASCII_SHIFT[0x48], SC_ASCII_SHIFT[0x49], SC_ASCII_SHIFT[0x4A],
             SC_ASCII_SHIFT[0x4B], SC_ASCII_SHIFT[0x4C], SC_ASCII_SHIFT[0x4D], SC_ASCII_SHIFT[0x4E],
             SC_ASCII_SHIFT[0x4F]] == "789-456+1"
    ensures [SC_ASCII_SHIFT[0x50], SC_ASCII_SHIFT[0x51], SC_ASCII_SHIFT[0x52], SC_ASCII_SHIFT[0x53]] == "230."
  {
  }

  /** All other keys stand for the question mark that editing ignores: those without a character ... */
  lemma OtherKeys(code: nat)
    requires code <= 1 || code == 0x1D || code == 0x2A || code == 0x36 || code == 0x38
    ensures SC_ASCII[code] == SC_ASCII_SHIFT[code] == '?'
  {
  }

  /** ... caps lock and the function keys. */
  lemma FunctionKeys(code: nat)
    requires 0x3A <= code < 0x47 || 0x54 <= code < 0x59
    ensures SC_ASCII[code] == SC_ASCII_SHIFT[code] == '?'
  {
  }

  lemma EditingKeys()
    ensures SC_ASCII[0x0E] == SC_ASCII_SHIFT[0x0E] == 8 as char
    ensures SC_ASCII[0x1C] == SC_ASCII_SHIFT[0x1C] == '\n' && SC_ASCII[0x39] == SC_ASCII_SHIFT[0x39] == ' '
    ensures SC_ASCII[0x0F] == SC_ASCII_SHIFT[0x0F] == '\t'
  {
  }

  predicate IsLowerLetter(c: char) { 'a' <= c <= 'z' }

  predicate IsLetter(c: char) { 'a' <= c <= 'z' || 'A' <= c <= 'Z' }

  /** Shift gives a letter key its capital; no other key is a letter. */
  predicate Capital(plain: char, shifted: char) {
    if IsLowerLetter(plain) then shifted as int == plain as int - 32 else !IsLetter(plain) && !IsLetter(shifted)
  }

  lemma CapitalsAreShifted(code: nat)
    requires code < 0x59
    ensures Capital(SC_ASCII[code], SC_ASCII_SHIFT[code])
  {
    if code < 0x10 { Capitals00(code); }
    else if code < 0x20 { Capitals10(code); }
    else if code < 0x30 { Capitals20(code); }
    else if code < 0x40 { Capitals30(code); }
    else { Capitals40(code); }
    hide Capital;
  }

  lemma Capitals00(code: nat)
    requires code < 0x10
    ensures Capital(SC_ASCII[code], SC_ASCII_SHIFT[code])
  {
  }

  lemma Capitals10(code: nat)
    requires 0x10 <= code < 0x20
    ensures Capital(SC_ASCII[code], SC_ASCII_SHIFT[code])
  {
  }

  lemma Capitals20(code: nat)
    requires 0x20 <= code < 0x30
    ensures Capital(SC_ASCII[code], SC_ASCII_SHIFT[code])
  {
  }

  lemma Capitals30(code: nat)
    requires 0x30 <= code < 0x40
    ensures Capital(SC_ASCII[code], SC_ASCII_SHIFT[code])
  {
  }

  lemma Capitals40(code: nat)
    requires 0x40 <= code < 0x59
    ensures Capital(SC_ASCII[code], SC_ASCII_SHIFT[code])
  {
  }

  /** A letter is a capital when exactly one of shift and caps lock is on; caps lock changes no other key. */
  lemma CaseOfLetters(code: byte, shift: bool, caps: bool)
    requires code < 0x59
    ensures var plain := SC_ASCII[code];
            if IsLowerLetter(plain) then
              Decode(code, shift, caps) == if shift == caps then plain else (plain as int - 32) as char
            else Decode(code, shift, caps) == if shift then SC_ASCII_SHIFT[code] else plain
  {
    CapitalsAreShifted(code);
  }

  /** Codes 0x2A and 0x36 are the shift keys, 0x1D is control and 0x38 alternate, each down below 0x80 and up above it;
      0x3A turns caps lock over when it goes down; every other key does something only when it goes down. */
  lemma ModifierKeys(k: Keys)
    ensures Press(k, 0x2A).0 == Press(k, 0x36).0 == k.(shift := true)
    ensures Press(k, 0xAA).0 == Press(k, 0xB6).0 == k.(shift := false)
    ensures Press(k, 0x1D).0 == k.(ctrl := true) && Press(k, 0x9D).0 == k.(ctrl := false)
    ensures Press(k, 0x38).0 == k.(alt := true) && Press(k, 0xB8).0 == k.(alt := false)
    ensures Press(k, 0x3A).0 == k.(caps := !k.caps)
  {
    hide Edit, Decode;
  }

  /** ... no other key does anything when it goes up ... */
  lemma ReleasesDoNothing(k: Keys, raw: byte)
    requires raw >= 0x80 && raw != 0xAA && raw != 0xB6 && raw != 0x9D && raw != 0xB8
    ensures Press(k, raw) == (k, None)
  {
    hide Edit, Decode;
  }

  /** ... and when it goes down it types what its code stands for, if that is one of the first 0x59. */
  lemma KeysType(k: Keys, raw: byte)
    ensures Typed(k, raw)
         == if raw >= 0x80 || raw == 0x2A || raw == 0x36 || raw == 0x1D || raw == 0x38 || raw == 0x3A then None
            else if raw >= 0x59 then Some('?') else Some(Decode(raw, k.shift, k.caps))
  {
    hide Edit, Press, Decode;
    if raw % 0x80 >= 0x59 { BeyondTable(raw % 0x80, k.shift, k.caps); }
  }

  lemma BeyondTable(code: byte, shift: bool, caps: bool)
    requires code >= 0x59
    ensures Decode(code, shift, caps) == '?'
  {
  }

  // ----- the ring

  function Advanced(p: nat): nat { (p + 1) % BUFFER_SIZE }

  lemma NextPosition(p: nat)
    requires p < BUFFER_SIZE
    ensures Advanced(p) == if p == BUFFER_SIZE - 1 then 0 else p + 1
  {
  }

  predicate Positions(buf: string, rp: nat, wp: nat) { |buf| == BUFFER_SIZE && rp < BUFFER_SIZE && wp < BUFFER_SIZE }

  /** The bytes written and not yet read. */
  function Ring(buf: string, rp: nat, wp: nat): (r: string)
    requires Positions(buf, rp, wp)
    ensures |r| == Distance(rp, wp) < BUFFER_SIZE
  {
    if rp <= wp then buf[rp..wp] else buf[rp..] + buf[..wp]
  }

  /** How many steps around the ring lead from one position to the other. */
  function Distance(from: nat, to: nat): nat
    requires from < BUFFER_SIZE && to < BUFFER_SIZE
  {
    if from <= to then to - from else BUFFER_SIZE - from + to
  }

  /** The buffer and write position after the bytes of s went in one by one. */
  function PutAll(buf: string, wp: nat, s: string): (r: (string, nat))
    requires |buf| == BUFFER_SIZE && wp < BUFFER_SIZE
    ensures |r.0| == BUFFER_SIZE && r.1 < BUFFER_SIZE
    decreases |s|
  {
    if s == "" then (buf, wp) else PutAll(buf[wp := s[0]], Advanced(wp), s[1..])
  }

  /** A position on the way from the read to the write position holds the byte at that distance. */
  lemma RingAt(buf: string, rp: nat, wp: nat, p: nat)
    requires Positions(buf, rp, wp) && p < BUFFER_SIZE && Distance(rp, p) <= Distance(rp, wp) && p != wp
    ensures Distance(rp, Advanced(p)) == Distance(rp, p) + 1 <= Distance(rp, wp)
    ensures Ring(buf, rp, wp)[Distance(rp, p)] == buf[p]
  {
    NextPosition(p);
    hide Advanced;
  }

  lemma SliceHead(s: string, i: nat, j: nat)
    requires i < j <= |s|
    ensures s[i..j] == [s[i]] + s[i + 1..j]
  {
  }

  /** Reading one byte takes the first one off. */
  lemma RingTake(buf: string, rp: nat, wp: nat)
    requires Positions(buf, rp, wp) && rp != wp
    ensures Advanced(rp) < BUFFER_SIZE
    ensures Ring(buf, rp, wp) == [buf[rp]] + Ring(buf, Advanced(rp), wp)
  {
    NextPosition(rp);
    hide Advanced;
    if rp < wp {
      SliceHead(buf, rp, wp);
    } else {
      var high, low := buf[rp + 1..BUFFER_SIZE], buf[..wp];
      SliceHead(buf, rp, BUFFER_SIZE);
      Joined(buf, rp, wp);
      Joined(buf, rp + 1, wp);
      Associate([buf[rp]], high, low);
    }
  }

  lemma Associate(a: string, b: string, c: string)
    ensures a + b + c == a + (b + c)
  {
  }

  lemma Joined(buf: string, i: nat, wp: nat)
    requires |buf| == BUFFER_SIZE && wp < i <= BUFFER_SIZE
    ensures buf[i..] + buf[..wp] == buf[i..BUFFER_SIZE] + buf[..wp]
    ensures i == BUFFER_SIZE ==> buf[i..BUFFER_SIZE] + buf[..wp] == buf[0..wp]
  {
  }

  /** Writing one byte appends it when it fits. */
  lemma RingPut(buf: string, rp: nat, wp: nat, c: char)
    requires Positions(buf, rp, wp) && |Ring(buf, rp, wp)| + 1 < BUFFER_SIZE
    ensures Advanced(wp) < BUFFER_SIZE
    ensures Ring(buf[wp := c], rp, Advanced(wp)) == Ring(buf, rp, wp) + [c]
  {
    NextPosition(wp);
    hide Advanced;
    var after := buf[wp := c];
    if rp <= wp < BUFFER_SIZE - 1 {
      assert after[rp..wp + 1] == buf[rp..wp] + [c];
    } else if rp <= wp {
      assert after[rp..] + after[..0] == buf[rp..wp] + [c];
    } else {
      assert after[rp..] == buf[rp..] && after[..wp + 1] == buf[..wp] + [c];
      assert buf[rp..] + (buf[..wp] + [c]) == buf[rp..] + buf[..wp] + [c];
    }
  }

  lemma {:induction false} RingPutAll(buf: string, rp: nat, wp: nat, s: string)
    requires Positions(buf, rp, wp) && |Ring(buf, rp, wp)| + |s| < BUFFER_SIZE
    ensures var (buf', wp') := PutAll(buf, wp, s); Ring(buf', rp, wp') == Ring(buf, rp, wp) + s
    decreases |s|
  {
    if s != "" {
      RingPut(buf, rp, wp, s[0]);
      hide Ring, Advanced;
      RingPutAll(buf[wp := s[0]], rp, Advanced(wp), s[1..]);
      Associate(Ring(buf, rp, wp), [s[0]], s[1..]);
      assert [s[0]] + s[1..] == s;
    } else {
      hide Ring;
      assert Ring(buf, rp, wp) + "" == Ring(buf, rp, wp);
    }
  }

  /** The ring has no full check: bytes put in are all there exactly when they fit beside the unread ones. */
  lemma PutAllKeepsIff(buf: string, rp: nat, wp: nat, s: string)
    requires Positions(buf, rp, wp)
    ensures var (buf', wp') := PutAll(buf, wp, s);
            Ring(buf', rp, wp') == Ring(buf, rp, wp) + s <==> |Ring(buf, rp, wp)| + |s| < BUFFER_SIZE
  {
    hide Ring, PutAll;
    if |Ring(buf, rp, wp)| + |s| < BUFFER_SIZE {
      RingPutAll(buf, rp, wp, s);
    } else {
      var (buf', wp') := PutAll(buf, wp, s);
      assert |Ring(buf', rp, wp')| < BUFFER_SIZE <= |Ring(buf, rp, wp) + s|;
    }
  }
}
