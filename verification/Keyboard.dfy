/** The keyboard driver (`drivers/keyboard.c`): the scancode machine and the ring it shares with the
    reader. The interrupt handler may run between any two memory accesses of the reader. */
module Keyboard {
  import opened Bits

  const KB_BUFFER_SIZE := 256
  const TABLE_SIZE := 58
  const NUL := '\0'
  const BACKSPACE := 8 as char

  type Layout = l: seq<char> | |l| == 58 witness seq(58, _ => '\0')

  /** The two scancode tables, arbitrary here. */
  datatype Tables = Tables(plain: Layout, shifted: Layout)

  datatype Modifiers = Modifiers(shift: bool, ctrl: bool, alt: bool, caps: bool, num: bool, scroll: bool)

  // ----- The scancode machine

  function Modify(m: Modifiers, scancode: Byte): Modifiers {
    match scancode
    case 0x2A | 0x36 => m.(shift := true)
    case 0xAA | 0xB6 => m.(shift := false)
    case 0x1D => m.(ctrl := true)
    case 0x9D => m.(ctrl := false)
    case 0x38 => m.(alt := true)
    case 0xB8 => m.(alt := false)
    case 0x3A => m.(caps := !m.caps)
    case 0x45 => m.(num := !m.num)
    case 0x46 => m.(scroll := !m.scroll)
    case _ => m
  }

  predicate IsModifierKey(scancode: Byte) {
    scancode in {0x2A, 0x36, 0xAA, 0xB6, 0x1D, 0x9D, 0x38, 0xB8, 0x3A, 0x45, 0x46}
  }

  function SwapCase(c: char): char {
    if 'a' <= c <= 'z' then (c as int - 32) as char
    else if 'A' <= c <= 'Z' then (c as int + 32) as char
    else c
  }

  /** The character a scancode types, NUL for none. */
  function Typed(t: Tables, m: Modifiers, scancode: Byte): char {
    if scancode == 0x0E then BACKSPACE
    else if IsModifierKey(scancode) || scancode >= TABLE_SIZE then NUL
    else
      var c := if m.shift then t.shifted[scancode] else t.plain[scancode];
      if m.caps then SwapCase(c) else c
  }

  /** The characters a run of scancodes types, in order. */
  function Offered(t: Tables, m: Modifiers, scancodes: seq<Byte>): seq<char>
    decreases scancodes
  {
    if scancodes == [] then []
    else
      var c := Typed(t, m, scancodes[0]);
      (if c == NUL then [] else [c]) + Offered(t, Modify(m, scancodes[0]), scancodes[1..])
  }

  function ModifiersAfter(m: Modifiers, scancodes: seq<Byte>): Modifiers
    decreases scancodes
  {
    if scancodes == [] then m else ModifiersAfter(Modify(m, scancodes[0]), scancodes[1..])
  }

  lemma {:induction false} OfferedAppend(t: Tables, m: Modifiers, scancodes: seq<Byte>, s: Byte)
    ensures ModifiersAfter(m, scancodes + [s]) == Modify(ModifiersAfter(m, scancodes), s)
    ensures var c := Typed(t, ModifiersAfter(m, scancodes), s);
      Offered(t, m, scancodes + [s]) == Offered(t, m, scancodes) + (if c == NUL then [] else [c])
    decreases scancodes
  {
    if scancodes == [] {
      assert [s][1..] == [];
    } else {
      assert (scancodes + [s])[1..] == scancodes[1..] + [s];
      OfferedAppend(t, Modify(m, scancodes[0]), scancodes[1..], s);
    }
  }

  // ----- What the modifier state means

  function Count(scancodes: seq<Byte>, key: Byte): nat
    decreases scancodes
  {
    if scancodes == [] then 0 else (if scancodes[0] == key then 1 else 0) + Count(scancodes[1..], key)
  }

  datatype Lock = Caps | Num | Scroll

  function KeyOf(l: Lock): Byte {
    match l case Caps => 0x3A case Num => 0x45 case Scroll => 0x46
  }

  predicate IsOn(l: Lock, m: Modifiers) {
    match l case Caps => m.caps case Num => m.num case Scroll => m.scroll
  }

  /** Each lock is toggled once for every press of its key and by no other scancode. */
  lemma {:induction false} LocksAreParities(l: Lock, m: Modifiers, scancodes: seq<Byte>)
    ensures IsOn(l, ModifiersAfter(m, scancodes)) == (IsOn(l, m) != (Count(scancodes, KeyOf(l)) % 2 == 1))
    decreases scancodes
  {
    if scancodes != [] {
      OneToggle(l, m, scancodes[0]);
      LocksAreParities(l, Modify(m, scancodes[0]), scancodes[1..]);
      OddSuccessor(Count(scancodes[1..], KeyOf(l)));
    }
  }

  lemma OneToggle(l: Lock, m: Modifiers, s: Byte)
    ensures IsOn(l, Modify(m, s)) == (IsOn(l, m) != (s == KeyOf(l)))
  {
  }

  lemma OddSuccessor(n: nat)
    ensures (1 + n) % 2 == 1 <==> n % 2 == 0
  {
  }

  /** The press and release codes of a held modifier. */
  datatype Hold = Shift | Ctrl | Alt

  predicate Presses(h: Hold, s: Byte) {
    match h
    case Shift => s == 0x2A || s == 0x36
    case Ctrl => s == 0x1D
    case Alt => s == 0x38
  }

  predicate Releases(h: Hold, s: Byte) {
    match h
    case Shift => s == 0xAA || s == 0xB6
    case Ctrl => s == 0x9D
    case Alt => s == 0xB8
  }

  predicate IsHeld(h: Hold, m: Modifiers) {
    match h case Shift => m.shift case Ctrl => m.ctrl case Alt => m.alt
  }

  /** A held modifier is down when the last scancode of its keys was a press, whichever of them it was. */
  lemma {:induction false} HeldSinceLast(h: Hold, m: Modifiers, scancodes: seq<Byte>, k: nat)
    requires k < |scancodes| && (Presses(h, scancodes[k]) || Releases(h, scancodes[k]))
    requires forall i :: k < i < |scancodes| ==> !Presses(h, scancodes[i]) && !Releases(h, scancodes[i])
    ensures IsHeld(h, ModifiersAfter(m, scancodes)) <==> Presses(h, scancodes[k])
    decreases scancodes
  {
    OneCode(h, m, scancodes[0]);
    if k > 0 {
      HeldSinceLast(h, Modify(m, scancodes[0]), scancodes[1..], k - 1);
    } else {
      NoCode(h, Modify(m, scancodes[0]), scancodes[1..]);
    }
  }

  lemma OneCode(h: Hold, m: Modifiers, s: Byte)
    ensures Presses(h, s) ==> IsHeld(h, Modify(m, s))
    ensures Releases(h, s) ==> !IsHeld(h, Modify(m, s)) && !Presses(h, s)
    ensures !Presses(h, s) && !Releases(h, s) ==> IsHeld(h, Modify(m, s)) == IsHeld(h, m)
  {
  }

  lemma {:induction false} NoCode(h: Hold, m: Modifiers, scancodes: seq<Byte>)
    requires forall i :: 0 <= i < |scancodes| ==> !Presses(h, scancodes[i]) && !Releases(h, scancodes[i])
    ensures IsHeld(h, ModifiersAfter(m, scancodes)) == IsHeld(h, m)
    decreases scancodes
  {
    if scancodes != [] {
      OneCode(h, m, scancodes[0]);
      NoCode(h, Modify(m, scancodes[0]), scancodes[1..]);
    }
  }

  /** No release and no modifier key types; caps lock exchanges the two cases of letters and nothing else. */
  lemma TypedMeaning(t: Tables, m: Modifiers, s: Byte)
    ensures s >= 0x80 || IsModifierKey(s) ==> Typed(t, m, s) == NUL
    ensures var c, d := Typed(t, m.(caps := false), s), Typed(t, m.(caps := true), s);
      && (c == NUL <==> d == NUL) && SwapCase(c) == d && SwapCase(d) == c
      && (c != d ==> 'a' <= c <= 'z' || 'A' <= c <= 'Z')
  {
  }

  // ----- What is typed, from the history of scancodes alone

  /** The three locks count the presses 0x3A, 0x45 and 0x46. */
  lemma {:induction false} LockCodes(m: Modifiers, scancodes: seq<Byte>)
    ensures var n := ModifiersAfter(m, scancodes);
      && n.caps == (m.caps != (multiset(scancodes)[0x3A] % 2 == 1))
      && n.num == (m.num != (multiset(scancodes)[0x45] % 2 == 1))
      && n.scroll == (m.scroll != (multiset(scancodes)[0x46] % 2 == 1))
  {
    LocksAreParities(Caps, m, scancodes);
    LocksAreParities(Num, m, scancodes);
    LocksAreParities(Scroll, m, scancodes);
    CountIs(scancodes, 0x3A);
    CountIs(scancodes, 0x45);
    CountIs(scancodes, 0x46);
  }

  lemma {:induction false} CountIs(scancodes: seq<Byte>, key: Byte)
    ensures Count(scancodes, key) == multiset(scancodes)[key]
  {
    if scancodes != [] {
      assert scancodes == [scancodes[0]] + scancodes[1..];
      CountIs(scancodes[1..], key);
    }
  }

  /** Scancode `k` is the last one of a key with those press and release codes. */
  predicate LastOf(scancodes: seq<Byte>, codes: set<Byte>, k: nat)
    requires k < |scancodes|
  {
    scancodes[k] in codes && forall i :: k < i < |scancodes| ==> scancodes[i] !in codes
  }

  /** Shift is down after 0x2A or 0x36 and up after 0xAA or 0xB6; ctrl and alt follow their two codes. */
  lemma HoldCodes(m: Modifiers, scancodes: seq<Byte>, k: nat)
    requires k < |scancodes|
    ensures var n, s := ModifiersAfter(m, scancodes), scancodes[k];
      && (LastOf(scancodes, {0x2A, 0x36, 0xAA, 0xB6}, k) ==> n.shift == (s == 0x2A || s == 0x36))
      && (LastOf(scancodes, {0x1D, 0x9D}, k) ==> n.ctrl == (s == 0x1D))
      && (LastOf(scancodes, {0x38, 0xB8}, k) ==> n.alt == (s == 0x38))
  {
    if LastOf(scancodes, {0x2A, 0x36, 0xAA, 0xB6}, k) {
      HeldSinceLast(Shift, m, scancodes, k);
    } else if LastOf(scancodes, {0x1D, 0x9D}, k) {
      HeldSinceLast(Ctrl, m, scancodes, k);
    } else if LastOf(scancodes, {0x38, 0xB8}, k) {
      HeldSinceLast(Alt, m, scancodes, k);
    }
  }

  lemma ShiftKept(m: Modifiers, scancodes: seq<Byte>)
    requires forall i :: 0 <= i < |scancodes| ==> scancodes[i] !in {0x2A, 0x36, 0xAA, 0xB6}
    ensures ModifiersAfter(m, scancodes).shift == m.shift
  {
    NoCode(Shift, m, scancodes);
  }

  /** The table's character as caps lock leaves it: letters change case. */
  ghost predicate InCase(c: char, caps: bool, typed: char) {
    if caps && 'a' <= c <= 'z' then typed as int == c as int - 32
    else if caps && 'A' <= c <= 'Z' then typed as int == c as int + 32
    else typed == c
  }

  /** The codes that are neither a key of the table nor the backspace. */
  predicate Silent(s: Byte) {
    s >= 58 || s == 0x2A || s == 0x36 || s == 0x1D || s == 0x38 || s == 0x3A
  }

  /** A key of the table types the shifted character exactly when the last shift code was a press, in the
      case the presses of caps lock leave. */
  lemma TypedAfter(t: Tables, m: Modifiers, scancodes: seq<Byte>, k: nat, s: Byte)
    requires k < |scancodes| && LastOf(scancodes, {0x2A, 0x36, 0xAA, 0xB6}, k)
    requires !Silent(s) && s != 0x0E
    ensures var c := if scancodes[k] == 0x2A || scancodes[k] == 0x36 then t.shifted[s] else t.plain[s];
      var caps := m.caps != (multiset(scancodes)[0x3A] % 2 == 1);
      InCase(c, caps, Typed(t, ModifiersAfter(m, scancodes), s))
  {
    LockCodes(m, scancodes);
    HoldCodes(m, scancodes, k);
  }

  /** Without a shift code the shift state is what it was. */
  lemma TypedWithoutShift(t: Tables, m: Modifiers, scancodes: seq<Byte>, s: Byte)
    requires forall i :: 0 <= i < |scancodes| ==> scancodes[i] !in {0x2A, 0x36, 0xAA, 0xB6}
    requires !Silent(s) && s != 0x0E
    ensures var c := if m.shift then t.shifted[s] else t.plain[s];
      var caps := m.caps != (multiset(scancodes)[0x3A] % 2 == 1);
      InCase(c, caps, Typed(t, ModifiersAfter(m, scancodes), s))
  {
    LockCodes(m, scancodes);
    ShiftKept(m, scancodes);
  }

  /** In every state the backspace types character 8 and changes nothing, and the other codes type nothing. */
  lemma SpecialCodes(t: Tables, m: Modifiers, s: Byte)
    ensures Typed(t, m, 0x0E) as int == 8 && Modify(m, 0x0E) == m
    ensures Silent(s) ==> Typed(t, m, s) == '\0'
    ensures !Silent(s) ==> Modify(m, s) == m
  {
  }

  /** The characters offered, one scancode at a time. */
  lemma OfferedMeaning(t: Tables, m: Modifiers, scancodes: seq<Byte>, s: Byte)
    ensures Offered(t, m, []) == [] && ModifiersAfter(m, []) == m
    ensures var c := Typed(t, ModifiersAfter(m, scancodes), s);
      Offered(t, m, scancodes + [s]) == if c == '\0' then Offered(t, m, scancodes) else Offered(t, m, scancodes) + [c]
  {
    OfferedAppend(t, m, scancodes, s);
  }

  // ----- The ring

  datatype Ring = Ring(buf: seq<char>, write: nat, read: nat)

  ghost predicate ValidRing(k: Ring) {
    |k.buf| == KB_BUFFER_SIZE && k.write < KB_BUFFER_SIZE && k.read < KB_BUFFER_SIZE
  }

  /** What the reader has still to be given, oldest first: the window between the pointers. */
  ghost function Pending(k: Ring): seq<char>
    requires ValidRing(k)
  {
    if k.read <= k.write then k.buf[k.read..k.write] else k.buf[k.read..] + k.buf[..k.write]
  }

  predicate Full(k: Ring) {
    (k.write + 1) % KB_BUFFER_SIZE == k.read
  }

  function Push(k: Ring, c: char): Ring
    requires k.write < |k.buf|
  {
    if Full(k) then k else k.(buf := k.buf[k.write := c], write := (k.write + 1) % KB_BUFFER_SIZE)
  }

  function Pop(k: Ring): Ring {
    k.(read := (k.read + 1) % KB_BUFFER_SIZE)
  }

  /** The ring is a queue of at most 255 characters that ignores arrivals when it is full. */
  lemma PushIsEnqueue(k: Ring, c: char)
    requires ValidRing(k)
    ensures ValidRing(Push(k, c)) && |Pending(k)| <= KB_BUFFER_SIZE - 1
    ensures Full(k) <==> |Pending(k)| == KB_BUFFER_SIZE - 1
    ensures Pending(Push(k, c)) == if |Pending(k)| < KB_BUFFER_SIZE - 1 then Pending(k) + [c] else Pending(k)
  {
  }

  lemma PopIsDequeue(k: Ring)
    requires ValidRing(k) && k.read != k.write
    ensures ValidRing(Pop(k)) && Pending(k) == [k.buf[k.read]] + Pending(Pop(k))
  {
    if k.read == KB_BUFFER_SIZE - 1 {
      PopLast(k);
    } else if k.read < k.write {
      PopStraight(k);
    } else {
      PopAround(k);
    }
  }

  lemma PopStraight(k: Ring)
    requires ValidRing(k) && k.read < k.write
    ensures Pending(k) == [k.buf[k.read]] + Pending(Pop(k))
  {
    assert Pending(Pop(k)) == k.buf[k.read + 1..k.write];
  }

  lemma PopAround(k: Ring)
    requires ValidRing(k) && k.write < k.read < KB_BUFFER_SIZE - 1
    ensures Pending(k) == [k.buf[k.read]] + Pending(Pop(k))
  {
    assert Pending(Pop(k)) == k.buf[k.read + 1..] + k.buf[..k.write];
  }

  lemma PopLast(k: Ring)
    requires ValidRing(k) && k.write < k.read == KB_BUFFER_SIZE - 1
    ensures Pending(k) == [k.buf[k.read]] + Pending(Pop(k))
  {
    assert Pending(Pop(k)) == k.buf[..k.write];
  }

  // ----- The driver's memory

  class Driver {
    const tables: Tables
    const kbBuffer: array<char>
    var kbWritePtr: nat
    var kbReadPtr: nat
    var modifiers: Modifiers

    ghost predicate Valid()
      reads this, kbBuffer
    {
      kbBuffer.Length == KB_BUFFER_SIZE && ValidRing(View())
    }

    ghost function View(): Ring
      reads this, kbBuffer
    {
      Ring(kbBuffer[..], kbWritePtr, kbReadPtr)
    }

    constructor (tables: Tables)
      ensures Valid() && fresh(kbBuffer) && this.tables == tables
      ensures Pending(View()) == [] && modifiers == Modifiers(false, false, false, false, false, false)
    {
      this.tables := tables;
      kbBuffer := new char[KB_BUFFER_SIZE](_ => NUL);
      kbWritePtr, kbReadPtr := 0, 0;
      modifiers := Modifiers(false, false, false, false, false, false);
    }

    method Handler(scancode: Byte)
      requires Valid()
      modifies this, kbBuffer
      ensures Valid() && modifiers == Modify(old(modifiers), scancode)
      ensures var c := Typed(tables, old(modifiers), scancode);
        View() == if c == NUL then old(View()) else Push(old(View()), c)
    {
      if scancode == 0x0E {
        var nextWrite := (kbWritePtr + 1) % KB_BUFFER_SIZE;
        if nextWrite != kbReadPtr {
          kbBuffer[kbWritePtr] := BACKSPACE;
          kbWritePtr := nextWrite;
        }
        return;
      }
      match scancode {
        case 0x2A => modifiers := modifiers.(shift := true); return;
        case 0x36 => modifiers := modifiers.(shift := true); return;
        case 0xAA => modifiers := modifiers.(shift := false); return;
        case 0xB6 => modifiers := modifiers.(shift := false); return;
        case 0x1D => modifiers := modifiers.(ctrl := true); return;
        case 0x9D => modifiers := modifiers.(ctrl := false); return;
        case 0x38 => modifiers := modifiers.(alt := true); return;
        case 0xB8 => modifiers := modifiers.(alt := false); return;
        case 0x3A => modifiers := modifiers.(caps := !modifiers.caps); return;
        case 0x45 => modifiers := modifiers.(num := !modifiers.num); return;
        case 0x46 => modifiers := modifiers.(scroll := !modifiers.scroll); return;
        case _ =>
      }
      if scancode >= 0x80 {
        return;
      }
      if scancode < TABLE_SIZE {
        var baseChar := if modifiers.shift then tables.shifted[scancode] else tables.plain[scancode];
        if modifiers.caps && 'a' <= baseChar <= 'z' {
          baseChar := (baseChar as int - 32) as char;
        } else if modifiers.caps && 'A' <= baseChar <= 'Z' {
          baseChar := (baseChar as int + 32) as char;
        }
        if baseChar != NUL {
          var nextWrite := (kbWritePtr + 1) % KB_BUFFER_SIZE;
          if nextWrite != kbReadPtr {
            kbBuffer[kbWritePtr] := baseChar;
            kbWritePtr := nextWrite;
          }
        }
      }
    }

    method GetChar() returns (c: char)
      requires Valid()
      modifies `kbReadPtr
      ensures Valid()
      ensures old(Pending(View())) == [] ==> c == NUL && View() == old(View())
      ensures old(Pending(View())) != [] ==> View() == Pop(old(View())) && [c] + Pending(View()) == old(Pending(View()))
    {
      if kbReadPtr == kbWritePtr {
        return NUL;
      }
      PopIsDequeue(View());
      c := kbBuffer[kbReadPtr];
      kbReadPtr := (kbReadPtr + 1) % KB_BUFFER_SIZE;
    }
  }

  // ----- The reader, one memory access at a time, against the handler

  /** Where the reader stands, with what it holds in registers. */
  datatype Pc =
    | Idle
    | LoadedRead(r: nat)          // about to load `kb_write_ptr` and compare
    | NotEmpty                    // about to load `kb_read_ptr`
    | LoadedIndex(i: nat)         // about to load the character
    | LoadedChar(c: char)         // about to load `kb_read_ptr` again
    | LoadedNext(c: char, i: nat) // about to store `kb_read_ptr` and return

  /** The shared memory, the reader's registers and the history of the run. */
  datatype System = System(
    modifiers: Modifiers, ring: Ring, pc: Pc,
    scancodes: seq<Byte>,    // every scancode handled
    taken: seq<bool>,        // for each character offered, whether there was room
    accepted: seq<char>,     // the characters stored
    returned: seq<char>,     // the characters handed to callers
    emptyAnswers: nat)       // the calls that returned NUL

  datatype Event = Interrupt(scancode: Byte) | Access

  function Start(m: Modifiers, buf: seq<char>): System {
    System(m, Ring(buf, 0, 0), Idle, [], [], [], [], 0)
  }

  function Handle(t: Tables, s: System, scancode: Byte): System
    requires s.ring.write < |s.ring.buf|
  {
    var c := Typed(t, s.modifiers, scancode);
    var u := s.(modifiers := Modify(s.modifiers, scancode), scancodes := s.scancodes + [scancode]);
    if c == NUL then u
    else u.(ring := Push(s.ring, c),
            taken := s.taken + [!Full(s.ring)],
            accepted := if Full(s.ring) then s.accepted else s.accepted + [c])
  }

  function Load(s: System): System
    requires s.pc.LoadedIndex? ==> s.pc.i < |s.ring.buf|
  {
    match s.pc
    case Idle => s.(pc := LoadedRead(s.ring.read))
    case LoadedRead(r) => if r == s.ring.write then s.(pc := Idle, emptyAnswers := s.emptyAnswers + 1) else s.(pc := NotEmpty)
    case NotEmpty => s.(pc := LoadedIndex(s.ring.read))
    case LoadedIndex(i) => s.(pc := LoadedChar(s.ring.buf[i]))
    case LoadedChar(c) => s.(pc := LoadedNext(c, s.ring.read))
    case LoadedNext(c, i) =>
      s.(pc := Idle, ring := s.ring.(read := (i + 1) % KB_BUFFER_SIZE), returned := s.returned + [c])
  }

  /** The offered characters that found room. */
  function Kept(offered: seq<char>, taken: seq<bool>): seq<char>
    requires |offered| == |taken|
  {
    if offered == [] then []
    else Kept(offered[..|offered| - 1], taken[..|offered| - 1]) + (if taken[|offered| - 1] then [offered[|offered| - 1]] else [])
  }

  /** What was stored is what the scancodes typed, less the arrivals that found no room. */
  ghost predicate HandlerInv(t: Tables, m: Modifiers, now: Modifiers, scancodes: seq<Byte>, taken: seq<bool>, accepted: seq<char>) {
    && now == ModifiersAfter(m, scancodes)
    && |taken| == |Offered(t, m, scancodes)|
    && accepted == Kept(Offered(t, m, scancodes), taken)
    && NUL !in accepted
  }

  /** What no interleaving can break. */
  ghost predicate Inv(t: Tables, m: Modifiers, s: System) {
    && HandlerInv(t, m, s.modifiers, s.scancodes, s.taken, s.accepted)
    && ReaderInv(s)
  }

  /** What was returned and what the ring holds is what was stored; the registers agree with the ring. */
  ghost predicate ReaderInv(s: System) {
    && ValidRing(s.ring)
    && s.accepted == s.returned + Pending(s.ring)
    && (!s.pc.Idle? && !s.pc.LoadedRead? ==> Pending(s.ring) != [])
    && (s.pc.LoadedRead? ==> s.pc.r == s.ring.read)
    && (s.pc.LoadedIndex? || s.pc.LoadedNext? ==> s.pc.i == s.ring.read)
    && (s.pc.LoadedChar? || s.pc.LoadedNext? ==> s.pc.c == Pending(s.ring)[0])
  }

  lemma HandleKeepsInv(t: Tables, m: Modifiers, s: System, scancode: Byte)
    requires Inv(t, m, s)
    ensures Inv(t, m, Handle(t, s, scancode))
    ensures Pending(s.ring) <= Pending(Handle(t, s, scancode).ring)
  {
    HandleKeepsHandlerInv(t, m, s, scancode);
    HandleKeepsReaderInv(t, s, scancode);
  }

  lemma HandleKeepsReaderInv(t: Tables, s: System, scancode: Byte)
    requires ReaderInv(s)
    ensures ReaderInv(Handle(t, s, scancode)) && Pending(s.ring) <= Pending(Handle(t, s, scancode).ring)
  {
    var c := Typed(t, s.modifiers, scancode);
    if c != NUL {
      PushIsEnqueue(s.ring, c);
      assert s.returned + (Pending(s.ring) + [c]) == s.accepted + [c];
    }
  }

  lemma HandleKeepsHandlerInv(t: Tables, m: Modifiers, s: System, scancode: Byte)
    requires Inv(t, m, s)
    ensures var u := Handle(t, s, scancode);
      HandlerInv(t, m, u.modifiers, u.scancodes, u.taken, u.accepted)
  {
    OfferedAppend(t, m, s.scancodes, scancode);
    var c := Typed(t, s.modifiers, scancode);
    var o := Offered(t, m, s.scancodes);
    if c == NUL {
      assert o + [] == o;
    } else {
      KeptAppend(o, s.taken, c, !Full(s.ring));
    }
  }

  lemma KeptAppend(offered: seq<char>, taken: seq<bool>, c: char, room: bool)
    requires |offered| == |taken|
    ensures Kept(offered + [c], taken + [room]) == Kept(offered, taken) + (if room then [c] else [])
  {
    assert (offered + [c])[..|offered|] == offered && (taken + [room])[..|taken|] == taken;
  }

  lemma LoadKeepsInv(t: Tables, m: Modifiers, s: System)
    requires Inv(t, m, s)
    ensures Inv(t, m, Load(s))
  {
    LoadKeepsReaderInv(s);
  }

  lemma LoadKeepsReaderInv(s: System)
    requires ReaderInv(s)
    ensures ReaderInv(Load(s))
  {
    match s.pc
    case LoadedIndex(_) => PopIsDequeue(s.ring);
    case LoadedNext(_, _) => FinishCall(s);
    case _ =>
  }

  /** The last access of a call hands over the oldest character and takes it out of the ring. */
  lemma FinishCall(s: System)
    requires ReaderInv(s) && s.pc.LoadedNext?
    ensures Load(s) == s.(pc := Idle, ring := Pop(s.ring), returned := s.returned + [s.pc.c])
    ensures ReaderInv(Load(s)) && Pending(s.ring) == [s.pc.c] + Pending(Pop(s.ring))
  {
    PopIsDequeue(s.ring);
    assert s.returned + ([s.pc.c] + Pending(Pop(s.ring))) == (s.returned + [s.pc.c]) + Pending(Pop(s.ring));
  }

  /** Pointers inside the buffer, in memory and in the registers. */
  predicate Sane(s: System) {
    && |s.ring.buf| == KB_BUFFER_SIZE && s.ring.write < KB_BUFFER_SIZE && s.ring.read < KB_BUFFER_SIZE
    && (s.pc.LoadedIndex? ==> s.pc.i < KB_BUFFER_SIZE)
  }

  function Step(t: Tables, s: System, e: Event): (u: System)
    requires Sane(s)
    ensures Sane(u)
  {
    match e
    case Interrupt(scancode) => Handle(t, s, scancode)
    case Access => Load(s)
  }

  function Run(t: Tables, s: System, es: seq<Event>): (u: System)
    requires Sane(s)
    ensures Sane(u)
    decreases es
  {
    if es == [] then s else Run(t, Step(t, s, es[0]), es[1..])
  }

  lemma {:induction false} RunKeepsInv(t: Tables, m: Modifiers, s: System, es: seq<Event>)
    requires Inv(t, m, s) && Sane(s)
    ensures Inv(t, m, Run(t, s, es))
    decreases es
  {
    if es != [] {
      if es[0].Interrupt? {
        HandleKeepsInv(t, m, s, es[0].scancode);
      } else {
        LoadKeepsInv(t, m, s);
      }
      RunKeepsInv(t, m, Step(t, s, es[0]), es[1..]);
    }
  }

  // ----- Whole runs from an empty ring

  function Scancodes(es: seq<Event>): seq<Byte> {
    if es == [] then []
    else (if es[0].Interrupt? then [es[0].scancode] else []) + Scancodes(es[1..])
  }

  lemma {:induction false} RunHandlesScancodes(t: Tables, s: System, es: seq<Event>)
    requires Sane(s)
    ensures Run(t, s, es).scancodes == s.scancodes + Scancodes(es)
    decreases es
  {
    if es != [] {
      StepHandlesScancode(t, s, es[0]);
      RunHandlesScancodes(t, Step(t, s, es[0]), es[1..]);
      var own := if es[0].Interrupt? then [es[0].scancode] else [];
      assert (s.scancodes + own) + Scancodes(es[1..]) == s.scancodes + (own + Scancodes(es[1..]));
    }
  }

  lemma StepHandlesScancode(t: Tables, s: System, e: Event)
    requires Sane(s)
    ensures Step(t, s, e).scancodes == s.scancodes + (if e.Interrupt? then [e.scancode] else [])
  {
  }

  lemma StartInv(t: Tables, m: Modifiers, buf: seq<char>)
    requires |buf| == KB_BUFFER_SIZE
    ensures Inv(t, m, Start(m, buf))
  {
    assert [] + Pending(Ring(buf, 0, 0)) == [];
  }

  /** The scancodes of a run are those of its interrupts, in order. */
  lemma {:induction false} ScancodesSnoc(es: seq<Event>, e: Event)
    ensures Scancodes([]) == []
    ensures Scancodes(es + [e]) == Scancodes(es) + (if e.Interrupt? then [e.scancode] else [])
  {
    if es == [] {
      assert [e][1..] == [] && es + [e] == [e];
    } else {
      var own, last := if es[0].Interrupt? then [es[0].scancode] else [], if e.Interrupt? then [e.scancode] else [];
      assert (es + [e])[0] == es[0] && (es + [e])[1..] == es[1..] + [e];
      ScancodesSnoc(es[1..], e);
      assert own + (Scancodes(es[1..]) + last) == (own + Scancodes(es[1..])) + last;
    }
  }

  /** The characters kept, one arrival at a time. */
  lemma KeptMeaning(offered: seq<char>, taken: seq<bool>, c: char, room: bool)
    requires |offered| == |taken|
    ensures Kept([], []) == []
    ensures Kept(offered + [c], taken + [room]) == if room then Kept(offered, taken) + [c] else Kept(offered, taken)
  {
    KeptAppend(offered, taken, c, room);
  }

  /** The protocol is a bounded queue under every interleaving: what callers received is a prefix of
      what was stored, the rest of it is in the ring, at most 255 characters wait, and what was stored
      is what the scancode machine typed, less the arrivals that found the ring full. */
  lemma InterruptSafeQueue(t: Tables, m: Modifiers, buf: seq<char>, es: seq<Event>)
    requires |buf| == KB_BUFFER_SIZE
    ensures var s := Run(t, Start(m, buf), es);
      && s.accepted == s.returned + Pending(s.ring)
      && s.returned <= s.accepted
      && |Pending(s.ring)| <= KB_BUFFER_SIZE - 1
      && |s.taken| == |Offered(t, m, Scancodes(es))|
      && s.accepted == Kept(Offered(t, m, Scancodes(es)), s.taken)
      && NUL !in s.returned
  {
    StartInv(t, m, buf);
    RunKeepsInv(t, m, Start(m, buf), es);
    RunHandlesScancodes(t, Start(m, buf), es);
    var s := Run(t, Start(m, buf), es);
    PushIsEnqueue(s.ring, NUL);
    assert [] + Scancodes(es) == Scancodes(es);
    assert forall c :: c in s.returned ==> c in s.accepted;
  }

  /** An arrival is dropped exactly when 255 characters wait. */
  lemma DroppedExactlyWhenFull(t: Tables, m: Modifiers, s: System, scancode: Byte)
    requires Inv(t, m, s) && Typed(t, s.modifiers, scancode) != NUL
    ensures var c, u := Typed(t, s.modifiers, scancode), Handle(t, s, scancode);
      && (|Pending(s.ring)| < KB_BUFFER_SIZE - 1 <==> u.accepted == s.accepted + [c])
      && (|Pending(s.ring)| == KB_BUFFER_SIZE - 1 <==> u.accepted == s.accepted)
      && u.taken == s.taken + [|Pending(s.ring)| < KB_BUFFER_SIZE - 1]
  {
    PushIsEnqueue(s.ring, Typed(t, s.modifiers, scancode));
  }

  lemma {:induction false} KeptAll(offered: seq<char>, taken: seq<bool>)
    requires |offered| == |taken| && false !in taken
    ensures Kept(offered, taken) == offered
  {
    if offered != [] {
      KeptAll(offered[..|offered| - 1], taken[..|offered| - 1]);
    }
  }

  lemma {:induction false} AllTaken(t: Tables, s: System, es: seq<Event>)
    requires Sane(s) && false !in s.taken
    requires forall k :: 0 <= k <= |es| ==> !Full(Run(t, s, es[..k]).ring)
    ensures false !in Run(t, s, es).taken
    decreases es
  {
    if es != [] {
      assert es[..0] == [] && !Full(Run(t, s, es[..0]).ring);
      var u := Step(t, s, es[0]);
      forall k | 0 <= k <= |es[1..]| ensures !Full(Run(t, u, es[1..][..k]).ring) {
        assert es[..k + 1][1..] == es[1..][..k] && es[..k + 1][0] == es[0];
      }
      AllTaken(t, u, es[1..]);
    }
  }

  /** A reader that never lets the ring fill up gets every character typed, in order. */
  lemma NothingLost(t: Tables, m: Modifiers, buf: seq<char>, es: seq<Event>)
    requires |buf| == KB_BUFFER_SIZE
    requires forall k :: 0 <= k <= |es| ==> !Full(Run(t, Start(m, buf), es[..k]).ring)
    ensures var s := Run(t, Start(m, buf), es);
      s.returned + Pending(s.ring) == Offered(t, m, Scancodes(es))
  {
    InterruptSafeQueue(t, m, buf, es);
    AllTaken(t, Start(m, buf), es);
    KeptAll(Offered(t, m, Scancodes(es)), Run(t, Start(m, buf), es).taken);
  }

  /** A call answers NUL exactly when nothing waits at the moment it loads the write pointer. */
  lemma EmptyAnswerIsTrue(s: System)
    requires ReaderInv(s) && s.pc.LoadedRead?
    ensures Load(s).emptyAnswers == s.emptyAnswers + 1 <==> Pending(s.ring) == []
    ensures Load(s).returned == s.returned
  {
  }

  function Accesses(es: seq<Event>): nat {
    if es == [] then 0 else (if es[0].Access? then 1 else 0) + Accesses(es[1..])
  }

  /** The memory accesses a call that finds a character has still to make. */
  function Remaining(pc: Pc): nat {
    match pc
    case Idle => 6
    case LoadedRead(_) => 5
    case NotEmpty => 4
    case LoadedIndex(_) => 3
    case LoadedChar(_) => 2
    case LoadedNext(_, _) => 1
  }

  /** However the handler interrupts it, a call made while characters wait returns the oldest of them. */
  lemma {:induction false} InterruptedGetChar(t: Tables, s: System, es: seq<Event>)
    requires ReaderInv(s) && Sane(s) && Pending(s.ring) != []
    requires Accesses(es) == Remaining(s.pc) && es[|es| - 1].Access?
    ensures var u := Run(t, s, es);
      && u.returned == s.returned + [Pending(s.ring)[0]]
      && u.pc == Idle && u.emptyAnswers == s.emptyAnswers
      && Pending(s.ring)[1..] <= Pending(u.ring)
    decreases es
  {
    var u := Step(t, s, es[0]);
    assert es[1..] != [] ==> es[1..][|es[1..]| - 1] == es[|es| - 1];
    assert Accesses(es[1..]) > 0 ==> es[1..] != [];
    if es[0].Interrupt? {
      InterruptKeepsCall(t, s, es[0].scancode);
      InterruptedGetChar(t, u, es[1..]);
    } else {
      AccessAdvances(s);
      LoadKeepsReaderInv(s);
      if s.pc.LoadedNext? {
        NoAccessLeft(es[1..]);
      } else {
        InterruptedGetChar(t, u, es[1..]);
      }
    }
  }

  /** The handler leaves the reader's registers, the oldest character and the answers alone. */
  lemma InterruptKeepsCall(t: Tables, s: System, scancode: Byte)
    requires ReaderInv(s) && Pending(s.ring) != []
    ensures var u := Handle(t, s, scancode);
      && ReaderInv(u) && u.pc == s.pc && u.returned == s.returned && u.emptyAnswers == s.emptyAnswers
      && Pending(s.ring) <= Pending(u.ring)
      && Pending(u.ring) != [] && Pending(u.ring)[0] == Pending(s.ring)[0] && Pending(s.ring)[1..] <= Pending(u.ring)[1..]
  {
    var u := Handle(t, s, scancode);
    HandleKeepsReaderInv(t, s, scancode);
    assert Pending(s.ring)[0] == Pending(u.ring)[0];
  }

  /** Each access brings the call one nearer to its end; the last returns the oldest character. */
  lemma AccessAdvances(s: System)
    requires ReaderInv(s) && Pending(s.ring) != []
    ensures var u := Load(s);
      && u.emptyAnswers == s.emptyAnswers
      && (if s.pc.LoadedNext? then
            u.pc == Idle && u.returned == s.returned + [Pending(s.ring)[0]] && Pending(u.ring) == Pending(s.ring)[1..]
          else
            Remaining(u.pc) == Remaining(s.pc) - 1 && u.returned == s.returned && u.ring == s.ring)
  {
    if s.pc.LoadedNext? {
      FinishCall(s);
    }
  }

  lemma {:induction false} NoAccessLeft(es: seq<Event>)
    requires Accesses(es) == 0 && (es != [] ==> es[|es| - 1].Access?)
    ensures es == []
  {
    if es != [] {
      NoAccessLeft(es[1..]);
    }
  }

  /** Left alone, the accesses of a call amount to `keyboard_getchar` run in one piece. */
  lemma UninterruptedCall(s: System)
    requires ValidRing(s.ring) && s.pc == Idle
    ensures s.ring.read == s.ring.write ==> Load(Load(s)) == s.(emptyAnswers := s.emptyAnswers + 1)
    ensures s.ring.read != s.ring.write ==>
      Load(Load(Load(Load(Load(Load(s)))))) == s.(ring := Pop(s.ring), returned := s.returned + [s.ring.buf[s.ring.read]])
  {
  }
}
