// The static key tables: from characters to keycodes on the sending side,
// from keycodes to keysyms on the reply to GetKeyboardMapping.
module Keyboard {
  import opened Basics

  const VIRTUAL_BASE: nat := 120
  const MAX_VIRTUAL: nat := 136
  const BACKSPACE_KEYCODE: nat := 22
  const UNICODE_KEYSYM: nat := 0x0100_0000

  // Linux input codes of the unshifted ASCII characters and of the shifted
  // symbols; anything unknown is typed as a space.
  function CharBelow20(c: nat): nat {
    match c
    case 0x08 => 14 case 0x09 => 15 case 0x0A => 28 case 0x0D => 28 case 0x1B => 1
    case _ => 57
  }

  function CharFrom20(c: nat): nat {
    match c
    case 0x20 => 57 case 0x21 => 2 case 0x22 => 40 case 0x23 => 4 case 0x24 => 5 case 0x25 => 6
    case 0x26 => 8 case 0x27 => 40 case 0x28 => 10 case 0x29 => 11 case 0x2A => 9 case 0x2B => 13
    case 0x2C => 51 case 0x2D => 12 case 0x2E => 52 case 0x2F => 53
    case _ => 57
  }

  function CharFrom30(c: nat): nat {
    match c
    case 0x30 => 11 case 0x31 => 2 case 0x32 => 3 case 0x33 => 4 case 0x34 => 5 case 0x35 => 6
    case 0x36 => 7 case 0x37 => 8 case 0x38 => 9 case 0x39 => 10
    case _ => 57
  }

  function CharFrom3A(c: nat): nat {
    match c
    case 0x3A => 39 case 0x3B => 39 case 0x3C => 51 case 0x3D => 13 case 0x3E => 52 case 0x3F => 53
    case 0x40 => 3 case 0x5B => 26 case 0x5C => 43 case 0x5D => 27 case 0x5E => 7 case 0x5F => 12
    case 0x60 => 41
    case _ => 57
  }

  function CharFrom61(c: nat): nat {
    match c
    case 0x61 => 30 case 0x62 => 48 case 0x63 => 46 case 0x64 => 32 case 0x65 => 18 case 0x66 => 33
    case 0x67 => 34 case 0x68 => 35 case 0x69 => 23 case 0x6A => 36 case 0x6B => 37 case 0x6C => 38
    case 0x6D => 50
    case _ => 57
  }

  function CharFrom6E(c: nat): nat {
    match c
    case 0x6E => 49 case 0x6F => 24 case 0x70 => 25 case 0x71 => 16 case 0x72 => 19 case 0x73 => 31
    case 0x74 => 20 case 0x75 => 22 case 0x76 => 47 case 0x77 => 17 case 0x78 => 45 case 0x79 => 21
    case 0x7A => 44
    case _ => 57
  }

  function CharFrom7B(c: nat): nat {
    match c
    case 0x7B => 26 case 0x7C => 43 case 0x7D => 27 case 0x7E => 41 case 0x7F => 14
    case _ => 57
  }

  function AsciiToEvdev(c: nat): nat {
    if c < 0x20 then CharBelow20(c)
    else if c < 0x30 then CharFrom20(c)
    else if c < 0x3A then CharFrom30(c)
    else if c < 0x61 then CharFrom3A(c)
    else if c < 0x6E then CharFrom61(c)
    else if c < 0x7B then CharFrom6E(c)
    else CharFrom7B(c)
  }

  function AsciiToX11Keycode(c: nat): nat {
    if 0x41 <= c <= 0x5A then AsciiToEvdev(c + 0x20) + 8 else AsciiToEvdev(c) + 8
  }

  // A letter in upper case or one of !@#$%^&*()_+{}|:"<>?~
  predicate NeedsShift(c: nat) {
    || 0x41 <= c <= 0x5A
    || c in {0x21, 0x40, 0x23, 0x24, 0x25, 0x5E, 0x26, 0x2A, 0x28, 0x29}
    || c in {0x5F, 0x2B, 0x7B, 0x7D, 0x7C, 0x3A, 0x22, 0x3C, 0x3E, 0x3F, 0x7E}
  }

  function EvdevBelow0C(evdev: int): Option<nat> {
    match evdev
    case 1 => Some(53) case 2 => Some(18) case 3 => Some(19)
    case 4 => Some(20) case 5 => Some(21) case 6 => Some(23)
    case 7 => Some(22) case 8 => Some(26) case 9 => Some(28) case 10 => Some(25) case 11 => Some(29)
    case _ => None
  }

  function EvdevFrom0C(evdev: int): Option<nat> {
    match evdev
    case 12 => Some(27) case 13 => Some(24) case 14 => Some(51)
    case 15 => Some(48) case 16 => Some(12) case 17 => Some(13)
    case 18 => Some(14) case 19 => Some(15) case 20 => Some(17)
    case 21 => Some(16) case 22 => Some(32) case 23 => Some(34)
    case _ => None
  }

  function EvdevFrom18(evdev: int): Option<nat> {
    match evdev
    case 24 => Some(31) case 25 => Some(35) case 26 => Some(33)
    case 27 => Some(30) case 28 => Some(36) case 29 => Some(59)
    case 30 => Some(0) case 31 => Some(1) case 32 => Some(2)
    case 33 => Some(3) case 34 => Some(5) case 35 => Some(4)
    case _ => None
  }

  function EvdevFrom24(evdev: int): Option<nat> {
    match evdev
    case 36 => Some(38) case 37 => Some(40) case 38 => Some(37)
    case 39 => Some(41) case 40 => Some(39) case 41 => Some(50)
    case 42 => Some(56) case 43 => Some(42) case 44 => Some(6)
    case 45 => Some(7) case 46 => Some(8) case 47 => Some(9)
    case _ => None
  }

  function EvdevFrom30(evdev: int): Option<nat> {
    match evdev
    case 48 => Some(11) case 49 => Some(45) case 50 => Some(46)
    case 51 => Some(43) case 52 => Some(47) case 53 => Some(44)
    case 54 => Some(60) case 56 => Some(58) case 57 => Some(49) case 58 => Some(57)
    case _ => None
  }

  function EvdevFrom3B(evdev: int): Option<nat> {
    match evdev
    case 59 => Some(122) case 60 => Some(120) case 61 => Some(99)
    case 62 => Some(118) case 63 => Some(96) case 64 => Some(97)
    case 65 => Some(98) case 66 => Some(100) case 67 => Some(101)
    case 68 => Some(109) case 87 => Some(103) case 88 => Some(111)
    case 92 => Some(104) case 97 => Some(62) case 100 => Some(61)
    case 102 => Some(115) case 103 => Some(126) case 104 => Some(116)
    case 105 => Some(123) case 106 => Some(124) case 107 => Some(119)
    case 108 => Some(125) case 109 => Some(121) case 111 => Some(117)
    case 125 => Some(55) case 126 => Some(55)
    case _ => None
  }

  function EvdevToMac(evdev: int): Option<nat> {
    if evdev < 0x0C then EvdevBelow0C(evdev)
    else if evdev < 0x18 then EvdevFrom0C(evdev)
    else if evdev < 0x24 then EvdevFrom18(evdev)
    else if evdev < 0x30 then EvdevFrom24(evdev)
    else if evdev < 0x3B then EvdevFrom30(evdev)
    else EvdevFrom3B(evdev)
  }

  // The rows of the static keysym table that EvdevToMac can reach.
  function MacBelow0C(key: nat): (nat, nat) {
    match key
    case 0 => (0x0061, 0x0041) case 1 => (0x0073, 0x0053) case 2 => (0x0064, 0x0044)
    case 3 => (0x0066, 0x0046)
    case 4 => (0x0068, 0x0048) case 5 => (0x0067, 0x0047) case 6 => (0x007A, 0x005A)
    case 7 => (0x0078, 0x0058)
    case 8 => (0x0063, 0x0043) case 9 => (0x0076, 0x0056) case 11 => (0x0062, 0x0042)
    case _ => (0, 0)
  }

  function MacFrom0C(key: nat): (nat, nat) {
    match key
    case 12 => (0x0071, 0x0051) case 13 => (0x0077, 0x0057) case 14 => (0x0065, 0x0045)
    case 15 => (0x0072, 0x0052)
    case 16 => (0x0079, 0x0059) case 17 => (0x0074, 0x0054) case 18 => (0x0031, 0x0021)
    case 19 => (0x0032, 0x0040)
    case 20 => (0x0033, 0x0023) case 21 => (0x0034, 0x0024) case 22 => (0x0036, 0x005E)
    case 23 => (0x0035, 0x0025)
    case _ => (0, 0)
  }

  function MacFrom18(key: nat): (nat, nat) {
    match key
    case 24 => (0x003D, 0x002B) case 25 => (0x0039, 0x0028) case 26 => (0x0037, 0x0026)
    case 27 => (0x002D, 0x005F)
    case 28 => (0x0038, 0x002A) case 29 => (0x0030, 0x0029) case 30 => (0x005D, 0x007D)
    case 31 => (0x006F, 0x004F)
    case 32 => (0x0075, 0x0055) case 33 => (0x005B, 0x007B) case 34 => (0x0069, 0x0049)
    case 35 => (0x0070, 0x0050)
    case _ => (0, 0)
  }

  function MacFrom24(key: nat): (nat, nat) {
    match key
    case 36 => (0xFF0D, 0xFF0D) case 37 => (0x006C, 0x004C) case 38 => (0x006A, 0x004A)
    case 39 => (0x0027, 0x0022)
    case 40 => (0x006B, 0x004B) case 41 => (0x003B, 0x003A) case 42 => (0x005C, 0x007C)
    case 43 => (0x002C, 0x003C)
    case 44 => (0x002F, 0x003F) case 45 => (0x006E, 0x004E) case 46 => (0x006D, 0x004D)
    case 47 => (0x002E, 0x003E)
    case 48 => (0xFF09, 0xFF09)
    case _ => (0, 0)
  }

  function MacFrom31(key: nat): (nat, nat) {
    match key
    case 49 => (0x0020, 0x0020) case 50 => (0x0060, 0x007E) case 51 => (0xFF08, 0xFF08)
    case 53 => (0xFF1B, 0xFF1B)
    case 55 => (0xFFE7, 0xFFE7) case 56 => (0xFFE1, 0xFFE1) case 57 => (0xFFE5, 0xFFE5)
    case 58 => (0xFFE9, 0xFFE9)
    case 59 => (0xFFE3, 0xFFE3) case 60 => (0xFFE2, 0xFFE2) case 61 => (0xFFEA, 0xFFEA)
    case 62 => (0xFFE4, 0xFFE4)
    case _ => (0, 0)
  }

  function MacFrom40(key: nat): (nat, nat) {
    match key
    case 96 => (0xFFC2, 0xFFC2) case 97 => (0xFFC3, 0xFFC3) case 98 => (0xFFC4, 0xFFC4)
    case 99 => (0xFFC0, 0xFFC0)
    case 100 => (0xFFC5, 0xFFC5) case 101 => (0xFFC6, 0xFFC6) case 103 => (0xFFC8, 0xFFC8)
    case 104 => (0xFF27, 0xFF27)
    case 109 => (0xFFC7, 0xFFC7) case 111 => (0xFFC9, 0xFFC9) case 115 => (0xFF50, 0xFF50)
    case 116 => (0xFF55, 0xFF55)
    case 117 => (0xFFFF, 0xFFFF) case 118 => (0xFFC1, 0xFFC1) case 119 => (0xFF57, 0xFF57)
    case 120 => (0xFFBF, 0xFFBF)
    case 121 => (0xFF56, 0xFF56) case 122 => (0xFFBE, 0xFFBE) case 123 => (0xFF51, 0xFF51)
    case 124 => (0xFF53, 0xFF53)
    case 125 => (0xFF54, 0xFF54) case 126 => (0xFF52, 0xFF52)
    case _ => (0, 0)
  }

  function MacKeysyms(key: nat): (nat, nat) {
    if key < 0x0C then MacBelow0C(key)
    else if key < 0x18 then MacFrom0C(key)
    else if key < 0x24 then MacFrom18(key)
    else if key < 0x31 then MacFrom24(key)
    else if key < 0x40 then MacFrom31(key)
    else MacFrom40(key)
  }

  // One row of a GetKeyboardMapping reply: plain and shifted keysym.
  function Row(virtual: seq<nat>, keycode: nat): (nat, nat) {
    if VIRTUAL_BASE <= keycode then
      (if keycode - VIRTUAL_BASE < |virtual| then virtual[keycode - VIRTUAL_BASE] else 0, 0)
    else
      match EvdevToMac(keycode - 8)
      case None => (0, 0)
      case Some(key) => MacKeysyms(key)
  }

  // The keys with characters, by the rows of the keyboard from the left.
  lemma DigitKeys(virtual: seq<nat>, i: nat)
    requires i < 10
    ensures Row(virtual, 10 + i).0 == "1234567890"[i] as nat
    ensures AsciiToX11Keycode("1234567890"[i] as nat) == 10 + i
  {
  }

  lemma UpperKeys(virtual: seq<nat>, i: nat)
    requires i < 10
    ensures Row(virtual, 24 + i).0 == "qwertyuiop"[i] as nat
    ensures AsciiToX11Keycode("qwertyuiop"[i] as nat) == 24 + i
  {
  }

  lemma HomeKeys(virtual: seq<nat>, i: nat)
    requires i < 9
    ensures Row(virtual, 38 + i).0 == "asdfghjkl"[i] as nat
    ensures AsciiToX11Keycode("asdfghjkl"[i] as nat) == 38 + i
  {
  }

  lemma LowerKeys(virtual: seq<nat>, i: nat)
    requires i < 7
    ensures Row(virtual, 52 + i).0 == "zxcvbnm"[i] as nat
    ensures AsciiToX11Keycode("zxcvbnm"[i] as nat) == 52 + i
  {
  }

  // F1 to F10, then F11 and F12.
  lemma FunctionKeys(virtual: seq<nat>, i: nat)
    requires i < 12
    ensures Row(virtual, if i < 10 then 67 + i else 85 + i) == (0xFFBE + i, 0xFFBE + i)
  {
  }

  // Home, Up, Page Up, Left, Right, End, Down, Page Down and Delete.
  lemma CursorKeys(virtual: seq<nat>, i: nat)
    requires i < 8
    ensures Row(virtual, 110 + i).0 == [0xFF50, 0xFF52, 0xFF55, 0xFF51, 0xFF53, 0xFF57, 0xFF54, 0xFF56][i]
    ensures Row(virtual, 119).0 == 0xFFFF
  {
  }

  // Escape, Backspace, Tab, Return and the modifiers.
  lemma EditingKeys(virtual: seq<nat>)
    ensures Row(virtual, 9).0 == 0xFF1B && Row(virtual, 22).0 == 0xFF08
    ensures Row(virtual, 23).0 == 0xFF09 && Row(virtual, 36).0 == 0xFF0D
    ensures Row(virtual, 37).0 == 0xFFE3 && Row(virtual, 50).0 == 0xFFE1 && Row(virtual, 62).0 == 0xFFE2
    ensures Row(virtual, 64).0 == 0xFFE9 && Row(virtual, 66).0 == 0xFFE5
    ensures Row(virtual, 105).0 == 0xFFE4 && Row(virtual, 108).0 == 0xFFEA
  {
  }

  method GetKeyboardMapping(virtual: seq<nat>, first: nat, count: nat) returns (rows: seq<(nat, nat)>)
    ensures |rows| == count && forall i :: 0 <= i < count ==> rows[i] == Row(virtual, first + i)
    ensures forall i :: 0 <= i < count && 120 <= first + i ==>
      rows[i] == (if first + i < 120 + |virtual| then virtual[first + i - 120] else 0, 0)
  {
    hide EvdevToMac, MacKeysyms;
    rows := [];
    for i := 0 to count
      invariant |rows| == i && forall k :: 0 <= k < i ==> rows[k] == Row(virtual, first + k)
    {
      var keycode := first + i;
      if keycode >= VIRTUAL_BASE {
        var idx := keycode - VIRTUAL_BASE;
        rows := rows + [(if idx < |virtual| then virtual[idx] else 0, 0)];
      } else {
        var key := EvdevToMac(keycode - 8);
        rows := rows + [if key.None? then (0, 0) else MacKeysyms(key.value)];
      }
    }
  }

  predicate Printable(c: nat) { 0x20 <= c <= 0x7E }

  function KeysymOf(virtual: seq<nat>, keycode: nat, shift: bool): nat {
    if shift then Row(virtual, keycode).1 else Row(virtual, keycode).0
  }

  // The key a character is sent with, read back from the static table.
  predicate ReadsBack(c: nat) {
    KeysymOf([], AsciiToX11Keycode(c), NeedsShift(c)) == c
  }

  lemma Digits(c: nat)
    requires 0x30 <= c <= 0x39
    ensures ReadsBack(c)
  {
  }

  lemma LettersAToG(c: nat)
    requires 0x61 <= c <= 0x67
    ensures ReadsBack(c) && ReadsBack(c - 0x20)
  {
  }

  lemma LettersHToM(c: nat)
    requires 0x68 <= c <= 0x6D
    ensures ReadsBack(c) && ReadsBack(c - 0x20)
  {
  }

  lemma LettersNToT(c: nat)
    requires 0x6E <= c <= 0x74
    ensures ReadsBack(c) && ReadsBack(c - 0x20)
  {
  }

  lemma LettersUToZ(c: nat)
    requires 0x75 <= c <= 0x7A
    ensures ReadsBack(c) && ReadsBack(c - 0x20)
  {
  }

  lemma SymbolsFromSpace(c: nat)
    requires 0x20 <= c <= 0x2F
    ensures ReadsBack(c)
  {
  }

  lemma SymbolsFromColon(c: nat)
    requires 0x3A <= c <= 0x40
    ensures ReadsBack(c)
  {
  }

  lemma SymbolsFromBracket(c: nat)
    requires 0x5B <= c <= 0x60
    ensures ReadsBack(c)
  {
  }

  lemma SymbolsFromBrace(c: nat)
    requires 0x7B <= c <= 0x7E
    ensures ReadsBack(c)
  {
  }

  // The two tables are inverse on the printable characters: the key sent for
  // one carries it, shifted or not as sent.
  lemma {:induction false} PrintableReadsBack(c: nat)
    requires Printable(c)
    ensures ReadsBack(c)
  {
    hide ReadsBack;
    var lower := if 0x41 <= c <= 0x5A then c + 0x20 else c;
    if 0x30 <= lower <= 0x39 { Digits(lower); }
    else if 0x61 <= lower <= 0x67 { LettersAToG(lower); }
    else if 0x68 <= lower <= 0x6D { LettersHToM(lower); }
    else if 0x6E <= lower <= 0x74 { LettersNToT(lower); }
    else if 0x75 <= lower <= 0x7A { LettersUToZ(lower); }
    else if 0x20 <= lower <= 0x2F { SymbolsFromSpace(lower); }
    else if 0x3A <= lower <= 0x40 { SymbolsFromColon(lower); }
    else if 0x5B <= lower <= 0x60 { SymbolsFromBracket(lower); }
    else if 0x7B <= lower <= 0x7E { SymbolsFromBrace(lower); }
  }

  // The characters below 0x80 that are not printable come out as an editing
  // or control key, or as the fallback space.
  lemma Controls(c: nat)
    requires c < 0x80 && !Printable(c)
    ensures KeysymOf([], AsciiToX11Keycode(c), NeedsShift(c)) ==
      if c in {0x08, 0x7F} then 0xFF08 else if c == 0x09 then 0xFF09 else if c in {0x0A, 0x0D} then 0xFF0D
      else if c == 0x1B then 0xFF1B else 0x20
  {
  }

  lemma AsciiKeycodes(c: nat)
    ensures 8 < AsciiToX11Keycode(c) <= 65
  {
  }
}
