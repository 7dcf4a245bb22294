// The scancode set 2 tables of the keyboard driver
// (src/kernel/drivers/ps2/keyboard/keyboard.cpp) and the key numbers of
// src/kernel/drivers/ps2/keyboard/keyboard.hpp.

module ScancodeTables {
  const UNKNOWN := 255

  // A key's make code, and whether the prefix 0xE0 precedes it.
  datatype ScanCode = ScanCode(extended: bool, code: int)

  // SCANCODE_MAP_SINGLE_BYTE
  function SingleByteKey(b: int): int {
    match b
    case 0x01 => 9 // f9
    case 0x03 => 5 // f5
    case 0x04 => 3 // f3
    case 0x05 => 1 // f1
    case 0x06 => 2 // f2
    case 0x07 => 12 // f12
    case 0x09 => 10 // f10
    case 0x0a => 8 // f8
    case 0x0b => 6 // f6
    case 0x0c => 4 // f4
    case 0x0d => 64 // tab
    case 0x0e => 32 // backtick
    case 0x11 => 162 // left alt
    case 0x12 => 128 // left shift
    case 0x14 => 160 // left ctrl
    case 0x15 => 65 // q
    case 0x16 => 33 // 1
    case 0x1a => 130 // z
    case 0x1b => 98 // s
    case 0x1c => 97 // a
    case 0x1d => 66 // w
    case 0x1e => 34 // 2
    case 0x21 => 132 // c
    case 0x22 => 131 // x
    case 0x23 => 99 // d
    case 0x24 => 67 // e
    case 0x25 => 36 // 4
    case 0x26 => 35 // 3
    case 0x29 => 163 // space
    case 0x2a => 133 // v
    case 0x2b => 100 // f
    case 0x2c => 69 // t
    case 0x2d => 68 // r
    case 0x2e => 37 // 5
    case 0x31 => 135 // n
    case 0x32 => 134 // b
    case 0x33 => 102 // h
    case 0x34 => 101 // g
    case 0x35 => 70 // y
    case 0x36 => 38 // 6
    case 0x3a => 136 // m
    case 0x3b => 103 // j
    case 0x3c => 71 // u
    case 0x3d => 39 // 7
    case 0x3e => 40 // 8
    case 0x41 => 137 // comma
    case 0x42 => 104 // k
    case 0x43 => 72 // i
    case 0x44 => 73 // o
    case 0x45 => 42 // 0
    case 0x46 => 41 // 9
    case 0x49 => 138 // fullstop
    case 0x4a => 139 // slash
    case 0x4b => 105 // l
    case 0x4c => 106 // semicolon
    case 0x4d => 74 // p
    case 0x4e => 43 // minus
    case 0x52 => 107 // apostrophe
    case 0x54 => 75 // left bracket
    case 0x55 => 44 // equals
    case 0x58 => 96 // capslock
    case 0x59 => 140 // right shift
    case 0x5a => 77 // enter
    case 0x5b => 76 // right bracket
    case 0x5d => 129 // backslash
    case 0x66 => 45 // backspace
    case 0x69 => 142 // keypad 1
    case 0x6b => 109 // keypad 4
    case 0x6c => 81 // keypad 7
    case 0x70 => 171 // keypad 0
    case 0x71 => 172 // keypad fullstop
    case 0x72 => 143 // keypad 2
    case 0x73 => 110 // keypad 5
    case 0x74 => 111 // keypad 6
    case 0x75 => 82 // keypad 8
    case 0x76 => 0 // escape
    case 0x77 => 49 // number lock
    case 0x78 => 11 // f11
    case 0x79 => 84 // keypad plus
    case 0x7a => 144 // keypad 3
    case 0x7b => 52 // keypad minus
    case 0x7c => 51 // keypad multiply
    case 0x7d => 83 // keypad 9
    case 0x7e => 14 // scroll lock
    case 0x83 => 7 // f7
    case _ => UNKNOWN
  }

  // SCANCODE_MAP_E0
  function ExtendedKey(b: int): int {
    match b
    case 0x11 => 164 // right alt
    case 0x14 => 167 // right ctrl
    case 0x1f => 161 // left super
    case 0x27 => 165 // right super
    case 0x2f => 166 // menu
    case 0x4a => 50 // keypad slash
    case 0x5a => 145 // keypad enter
    case 0x69 => 79 // end
    case 0x6b => 168 // left arrow
    case 0x6c => 47 // home
    case 0x70 => 46 // insert
    case 0x71 => 78 // delete
    case 0x72 => 169 // down arrow
    case 0x74 => 170 // right arrow
    case 0x75 => 141 // up arrow
    case 0x7a => 80 // page down
    case 0x7d => 48 // page up
    case _ => UNKNOWN
  }

  function KeyOf(c: ScanCode): int {
    if c.extended then ExtendedKey(c.code) else SingleByteKey(c.code)
  }

  // The make code a keyboard sends for a key; code 0 if the driver knows none.
  function CodeOf(key: int): ScanCode {
    match key
    case 0 => ScanCode(false, 0x76)
    case 1 => ScanCode(false, 0x05)
    case 2 => ScanCode(false, 0x06)
    case 3 => ScanCode(false, 0x04)
    case 4 => ScanCode(false, 0x0c)
    case 5 => ScanCode(false, 0x03)
    case 6 => ScanCode(false, 0x0b)
    case 7 => ScanCode(false, 0x83)
    case 8 => ScanCode(false, 0x0a)
    case 9 => ScanCode(false, 0x01)
    case 10 => ScanCode(false, 0x09)
    case 11 => ScanCode(false, 0x78)
    case 12 => ScanCode(false, 0x07)
    case 14 => ScanCode(false, 0x7e)
    case 32 => ScanCode(false, 0x0e)
    case 33 => ScanCode(false, 0x16)
    case 34 => ScanCode(false, 0x1e)
    case 35 => ScanCode(false, 0x26)
    case 36 => ScanCode(false, 0x25)
    case 37 => ScanCode(false, 0x2e)
    case 38 => ScanCode(false, 0x36)
    case 39 => ScanCode(false, 0x3d)
    case 40 => ScanCode(false, 0x3e)
    case 41 => ScanCode(false, 0x46)
    case 42 => ScanCode(false, 0x45)
    case 43 => ScanCode(false, 0x4e)
    case 44 => ScanCode(false, 0x55)
    case 45 => ScanCode(false, 0x66)
    case 46 => ScanCode(true, 0x70)
    case 47 => ScanCode(true, 0x6c)
    case 48 => ScanCode(true, 0x7d)
    case 49 => ScanCode(false, 0x77)
    case 50 => ScanCode(true, 0x4a)
    case 51 => ScanCode(false, 0x7c)
    case 52 => ScanCode(false, 0x7b)
    case 64 => ScanCode(false, 0x0d)
    case 65 => ScanCode(false, 0x15)
    case 66 => ScanCode(false, 0x1d)
    case 67 => ScanCode(false, 0x24)
    case 68 => ScanCode(false, 0x2d)
    case 69 => ScanCode(false, 0x2c)
    case 70 => ScanCode(false, 0x35)
    case 71 => ScanCode(false, 0x3c)
    case 72 => ScanCode(false, 0x43)
    case 73 => ScanCode(false, 0x44)
    case 74 => ScanCode(false, 0x4d)
    case 75 => ScanCode(false, 0x54)
    case 76 => ScanCode(false, 0x5b)
    case 77 => ScanCode(false, 0x5a)
    case 78 => ScanCode(true, 0x71)
    case 79 => ScanCode(true, 0x69)
    case 80 => ScanCode(true, 0x7a)
    case 81 => ScanCode(false, 0x6c)
    case 82 => ScanCode(false, 0x75)
    case 83 => ScanCode(false, 0x7d)
    case 84 => ScanCode(false, 0x79)
    case 96 => ScanCode(false, 0x58)
    case 97 => ScanCode(false, 0x1c)
    case 98 => ScanCode(false, 0x1b)
    case 99 => ScanCode(false, 0x23)
    case 100 => ScanCode(false, 0x2b)
    case 101 => ScanCode(false, 0x34)
    case 102 => ScanCode(false, 0x33)
    case 103 => ScanCode(false, 0x3b)
    case 104 => ScanCode(false, 0x42)
    case 105 => ScanCode(false, 0x4b)
    case 106 => ScanCode(false, 0x4c)
    case 107 => ScanCode(false, 0x52)
    case 109 => ScanCode(false, 0x6b)
    case 110 => ScanCode(false, 0x73)
    case 111 => ScanCode(false, 0x74)
    case 128 => ScanCode(false, 0x12)
    case 129 => ScanCode(false, 0x5d)
    case 130 => ScanCode(false, 0x1a)
    case 131 => ScanCode(false, 0x22)
    case 132 => ScanCode(false, 0x21)
    case 133 => ScanCode(false, 0x2a)
    case 134 => ScanCode(false, 0x32)
    case 135 => ScanCode(false, 0x31)
    case 136 => ScanCode(false, 0x3a)
    case 137 => ScanCode(false, 0x41)
    case 138 => ScanCode(false, 0x49)
    case 139 => ScanCode(false, 0x4a)
    case 140 => ScanCode(false, 0x59)
    case 141 => ScanCode(true, 0x75)
    case 142 => ScanCode(false, 0x69)
    case 143 => ScanCode(false, 0x72)
    case 144 => ScanCode(false, 0x7a)
    case 145 => ScanCode(true, 0x5a)
    case 160 => ScanCode(false, 0x14)
    case 161 => ScanCode(true, 0x1f)
    case 162 => ScanCode(false, 0x11)
    case 163 => ScanCode(false, 0x29)
    case 164 => ScanCode(true, 0x11)
    case 165 => ScanCode(true, 0x27)
    case 166 => ScanCode(true, 0x2f)
    case 167 => ScanCode(true, 0x14)
    case 168 => ScanCode(true, 0x6b)
    case 169 => ScanCode(true, 0x72)
    case 170 => ScanCode(true, 0x74)
    case 171 => ScanCode(false, 0x70)
    case 172 => ScanCode(false, 0x71)
    case _ => ScanCode(false, 0)
  }

  predicate IsKnown(key: int) { CodeOf(key).code != 0 }

  ghost predicate Inverts(key: int) {
    var c := CodeOf(key);
    IsKnown(key) ==>
      && KeyOf(c) == key && 0 <= key < UNKNOWN && 0 < c.code < 0xE0
      && (c.extended ==> c.code != 0x12)
  }

  lemma InvertsPart0(key: int)
    requires key < 16
    ensures Inverts(key)
  {
  }

  lemma InvertsPart1(key: int)
    requires 16 <= key < 48
    ensures Inverts(key)
  {
  }

  lemma InvertsPart2(key: int)
    requires 48 <= key < 72
    ensures Inverts(key)
  {
  }

  lemma InvertsPart3(key: int)
    requires 72 <= key < 100
    ensures Inverts(key)
  {
  }

  lemma InvertsPart4(key: int)
    requires 100 <= key < 130
    ensures Inverts(key)
  {
  }

  lemma InvertsPart5(key: int)
    requires 130 <= key < 144
    ensures Inverts(key)
  {
  }

  lemma InvertsPart6(key: int)
    requires 144 <= key
    ensures Inverts(key)
  {
  }

  // The tables are inverse to the encoding: no two codes give the same key, and
  // no make code looks like a prefix byte.
  lemma TablesInvert(key: int)
    requires IsKnown(key)
    ensures var c := CodeOf(key);
            && KeyOf(c) == key && 0 <= key < UNKNOWN && 0 < c.code < 0xE0
            && (c.extended ==> c.code != 0x12)
  {
    hide CodeOf, KeyOf;
    if key < 16 { InvertsPart0(key); }
    else if key < 48 { InvertsPart1(key); }
    else if key < 72 { InvertsPart2(key); }
    else if key < 100 { InvertsPart3(key); }
    else if key < 130 { InvertsPart4(key); }
    else if key < 144 { InvertsPart5(key); }
    else { InvertsPart6(key); }
  }

  ghost predicate Maps(c: ScanCode) {
    KeyOf(c) != UNKNOWN ==> IsKnown(KeyOf(c)) && CodeOf(KeyOf(c)) == c
  }

  lemma MappedPart0(c: ScanCode)
    requires !c.extended && c.code < 0x1c
    ensures Maps(c)
  {
  }

  lemma MappedPart1(c: ScanCode)
    requires !c.extended && 0x1c <= c.code < 0x29
    ensures Maps(c)
  {
  }

  lemma MappedPart2(c: ScanCode)
    requires !c.extended && 0x29 <= c.code < 0x3c
    ensures Maps(c)
  {
  }

  lemma MappedPart3(c: ScanCode)
    requires !c.extended && 0x3c <= c.code < 0x4d
    ensures Maps(c)
  {
  }

  lemma MappedPart4(c: ScanCode)
    requires !c.extended && 0x4d <= c.code < 0x70
    ensures Maps(c)
  {
  }

  lemma MappedPart5(c: ScanCode)
    requires !c.extended && 0x70 <= c.code
    ensures Maps(c)
  {
  }

  lemma MappedExtended(c: ScanCode)
    requires c.extended
    ensures Maps(c)
  {
  }

  // Every code that a table maps is the code of the key it maps to.
  lemma MappedIsKnown(c: ScanCode)
    requires KeyOf(c) != UNKNOWN
    ensures IsKnown(KeyOf(c)) && CodeOf(KeyOf(c)) == c
  {
    hide CodeOf, KeyOf;
    if c.extended { MappedExtended(c); }
    else if c.code < 0x1c { MappedPart0(c); }
    else if c.code < 0x29 { MappedPart1(c); }
    else if c.code < 0x3c { MappedPart2(c); }
    else if c.code < 0x4d { MappedPart3(c); }
    else if c.code < 0x70 { MappedPart4(c); }
    else { MappedPart5(c); }
  }

  // The tables hold 8-bit key numbers.
  lemma KeyIsByte(c: ScanCode)
    ensures 0 <= KeyOf(c) <= UNKNOWN
  {
    hide CodeOf, KeyOf;
    if KeyOf(c) != UNKNOWN {
      MappedIsKnown(c);
      TablesInvert(KeyOf(c));
    }
  }
}
