/** The MIDI wire format of the renderable events: channel voice messages
    Note Off (8nH), Note On (9nH) and Control Change (BnH), each three bytes,
    as in the MIDI 1.0 Detailed Specification, and the channel mode message
    All Notes Off (controller 123, value 0). Status bytes are spelt with the
    `B8` binary-literal macro, which is modelled here too. */
module MidiWire {
  import opened Wrappers

  type byte = bv8

  // ---------------------------------------------------------------------
  // The B8 macro. `HEX__(d)` pastes the digits `d` into the hexadecimal
  // literal `0x<d>`, so `B8(10010000)` works on the number 0x1001_0000;
  // `B8__` sets bit i of its result when hexadecimal digit i (counting from
  // the least significant, masks 0xF, 0xF0, ...) is non-zero, for i < 8.
  // `B8__`'s expansion has no outer parentheses, so the `(unsigned char)`
  // cast in `B8` binds only to the first flag, which is 0 or 1 either way;
  // the sum stays an `int` and is narrowed to a byte only where the or-ed
  // status is stored into the buffer.

  function Pow2(n: nat): (p: nat)
    ensures p >= 1
  {
    if n == 0 then 1 else 2 * Pow2(n - 1)
  }

  /** `B8__` restricted to the lowest `n` hexadecimal digits of `x`: digit i
      contributes 2^i when it is non-zero. */
  function NibbleFlags(x: nat, n: nat): nat
  {
    if n == 0 then 0
    else (if x % 16 != 0 then 1 else 0) + 2 * NibbleFlags(x / 16, n - 1)
  }

  /** `n` flags make a number below 2^n. */
  lemma {:induction false} FlagsBound(x: nat, n: nat)
    ensures NibbleFlags(x, n) < Pow2(n)
  {
    if n > 0 { FlagsBound(x / 16, n - 1); }
  }

  /** `B8` of the pasted literal `x` (an `unsigned long` constant). Eight
      flags sum to at most 255, so storing the or-ed status in a byte keeps
      them. */
  function B8(x: nat): byte
    requires x < 0x1_0000_0000_0000_0000
  {
    FlagsBound(x, 8);
    assert Pow2(8) == 256;
    NibbleFlags(x, 8) as byte
  }

  /** The literal that writing the `n` lowest binary digits of `v` between
      the parentheses of `B8(...)` pastes together: each binary digit becomes
      a hexadecimal digit. */
  function Pasted(v: nat, n: nat): nat
  {
    if n == 0 then 0 else v % 2 + 16 * Pasted(v / 2, n - 1)
  }

  lemma {:induction false} FlagsOfPasted(v: nat, n: nat)
    requires v < Pow2(n)
    ensures NibbleFlags(Pasted(v, n), n) == v
  {
    if n > 0 {
      var rest := Pasted(v / 2, n - 1);
      var x := Pasted(v, n);
      assert x == v % 2 + 16 * rest;
      assert x % 16 == v % 2 && x / 16 == rest;
      FlagsOfPasted(v / 2, n - 1);
    }
  }

  lemma {:induction false} PastedBound(v: nat, n: nat)
    ensures Pasted(v, n) < Pow16(n)
  {
    if n > 0 { PastedBound(v / 2, n - 1); }
  }

  function Pow16(n: nat): (p: nat)
    ensures p >= 1
  {
    if n == 0 then 1 else 16 * Pow16(n - 1)
  }

  /** `B8` decodes every byte written out in eight binary digits. */
  lemma B8DecodesBinary(v: nat)
    requires v < 256
    ensures Pasted(v, 8) < 0x1_0000_0000_0000_0000
    ensures B8(Pasted(v, 8)) == v as byte
  {
    PastedBound(v, 8);
    assert Pow16(8) == 0x1_0000_0000;
    assert Pow2(8) == 256;
    FlagsOfPasted(v, 8);
  }

  /** The status nibbles of the three message kinds, which the source spells
      `B8(10010000)`, `B8(10000000)` and `B8(10110000)`; the lemmas below
      show the macro yields these values. */
  const NoteOnBits: byte := 0x90
  const NoteOffBits: byte := 0x80
  const ControlChangeBits: byte := 0xB0

  lemma NoteOnBitsValue()
    ensures B8(0x1001_0000) == NoteOnBits
  {
    assert NibbleFlags(0x1001, 4) == 0x9;
    assert NibbleFlags(0x1001_0000, 8) == 0x90;
  }

  lemma NoteOffBitsValue()
    ensures B8(0x1000_0000) == NoteOffBits
  {
    assert NibbleFlags(0x1000, 4) == 0x8;
    assert NibbleFlags(0x1000_0000, 8) == 0x80;
  }

  lemma ControlChangeBitsValue()
    ensures B8(0x1011_0000) == ControlChangeBits
  {
    assert NibbleFlags(0x1011, 4) == 0xB;
    assert NibbleFlags(0x1011_0000, 8) == 0xB0;
  }

  /** The three spellings `B8(10010000)`, `B8(10000000)`, `B8(10110000)`. */
  lemma B8SpellsStatusBits()
    ensures B8(0x1001_0000) == NoteOnBits && B8(0x1000_0000) == NoteOffBits
    ensures B8(0x1011_0000) == ControlChangeBits
  {
    NoteOnBitsValue();
    NoteOffBitsValue();
    ControlChangeBitsValue();
  }

  /** The macro only tests digits for being non-zero: `B8(2)` is 1. */
  lemma B8OnlyTestsForNonZero()
    ensures B8(2) == 1
  {
    assert NibbleFlags(0, 7) == 0;
    assert NibbleFlags(2, 8) == 1;
  }

  // ---------------------------------------------------------------------
  // The renderable events.

  datatype Message =
    | NoteOn(channel: byte, note: byte, velocity: byte)
    | NoteOff(channel: byte, note: byte, velocity: byte)
    | ControlChange(channel: byte, controller: byte, value: byte)

  /** The All Notes Off event: a control change of controller 123 to 0. */
  function AllNotesOff(channel: byte): (m: Message)
    ensures m.ControlChange? && m.channel == channel
    ensures m.controller == 123 && m.value == 0
  {
    ControlChange(channel, 123, 0)
  }

  /** The status byte: the kind's bit pattern or-ed with the channel. */
  function Status(m: Message): (s: byte)
    ensures s & 0x80 == 0x80
  {
    match m
    case NoteOn(c, _, _) => NoteOnBits | c
    case NoteOff(c, _, _) => NoteOffBits | c
    case ControlChange(c, _, _) => ControlChangeBits | c
  }

  /** The bytes `render` writes, in order. */
  function Bytes(m: Message): (bs: seq<byte>)
    ensures |bs| == 3 && bs[0] == Status(m)
  {
    match m
    case NoteOn(_, note, velocity) => [Status(m), note, velocity]
    case NoteOff(_, note, velocity) => [Status(m), note, velocity]
    case ControlChange(_, cc, value) => [Status(m), cc, value]
  }

  /** `size()`: every concrete event occupies exactly the bytes it renders. */
  function Size(m: Message): (n: nat)
    ensures n == |Bytes(m)| == 3
  {
    3
  }

  /** `render(buffer)`: writes `buffer[0..2]` and nothing else. */
  method Render(m: Message, buffer: array<byte>)
    requires buffer.Length >= Size(m)
    modifies buffer
    ensures buffer[..Size(m)] == Bytes(m)
    ensures buffer[Size(m)..] == old(buffer[Size(m)..])
  {
    match m
    case NoteOn(c, note, velocity) =>
      buffer[0] := NoteOnBits | c;
      buffer[1] := note;
      buffer[2] := velocity;
    case NoteOff(c, note, velocity) =>
      buffer[0] := NoteOffBits | c;
      buffer[1] := note;
      buffer[2] := velocity;
    case ControlChange(c, cc, value) =>
      buffer[0] := ControlChangeBits | c;
      buffer[1] := cc;
      buffer[2] := value;
  }

  lemma NoteOnBytes(channel: byte, note: byte, velocity: byte)
    ensures Bytes(NoteOn(channel, note, velocity)) == [0x90 | channel, note, velocity]
  {
  }

  lemma NoteOffBytes(channel: byte, note: byte, velocity: byte)
    ensures Bytes(NoteOff(channel, note, velocity)) == [0x80 | channel, note, velocity]
  {
  }

  lemma ControlChangeBytes(channel: byte, controller: byte, value: byte)
    ensures Bytes(ControlChange(channel, controller, value)) == [0xB0 | channel, controller, value]
  {
  }

  lemma AllNotesOffBytes(channel: byte)
    ensures Bytes(AllNotesOff(channel)) == [0xB0 | channel, 123, 0]
  {
  }

  /** The kind nibble: 8 for Note Off, 9 for Note On, B for Control Change. */
  function KindNibble(m: Message): byte
  {
    match m
    case NoteOff(_, _, _) => 0x8
    case NoteOn(_, _, _) => 0x9
    case ControlChange(_, _, _) => 0xB
  }

  /** On the sixteen MIDI channels the status byte says the kind in its high
      nibble and the channel in its low nibble. */
  lemma StatusNibbles(m: Message)
    requires m.channel < 16
    ensures Status(m) >> 4 == KindNibble(m)
    ensures Status(m) & 0xF == m.channel
  {
  }

  /** A channel number of 16 or more spills into the kind nibble: a Note Off
      on "channel" 16 goes out as a Note On on channel 0. */
  lemma WideChannelChangesKind()
    ensures Bytes(NoteOff(16, 60, 0)) == Bytes(NoteOn(0, 60, 0))
  {
  }

  /** Reads back a three-byte message. */
  function Decode(bytes: seq<byte>): Option<Message>
  {
    if |bytes| != 3 then None
    else
      var kind := bytes[0] >> 4;
      var channel := bytes[0] & 0xF;
      if kind == 0x8 then Some(NoteOff(channel, bytes[1], bytes[2]))
      else if kind == 0x9 then Some(NoteOn(channel, bytes[1], bytes[2]))
      else if kind == 0xB then Some(ControlChange(channel, bytes[1], bytes[2]))
      else None
  }

  /** Rendering loses nothing on the sixteen MIDI channels. */
  lemma DecodeBytes(m: Message)
    requires m.channel < 16
    ensures Decode(Bytes(m)) == Some(m)
  {
    StatusNibbles(m);
  }
}
