/**
 * The Minka Aire packet: the protocol constants, the
 * 40-bit string PREAMBLE ∥ SW8 ∥ SW9 ∥ CMD ∥ '0', its packing into bytes
 * (eight bits per byte, most significant first) and the 10-byte frame that
 * puts five zero spacer bytes in front of the payload.
 */
module Packet {
  import opened Wrappers
  import opened Symbols

  newtype byte = x: int | 0 <= x < 256

  // Radio settings.
  const Freq: int := 304300000
  const Baud: int := 2400
  /** Spacer bytes plus packet bytes. */
  const PktLen: int := 10
  /** How many times one command frame is sent. */
  const Repeats: nat := 8

  // Symbol strings: one leading symbol, two jumper settings, one command.
  const Preamble: string := "010"
  const Sw8: string := "010010010010"
  const Sw9: string := "010010110110"
  const Off: string := "110010110010"
  const Slow: string := "010010110010"
  const Med: string := "010110010010"
  const Fast: string := "110010010010"
  const Light1: string := "010110010110"
  const Light2: string := "110010010110"

  /** Five zero bytes sent ahead of every payload. */
  const Spacer: seq<byte> := [0, 0, 0, 0, 0]

  function Pow2(n: nat): (p: nat)
    ensures p >= 1
  {
    if n == 0 then 1 else 2 * Pow2(n - 1)
  }

  function Min(a: int, b: int): int {
    if a < b then a else b
  }

  /** The value of one binary digit. */
  function Digit(c: char): nat {
    if c == '1' then 1 else 0
  }

  /** The unsigned big-endian value of a binary string, as int(s, 2) reads it. */
  function Value(s: string): (v: nat)
    ensures v < Pow2(|s|)
  {
    if s == [] then 0
    else
      var init := s[..|s| - 1];
      assert Pow2(|s|) == 2 * Pow2(|init|);
      2 * Value(init) + Digit(s[|s| - 1])
  }

  /** The last digit decides whether the value is even. */
  lemma ValueParity(s: string)
    requires s != []
    ensures Value(s) % 2 == Digit(s[|s| - 1])
  {
    var init := s[..|s| - 1];
    assert Value(s) == 2 * Value(init) + Digit(s[|s| - 1]);
  }

  /** The value of eight digits, most significant first. */
  lemma ByteValue(s: string)
    requires |s| == 8
    ensures Value(s) == 128 * Digit(s[0]) + 64 * Digit(s[1]) + 32 * Digit(s[2]) + 16 * Digit(s[3])
                      + 8 * Digit(s[4]) + 4 * Digit(s[5]) + 2 * Digit(s[6]) + Digit(s[7])
  {
    assert Value(s[..1]) == Digit(s[0]) by { assert s[..1][..0] == []; }
    assert Value(s[..2]) == 2 * Value(s[..1]) + Digit(s[1]) by { assert s[..2][..1] == s[..1]; }
    assert Value(s[..3]) == 2 * Value(s[..2]) + Digit(s[2]) by { assert s[..3][..2] == s[..2]; }
    assert Value(s[..4]) == 2 * Value(s[..3]) + Digit(s[3]) by { assert s[..4][..3] == s[..3]; }
    assert Value(s[..5]) == 2 * Value(s[..4]) + Digit(s[4]) by { assert s[..5][..4] == s[..4]; }
    assert Value(s[..6]) == 2 * Value(s[..5]) + Digit(s[5]) by { assert s[..6][..5] == s[..5]; }
    assert Value(s[..7]) == 2 * Value(s[..6]) + Digit(s[6]) by { assert s[..7][..6] == s[..6]; }
  }

  /** The width-digit big-endian binary string of v (v taken modulo 2^width). */
  function ToBinary(v: nat, width: nat): (s: string)
    ensures |s| == width && IsBinary(s)
  {
    if width == 0 then ""
    else ToBinary(v / 2, width - 1) + (if v % 2 == 1 then "1" else "0")
  }

  lemma {:induction false} ValueOfToBinary(v: nat, width: nat)
    requires v < Pow2(width)
    ensures Value(ToBinary(v, width)) == v
  {
    if width != 0 {
      var s := ToBinary(v, width);
      var init := ToBinary(v / 2, width - 1);
      assert s[..width - 1] == init;
      assert v / 2 < Pow2(width - 1);
      ValueOfToBinary(v / 2, width - 1);
      assert Digit(s[width - 1]) == v % 2;
      assert Value(s) == 2 * Value(init) + Digit(s[width - 1]);
    }
  }

  lemma {:induction false} ToBinaryOfValue(s: string)
    requires IsBinary(s)
    ensures ToBinary(Value(s), |s|) == s
  {
    if s != [] {
      var init := s[..|s| - 1];
      ToBinaryOfValue(init);
      assert Value(s) / 2 == Value(init);
      assert s == init + [s[|s| - 1]];
    }
  }

  lemma {:induction false} Pow2Monotone(m: nat, n: nat)
    requires m <= n
    ensures Pow2(m) <= Pow2(n)
  {
    if m < n {
      Pow2Monotone(m, n - 1);
    }
  }

  /**
   * Cuts a binary string into 8-bit chunks from the left and reads each as
   * one byte; a shorter last chunk is read as the number it spells.
   */
  function Pack(bits: string): (bytes: seq<byte>)
    requires IsBinary(bits)
    ensures |bytes| == (|bits| + 7) / 8
    ensures forall k :: 0 <= k < |bytes| ==>
      bytes[k] as int == Value(bits[8 * k..Min(8 * k + 8, |bits|)])
    decreases |bits|
  {
    if |bits| == 0 then []
    else
      var n := Min(8, |bits|);
      var chunk := bits[..n];
      Pow2Monotone(n, 8);
      var rest := Pack(bits[n..]);
      ChunksShift(bits, n);
      [Value(chunk) as byte] + rest
  }

  /** Chunk k of what follows the first n bits is chunk k + 1 of the whole. */
  lemma ChunksShift(bits: string, n: nat)
    requires n == Min(8, |bits|)
    ensures forall k :: 1 <= k && 8 * (k - 1) < |bits| - n ==>
      bits[n..][8 * (k - 1)..Min(8 * (k - 1) + 8, |bits| - n)] == bits[8 * k..Min(8 * k + 8, |bits|)]
  {
    forall k | 1 <= k && 8 * (k - 1) < |bits| - n
      ensures bits[n..][8 * (k - 1)..Min(8 * (k - 1) + 8, |bits| - n)] == bits[8 * k..Min(8 * k + 8, |bits|)]
    {
      assert n == 8;
      var lo, hi := 8 * k - 8, Min(8 * k, |bits| - 8);
      assert 8 + hi == Min(8 * k + 8, |bits|);
      assert bits[8..][lo..hi] == bits[8 + lo..8 + hi];
    }
  }

  /** Spells every byte as eight bits, most significant first. */
  function Unpack(bytes: seq<byte>): (bits: string)
    ensures |bits| == 8 * |bytes| && IsBinary(bits)
  {
    if bytes == [] then "" else ToBinary(bytes[0] as int, 8) + Unpack(bytes[1..])
  }

  /** Unpacking gives back a packed string whose length is a whole number of bytes. */
  lemma {:induction false} UnpackPack(bits: string)
    requires IsBinary(bits) && |bits| % 8 == 0
    ensures Unpack(Pack(bits)) == bits
  {
    if bits != [] {
      var bytes := Pack(bits);
      assert bytes[1..] == Pack(bits[8..]);
      UnpackPack(bits[8..]);
      ToBinaryOfValue(bits[..8]);
      assert bits == bits[..8] + bits[8..];
    }
  }

  /** Packing gives back the bytes that were unpacked. */
  lemma {:induction false} PackUnpack(bytes: seq<byte>)
    ensures Pack(Unpack(bytes)) == bytes
  {
    if bytes != [] {
      var bits := Unpack(bytes);
      Pow2Monotone(8, 8);
      ValueOfToBinary(bytes[0] as int, 8);
      assert bits[..8] == ToBinary(bytes[0] as int, 8);
      assert bits[8..] == Unpack(bytes[1..]);
      PackUnpack(bytes[1..]);
    }
  }

  /** The bit string sent for a command: preamble, both jumper settings, the command, one padding '0'. */
  function PacketBits(cmd: string): (bits: string)
    ensures |bits| == |cmd| + 28
    ensures bits[27..27 + |cmd|] == cmd && bits[|bits| - 1] == '0'
  {
    Preamble + Sw8 + Sw9 + cmd + "0"
  }

  /** The packet bytes of a command, without the spacer. */
  function Payload(cmd: string): (payload: seq<byte>)
    requires IsBinary(cmd)
    ensures |payload| == (|cmd| + 35) / 8
  {
    ConstantsAreBinary();
    Pack(PacketBits(cmd))
  }

  /** The frame handed to the radio: spacer, then payload. */
  function Frame(cmd: string): (frame: seq<byte>)
    requires IsBinary(cmd)
    ensures |frame| == 5 + (|cmd| + 35) / 8
    ensures forall i :: 0 <= i < 5 ==> frame[i] == 0
  {
    Spacer + Payload(cmd)
  }

  lemma {:induction false} BinaryConcat(a: string, b: string)
    requires IsBinary(a) && IsBinary(b)
    ensures IsBinary(a + b)
  {
    forall i | 0 <= i < |a + b| ensures (a + b)[i] == '0' || (a + b)[i] == '1' {
      if i >= |a| {
        assert (a + b)[i] == b[i - |a|];
      }
    }
  }

  lemma ConstantsAreBinary()
    ensures forall cmd :: IsBinary(cmd) ==> IsBinary(PacketBits(cmd))
  {
    ProtocolConstants();
    EncodeIsSymbolString([false]);
    EncodeIsSymbolString([false, false, false, false]);
    EncodeIsSymbolString([false, false, true, true]);
    assert IsBinary("0");
    BinaryConcat(Preamble, Sw8);
    BinaryConcat(Preamble + Sw8, Sw9);
    forall cmd | IsBinary(cmd) ensures IsBinary(PacketBits(cmd)) {
      BinaryConcat(Preamble + Sw8 + Sw9, cmd);
      BinaryConcat(Preamble + Sw8 + Sw9 + cmd, "0");
    }
  }

  /** The preamble is the single bit 0; each jumper setting is four bits. */
  lemma JumperConstants()
    ensures Preamble == Encode([false])
    ensures Sw8 == Encode([false, false, false, false])
    ensures Sw9 == Encode([false, false, true, true])
  {
    assert [false][1..] == [];
    Encode4([false, false, false, false]);
    Encode4([false, false, true, true]);
  }

  /** Each speed command is four bits. */
  lemma SpeedConstants()
    ensures Off == Encode([true, false, true, false])
    ensures Slow == Encode([false, false, true, false])
    ensures Med == Encode([false, true, false, false])
    ensures Fast == Encode([true, false, false, false])
  {
    Encode4([true, false, true, false]);
    Encode4([false, false, true, false]);
    Encode4([false, true, false, false]);
    Encode4([true, false, false, false]);
  }

  /** Each light command is four bits. */
  lemma LightConstants()
    ensures Light1 == Encode([false, true, false, true])
    ensures Light2 == Encode([true, false, false, true])
  {
    Encode4([false, true, false, true]);
    Encode4([true, false, false, true]);
  }

  /**
   * Every constant is a string of symbols: the preamble is the single bit 0,
   * each jumper setting and each command four bits.
   */
  lemma ProtocolConstants()
    ensures Preamble == Encode([false])
    ensures Sw8 == Encode([false, false, false, false])
    ensures Sw9 == Encode([false, false, true, true])
    ensures Off == Encode([true, false, true, false])
    ensures Slow == Encode([false, false, true, false])
    ensures Med == Encode([false, true, false, false])
    ensures Fast == Encode([true, false, false, false])
    ensures Light1 == Encode([false, true, false, true])
    ensures Light2 == Encode([true, false, false, true])
  {
    JumperConstants();
    SpeedConstants();
    LightConstants();
  }

  /**
   * For a four-symbol command the bit string is 40 bits long: thirteen
   * symbols that read back as the preamble bit, SW8, SW9 and the command,
   * then one padding '0'.
   */
  lemma PacketBitsShape(cmd: string)
    requires IsSymbolString(cmd) && |cmd| == 12
    ensures |PacketBits(cmd)| == 40 && IsBinary(PacketBits(cmd))
    ensures Decode(cmd).Some? && Decode(PacketBits(cmd)[..39]) ==
      Some([false] + [false, false, false, false] + [false, false, true, true] + Decode(cmd).value)
    ensures PacketBits(cmd)[39] == '0'
  {
    SymbolStringIsBinary(cmd);
    ConstantsAreBinary();
    DecodeDefined(cmd);
    var c := Decode(cmd).value;
    EncodeDecode(cmd);
    ProtocolConstants();
    var logical := [false] + [false, false, false, false] + [false, false, true, true] + c;
    EncodeAppend([false], [false, false, false, false]);
    EncodeAppend([false] + [false, false, false, false], [false, false, true, true]);
    EncodeAppend([false] + [false, false, false, false] + [false, false, true, true], c);
    assert PacketBits(cmd)[..39] == Encode(logical);
    DecodeEncode(logical);
  }

  /**
   * For a four-symbol command the payload is five bytes, byte k being the
   * big-endian value of bits 8k to 8k+8; there is no short chunk, unpacking
   * gives the bit string back, and the padding leaves the last byte even.
   */
  lemma PayloadShape(cmd: string)
    requires IsSymbolString(cmd) && |cmd| == 12
    ensures IsBinary(cmd) && |Payload(cmd)| == 5
    ensures forall k :: 0 <= k < 5 ==> Payload(cmd)[k] as int == Value(PacketBits(cmd)[8 * k..8 * k + 8])
    ensures Unpack(Payload(cmd)) == PacketBits(cmd)
    ensures Payload(cmd)[4] % 2 == 0
  {
    PacketBitsShape(cmd);
    SymbolStringIsBinary(cmd);
    var bits := PacketBits(cmd);
    UnpackPack(bits);
    assert Payload(cmd)[4] as int == Value(bits[32..40]);
    assert bits[32..40][7] == bits[39];
    ValueParity(bits[32..40]);
  }

  /** The frame is PktLen bytes: the five zero spacer bytes, then the payload. */
  lemma FrameShape(cmd: string)
    requires IsSymbolString(cmd) && |cmd| == 12
    ensures IsBinary(cmd) && |Frame(cmd)| == PktLen
    ensures forall i :: 0 <= i < 5 ==> Frame(cmd)[i] == 0
    ensures Frame(cmd)[5..] == Payload(cmd)
  {
    PayloadShape(cmd);
  }

  /** The preamble and the two jumper settings spell 27 fixed bits. */
  lemma HeadLiteral()
    ensures Preamble + Sw8 + Sw9 == "010010010010010010010110110"
  {
  }

  /** Whatever the command, the bit string opens with the same 24 bits. */
  lemma HeaderBits(cmd: string)
    ensures |PacketBits(cmd)| >= 24 && PacketBits(cmd)[..24] == "010010010010010010010110"
  {
    var head := Preamble + Sw8 + Sw9;
    HeadLiteral();
    assert PacketBits(cmd) == head + (cmd + "0");
  }

  /** The values of the three header bytes. */
  lemma HeaderByteValues()
    ensures Value("01001001") == 0x49 && Value("00100100") == 0x24 && Value("10010110") == 0x96
  {
    ByteValue("01001001");
    ByteValue("00100100");
    ByteValue("10010110");
  }

  /** The values of the two bytes that end the OFF payload. */
  lemma OffByteValues()
    ensures Value("11011001") == 0xD9 && Value("01100100") == 0x64
  {
    ByteValue("11011001");
    ByteValue("01100100");
  }

  /** The 8-bit groups of a string that opens with the 24 header bits. */
  lemma HeaderGroups(bits: string)
    requires |bits| >= 24 && bits[..24] == "010010010010010010010110"
    ensures bits[0..8] == "01001001" && bits[8..16] == "00100100" && bits[16..24] == "10010110"
  {
    var h := bits[..24];
    assert bits[0..8] == h[0..8] && bits[8..16] == h[8..16] && bits[16..24] == h[16..24];
  }

  /**
   * The first three payload bytes carry only the preamble and the jumper
   * settings, so they are 49 24 96 whatever the command.
   */
  lemma HeaderBytes(cmd: string)
    requires IsSymbolString(cmd) && |cmd| == 12
    ensures IsBinary(cmd) && Payload(cmd)[..3] == [0x49, 0x24, 0x96]
  {
    PayloadShape(cmd);
    var bits, p := PacketBits(cmd), Payload(cmd);
    HeaderBits(cmd);
    HeaderGroups(bits);
    HeaderByteValues();
    assert p[0] as int == Value(bits[0..8]) == 0x49;
    assert p[1] as int == Value(bits[8..16]) == 0x24;
    assert p[2] as int == Value(bits[16..24]) == 0x96;
  }

  /** The last 16 bits of the OFF bit string. */
  lemma OffTail()
    ensures |PacketBits(Off)| == 40
    ensures PacketBits(Off)[24..32] == "11011001" && PacketBits(Off)[32..40] == "01100100"
  {
    var head := Preamble + Sw8 + Sw9;
    var rest := Off + "0";
    var bits := PacketBits(Off);
    HeadLiteral();
    assert bits == head + rest;
    assert bits[24..] == head[24..] + rest;
    assert head[24..] == "110";
    var t := bits[24..];
    assert t == "1101100101100100";
    assert bits[24..32] == t[..8] && bits[32..40] == t[8..];
  }

  /** The two payload bytes of OFF that carry the command. */
  lemma OffCommandBytes()
    ensures IsBinary(Off) && |Payload(Off)| == 5 && Payload(Off)[3] == 0xD9 && Payload(Off)[4] == 0x64
  {
    SpeedConstants();
    EncodeSymbols([true, false, true, false]);
    PayloadShape(Off);
    OffTail();
    OffByteValues();
  }

  /** OFF with the default jumper settings goes out as 49 24 96 D9 64. */
  lemma OffPayload()
    ensures IsBinary(Off) && Payload(Off) == [0x49, 0x24, 0x96, 0xD9, 0x64]
  {
    OffCommandBytes();
    SpeedConstants();
    EncodeSymbols([true, false, true, false]);
    HeaderBytes(Off);
    var p := Payload(Off);
    var h := p[..3];
    assert p[0] == h[0] && p[1] == h[1] && p[2] == h[2];
  }
}
