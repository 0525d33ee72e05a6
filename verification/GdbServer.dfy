/** The debug server: the commands it understands and the frames it answers with (gdbserver.c). */
module GdbServer {
  import opened Bytes
  import opened Options
  import opened Hex
  import opened AddressSpace
  import opened Framing
  import Cpu
  import Md5Spec
  import Md5
  import Emu = Emulator

  const COMMA: byte := 44
  const LETTER_G: byte := 103
  const LETTER_K: byte := 107
  const LETTER_M: byte := 109

  /** "vCont;s:1;c" */
  const STEP_COMMAND: seq<byte> := [118, 67, 111, 110, 116, 59, 115, 58, 49, 59, 99]

  /** "qmemhash:" */
  const HASH_COMMAND: seq<byte> := [113, 109, 101, 109, 104, 97, 115, 104, 58]

  // ----- what the server answers

  /** `addrspace_memptr`, with the bytes that the caller takes from the pointer on. */
  function MemBytes(m: Memory, address: word, length: nat): (b: Option<seq<byte>>)
    requires WellFormed(m)
    ensures b.Some? ==> |b.value| == length
  {
    if address + length > 0x1_0000_0000 then None
    else
      match Find(m, address, length)
      case None => None
      case Some(i) => Some(m[i].data[address - m[i].begin..][..length])
  }

  /** A memory reply: the text of the bytes, or a minus sign. */
  function BytesReply(b: Option<seq<byte>>): seq<byte> {
    match b
    case None => [MINUS]
    case Some(bytes) => Frame(HexStr(bytes))
  }

  function HashReply(b: Option<seq<byte>>): seq<byte> {
    match b
    case None => [MINUS]
    case Some(bytes) => Frame(HexStr(Md5Spec.Digest(bytes)))
  }

  /** The 42 words of a register dump: the registers, 25 zeros and psr. */
  function DumpedWords(regs: seq<word>, psr: word): (w: seq<word>)
    requires |regs| == 16
    ensures |w| == 42
    ensures forall i :: 0 <= i < 42 ==> w[i] == if i < 16 then Htonl(regs[i]) else if i < 41 then 0 else Htonl(psr)
  {
    seq(16, i requires 0 <= i < 16 => Htonl(regs[i])) + seq(25, _ => 0) + [Htonl(psr)]
  }

  function WordsText(words: seq<word>): (t: seq<byte>)
    ensures |t| == 8 * |words|
  {
    if words == [] then [] else WordsText(words[..|words| - 1]) + FixedHex(words[|words| - 1], 8)
  }

  datatype Outcome = Outcome(reply: seq<byte>, machine: Cpu.Machine, exit: bool)

  predicate StartsWith(s: seq<byte>, prefix: seq<byte>) {
    |s| >= |prefix| && s[..|prefix|] == prefix
  }

  /** The two numbers of a command: from `from` to the first comma behind it, and after that comma. */
  function Arguments(msg: seq<byte>, from: nat): Option<(word, word)>
    requires from <= |msg|
  {
    var tail := msg[from..];
    match IndexOf(tail, COMMA)
    case None => None
    case Some(comma) => Some((Wrap(Strtoll(tail[..comma])), Wrap(Strtoll(tail[comma + 1..]))))
  }

  /** `gdb_handle_command` */
  function CommandOutcome(arms: seq<Cpu.Arm>, s: Cpu.Machine, msg: seq<byte>): Outcome {
    if msg == [LETTER_G] then Outcome(Frame(WordsText(DumpedWords(s.regs, AsWord(s.psr)))), s, false)
    else if msg != [] && msg[0] == LETTER_M then
      match Arguments(msg, 1)
      case None => Outcome([MINUS], s, false)
      case Some((start, length)) => Outcome(BytesReply(MemBytes(s.mem, start, length)), s, false)
    else if msg == STEP_COMMAND then Outcome(Frame([]), Cpu.Step(arms, s), false)
    else if msg != [] && msg[0] == LETTER_K then Outcome([], s, true)
    else if StartsWith(msg, HASH_COMMAND) then
      match Arguments(msg, 9)
      case None => Outcome([MINUS], s, false)
      case Some((start, length)) => Outcome(HashReply(MemBytes(s.mem, start, length)), s, false)
    else Outcome([MINUS], s, false)
  }

  /** `interpret_rxdata` */
  function Interpret(arms: seq<Cpu.Arm>, s: Cpu.Machine, rx: seq<byte>): Outcome {
    var line := CString(rx);
    var hash := IndexOf(line, HASH);
    if StartsWith(line, [PLUS, DOLLAR]) && hash.Some? then
      assert hash.value >= 2 by { assert line[..2][0] == line[0] && line[..2][1] == line[1]; }
      CommandOutcome(arms, s, line[2..hash.value])
    else Outcome([MINUS], s, false)
  }

  /** A frame is understood as its payload, whatever stale bytes stand behind it. */
  lemma InterpretFrame(arms: seq<Cpu.Arm>, s: Cpu.Machine, command: seq<byte>, stale: seq<byte>)
    requires HASH !in command && 0 !in command
    ensures Interpret(arms, s, Frame(command) + stale) == CommandOutcome(arms, s, command)
  {
    hide CommandOutcome, Checksum, HexDigit;
    var rx := Frame(command) + stale;
    var line := CString(rx);
    var h := |command| + 2;
    forall k | 0 <= k <= h ensures rx[k] != 0 && (k < h ==> rx[k] != HASH) {
      assert rx[k] == if k == 0 then PLUS else if k == 1 then DOLLAR else if k < h then command[k - 2] else HASH;
    }
    assert rx[h] == HASH;
    assert |line| > h && line == rx[..|line|];
    IndexIs(line, HASH, h);
    assert line[..2] == [PLUS, DOLLAR];
    assert rx[2..h] == command;
    assert line[2..h] == rx[2..h];
  }

  // ----- texts without zeros

  lemma PlainIsPrinted(text: seq<byte>)
    requires AllPlain(text)
    ensures Printed(text) == Frame(text)
  {
    hide Frame, AllPlain, CString;
    PlainIsPlain(text);
    CStringKeepsIff(text);
  }

  lemma HexIsPlain(b: seq<byte>)
    ensures AllPlain(HexStr(b))
  {
    hide HexStr;
    HexStrIsDigits(b);
    var t := HexStr(b);
    forall i | 0 <= i < |t| ensures IsDigit(t[i]) { assert t[i] in t; }
    PlainDigits(t);
  }

  /** A buffer that holds hexadecimal text and its final zero is printed as that text. */
  lemma HexIsPrinted(buffer: seq<byte>, b: seq<byte>)
    requires |buffer| > 2 * |b| && buffer[..2 * |b|] == HexStr(b) && buffer[2 * |b|] == 0
    ensures Printed(buffer) == Frame(HexStr(b))
  {
    hide Frame, HexStr, AllPlain, CString;
    HexIsPlain(b);
    PlainIsPlain(HexStr(b));
    CStringIs(buffer, 2 * |b|);
  }

  lemma {:induction false} WordsTextIsPlain(words: seq<word>)
    ensures AllPlain(WordsText(words))
  {
    hide FixedHex, AllPlain;
    if words == [] {
      NothingIsPlain();
    } else {
      WordsTextIsPlain(words[..|words| - 1]);
      FixedNumber(words[|words| - 1], 8);
      PlainDigits(FixedHex(words[|words| - 1], 8));
      PlainParts(WordsText(words[..|words| - 1]), FixedHex(words[|words| - 1], 8));
    }
  }

  // ----- the object

  /** The stream the server prints to. */
  class Server {
    const emu: Emu.Emulator
    var out: seq<byte>

    ghost function Footprint(): set<object>
      reads this, emu, emu.Footprint()
    {
      {this} + emu.Footprint() + {emu}
    }

    ghost predicate Valid()
      reads this, emu, emu.Footprint()
    {
      emu.Valid() && this as object != emu && this as object !in emu.Footprint()
    }

    constructor (emu: Emu.Emulator)
      requires emu.Valid()
      ensures Valid() && this.emu == emu && out == [] && emu.State() == old(emu.State())
    {
      this.emu := emu;
      out := [];
    }

    method Print(text: seq<byte>)
      modifies this`out
      ensures out == old(out) + text
    {
      out := out + text;
    }

    /** `tx_frame`; strlen and %s stop at the first zero, %02x prints both digits of the 8-bit sum. */
    method TxFrame(data: seq<byte>)
      modifies this`out
      ensures out == old(out) + Printed(data)
    {
      hide HexDigit, Checksum, CString;
      var text := CString(data);
      var cksum := WrappingChecksum(text);
      Print([PLUS, DOLLAR] + text + [HASH, HexDigit(cksum / 16), HexDigit(cksum)]);
    }

    method DumpRegisterSet()
      requires Valid()
      modifies this`out
      ensures out == old(out) + Frame(WordsText(DumpedWords(old(emu.State()).regs, AsWord(old(emu.psr)))))
    {
      hide FixedHex, Htonl, Frame, Printed, WordsText, AsWord, AllPlain;
      ghost var words := DumpedWords(emu.State().regs, AsWord(emu.psr));
      var reply := [];
      NoWords(words[..0]);
      for i := 0 to 16
        invariant out == old(out) && reply == WordsText(words[..i])
      {
        WordsTextSnoc(words, i);
        reply := reply + FixedHex(Htonl(emu.regs[i]), 8);
      }
      for i := 0 to 25
        invariant out == old(out) && reply == WordsText(words[..16 + i])
      {
        WordsTextSnoc(words, 16 + i);
        EightZeros();
        reply := reply + [48, 48, 48, 48, 48, 48, 48, 48];
      }
      WordsTextSnoc(words, 41);
      reply := reply + FixedHex(Htonl(AsWord(emu.psr)), 8);
      assert words[..42] == words;
      WordsTextIsPlain(words);
      PlainIsPrinted(reply);
      TxFrame(reply);
    }

    method MemPtr(address: word, length: nat) returns (bytes: Option<seq<byte>>)
      requires Valid()
      ensures bytes == MemBytes(emu.State().mem, address, length)
    {
      var slice := emu.space.GetSlice(address, length);
      if slice.None? || address + length > 0x1_0000_0000 { return None; }
      var s := emu.space.slices[slice.value];
      var data := s.data[..];
      return Some(data[address - s.begin..][..length]);
    }

    method DumpMemory(start: word, length: word)
      requires Valid()
      modifies this`out
      ensures out == old(out) + BytesReply(MemBytes(old(emu.State()).mem, start, length))
    {
      hide HexStr, Frame, Printed, MemBytes;
      var reply := new byte[2 * length + 1];
      var memory := MemPtr(start, length);
      if memory.Some? {
        MemoryToHexstr(reply, memory.value);
        HexIsPrinted(reply[..], memory.value);
        TxFrame(reply[..]);
      } else {
        Print([MINUS]);
      }
    }

    method HashMemory(start: word, length: word)
      requires Valid()
      modifies this`out
      ensures out == old(out) + HashReply(MemBytes(old(emu.State()).mem, start, length))
    {
      hide HexStr, Frame, Printed, MemBytes, Md5Spec.Digest;
      var reply := new byte[33];
      var memory := MemPtr(start, length);
      if memory.Some? {
        var digest := Md5.HashBytes(memory.value);
        MemoryToHexstr(reply, digest);
        HexIsPrinted(reply[..], digest);
        TxFrame(reply[..]);
      } else {
        Print([MINUS]);
      }
    }

    method HandleCommand(arms: seq<Cpu.Arm>, msg: seq<byte>) returns (exit: bool)
      requires Valid()
      modifies Footprint()
      ensures Valid() && emu.space.slices == old(emu.space.slices)
      ensures var o := CommandOutcome(arms, old(emu.State()), msg);
        out == old(out) + o.reply && emu.State() == o.machine && exit == o.exit
    {
      hide Frame, Printed, MemBytes, BytesReply, HashReply, WordsText, DumpedWords, Strtoll, Cpu.Step;
      exit := false;
      if msg == [LETTER_G] {
        DumpRegisterSet();
      } else if |msg| > 0 && msg[0] == LETTER_M {
        var arguments := Arguments(msg, 1);
        if arguments.Some? {
          DumpMemory(arguments.value.0, arguments.value.1);
        } else {
          Print([MINUS]);
        }
      } else if msg == STEP_COMMAND {
        emu.SingleStep(arms);
        NothingIsPlain();
        PlainIsPrinted([]);
        TxFrame([]);
      } else if |msg| > 0 && msg[0] == LETTER_K {
        exit := true;
      } else if StartsWith(msg, HASH_COMMAND) {
        var arguments := Arguments(msg, 9);
        if arguments.Some? {
          HashMemory(arguments.value.0, arguments.value.1);
        } else {
          Print([MINUS]);
        }
      } else {
        Print([MINUS]);
      }
    }

    method InterpretRxData(arms: seq<Cpu.Arm>, rx: seq<byte>) returns (exit: bool)
      requires Valid()
      modifies Footprint()
      ensures Valid() && emu.space.slices == old(emu.space.slices)
      ensures var o := Interpret(arms, old(emu.State()), rx);
        out == old(out) + o.reply && emu.State() == o.machine && exit == o.exit
    {
      hide CommandOutcome;
      var line := CString(rx);
      var hash := IndexOf(line, HASH);
      if StartsWith(line, [PLUS, DOLLAR]) && hash.Some? {
        assert hash.value >= 2 by { assert line[..2][0] == line[0] && line[..2][1] == line[1]; }
        exit := HandleCommand(arms, line[2..hash.value]);
      } else {
        Print([MINUS]);
        exit := false;
      }
    }
  }

  lemma NoWords(words: seq<word>)
    requires words == []
    ensures WordsText(words) == []
  {
  }

  lemma WordsTextSnoc(words: seq<word>, i: nat)
    requires i < |words|
    ensures WordsText(words[..i + 1]) == WordsText(words[..i]) + FixedHex(words[i], 8)
  {
    assert words[..i + 1][..i] == words[..i];
  }

  lemma EightZeros()
    ensures FixedHex(0, 8) == [48, 48, 48, 48, 48, 48, 48, 48]
  {
    assert FixedHex(0, 1) == [48];
    assert FixedHex(0, 2) == [48, 48];
    assert FixedHex(0, 3) == [48, 48, 48];
    assert FixedHex(0, 4) == [48, 48, 48, 48];
    assert FixedHex(0, 5) == [48, 48, 48, 48, 48];
    assert FixedHex(0, 6) == [48, 48, 48, 48, 48, 48];
    assert FixedHex(0, 7) == [48, 48, 48, 48, 48, 48, 48];
  }
}
