/** The debugger's side of the protocol (DebuggingProtocol.py), talking to the server of module GdbServer. */
module DebugClient {
  import opened Bytes
  import opened Options
  import opened Hex
  import opened AddressSpace
  import opened Framing
  import opened GdbServer
  import Cpu
  import Md5Spec

  const MAX_MEMREQUEST_CHUNK := 2048

  // ----- requests

  function ArgumentText(start: nat, length: nat): seq<byte> {
    PrintHex(start) + [COMMA] + PrintHex(length)
  }

  function ReadRequest(start: nat, length: nat): seq<byte> {
    [LETTER_M] + ArgumentText(start, length)
  }

  function HashRequest(start: nat, length: nat): seq<byte> {
    HASH_COMMAND + ArgumentText(start, length)
  }

  lemma NoComma(s: seq<byte>)
    requires AllDigits(s)
    ensures COMMA !in s
  {
    forall i | 0 <= i < |s| ensures s[i] != COMMA { assert IsDigit(s[i]); }
  }

  lemma PlainArguments(start: nat, length: nat)
    ensures AllPlain(ArgumentText(start, length))
  {
    hide AllPlain, PrintHex;
    PrintedNumber(start);
    PrintedNumber(length);
    PlainDigits(PrintHex(start));
    PlainDigits(PrintHex(length));
    PlainComma();
    PlainParts(PrintHex(start), [COMMA]);
    PlainParts(PrintHex(start) + [COMMA], PrintHex(length));
  }

  lemma PlainComma()
    ensures AllPlain([COMMA]) && AllPlain([LETTER_M]) && AllPlain([LETTER_G])
    ensures AllPlain(HASH_COMMAND) && AllPlain(STEP_COMMAND)
  {
  }

  lemma ArgumentsRoundTrip(prefix: seq<byte>, start: word, length: word)
    ensures Arguments(prefix + ArgumentText(start, length), |prefix|) == Some((start, length))
  {
    hide PrintHex, Strtoll;
    var (tail, comma) := (ArgumentText(start, length), |PrintHex(start)|);
    assert (prefix + tail)[|prefix|..] == tail;
    PrintedNumber(start);
    NoComma(PrintHex(start));
    forall k | 0 <= k < comma ensures tail[k] != COMMA { assert tail[k] == PrintHex(start)[k]; }
    IndexIs(tail, COMMA, comma);
    assert tail[..comma] == PrintHex(start) && tail[comma + 1..] == PrintHex(length);
    StrtollOfPrinted(start);
    StrtollOfPrinted(length);
  }

  /** The server reads the numbers the client printed. */
  lemma ReadRequestUnderstood(arms: seq<Cpu.Arm>, s: Cpu.Machine, start: word, length: word)
    ensures AllPlain(ReadRequest(start, length))
    ensures CommandOutcome(arms, s, ReadRequest(start, length)) ==
      Outcome(BytesReply(MemBytes(s.mem, start, length)), s, false)
  {
    hide AllPlain, Arguments, ArgumentText, MemBytes, BytesReply, HashReply, WordsText, DumpedWords, Frame, Cpu.Step;
    PlainComma();
    PlainArguments(start, length);
    PlainParts([LETTER_M], ArgumentText(start, length));
    ArgumentsRoundTrip([LETTER_M], start, length);
  }

  lemma HashRequestUnderstood(arms: seq<Cpu.Arm>, s: Cpu.Machine, start: word, length: word)
    ensures AllPlain(HashRequest(start, length))
    ensures CommandOutcome(arms, s, HashRequest(start, length)) ==
      Outcome(HashReply(MemBytes(s.mem, start, length)), s, false)
  {
    hide AllPlain, Arguments, MemBytes, BytesReply, HashReply, WordsText, DumpedWords, Frame, Cpu.Step, PrintHex;
    var request := HashRequest(start, length);
    PlainComma();
    PlainArguments(start, length);
    PlainParts(HASH_COMMAND, ArgumentText(start, length));
    ArgumentsRoundTrip(HASH_COMMAND, start, length);
    assert request[0] == HASH_COMMAND[0] == 113;
    assert request[..9] == HASH_COMMAND;
  }

  lemma FixedRequestsUnderstood(arms: seq<Cpu.Arm>, s: Cpu.Machine)
    ensures CommandOutcome(arms, s, STEP_COMMAND) == Outcome(Frame([]), Cpu.Step(arms, s), false)
    ensures CommandOutcome(arms, s, [LETTER_G]) ==
      Outcome(Frame(WordsText(DumpedWords(s.regs, AsWord(s.psr)))), s, false)
  {
    hide Arguments, MemBytes, BytesReply, HashReply, WordsText, DumpedWords, Frame, Cpu.Step, AsWord;
  }

  // ----- memory read in chunks

  function ChunkLength(length: nat): nat {
    if length > MAX_MEMREQUEST_CHUNK then MAX_MEMREQUEST_CHUNK else length
  }

  /** The bytes of all chunks, unless one of them is refused. */
  function ReadChunks(m: Memory, start: nat, length: nat): Option<seq<byte>>
    requires WellFormed(m) && start + length <= 0x1_0000_0000
    decreases length
  {
    if length == 0 then Some([])
    else
      var n := ChunkLength(length);
      match MemBytes(m, start, n)
      case None => None
      case Some(b) =>
        match ReadChunks(m, start + n, length - n)
        case None => None
        case Some(rest) => Some(b + rest)
  }

  /** Chunk k of the range lies in one slice. */
  ghost predicate ChunkMapped(m: Memory, start: nat, length: nat, k: nat)
    requires start + length <= 0x1_0000_0000 && MAX_MEMREQUEST_CHUNK * k < length
  {
    var offset := MAX_MEMREQUEST_CHUNK * k;
    Target(m, start + offset, ChunkLength(length - offset)).Some?
  }

  lemma MemBytesIsFlat(m: Memory, start: word, length: nat)
    requires WellFormed(m) && Disjoint(m) && length > 0 && start + length <= 0x1_0000_0000
    ensures MemBytes(m, start, length).Some? <==> Target(m, start, length).Some?
    ensures MemBytes(m, start, length).Some? ==>
      forall i: nat :: i < length ==> ByteAt(m, start + i) == Some(MemBytes(m, start, length).value[i])
  {
    if Target(m, start, length).Some? {
      var r := Target(m, start, length).value;
      TargetInside(m, start, length);
      forall i: nat | i < length ensures ByteAt(m, start + i) == Some(MemBytes(m, start, length).value[i]) {
        TargetUnique(m, start + i, 1, r);
      }
    }
  }

  /** A range is read exactly when every chunk of it lies in one slice, and then it is what the flat
      memory holds there. */
  lemma {:induction false} ReadChunksIsFlat(m: Memory, start: nat, length: nat)
    requires WellFormed(m) && Disjoint(m) && start + length <= 0x1_0000_0000
    ensures ReadChunks(m, start, length).Some? <==>
      forall k: nat :: MAX_MEMREQUEST_CHUNK * k < length ==> ChunkMapped(m, start, length, k)
    ensures ReadChunks(m, start, length).Some? ==>
      var b := ReadChunks(m, start, length).value;
      |b| == length && forall i: nat :: i < length ==> ByteAt(m, start + i) == Some(b[i])
    decreases length
  {
    hide MemBytes, ByteAt, Target;
    if length > 0 {
      var n := ChunkLength(length);
      MemBytesIsFlat(m, start, n);
      ReadChunksIsFlat(m, start + n, length - n);
      ChunksOfTail(m, start, length);
      if ReadChunks(m, start, length).Some? {
        var (b, rest) := (MemBytes(m, start, n).value, ReadChunks(m, start + n, length - n).value);
        forall i: nat | i < length ensures ByteAt(m, start + i) == Some((b + rest)[i]) {
          if i >= n { assert ByteAt(m, start + n + (i - n)) == Some(rest[i - n]); }
        }
      }
    }
  }

  lemma ChunksOfTail(m: Memory, start: nat, length: nat)
    requires 0 < length && start + length <= 0x1_0000_0000
    ensures var n := ChunkLength(length);
      (forall k: nat :: MAX_MEMREQUEST_CHUNK * k < length ==> ChunkMapped(m, start, length, k)) <==>
      Target(m, start, n).Some? &&
      (forall k: nat :: MAX_MEMREQUEST_CHUNK * k < length - n ==> ChunkMapped(m, start + n, length - n, k))
  {
    hide Target;
    var n := ChunkLength(length);
    assert ChunkMapped(m, start, length, 0) <==> Target(m, start, n).Some?;
    if length > n {
      forall k: nat | MAX_MEMREQUEST_CHUNK * k < length - n
        ensures ChunkMapped(m, start + n, length - n, k) <==> ChunkMapped(m, start, length, k + 1)
      {
        assert MAX_MEMREQUEST_CHUNK * (k + 1) == MAX_MEMREQUEST_CHUNK * k + n;
      }
      forall k: nat | MAX_MEMREQUEST_CHUNK * k < length && k > 0
        ensures ChunkMapped(m, start, length, k) <==> ChunkMapped(m, start + n, length - n, k - 1)
      {
        assert MAX_MEMREQUEST_CHUNK * (k - 1) == MAX_MEMREQUEST_CHUNK * k - n;
      }
    }
  }

  // ----- registers

  /** The numbers of a text in groups of eight digits. */
  function Values(text: seq<byte>): Option<seq<nat>> {
    if text == [] then Some([])
    else
      var n := if |text| < 8 then |text| else 8;
      match (ParseInt(text[..n]), Values(text[n..]))
      case (Some(v), Some(rest)) => Some([v] + rest)
      case _ => None
  }

  /** `get_regs` on the text of a reply: r0 to r15, and psr, which is value 41. */
  function DecodeRegs(text: seq<byte>): Option<(seq<nat>, nat)> {
    match Values(text)
    case None => None
    case Some(values) =>
      if |values| <= 41 then None
      else Some((seq(16, i requires 0 <= i < 16 => ByteOrder(values[i])), ByteOrder(values[41])))
  }

  lemma {:induction false} ValuesOfWords(words: seq<word>)
    ensures Values(WordsText(words)) == Some(words)
  {
    hide ParseInt, FixedHex;
    if words != [] {
      var text := WordsText(words);
      WordsTextCons(words);
      assert text[..8] == FixedHex(words[0], 8);
      assert text[8..] == WordsText(words[1..]);
      ParseFixedWord(words[0]);
      ValuesOfWords(words[1..]);
      assert [words[0]] + words[1..] == words;
    }
  }

  lemma {:induction false} WordsTextCons(words: seq<word>)
    requires words != []
    ensures WordsText(words) == FixedHex(words[0], 8) + WordsText(words[1..])
  {
    hide FixedHex;
    var n := |words| - 1;
    if n > 0 {
      WordsTextCons(words[..n]);
      assert words[..n][1..] == words[1..][..n - 1];
      assert words[1..][n - 1] == words[n];
    }
  }

  /** Every register and psr survive the dump. */
  lemma DumpRoundTrip(regs: seq<word>, psr: word)
    requires |regs| == 16
    ensures DecodeRegs(WordsText(DumpedWords(regs, psr))) == Some((regs, psr))
  {
    hide ByteOrder, Htonl, Values, WordsText;
    var words := DumpedWords(regs, psr);
    ValuesOfWords(words);
    forall i | 0 <= i < 16 ensures ByteOrder(words[i]) == regs[i] { ByteOrderOfHtonl(regs[i]); }
    ByteOrderOfHtonl(psr);
    assert seq(16, i requires 0 <= i < 16 => ByteOrder(words[i])) == regs;
  }

  // ----- the replies as the client receives them

  lemma OneFrame(payload: seq<byte>)
    requires AllPlain(payload)
    ensures Tokenize(Frame(payload)) == ([Received(payload)], [])
  {
    hide Frame, Received;
    PlainIsPlain(payload);
    FirstFrame(payload, []);
    assert Frame(payload) + [] == Frame(payload);
    assert [Received(payload)] + [] == [Received(payload)];
  }

  /** The text of a reply as hexadecimal bytes; nothing stands for the exception when there is no
      reply, no text, or no such bytes. */
  function ReplyBytes(reply: Option<Response>): Option<seq<byte>> {
    if reply.Some? && reply.value.data.Some? then FromHex(reply.value.data.value) else None
  }

  lemma MinusIsRefusal()
    ensures Tokenize([MINUS]) == ([Response(false, None, None)], [])
  {
    assert [MINUS][1..] == [];
    assert [Response(false, None, None)] + [] == [Response(false, None, None)];
  }

  /** What arrives for a reply that carries bytes. */
  lemma BytesArrive(b: Option<seq<byte>>)
    ensures var t := Tokenize(BytesReply(b)); |t.0| == 1 && t.1 == [] && ReplyBytes(Some(t.0[0])) == b
  {
    hide Tokenize, Frame, HexStr, FromHex;
    if b.Some? {
      HexIsPlain(b.value);
      OneFrame(HexStr(b.value));
      HexRoundTrip(b.value);
    } else {
      MinusIsRefusal();
    }
  }

  // ----- the object

  class DebuggingProtocol {
    const server: Server
    const rxbuf: RXBuffer
    const arms: seq<Cpu.Arm>

    ghost function Footprint(): set<object>
      reads this, server, server.emu, server.emu.Footprint()
    {
      server.Footprint() + {rxbuf}
    }

    ghost predicate Connected()
      reads this, rxbuf, server, server.emu, server.emu.Footprint()
    {
      server.Valid() && rxbuf.Valid() && rxbuf as object !in server.Footprint()
    }

    /** Nothing is under way. */
    ghost predicate Ready()
      reads this, rxbuf, server, server.emu, server.emu.Footprint()
    {
      Connected() && rxbuf.msgs == [] && rxbuf.buffer == []
    }

    constructor (server: Server, rxbuf: RXBuffer, arms: seq<Cpu.Arm>)
      requires server.Valid() && rxbuf.Valid() && rxbuf.msgs == [] && rxbuf.buffer == []
      requires rxbuf as object !in server.Footprint()
      ensures Ready() && this.server == server && this.rxbuf == rxbuf && this.arms == arms
    {
      this.server := server;
      this.rxbuf := rxbuf;
      this.arms := arms;
    }

    /** `send_cmd`, with the server's answer delivered before the wait times out: the oldest message of
        those still queued and those that the answer completes. None is the exception. */
    method SendCmd(command: seq<byte>) returns (reply: Option<Response>)
      requires Connected()
      modifies Footprint()
      ensures Connected() && server.emu.space.slices == old(server.emu.space.slices)
      ensures var o := Interpret(arms, old(server.emu.State()), Frame(command));
        var t := Tokenize(old(rxbuf.buffer) + o.reply);
        && server.emu.State() == o.machine && rxbuf.buffer == t.1
        && old(rxbuf.msgs) + t.0 == (if reply.Some? then [reply.value] else []) + rxbuf.msgs
        && (reply.None? <==> old(rxbuf.msgs) + t.0 == [])
    {
      hide Tokenize, Frame, Interpret;
      var cksum := ComputeChecksum(command);
      var frame := [PLUS, DOLLAR] + command + [HASH, HexDigit(cksum / 16), HexDigit(cksum)];
      FrameIs(command, frame, cksum);
      var printed := |server.out|;
      var _ := server.InterpretRxData(arms, frame);
      var answer := server.out[printed..];
      assert answer == Interpret(arms, old(server.emu.State()), frame).reply;
      rxbuf.Put(answer);
      reply := rxbuf.Wait();
    }

    /** A command that the server understands and answers with one message. */
    method Ask(command: seq<byte>) returns (reply: Option<Response>)
      requires Ready() && AllPlain(command)
      requires |Tokenize(CommandOutcome(arms, server.emu.State(), command).reply).0| == 1
      requires Tokenize(CommandOutcome(arms, server.emu.State(), command).reply).1 == []
      modifies Footprint()
      ensures Ready() && server.emu.space.slices == old(server.emu.space.slices)
      ensures var o := CommandOutcome(arms, old(server.emu.State()), command);
        server.emu.State() == o.machine && reply == Some(Tokenize(o.reply).0[0])
    {
      hide CommandOutcome, Tokenize, Frame, AllPlain, Interpret;
      PlainIsPlain(command);
      InterpretFrame(arms, server.emu.State(), command, []);
      assert Frame(command) + [] == Frame(command);
      ghost var o := CommandOutcome(arms, server.emu.State(), command);
      ghost var tokens := Tokenize(o.reply).0;
      assert rxbuf.buffer + o.reply == o.reply && rxbuf.msgs + tokens == tokens == [tokens[0]];
      reply := SendCmd(command);
    }

    method ReadMemory(start: nat, length: nat) returns (result: Option<seq<byte>>)
      requires Ready() && length > 0 && start + length <= 0x1_0000_0000
      modifies Footprint()
      ensures Ready() && server.emu.State() == old(server.emu.State())
      ensures server.emu.space.slices == old(server.emu.space.slices)
      ensures result == ReadChunks(old(server.emu.State()).mem, start, length)
    {
      hide CommandOutcome, Tokenize, MemBytes, BytesReply, AllPlain, ReplyBytes, ReadRequest;
      ghost var s := server.emu.State();
      var bytes := [];
      var offset := start;
      PrependNothing(ReadChunks(s.mem, start, length));
      while offset < start + length
        invariant Ready() && server.emu.State() == s
        invariant server.emu.space.slices == old(server.emu.space.slices)
        invariant start <= offset <= start + length
        invariant ReadChunks(s.mem, start, length) == Prepend(bytes, ReadChunks(s.mem, offset, start + length - offset))
      {
        var n := ChunkLength(start + length - offset);
        var chunk := ReadChunk(offset, n);
        ReadChunksStep(s.mem, offset, start + length - offset, bytes);
        if chunk.None? { return None; }
        bytes := bytes + chunk.value;
        offset := offset + n;
      }
      result := Some(bytes);
      assert bytes + [] == bytes;
    }

    method ReadChunk(start: word, length: word) returns (result: Option<seq<byte>>)
      requires Ready()
      modifies Footprint()
      ensures Ready() && server.emu.State() == old(server.emu.State())
      ensures server.emu.space.slices == old(server.emu.space.slices)
      ensures result == MemBytes(old(server.emu.State()).mem, start, length)
    {
      hide CommandOutcome, Tokenize, MemBytes, BytesReply, AllPlain, ReplyBytes, ReadRequest;
      ReadRequestUnderstood(arms, server.emu.State(), start, length);
      BytesArrive(MemBytes(server.emu.State().mem, start, length));
      var reply := Ask(ReadRequest(start, length));
      result := ReplyBytes(reply);
    }

    /** `hash_memory` */
    method HashMemory(start: word, length: word) returns (result: Option<seq<byte>>)
      requires Ready() && length > 0 && start + length <= 0x1_0000_0000
      modifies Footprint()
      ensures Ready() && server.emu.State() == old(server.emu.State())
      ensures var b := MemBytes(old(server.emu.State()).mem, start, length);
        result == if b.Some? then Some(Md5Spec.Digest(b.value)) else None
    {
      hide CommandOutcome, Tokenize, MemBytes, BytesReply, HashReply, AllPlain, ReplyBytes, HashRequest, Md5Spec.Digest;
      ghost var b := MemBytes(server.emu.State().mem, start, length);
      HashRequestUnderstood(arms, server.emu.State(), start, length);
      HashReplyIs(b);
      BytesArrive(if b.Some? then Some(Md5Spec.Digest(b.value)) else None);
      var reply := Ask(HashRequest(start, length));
      result := ReplyBytes(reply);
    }

    method SingleStep()
      requires Ready()
      modifies Footprint()
      ensures Ready() && server.emu.State() == Cpu.Step(arms, old(server.emu.State()))
    {
      hide CommandOutcome, Tokenize, Frame, Received, AllPlain, Cpu.Step;
      FixedRequestsUnderstood(arms, server.emu.State());
      PlainComma();
      NothingIsPlain();
      OneFrame([]);
      var _ := Ask(STEP_COMMAND);
    }

    method GetRegs() returns (regs: Option<(seq<nat>, nat)>)
      requires Ready()
      modifies Footprint()
      ensures Ready() && server.emu.State() == old(server.emu.State())
      ensures regs == Some((old(server.emu.State()).regs, AsWord(old(server.emu.psr))))
    {
      hide CommandOutcome, Tokenize, Frame, AllPlain, DumpedWords, WordsText, DecodeRegs, AsWord;
      ghost var s := server.emu.State();
      FixedRequestsUnderstood(arms, s);
      PlainComma();
      WordsTextIsPlain(DumpedWords(s.regs, AsWord(s.psr)));
      OneFrame(WordsText(DumpedWords(s.regs, AsWord(s.psr))));
      DumpRoundTrip(s.regs, AsWord(s.psr));
      var reply := Ask([LETTER_G]);
      regs := DecodeRegs(reply.value.data.value);
    }
  }

  function Prepend(front: seq<byte>, rest: Option<seq<byte>>): Option<seq<byte>> {
    match rest
    case None => None
    case Some(b) => Some(front + b)
  }

  lemma PrependNothing(b: Option<seq<byte>>)
    ensures Prepend([], b) == b
  {
    if b.Some? { assert [] + b.value == b.value; }
  }

  lemma ReadChunksStep(m: Memory, offset: nat, length: nat, front: seq<byte>)
    requires WellFormed(m) && offset + length <= 0x1_0000_0000 && length > 0
    ensures var n := ChunkLength(length);
      var chunk := MemBytes(m, offset, n);
      Prepend(front, ReadChunks(m, offset, length)) ==
        if chunk.None? then None else Prepend(front + chunk.value, ReadChunks(m, offset + n, length - n))
  {
    hide MemBytes;
    var n := ChunkLength(length);
    var chunk := MemBytes(m, offset, n);
    var rest := ReadChunks(m, offset + n, length - n);
    if chunk.Some? && rest.Some? { assert front + (chunk.value + rest.value) == front + chunk.value + rest.value; }
  }

  lemma FrameIs(command: seq<byte>, frame: seq<byte>, cksum: nat)
    requires cksum == Checksum(command)
    requires frame == [PLUS, DOLLAR] + command + [HASH, HexDigit(cksum / 16), HexDigit(cksum)]
    ensures frame == Frame(command)
  {
  }

  lemma HashReplyIs(b: Option<seq<byte>>)
    ensures HashReply(b) == BytesReply(if b.Some? then Some(Md5Spec.Digest(b.value)) else None)
  {
  }
}
