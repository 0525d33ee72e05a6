/** Frames of the debug protocol: what the server prints (gdbserver.c) and the incremental tokenizer
    of the client (DebuggingProtocol.py). */
module Framing {
  import opened Bytes
  import opened Options
  import opened Hex

  const PLUS: byte := 43
  const MINUS: byte := 45
  const DOLLAR: byte := 36
  const HASH: byte := 35

  /** The first index at or after i where c stands. */
  function FindFrom(s: seq<byte>, c: byte, i: nat): (r: Option<nat>)
    requires i <= |s|
    ensures r.Some? ==> i <= r.value < |s| && s[r.value] == c
    ensures forall k :: i <= k < (if r.Some? then r.value else |s|) ==> s[k] != c
    decreases |s| - i
  {
    if i == |s| then None else if s[i] == c then Some(i) else FindFrom(s, c, i + 1)
  }

  function IndexOf(s: seq<byte>, c: byte): (r: Option<nat>)
    ensures r.Some? ==> r.value < |s| && s[r.value] == c
    ensures forall k :: 0 <= k < (if r.Some? then r.value else |s|) ==> s[k] != c
  {
    FindFrom(s, c, 0)
  }

  lemma IndexIs(s: seq<byte>, c: byte, i: nat)
    requires i < |s| && s[i] == c && forall k :: 0 <= k < i ==> s[k] != c
    ensures IndexOf(s, c) == Some(i)
  {
  }

  /** A C string: the bytes before the first zero. */
  function CString(b: seq<byte>): seq<byte> {
    match IndexOf(b, 0)
    case None => b
    case Some(i) => b[..i]
  }

  lemma CStringIs(b: seq<byte>, n: nat)
    requires n <= |b| && 0 !in b[..n] && (n < |b| ==> b[n] == 0)
    ensures CString(b) == b[..n]
  {
    forall k | 0 <= k < n ensures b[k] != 0 { assert b[k] == b[..n][k]; }
    if n < |b| { IndexIs(b, 0, n); } else { assert b[..n] == b; }
  }

  lemma CStringKeepsIff(b: seq<byte>)
    ensures CString(b) == b <==> 0 !in b
    ensures 0 !in CString(b) && CString(b) <= b
  {
    var zero := IndexOf(b, 0);
    if zero.Some? { assert |CString(b)| < |b|; }
  }

  /** Bytes that frames and C strings leave alone. */
  predicate Plain(c: byte) {
    c != HASH && c != 0
  }

  predicate AllPlain(s: seq<byte>) {
    forall i :: 0 <= i < |s| ==> Plain(s[i])
  }

  lemma PlainParts(a: seq<byte>, b: seq<byte>)
    requires AllPlain(a) && AllPlain(b)
    ensures AllPlain(a + b)
  {
  }

  lemma PlainDigits(s: seq<byte>)
    requires AllDigits(s)
    ensures AllPlain(s)
  {
    forall i | 0 <= i < |s| ensures Plain(s[i]) { assert IsDigit(s[i]); }
  }

  lemma PlainIsPlain(s: seq<byte>)
    ensures AllPlain(s) <==> HASH !in s && 0 !in s
  {
    if AllPlain(s) {
      forall i | 0 <= i < |s| ensures s[i] != HASH && s[i] != 0 { assert Plain(s[i]); }
    }
  }

  lemma NothingIsPlain()
    ensures AllPlain([])
  {
  }

  // ----- the tokenizer

  datatype Response = Response(success: bool, data: Option<seq<byte>>, rxCksum: Option<seq<byte>>)

  /** The message at the front and how many bytes it takes; nothing while it is incomplete. */
  function NextToken(s: seq<byte>): (r: Option<(Response, nat)>)
    requires s != []
    ensures r.Some? ==> 0 < r.value.1 <= |s|
  {
    if s[0] == PLUS then
      var hash := IndexOf(s, HASH);
      if |s| >= 5 && s[..2] == [PLUS, DOLLAR] && hash.Some? && |s| >= hash.value + 3 then
        assert hash.value >= 2;
        var h := hash.value;
        Some((Response(true, Some(s[2..h]), Some(s[h..h + 2])), h + 3))
      else None
    else if s[0] == MINUS then Some((Response(false, None, None), 1))
    else Some((Response(false, Some([s[0]]), None), 1))
  }

  /** All messages of the data in order, and the incomplete remainder. */
  function Tokenize(data: seq<byte>): (r: (seq<Response>, seq<byte>)) {
    if data == [] then ([], [])
    else
      match NextToken(data)
      case None => ([], data)
      case Some(t) =>
        var rest := Tokenize(data[t.1..]);
        ([t.0] + rest.0, rest.1)
  }

  method Tokenizer(data: seq<byte>) returns (msgs: seq<Response>, remaining: seq<byte>)
    ensures (msgs, remaining) == Tokenize(data)
  {
    msgs := [];
    remaining := data;
    assert [] + Tokenize(data).0 == Tokenize(data).0;
    while |remaining| > 0
      invariant msgs + Tokenize(remaining).0 == Tokenize(data).0 && Tokenize(remaining).1 == Tokenize(data).1
      decreases |remaining|
    {
      ghost var (before, front) := (msgs, remaining);
      if remaining[..1] == [PLUS] {
        var hash := IndexOf(remaining, HASH);
        if |remaining| >= 5 && remaining[..2] == [PLUS, DOLLAR] && hash.Some? && |remaining| >= hash.value + 3 {
          assert hash.value >= 2;
          var rxCksum := remaining[hash.value..hash.value + 2];
          msgs := msgs + [Response(true, Some(remaining[2..hash.value]), Some(rxCksum))];
          remaining := remaining[hash.value + 3..];
        } else {
          assert msgs + [] == msgs;
          break;
        }
      } else if remaining[..1] == [MINUS] {
        msgs := msgs + [Response(false, None, None)];
        remaining := remaining[1..];
      } else {
        assert remaining[..1] == [remaining[0]];
        msgs := msgs + [Response(false, Some(remaining[..1]), None)];
        remaining := remaining[1..];
      }
      TokenizeStep(before, front, msgs, remaining);
    }
    assert remaining == [] ==> msgs + [] == msgs;
  }

  /** One pass of the loop takes the next token. */
  lemma TokenizeStep(before: seq<Response>, front: seq<byte>, msgs: seq<Response>, remaining: seq<byte>)
    requires front != [] && NextToken(front).Some?
    requires msgs == before + [NextToken(front).value.0] && remaining == front[NextToken(front).value.1..]
    ensures before + Tokenize(front).0 == msgs + Tokenize(remaining).0 && Tokenize(front).1 == Tokenize(remaining).1
  {
    hide NextToken;
    var t := NextToken(front).value;
    assert before + ([t.0] + Tokenize(remaining).0) == before + [t.0] + Tokenize(remaining).0;
  }

  // ----- chunks

  /** More data behind a complete message does not change it. */
  lemma TokenIsStable(a: seq<byte>, b: seq<byte>)
    requires a != [] && NextToken(a).Some?
    ensures NextToken(a + b) == NextToken(a)
  {
    if a[0] == PLUS {
      var h := IndexOf(a, HASH).value;
      assert (a + b)[..h] == a[..h];
      IndexIs(a + b, HASH, h);
      assert (a + b)[..2] == a[..2];
      assert (a + b)[2..h] == a[2..h];
      assert (a + b)[h..h + 2] == a[h..h + 2];
    }
  }

  /** Tokenizing a, and then its remainder with b behind it, gives what tokenizing a + b gives. */
  lemma {:induction false} ChunkInvariance(a: seq<byte>, b: seq<byte>)
    ensures var (msgs, remaining) := Tokenize(a);
      var (more, left) := Tokenize(remaining + b);
      Tokenize(a + b) == (msgs + more, left)
  {
    hide NextToken;
    if a == [] {
      assert a + b == b == [] + b;
      assert [] + Tokenize(b).0 == Tokenize(b).0;
    } else if NextToken(a).Some? {
      var t := NextToken(a).value;
      TokenIsStable(a, b);
      ChunkInvariance(a[t.1..], b);
      assert (a + b)[t.1..] == a[t.1..] + b;
      var (msgs, remaining) := Tokenize(a[t.1..]);
      var more := Tokenize(remaining + b).0;
      assert [t.0] + (msgs + more) == [t.0] + msgs + more;
    } else {
      assert [] + Tokenize(a + b).0 == Tokenize(a + b).0;
    }
  }

  /** What is left can still become a message. */
  predicate Completable(r: seq<byte>) {
    r == [] || r == [PLUS] || (|r| >= 2 && r[..2] == [PLUS, DOLLAR])
  }

  lemma StuckStays(r: seq<byte>, b: seq<byte>)
    requires !Completable(r) && r[0] == PLUS
    ensures Tokenize(r + b).0 == []
  {
    assert |r| >= 2;
    assert (r + b)[..2] == r[..2];
  }

  lemma TokenStarts(s: seq<byte>)
    requires s != [] && NextToken(s).Some?
    ensures Tokenize(s).0 != []
  {
    hide NextToken;
  }

  lemma ClosedFrame(s: seq<byte>)
    requires |s| >= 5 && s[0] == PLUS && s[1] == DOLLAR && s[|s| - 3] == HASH
    ensures NextToken(s).Some?
  {
    assert s[..2] == [PLUS, DOLLAR];
  }

  lemma CanComplete(r: seq<byte>)
    requires r == [] || (r[0] == PLUS && NextToken(r).None?)
    requires Completable(r)
    ensures exists b :: Tokenize(r + b).0 != []
  {
    hide Tokenize, NextToken;
    if r == [] {
      TokenStarts(r + [HASH]) by { UnknownByte(r + [HASH]); }
    } else {
      if |r| >= 2 { assert r[..2][1] == DOLLAR; }
      var b := (if |r| == 1 then [DOLLAR] else []) + [HASH, HASH, HASH];
      ClosedFrame(r + b);
      TokenStarts(r + b);
    }
  }

  lemma UnknownByte(s: seq<byte>)
    requires s != [] && s[0] != PLUS
    ensures NextToken(s).Some?
  {
  }

  /** A remainder holds up every later message, whatever arrives, exactly when its `+` is followed
      by something other than `$`. */
  lemma RemainderStuckIff(data: seq<byte>)
    ensures var r := Tokenize(data).1; Completable(r) <==> exists b :: Tokenize(r + b).0 != []
  {
    var r := Tokenize(data).1;
    RemainderIsIncomplete(data);
    if Completable(r) {
      CanComplete(r);
    } else {
      forall b ensures Tokenize(r + b).0 == [] { StuckStays(r, b); }
    }
  }

  lemma {:induction false} RemainderIsIncomplete(data: seq<byte>)
    ensures var r := Tokenize(data).1; r == [] || (r[0] == PLUS && NextToken(r).None?)
  {
    if data != [] && NextToken(data).Some? { RemainderIsIncomplete(data[NextToken(data).value.1..]); }
  }

  // ----- the receive buffer

  /** Bytes received so far, and the messages taken out so far, are the object's history. */
  class RXBuffer {
    var buffer: seq<byte>
    var msgs: seq<Response>
    ghost var received: seq<byte>
    ghost var taken: seq<Response>

    /** However the bytes came in, what was queued is what the whole of them holds. */
    ghost predicate Valid()
      reads this
    {
      Tokenize(received) == (taken + msgs, buffer)
    }

    constructor ()
      ensures Valid() && received == [] && taken == [] && msgs == [] && buffer == []
    {
      buffer, msgs, received, taken := [], [], [], [];
      new;
      assert taken + msgs == [];
    }

    method Put(data: seq<byte>)
      requires Valid()
      modifies this
      ensures Valid() && received == old(received) + data && taken == old(taken)
      ensures msgs == old(msgs) + Tokenize(old(buffer) + data).0 && buffer == Tokenize(old(buffer) + data).1
    {
      hide NextToken;
      ChunkInvariance(received, data);
      var (more, left) := Tokenize(buffer + data);
      var tokens, remaining := Tokenizer(buffer + data);
      assert taken + msgs + more == taken + (msgs + more);
      buffer := remaining;
      msgs := msgs + tokens;
      received := received + data;
    }

    /** `wait`: the oldest queued message; nothing is the timeout. */
    method Wait() returns (msg: Option<Response>)
      requires Valid()
      modifies this`msgs, this`taken
      ensures Valid() && (msg.None? <==> old(msgs) == [])
      ensures msg.Some? ==> old(msgs) == [msg.value] + msgs && taken == old(taken) + [msg.value]
      ensures msg.None? ==> msgs == old(msgs) && taken == old(taken)
    {
      hide Tokenize;
      if msgs == [] { return None; }
      msg := Some(msgs[0]);
      assert taken + msgs == taken + [msgs[0]] + msgs[1..];
      taken := taken + [msgs[0]];
      msgs := msgs[1..];
    }
  }

  // ----- frames

  function Sum(data: seq<byte>): nat {
    if data == [] then 0 else Sum(data[..|data| - 1]) + data[|data| - 1]
  }

  function Checksum(data: seq<byte>): byte {
    Sum(data) % 256
  }

  function Frame(payload: seq<byte>): seq<byte> {
    [PLUS, DOLLAR] + payload + [HASH, HexDigit(Checksum(payload) / 16), HexDigit(Checksum(payload))]
  }

  /** What `tx_frame` prints: its length and its %s both stop at a zero. */
  function Printed(data: seq<byte>): seq<byte> {
    Frame(CString(data))
  }

  /** `_checksum`, which reduces once, at the end. */
  method ComputeChecksum(data: seq<byte>) returns (cksum: nat)
    ensures cksum == Checksum(data)
  {
    cksum := 0;
    for i := 0 to |data|
      invariant cksum == Sum(data[..i])
    {
      assert data[..i + 1][..i] == data[..i];
      cksum := cksum + data[i];
    }
    assert data[..|data|] == data;
    cksum := cksum % 256;
  }

  /** The loop of `tx_frame`, whose 8-bit sum wraps at every step, gives the same. */
  method WrappingChecksum(data: seq<byte>) returns (cksum: byte)
    ensures cksum == Checksum(data)
  {
    cksum := 0;
    for i := 0 to |data|
      invariant cksum == Checksum(data[..i])
    {
      assert data[..i + 1][..i] == data[..i];
      cksum := (cksum + data[i]) % 256;
    }
    assert data[..|data|] == data;
  }

  /** The message a client receives for a payload: rx_cksum is cut one byte too early. */
  function Received(payload: seq<byte>): Response {
    Response(true, Some(payload), Some([HASH, HexDigit(Checksum(payload) / 16)]))
  }

  function Frames(payloads: seq<seq<byte>>): seq<byte> {
    if payloads == [] then [] else Printed(payloads[0]) + Frames(payloads[1..])
  }

  function ReceivedAll(payloads: seq<seq<byte>>): seq<Response> {
    if payloads == [] then [] else [Received(payloads[0])] + ReceivedAll(payloads[1..])
  }

  /** Whatever two bytes follow the hash sign, the payload is taken as a success. */
  lemma ChecksumIsNotTested(payload: seq<byte>, x: byte, y: byte, rest: seq<byte>)
    requires HASH !in payload
    ensures var s := [PLUS, DOLLAR] + payload + [HASH, x, y] + rest;
      NextToken(s) == Some((Response(true, Some(payload), Some([HASH, x])), |payload| + 5))
  {
    var s := [PLUS, DOLLAR] + payload + [HASH, x, y] + rest;
    var h := |payload| + 2;
    assert s[..h] == [PLUS, DOLLAR] + payload;
    assert forall k :: 0 <= k < h ==> s[k] == s[..h][k];
    IndexIs(s, HASH, h);
    assert s[2..h] == payload;
    assert s[h..h + 2] == [HASH, x];
    assert s[..2] == [PLUS, DOLLAR];
  }

  /** The received checksum is never the two digits that were sent. */
  lemma ReceivedChecksumIsWrong(payload: seq<byte>)
    requires HASH !in payload
    ensures NextToken(Frame(payload)) == Some((Received(payload), |Frame(payload)|))
    ensures Received(payload).rxCksum != Some(Frame(payload)[|payload| + 3..])
  {
    var c := Checksum(payload);
    ChecksumIsNotTested(payload, HexDigit(c / 16), HexDigit(c), []);
    assert Frame(payload) == [PLUS, DOLLAR] + payload + [HASH, HexDigit(c / 16), HexDigit(c)] + [];
    assert Frame(payload)[|payload| + 3..][0] == HexDigit(c / 16) != HASH;
  }

  lemma FirstFrame(payload: seq<byte>, rest: seq<byte>)
    requires HASH !in payload
    ensures Tokenize(Frame(payload) + rest) == ([Received(payload)] + Tokenize(rest).0, Tokenize(rest).1)
  {
    hide NextToken;
    var c := Checksum(payload);
    var s := Frame(payload) + rest;
    ChecksumIsNotTested(payload, HexDigit(c / 16), HexDigit(c), rest);
    assert s[|payload| + 5..] == rest;
  }

  /** The first message is the payload exactly when frame and C string leave the payload alone. */
  lemma FirstPrinted(payload: seq<byte>, rest: seq<byte>)
    ensures var t := Tokenize(Printed(payload) + rest);
      if AllPlain(payload) then t == ([Received(payload)] + Tokenize(rest).0, Tokenize(rest).1)
      else t.0 != [] && t.0[0] != Received(payload)
  {
    hide Tokenize, Frame, AllPlain, CString;
    PlainIsPlain(payload);
    CStringKeepsIff(payload);
    var text := CString(payload);
    if HASH in text {
      InPrefix(HASH, text, payload);
      FirstIsShorter(text, rest);
    } else {
      FirstFrame(text, rest);
      if 0 !in payload { assert text == payload; }
    }
  }

  lemma InPrefix(c: byte, a: seq<byte>, b: seq<byte>)
    requires a <= b && c in a
    ensures c in b
  {
  }

  /** A hash sign in the payload ends it early. */
  lemma FirstIsShorter(payload: seq<byte>, rest: seq<byte>)
    requires HASH in payload
    ensures var t := Tokenize(Frame(payload) + rest).0;
      t != [] && t[0].data.Some? && |t[0].data.value| < |payload|
  {
    var s := Frame(payload) + rest;
    var h := IndexOf(payload, HASH).value;
    assert s[..h + 2] == [PLUS, DOLLAR] + payload[..h];
    assert s[h + 2] == HASH;
    IndexIs(s, HASH, h + 2);
    assert s[..2] == [PLUS, DOLLAR];
    assert |s[2..h + 2]| == h < |payload|;
  }

  /** The concatenated prints give back their payloads, each once, in order and with nothing left over,
      exactly when no payload holds a hash sign or a zero. */
  lemma {:induction false} FramesRoundTrip(payloads: seq<seq<byte>>)
    ensures Tokenize(Frames(payloads)) == (ReceivedAll(payloads), []) <==>
      forall p :: p in payloads ==> HASH !in p && 0 !in p
  {
    hide Printed, Received, AllPlain;
    if payloads != [] {
      var rest := Frames(payloads[1..]);
      FramesRoundTrip(payloads[1..]);
      FirstPrinted(payloads[0], rest);
      PlainIsPlain(payloads[0]);
      assert forall p :: p in payloads <==> p == payloads[0] || p in payloads[1..];
      if AllPlain(payloads[0]) {
        ConsAgree(Received(payloads[0]), Tokenize(rest).0, ReceivedAll(payloads[1..]));
      } else {
        assert payloads[0] in payloads;
      }
    }
  }

  lemma ConsAgree(x: Response, a: seq<Response>, b: seq<Response>)
    ensures [x] + a == [x] + b <==> a == b
  {
    assert ([x] + a)[1..] == a && ([x] + b)[1..] == b;
  }

  /** Received in any pieces, the frames queue exactly their payloads. */
  method ReceiveFrames(payloads: seq<seq<byte>>, chunks: seq<seq<byte>>) returns (buffer: RXBuffer)
    requires Joined(chunks) == Frames(payloads) && forall p :: p in payloads ==> HASH !in p && 0 !in p
    ensures buffer.msgs == ReceivedAll(payloads) && buffer.buffer == []
  {
    hide Tokenize;
    buffer := new RXBuffer();
    for i := 0 to |chunks|
      invariant fresh(buffer) && buffer.Valid() && buffer.received == Joined(chunks[..i]) && buffer.taken == []
    {
      assert chunks[..i + 1][..i] == chunks[..i];
      buffer.Put(chunks[i]);
    }
    assert chunks[..|chunks|] == chunks;
    FramesRoundTrip(payloads);
  }

  function Joined(chunks: seq<seq<byte>>): seq<byte> {
    if chunks == [] then [] else Joined(chunks[..|chunks| - 1]) + chunks[|chunks| - 1]
  }
}
