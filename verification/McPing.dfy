/** The VarInt codec, the packet framing and the reply handler of `mc-ping.ts`. */
module McPing {
  import opened Words

  const HALF_WORD := 0x8000_0000

  type Int32 = x: int | -0x8000_0000 <= x < 0x8000_0000

  /** `v >>> 0` */
  function ToUint32(v: int): Word { v % WORD_SIZE }

  function ToInt32(w: Word): Int32 { if w < HALF_WORD then w else w - WORD_SIZE }

  // ----- what the bytes of a VarInt mean -----

  predicate More(b: Byte) { b >= 128 }

  /** The first byte without a continuation bit, or the end. */
  function Terminator(s: Bytes): (t: nat)
    ensures t <= |s| && (t < |s| ==> !More(s[t])) && forall i | 0 <= i < t :: More(s[i])
  {
    if s == [] || !More(s[0]) then 0 else 1 + Terminator(s[1..])
  }

  /** Seven bits a byte, least significant group first. */
  function GroupValue(s: Bytes): nat
  {
    if s == [] then 0 else s[0] % 128 + 128 * GroupValue(s[1..])
  }

  datatype ReadResult = Read(value: Int32, size: nat) | UnexpectedEnd | TooBig

  function Parse(s: Bytes): (r: ReadResult)
    ensures r.Read? ==> 1 <= r.size <= 5 && r.size <= |s|
  {
    var t := Terminator(s);
    if t < |s| && t < 5 then Read(ToInt32(GroupValue(s[..t + 1]) % WORD_SIZE), t + 1)
    else if |s| > 5 then TooBig
    else UnexpectedEnd
  }

  function VarInt(w: Word): (s: Bytes)
    ensures s != []
  {
    if w < 128 then [w] else [w % 128 + 128] + VarInt(w / 128)
  }

  function Write(v: int): Bytes { VarInt(ToUint32(v)) }

  // ----- the source's loops -----

  method WriteVarInt(value: int) returns (bytes: Bytes)
    ensures bytes == Write(value)
  {
    var v: Word := ToUint32(value);
    bytes := [];
    while true
      invariant bytes + VarInt(v) == Write(value)
      decreases v
    {
      var temp: Byte := v % 128;
      ghost var before, written := v, bytes;
      v := v / 128;
      if v != 0 {
        temp := temp + 128;
      }
      bytes := bytes + [temp];
      if v == 0 {
        break;
      }
      assert written + VarInt(before) == bytes + VarInt(v);
    }
  }

  /**
   The sixth byte is never decoded: its shift is out of range in the source, but the size check
   that follows throws before the value is used.
   */
  method ReadVarInt(buffer: Bytes, offset: nat) returns (r: ReadResult)
    ensures r == Parse(if offset <= |buffer| then buffer[offset..] else [])
  {
    if offset > |buffer| {
      return UnexpectedEnd;
    }
    var value: Word, size: nat := 0, 0;
    ghost var s := buffer[offset..];
    while true
      invariant size <= 5 && size <= |s| && size <= Terminator(s)
      invariant value == GroupValue(s[..size]) % WORD_SIZE && (size < 5 ==> value < Pow2(7 * size))
      decreases 6 - size
    {
      if offset + size >= |buffer| {
        return UnexpectedEnd;
      }
      var byte := buffer[offset + size];
      assert byte == s[size];
      if size == 5 {
        return TooBig;
      }
      AddGroup(s, size, value);
      value := Or(Shl(byte % 128, 7 * size), value, 7 * size);
      size := size + 1;
      if !More(byte) {
        return Read(ToInt32(value), size);
      }
    }
  }

  lemma {:induction false} GroupValueAppend(s: Bytes, b: Byte)
    ensures GroupValue(s + [b]) == GroupValue(s) + Scale(b % 128, 7 * |s|)
    ensures GroupValue(s) < Pow2(7 * |s|)
  {
    if s == [] {
      assert s + [b] == [b];
      assert Scale(b % 128, 0) == b % 128;
    } else {
      GroupValueAppend(s[1..], b);
      assert (s + [b])[1..] == s[1..] + [b];
      var k := 7 * |s[1..]|;
      assert 7 * |s| == k + 7;
      ScaleTwice(b % 128, k, 7);
      ScaleSeven(Scale(b % 128, k));
      Pow2Scale(k, 7);
      ScaleSeven(Pow2(k));
    }
  }

  lemma {:induction false} ScaleSeven(n: nat)
    ensures Scale(n, 7) == 128 * n
  {
    PowersUsed();
    ScaleIsMul(n, 7);
  }

  /** One turn of the reading loop: the shifted group fits above the groups read so far. */
  lemma {:induction false} AddGroup(s: Bytes, size: nat, value: Word)
    requires size < |s| && size < 5 && value < Pow2(7 * size) && value == GroupValue(s[..size]) % WORD_SIZE
    ensures LowBits(Shl(s[size] % 128, 7 * size), 7 * size) == 0
    ensures Or(Shl(s[size] % 128, 7 * size), value, 7 * size) == GroupValue(s[..size + 1]) % WORD_SIZE
    ensures size < 4 ==> GroupValue(s[..size + 1]) % WORD_SIZE < Pow2(7 * (size + 1))
  {
    hide Scale, Shr, LowBits, GroupValue, Pow2;
    var k, b := 7 * size, s[size] % 128;
    assert s[..size + 1] == s[..size] + [s[size]];
    GroupValueAppend(s[..size], s[size]);
    assert Pow2(k) <= WORD_SIZE by { SmallPowers(); }
    assert value == GroupValue(s[..size]);
    ShiftIn(b, 0, value, k);
    assert GroupValue(s[..size + 1]) == Scale(b, k) + value;
    WrapAbove(Scale(b, k), value, Shl(b, k));
    GroupValueAppend(s[..size + 1], 0);
    SmallPowers();
  }

  lemma {:induction false} SmallPowers()
    ensures Pow2(0) == 1 && Pow2(7) == 0x80 && Pow2(14) == 0x4000 && Pow2(21) == 0x20_0000 && Pow2(28) == 0x1000_0000
  {
    PowersUsed();
    Pow2Add(7, 7);
    Pow2Add(14, 7);
    Pow2Add(14, 14);
  }

  lemma {:induction false} WrapAbove(high: nat, low: nat, wrapped: Word)
    requires wrapped == high % WORD_SIZE && wrapped + low < WORD_SIZE
    ensures (high + low) % WORD_SIZE == wrapped + low
  {
  }

  // ----- the VarInt codec -----

  lemma {:induction false} WrittenShape(w: Word, after: Bytes)
    ensures Terminator(VarInt(w) + after) == |VarInt(w)| - 1
    ensures GroupValue(VarInt(w)) == w
    decreases w
  {
    if w < 128 {
      assert (VarInt(w) + after)[0] == w;
      assert GroupValue([w]) == w % 128 + 128 * GroupValue([]);
    } else {
      WrittenShape(w / 128, after);
      ConsShape(w % 128 + 128, VarInt(w / 128), after);
    }
  }

  lemma {:induction false} ConsShape(b: Byte, rest: Bytes, after: Bytes)
    requires More(b)
    ensures Terminator([b] + rest + after) == 1 + Terminator(rest + after)
    ensures GroupValue([b] + rest) == b % 128 + 128 * GroupValue(rest)
  {
    assert ([b] + rest + after)[1..] == rest + after;
    assert ([b] + rest)[1..] == rest;
  }

  lemma {:induction false} LengthBound(w: Word, k: nat)
    requires k > 0 && w < Pow2(7 * k)
    ensures |VarInt(w)| <= k
  {
    PowersUsed();
    if w >= 128 {
      assert k > 1;
      Pow2Scale(7 * (k - 1), 7);
      ScaleSeven(Pow2(7 * (k - 1)));
      LengthBound(w / 128, k - 1);
    }
  }

  lemma {:induction false} LengthOfWord(w: Word)
    ensures 1 <= |VarInt(w)| <= 5
  {
    SmallPowers();
    Pow2Scale(28, 7);
    ScaleSeven(Pow2(28));
    LengthBound(w, 5);
  }

  /** Reading bytes that start with a written word. */
  lemma {:induction false} ParseWritten(w: Word, after: Bytes)
    ensures Parse(VarInt(w) + after) == Read(ToInt32(w), |VarInt(w)|)
  {
    WrittenShape(w, after);
    LengthOfWord(w);
    hide VarInt, Terminator, GroupValue;
    assert (VarInt(w) + after)[..|VarInt(w)|] == VarInt(w);
  }

  /** What reading fails on, and how far it reads: the sixth byte is too many, whatever it is. */
  lemma {:induction false} ParseExactlyWhen(s: Bytes)
    ensures Parse(s).TooBig? <==> |s| >= 6 && forall i | 0 <= i < 5 :: s[i] >= 128
    ensures Parse(s).UnexpectedEnd? <==> |s| <= 5 && forall i | 0 <= i < |s| :: s[i] >= 128
    ensures Parse(s).Read? ==> s[Parse(s).size - 1] < 128 && forall i | 0 <= i < Parse(s).size - 1 :: s[i] >= 128
  {
    var t := Terminator(s);
    if t < |s| {
      assert !More(s[t]);
    }
    assert forall i | 0 <= i < t :: More(s[i]);
  }

  /** Every signed 32-bit value is read back from where it was written, whatever surrounds it. */
  lemma {:induction false} VarIntRoundTrip(v: Int32, before: Bytes, after: Bytes)
    ensures Parse((before + Write(v) + after)[|before|..]) == Read(v, |Write(v)|)
    ensures 1 <= |Write(v)| <= 5
  {
    hide Parse, VarInt;
    ParseWritten(ToUint32(v), after);
    LengthOfWord(ToUint32(v));
    assert (before + Write(v) + after)[|before|..] == Write(v) + after;
  }

  /** The writer's form is the shortest of all byte strings that read as the same value. */
  lemma {:induction false} WrittenFormIsShortest(s: Bytes)
    requires Parse(s).Read?
    ensures |Write(Parse(s).value)| <= Parse(s).size
  {
    var size := Parse(s).size;
    var g := GroupValue(s[..size]);
    assert ToUint32(Parse(s).value) == g % WORD_SIZE;
    LengthOfWord(g % WORD_SIZE);
    GroupValueAppend(s[..size], 0);
    SmallPowers();
    if size < 5 {
      LengthBound(g % WORD_SIZE, size);
    }
  }

  // ----- packets -----

  function Packet(id: Int32, data: Bytes): Bytes
  {
    Write(|Write(id)| + |data|) + Write(id) + data
  }

  function WriteString(data: Bytes): Bytes { Write(|data|) + data }

  /** `s.subarray(start, end)`, where negative positions count from the end. */
  function Subarray(s: Bytes, start: int, end: int): Bytes
  {
    var from := Clamp(start, |s|);
    var to := Clamp(end, |s|);
    if from < to then s[from..to] else []
  }

  function Clamp(position: int, len: nat): (p: nat)
    ensures p <= len
  {
    if position < 0 then (if len + position < 0 then 0 else len + position)
    else if position < len then position else len
  }

  /** `packetBuf` is the packet behind its length, and its data start at `idSize`. */
  datatype Frame = Complete(id: Int32, packetBuf: Bytes, idSize: nat, size: int) | Incomplete | Broken

  /** How the reply handler cuts one packet off the front of its buffer. */
  function ReadFrame(buffer: Bytes): (f: Frame)
    ensures f.Complete? ==> f.idSize <= |f.packetBuf|
  {
    match Parse(buffer)
    case Read(length, lengthSize) =>
      if |buffer| < lengthSize + length then Incomplete
      else
        var packetBuf := Subarray(buffer, lengthSize, lengthSize + length);
        (match Parse(packetBuf)
         case Read(id, idSize) => Complete(id, packetBuf, idSize, lengthSize + length)
         case _ => Broken)
    case _ => Broken
  }

  /** The length a packet announces is read as a signed word, so it has to stay below 2^31. */
  predicate Sendable(data: Bytes) { |data| + 5 < HALF_WORD }

  /** Any bytes behind their length are cut off as they are, whatever follows, and read for an id. */
  lemma {:induction false} FrameOfBytes(body: Bytes, after: Bytes)
    requires |body| < HALF_WORD
    ensures ReadFrame(Write(|body|) + body + after) == (
              match Parse(body)
              case Read(id, idSize) => Complete(id, body, idSize, |Write(|body|)| + |body|)
              case _ => Broken)
  {
    hide Parse, VarInt;
    VarIntRoundTrip(|body|, [], body + after);
    var buffer := Write(|body|) + body + after;
    assert buffer == [] + Write(|body|) + (body + after);
    assert buffer[0..] == buffer;
    var n := |Write(|body|)|;
    assert Subarray(buffer, n, n + |body|) == body;
  }

  lemma {:induction false} FrameOfPacket(id: Int32, data: Bytes, after: Bytes)
    requires Sendable(data)
    ensures ReadFrame(Packet(id, data) + after)
            == Complete(id, Write(id) + data, |Write(id)|, |Packet(id, data)|)
    ensures (Write(id) + data)[|Write(id)|..] == data
  {
    hide Parse, VarInt, ReadFrame;
    var body := Write(id) + data;
    VarIntRoundTrip(id, [], data);
    assert ([] + Write(id) + data)[0..] == body;
    FrameOfBytes(body, after);
    assert Write(|body|) + body + after == Packet(id, data) + after;
  }

  datatype Message = Message(id: Int32, data: Bytes)

  function Stream(messages: seq<Message>): Bytes
  {
    if messages == [] then [] else Packet(messages[0].id, messages[0].data) + Stream(messages[1..])
  }

  /** Back-to-back packets can be cut apart in one way only. */
  lemma {:induction false} StreamsSplitUniquely(ms: seq<Message>, ns: seq<Message>)
    requires forall m | m in ms + ns :: Sendable(m.data)
    requires Stream(ms) == Stream(ns)
    ensures ms == ns
  {
    if ms != [] && ns != [] {
      assert ms[0] in ms + ns && ns[0] in ms + ns;
      var m, n := ms[0], ns[0];
      FrameOfPacket(m.id, m.data, Stream(ms[1..]));
      FrameOfPacket(n.id, n.data, Stream(ns[1..]));
      assert Stream(ms)[|Packet(m.id, m.data)|..] == Stream(ms[1..]);
      assert Stream(ns)[|Packet(n.id, n.data)|..] == Stream(ns[1..]);
      assert forall x | x in ms[1..] + ns[1..] :: x in ms + ns;
      StreamsSplitUniquely(ms[1..], ns[1..]);
      assert ms == [m] + ms[1..] && ns == [n] + ns[1..];
    } else if ms != [] {
      NonEmptyStream(ms);
    } else if ns != [] {
      NonEmptyStream(ns);
    }
  }

  lemma {:induction false} NonEmptyStream(ms: seq<Message>)
    requires ms != []
    ensures Stream(ms) != []
  {
    assert |Packet(ms[0].id, ms[0].data)| > 0;
  }

  // ----- the reply handler -----

  datatype Outcome = Wait | Offline | Online(json: Bytes)

  /** One run of the `data` handler; `parses` says which byte strings are JSON it can use. */
  function OnData(buffer: Bytes, parses: Bytes -> bool): Outcome
  {
    match ReadFrame(buffer)
    case Complete(packetId, packetBuf, idSize, _) =>
      if packetId != 0 then Offline else OnPacket(packetBuf, idSize, parses)
    case Incomplete => Wait
    case Broken => Offline
  }

  function OnPacket(packetBuf: Bytes, idSize: nat, parses: Bytes -> bool): Outcome
    requires idSize <= |packetBuf|
  {
    match Parse(packetBuf[idSize..])
    case Read(jsonLen, jsonLenSize) =>
      var jsonStart := idSize + jsonLenSize;
      var jsonEnd := jsonStart + jsonLen;
      if |packetBuf| < jsonEnd then Wait
      else
        var json := Subarray(packetBuf, jsonStart, jsonEnd);
        if parses(json) then Online(json) else Offline
    case _ => Offline
  }

  /** A complete packet of any other kind ends the ping as offline, whatever it holds. */
  lemma {:induction false} OtherPacketIsOffline(id: Int32, data: Bytes, after: Bytes, parses: Bytes -> bool)
    requires Sendable(data) && id != 0
    ensures OnData(Packet(id, data) + after, parses) == Offline
  {
    hide ReadFrame, Packet, OnPacket;
    FrameOfPacket(id, data, after);
  }

  /** So does one without a readable id. */
  lemma {:induction false} UnreadableIdIsOffline(body: Bytes, after: Bytes, parses: Bytes -> bool)
    requires |body| < HALF_WORD && !Parse(body).Read?
    ensures OnData(Write(|body|) + body + after, parses) == Offline
  {
    hide ReadFrame, OnPacket, Write;
    FrameOfBytes(body, after);
  }

  /**
   The bytes taken as JSON from the data of a packet with id 0, when a length `n` of `size` bytes heads
   them. A negative length that reaches back beyond the start of the packet counts from its end.
   */
  ghost function Announced(data: Bytes, n: Int32, size: nat): Bytes
    requires size <= |data| && n <= |data| - size
  {
    if n >= 0 then data[size..size + n]
    else
      var end := |data| + 1 + size + n;
      if 1 + size + n < 0 && end > size then data[size..end] else []
  }

  lemma {:induction false} BehindId(data: Bytes, from: nat, to: nat)
    requires from <= to <= |data|
    ensures ([0] + data)[from + 1..to + 1] == data[from..to]
  {
  }

  lemma {:induction false} AnnouncedIsTaken(data: Bytes, n: Int32, size: nat)
    requires size <= |data| && n <= |data| - size
    ensures Subarray([0] + data, 1 + size, 1 + size + n) == Announced(data, n, size)
  {
    var back := |data| + 1 + size + n;
    if n >= 0 {
      BehindId(data, size, size + n);
    } else if 1 + size + n < 0 && back > size {
      BehindId(data, size, back);
      assert Clamp(1 + size + n, 1 + |data|) == back + 1;
    }
  }

  /**
   A complete packet with id 0, whatever its data: a string length that cannot be read ends the ping,
   one beyond the end of the packet is waited for, and any other announces the JSON.
   */
  lemma {:induction false} ZeroPacketIsAnswered(data: Bytes, after: Bytes, parses: Bytes -> bool)
    requires Sendable(data)
    ensures OnData(Packet(0, data) + after, parses) == (
              match Parse(data)
              case Read(n, size) =>
                if n > |data| - size then Wait
                else if parses(Announced(data, n, size)) then Online(Announced(data, n, size)) else Offline
              case _ => Offline)
  {
    ZeroFrame(data, after);
    BodyIsAnswered(data, parses);
    hide OnPacket, Parse, Packet, ReadFrame, Announced;
  }

  lemma {:induction false} ZeroFrame(data: Bytes, after: Bytes)
    requires Sendable(data)
    ensures ReadFrame(Packet(0, data) + after) == Complete(0, [0] + data, 1, |Packet(0, data)|)
  {
    assert Write(0) == [0];
    hide *;
    FrameOfPacket(0, data, after);
  }

  lemma {:induction false} BodyIsAnswered(data: Bytes, parses: Bytes -> bool)
    ensures OnPacket([0] + data, 1, parses) == (
              match Parse(data)
              case Read(n, size) =>
                if n > |data| - size then Wait
                else if parses(Announced(data, n, size)) then Online(Announced(data, n, size)) else Offline
              case _ => Offline)
  {
    hide Parse, Announced, Subarray;
    assert ([0] + data)[1..] == data;
    if Parse(data).Read? && Parse(data).value <= |data| - Parse(data).size {
      AnnouncedIsTaken(data, Parse(data).value, Parse(data).size);
    }
  }

  function StatusReply(json: Bytes): Bytes { Packet(0, WriteString(json)) }

  function LengthPrefix(json: Bytes): Bytes { Write(1 + |WriteString(json)|) }

  lemma {:induction false} ReplyShape(json: Bytes)
    ensures Write(0) == [0] && StatusReply(json) == LengthPrefix(json) + [0] + WriteString(json)
  {
  }

  /** A packet of which not all bytes are there yet is waited for, unless the cut is inside its length. */
  lemma {:induction false} PartialPacket(body: Bytes, k: nat, parses: Bytes -> bool)
    requires |body| < HALF_WORD && k < |Write(|body|) + body|
    ensures OnData((Write(|body|) + body)[..k], parses) == if k < |Write(|body|)| then Offline else Wait
  {
    hide Parse, Write, OnPacket;
    var prefix := Write(|body|);
    if k < |prefix| {
      CutVarInt(|body|, k);
      assert (prefix + body)[..k] == prefix[..k];
    } else {
      var rest := body[..k - |prefix|];
      VarIntRoundTrip(|body|, [], rest);
      assert (prefix + body)[..k] == [] + prefix + rest;
      assert (prefix + body)[..k][0..] == (prefix + body)[..k];
    }
  }

  /**
   A cut inside the length prefix looks like a broken VarInt; a later cut is waited for. A whole reply
   is answered with its JSON, or as offline if that does not parse.
   */
  lemma {:induction false} PartialReply(json: Bytes, k: nat, parses: Bytes -> bool)
    requires |json| + 11 < HALF_WORD && k <= |StatusReply(json)|
    ensures OnData(StatusReply(json)[..k], parses) ==
            if k < |LengthPrefix(json)| then Offline
            else if k < |StatusReply(json)| then Wait else if parses(json) then Online(json) else Offline
  {
    VarIntRoundTrip(|json|, [], json);
    ReplyShape(json);
    hide *;
    var body := [0] + WriteString(json);
    if k < |StatusReply(json)| {
      ReplyIsPacket(json);
      PartialPacket(body, k, parses);
    } else {
      WholeReply(json, parses);
      assert StatusReply(json)[..k] == StatusReply(json);
    }
  }

  lemma {:induction false} ReplyIsPacket(json: Bytes)
    requires |json| + 11 < HALF_WORD
    ensures var body := [0] + WriteString(json);
            && |body| < HALF_WORD && LengthPrefix(json) == Write(|body|)
            && StatusReply(json) == Write(|body|) + body
  {
    hide Write;
    VarIntRoundTrip(|json|, [], json);
    ReplyShape(json);
    assert LengthPrefix(json) + [0] + WriteString(json) == LengthPrefix(json) + ([0] + WriteString(json));
  }

  lemma {:induction false} WholeReply(json: Bytes, parses: Bytes -> bool)
    requires |json| + 11 < HALF_WORD
    ensures OnData(StatusReply(json), parses) == if parses(json) then Online(json) else Offline
  {
    var data := WriteString(json);
    VarIntRoundTrip(|json|, [], json);
    hide Parse, Write, OnData;
    assert ([] + Write(|json|) + json)[0..] == data;
    ZeroPacketIsAnswered(data, [], parses);
    var n := |Write(|json|)|;
    assert Announced(data, |json|, n) == json;
    assert Packet(0, data) + [] == StatusReply(json);
  }

  lemma {:induction false} CutVarInt(v: Int32, k: nat)
    requires k < |Write(v)|
    ensures Parse(Write(v)[..k]) == UnexpectedEnd
  {
    LengthOfWord(ToUint32(v));
    WrittenShape(ToUint32(v), []);
    assert Write(v) + [] == Write(v);
    var cut := Write(v)[..k];
    assert forall i | 0 <= i < |cut| :: More(cut[i]);
  }

  /** The handler on each chunk in turn, until it settles. */
  function Deliver(buffer: Bytes, chunks: seq<Bytes>, parses: Bytes -> bool): Outcome
    decreases |chunks|
  {
    if chunks == [] then Wait
    else
      match OnData(buffer + chunks[0], parses)
      case Wait => Deliver(buffer + chunks[0], chunks[1..], parses)
      case settled => settled
  }

  function Joined(chunks: seq<Bytes>): Bytes
  {
    if chunks == [] then [] else chunks[0] + Joined(chunks[1..])
  }

  /** A reply of which `k` bytes come, with the length prefix already there. */
  lemma {:induction false} DeliverRest(
    buffer: Bytes, chunks: seq<Bytes>, json: Bytes, k: nat, parses: Bytes -> bool)
    requires |json| + 11 < HALF_WORD && k <= |StatusReply(json)|
    requires buffer + Joined(chunks) == StatusReply(json)[..k]
    requires |LengthPrefix(json)| <= |buffer| < |StatusReply(json)|
    ensures Deliver(buffer, chunks, parses) ==
            if k < |StatusReply(json)| then Wait else if parses(json) then Online(json) else Offline
    decreases |chunks|
  {
    hide OnData, StatusReply, LengthPrefix;
    if chunks != [] {
      var next := buffer + chunks[0];
      assert next + Joined(chunks[1..]) == StatusReply(json)[..k];
      assert next == StatusReply(json)[..|next|];
      PartialReply(json, |next|, parses);
      if |next| < |StatusReply(json)| {
        DeliverRest(next, chunks[1..], json, k, parses);
      }
    }
  }

  /**
   A well-formed reply, of which `k` bytes come, under every way of cutting it into chunks: the
   handler gives up exactly if the first chunk ends inside the length prefix. Otherwise it waits for
   the rest, and once all is there it answers with the JSON, or as offline if that does not parse.
   */
  lemma {:induction false} ReplyUnderChunking(chunks: seq<Bytes>, json: Bytes, k: nat, parses: Bytes -> bool)
    requires |json| + 11 < HALF_WORD && k <= |StatusReply(json)|
    requires chunks != [] && Joined(chunks) == StatusReply(json)[..k]
    ensures Deliver([], chunks, parses) ==
            if |chunks[0]| < |LengthPrefix(json)| then Offline
            else if k < |StatusReply(json)| then Wait else if parses(json) then Online(json) else Offline
  {
    ReplyShape(json);
    hide OnData, StatusReply, LengthPrefix;
    var first := chunks[0];
    assert [] + first == first == StatusReply(json)[..|first|];
    PartialReply(json, |first|, parses);
    if |LengthPrefix(json)| <= |first| < |StatusReply(json)| {
      assert first + Joined(chunks[1..]) == StatusReply(json)[..k];
      DeliverRest(first, chunks[1..], json, k, parses);
    }
  }
}
