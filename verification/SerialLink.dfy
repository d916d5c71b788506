/** The byte-stuffed serial link of ref/SerialLink.c: writer and reader of framed messages. */
module SerialLink {
  import opened Options
  import opened Checksums

  const START: Byte := 0x01
  const ESC: Byte := 0x02
  const END: Byte := 0x03

  /** Lengths travel in 16 bits. */
  const LIMIT: nat := 65536

  datatype Message = Message(kind: Byte, data: seq<Byte>)

  // ---------------------------------------------------------------- writer

  function High(n: nat): Byte
    requires n < LIMIT
  {
    ToByte(n / 256)
  }

  function Low(n: nat): Byte
  {
    ToByte(n % 256)
  }

  /** u8SL_CalculateCRC. */
  function Check(kind: Byte, data: seq<Byte>): Byte
    requires |data| < LIMIT
  {
    XorAll(Xor(Xor(kind, High(|data|)), Low(|data|)), data)
  }

  /** iSL_TxByte of an ordinary byte. */
  function Stuff(b: Byte): (s: seq<Byte>)
    ensures s != [] && START !in s && END !in s
  {
    if b < 0x10 then [ESC, b ^ 0x10] else [b]
  }

  function StuffAll(data: seq<Byte>): (s: seq<Byte>)
    ensures START !in s && END !in s
    decreases |data|
  {
    if data == [] then [] else Stuff(data[0]) + StuffAll(data[1..])
  }

  /** What comes between START and payload. */
  function Fields(kind: Byte, n: nat, check: Byte): (s: seq<Byte>)
    requires n < LIMIT
  {
    (Stuff(kind) + Stuff(High(n))) + (Stuff(Low(n)) + Stuff(check))
  }

  /** A frame with an arbitrary check byte. */
  function FrameBytes(kind: Byte, data: seq<Byte>, check: Byte): seq<Byte>
    requires |data| < LIMIT
  {
    [START] + (Fields(kind, |data|, check) + (StuffAll(data) + [END]))
  }

  /** vSL_WriteMessage. */
  function Encode(m: Message): seq<Byte>
    requires |m.data| < LIMIT
  {
    FrameBytes(m.kind, m.data, Check(m.kind, m.data))
  }

  /** Main result: bit `k` of the check byte is set if and only if an odd number of the type, the two bytes
      of the length and the payload have it. */
  lemma CheckCountsBits(kind: Byte, data: seq<Byte>, high: Byte, low: Byte, k: nat)
    requires k < 8 && |data| < LIMIT && ToNat(high) * 256 + ToNat(low) == |data|
    ensures BitOf(Check(kind, data), k) <==> CountBit([kind, high, low] + data, k) % 2 == 1
  {
    hide Xor, XorAll, High, Low, ToNat, BitOf, CountBit;
    var n := |data|;
    TwoBytes(high, low);
    var all := [kind, high, low] + data;
    assert all[1..] == [high, low] + data && all[1..][1..] == [low] + data && all[1..][1..][1..] == data;
    XorCountsBits(Xor(Xor(kind, high), low), data, k);
    BitOfXor(Xor(kind, high), low, k);
    BitOfXor(kind, high, k);
    CountsNext(all, k);
    CountsNext(all[1..], k);
    CountsNext(all[1..][1..], k);
  }

  lemma CountsNext(s: seq<Byte>, k: nat)
    requires k < 8 && s != []
    ensures CountBit(s, k) == (if BitOf(s[0], k) then 1 else 0) + CountBit(s[1..], k)
  {
  }

  lemma TwoBytes(high: Byte, low: Byte)
    ensures ToNat(high) * 256 + ToNat(low) < LIMIT
    ensures High(ToNat(high) * 256 + ToNat(low)) == high && Low(ToNat(high) * 256 + ToNat(low)) == low
  {
    hide ToNat, ToByte;
    ByteOfNat(high);
    ByteOfNat(low);
  }

  /** The loop of u8SL_CalculateCRC, over the first `n` bytes of the caller's memory. */
  method CalculateCrc(kind: Byte, n: nat, mem: array<Byte>) returns (crc: Byte)
    requires n < LIMIT && n <= mem.Length
    ensures crc == Check(kind, mem[..n])
  {
    hide Xor, XorAll, High, Low;
    crc := Xor(Xor(kind, High(n)), Low(n));
    var i := 0;
    assert mem[0..n] == mem[..n];
    while i < n
      invariant i <= n && XorAll(crc, mem[i..n]) == Check(kind, mem[..n])
    {
      XorNext(crc, mem[i..n]);
      assert mem[i..n][1..] == mem[i + 1..n];
      crc := Xor(crc, mem[i]);
      i := i + 1;
    }
    assert mem[n..n] == [];
    XorNext(crc, []);
  }

  /** As much of `s` as there is room for. */
  function Fit(s: seq<Byte>, room: nat): (f: seq<Byte>)
    ensures |f| == if |s| <= room then |s| else room
  {
    if |s| <= room then s else s[..room]
  }

  /** Writing `a` and then, if that went well, `b`, is writing both. */
  lemma FitAppend(sent: seq<Byte>, a: seq<Byte>, b: seq<Byte>, room: nat)
    ensures |a| <= room ==> (sent + Fit(a, room)) + Fit(b, room - |a|) == sent + Fit(a + b, room)
    ensures |a| > room ==> sent + Fit(a, room) == sent + Fit(a + b, room)
  {
  }

  /** A serial port that accepts `room` more bytes before writing fails. */
  class Port {
    var sent: seq<Byte>
    var room: nat

    /** serial_write. */
    method Write(b: Byte) returns (ok: bool)
      modifies this
      ensures ok == (old(room) > 0) && room == old(room) - |Fit([b], old(room))|
      ensures sent == old(sent) + Fit([b], old(room))
    {
      ok := room > 0;
      if ok {
        sent, room := sent + [b], room - 1;
      }
    }

    /** iSL_TxByte. */
    method TxByte(special: bool, b: Byte) returns (ok: bool)
      modifies this
      ensures var s := if special then [b] else Stuff(b);
              ok == (|s| <= old(room)) && room == old(room) - |Fit(s, old(room))| &&
              sent == old(sent) + Fit(s, old(room))
    {
      var c := b;
      if !special && b < 0x10 {
        c := b ^ 0x10;
        ok := Write(ESC);
        if !ok {
          return;
        }
      }
      ok := Write(c);
    }

    /** The payload loop of vSL_WriteMessage. */
    method TxPayload(data: seq<Byte>) returns (ok: bool)
      modifies this
      ensures var s := StuffAll(data);
              ok == (|s| <= old(room)) && room == old(room) - |Fit(s, old(room))| &&
              sent == old(sent) + Fit(s, old(room))
    {
      hide Stuff, StuffAll, Fit;
      var i := 0;
      ok := true;
      StuffNone(data);
      while i < |data|
        invariant i <= |data| && |StuffAll(data[i..])| <= |StuffAll(data)|
        invariant room - |Fit(StuffAll(data[i..]), room)| == old(room) - |Fit(StuffAll(data), old(room))|
        invariant (|StuffAll(data[i..])| <= room) == (|StuffAll(data)| <= old(room))
        invariant sent + Fit(StuffAll(data[i..]), room) == old(sent) + Fit(StuffAll(data), old(room))
      {
        StuffNext(data, i);
        FitAppend(sent, Stuff(data[i]), StuffAll(data[i + 1..]), room);
        ok := TxByte(false, data[i]);
        if !ok {
          return;
        }
        i := i + 1;
      }
    }

    method TxPair(a: Byte, b: Byte) returns (ok: bool)
      modifies this
      ensures var s := Stuff(a) + Stuff(b);
              ok == (|s| <= old(room)) && room == old(room) - |Fit(s, old(room))| &&
              sent == old(sent) + Fit(s, old(room))
    {
      hide Stuff;
      FitAppend(sent, Stuff(a), Stuff(b), room);
      ok := TxByte(false, a);
      if ok {
        ok := TxByte(false, b);
      }
    }

    /** The four fields vSL_WriteMessage sends before the payload. */
    method TxFields(kind: Byte, n: nat, check: Byte) returns (ok: bool)
      requires n < LIMIT
      modifies this
      ensures var s := Fields(kind, n, check);
              ok == (|s| <= old(room)) && room == old(room) - |Fit(s, old(room))| &&
              sent == old(sent) + Fit(s, old(room))
    {
      hide Stuff;
      FitAppend(sent, Stuff(kind) + Stuff(High(n)), Stuff(Low(n)) + Stuff(check), room);
      ok := TxPair(kind, High(n));
      if ok {
        ok := TxPair(Low(n), check);
      }
    }

    /** vSL_WriteMessage: what goes out is the encoding, cut off where writing fails. */
    method WriteMessage(m: Message, mem: array<Byte>)
      requires |m.data| < LIMIT && |m.data| <= mem.Length && mem[..|m.data|] == m.data
      modifies this
      ensures sent == old(sent) + Fit(Encode(m), old(room))
    {
      hide Stuff, StuffAll, Fields, Fit;
      var n := |m.data|;
      var check := CalculateCrc(m.kind, n, mem);
      ghost var fields, payload := Fields(m.kind, n, check), StuffAll(m.data);
      FitAppend(sent, [START], fields + (payload + [END]), room);
      var ok := TxByte(true, START);
      if ok {
        FitAppend(sent, fields, payload + [END], room);
        ok := TxFields(m.kind, n, check);
        if ok {
          FitAppend(sent, payload, [END], room);
          ok := TxPayload(m.data);
          if ok {
            ok := TxByte(true, END);
          }
        }
      }
    }
  }

  lemma StuffNext(data: seq<Byte>, i: nat)
    requires i < |data|
    ensures StuffAll(data[i..]) == Stuff(data[i]) + StuffAll(data[i + 1..])
  {
    assert data[i..][1..] == data[i + 1..];
  }

  lemma StuffNone(data: seq<Byte>)
    ensures StuffAll(data[|data|..]) == [] && data[0..] == data
  {
  }

  // ---------------------------------------------------------------- reader

  datatype RxState = WaitStart | WaitKind | WaitHigh | WaitLow | WaitCheck | WaitData

  /** Everything bSL_ReadMessage keeps between bytes: its static variables and what its callers'
      pointers refer to.  `mem` is the memory from the message buffer on. */
  datatype Reader = Reader(rx: RxState, check: Byte, bytes: nat, inEsc: bool, kind: Byte, length: nat, mem: seq<Byte>)

  /** Counters and the caller's memory are as wide as the source declares them. */
  ghost predicate Sized(r: Reader)
  {
    r.bytes < LIMIT && r.length < LIMIT && |r.mem| >= LIMIT
  }

  /** The message a reader has just accepted. */
  function Received(r: Reader): Message
    requires r.length <= |r.mem|
  {
    Message(r.kind, r.mem[..r.length])
  }

  /** An unescaped ordinary byte. */
  function Take(r: Reader, b: Byte, max: nat): (r': Reader)
    requires Sized(r)
    ensures Sized(r')
  {
    match r.rx
    case WaitStart => r
    case WaitKind => r.(kind := b, rx := WaitHigh)
    case WaitHigh => r.(length := ToNat(b) * 256, rx := WaitLow)
    case WaitLow =>
      var length := (r.length + ToNat(b)) % LIMIT;
      r.(length := length, rx := if length > max then WaitStart else WaitCheck)
    case WaitCheck => r.(check := b, rx := WaitData)
    case WaitData =>
      if r.bytes < r.length then r.(mem := r.mem[r.bytes := b], bytes := r.bytes + 1) else r
  }

  /** END: is the check byte right for what has been stored? */
  predicate Accepts(r: Reader)
    requires Sized(r)
  {
    r.check == Check(r.kind, r.mem[..r.length])
  }

  /** One turn of the loop of bSL_ReadMessage; true when it returns with a message. */
  function Step(r: Reader, b: Byte, max: nat): (p: (Reader, bool))
    requires Sized(r)
    ensures Sized(p.0)
  {
    if b == START then (r.(bytes := 0, inEsc := false, rx := WaitKind), false)
    else if b == ESC then (r.(inEsc := true), false)
    else if b == END then
      if Accepts(r) then (r.(rx := WaitStart), true) else (r, false)
    else
      (Take(r.(inEsc := false), if r.inEsc then b ^ 0x10 else b, max), false)
  }

  /** The reader after a whole input, called again whenever it returns. */
  function Run(r: Reader, input: seq<Byte>, max: nat): (r': Reader)
    requires Sized(r)
    ensures Sized(r')
    decreases |input|
  {
    if input == [] then r else Run(Step(r, input[0], max).0, input[1..], max)
  }

  /** The messages it returns on the way. */
  function Decode(r: Reader, input: seq<Byte>, max: nat): (ms: seq<Message>)
    requires Sized(r)
    decreases |input|
  {
    if input == [] then []
    else
      var (r', done) := Step(r, input[0], max);
      (if done then [Received(r')] else []) + Decode(r', input[1..], max)
  }

  lemma {:induction false} RunAppend(r: Reader, a: seq<Byte>, b: seq<Byte>, max: nat)
    requires Sized(r)
    ensures Run(r, a + b, max) == Run(Run(r, a, max), b, max)
    ensures Decode(r, a + b, max) == Decode(r, a, max) + Decode(Run(r, a, max), b, max)
    decreases |a|
  {
    if a == [] {
      assert a + b == b;
    } else {
      assert (a + b)[1..] == a[1..] + b;
      RunAppend(Step(r, a[0], max).0, a[1..], b, max);
    }
  }

  lemma RunOne(r: Reader, b: Byte, rest: seq<Byte>, max: nat)
    requires Sized(r)
    ensures Run(r, [b] + rest, max) == Run(Step(r, b, max).0, rest, max)
    ensures !Step(r, b, max).1 ==> Decode(r, [b] + rest, max) == Decode(Step(r, b, max).0, rest, max)
    ensures Step(r, b, max).1 ==>
              Decode(r, [b] + rest, max) == [Received(Step(r, b, max).0)] + Decode(Step(r, b, max).0, rest, max)
  {
    assert ([b] + rest)[1..] == rest;
  }

  /** Stuffing is undone by the reader. */
  lemma StuffedByte(r: Reader, b: Byte, rest: seq<Byte>, max: nat)
    requires Sized(r) && !r.inEsc
    ensures Run(r, Stuff(b) + rest, max) == Run(Take(r, b, max), rest, max)
    ensures Decode(r, Stuff(b) + rest, max) == Decode(Take(r, b, max), rest, max)
    ensures !Take(r, b, max).inEsc
  {
    hide Run, Decode;
    UnstuffByte(b);
    if b < 0x10 {
      assert Stuff(b) + rest == [ESC] + ([b ^ 0x10] + rest);
      RunOne(r, ESC, [b ^ 0x10] + rest, max);
      var r1 := r.(inEsc := true);
      RunOne(r1, b ^ 0x10, rest, max);
      assert r1.(inEsc := false) == r;
    } else {
      RunOne(r, b, rest, max);
      assert r.(inEsc := false) == r;
    }
  }

  lemma UnstuffByte(b: Byte)
    ensures b < 0x10 ==> (b ^ 0x10) ^ 0x10 == b && (b ^ 0x10) >= 0x10
  {
  }

  /** Memory with `data` written at `at`. */
  function Store(mem: seq<Byte>, at: nat, data: seq<Byte>): (m: seq<Byte>)
    requires at + |data| <= |mem|
    ensures |m| == |mem|
  {
    mem[..at] + data + mem[at + |data|..]
  }

  lemma StoreStep(mem: seq<Byte>, at: nat, data: seq<Byte>)
    requires data != [] && at + |data| <= |mem|
    ensures Store(mem[at := data[0]], at + 1, data[1..]) == Store(mem, at, data)
  {
  }

  lemma StoreNothing(mem: seq<Byte>, at: nat)
    requires at <= |mem|
    ensures Store(mem, at, []) == mem
  {
  }

  /** Inside a frame the payload bytes are stored one after the other. */
  lemma {:induction false} StuffedPayload(r: Reader, data: seq<Byte>, rest: seq<Byte>, max: nat)
    requires Sized(r) && !r.inEsc && r.rx == WaitData && r.bytes + |data| <= r.length
    ensures var r' := r.(mem := Store(r.mem, r.bytes, data), bytes := r.bytes + |data|);
            Run(r, StuffAll(data) + rest, max) == Run(r', rest, max) &&
            Decode(r, StuffAll(data) + rest, max) == Decode(r', rest, max)
    decreases |data|
  {
    hide Run, Decode, Stuff, Store;
    if data == [] {
      StoreNothing(r.mem, r.bytes);
      assert [] + rest == rest;
    } else {
      assert StuffAll(data) + rest == Stuff(data[0]) + (StuffAll(data[1..]) + rest);
      StuffedByte(r, data[0], StuffAll(data[1..]) + rest, max);
      StoreStep(r.mem, r.bytes, data);
      StuffedPayload(Take(r, data[0], max), data[1..], rest, max);
    }
  }

  /** The reader just before the END of a frame. */
  function Loaded(r: Reader, kind: Byte, data: seq<Byte>, check: Byte): (r': Reader)
    requires Sized(r) && |data| < LIMIT
    ensures Sized(r')
  {
    Reader(WaitData, check, |data|, false, kind, |data|, Store(r.mem, 0, data))
  }

  lemma HighLow(n: nat)
    requires n < LIMIT
    ensures ToNat(High(n)) * 256 + ToNat(Low(n)) == n
  {
    hide ToByte, ToNat;
  }

  lemma FieldsAppend(kind: Byte, n: nat, check: Byte, rest: seq<Byte>)
    requires n < LIMIT
    ensures Fields(kind, n, check) + rest == Stuff(kind) + (Stuff(High(n)) + (Stuff(Low(n)) + (Stuff(check) + rest)))
  {
    hide Stuff;
  }

  lemma KindAndHigh(r: Reader, kind: Byte, n: nat, rest: seq<Byte>, max: nat)
    requires Sized(r) && !r.inEsc && r.rx == WaitKind && n < LIMIT
    ensures ToNat(High(n)) * 256 < LIMIT
    ensures var r' := r.(kind := kind, length := ToNat(High(n)) * 256, rx := WaitLow);
            Run(r, Stuff(kind) + (Stuff(High(n)) + rest), max) == Run(r', rest, max) &&
            Decode(r, Stuff(kind) + (Stuff(High(n)) + rest), max) == Decode(r', rest, max)
  {
    hide Run, Decode, Stuff, High, Low, Take, ToNat;
    HighLow(n);
    StuffedByte(r, kind, Stuff(High(n)) + rest, max);
    TakeOfField(r, kind, max);
    var r1 := r.(kind := kind, rx := WaitHigh);
    StuffedByte(r1, High(n), rest, max);
    TakeOfField(r1, High(n), max);
  }

  lemma LowAndCheck(r: Reader, n: nat, check: Byte, rest: seq<Byte>, max: nat)
    requires Sized(r) && !r.inEsc && r.rx == WaitLow && n < LIMIT && n <= max && r.length == ToNat(High(n)) * 256
    ensures var r' := r.(length := n, check := check, rx := WaitData);
            Run(r, Stuff(Low(n)) + (Stuff(check) + rest), max) == Run(r', rest, max) &&
            Decode(r, Stuff(Low(n)) + (Stuff(check) + rest), max) == Decode(r', rest, max)
  {
    hide Run, Decode, Stuff, High, Low, Take, ToNat;
    HighLow(n);
    StuffedByte(r, Low(n), Stuff(check) + rest, max);
    TakeOfField(r, Low(n), max);
    var r1 := r.(length := n, rx := WaitCheck);
    StuffedByte(r1, check, rest, max);
    TakeOfField(r1, check, max);
  }

  /** From any state whatsoever, START and the fields prepare the reader for the payload. */
  lemma FieldsLoad(r: Reader, kind: Byte, n: nat, check: Byte, rest: seq<Byte>, max: nat)
    requires Sized(r) && n <= max && n < LIMIT
    ensures var r' := Reader(WaitData, check, 0, false, kind, n, r.mem);
            Run(r, [START] + (Fields(kind, n, check) + rest), max) == Run(r', rest, max) &&
            Decode(r, [START] + (Fields(kind, n, check) + rest), max) == Decode(r', rest, max)
  {
    hide Run, Decode, Stuff, High, Low, Fields, Step, Take, ToNat;
    RunOne(r, START, Fields(kind, n, check) + rest, max);
    StepOfStart(r, max);
    FieldsAppend(kind, n, check, rest);
    var r0 := r.(bytes := 0, inEsc := false, rx := WaitKind);
    KindAndHigh(r0, kind, n, Stuff(Low(n)) + (Stuff(check) + rest), max);
    LowAndCheck(r0.(kind := kind, length := ToNat(High(n)) * 256, rx := WaitLow), n, check, rest, max);
  }

  lemma StepOfStart(r: Reader, max: nat)
    requires Sized(r)
    ensures Step(r, START, max) == (r.(bytes := 0, inEsc := false, rx := WaitKind), false)
  {
  }

  lemma TakeOfField(r: Reader, b: Byte, max: nat)
    requires Sized(r)
    ensures r.rx == WaitKind ==> Take(r, b, max) == r.(kind := b, rx := WaitHigh)
    ensures r.rx == WaitHigh ==> Take(r, b, max) == r.(length := ToNat(b) * 256, rx := WaitLow)
    ensures r.rx == WaitLow && r.length + ToNat(b) < LIMIT && r.length + ToNat(b) <= max ==>
              Take(r, b, max) == r.(length := r.length + ToNat(b), rx := WaitCheck)
    ensures r.rx == WaitCheck ==> Take(r, b, max) == r.(check := b, rx := WaitData)
  {
    hide ToNat;
  }

  /** From any state whatsoever, a frame up to its END loads the message and returns nothing. */
  lemma FrameLoads(r: Reader, kind: Byte, data: seq<Byte>, check: Byte, rest: seq<Byte>, max: nat)
    requires Sized(r) && |data| <= max && |data| < LIMIT
    ensures var l := Loaded(r, kind, data, check); var head := [START] + (Fields(kind, |data|, check) + StuffAll(data));
            Run(r, head + rest, max) == Run(l, rest, max) && Decode(r, head + rest, max) == Decode(l, rest, max)
  {
    hide Run, Decode, Fields, StuffAll;
    var n := |data|;
    assert [START] + (Fields(kind, n, check) + StuffAll(data)) + rest
        == [START] + (Fields(kind, n, check) + (StuffAll(data) + rest));
    FieldsLoad(r, kind, n, check, StuffAll(data) + rest, max);
    StuffedPayload(Reader(WaitData, check, 0, false, kind, n, r.mem), data, rest, max);
  }

  /** A frame cut off before its END returns nothing, wherever it is cut. */
  lemma PartialFrameIsSilent(r: Reader, kind: Byte, data: seq<Byte>, check: Byte, k: nat, max: nat)
    requires Sized(r) && |data| < LIMIT && k < |FrameBytes(kind, data, check)|
    ensures Decode(r, FrameBytes(kind, data, check)[..k], max) == []
  {
    hide Fields, StuffAll;
    var f := FrameBytes(kind, data, check);
    assert END !in f[..|f| - 1] by {
      FieldsPlain(kind, |data|, check);
      assert f[..|f| - 1] == [START] + (Fields(kind, |data|, check) + StuffAll(data));
    }
    NoEndNoMessage(r, f[..k], max);
  }

  lemma FieldsPlain(kind: Byte, n: nat, check: Byte)
    requires n < LIMIT
    ensures END !in Fields(kind, n, check)
  {
  }

  /** Only END makes the reader return. */
  lemma {:induction false} NoEndNoMessage(r: Reader, input: seq<Byte>, max: nat)
    requires Sized(r) && END !in input
    ensures Decode(r, input, max) == []
    decreases |input|
  {
    if input != [] {
      NoEndNoMessage(Step(r, input[0], max).0, input[1..], max);
    }
  }

  lemma LoadedAccepts(r: Reader, kind: Byte, data: seq<Byte>, check: Byte)
    requires Sized(r) && |data| < LIMIT
    ensures var l := Loaded(r, kind, data, check);
            Accepts(l) == (check == Check(kind, data)) && Received(l) == Message(kind, data)
  {
    assert Store(r.mem, 0, data)[..|data|] == data;
  }

  /** Main result: from any state of the reader, a frame for a payload it has room for is returned
      if and only if its check byte is right, exactly at its last byte, and as the message sent. */
  lemma FrameIsReadExactly(r: Reader, kind: Byte, data: seq<Byte>, check: Byte, max: nat)
    requires Sized(r) && |data| <= max && |data| < LIMIT
    ensures Decode(r, FrameBytes(kind, data, check), max)
         == if check == Check(kind, data) then [Message(kind, data)] else []
  {
    hide Run, Decode, Fields, StuffAll, Accepts;
    var head := [START] + (Fields(kind, |data|, check) + StuffAll(data));
    assert FrameBytes(kind, data, check) == head + [END];
    FrameLoads(r, kind, data, check, [END], max);
    LoadedAccepts(r, kind, data, check);
    var l := Loaded(r, kind, data, check);
    assert [END] == [END] + [];
    RunOne(l, END, [], max);
    NothingDecoded(Step(l, END, max).0, max);
  }

  /** A frame damaged in one payload byte is never returned. */
  lemma DamagedFrameIsRejected(r: Reader, m: Message, i: nat, b: Byte, max: nat)
    requires Sized(r) && |m.data| <= max && |m.data| < LIMIT && i < |m.data| && b != m.data[i]
    ensures Decode(r, FrameBytes(m.kind, m.data[i := b], Check(m.kind, m.data)), max) == []
  {
    hide Run, Decode, FrameBytes, Xor, XorAll, High, Low, Stuff;
    SingleChange(Xor(Xor(m.kind, High(|m.data|)), Low(|m.data|)), m.data, i, b);
    FrameIsReadExactly(r, m.kind, m.data[i := b], Check(m.kind, m.data), max);
  }

  lemma NothingDecoded(r: Reader, max: nat)
    requires Sized(r)
    ensures Decode(r, [], max) == []
  {
  }

  function EncodeAll(ms: seq<Message>): seq<Byte>
    requires forall m :: m in ms ==> |m.data| < LIMIT
    decreases |ms|
  {
    if ms == [] then [] else Encode(ms[0]) + EncodeAll(ms[1..])
  }

  /** Main result: whatever state noise has left the reader in, a sequence of messages is read
      back as that sequence. */
  lemma {:induction false} RoundTrip(r: Reader, ms: seq<Message>, max: nat)
    requires Sized(r) && forall m :: m in ms ==> |m.data| <= max && |m.data| < LIMIT
    ensures Decode(r, EncodeAll(ms), max) == ms
    decreases |ms|
  {
    hide Encode, Run;
    if ms != [] {
      var m := ms[0];
      RunAppend(r, Encode(m), EncodeAll(ms[1..]), max);
      EncodedIsRead(r, m, max);
      RoundTrip(Run(r, Encode(m), max), ms[1..], max);
    }
  }

  lemma EncodedIsRead(r: Reader, m: Message, max: nat)
    requires Sized(r) && |m.data| <= max && |m.data| < LIMIT
    ensures Decode(r, Encode(m), max) == [m]
  {
    FrameIsReadExactly(r, m.kind, m.data, Check(m.kind, m.data), max);
  }

  lemma MessagesAfterNoise(r: Reader, noise: seq<Byte>, ms: seq<Message>, max: nat)
    requires Sized(r) && forall m :: m in ms ==> |m.data| <= max && |m.data| < LIMIT
    ensures Decode(r, noise + EncodeAll(ms), max) == Decode(r, noise, max) + ms
  {
    RunAppend(r, noise, EncodeAll(ms), max);
    RoundTrip(Run(r, noise, max), ms, max);
  }

  // ---------------------------------------------------------------- what a frame looks like

  /** No byte below 0x10 but ESC, and none behind ESC. */
  predicate Stuffed(s: seq<Byte>, esc: bool)
    decreases |s|
  {
    if s == [] then !esc
    else if s[0] == 0x02 then !esc && Stuffed(s[1..], true)
    else s[0] >= 0x10 && Stuffed(s[1..], false)
  }

  lemma {:induction false} StuffedAppend(a: seq<Byte>, b: seq<Byte>, esc: bool)
    requires Stuffed(a, esc) && Stuffed(b, false)
    ensures Stuffed(a + b, esc) && Unstuff(a + b, esc) == Unstuff(a, esc) + Unstuff(b, false)
    decreases |a|
  {
    hide Stuffed, Unstuff;
    StuffedNext(a, esc);
    StuffedNext(a + b, esc);
    if a == [] {
      assert a + b == b;
      assert Unstuff(a, esc) + Unstuff(b, false) == Unstuff(b, false);
    } else {
      assert (a + b)[1..] == a[1..] + b;
      StuffedAppend(a[1..], b, a[0] == 0x02);
      var c := if esc then a[0] ^ 0x10 else a[0];
      assert [c] + (Unstuff(a[1..], false) + Unstuff(b, false)) == [c] + Unstuff(a[1..], false) + Unstuff(b, false);
    }
  }

  lemma StuffedNext(s: seq<Byte>, esc: bool)
    ensures s == [] ==> (Stuffed(s, esc) <==> !esc) && Unstuff(s, esc) == []
    ensures s != [] && s[0] == 0x02 ==> (Stuffed(s, esc) <==> !esc && Stuffed(s[1..], true))
    ensures s != [] && s[0] == 0x02 ==> Unstuff(s, esc) == Unstuff(s[1..], true)
    ensures s != [] && s[0] != 0x02 ==> (Stuffed(s, esc) <==> s[0] >= 0x10 && Stuffed(s[1..], false))
    ensures s != [] && s[0] != 0x02 ==>
              Unstuff(s, esc) == [if esc then s[0] ^ 0x10 else s[0]] + Unstuff(s[1..], false)
  {
  }

  lemma StuffIsStuffed(b: Byte)
    ensures Stuffed(Stuff(b), false) && Unstuff(Stuff(b), false) == [b]
  {
    hide Stuffed, Unstuff;
    UnstuffByte(b);
    var s := Stuff(b);
    StuffedNext(s, false);
    StuffedNext([], false);
    if b < 0x10 {
      assert s == [ESC, b ^ 0x10];
      assert s[1..] == [b ^ 0x10] && s[1..][1..] == [];
      StuffedNext(s[1..], true);
      assert Unstuff(s[1..], true) == [b] + [];
    } else {
      assert s[1..] == [];
      assert Unstuff(s, false) == [b] + [];
    }
  }

  lemma {:induction false} StuffAllIsStuffed(data: seq<Byte>)
    ensures Stuffed(StuffAll(data), false) && Unstuff(StuffAll(data), false) == data
    decreases |data|
  {
    hide Stuff, Stuffed, Unstuff;
    if data == [] {
      NothingStuffed();
    } else {
      StuffIsStuffed(data[0]);
      StuffAllIsStuffed(data[1..]);
      StuffedAppend(Stuff(data[0]), StuffAll(data[1..]), false);
      assert data == [data[0]] + data[1..];
    }
  }

  lemma NothingStuffed()
    ensures Stuffed([], false) && Unstuff([], false) == []
  {
  }

  /** Main result: on the wire a message is 0x01, bytes of which none is below 0x10 but an 0x02 in front of
      another that is not, and 0x03; these are the type, the length with its high byte first, the check
      byte and the payload. */
  lemma EncodedLayout(m: Message, high: Byte, low: Byte)
    requires |m.data| < LIMIT && ToNat(high) * 256 + ToNat(low) == |m.data|
    ensures var e := Encode(m);
            && |e| >= 2 && e[0] == 0x01 && e[|e| - 1] == 0x03
            && Stuffed(e[1..|e| - 1], false)
            && Unstuff(e[1..|e| - 1], false) == [m.kind, high, low, Check(m.kind, m.data)] + m.data
  {
    hide Stuff, StuffAll, Stuffed, Unstuff, High, Low, Check, ToNat;
    TwoBytes(high, low);
    var check := Check(m.kind, m.data);
    var fields, payload := Fields(m.kind, |m.data|, check), StuffAll(m.data);
    var e := Encode(m);
    assert e == [START] + (fields + payload) + [END];
    assert e[1..|e| - 1] == fields + payload;
    StuffIsStuffed(m.kind);
    StuffIsStuffed(high);
    StuffIsStuffed(low);
    StuffIsStuffed(check);
    StuffAllIsStuffed(m.data);
    StuffedAppend(Stuff(m.kind), Stuff(high), false);
    StuffedAppend(Stuff(low), Stuff(check), false);
    StuffedAppend(Stuff(m.kind) + Stuff(high), Stuff(low) + Stuff(check), false);
    StuffedAppend(fields, payload, false);
    assert [m.kind] + [high] + ([low] + [check]) + m.data == [m.kind, high, low, check] + m.data;
  }

  // ---------------------------------------------------------------- any input between START and END

  /** The ordinary bytes of an input without START and END. */
  function Unstuff(s: seq<Byte>, esc: bool): seq<Byte>
    decreases |s|
  {
    if s == [] then []
    else if s[0] == ESC then Unstuff(s[1..], true)
    else [if esc then s[0] ^ 0x10 else s[0]] + Unstuff(s[1..], false)
  }

  function TakeAll(r: Reader, u: seq<Byte>, max: nat): (r': Reader)
    requires Sized(r)
    ensures Sized(r')
    decreases |u|
  {
    if u == [] then r else TakeAll(Take(r, u[0], max), u[1..], max)
  }

  lemma TakeKeepsEsc(r: Reader, b: Byte, max: nat, esc: bool)
    requires Sized(r)
    ensures Take(r.(inEsc := esc), b, max) == Take(r, b, max).(inEsc := esc)
  {
    match r.rx
    case WaitStart =>
    case WaitKind =>
    case WaitHigh =>
    case WaitLow =>
    case WaitCheck =>
    case WaitData =>
  }

  lemma {:induction false} RunUnstuffs(r: Reader, s: seq<Byte>, max: nat)
    requires Sized(r) && START !in s && END !in s
    ensures Run(r, s, max).(inEsc := false) == TakeAll(r.(inEsc := false), Unstuff(s, r.inEsc), max)
    decreases |s|
  {
    hide Take;
    if s != [] {
      var r' := Step(r, s[0], max).0;
      RunUnstuffs(r', s[1..], max);
      if s[0] != ESC {
        var b := if r.inEsc then s[0] ^ 0x10 else s[0];
        TakeKeepsEsc(r, b, max, false);
        assert Unstuff(s, r.inEsc)[1..] == Unstuff(s[1..], false);
        assert r'.inEsc == false;
      }
    }
  }

  /** The length the unstuffed bytes of a frame announce. */
  function LengthField(u: seq<Byte>): nat
    requires |u| >= 3
  {
    ToNat(u[1]) * 256 + ToNat(u[2])
  }

  /** A frame has begun whose length is not refused. */
  predicate Opens(u: seq<Byte>, max: nat) {
    |u| >= 4 && LengthField(u) <= max
  }

  /** The payload bytes that are stored: those that came, but no more than were announced. */
  function StoredPart(u: seq<Byte>): (d: seq<Byte>)
    requires |u| >= 4
    ensures |d| <= LengthField(u)
  {
    if |u| - 4 <= LengthField(u) then u[4..] else u[4..4 + LengthField(u)]
  }

  /** What the reader holds after START and the bytes `u`: the fields that came, and for the rest what
      was there before. */
  function Held(r: Reader, u: seq<Byte>, max: nat): (p: (Byte, nat, Byte, seq<Byte>))
    requires Sized(r)
    ensures p.1 < LIMIT <= |p.3|
  {
    var d := if Opens(u, max) then StoredPart(u) else [];
    (if |u| >= 1 then u[0] else r.kind,
     if |u| >= 3 then LengthField(u) else if |u| == 2 then ToNat(u[1]) * 256 else r.length,
     if Opens(u, max) then u[3] else r.check,
     Store(r.mem, 0, d))
  }

  lemma {:induction false} TakesPayload(r: Reader, u: seq<Byte>, max: nat)
    requires Sized(r) && r.rx == WaitData && r.bytes <= r.length
    ensures var d := if |u| <= r.length - r.bytes then u else u[..r.length - r.bytes];
            TakeAll(r, u, max) == r.(mem := Store(r.mem, r.bytes, d), bytes := r.bytes + |d|)
    decreases |u|
  {
    hide Store;
    var d := if |u| <= r.length - r.bytes then u else u[..r.length - r.bytes];
    if u == [] {
      StoreNothing(r.mem, r.bytes);
    } else if r.bytes < r.length {
      StoreStep(r.mem, r.bytes, d);
      TakesPayload(Take(r, u[0], max), u[1..], max);
      assert d[1..] == if |u| - 1 <= r.length - r.bytes - 1 then u[1..] else u[1..][..r.length - r.bytes - 1];
    } else {
      StoreNothing(r.mem, r.bytes);
      TakesPayload(r, u[1..], max);
    }
  }

  lemma {:induction false} TakesNothing(r: Reader, u: seq<Byte>, max: nat)
    requires Sized(r) && r.rx == WaitStart
    ensures TakeAll(r, u, max) == r
    decreases |u|
  {
    if u != [] {
      TakesNothing(r, u[1..], max);
    }
  }

  lemma TakeNext(r: Reader, u: seq<Byte>, i: nat, max: nat)
    requires Sized(r) && i < |u|
    ensures TakeAll(r, u[i..], max) == TakeAll(Take(r, u[i], max), u[i + 1..], max)
  {
    hide Take;
    assert u[i..][1..] == u[i + 1..];
  }

  lemma TakeEnds(r: Reader, u: seq<Byte>, max: nat)
    requires Sized(r)
    ensures TakeAll(r, u[|u|..], max) == r
  {
  }

  lemma LengthFits(u: seq<Byte>)
    requires |u| >= 3
    ensures LengthField(u) < LIMIT
  {
    hide ToNat;
  }

  /** What the reader holds is what the closed form says. */
  lemma HeldExactly(r: Reader, u: seq<Byte>, max: nat)
    requires Sized(r) && r.rx == WaitKind && r.bytes == 0
    ensures var e := TakeAll(r, u, max); (e.kind, e.length, e.check, e.mem) == Held(r, u, max)
  {
    hide Store, TakeAll, ToNat;
    StoreNothing(r.mem, 0);
    assert u[0..] == u;
    TakeEnds(r, u, max);
    if |u| >= 1 {
      var r1 := Take(r, u[0], max);
      TakeNext(r, u, 0, max);
      TakeEnds(r1, u, max);
      if |u| >= 2 {
        var r2 := Take(r1, u[1], max);
        TakeNext(r1, u, 1, max);
        TakeEnds(r2, u, max);
        if |u| >= 3 {
          HeldFromLength(r2, u, max);
        }
      }
    }
  }

  lemma HeldFromLength(r: Reader, u: seq<Byte>, max: nat)
    requires Sized(r) && r.rx == WaitLow && r.bytes == 0 && |u| >= 3
    requires r.kind == u[0] && r.length == ToNat(u[1]) * 256
    ensures var e := TakeAll(r, u[2..], max); (e.kind, e.length, e.check, e.mem) == Held(r, u, max)
  {
    hide Store, TakeAll, ToNat;
    LengthFits(u);
    StoreNothing(r.mem, 0);
    var r3 := Take(r, u[2], max);
    TakeNext(r, u, 2, max);
    TakeEnds(r3, u, max);
    assert r3.length == LengthField(u);
    if LengthField(u) > max {
      TakesNothing(r3, u[3..], max);
    } else if |u| == 3 {
      TakeEnds(r3, u, max);
    } else {
      TakeNext(r3, u, 3, max);
      TakesPayload(r3.(check := u[3], rx := WaitData), u[4..], max);
      assert StoredPart(u) == if |u| - 4 <= r3.length then u[4..] else u[4..][..r3.length];
    }
  }

  /** Main result: whatever stands between START and END, and whatever the reader was doing before, END
      returns what the reader holds if and only if the check byte it holds is right for that. */
  lemma SegmentIsReadExactly(r: Reader, s: seq<Byte>, max: nat)
    requires Sized(r) && START !in s && END !in s
    ensures var (kind, length, check, mem) := Held(r, Unstuff(s, false), max);
            Decode(r, [START] + s + [END], max) ==
            if check == Check(kind, mem[..length]) then [Message(kind, mem[..length])] else []
  {
    hide Run, Decode, Held, TakeAll, Unstuff, Check;
    var r0 := r.(bytes := 0, inEsc := false, rx := WaitKind);
    var l := Run(r0, s, max);
    assert [START] + s + [END] == [START] + (s + [END]) && [END] == [END] + [];
    RunOne(r, START, s + [END], max);
    RunAppend(r0, s, [END], max);
    NoEndNoMessage(r0, s, max);
    RunOne(l, END, [], max);
    NothingDecoded(Step(l, END, max).0, max);
    RunUnstuffs(r0, s, max);
    HeldExactly(r0, Unstuff(s, false), max);
    HeldIgnores(r, r0, Unstuff(s, false), max);
  }

  lemma HeldIgnores(r: Reader, r0: Reader, u: seq<Byte>, max: nat)
    requires Sized(r) && Sized(r0) && r0 == r.(bytes := r0.bytes, inEsc := r0.inEsc, rx := r0.rx)
    ensures Held(r, u, max) == Held(r0, u, max)
  {
  }

  /** The bytes between START and END are a whole frame: all four fields, a length that is not refused,
      and at least the payload announced. */
  predicate Whole(u: seq<Byte>, max: nat) {
    Opens(u, max) && |u| >= 4 + LengthField(u)
  }

  /** So END returns a message that no frame announced exactly when the frame is not whole and the check
      byte held, an older one if the length was refused or missing, happens to be right for what older
      fields and older memory fill in. */
  lemma UnannouncedExactly(r: Reader, s: seq<Byte>, max: nat)
    requires Sized(r) && START !in s && END !in s
    ensures var u := Unstuff(s, false);
            var (kind, length, check, mem) := Held(r, u, max);
            var out := Decode(r, [START] + s + [END], max);
            if Whole(u, max) then
              var data := u[4..4 + LengthField(u)];
              out == if u[3] == Check(u[0], data) then [Message(u[0], data)] else []
            else (out != [] <==> check == Check(kind, mem[..length]))
  {
    hide Run, Decode, Unstuff, Check;
    var u := Unstuff(s, false);
    SegmentIsReadExactly(r, s, max);
    if Whole(u, max) {
      LengthFits(u);
      var n := LengthField(u);
      assert StoredPart(u) == u[4..4 + n];
      assert Store(r.mem, 0, StoredPart(u))[..n] == u[4..4 + n];
    }
  }

  /** An END that returns nothing is as good as absent. */
  lemma BadEndIsIgnored(r: Reader, rest: seq<Byte>, max: nat)
    requires Sized(r) && Decode(r, [END], max) == []
    ensures Run(r, [END] + rest, max) == Run(r, rest, max) && Decode(r, [END] + rest, max) == Decode(r, rest, max)
  {
    hide Run, Decode, Accepts;
    assert [END] == [END] + [];
    RunOne(r, END, [], max);
    RunOne(r, END, rest, max);
  }

  /** Behind an END that returns a message, what comes before the next START changes nothing that is held. */
  lemma NothingAfterEnd(r: Reader, s: seq<Byte>, max: nat)
    requires Sized(r) && Decode(r, [END], max) != [] && START !in s && END !in s
    ensures var e := Run(r, [END] + s, max);
            (e.kind, e.length, e.check, e.mem) == (r.kind, r.length, r.check, r.mem)
  {
    hide Run, Decode, Accepts, Take, TakeAll, Unstuff;
    assert [END] == [END] + [];
    RunOne(r, END, [], max);
    NothingDecoded(r, max);
    NothingDecoded(r.(rx := WaitStart), max);
    RunOne(r, END, s, max);
    var w := r.(rx := WaitStart);
    RunUnstuffs(w, s, max);
    TakesNothing(w.(inEsc := false), Unstuff(s, w.inEsc), max);
  }

  /** END is honoured in every state, so a second END returns the last message once more. */
  lemma SecondEndRepeats(r: Reader, n: nat, max: nat)
    requires Sized(r) && Accepts(r)
    ensures Decode(r, seq(n, _ => END), max) == seq(n, _ => Received(r))
    decreases n
  {
    hide Accepts;
    if n > 0 {
      var ends := seq(n, _ => END);
      assert ends[1..] == seq(n - 1, _ => END);
      AcceptsAgain(r);
      SecondEndRepeats(r.(rx := WaitStart), n - 1, max);
      assert [Received(r)] + seq(n - 1, _ => Received(r)) == seq(n, _ => Received(r));
    }
  }

  lemma AcceptsAgain(r: Reader)
    requires Sized(r)
    ensures Accepts(r.(rx := WaitStart)) == Accepts(r)
  {
  }

  /** A refused message that is returned all the same: its length is above the maximum, but the check
      byte that an earlier frame left is right for what lies in memory. */
  lemma RefusedIsReturned(r: Reader, kind: Byte, max: nat)
    requires Sized(r) && max < 0x1010 && r.check == Check(kind, r.mem[..0x1010]) && kind >= 0x10
    ensures Decode(r, [START, kind, 0x10, 0x10, END], max) == [Message(kind, r.mem[..0x1010])]
  {
    hide Run, Decode, Check, TakeAll, Store;
    var s := [kind, 0x10, 0x10];
    assert [START, kind, 0x10, 0x10, END] == [START] + s + [END];
    assert s[1..] == [0x10, 0x10] && s[1..][1..] == [0x10] && s[1..][1..][1..] == [];
    assert Unstuff(s[1..][1..], false) == [0x10] && Unstuff(s[1..], false) == [0x10, 0x10];
    assert Unstuff(s, false) == s && LengthField(s) == 0x1010;
    StoreNothing(r.mem, 0);
    SegmentIsReadExactly(r, s, max);
  }

  // ---------------------------------------------------------------- the message buffer

  /** The length is checked before any payload byte is stored. */
  ghost predicate Bounded(r: Reader, max: nat)
  {
    Sized(r) && (r.rx.WaitCheck? || r.rx.WaitData? ==> r.length <= max)
  }

  /** Main result: over every input the reader never writes past the maximum. */
  lemma {:induction false} BufferNeverOverrun(r: Reader, input: seq<Byte>, max: nat)
    requires Bounded(r, max)
    ensures Bounded(Run(r, input, max), max)
    ensures |Run(r, input, max).mem| == |r.mem|
    ensures max <= |r.mem| ==> Run(r, input, max).mem[max..] == r.mem[max..]
    decreases |input|
  {
    if input != [] {
      var r' := Step(r, input[0], max).0;
      assert max <= |r.mem| ==> r'.mem[max..] == r.mem[max..];
      BufferNeverOverrun(r', input[1..], max);
    }
  }

  /** The reader as the source runs it: fields that outlive the call, and the caller's memory. */
  class Link {
    var rx: RxState
    var check: Byte
    var bytes: nat
    var inEsc: bool
    var kind: Byte
    var length: nat
    const mem: array<Byte>

    function State(): Reader
      reads this, mem
    {
      Reader(rx, check, bytes, inEsc, kind, length, mem[..])
    }

    ghost predicate Valid()
      reads this, mem
    {
      Sized(State())
    }

    constructor (mem: array<Byte>)
      requires mem.Length >= LIMIT
      ensures Valid() && this.mem == mem && Bounded(State(), 0)
    {
      rx, check, bytes, inEsc, kind, length := WaitStart, 0, 0, false, 0, 0;
      this.mem := mem;
    }

    /** bSL_ReadMessage on the bytes that have arrived; `used` of them are consumed. */
    method ReadMessage(input: seq<Byte>, max: nat) returns (done: bool, used: nat)
      requires Valid()
      modifies this, mem
      ensures Valid() && used <= |input| && (!done ==> used == |input|)
      ensures State() == Run(old(State()), input[..used], max)
      ensures done ==> Decode(old(State()), input[..used], max) == [Received(State())]
      ensures !done ==> Decode(old(State()), input[..used], max) == []
    {
      used := 0;
      ghost var r := State();
      while used < |input|
        invariant Valid() && used <= |input|
        invariant State() == Run(r, input[..used], max) && Decode(r, input[..used], max) == []
      {
        hide Run, Decode, Step, Sized, Accepts;
        ghost var before := State();
        RunAppend(r, input[..used], [input[used]], max);
        assert input[..used + 1] == input[..used] + [input[used]];
        RunOne(before, input[used], [], max);
        assert [input[used]] + [] == [input[used]];
        NothingDecoded(Step(before, input[used], max).0, max);
        done := Receive(input[used], max);
        used := used + 1;
        RunNothing(State(), max);
        if done {
          return;
        }
      }
      assert input[..used] == input;
      done := false;
    }

    /** The body of its loop. */
    method Receive(arrived: Byte, max: nat) returns (done: bool)
      requires Valid()
      modifies this, mem
      ensures Valid() && Step(old(State()), arrived, max) == (State(), done)
    {
      hide Take, Check;
      var b := arrived;
      done := false;
      if b == START {
        bytes, inEsc, rx := 0, false, WaitKind;
      } else if b == ESC {
        inEsc := true;
      } else if b == END {
        var crc := CalculateCrc(kind, length, mem);
        if check == crc {
          rx, done := WaitStart, true;
        }
      } else {
        if inEsc {
          b, inEsc := b ^ 0x10, false;
        }
        TakeByte(b, max);
      }
    }

    /** The inner switch. */
    method TakeByte(b: Byte, max: nat)
      requires Valid()
      modifies this, mem
      ensures Valid() && State() == Take(old(State()), b, max)
    {
      hide ToNat, ToByte;
      match rx
      case WaitStart =>
      case WaitKind => kind, rx := b, WaitHigh;
      case WaitHigh => length, rx := ToNat(b) * 256, WaitLow;
      case WaitLow =>
        length := (length + ToNat(b)) % LIMIT;
        rx := if length > max then WaitStart else WaitCheck;
      case WaitCheck => check, rx := b, WaitData;
      case WaitData =>
        if bytes < length {
          mem[bytes] := b;
          bytes := bytes + 1;
        }
    }
  }

  lemma RunNothing(r: Reader, max: nat)
    requires Sized(r)
    ensures Run(r, [], max) == r
  {
  }
}
