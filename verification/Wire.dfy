// The self-delimiting wire frame of pkg/protocol/wire.go.
module Wire {
  import opened Prelude

  const HEADER_SIZE := 10
  const MAX_PAYLOAD := 65535
  const MAGIC: Bytes := [0x52, 0x4d, 0x4e, 0x01]

  type Uint16 = x: int | 0 <= x < 0x1_0000

  datatype Frame = Frame(version: Uint16, msgType: Uint16, payload: Bytes)

  // Big-endian 16-bit words, as written and read by encoding/binary.
  function Word(v: Uint16): (b: Bytes)
    ensures |b| == 2
  {
    [v / 256, v % 256]
  }

  function Unword(b: Bytes): Uint16
    requires |b| == 2
  {
    var hi: int, lo: int := b[0], b[1];
    hi * 256 + lo
  }

  lemma UnwordRoundTrip(b: Bytes)
    requires |b| == 2
    ensures Word(Unword(b)) == b
  {
  }

  // The byte layout of a frame: magic, version, type, length, payload.
  function Layout(f: Frame): Bytes
    requires |f.payload| <= MAX_PAYLOAD
  {
    MAGIC + Word(f.version) + Word(f.msgType) + Word(|f.payload|) + f.payload
  }

  // What the receiver makes of a byte string.
  function Parse(data: Bytes): Result<Frame>
  {
    if |data| < HEADER_SIZE then Err("frame too short")
    else if data[..4] != MAGIC then Err("invalid magic")
    else
      var length := Unword(data[8..10]);
      if |data| < HEADER_SIZE + length then Err("payload truncated")
      else Ok(Frame(Unword(data[4..6]), Unword(data[6..8]), data[HEADER_SIZE..HEADER_SIZE + length]))
  }

  method PutUint16(buf: array<Byte>, at: nat, v: Uint16)
    requires at + 2 <= buf.Length
    modifies buf
    ensures buf[..] == old(buf[..at]) + Word(v) + old(buf[at + 2..])
  {
    buf[at] := v / 256;
    buf[at + 1] := v % 256;
  }

  method CopyAt(buf: array<Byte>, at: nat, src: Bytes)
    requires at + |src| <= buf.Length
    modifies buf
    ensures buf[..] == old(buf[..at]) + src + old(buf[at + |src|..])
  {
    forall i | 0 <= i < |src| {
      buf[at + i] := src[i];
    }
  }

  method Marshal(f: Frame) returns (r: Result<Bytes>)
    ensures r.Err? <==> |f.payload| > 65535
    ensures r.Ok? ==> r.value == Layout(f)
  {
    if |f.payload| > MAX_PAYLOAD {
      return Err("payload too large");
    }
    var buf := new Byte[HEADER_SIZE + |f.payload|];
    CopyAt(buf, 0, MAGIC);
    assert buf[..4] == MAGIC;
    PutUint16(buf, 4, f.version);
    assert buf[..6] == MAGIC + Word(f.version);
    PutUint16(buf, 6, f.msgType);
    assert buf[..8] == MAGIC + Word(f.version) + Word(f.msgType);
    PutUint16(buf, 8, |f.payload|);
    assert buf[..10] == MAGIC + Word(f.version) + Word(f.msgType) + Word(|f.payload|);
    CopyAt(buf, 10, f.payload);
    r := Ok(buf[..]);
  }

  method Unmarshal(data: Bytes) returns (r: Result<Frame>)
    ensures r == Parse(data)
  {
    if |data| < HEADER_SIZE {
      return Err("frame too short");
    }
    var magic := data[..4];
    if magic != MAGIC {
      return Err("invalid magic");
    }
    var version := Unword(data[4..6]);
    var msgType := Unword(data[6..8]);
    var length := Unword(data[8..10]);
    if |data| < HEADER_SIZE + length {
      return Err("payload truncated");
    }
    var payload := new Byte[length];
    CopyAt(payload, 0, data[HEADER_SIZE..HEADER_SIZE + length]);
    assert payload[..] == data[HEADER_SIZE..HEADER_SIZE + length];
    r := Ok(Frame(version, msgType, payload[..]));
  }

  lemma UnwordValue(b: Bytes)
    requires |b| == 2
    ensures Unword(b) == Value(b)
  {
    assert b[..1] == [b[0]] && b[..1][..0] == [];
    assert Value(b[..1]) == b[0];
  }

  lemma WordValue(v: Uint16)
    ensures Value(Word(v)) == v
  {
    UnwordValue(Word(v));
  }

  // The bytes of a frame: the magic, then version, type and payload length in two bytes each, the more significant
  // first, then the payload.
  lemma LayoutBytes(f: Frame)
    requires |f.payload| <= MAX_PAYLOAD
    ensures var b := Layout(f);
      && |b| == 10 + |f.payload| && b[..4] == [0x52, 0x4d, 0x4e, 0x01]
      && Value(b[4..6]) == f.version && Value(b[6..8]) == f.msgType && Value(b[8..10]) == |f.payload|
      && b[10..] == f.payload
  {
    var b := Layout(f);
    assert b[4..6] == Word(f.version) && b[6..8] == Word(f.msgType) && b[8..10] == Word(|f.payload|);
    WordValue(f.version);
    WordValue(f.msgType);
    WordValue(|f.payload|);
  }

  // Exactly which bytes are refused, in this order, and what the others are read as.
  lemma ParseBytes(data: Bytes)
    ensures var r := Parse(data);
      if |data| < 10 then r == Err("frame too short")
      else if data[..4] != [0x52, 0x4d, 0x4e, 0x01] then r == Err("invalid magic")
      else if |data| < 10 + Value(data[8..10]) then r == Err("payload truncated")
      else r.Ok? && r.value.version == Value(data[4..6]) && r.value.msgType == Value(data[6..8])
           && r.value.payload == data[10..10 + Value(data[8..10])]
  {
    if |data| >= 10 {
      UnwordValue(data[4..6]);
      UnwordValue(data[6..8]);
      UnwordValue(data[8..10]);
    }
  }

  // A frame is recovered from its own bytes whatever follows them.
  lemma ParseLayout(f: Frame, rest: Bytes)
    requires |f.payload| <= MAX_PAYLOAD
    ensures Parse(Layout(f) + rest) == Ok(f)
  {
  }

  // Writing back an accepted frame reproduces exactly the bytes it was read from.
  lemma LayoutOfParsed(data: Bytes)
    requires Parse(data).Ok?
    ensures var f := Parse(data).value;
      && |f.payload| <= MAX_PAYLOAD
      && HEADER_SIZE + |f.payload| <= |data|
      && Layout(f) == data[..HEADER_SIZE + |f.payload|]
  {
    var f := Parse(data).value;
    UnwordRoundTrip(data[4..6]);
    UnwordRoundTrip(data[6..8]);
    UnwordRoundTrip(data[8..10]);
    assert data[..4] + data[4..6] + data[6..8] + data[8..10] + data[10..10 + |f.payload|]
        == data[..HEADER_SIZE + |f.payload|];
  }

  // No frame's bytes are a proper prefix of another's.
  lemma PrefixFree(f: Frame, g: Frame)
    requires |f.payload| <= MAX_PAYLOAD && |g.payload| <= MAX_PAYLOAD
    requires Layout(f) <= Layout(g)
    ensures f == g
  {
    var rest := Layout(g)[|Layout(f)|..];
    assert Layout(f) + rest == Layout(g) == Layout(g) + [];
    ParseLayout(f, rest);
    ParseLayout(g, []);
  }

  // ---------- Streams of frames ----------

  function Stream(fs: seq<Frame>): Bytes
    requires forall f <- fs :: |f.payload| <= MAX_PAYLOAD
  {
    if fs == [] then [] else Layout(fs[0]) + Stream(fs[1..])
  }

  // Repeated unmarshalling: the frames read, and the bytes left when reading stops.
  function ReadAll(data: Bytes): (seq<Frame>, Bytes)
    decreases |data|
  {
    match Parse(data)
    case Err(_) => ([], data)
    case Ok(f) =>
      var (fs, left) := ReadAll(data[HEADER_SIZE + |f.payload|..]);
      ([f] + fs, left)
  }

  // Reading starts with the first frame and goes on with what follows it.
  lemma ReadsFirst(f: Frame, rest: Bytes)
    requires |f.payload| <= MAX_PAYLOAD
    ensures ReadAll(Layout(f) + rest) == ([f] + ReadAll(rest).0, ReadAll(rest).1)
  {
    ParseLayout(f, rest);
    assert |Layout(f)| == HEADER_SIZE + |f.payload|;
    assert (Layout(f) + rest)[HEADER_SIZE + |f.payload|..] == rest;
  }

  lemma {:induction false} StreamRoundTrip(fs: seq<Frame>)
    requires forall f <- fs :: |f.payload| <= MAX_PAYLOAD
    ensures ReadAll(Stream(fs)) == (fs, [])
  {
    if fs != [] {
      StreamRoundTrip(fs[1..]);
      ReadsFirst(fs[0], Stream(fs[1..]));
      assert [fs[0]] + fs[1..] == fs;
    }
  }

  // The frames read from any byte string, written back and followed by the leftover, are that string.
  ghost predicate Faithful(data: Bytes) {
    var (fs, left) := ReadAll(data);
    && (forall f <- fs :: |f.payload| <= MAX_PAYLOAD)
    && Stream(fs) + left == data
    && Parse(left).Err?
  }

  lemma StreamCons(f: Frame, fs: seq<Frame>, left: Bytes)
    requires |f.payload| <= MAX_PAYLOAD && forall g <- fs :: |g.payload| <= MAX_PAYLOAD
    ensures forall g <- [f] + fs :: |g.payload| <= MAX_PAYLOAD
    ensures Stream([f] + fs) + left == Layout(f) + (Stream(fs) + left)
  {
  }

  lemma ReadAllCons(data: Bytes, f: Frame, tail: Bytes)
    requires Parse(data) == Ok(f) && HEADER_SIZE + |f.payload| <= |data|
    requires tail == data[HEADER_SIZE + |f.payload|..]
    ensures ReadAll(data) == ([f] + ReadAll(tail).0, ReadAll(tail).1)
  {
  }

  // An accepted string is its first frame followed by the rest.
  lemma FirstFrame(data: Bytes, f: Frame)
    requires Parse(data) == Ok(f)
    ensures |f.payload| <= MAX_PAYLOAD && HEADER_SIZE + |f.payload| <= |data|
    ensures data == Layout(f) + data[HEADER_SIZE + |f.payload|..]
  {
    LayoutOfParsed(data);
    assert data == data[..HEADER_SIZE + |f.payload|] + data[HEADER_SIZE + |f.payload|..];
  }

  lemma FaithfulEnd(data: Bytes)
    requires Parse(data).Err?
    ensures Faithful(data)
  {
  }

  lemma {:induction false} ReadAllLosesNothing(data: Bytes)
    ensures Faithful(data)
    decreases |data|
  {
    var parsed := Parse(data);
    if parsed.Err? {
      FaithfulEnd(data);
    } else {
      var f := parsed.value;
      FirstFrame(data, f);
      var tail := data[HEADER_SIZE + |f.payload|..];
      ReadAllLosesNothing(tail);
      ReadAllCons(data, f, tail);
      StreamCons(f, ReadAll(tail).0, ReadAll(tail).1);
    }
  }
}
