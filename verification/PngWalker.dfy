/**
 The PNG check of packages/host-tools/scripts/smoke_bundle.py. A chunk is laid out as in
 section 5.3 of the W3C PNG Specification (Second Edition). The checksum and the inflater
 are parameters: any functions of those types.
 */
module PngWalker {
  import opened Options

  type Byte = b: int | 0 <= b < 256
  type Word = w: int | 0 <= w < 0x1_0000_0000
  type Bytes = seq<Byte>

  const SIGNATURE: Bytes := [0x89, 0x50, 0x4E, 0x47, 0x0D, 0x0A, 0x1A, 0x0A]
  const IHDR: Bytes := [0x49, 0x48, 0x44, 0x52]
  const IDAT: Bytes := [0x49, 0x44, 0x41, 0x54]
  const IEND: Bytes := [0x49, 0x45, 0x4E, 0x44]

  /** Big-endian 32-bit numbers, `struct.pack(">I", w)` and back. */
  function Pack(w: Word): (b: Bytes)
    ensures |b| == 4
  {
    [w / 0x100_0000, w / 0x1_0000 % 256, w / 256 % 256, w % 256]
  }

  function Unpack(b: Bytes): Word
    requires |b| == 4
  {
    (b[0] as int) * 0x100_0000 + (b[1] as int) * 0x1_0000 + (b[2] as int) * 256 + b[3] as int
  }

  lemma UnpackPack(w: Word)
    ensures Unpack(Pack(w)) == w
  {
    assert w / 256 / 256 == w / 0x1_0000 && w / 0x1_0000 / 256 == w / 0x100_0000;
  }

  lemma PackUnpack(b: Bytes)
    requires |b| == 4
    ensures Pack(Unpack(b)) == b
  {
    var w := Unpack(b);
    var b0: int, b1: int, b2: int := b[0], b[1], b[2];
    assert w / 256 == b0 * 0x1_0000 + b1 * 256 + b2;
    assert w / 0x1_0000 == b0 * 256 + b1;
    assert w / 0x100_0000 == b0;
  }

  // ----- Chunks

  datatype Chunk = Chunk(kind: Bytes, data: Bytes)

  predicate Valid(c: Chunk) {
    |c.kind| == 4 && |c.data| < 0x1_0000_0000
  }

  predicate AllValid(cs: seq<Chunk>) {
    forall i :: 0 <= i < |cs| ==> Valid(cs[i])
  }

  /** Length, type, data, checksum of type and data. */
  function Serialize(c: Chunk, crc: Bytes -> Word): Bytes
    requires Valid(c)
  {
    Pack(|c.data|) + c.kind + c.data + Pack(crc(c.kind + c.data))
  }

  function SerializeAll(cs: seq<Chunk>, crc: Bytes -> Word): Bytes
    requires AllValid(cs)
  {
    if cs == [] then [] else Serialize(cs[0], crc) + SerializeAll(cs[1..], crc)
  }

  /** The image data of every chunk behind the header. */
  function Compressed(cs: seq<Chunk>): Bytes {
    if |cs| <= 1 then []
    else Compressed(cs[..|cs| - 1]) + if cs[|cs| - 1].kind == IDAT then cs[|cs| - 1].data else []
  }

  predicate Header(c: Chunk) {
    c.kind == IHDR && |c.data| == 13
  }

  function Width(c: Chunk): Word
    requires |c.data| >= 8
  {
    Unpack(c.data[..4])
  }

  function Height(c: Chunk): Word
    requires |c.data| >= 8
  {
    Unpack(c.data[4..8])
  }

  /** Header first with positive dimensions, one empty terminator at the very end, pixels that inflate. */
  ghost predicate GoodImage(cs: seq<Chunk>, inflate: Bytes -> Option<Bytes>) {
    && |cs| >= 2
    && Header(cs[0]) && Width(cs[0]) >= 1 && Height(cs[0]) >= 1
    && cs[|cs| - 1] == Chunk(IEND, [])
    && (forall i :: 0 < i < |cs| - 1 ==> cs[i].kind != IEND)
    && Compressed(cs) != []
    && inflate(Compressed(cs)).Some? && inflate(Compressed(cs)).value != []
  }

  /** The payload is the signature followed by the serialization of a good image. */
  ghost predicate IsPng(payload: Bytes, crc: Bytes -> Word, inflate: Bytes -> Option<Bytes>) {
    exists cs :: AllValid(cs) && payload == SIGNATURE + SerializeAll(cs, crc) && GoodImage(cs, inflate)
  }

  // ----- The walker

  /** One chunk at a position: complete, and with the checksum it announces. */
  method ReadChunk(payload: Bytes, position: nat, crc: Bytes -> Word) returns (read: Option<Chunk>)
    requires position <= |payload|
    ensures read == ParseOne(payload[position..], crc)
  {
    ghost var rest := payload[position..];
    if position + 12 > |payload| { return None; }
    var size := Unpack(payload[position..position + 4]);
    assert payload[position..position + 4] == rest[..4];
    var chunkEnd := position + 12 + size;
    if chunkEnd > |payload| { return None; }
    var kind, data := payload[position + 4..position + 8], payload[position + 8..position + 8 + size];
    var expected := Unpack(payload[position + 8 + size..chunkEnd]);
    assert kind == rest[4..8] && data == rest[8..8 + size];
    assert payload[position + 8 + size..chunkEnd] == rest[8 + size..12 + size];
    if expected != crc(kind + data) { return None; }
    return Some(Chunk(kind, data));
  }

  /** Accepts exactly the images; terminates on every payload. */
  method ValidatePng(payload: Bytes, crc: Bytes -> Word, inflate: Bytes -> Option<Bytes>) returns (ok: bool)
    ensures ok <==> IsPng(payload, crc, inflate)
  {
    IsPngParsed(payload, crc, inflate);
    if |payload| < 8 || payload[..8] != SIGNATURE { return false; }
    ok := WalkChunks(payload, crc, inflate);
  }

  /** What one chunk does to the loop variables; false when it cannot stand where it is. */
  method Absorb(ghost done: seq<Chunk>, chunkIndex: nat, chunk: Chunk, atEnd: bool,
                width0: int, height0: int, compressed0: Bytes, sawIend0: bool)
    returns (good: bool, width: int, height: int, compressed: Bytes, sawIend: bool)
    requires chunkIndex == |done| && !sawIend0 && Walked(done, width0, height0, compressed0, sawIend0)
    ensures !good <==> Misplaced(done, chunk, atEnd)
    ensures good ==> Walked(done + [chunk], width, height, compressed, sawIend) && (sawIend ==> atEnd)
  {
    width, height, compressed, sawIend := width0, height0, compressed0, sawIend0;
    if chunkIndex == 0 {
      if chunk.kind != IHDR || |chunk.data| != 13 { return false, width, height, compressed, sawIend; }
      width, height := Unpack(chunk.data[..4]), Unpack(chunk.data[4..8]);
      WalkedFirst(chunk);
    } else if chunk.kind == IDAT {
      compressed := compressed + chunk.data;
    } else if chunk.kind == IEND {
      if |chunk.data| != 0 || !atEnd { return false, width, height, compressed, sawIend; }
      sawIend := true;
    }
    if chunkIndex > 0 {
      assert IDAT != IEND by { assert IDAT[1] != IEND[1]; }
      WalkedNext(done, chunk, width, height);
    }
    good := true;
  }

  /** A first chunk that is no header, or a terminator that does not end the payload. */
  predicate Misplaced(done: seq<Chunk>, chunk: Chunk, atEnd: bool) {
    if done == [] then !Header(chunk) else chunk.kind == IEND && (chunk.data != [] || !atEnd)
  }

  /** The loop over the chunks behind the signature, and the checks after it. */
  method WalkChunks(payload: Bytes, crc: Bytes -> Word, inflate: Bytes -> Option<Bytes>) returns (ok: bool)
    requires |payload| >= 8
    ensures ok <==> Parse(payload[8..], crc).Some? && GoodImage(Parse(payload[8..], crc).value, inflate)
  {
    hide Parse, ParseOne, GoodImage, Walked, Misplaced;
    var position, chunkIndex := 8, 0;
    var width, height := 0, 0;
    var compressed: Bytes := [];
    var sawIend := false;
    ghost var done: seq<Chunk> := [];
    NothingWalked();
    assert payload[8..] == payload[position..];
    assert Parse(payload[8..], crc).Some? ==> [] + Parse(payload[8..], crc).value == Parse(payload[8..], crc).value;
    while position < |payload|
      invariant 8 <= position <= |payload| && chunkIndex == |done|
      invariant Parse(payload[8..], crc) == Prefixed(done, Parse(payload[position..], crc))
      invariant Walked(done, width, height, compressed, sawIend)
      invariant sawIend ==> position == |payload|
    {
      var read := ReadChunk(payload, position, crc);
      if read.None? {
        ParseStops(payload[position..], crc);
        return false;
      }
      var chunk := read.value;
      var chunkEnd := position + 12 + |chunk.data|;
      ParseNext(payload, position, chunk, done, crc);
      var good: bool;
      good, width, height, compressed, sawIend :=
        Absorb(done, chunkIndex, chunk, chunkEnd == |payload|, width, height, compressed, sawIend);
      if !good {
        BadChunk(done, chunk, payload[chunkEnd..], crc, inflate);
        return false;
      }
      done := done + [chunk];
      position := chunkEnd;
      chunkIndex := chunkIndex + 1;
    }
    assert payload[position..] == [];
    ParseNothing(crc);
    assert done + [] == done;
    Verdict(done, width, height, compressed, sawIend, inflate);
    if width < 1 || height < 1 || compressed == [] || !sawIend { return false; }
    var decoded := inflate(compressed);
    ok := decoded.Some? && decoded.value != [];
  }

  /** What the loop variables say about the chunks behind them. */
  ghost predicate Walked(done: seq<Chunk>, width: int, height: int, compressed: Bytes, sawIend: bool) {
    && compressed == Compressed(done)
    && (done == [] ==> width == 0 && height == 0 && !sawIend)
    && (done != [] ==> Header(done[0]) && width == Width(done[0]) && height == Height(done[0]))
    && (sawIend ==> |done| >= 2 && done[|done| - 1] == Chunk(IEND, []))
    && (forall i :: 0 < i < |done| - 1 ==> done[i].kind != IEND)
    && (!sawIend && |done| >= 2 ==> done[|done| - 1].kind != IEND)
  }

  /** At the end of the payload the loop variables decide. */
  lemma Verdict(done: seq<Chunk>, width: int, height: int, compressed: Bytes, sawIend: bool,
                inflate: Bytes -> Option<Bytes>)
    requires Walked(done, width, height, compressed, sawIend)
    ensures GoodImage(done, inflate) <==>
            width >= 1 && height >= 1 && compressed != [] && sawIend
            && inflate(compressed).Some? && inflate(compressed).value != []
  {
  }

  lemma WalkedFirst(chunk: Chunk)
    requires Header(chunk)
    ensures Walked([] + [chunk], Width(chunk), Height(chunk), [], false)
  {
  }

  lemma {:induction false} WalkedNext(done: seq<Chunk>, chunk: Chunk, width: int, height: int)
    requires done != [] && Walked(done, width, height, Compressed(done), false)
    requires chunk.kind == IEND ==> chunk.data == []
    ensures Walked(done + [chunk], width, height,
                   Compressed(done) + if chunk.kind == IDAT then chunk.data else [], chunk.kind == IEND)
  {
    assert (done + [chunk])[..|done|] == done;
    assert IDAT != IEND by { assert IDAT[1] != IEND[1]; }
  }

  // ----- The grammar as a parser

  function ParseOne(t: Bytes, crc: Bytes -> Word): (r: Option<Chunk>)
    ensures r.Some? ==> Valid(r.value) && 12 + |r.value.data| <= |t|
  {
    if |t| < 12 then None
    else
      var size := Unpack(t[..4]);
      if 12 + size > |t| then None
      else
        var kind, data := t[4..8], t[8..8 + size];
        if Unpack(t[8 + size..12 + size]) != crc(kind + data) then None else Some(Chunk(kind, data))
  }

  function Prefixed(done: seq<Chunk>, rest: Option<seq<Chunk>>): Option<seq<Chunk>> {
    if rest.Some? then Some(done + rest.value) else None
  }

  function Parse(t: Bytes, crc: Bytes -> Word): Option<seq<Chunk>>
    decreases |t|
  {
    if t == [] then Some([])
    else
      var c := ParseOne(t, crc);
      if c.None? then None else Prefixed([c.value], Parse(t[12 + |c.value.data|..], crc))
  }

  lemma ParseNothing(crc: Bytes -> Word)
    ensures Parse([], crc) == Some([])
  {
  }

  lemma ParseStops(t: Bytes, crc: Bytes -> Word)
    requires t != [] && ParseOne(t, crc).None?
    ensures Parse(t, crc).None?
  {
  }

  lemma NothingWalked()
    ensures Walked([], 0, 0, [], false)
  {
  }

  /** Reading one more chunk moves it from the rest of the payload to the chunks read. */
  lemma ParseNext(payload: Bytes, position: nat, chunk: Chunk, done: seq<Chunk>, crc: Bytes -> Word)
    requires position < |payload| && ParseOne(payload[position..], crc) == Some(chunk)
    ensures Prefixed(done, Parse(payload[position..], crc))
         == Prefixed(done + [chunk], Parse(payload[position + 12 + |chunk.data|..], crc))
  {
    var rest := payload[position..];
    assert rest[12 + |chunk.data|..] == payload[position + 12 + |chunk.data|..];
    ParseHead(rest, chunk, payload[position + 12 + |chunk.data|..], crc);
    PrefixedTwice(done, chunk, Parse(payload[position + 12 + |chunk.data|..], crc));
  }

  lemma PrefixedTwice(done: seq<Chunk>, chunk: Chunk, rest: Option<seq<Chunk>>)
    ensures Prefixed(done, Prefixed([chunk], rest)) == Prefixed(done + [chunk], rest)
  {
    if rest.Some? { assert done + ([chunk] + rest.value) == done + [chunk] + rest.value; }
  }

  /** Every chunk list is recovered from its serialization ... */
  lemma {:induction false} ParseSerialized(cs: seq<Chunk>, crc: Bytes -> Word)
    requires AllValid(cs)
    ensures Parse(SerializeAll(cs, crc), crc) == Some(cs)
  {
    hide Parse, ParseOne, Serialize;
    if cs == [] {
      ParseNothing(crc);
    } else {
      var rest := SerializeAll(cs[1..], crc);
      ParseSerialized(cs[1..], crc);
      ParseOneSerialized(cs[0], rest, crc);
      ParseHead(Serialize(cs[0], crc) + rest, cs[0], rest, crc);
      assert [cs[0]] + cs[1..] == cs;
    }
  }

  lemma ParseHead(t: Bytes, c: Chunk, rest: Bytes, crc: Bytes -> Word)
    requires t != [] && ParseOne(t, crc) == Some(c) && t[12 + |c.data|..] == rest
    ensures Parse(t, crc) == Prefixed([c], Parse(rest, crc))
  {
  }

  lemma ParseOneSerialized(c: Chunk, rest: Bytes, crc: Bytes -> Word)
    requires Valid(c)
    ensures var t := Serialize(c, crc) + rest;
            t != [] && ParseOne(t, crc) == Some(c) && t[12 + |c.data|..] == rest
  {
    var t, n := Serialize(c, crc) + rest, |c.data|;
    assert t == Pack(n) + c.kind + c.data + Pack(crc(c.kind + c.data)) + rest;
    assert t[..4] == Pack(n) && t[4..8] == c.kind && t[8..8 + n] == c.data;
    assert t[8 + n..12 + n] == Pack(crc(c.kind + c.data));
    UnpackPack(n);
    UnpackPack(crc(c.kind + c.data));
  }

  /** ... and only a serialization parses. */
  lemma {:induction false} ParsedIsSerialized(t: Bytes, crc: Bytes -> Word)
    ensures var cs := Parse(t, crc);
            cs.Some? ==> AllValid(cs.value) && t == SerializeAll(cs.value, crc)
    decreases |t|
  {
    if t != [] && ParseOne(t, crc).Some? {
      var c := ParseOne(t, crc).value;
      var n := |c.data|;
      ParsedIsSerialized(t[12 + n..], crc);
      OneIsSerialized(t, crc);
      var rest := Parse(t[12 + n..], crc);
      if rest.Some? {
        assert ([c] + rest.value)[1..] == rest.value;
        assert t == t[..12 + n] + t[12 + n..];
      }
    }
  }

  lemma OneIsSerialized(t: Bytes, crc: Bytes -> Word)
    requires ParseOne(t, crc).Some?
    ensures var c := ParseOne(t, crc).value; t[..12 + |c.data|] == Serialize(c, crc)
  {
    var c := ParseOne(t, crc).value;
    var n := |c.data|;
    PackUnpack(t[..4]);
    PackUnpack(t[8 + n..12 + n]);
    assert t[..12 + n] == t[..4] + t[4..8] + t[8..8 + n] + t[8 + n..12 + n];
  }

  /** The chunk sequence behind a payload is unique. */
  lemma SerializationUnique(a: seq<Chunk>, b: seq<Chunk>, crc: Bytes -> Word)
    requires AllValid(a) && AllValid(b) && SerializeAll(a, crc) == SerializeAll(b, crc)
    ensures a == b
  {
    ParseSerialized(a, crc);
    ParseSerialized(b, crc);
  }

  lemma {:induction false} IsPngParsed(payload: Bytes, crc: Bytes -> Word, inflate: Bytes -> Option<Bytes>)
    ensures IsPng(payload, crc, inflate) <==>
            |payload| >= 8 && payload[..8] == SIGNATURE
            && Parse(payload[8..], crc).Some? && GoodImage(Parse(payload[8..], crc).value, inflate)
  {
    hide Parse, SerializeAll, GoodImage;
    if IsPng(payload, crc, inflate) {
      var cs :| AllValid(cs) && payload == SIGNATURE + SerializeAll(cs, crc) && GoodImage(cs, inflate);
      ParseSerialized(cs, crc);
      assert payload[8..] == SerializeAll(cs, crc);
    }
    if |payload| >= 8 && payload[..8] == SIGNATURE && Parse(payload[8..], crc).Some? {
      ParsedIsSerialized(payload[8..], crc);
      assert payload == payload[..8] + payload[8..];
    }
  }

  // ----- Why a rejected payload is no image

  lemma BadChunk(done: seq<Chunk>, chunk: Chunk, rest: Bytes, crc: Bytes -> Word, inflate: Bytes -> Option<Bytes>)
    requires Misplaced(done, chunk, rest == [])
    ensures var all := Prefixed(done + [chunk], Parse(rest, crc)); all.Some? ==> !GoodImage(all.value, inflate)
  {
    var tail := Parse(rest, crc);
    if tail.Some? {
      var all, i := done + [chunk] + tail.value, |done|;
      assert all[i] == chunk;
    }
  }
}
