/**
 Handing a wheel from the build job to the publishing job through four job outputs:
 the end of scripts/qualify_channel_bridge_wheel.py and the start of
 scripts/publish_channel_bridge_wheel.py. Base64 is that of section 4 of RFC 4648.
 SHA-256 and the JSON codec are parameters.
 */
module WheelHandoff {
  import opened Options

  type Byte = b: int | 0 <= b < 256
  type Bytes = seq<Byte>
  type Sextet = n: int | 0 <= n < 64

  const MAX_ARTIFACT_BYTES: nat := 245_760
  const SLICE: nat := 90_000
  const SLICES: nat := 4

  // ----- Base64

  function Symbol(n: Sextet): char {
    if n < 26 then ('A' as int + n) as char
    else if n < 52 then ('a' as int + (n - 26)) as char
    else if n < 62 then ('0' as int + (n - 52)) as char
    else if n == 62 then '+' else '/'
  }

  function SymbolValue(c: char): Option<Sextet> {
    if 'A' <= c <= 'Z' then Some(c as int - 'A' as int)
    else if 'a' <= c <= 'z' then Some(c as int - 'a' as int + 26)
    else if '0' <= c <= '9' then Some(c as int - '0' as int + 52)
    else if c == '+' then Some(62)
    else if c == '/' then Some(63)
    else None
  }

  lemma SymbolRoundTrip(n: Sextet)
    ensures SymbolValue(Symbol(n)) == Some(n) && Symbol(n) != '='
  {
  }

  function First(a: int): Sextet
    requires 0 <= a < 256
  {
    a / 4
  }

  function Second(a: int, b: int): Sextet
    requires 0 <= a < 256 && 0 <= b < 256
  {
    a % 4 * 16 + b / 16
  }

  function Third(b: int, c: int): Sextet
    requires 0 <= b < 256 && 0 <= c < 256
  {
    b % 16 * 4 + c / 64
  }

  function Fourth(c: int): Sextet
    requires 0 <= c < 256
  {
    c % 64
  }

  /** Three bytes become four sextets; a short last group becomes two or three. */
  function Sextets(data: Bytes): seq<Sextet> {
    if data == [] then []
    else if |data| == 1 then [First(data[0]), Second(data[0], 0)]
    else if |data| == 2 then [First(data[0]), Second(data[0], data[1]), Third(data[1], 0)]
    else Group(data[0], data[1], data[2]) + Sextets(data[3..])
  }

  function Group(a: Byte, b: Byte, c: Byte): (g: seq<Sextet>)
    ensures |g| == 4
  {
    [First(a), Second(a, b), Third(b, c), Fourth(c)]
  }

  lemma {:induction false} SextetCount(data: Bytes)
    ensures |Sextets(data)| == |data| / 3 * 4 + |data| % 3 + if |data| % 3 == 0 then 0 else 1
  {
    if |data| > 2 { SextetCount(data[3..]); }
  }

  function Symbols(sextets: seq<Sextet>): (text: string)
    ensures |text| == |sextets| && forall i :: 0 <= i < |text| ==> text[i] == Symbol(sextets[i])
  {
    seq(|sextets|, i requires 0 <= i < |sextets| => Symbol(sextets[i]))
  }

  function Padding(n: nat): string {
    if n % 3 == 1 then "==" else if n % 3 == 2 then "=" else ""
  }

  function Encode(data: Bytes): string {
    Symbols(Sextets(data)) + Padding(|data|)
  }

  function ByteA(s: int, t: int): (b: int)
    requires 0 <= s < 64 && 0 <= t < 64
    ensures 0 <= b < 256
  {
    s * 4 + t / 16
  }

  function ByteB(t: int, u: int): (b: int)
    requires 0 <= t < 64 && 0 <= u < 64
    ensures 0 <= b < 256
  {
    t % 16 * 16 + u / 4
  }

  function ByteC(u: int, v: int): (b: int)
    requires 0 <= u < 64 && 0 <= v < 64
    ensures 0 <= b < 256
  {
    u % 4 * 64 + v
  }

  function FromSextets(ss: seq<Sextet>): Bytes {
    if |ss| < 2 then []
    else if |ss| == 2 then [ByteA(ss[0], ss[1])]
    else if |ss| == 3 then [ByteA(ss[0], ss[1]), ByteB(ss[1], ss[2])]
    else [ByteA(ss[0], ss[1]), ByteB(ss[1], ss[2]), ByteC(ss[2], ss[3])] + FromSextets(ss[4..])
  }

  predicate AllSymbols(text: string) {
    forall i :: 0 <= i < |text| ==> SymbolValue(text[i]).Some?
  }

  function Values(text: string): (ss: seq<Sextet>)
    requires AllSymbols(text)
    ensures |ss| == |text| && forall i :: 0 <= i < |ss| ==> Some(ss[i]) == SymbolValue(text[i])
  {
    seq(|text|, i requires 0 <= i < |text| => SymbolValue(text[i]).value)
  }

  /** How many trailing '=' count as padding. */
  function Pads(text: string): (n: nat)
    ensures n <= |text|
  {
    var n := |text|;
    if n >= 2 && text[n - 1] == '=' && text[n - 2] == '=' then 2
    else if n >= 1 && text[n - 1] == '=' then 1 else 0
  }

  /** Decoding with `validate=True`: foreign characters and bad padding are errors. */
  function Decode(text: string): Option<Bytes> {
    var body := text[..|text| - Pads(text)];
    if |text| % 4 != 0 || !AllSymbols(body) then None else Some(FromSextets(Values(body)))
  }

  lemma BytesFromSextets(a: int, b: int, c: int)
    requires 0 <= a < 256 && 0 <= b < 256 && 0 <= c < 256
    ensures ByteA(First(a), Second(a, b)) == a
    ensures ByteB(Second(a, b), Third(b, c)) == b
    ensures ByteC(Third(b, c), Fourth(c)) == c
  {
  }

  lemma {:induction false} FromToSextets(data: Bytes)
    ensures FromSextets(Sextets(data)) == data
  {
    if |data| >= 3 {
      FromToSextets(data[3..]);
      FromGroup(data[0], data[1], data[2], Sextets(data[3..]));
      assert data == [data[0], data[1], data[2]] + data[3..];
    } else {
      FromShortGroup(data);
    }
  }

  lemma {:induction false} FromShortGroup(data: Bytes)
    requires |data| < 3
    ensures FromSextets(Sextets(data)) == data
  {
    if |data| == 2 {
      FromTwo(data[0], data[1]);
      assert data == [data[0], data[1]];
    } else if |data| == 1 {
      FromOne(data[0]);
      assert data == [data[0]];
    }
  }

  lemma FromOne(a: Byte)
    ensures FromSextets([First(a), Second(a, 0)]) == [a]
  {
    BytesFromSextets(a, 0, 0);
  }

  lemma FromTwo(a: Byte, b: Byte)
    ensures FromSextets([First(a), Second(a, b), Third(b, 0)]) == [a, b]
  {
    BytesFromSextets(a, b, 0);
  }

  lemma FromGroup(a: Byte, b: Byte, c: Byte, rest: seq<Sextet>)
    ensures FromSextets(Group(a, b, c) + rest) == [a, b, c] + FromSextets(rest)
  {
    assert (Group(a, b, c) + rest)[4..] == rest;
    BytesFromSextets(a, b, c);
  }

  lemma EncodedLength(data: Bytes)
    ensures |Encode(data)| == (|data| + 2) / 3 * 4
  {
    SextetCount(data);
    hide Sextets;
    var n := |data|;
    assert n % 3 == 0 ==> (n + 2) / 3 == n / 3;
    assert n % 3 != 0 ==> (n + 2) / 3 == n / 3 + 1;
  }

  lemma EncodedPadding(data: Bytes)
    ensures Pads(Encode(data)) == |Padding(|data|)|
  {
    var text, body := Encode(data), Symbols(Sextets(data));
    if body != [] {
      var last := body[|body| - 1];
      SymbolRoundTrip(Sextets(data)[|body| - 1]);
      assert text[|body| - 1] == last != '=';
    }
  }

  /** Decoding inverts encoding for every byte string. */
  lemma {:induction false} DecodeEncode(data: Bytes)
    ensures Decode(Encode(data)) == Some(data)
  {
    EncodedLength(data);
    EncodedPadding(data);
    DecodePadded(Sextets(data), Padding(|data|));
    FromToSextets(data);
  }

  lemma DecodePadded(ss: seq<Sextet>, pad: string)
    requires (|ss| + |pad|) % 4 == 0 && Pads(Symbols(ss) + pad) == |pad|
    ensures Decode(Symbols(ss) + pad) == Some(FromSextets(ss))
  {
    var text := Symbols(ss) + pad;
    assert text[..|text| - |pad|] == Symbols(ss);
    ValuesOfSymbols(ss);
  }

  lemma ValuesOfSymbols(ss: seq<Sextet>)
    ensures AllSymbols(Symbols(ss)) && Values(Symbols(ss)) == ss
  {
    forall i | 0 <= i < |ss| ensures SymbolValue(Symbols(ss)[i]) == Some(ss[i]) { SymbolRoundTrip(ss[i]); }
  }

  // ----- Four slices

  /** `text[i*90000:(i+1)*90000]`; slicing past the end yields what is there. */
  function Slice(text: string, i: nat): string {
    var from, to := i * SLICE, (i + 1) * SLICE;
    text[(if from <= |text| then from else |text|)..(if to <= |text| then to else |text|)]
  }

  method WriteSlices(text: string) returns (outputs: seq<string>)
    ensures |outputs| == SLICES && forall i :: 0 <= i < SLICES ==> outputs[i] == Slice(text, i)
  {
    outputs := [];
    for index := 0 to SLICES
      invariant |outputs| == index && forall i :: 0 <= i < index ==> outputs[i] == Slice(text, i)
    {
      outputs := outputs + [Slice(text, index)];
    }
  }

  function Concat(parts: seq<string>): string {
    if parts == [] then "" else Concat(parts[..|parts| - 1]) + parts[|parts| - 1]
  }

  function Slices(text: string, n: nat): (r: seq<string>)
    ensures |r| == n && forall i :: 0 <= i < n ==> r[i] == Slice(text, i)
  {
    seq(n, i requires 0 <= i < n => Slice(text, i))
  }

  /** The first n slices rejoin to the text up to n * 90,000 characters. */
  lemma {:induction false} SlicesRejoin(text: string, n: nat)
    ensures Concat(Slices(text, n)) == if n * SLICE <= |text| then text[..n * SLICE] else text
  {
    if n > 0 {
      SlicesRejoin(text, n - 1);
      var parts := Slices(text, n);
      assert parts[..n - 1] == Slices(text, n - 1);
    }
  }

  /** Four slices carry a handoff without loss exactly up to 270,000 bytes. */
  lemma LosslessIff(raw: Bytes)
    ensures Concat(Slices(Encode(raw), SLICES)) == Encode(raw) <==> |raw| <= 270_000
  {
    SlicesRejoin(Encode(raw), SLICES);
    EncodedLength(raw);
  }

  /** Every permitted handoff encodes to at most 327,680 characters. */
  lemma PermittedLength(raw: Bytes)
    requires |raw| <= MAX_ARTIFACT_BYTES
    ensures |Encode(raw)| <= 327_680 < SLICES * SLICE
  {
    EncodedLength(raw);
  }

  // ----- Both jobs

  datatype Outputs = Outputs(payload: seq<string>, sha256: string)

  function EncodeFiles(files: map<string, Bytes>): map<string, string> {
    map name | name in files :: Encode(files[name])
  }

  /** The building job; `None` when its size assertion fails. */
  function Send(files: map<string, Bytes>, dumps: map<string, string> -> Bytes, sha: Bytes -> string): Option<Outputs> {
    var handoff := dumps(EncodeFiles(files));
    if |handoff| <= MAX_ARTIFACT_BYTES then Some(Outputs(Slices(Encode(handoff), SLICES), sha(handoff))) else None
  }

  /** Decodes every entry; `None` when some entry is not Base64. */
  function DecodeFiles(texts: map<string, string>): Option<map<string, Bytes>> {
    if forall name :: name in texts ==> Decode(texts[name]).Some? then Some(Decoded(texts)) else None
  }

  function Decoded(texts: map<string, string>): (files: map<string, Bytes>)
    requires forall name :: name in texts ==> Decode(texts[name]).Some?
    ensures files.Keys == texts.Keys && forall name :: name in texts ==> Decode(texts[name]) == Some(files[name])
  {
    map name | name in texts :: Decode(texts[name]).value
  }

  /** The publishing job up to the file map; `None` when one of its checks fails. */
  function Receive(outputs: Outputs, loads: Bytes -> Option<map<string, string>>,
                   sha: Bytes -> string): Option<map<string, Bytes>> {
    var raw := Decode(Concat(outputs.payload));
    if raw.None? || |raw.value| > MAX_ARTIFACT_BYTES || sha(raw.value) != outputs.sha256 then None
    else
      var texts := loads(raw.value);
      if texts.None? then None else DecodeFiles(texts.value)
  }

  /** The publisher recovers exactly the files of every permitted handoff. */
  lemma HandoffRoundTrip(files: map<string, Bytes>, dumps: map<string, string> -> Bytes,
                         loads: Bytes -> Option<map<string, string>>, sha: Bytes -> string)
    requires forall m :: loads(dumps(m)) == Some(m)
    requires |dumps(EncodeFiles(files))| <= MAX_ARTIFACT_BYTES
    ensures Send(files, dumps, sha).Some?
    ensures Receive(Send(files, dumps, sha).value, loads, sha) == Some(files)
  {
    TransportRoundTrip(dumps(EncodeFiles(files)));
    FilesRoundTrip(files);
  }

  lemma TransportRoundTrip(handoff: Bytes)
    requires |handoff| <= MAX_ARTIFACT_BYTES
    ensures Decode(Concat(Slices(Encode(handoff), SLICES))) == Some(handoff)
  {
    LosslessIff(handoff);
    DecodeEncode(handoff);
  }

  lemma {:induction false} FilesRoundTrip(files: map<string, Bytes>)
    ensures DecodeFiles(EncodeFiles(files)) == Some(files)
  {
    forall name | name in files ensures Decode(Encode(files[name])) == Some(files[name]) {
      DecodeEncode(files[name]);
    }
    DecodeEntries(files, EncodeFiles(files));
  }

  lemma DecodeEntries(files: map<string, Bytes>, texts: map<string, string>)
    requires texts.Keys == files.Keys && forall name :: name in files ==> Decode(texts[name]) == Some(files[name])
    ensures DecodeFiles(texts) == Some(files)
  {
    var decoded := Decoded(texts);
    forall name | name in files ensures decoded[name] == files[name] {
      assert Decode(texts[name]) == Some(decoded[name]);
    }
    assert decoded == files;
  }

  /** Whatever the outputs became on the way, files that are accepted are the files that were sent. */
  lemma AcceptedIsSent(files: map<string, Bytes>, outputs: Outputs, dumps: map<string, string> -> Bytes,
                       loads: Bytes -> Option<map<string, string>>, sha: Bytes -> string)
    requires forall m :: loads(dumps(m)) == Some(m)
    requires forall x, y :: sha(x) == sha(y) ==> x == y
    requires Send(files, dumps, sha).Some? && outputs.sha256 == Send(files, dumps, sha).value.sha256
    ensures Receive(outputs, loads, sha).Some? ==> Receive(outputs, loads, sha) == Some(files)
  {
    FilesRoundTrip(files);
  }

  // ----- What is accepted

  /** Strictly decodable text: symbols of sextets and the padding that completes the last group of four. */
  lemma DecodeIff(text: string, data: Bytes)
    ensures Decode(text) == Some(data) <==> exists ss, pad :: Padded(text, ss, pad) && data == FromSextets(ss)
  {
    if Decode(text) == Some(data) {
      var n := |text| - Pads(text);
      var body, pad := text[..n], text[n..];
      SymbolsOfValues(body);
      assert text == body + pad;
      assert Padded(text, Values(body), pad);
    }
    if ss, pad :| Padded(text, ss, pad) && data == FromSextets(ss) {
      PaddingCounted(ss, pad);
      DecodePadded(ss, pad);
    }
  }

  predicate Padded(text: string, ss: seq<Sextet>, pad: string) {
    text == Symbols(ss) + pad && (pad == "" || pad == "=" || pad == "==") && (|ss| + |pad|) % 4 == 0
  }

  lemma SymbolsOfValues(body: string)
    requires AllSymbols(body)
    ensures Symbols(Values(body)) == body
  {
    forall i | 0 <= i < |body| ensures Symbol(Values(body)[i]) == body[i] { SymbolBack(body[i]); }
  }

  lemma SymbolBack(c: char)
    requires SymbolValue(c).Some?
    ensures Symbol(SymbolValue(c).value) == c
  {
  }

  lemma PaddingCounted(ss: seq<Sextet>, pad: string)
    requires pad == "" || pad == "=" || pad == "=="
    ensures Pads(Symbols(ss) + pad) == |pad|
  {
    var text := Symbols(ss) + pad;
    if ss != [] {
      SymbolRoundTrip(ss[|ss| - 1]);
      assert text[|ss| - 1] == Symbol(ss[|ss| - 1]);
      if |ss| >= 2 { assert text[|ss| - 2] == Symbol(ss[|ss| - 2]); }
    }
  }

  /** The builder sends exactly what fits. */
  lemma SentIff(files: map<string, Bytes>, dumps: map<string, string> -> Bytes, sha: Bytes -> string)
    ensures Send(files, dumps, sha).Some? <==> |dumps(EncodeFiles(files))| <= 245_760
    ensures EncodeFiles(files).Keys == files.Keys
    ensures forall name :: name in files ==> Decode(EncodeFiles(files)[name]) == Some(files[name])
  {
    forall name | name in files ensures Decode(EncodeFiles(files)[name]) == Some(files[name]) {
      DecodeEncode(files[name]);
    }
  }

  /** The publisher's raw text, within the limit and under the announced digest, with every entry decodable. */
  predicate Received(outputs: Outputs, loads: Bytes -> Option<map<string, string>>, sha: Bytes -> string,
                     raw: Bytes, texts: map<string, string>, files: map<string, Bytes>) {
    && Decode(Concat(outputs.payload)) == Some(raw) && |raw| <= 245_760 && sha(raw) == outputs.sha256
    && loads(raw) == Some(texts) && texts.Keys == files.Keys
    && forall name :: name in files ==> Decode(texts[name]) == Some(files[name])
  }

  lemma ReceivedIff(outputs: Outputs, loads: Bytes -> Option<map<string, string>>, sha: Bytes -> string,
                    files: map<string, Bytes>)
    ensures Receive(outputs, loads, sha) == Some(files) <==>
            exists raw, texts :: Received(outputs, loads, sha, raw, texts, files)
  {
    hide Decode, Concat;
    if Receive(outputs, loads, sha) == Some(files) {
      var raw := Decode(Concat(outputs.payload)).value;
      var texts := loads(raw).value;
      assert Received(outputs, loads, sha, raw, texts, files);
    }
    if raw, texts :| Received(outputs, loads, sha, raw, texts, files) {
      DecodeEntries(files, texts);
    }
  }
}
