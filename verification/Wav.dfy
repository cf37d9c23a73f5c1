/**
 The RIFF walker that reads streamed WAV audio, and the serialisation it inverts.
 Chunks follow each other padded to even length; a data chunk of unknown size is
 announced as 0xFFFFFFFF and runs to the end.
 */
module Wav {
  import opened Common

  type Sample = x: int | -32_768 <= x < 32_768

  const UNKNOWN_SIZE: nat := 0xFFFF_FFFF

  datatype Error =
    | InvalidPayload | InvalidFmtChunk | UnsupportedFormat(format: nat) | MissingFmt
    | UnsupportedBitDepth(bits: nat) | MissingData | UnsupportedChannels(channels: nat)

  datatype Fmt = Fmt(channels: nat, rate: nat, bits: nat)

  const RIFF: seq<byte> := [0x52, 0x49, 0x46, 0x46]
  const WAVE: seq<byte> := [0x57, 0x41, 0x56, 0x45]
  const FMT_ID: seq<byte> := [0x66, 0x6D, 0x74, 0x20]
  const DATA_ID: seq<byte> := [0x64, 0x61, 0x74, 0x61]

  /** Little-endian value of bytes. */
  function Little(b: seq<byte>): nat {
    if b == [] then 0 else (b[0] as int) + 256 * Little(b[1..])
  }

  /** The little-endian number of n bytes at a position. */
  function Number(b: seq<byte>, at: nat, n: nat): nat
    requires at + n <= |b|
  {
    Little(b[at..at + n])
  }

  function Signed(low: byte, high: byte): Sample {
    if high < 128 then low + 256 * high else low + 256 * high - 65_536
  }

  function ReadSamples(data: seq<byte>): (s: seq<Sample>)
    ensures |s| == |data| / 2
  {
    seq(|data| / 2, i requires 0 <= i < |data| / 2 => Signed(data[2 * i], data[2 * i + 1]))
  }

  /** Division that truncates towards zero. */
  function Half(x: int): int {
    if x < 0 then -(-x / 2) else x / 2
  }

  function StereoToMono(s: seq<Sample>): seq<Sample> {
    seq(|s| / 2, i requires 0 <= i < |s| / 2 => Half((s[2 * i] as int) + (s[2 * i + 1] as int)))
  }

  /** A chunk as read or as written: identifier, four bytes of size, and body. */
  datatype Chunk = Chunk(id: seq<byte>, size: seq<byte>, body: seq<byte>)

  datatype Found = Found(fmt: Option<Fmt>, data: Option<seq<byte>>)

  function ReadFmt(body: seq<byte>): Result<Fmt, Error> {
    if |body| < 16 then Err(InvalidFmtChunk)
    else if Number(body, 0, 2) != 1 then Err(UnsupportedFormat(Number(body, 0, 2)))
    else Ok(Fmt(Number(body, 2, 2), Number(body, 4, 4), Number(body, 14, 2)))
  }

  function Padding(n: nat): seq<byte> {
    if n % 2 == 0 then [] else [0]
  }

  /** Length of the first chunk's body, as far as it is really there. */
  function BodyLength(b: seq<byte>): (n: nat)
    requires |b| >= 8
    ensures 8 + n <= |b|
  {
    var size := Number(b, 4, 4);
    if size == UNKNOWN_SIZE || size > |b| - 8 then |b| - 8 else size
  }

  function FirstChunk(b: seq<byte>): Chunk
    requires |b| >= 8
  {
    Chunk(b[..4], b[4..8], b[8..8 + BodyLength(b)])
  }

  function From(b: seq<byte>, cursor: nat): (rest: seq<byte>) {
    if cursor <= |b| then b[cursor..] else []
  }

  function AfterChunk(b: seq<byte>): (rest: seq<byte>)
    requires |b| >= 8
    ensures |rest| < |b|
  {
    From(b, 8 + BodyLength(b) + |Padding(BodyLength(b))|)
  }

  /** Every chunk of the bytes after the header. */
  function Chunks(b: seq<byte>): seq<Chunk>
    decreases |b|
  {
    if |b| < 8 then [] else [FirstChunk(b)] + Chunks(AfterChunk(b))
  }

  /** The last format and the last data of a list of chunks, unless a format is refused first. */
  function Gather(cs: seq<Chunk>, found: Found): Result<Found, Error>
    decreases |cs|, 0
  {
    if cs == [] then Ok(found) else GatherOn(cs[0], cs[1..], found)
  }

  function GatherOn(c: Chunk, rest: seq<Chunk>, found: Found): Result<Found, Error>
    decreases |rest|, 1
  {
    if c.id == FMT_ID then
      var fmt := ReadFmt(c.body);
      if fmt.Err? then Err(fmt.error) else Gather(rest, found.(fmt := Some(fmt.value)))
    else Gather(rest, if c.id == DATA_ID then found.(data := Some(c.body)) else found)
  }

  /** The rate and the mono samples of what was found. */
  function Interpret(found: Found): Result<(nat, seq<Sample>), Error> {
    if found.fmt.None? then Err(MissingFmt)
    else if found.fmt.value.bits != 16 then Err(UnsupportedBitDepth(found.fmt.value.bits))
    else if found.data.None? then Err(MissingData)
    else
      var samples := ReadSamples(found.data.value);
      if found.fmt.value.channels == 1 then Ok((found.fmt.value.rate, samples))
      else if found.fmt.value.channels == 2 then Ok((found.fmt.value.rate, StereoToMono(samples)))
      else Err(UnsupportedChannels(found.fmt.value.channels))
  }

  predicate HasHeader(input: seq<byte>) {
    |input| >= 12 && input[0..4] == RIFF && input[8..12] == WAVE
  }

  function Decode(input: seq<byte>): Result<(nat, seq<Sample>), Error> {
    if !HasHeader(input) then Err(InvalidPayload)
    else
      var found := Gather(Chunks(input[12..]), Found(None, None));
      if found.Err? then Err(found.error) else Interpret(found.value)
  }

  /** The chunk at a cursor. */
  lemma ChunkAt(input: seq<byte>, cursor: nat)
    requires cursor + 8 <= |input|
    ensures var b, size, remaining := From(input, cursor), Number(input, cursor + 4, 4), |input| - (cursor + 8);
            && BodyLength(b) == (if size == UNKNOWN_SIZE || size > remaining then remaining else size)
            && FirstChunk(b) == Chunk(input[cursor..cursor + 4], input[cursor + 4..cursor + 8],
                                      input[cursor + 8..cursor + 8 + BodyLength(b)])
            && AfterChunk(b) == From(input, cursor + 8 + BodyLength(b) + |Padding(BodyLength(b))|)
  {
    var b := From(input, cursor);
    assert b[..4] == input[cursor..cursor + 4] && b[4..8] == input[cursor + 4..cursor + 8];
    assert b[8..8 + BodyLength(b)] == input[cursor + 8..cursor + 8 + BodyLength(b)];
  }

  lemma TakesFirst(b: seq<byte>, c: Chunk, rest: seq<byte>, found: Found)
    requires |b| >= 8 && FirstChunk(b) == c && AfterChunk(b) == rest
    ensures Gather(Chunks(b), found) == GatherOn(c, Chunks(rest), found)
  {
    assert Chunks(b)[1..] == Chunks(rest);
  }

  lemma ReadsOn(input: seq<byte>, cursor: nat, actual: nat, c: Chunk, next: nat, found: Found)
    requires cursor + 8 + actual <= |input|
    requires var size, remaining := Number(input, cursor + 4, 4), |input| - (cursor + 8);
             actual == if size == UNKNOWN_SIZE || size > remaining then remaining else size
    requires c == Chunk(input[cursor..cursor + 4], input[cursor + 4..cursor + 8], input[cursor + 8..cursor + 8 + actual])
    requires next == cursor + 8 + actual + |Padding(actual)|
    ensures Gather(Chunks(From(input, cursor)), found) == GatherOn(c, Chunks(From(input, next)), found)
  {
    ChunkAt(input, cursor);
    TakesFirst(From(input, cursor), c, From(input, next), found);
  }

  method ReadChunk(input: seq<byte>, cursor: nat, ghost found: Found) returns (c: Chunk, next: nat)
    requires cursor + 8 <= |input|
    ensures next > cursor && |c.size| == 4
    ensures Gather(Chunks(From(input, cursor)), found) == GatherOn(c, Chunks(From(input, next)), found)
    ensures Little(c.size) == UNKNOWN_SIZE ==> next >= |input|
  {
    var size := Number(input, cursor + 4, 4);
    var start := cursor + 8;
    var remaining := |input| - start;
    var actual := if size == UNKNOWN_SIZE || size > remaining then remaining else size;
    c := Chunk(input[cursor..cursor + 4], input[cursor + 4..cursor + 8], input[start..start + actual]);
    next := start + if actual % 2 == 0 then actual else actual + 1;
    ReadsOn(input, cursor, actual, c, next, found);
  }

  method DecodeStreamingWav(input: seq<byte>) returns (r: Result<(nat, seq<Sample>), Error>)
    ensures r == Decode(input)
  {
    if |input| < 12 || input[0..4] != RIFF || input[8..12] != WAVE {
      return Err(InvalidPayload);
    }
    var cursor := 12;
    var fmt: Option<Fmt> := None;
    var data: Option<seq<byte>> := None;
    while cursor + 8 <= |input|
      invariant cursor >= 12
      invariant Gather(Chunks(input[12..]), Found(None, None)) == Gather(Chunks(From(input, cursor)), Found(fmt, data))
      decreases |input| - cursor
    {
      var chunk, next := ReadChunk(input, cursor, Found(fmt, data));
      if chunk.id == FMT_ID {
        var read := ReadFmt(chunk.body);
        if read.Err? {
          return Err(read.error);
        }
        fmt := Some(read.value);
      } else if chunk.id == DATA_ID {
        data := Some(chunk.body);
        if Little(chunk.size) == UNKNOWN_SIZE {
          return Interpret(Found(fmt, data));
        }
      }
      cursor := next;
    }
    return Interpret(Found(fmt, data));
  }

  // -------------------------------------------------------------- serialisation

  function PutWord(v: nat): seq<byte>
    requires v < 65_536
  {
    [v % 256, v / 256]
  }

  /** The n lowest bytes, least significant first. */
  function PutLittle(v: nat, n: nat): (b: seq<byte>)
    ensures |b| == n
  {
    if n == 0 then [] else [v % 256] + PutLittle(v / 256, n - 1)
  }

  function Power256(n: nat): nat {
    if n == 0 then 1 else 256 * Power256(n - 1)
  }

  lemma {:induction false} LittleRoundTrip(v: nat, n: nat)
    requires v < Power256(n)
    ensures Little(PutLittle(v, n)) == v
  {
    if n > 0 {
      LittleRoundTrip(v / 256, n - 1);
      assert PutLittle(v, n)[1..] == PutLittle(v / 256, n - 1);
    }
  }

  /** A size field exists for every size. */
  lemma SizeField(v: nat) returns (size: seq<byte>)
    requires v <= UNKNOWN_SIZE
    ensures |size| == 4 && Little(size) == v
  {
    assert Power256(2) == 65_536 && Power256(4) == 65_536 * 65_536;
    LittleRoundTrip(v, 4);
    size := PutLittle(v, 4);
  }

  ghost predicate Valid(c: Chunk) {
    |c.id| == 4 && |c.size| == 4 && Little(c.size) == |c.body| < UNKNOWN_SIZE
  }

  ghost predicate AllValid(cs: seq<Chunk>) {
    forall i :: 0 <= i < |cs| ==> Valid(cs[i])
  }

  function ChunkBytes(c: Chunk): (b: seq<byte>)
    requires Valid(c)
    ensures |b| == 8 + |c.body| + |Padding(|c.body|)|
  {
    c.id + c.size + c.body + Padding(|c.body|)
  }

  /** Chunks one after the other, then what follows them. */
  function Encode(cs: seq<Chunk>, rest: seq<byte>): seq<byte>
    requires AllValid(cs)
  {
    if cs == [] then rest else ChunkBytes(cs[0]) + Encode(cs[1..], rest)
  }

  /** Chunks the walker passes over. */
  ghost predicate Unknown(cs: seq<Chunk>) {
    AllValid(cs) && forall i :: 0 <= i < |cs| ==> cs[i].id != FMT_ID && cs[i].id != DATA_ID
  }

  function SampleBytes(s: Sample): seq<byte> {
    PutWord(if s < 0 then s + 65_536 else s)
  }

  function SamplesBytes(s: seq<Sample>): (b: seq<byte>)
    ensures |b| == 2 * |s|
  {
    if s == [] then [] else SamplesBytes(s[..|s| - 1]) + SampleBytes(s[|s| - 1])
  }

  /** A PCM format chunk of 16-bit samples; the byte rate, block size and extension are free. */
  ghost predicate IsPcmFmt(c: Chunk, channels: nat, rate: nat) {
    && Valid(c) && c.id == FMT_ID && |c.body| >= 16
    && Number(c.body, 0, 2) == 1 && Number(c.body, 2, 2) == channels && Number(c.body, 4, 4) == rate && Number(c.body, 14, 2) == 16
  }

  function Header(size: seq<byte>): seq<byte> {
    RIFF + size + WAVE
  }

  function StreamedData(open: seq<byte>, body: seq<byte>): seq<byte> {
    DATA_ID + open + body
  }

  // ----------------------------------------------------------------- round trip

  /** What the walker sees at a serialised chunk. */
  lemma SeesChunk(c: Chunk, rest: seq<byte>)
    requires Valid(c)
    ensures FirstChunk(ChunkBytes(c) + rest) == c && AfterChunk(ChunkBytes(c) + rest) == rest
  {
    var b := ChunkBytes(c) + rest;
    assert b[..4] == c.id && b[4..8] == c.size;
    assert b[8..8 + |c.body|] == c.body && b[|ChunkBytes(c)|..] == rest;
  }

  lemma SeesFirst(c: Chunk, rest: seq<byte>, cs: seq<Chunk>)
    requires Valid(c) && Chunks(rest) == cs
    ensures Chunks(ChunkBytes(c) + rest) == [c] + cs
  {
    SeesChunk(c, rest);
  }

  lemma Regroup(cs: seq<Chunk>, others: seq<Chunk>)
    ensures cs + others == if cs == [] then others else [cs[0]] + (cs[1..] + others)
  {
  }

  /** The walker takes apart what the serialisation put together. */
  lemma {:induction false} ChunksRoundTrip(cs: seq<Chunk>, rest: seq<byte>, others: seq<Chunk>)
    requires AllValid(cs) && Chunks(rest) == others
    ensures Chunks(Encode(cs, rest)) == cs + others
    decreases |cs|
  {
    Regroup(cs, others);
    if cs != [] {
      ChunksRoundTrip(cs[1..], rest, others);
      SeesFirst(cs[0], Encode(cs[1..], rest), cs[1..] + others);
    }
  }

  /** A size that is unknown or promises no less than there is. */
  predicate RunsToTheEnd(size: seq<byte>, present: nat) {
    |size| == 4 && (Little(size) == UNKNOWN_SIZE || Little(size) >= present)
  }

  /** Such a chunk is all that remains. */
  lemma SeesStreamed(open: seq<byte>, body: seq<byte>)
    requires RunsToTheEnd(open, |body|)
    ensures Chunks(StreamedData(open, body)) == [Chunk(DATA_ID, open, body)]
  {
    var b := StreamedData(open, body);
    assert b[..4] == DATA_ID && b[4..8] == open && b[8..] == body;
    assert FirstChunk(b) == Chunk(DATA_ID, open, body) && AfterChunk(b) == [];
  }

  lemma {:induction false} GatherPasses(cs: seq<Chunk>, rest: seq<Chunk>, found: Found)
    requires Unknown(cs)
    ensures Gather(cs + rest, found) == Gather(rest, found)
    decreases |cs|
  {
    if cs == [] {
      assert cs + rest == rest;
    } else {
      assert (cs + rest)[1..] == cs[1..] + rest;
      GatherPasses(cs[1..], rest, found);
    }
  }

  lemma SampleRoundTrip(s: Sample)
    ensures |SampleBytes(s)| == 2 && Signed(SampleBytes(s)[0], SampleBytes(s)[1]) == s
  {
  }

  lemma {:induction false} SamplesRoundTrip(s: seq<Sample>)
    ensures ReadSamples(SamplesBytes(s)) == s
  {
    if s != [] {
      var init, last := s[..|s| - 1], s[|s| - 1];
      SamplesRoundTrip(init);
      SampleRoundTrip(last);
      var front, all := SamplesBytes(init), SamplesBytes(s);
      forall i | 0 <= i < |s| ensures ReadSamples(all)[i] == s[i] {
        if i < |init| {
          assert all[2 * i] == front[2 * i] && all[2 * i + 1] == front[2 * i + 1];
          assert ReadSamples(front)[i] == init[i];
        }
      }
    }
  }

  function Mono(channels: nat, s: seq<Sample>): seq<Sample> {
    if channels == 1 then s else StereoToMono(s)
  }

  /** One format, then one data chunk, with any unknown chunks around them. */
  function Layout(before: seq<Chunk>, fmt: Chunk, between: seq<Chunk>, data: Chunk, after: seq<Chunk>): seq<Chunk> {
    before + ([fmt] + (between + ([data] + after)))
  }

  lemma GatherLayout(before: seq<Chunk>, fmt: Chunk, between: seq<Chunk>, data: Chunk, after: seq<Chunk>, rate: nat, channels: nat)
    requires Unknown(before) && Unknown(between) && Unknown(after) && IsPcmFmt(fmt, channels, rate) && data.id == DATA_ID
    ensures Gather(Layout(before, fmt, between, data, after), Found(None, None))
      == Ok(Found(Some(Fmt(channels, rate, 16)), Some(data.body)))
  {
    var found := Found(Some(Fmt(channels, rate, 16)), None);
    var tail := [data] + after;
    GatherPasses(before, [fmt] + (between + tail), Found(None, None));
    assert ([fmt] + (between + tail))[1..] == between + tail;
    GatherPasses(between, tail, found);
    assert tail[1..] == after == after + [];
    GatherPasses(after, [], found.(data := Some(data.body)));
  }

  lemma InterpretsSamples(channels: nat, rate: nat, samples: seq<Sample>)
    requires channels == 1 || channels == 2
    ensures Interpret(Found(Some(Fmt(channels, rate, 16)), Some(SamplesBytes(samples)))) == Ok((rate, Mono(channels, samples)))
  {
    SamplesRoundTrip(samples);
  }

  lemma HeaderSeen(size: seq<byte>, rest: seq<byte>)
    requires |size| == 4
    ensures HasHeader(Header(size) + rest) && (Header(size) + rest)[12..] == rest
  {
    var input := Header(size) + rest;
    assert input[0..4] == RIFF && input[8..12] == WAVE && input[12..] == rest;
  }

  lemma DecodesTo(size: seq<byte>, rest: seq<byte>, cs: seq<Chunk>, found: Found)
    requires |size| == 4 && Chunks(rest) == cs && Gather(cs, Found(None, None)) == Ok(found)
    ensures Decode(Header(size) + rest) == Interpret(found)
  {
    HeaderSeen(size, rest);
  }

  /** A file with sizes: decoding returns the rate and exactly the samples encoded. */
  lemma DecodesSized(size: seq<byte>, before: seq<Chunk>, fmt: Chunk, between: seq<Chunk>, after: seq<Chunk>,
                     length: seq<byte>, channels: nat, rate: nat, samples: seq<Sample>)
    requires |size| == 4 && (channels == 1 || channels == 2) && IsPcmFmt(fmt, channels, rate)
    requires Unknown(before) && Unknown(between) && Unknown(after) && 2 * |samples| < UNKNOWN_SIZE
    requires |length| == 4 && Little(length) == 2 * |samples|
    ensures var file := Layout(before, fmt, between, Chunk(DATA_ID, length, SamplesBytes(samples)), after);
            AllValid(file) && Decode(Header(size) + Encode(file, [])) == Ok((rate, Mono(channels, samples)))
  {
    var data := Chunk(DATA_ID, length, SamplesBytes(samples));
    var file := Layout(before, fmt, between, data, after);
    assert AllValid(file);
    ChunksRoundTrip(file, [], []);
    GatherLayout(before, fmt, between, data, after, rate, channels);
    assert file + [] == file;
    DecodesTo(size, Encode(file, []), file, Found(Some(Fmt(channels, rate, 16)), Some(data.body)));
    InterpretsSamples(channels, rate, samples);
  }

  lemma GatherStreamed(before: seq<Chunk>, fmt: Chunk, between: seq<Chunk>, data: Chunk, rate: nat, channels: nat)
    requires Unknown(before) && Unknown(between) && IsPcmFmt(fmt, channels, rate) && data.id == DATA_ID
    ensures Gather(before + ([fmt] + between) + [data], Found(None, None))
      == Ok(Found(Some(Fmt(channels, rate, 16)), Some(data.body)))
  {
    assert before + ([fmt] + between) + [data] == Layout(before, fmt, between, data, []);
    GatherLayout(before, fmt, between, data, [], rate, channels);
  }

  /** A stream whose data chunk comes last decodes to the same when its size is 0xFFFFFFFF, and when it promises
      more than has arrived. */
  lemma DecodesStreamed(size: seq<byte>, before: seq<Chunk>, fmt: Chunk, between: seq<Chunk>,
                        open: seq<byte>, channels: nat, rate: nat, samples: seq<Sample>)
    requires |size| == 4 && (channels == 1 || channels == 2) && IsPcmFmt(fmt, channels, rate)
    requires Unknown(before) && Unknown(between)
    requires RunsToTheEnd(open, 2 * |samples|)
    ensures var cs := before + ([fmt] + between);
            && AllValid(cs)
            && Decode(Header(size) + Encode(cs, StreamedData(open, SamplesBytes(samples)))) == Ok((rate, Mono(channels, samples)))
  {
    var body, cs := SamplesBytes(samples), before + ([fmt] + between);
    var data := Chunk(DATA_ID, open, body);
    assert AllValid(cs);
    SeesStreamed(open, body);
    ChunksRoundTrip(cs, StreamedData(open, body), [data]);
    GatherStreamed(before, fmt, between, data, rate, channels);
    DecodesTo(size, Encode(cs, StreamedData(open, body)), cs + [data], Found(Some(Fmt(channels, rate, 16)), Some(body)));
    InterpretsSamples(channels, rate, samples);
  }

  // --------------------------------------------------------- what a decoded file is

  /** Half of a sum, without its fraction. */
  predicate TruncatedMean(mean: int, left: int, right: int) {
    if left + right >= 0 then 2 * mean <= left + right < 2 * mean + 2 else 2 * mean - 2 < left + right <= 2 * mean
  }

  /** Each mono sample is the truncated mean of its pair, in order; an odd sample at the end has no pair. */
  lemma MonoIsMean(s: seq<Sample>)
    ensures var mono := StereoToMono(s);
            && |mono| == |s| / 2
            && forall i :: 0 <= i < |mono| ==> TruncatedMean(mono[i], s[2 * i], s[2 * i + 1])
  {
  }

  /** The last chunk of a kind. */
  function LastOf(cs: seq<Chunk>, id: seq<byte>): (c: Option<Chunk>)
    ensures c.Some? ==> c.value.id == id && c.value in cs
  {
    if cs == [] then None
    else if cs[|cs| - 1].id == id then Some(cs[|cs| - 1])
    else LastOf(cs[..|cs| - 1], id)
  }

  predicate IsPcm(body: seq<byte>) {
    |body| >= 16 && Number(body, 0, 2) == 1
  }

  predicate AllPcm(cs: seq<Chunk>) {
    forall i :: 0 <= i < |cs| && cs[i].id == FMT_ID ==> IsPcm(cs[i].body)
  }

  lemma {:induction false} GatherLast(cs: seq<Chunk>, last: Chunk, found: Found)
    ensures var before := Gather(cs, found);
            Gather(cs + [last], found) == if before.Err? then before else GatherOn(last, [], before.value)
    decreases |cs|
  {
    if cs == [] {
      assert cs + [last] == [last] && [last][1..] == [];
    } else {
      assert (cs + [last])[1..] == cs[1..] + [last];
      var fmt := ReadFmt(cs[0].body);
      if cs[0].id != FMT_ID {
        GatherLast(cs[1..], last, if cs[0].id == DATA_ID then found.(data := Some(cs[0].body)) else found);
      } else if fmt.Ok? {
        GatherLast(cs[1..], last, found.(fmt := Some(fmt.value)));
      }
    }
  }

  /** The walker finds the last format and the last data, unless some format is not PCM. */
  ghost predicate FindsLast(cs: seq<Chunk>, r: Result<Found, Error>) {
    && (r.Ok? <==> AllPcm(cs))
    && (r.Ok? ==>
          && r.value.data == (var data := LastOf(cs, DATA_ID); if data.Some? then Some(data.value.body) else None)
          && (r.value.fmt.Some? <==> LastOf(cs, FMT_ID).Some?)
          && (r.value.fmt.Some? ==> ReadFmt(LastOf(cs, FMT_ID).value.body) == Ok(r.value.fmt.value)))
  }

  lemma AllPcmLast(cs: seq<Chunk>, last: Chunk)
    ensures AllPcm(cs + [last]) <==> AllPcm(cs) && (last.id == FMT_ID ==> IsPcm(last.body))
  {
    var all := cs + [last];
    assert all[|cs|] == last && forall i :: 0 <= i < |cs| ==> all[i] == cs[i];
  }

  lemma FindsNext(cs: seq<Chunk>, last: Chunk, before: Result<Found, Error>)
    requires FindsLast(cs, before)
    ensures FindsLast(cs + [last], if before.Err? then before else GatherOn(last, [], before.value))
  {
    AllPcmLast(cs, last);
    assert (cs + [last])[..|cs|] == cs;
    assert FMT_ID[0] != DATA_ID[0];
  }

  lemma {:induction false} GatherFinds(cs: seq<Chunk>)
    ensures FindsLast(cs, Gather(cs, Found(None, None)))
    decreases |cs|
  {
    if cs != [] {
      var init, last := cs[..|cs| - 1], cs[|cs| - 1];
      assert cs == init + [last];
      GatherFinds(init);
      GatherLast(init, last, Found(None, None));
      FindsNext(init, last, Gather(init, Found(None, None)));
    }
  }

  /** The audio of a list of chunks: every format is PCM, the last one has sixteen bits and one or two channels, and the
      last data is what it describes. */
  ghost predicate IsAudio(cs: seq<Chunk>, rate: nat, samples: seq<Sample>) {
    var fmt, data := LastOf(cs, FMT_ID), LastOf(cs, DATA_ID);
    && AllPcm(cs) && fmt.Some? && data.Some? && IsPcm(fmt.value.body)
    && Number(fmt.value.body, 14, 2) == 16 && Number(fmt.value.body, 4, 4) == rate
    && (var channels := Number(fmt.value.body, 2, 2);
        (channels == 1 || channels == 2) && samples == Mono(channels, ReadSamples(data.value.body)))
  }

  /** A file decodes to exactly the audio of its chunks, and to an error when there is none. */
  lemma DecodesExactly(input: seq<byte>, rate: nat, samples: seq<Sample>)
    ensures Decode(input) == Ok((rate, samples)) <==> HasHeader(input) && IsAudio(Chunks(input[12..]), rate, samples)
  {
    if HasHeader(input) {
      GatherFinds(Chunks(input[12..]));
    }
  }
}
