/** The bounded streaming decompressor and the loads built on it. The zstd decoder and the
    rkyv codec are foreign: of the decoder only the bytes it yields count, in whatever
    pieces it yields them, and of the codec only that decoding inverts encoding. */
module Decompress {
  import opened Wrappers
  import opened Octets

  const READ_BUFFER: nat := 8192

  /** What a decoder yields for some input: some bytes, then the end or an error. */
  datatype Stream = Stream(data: Bytes, fails: bool)

  datatype Error = DecoderFailed | Exceeded(total: nat)

  function Flatten(chunks: seq<Bytes>): Bytes {
    if chunks == [] then [] else Flatten(chunks[..|chunks| - 1]) + chunks[|chunks| - 1]
  }

  lemma {:induction false} FlattenPrefix(chunks: seq<Bytes>, i: nat)
    requires i <= |chunks|
    ensures Flatten(chunks[..i]) <= Flatten(chunks)
  {
    if i == |chunks| {
      assert chunks[..i] == chunks;
    } else {
      FlattenPrefix(chunks[..|chunks| - 1], i);
      assert chunks[..|chunks| - 1][..i] == chunks[..i];
    }
  }

  /** The non-empty reads a decoder answers with before it reports the end or an error. */
  ghost predicate IsChunking(chunks: seq<Bytes>, s: Stream) {
    && Flatten(chunks) == s.data
    && forall i :: 0 <= i < |chunks| ==> 0 < |chunks[i]| <= READ_BUFFER
  }

  /** `decode_all`. */
  function DecodeAll(s: Stream): Result<Bytes, Error> {
    if s.fails then Err(DecoderFailed) else Ok(s.data)
  }

  /** A limit of zero is no limit, and a saturated byte count never passes the largest one. */
  predicate Exceeds(size: nat, maxBytes: nat) {
    0 < maxBytes < U64_MAX && size > maxBytes
  }

  function SaturatingAdd(a: nat, b: nat): nat {
    if a + b > U64_MAX then U64_MAX else a + b
  }

  /** `decompress_bytes`: whatever pieces the decoder yields, the bounded loop returns what the
      unbounded branch returns unless the data exceed the limit, and then it fails, whether or
      not the decoder would have failed later; its buffer never grows past the limit. */
  method DecompressBytes(s: Stream, chunks: seq<Bytes>, maxBytes: nat) returns (r: Result<Bytes, Error>, ghost peak: nat)
    requires IsChunking(chunks, s) && maxBytes <= U64_MAX
    ensures !Exceeds(|s.data|, maxBytes) ==> r == DecodeAll(s)
    ensures Exceeds(|s.data|, maxBytes) ==>
      r.Err? && r.error.Exceeded? && maxBytes < r.error.total <= maxBytes + READ_BUFFER && r.error.total <= U64_MAX
    ensures 0 < maxBytes < U64_MAX ==> peak <= maxBytes
    ensures r.Ok? ==> |r.value| <= peak
  {
    if maxBytes == 0 {
      return DecodeAll(s), |s.data|;
    }
    var out: Bytes, total, i := [], 0, 0;
    peak := 0;
    while i < |chunks|
      invariant 0 <= i <= |chunks|
      invariant out == Flatten(chunks[..i])
      invariant total == SaturatingAdd(|out|, 0) <= maxBytes
      invariant peak == |out|
    {
      var read := chunks[i];
      FlattenPrefix(chunks, i + 1);
      assert chunks[..i + 1][..i] == chunks[..i];
      assert Flatten(chunks[..i + 1]) == out + read;
      total := SaturatingAdd(total, |read|);
      if total > maxBytes {
        return Err(Exceeded(total)), peak;
      }
      out := out + read;
      i, peak := i + 1, |out|;
    }
    assert chunks[..i] == chunks;
    r := if s.fails then Err(DecoderFailed) else Ok(out);
  }

  // ---- Loads ----

  datatype Codec<!T> = Codec(encode: T -> Bytes, decode: Bytes -> Option<T>)

  datatype Zstd = Zstd(compress: Bytes -> Bytes, stream: Bytes -> Stream)

  ghost predicate LawfulCodec<T(!new)>(c: Codec<T>) {
    forall v :: c.decode(c.encode(v)) == Some(v)
  }

  ghost predicate LawfulZstd(z: Zstd) {
    forall b :: z.stream(z.compress(b)) == Stream(b, false)
  }

  datatype LoadFailure = TooLarge | DecompressFailed | DecodeFailed

  /** `load_rkyv_file_zst` on the bytes read from the file. */
  function LoadCompressed<T>(c: Codec<T>, z: Zstd, bytes: Bytes, limit: nat): Result<T, LoadFailure> {
    var s := z.stream(bytes);
    if Exceeds(|s.data|, limit) then Err(TooLarge)
    else if s.fails then Err(DecompressFailed)
    else
      match c.decode(s.data)
      case Some(v) => Ok(v)
      case None => Err(DecodeFailed)
  }

  /** `load_rkyv_file_zst` run with the real loop agrees with the above on every chunking. */
  method RunLoadCompressed<T>(c: Codec<T>, z: Zstd, bytes: Bytes, chunks: seq<Bytes>, limit: nat)
    returns (r: Result<T, LoadFailure>)
    requires IsChunking(chunks, z.stream(bytes)) && limit <= U64_MAX
    ensures r == LoadCompressed(c, z, bytes, limit)
  {
    var decoded, _ := DecompressBytes(z.stream(bytes), chunks, limit);
    match decoded
    case Err(Exceeded(_)) => r := Err(TooLarge);
    case Err(DecoderFailed) => r := Err(DecompressFailed);
    case Ok(b) =>
      match c.decode(b)
      case Some(v) => r := Ok(v);
      case None => r := Err(DecodeFailed);
  }

  /** What `save_rkyv_zst` writes, a compressed load gives back, exactly when the uncompressed
      encoding respects the limit. */
  lemma CompressedRoundTrip<T(!new)>(c: Codec<T>, z: Zstd, v: T, limit: nat)
    requires LawfulCodec(c) && LawfulZstd(z)
    ensures LoadCompressed(c, z, z.compress(c.encode(v)), limit)
         == if Exceeds(|c.encode(v)|, limit) then Err(TooLarge) else Ok(v)
  {
    var b := c.encode(v);
    assert z.stream(z.compress(b)).data == b;
    assert c.decode(b) == Some(v);
  }
}
