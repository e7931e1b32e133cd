/**
 The binary envelope of a zero-copy tensor: a fixed prefix, the header length as a
 little-endian 32-bit number, the encoded header, and the raw buffers end to end.
 The header codec is a parameter.
 */
module Envelope {
  import opened Basics
  import opened Sequences

  newtype Byte = x: int | 0 <= x < 256

  /** The ASCII bytes of the prefix "__pulsing_zc_v2__:". */
  const PREFIX: seq<Byte> := [95, 95, 112, 117, 108, 115, 105, 110, 103, 95, 122, 99, 95, 118, 50, 95, 95, 58]

  datatype Header = Header(
    version: int, bufferCount: nat, bufferLengths: seq<nat>,
    dtype: string, shape: seq<int>, strides: seq<int>, transport: string, checksum: int)

  datatype Descriptor = Descriptor(
    buffers: seq<seq<Byte>>, version: int,
    dtype: string, shape: seq<int>, strides: seq<int>, transport: string, checksum: int)

  datatype Codec = Codec(dumps: Header -> seq<Byte>, loads: seq<Byte> -> Option<Header>)

  datatype EnvelopeError = HeaderTooLong | TooShort | Truncated | BadHeader

  function Lengths(buffers: seq<seq<Byte>>): seq<nat> {
    seq(|buffers|, i requires 0 <= i < |buffers| => |buffers[i]|)
  }

  function HeaderOf(d: Descriptor): Header {
    Header(d.version, |d.buffers|, Lengths(d.buffers), d.dtype, d.shape, d.strides, d.transport, d.checksum)
  }

  // ---- Little-endian 32-bit numbers ----

  function Le32(n: nat): (bytes: seq<Byte>)
    requires n < 0x1_0000_0000
    ensures |bytes| == 4
  {
    [(n % 0x100) as Byte, (n / 0x100 % 0x100) as Byte, (n / 0x1_0000 % 0x100) as Byte, (n / 0x100_0000) as Byte]
  }

  function FromLe32(bytes: seq<Byte>): (n: nat)
    requires |bytes| >= 4
    ensures n < 0x1_0000_0000
  {
    bytes[0] as int + 0x100 * bytes[1] as int + 0x1_0000 * bytes[2] as int + 0x100_0000 * bytes[3] as int
  }

  lemma Le32RoundTrip(n: nat, rest: seq<Byte>)
    requires n < 0x1_0000_0000
    ensures FromLe32(Le32(n) + rest) == n
  {
    assert n / 0x1_0000 == n / 0x100 / 0x100 && n / 0x100_0000 == n / 0x100 / 0x100 / 0x100;
  }

  // ---- Packing ----

  /** The bytes of an envelope whose encoded header is `header`. */
  function Packed(d: Descriptor, header: seq<Byte>): seq<Byte>
    requires |header| < 0x1_0000_0000
  {
    PREFIX + Le32(|header|) + header + Flatten(d.buffers)
  }

  method CopyInto(out: array<Byte>, offset: nat, source: seq<Byte>)
    requires offset + |source| <= out.Length
    modifies out
    ensures out[..offset + |source|] == old(out[..offset]) + source
  {
    for k := 0 to |source|
      invariant out[..offset] == old(out[..offset])
      invariant out[offset..offset + k] == source[..k]
    {
      out[offset + k] := source[k];
    }
    assert out[..offset + |source|] == out[..offset] + out[offset..offset + |source|];
  }

  function Total(lengths: seq<nat>): nat {
    if lengths == [] then 0 else lengths[0] + Total(lengths[1..])
  }

  lemma {:induction false} TotalIsFlattened(buffers: seq<seq<Byte>>)
    ensures Total(Lengths(buffers)) == |Flatten(buffers)|
  {
    if buffers != [] {
      TotalIsFlattened(buffers[1..]);
      LengthsTail(buffers);
    }
  }

  lemma NextBuffer(buffers: seq<seq<Byte>>, i: nat)
    requires i < |buffers|
    ensures Flatten(buffers[..i + 1]) == Flatten(buffers[..i]) + buffers[i]
    ensures |Flatten(buffers[..i])| + |buffers[i]| <= |Flatten(buffers)|
  {
    FlattenSnoc(buffers[..i], buffers[i]);
    TakeNext(buffers, i);
    FlattenConcat(buffers[..i + 1], buffers[i + 1..]);
    TakeDrop(buffers, i + 1);
  }

  method WriteBuffers(out: array<Byte>, start: nat, buffers: seq<seq<Byte>>)
    requires start + |Flatten(buffers)| == out.Length
    modifies out
    ensures out[..] == old(out[..start]) + Flatten(buffers)
  {
    var offset := start;
    for i := 0 to |buffers|
      invariant offset == start + |Flatten(buffers[..i])| <= out.Length
      invariant out[..offset] == old(out[..start]) + Flatten(buffers[..i])
    {
      NextBuffer(buffers, i);
      CopyInto(out, offset, buffers[i]);
      offset := offset + |buffers[i]|;
    }
    assert buffers[..|buffers|] == buffers;
    assert out[..offset] == out[..];
  }

  method PackDescriptor(d: Descriptor, codec: Codec) returns (r: Result<seq<Byte>, EnvelopeError>)
    ensures r == var header := codec.dumps(HeaderOf(d));
                 if |header| < 0x1_0000_0000 then Ok(Packed(d, header)) else Err(HeaderTooLong)
  {
    var header := codec.dumps(HeaderOf(d));
    if |header| >= 0x1_0000_0000 {
      return Err(HeaderTooLong);
    }
    TotalIsFlattened(d.buffers);
    var prefix := PREFIX;
    var out := new Byte[|prefix| + 4 + |header| + Total(Lengths(d.buffers))](_ => 0);
    CopyInto(out, 0, prefix);
    assert out[..|prefix|] == prefix;
    CopyInto(out, |prefix|, Le32(|header|));
    CopyInto(out, |prefix| + 4, header);
    WriteBuffers(out, |prefix| + 4 + |header|, d.buffers);
    return Ok(out[..]);
  }

  // ---- Unpacking ----

  /** Consecutive pieces of the given lengths from `offset` on; pieces past the end come out short. */
  function Cut(data: seq<Byte>, offset: nat, lengths: seq<nat>): seq<seq<Byte>>
    decreases |lengths|
  {
    if lengths == [] then []
    else [Slice(data, offset, lengths[0])] + Cut(data, offset + lengths[0], lengths[1..])
  }

  /** What is read from the bytes after the prefix. */
  function Decoded(data: seq<Byte>, codec: Codec): Result<Descriptor, EnvelopeError> {
    if |data| < 4 then Err(TooShort)
    else
      var headerLen := FromLe32(data);
      if |data| < 4 + headerLen then Err(Truncated)
      else
        var loaded := codec.loads(data[4..4 + headerLen]);
        if loaded.None? then Err(BadHeader)
        else
          var h := loaded.value;
          Ok(Descriptor(Cut(data, 4 + headerLen, h.bufferLengths), h.version,
                        h.dtype, h.shape, h.strides, h.transport, h.checksum))
  }

  function Unpacked(payload: seq<Byte>, codec: Codec): Result<Descriptor, EnvelopeError> {
    Decoded(payload[Min(|PREFIX|, |payload|)..], codec)
  }

  lemma {:induction false} CutSnoc(data: seq<Byte>, offset: nat, lengths: seq<nat>, length: nat)
    ensures Cut(data, offset, lengths + [length]) ==
            Cut(data, offset, lengths) + [Slice(data, offset + Total(lengths), length)]
    decreases |lengths|
  {
    if lengths == [] {
      assert [length][1..] == [];
    } else {
      CutSnoc(data, offset + lengths[0], lengths[1..], length);
      assert (lengths + [length])[1..] == lengths[1..] + [length];
    }
  }

  lemma {:induction false} TotalSnoc(lengths: seq<nat>, length: nat)
    ensures Total(lengths + [length]) == Total(lengths) + length
  {
    if lengths == [] {
      assert [length][1..] == [];
    } else {
      TotalSnoc(lengths[1..], length);
      assert (lengths + [length])[1..] == lengths[1..] + [length];
    }
  }

  method CutBuffers(data: seq<Byte>, start: nat, lengths: seq<nat>) returns (buffers: seq<seq<Byte>>)
    ensures buffers == Cut(data, start, lengths)
  {
    var offset := start;
    buffers := [];
    for i := 0 to |lengths|
      invariant offset == start + Total(lengths[..i])
      invariant buffers == Cut(data, start, lengths[..i])
    {
      TakeNext(lengths, i);
      CutSnoc(data, start, lengths[..i], lengths[i]);
      TotalSnoc(lengths[..i], lengths[i]);
      buffers := buffers + [Slice(data, offset, lengths[i])];
      offset := offset + lengths[i];
    }
    assert lengths[..|lengths|] == lengths;
  }

  method UnpackDescriptor(payload: seq<Byte>, codec: Codec) returns (r: Result<Descriptor, EnvelopeError>)
    ensures r == Unpacked(payload, codec)
  {
    var data := payload[Min(|PREFIX|, |payload|)..];
    if |data| < 4 {
      return Err(TooShort);
    }
    var headerLen := FromLe32(data);
    if |data| < 4 + headerLen {
      return Err(Truncated);
    }
    var loaded := codec.loads(data[4..4 + headerLen]);
    if loaded.None? {
      return Err(BadHeader);
    }
    var buffers := CutBuffers(data, 4 + headerLen, loaded.value.bufferLengths);
    var h := loaded.value;
    return Ok(Descriptor(buffers, h.version, h.dtype, h.shape, h.strides, h.transport, h.checksum));
  }

  // ---- What a reader gets back ----

  lemma MiddleCut(before: seq<Byte>, first: seq<Byte>, rest: seq<Byte>, after: seq<Byte>)
    ensures before + (first + rest) + after == (before + first) + rest + after
    ensures Slice(before + (first + rest) + after, |before|, |first|) == first
  {
    var whole := before + (first + rest) + after;
    assert whole[|before|..|before| + |first|] == first;
  }

  lemma LengthsTail(buffers: seq<seq<Byte>>)
    requires buffers != []
    ensures Lengths(buffers) != [] && Lengths(buffers)[0] == |buffers[0]|
    ensures Lengths(buffers)[1..] == Lengths(buffers[1..])
  {
  }

  lemma {:induction false} CutRecovers(before: seq<Byte>, buffers: seq<seq<Byte>>, after: seq<Byte>, whole: seq<Byte>)
    requires whole == before + Flatten(buffers) + after
    ensures Cut(whole, |before|, Lengths(buffers)) == buffers
    decreases |buffers|
  {
    if buffers != [] {
      MiddleCut(before, buffers[0], Flatten(buffers[1..]), after);
      CutRecovers(before + buffers[0], buffers[1..], after, whole);
      LengthsTail(buffers);
      assert [buffers[0]] + buffers[1..] == buffers;
    }
  }

  /** The codec gives this header back. */
  predicate Decodes(codec: Codec, h: Header) {
    codec.loads(codec.dumps(h)) == Some(h)
  }

  lemma DecodedRoundTrip(d: Descriptor, codec: Codec, extra: seq<Byte>)
    requires |codec.dumps(HeaderOf(d))| < 0x1_0000_0000 && Decodes(codec, HeaderOf(d))
    ensures var header := codec.dumps(HeaderOf(d));
            Decoded(Le32(|header|) + header + Flatten(d.buffers) + extra, codec) == Ok(d)
  {
    var header := codec.dumps(HeaderOf(d));
    var data := Le32(|header|) + header + Flatten(d.buffers) + extra;
    assert data == Le32(|header|) + (header + Flatten(d.buffers) + extra);
    Le32RoundTrip(|header|, header + Flatten(d.buffers) + extra);
    assert data[4..4 + |header|] == header;
    CutRecovers(Le32(|header|) + header, d.buffers, extra, data);
  }

  /** Unpacking a packed descriptor returns it, for any buffers, and ignores anything appended. */
  lemma RoundTrip(d: Descriptor, codec: Codec, extra: seq<Byte>)
    requires |codec.dumps(HeaderOf(d))| < 0x1_0000_0000 && Decodes(codec, HeaderOf(d))
    ensures Unpacked(Packed(d, codec.dumps(HeaderOf(d))) + extra, codec) == Ok(d)
  {
    var header := codec.dumps(HeaderOf(d));
    DecodedRoundTrip(d, codec, extra);
    DropPrefix(PREFIX, Le32(|header|), header, Flatten(d.buffers), extra);
  }

  lemma DropPrefix(p: seq<Byte>, a: seq<Byte>, b: seq<Byte>, c: seq<Byte>, e: seq<Byte>)
    ensures (p + a + b + c + e)[|p|..] == a + b + c + e
  {
  }

  lemma {:induction false} CutKeepsBytes(data: seq<Byte>, offset: nat, lengths: seq<nat>)
    ensures Flatten(Cut(data, offset, lengths)) == Slice(data, offset, Total(lengths))
    decreases |lengths|
  {
    if lengths != [] {
      CutKeepsBytes(data, offset + lengths[0], lengths[1..]);
    }
  }

  /** A cut after the length field leaves it readable. */
  lemma LengthStays(header: seq<Byte>, raw: seq<Byte>, length: nat)
    requires |header| < 0x1_0000_0000 && 4 <= length <= 4 + |header| + |raw|
    ensures FromLe32((Le32(|header|) + header + raw)[..length]) == |header|
  {
    assert (Le32(|header|) + header + raw)[..length] == Le32(|header|) + (header + raw)[..length - 4];
    Le32RoundTrip(|header|, (header + raw)[..length - 4]);
  }

  /** A cut after the header leaves the header and the first of the buffer bytes. */
  lemma HeaderStays(size: seq<Byte>, header: seq<Byte>, raw: seq<Byte>, length: nat)
    requires |size| == 4 && 4 + |header| <= length <= 4 + |header| + |raw|
    ensures var data := (size + header + raw)[..length];
            && data[4..4 + |header|] == header
            && Slice(data, 4 + |header|, |raw|) == raw[..length - 4 - |header|]
  {
    var kept := raw[..length - 4 - |header|];
    assert (size + header + raw)[..length] == size + header + kept;
    assert (size + header + kept)[4..4 + |header|] == header;
  }

  lemma DecodedTruncation(d: Descriptor, codec: Codec, header: seq<Byte>, length: nat)
    requires header == codec.dumps(HeaderOf(d)) && |header| < 0x1_0000_0000 && Decodes(codec, HeaderOf(d))
    requires length <= 4 + |header| + |Flatten(d.buffers)|
    ensures CutReads(d, header, length, Decoded((Le32(|header|) + header + Flatten(d.buffers))[..length], codec))
  {
    var raw := Flatten(d.buffers);
    var data := (Le32(|header|) + header + raw)[..length];
    assert |data| == length;
    if length >= 4 {
      LengthStays(header, raw, length);
      if length >= 4 + |header| {
        HeaderStays(Le32(|header|), header, raw, length);
        CutKeepsBytes(data, 4 + |header|, Lengths(d.buffers));
        TotalIsFlattened(d.buffers);
      }
    }
  }

  /** What a reader makes of the first `length` bytes of a packed descriptor. */
  ghost predicate CutReads(d: Descriptor, header: seq<Byte>, length: int, r: Result<Descriptor, EnvelopeError>) {
    && (r.Err? <==> length < 4 + |header|)
    && (r.Ok? ==> |Flatten(d.buffers)| >= length - 4 - |header| &&
                  Flatten(r.value.buffers) == Flatten(d.buffers)[..length - 4 - |header|])
  }

  lemma CutAfterPrefix(d: Descriptor, codec: Codec, header: seq<Byte>, length: nat)
    requires header == codec.dumps(HeaderOf(d)) && |header| < 0x1_0000_0000 && Decodes(codec, HeaderOf(d))
    requires |PREFIX| <= length <= |Packed(d, header)|
    ensures CutReads(d, header, length - |PREFIX|, Unpacked(Packed(d, header)[..length], codec))
  {
    var raw := Flatten(d.buffers);
    DropPrefixThenCut(PREFIX, Le32(|header|), header, raw, length);
    UnpackedIs(Packed(d, header)[..length], codec, (Le32(|header|) + header + raw)[..length - |PREFIX|]);
    DecodedTruncation(d, codec, header, length - |PREFIX|);
  }

  /**
   Cutting a packed descriptor short is noticed exactly when the cut falls before the end of the header;
   a cut inside the buffers goes unnoticed and yields the buffer bytes that are left.
   */
  lemma TruncationIsNoticedInHeaderOnly(d: Descriptor, codec: Codec, header: seq<Byte>, length: nat)
    requires header == codec.dumps(HeaderOf(d)) && |header| < 0x1_0000_0000 && Decodes(codec, HeaderOf(d))
    requires length <= |Packed(d, header)|
    ensures CutReads(d, header, length - |PREFIX|, Unpacked(Packed(d, header)[..length], codec))
  {
    if length >= |PREFIX| {
      CutAfterPrefix(d, codec, header, length);
    } else {
      UnpackedShort(Packed(d, header)[..length], codec);
    }
  }

  lemma UnpackedIs(payload: seq<Byte>, codec: Codec, data: seq<Byte>)
    requires |payload| >= |PREFIX| && payload[|PREFIX|..] == data
    ensures Unpacked(payload, codec) == Decoded(data, codec)
  {
  }

  lemma UnpackedShort(payload: seq<Byte>, codec: Codec)
    requires |payload| < |PREFIX|
    ensures Unpacked(payload, codec).Err?
  {
  }

  lemma DropPrefixThenCut(p: seq<Byte>, a: seq<Byte>, b: seq<Byte>, c: seq<Byte>, length: nat)
    requires |p| <= length <= |p + a + b + c|
    ensures (p + a + b + c)[..length][|p|..] == (a + b + c)[..length - |p|]
  {
  }

  // ---- The layout ----

  /** The prefix spells its name. */
  lemma PrefixReads()
    ensures |PREFIX| == |"__pulsing_zc_v2__:"|
    ensures forall i :: 0 <= i < |PREFIX| ==> PREFIX[i] as int == "__pulsing_zc_v2__:"[i] as int
  {
  }

  /** The length stands in four bytes, the lowest first. */
  lemma LowestFirst(n: nat)
    requires n < 0x1_0000_0000
    ensures var bytes := Le32(n);
            && n == bytes[0] as int + 256 * (bytes[1] as int + 256 * (bytes[2] as int + 256 * bytes[3] as int))
  {
    assert n / 0x1_0000 == n / 0x100 / 0x100 && n / 0x100_0000 == n / 0x100 / 0x100 / 0x100;
  }

  lemma PartsOf(p: seq<Byte>, a: seq<Byte>, b: seq<Byte>, c: seq<Byte>)
    ensures var all := p + a + b + c;
            && all[..|p|] == p && all[|p|..|p| + |a|] == a
            && all[|p| + |a|..|p| + |a| + |b|] == b && all[|p| + |a| + |b|..] == c
  {
  }

  /** An envelope is the prefix, the length of the header, the header, and the buffers end to end. */
  lemma PackedLayout(d: Descriptor, header: seq<Byte>)
    requires |header| < 0x1_0000_0000
    ensures var all, n := Packed(d, header), |PREFIX|;
            && |all| == n + 4 + |header| + |Flatten(d.buffers)| && all[..n] == PREFIX
            && FromLe32(all[n..n + 4]) == |header| && all[n + 4..n + 4 + |header|] == header
            && all[n + 4 + |header|..] == Flatten(d.buffers)
  {
    PartsOf(PREFIX, Le32(|header|), header, Flatten(d.buffers));
    Le32RoundTrip(|header|, []);
    assert Le32(|header|) + [] == Le32(|header|);
  }

  /** The header says how many buffers there are and how long each is. */
  lemma HeaderDescribes(d: Descriptor, i: nat)
    requires i < |d.buffers|
    ensures HeaderOf(d).bufferCount == |HeaderOf(d).bufferLengths| == |d.buffers|
    ensures HeaderOf(d).bufferLengths[i] == |d.buffers[i]|
  {
  }

  /** A payload is refused exactly if it is too short for its length field or header, or its header is unreadable. */
  lemma RefusedExactly(payload: seq<Byte>, codec: Codec)
    ensures var r, n := Unpacked(payload, codec), |PREFIX| + 4;
            && (r == Err(TooShort) <==> |payload| < n)
            && (|payload| >= n ==>
                  var size := FromLe32(payload[|PREFIX|..n]);
                  && (r == Err(Truncated) <==> |payload| < n + size)
                  && (|payload| >= n + size ==>
                        (r.Ok? <==> codec.loads(payload[n..n + size]).Some?) && (r.Err? ==> r.error == BadHeader)))
  {
    var n := |PREFIX| + 4;
    if |payload| >= n {
      var data := payload[|PREFIX|..];
      assert data[..4] == payload[|PREFIX|..n];
      var size := FromLe32(payload[|PREFIX|..n]);
      assert FromLe32(data) == size;
      if |payload| >= n + size {
        assert data[4..4 + size] == payload[n..n + size];
      }
    }
  }
}
