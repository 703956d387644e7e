/** The tunnel packet codec of src/packet.rs, modelled as written: a tunnel
    packet is a 64-byte ICMP-echo-shaped buffer whose bytes 4..6 and 6..8
    carry a connection id and a sequence number and whose bytes 8..64 carry a
    56-byte payload. */
module Packet {
  import opened Bytes

  const PackLen: nat := 64
  const HeaderLen: nat := 8
  const PayloadLen: nat := 56
  /** Size of one IPv4 header plus one packet, as `decode_packs` cuts its input. */
  const DatagramLen: nat := 84
  /** `decode_packs` takes exactly four datagrams. */
  const DatagramCount: nat := 4

  /** `[u8; 64]`. */
  type RawPack = s: seq<u8> | |s| == 64 witness seq(64, _ => 0)

  /** `struct TunnelPacket`: built once by `new` and never changed afterwards. */
  datatype TunnelPacket = TunnelPacket(id: u16, seqNum: u16, rawPack: RawPack)
  {
    /** `Packet::packet`: the whole buffer. */
    function Packet(): (r: seq<u8>)
      ensures |r| == PackLen
    {
      rawPack
    }

    /** `Packet::payload`: everything after the 8-byte header. */
    function Payload(): (r: seq<u8>)
      ensures |r| == PayloadLen
    {
      rawPack[HeaderLen..]
    }
  }

  // ---------------------------------------------------------------------
  // calculate_checksum

  /** The closure given to `fold`: the wrapped sum is computed and dropped,
      and the accumulator is handed on unchanged. */
  function FoldStep(acc: u32, hi: u8, lo: u8): u32
  {
    var dropped := WrappingAddU32(acc, U16FromBE(hi, lo));
    acc
  }

  /** `pack.chunks(2).fold(acc, ..)`: a 1-byte last chunk panics in
      `copy_from_slice` into the 2-byte word. */
  function ChecksumFold(words: seq<u8>, acc: u32): (r: Result<u32>)
    ensures r == if |words| % 2 == 0 then Ok(acc) else Panic(LengthMismatch)
    decreases |words|
  {
    if |words| == 0 then Ok(acc)
    else if |words| == 1 then Panic(LengthMismatch)
    else ChecksumFold(words[2..], FoldStep(acc, words[0], words[1]))
  }

  /** `(sum >> 16) + (sum & 0xffff) + (sum >> 16)` cast `as u16`. The sum of
      the three terms is below 2^32, so only the cast truncates. */
  function FoldTail(sum: u32): u16
  {
    (sum / 0x1_0000 + sum % 0x1_0000 + sum / 0x1_0000) % 0x1_0000
  }

  /** `TunnelPacket::calculate_checksum`: 0 for every even-length input. */
  function CalculateChecksum(pack: seq<u8>): (r: Result<u16>)
    ensures r == if |pack| % 2 == 0 then Ok(0) else Panic(LengthMismatch)
  {
    match ChecksumFold(pack, 0)
    case Ok(sum) => Ok(FoldTail(sum))
    case Panic(why) => Panic(why)
  }

  // ---------------------------------------------------------------------
  // TunnelPacket::new

  /** The buffer `new` has filled when it computes the checksum: bytes 2..4
      still zero. */
  function Unsummed(id: u16, seqNum: u16, payload: seq<u8>): (r: seq<u8>)
    requires |payload| == PayloadLen
    ensures |r| == PackLen
  {
    [0, 0, 0, 0] + U16ToBE(id) + U16ToBE(seqNum) + payload
  }

  /** What `new(id, seqNum, payload)` returns. The checksum that `new`
      stores in bytes 2..4 is always 0 (NewStoresChecksum), so the packet is
      the unsummed buffer itself. */
  function NewSpec(id: u16, seqNum: u16, payload: seq<u8>): TunnelPacket
    requires |payload| == PayloadLen
  {
    TunnelPacket(id, seqNum, Unsummed(id, seqNum, payload))
  }

  /** `NewSpec` is what `new` builds: the checksum of the unsummed buffer,
      written big-endian into bytes 2..4. */
  lemma NewStoresChecksum(id: u16, seqNum: u16, payload: seq<u8>)
    requires |payload| == PayloadLen
    ensures var unsummed := Unsummed(id, seqNum, payload);
      && CalculateChecksum(unsummed) == Ok(0)
      && NewSpec(id, seqNum, payload).rawPack
         == unsummed[..2] + U16ToBE(CalculateChecksum(unsummed).value) + unsummed[4..]
  {
    var unsummed := Unsummed(id, seqNum, payload);
    assert unsummed == unsummed[..2] + [0, 0] + unsummed[4..];
  }

  /** `TunnelPacket::new`, filling a zeroed 64-byte buffer in place. */
  method New(id: u16, seqNum: u16, payload: seq<u8>) returns (p: TunnelPacket)
    requires |payload| == PayloadLen
    ensures p == NewSpec(id, seqNum, payload)
  {
    var pack := new u8[PackLen](_ => 0);
    WriteU16BE(pack, 4, id);
    WriteU16BE(pack, 6, seqNum);
    // `io::Write` on the 56-byte tail accepts all 56 bytes, so the error
    // branch of the source never runs.
    CopyInto(pack, HeaderLen, payload);
    assert pack[..] == Unsummed(id, seqNum, payload);
    var checksum := CalculateChecksum(pack[..]);
    WriteU16BE(pack, 2, checksum.value);
    NewStoresChecksum(id, seqNum, payload);
    p := TunnelPacket(id, seqNum, pack[..]);
  }

  /** The layout of `new(id, seqNum, p)`: the fields are the arguments;
      type, code and checksum are zero; big-endian id and sequence follow;
      `payload()` is `p` and `packet()` is the whole buffer. */
  lemma NewLayout(id: u16, seqNum: u16, p: seq<u8>)
    requires |p| == PayloadLen
    ensures var q := NewSpec(id, seqNum, p);
      && q.id == id && q.seqNum == seqNum
      && q.Packet() == [0, 0, 0, 0] + U16ToBE(id) + U16ToBE(seqNum) + p
      && q.rawPack[..4] == [0, 0, 0, 0]
      && ReadU16BE(q.rawPack, 4) == id && ReadU16BE(q.rawPack, 6) == seqNum
      && q.Payload() == p
  {
    var raw := NewSpec(id, seqNum, p).rawPack;
    assert raw[4..6] == U16ToBE(id) && raw[6..8] == U16ToBE(seqNum);
  }

  // ---------------------------------------------------------------------
  // From<IcmpPacket>

  /** What `TunnelPacket::from(item)` returns, for the bytes `item` of
      `item.packet()`; `item.payload()` is `item[4..]`. */
  function FromSpec(item: seq<u8>): Result<TunnelPacket>
    requires |item| >= 4
  {
    if |item| < 9 then Panic(IndexOutOfRange)
    else if |item| - 8 != PayloadLen then Panic(LengthMismatch)
    else Ok(NewSpec(ReadU16BE(item, 5), ReadU16BE(item, 7), item[8..]))
  }

  /** `impl From<IcmpPacket> for TunnelPacket`. `item` is `packet()` of an
      `IcmpPacket`, which pnet only builds over at least 4 bytes. */
  method FromIcmp(item: seq<u8>) returns (r: Result<TunnelPacket>)
    requires |item| >= 4
    ensures r == FromSpec(item)
    ensures r.Ok? <==> |item| == PackLen
    ensures r == Panic(IndexOutOfRange) <==> |item| < 9
  {
    var idseqBuf := new u8[2](_ => 0);
    if |item| < 7 {
      return Panic(IndexOutOfRange);
    }
    CopyInto(idseqBuf, 0, item[5..7]);
    var id := U16FromBE(idseqBuf[0], idseqBuf[1]);
    assert id == ReadU16BE(item, 5) by {
      assert idseqBuf[0] == item[5] && idseqBuf[1] == item[6];
    }
    if |item| < 9 {
      return Panic(IndexOutOfRange);
    }
    CopyInto(idseqBuf, 0, item[7..9]);
    var seqNum := U16FromBE(idseqBuf[0], idseqBuf[1]);
    assert seqNum == ReadU16BE(item, 7) by {
      assert idseqBuf[0] == item[7] && idseqBuf[1] == item[8];
    }
    var icmpPayload := item[4..];
    var tail := icmpPayload[4..];
    var buf := new u8[PayloadLen](_ => 0);
    if |tail| != buf.Length {
      return Panic(LengthMismatch);
    }
    CopyInto(buf, 0, tail);
    assert buf[..] == item[8..];
    var p := New(id, seqNum, buf[..]);
    r := Ok(p);
  }

  /** Decoding a packet built by `new` gives back its payload, but its id is
      read from bytes 5..7 and its sequence from bytes 7..9. */
  lemma FromOfNew(id: u16, seqNum: u16, p: seq<u8>)
    requires |p| == PayloadLen
    ensures FromSpec(NewSpec(id, seqNum, p).rawPack)
         == Ok(NewSpec((id % 0x100) * 0x100 + seqNum / 0x100, (seqNum % 0x100) * 0x100 + p[0], p))
  {
    var raw := NewSpec(id, seqNum, p).rawPack;
    NewLayout(id, seqNum, p);
    assert raw[5] == id % 0x100 && raw[6] == seqNum / 0x100;
    assert raw[7] == seqNum % 0x100 && raw[8] == p[0];
    assert raw[8..] == p;
  }

  /** The id survives `new` then `from` exactly when both of its bytes equal
      the high byte of the sequence number. */
  lemma FromRecoversIdIff(id: u16, seqNum: u16, p: seq<u8>)
    requires |p| == PayloadLen
    ensures FromSpec(NewSpec(id, seqNum, p).rawPack).value.id == id
        <==> id / 0x100 == id % 0x100 == seqNum / 0x100
  {
    FromOfNew(id, seqNum, p);
  }

  /** The received type, code and checksum play no part: they are dropped and
      the checksum is recomputed. */
  lemma FromIgnoresHeader(a: seq<u8>, b: seq<u8>)
    requires |a| == |b| == PackLen
    requires a[4..] == b[4..]
    ensures FromSpec(a) == FromSpec(b)
    ensures FromSpec(a).Ok? && FromSpec(a).value.rawPack[..4] == [0, 0, 0, 0]
  {
    assert a[5] == b[5] && a[6] == b[6] && a[7] == b[7] && a[8] == b[8];
    assert a[8..] == a[4..][4..] == b[4..][4..] == b[8..];
  }

  // ---------------------------------------------------------------------
  // encode_packs

  function Min(a: nat, b: nat): nat { if a <= b then a else b }

  /** How many chunks `bytes.chunks(56)` yields for `n` bytes. */
  function ChunkCount(n: nat): nat { (n + PayloadLen - 1) / PayloadLen }

  /** The `k`-th chunk of `b.chunks(56)`. */
  function Chunk(b: seq<u8>, k: nat): (c: seq<u8>)
    requires k < ChunkCount(|b|)
    ensures 0 < |c| <= PayloadLen
  {
    b[PayloadLen * k .. Min(PayloadLen * k + PayloadLen, |b|)]
  }

  /** A chunk copied into the front of a zeroed 56-byte array. */
  function PadChunk(c: seq<u8>): (r: seq<u8>)
    requires |c| <= PayloadLen
    ensures |r| == PayloadLen
  {
    c + Zeros(PayloadLen - |c|)
  }

  /** The `k`-th packet `encode_packs(id, b)` pushes; `seq += 1` wraps. */
  function EncodedPack(id: u16, b: seq<u8>, k: nat): TunnelPacket
    requires k < ChunkCount(|b|)
  {
    NewSpec(id, k % 0x1_0000, PadChunk(Chunk(b, k)))
  }

  /** What `encode_packs(id, b)` returns. */
  function EncodeSpec(id: u16, b: seq<u8>): (packs: seq<TunnelPacket>)
    ensures |packs| == ChunkCount(|b|)
    ensures forall k :: 0 <= k < |packs| ==> packs[k] == EncodedPack(id, b, k)
  {
    seq(ChunkCount(|b|), k requires 0 <= k < ChunkCount(|b|) => EncodedPack(id, b, k))
  }

  /** `k < ceil(n / 56)` exactly when chunk `k` starts inside the input. */
  lemma ChunkCountBound(n: nat, k: nat)
    ensures k < ChunkCount(n) <==> PayloadLen * k < n
  {
  }

  /** One turn of the `encode_packs` loop: the chunk is copied into the front
      of a zeroed 56-byte array (whole, or as the short last chunk) and the
      array is handed to `new`. */
  method ChunkToPack(id: u16, seqNum: u16, chunk: seq<u8>) returns (pack: TunnelPacket)
    requires |chunk| <= PayloadLen
    ensures pack == NewSpec(id, seqNum, PadChunk(chunk))
  {
    var buf := new u8[PayloadLen](_ => 0);
    if |chunk| == PayloadLen {
      CopyInto(buf, 0, chunk);  // `copy_from_slice` of the whole chunk
    } else {
      CopyInto(buf, 0, chunk);  // `ptr::copy` of `chunk.len()` bytes
    }
    assert buf[..] == PadChunk(chunk);
    pack := New(id, seqNum, buf[..]);
  }

  /** `encode_packs`: one packet per 56-byte chunk, numbered from 0. */
  method EncodePacks(id: u16, payload: seq<u8>) returns (packs: seq<TunnelPacket>)
    ensures packs == EncodeSpec(id, payload)
  {
    packs := [];
    var seqNum: u16 := 0;
    var start := 0;
    ghost var spec := EncodeSpec(id, payload);
    while start < |payload|
      invariant start == PayloadLen * |packs|
      invariant |packs| <= ChunkCount(|payload|)
      invariant seqNum == |packs| % 0x1_0000
      invariant packs == spec[..|packs|]
      decreases |payload| - start
    {
      ChunkCountBound(|payload|, |packs|);
      var chunk := payload[start .. Min(start + PayloadLen, |payload|)];
      assert chunk == Chunk(payload, |packs|);
      var pack := ChunkToPack(id, seqNum, chunk);
      PrefixStep(spec, |packs|);
      assert spec[|packs|] == EncodedPack(id, payload, |packs|) == pack;
      packs := packs + [pack];
      seqNum := (seqNum + 1) % 0x1_0000;
      start := start + PayloadLen;
    }
    ChunkCountBound(|payload|, |packs|);
    assert spec[..|packs|] == spec;
  }

  /** Growing a prefix by one element. */
  lemma PrefixStep(s: seq<TunnelPacket>, n: nat)
    requires n < |s|
    ensures s[..n + 1] == s[..n] + [s[n]]
  {
  }

  /** `encode_packs` yields ceil(|b| / 56) packets, none for empty input. */
  lemma EncodeCount(id: u16, b: seq<u8>)
    ensures var n := |EncodeSpec(id, b)|;
      PayloadLen * n - PayloadLen < |b| <= PayloadLen * n
    ensures EncodeSpec(id, b) == [] <==> b == []
  {
  }

  /** Packet `k` carries the caller's id and sequence number `k`, which wraps
      at 2^16 and so stays `k` below 65536 chunks. */
  lemma EncodeNumbering(id: u16, b: seq<u8>, k: nat)
    requires k < |EncodeSpec(id, b)|
    ensures EncodeSpec(id, b)[k].id == id
    ensures EncodeSpec(id, b)[k].seqNum == k % 0x1_0000
    ensures |b| <= PayloadLen * 0x1_0000 ==> EncodeSpec(id, b)[k].seqNum == k
  {
  }

  /** Byte `j` of the payload of packet `k` is byte `56 * k + j` of the input,
      or a zero pad past its end. */
  lemma EncodePayloadAt(id: u16, b: seq<u8>, k: nat, j: nat)
    requires k < |EncodeSpec(id, b)| && j < PayloadLen
    ensures EncodeSpec(id, b)[k].Payload()[j]
         == if PayloadLen * k + j < |b| then b[PayloadLen * k + j] else 0
  {
    var c := Chunk(b, k);
    assert EncodeSpec(id, b)[k].Payload() == PadChunk(c);
    if j < |c| {
      assert PadChunk(c)[j] == c[j];
    } else {
      assert PadChunk(c)[j] == 0;
    }
  }

  /** The payloads of a sequence of packets, in order. */
  function Payloads(packs: seq<TunnelPacket>): (r: seq<seq<u8>>)
    ensures |r| == |packs|
    ensures forall k :: 0 <= k < |r| ==> r[k] == packs[k].Payload()
  {
    seq(|packs|, k requires 0 <= k < |packs| => packs[k].Payload())
  }

  /** Concatenation of a sequence of byte strings. */
  function Flatten(ss: seq<seq<u8>>): seq<u8>
  {
    if ss == [] then [] else Flatten(ss[..|ss| - 1]) + ss[|ss| - 1]
  }

  lemma {:induction false} FlattenAt(ss: seq<seq<u8>>, k: nat, j: nat)
    requires forall i :: 0 <= i < |ss| ==> |ss[i]| == PayloadLen
    requires k < |ss| && j < PayloadLen
    ensures |Flatten(ss)| == PayloadLen * |ss|
    ensures Flatten(ss)[PayloadLen * k + j] == ss[k][j]
  {
    var front := ss[..|ss| - 1];
    if k < |ss| - 1 {
      FlattenAt(front, k, j);
    } else if |ss| > 1 {
      FlattenAt(front, 0, 0);
    } else {
      assert front == [];
    }
  }

  /** The payloads of `encode_packs(id, b)`, concatenated, are `b` followed
      by zeros up to the next multiple of 56. */
  lemma EncodeConcat(id: u16, b: seq<u8>)
    ensures var packs := EncodeSpec(id, b);
      Flatten(Payloads(packs)) == b + Zeros(PayloadLen * |packs| - |b|)
  {
    var packs := EncodeSpec(id, b);
    var ss := Payloads(packs);
    var want := b + Zeros(PayloadLen * |packs| - |b|);
    EncodeCount(id, b);
    if packs == [] {
      assert ss == [];
    } else {
      FlattenAt(ss, 0, 0);
      forall x | 0 <= x < |want|
        ensures Flatten(ss)[x] == want[x]
      {
        var k, j := x / PayloadLen, x % PayloadLen;
        assert x == PayloadLen * k + j;
        FlattenAt(ss, k, j);
        EncodePayloadAt(id, b, k, j);
      }
    }
  }

  /** Encoding the five bytes of "hello" gives one packet: the caller's id,
      sequence 0, and "hello" followed by 51 zeros. */
  lemma EncodeHello(id: u16, hello: seq<u8>)
    requires hello == [0x68, 0x65, 0x6c, 0x6c, 0x6f]
    ensures EncodeSpec(id, hello) == [NewSpec(id, 0, hello + Zeros(51))]
  {
    assert Chunk(hello, 0) == hello;
    assert PadChunk(hello) == hello + Zeros(51);
    assert EncodeSpec(id, hello)[0] == EncodedPack(id, hello, 0);
  }

  /** 120 bytes give three packets numbered 0, 1, 2 carrying 56, 56 and 8 bytes. */
  lemma Encode120(id: u16, b: seq<u8>)
    requires |b| == 120
    ensures var packs := EncodeSpec(id, b);
      |packs| == 3 && packs[0].seqNum == 0 && packs[1].seqNum == 1 && packs[2].seqNum == 2
      && packs[0].Payload() == b[..56] && packs[1].Payload() == b[56..112]
      && packs[2].Payload() == b[112..] + Zeros(48)
  {
    assert Chunk(b, 0) == b[..56] && Chunk(b, 1) == b[56..112] && Chunk(b, 2) == b[112..];
  }

  // ---------------------------------------------------------------------
  // decode_packs

  /** The `k`-th packet `decode_packs(packs)` pushes: id and sequence from
      bytes 4..8 of the `k`-th 84-byte chunk, payload from bytes 28..84. */
  function DecodedPack(packs: seq<u8>, k: nat): TunnelPacket
    requires |packs| == DatagramLen * DatagramCount && k < DatagramCount
  {
    var at := DatagramLen * k;
    NewSpec(ReadU16BE(packs, at + 4), ReadU16BE(packs, at + 6), packs[at + 28 .. at + DatagramLen])
  }

  /** What `decode_packs(packs)` returns. */
  function DecodeSpec(packs: seq<u8>): (r: seq<TunnelPacket>)
    requires |packs| == DatagramLen * DatagramCount
    ensures |r| == DatagramCount
    ensures forall k :: 0 <= k < DatagramCount ==> r[k] == DecodedPack(packs, k)
  {
    seq(DatagramCount, k requires 0 <= k < DatagramCount => DecodedPack(packs, k))
  }

  /** `decode_packs`: refills one reused 56-byte buffer per 84-byte chunk. */
  method DecodePacks(packs: seq<u8>) returns (decoded: seq<TunnelPacket>)
    requires |packs| == DatagramLen * DatagramCount
    ensures decoded == DecodeSpec(packs)
  {
    var chunkBuf := new u8[PayloadLen](_ => 0);
    decoded := [];
    var start := 0;
    ghost var spec := DecodeSpec(packs);
    while start < |packs|
      invariant start == DatagramLen * |decoded| <= |packs|
      invariant decoded == spec[..|decoded|]
      decreases |packs| - start
    {
      var chunk := packs[start .. start + DatagramLen];
      var id := ReadU16BE(chunk, 4);
      var seqNum := ReadU16BE(chunk, 6);
      assert id == ReadU16BE(packs, start + 4) by {
        assert chunk[4] == packs[start + 4] && chunk[5] == packs[start + 5];
      }
      assert seqNum == ReadU16BE(packs, start + 6) by {
        assert chunk[6] == packs[start + 6] && chunk[7] == packs[start + 7];
      }
      CopyInto(chunkBuf, 0, chunk[28..]);
      assert chunkBuf[..] == packs[start + 28 .. start + DatagramLen];
      var pack := New(id, seqNum, chunkBuf[..]);
      PrefixStep(spec, |decoded|);
      assert spec[|decoded|] == DecodedPack(packs, |decoded|) == pack;
      decoded := decoded + [pack];
      start := start + DatagramLen;
    }
    assert spec[..|decoded|] == spec;
  }
}
