/** Corrected definitions for the defects of src/packet.rs listed under
    Findings in README.md, each beside a lemma that exhibits the defect in the
    as-written model of module Packet. */
module Intended {
  import opened Bytes
  import opened Packet

  // ---------------------------------------------------------------------
  // The Internet checksum of RFC 1071, section 1

  /** The sum of the big-endian 16-bit words of `s`; an odd last byte is
      padded with a zero byte. */
  function WordSum(s: seq<u8>): nat
  {
    if |s| == 0 then 0
    else if |s| == 1 then (s[0] as int) * 0x100
    else U16FromBE(s[0], s[1]) + WordSum(s[2..])
  }

  /** Adding the carries back in until the sum fits 16 bits: a one's
      complement sum, congruent to `x` modulo 0xffff and zero only for 0. */
  function CarryFold(x: nat): (r: nat)
    ensures r < 0x1_0000
    ensures r % 0xffff == x % 0xffff
    ensures r == 0 <==> x == 0
    decreases x
  {
    if x < 0x1_0000 then x
    else
      var y := x / 0x1_0000 + x % 0x1_0000;
      assert x == y + 0xffff * (x / 0x1_0000);
      CarryFold(y)
  }

  /** The one's complement of the one's complement sum of `s`. */
  function InternetChecksum(s: seq<u8>): u16
  {
    0xffff - CarryFold(WordSum(s))
  }

  /** Adding the complement of the folded sum: the new sum is a nonzero
      multiple of 0xffff, so it folds to 0xffff. */
  lemma ComplementFolds(t: nat)
    ensures CarryFold(t + 0xffff - CarryFold(t)) == 0xffff
  {
    var f := CarryFold(t);
    var u := t + 0xffff - f;
    assert t == 0xffff * (t / 0xffff) + f % 0xffff;
    assert f == f % 0xffff || f == 0xffff;
    assert u % 0xffff == 0;
    assert CarryFold(u) % 0xffff == 0 && CarryFold(u) != 0;
  }

  /** Filling the zero checksum field with `c` adds `c` to the word sum. */
  lemma FilledWordSum(s: seq<u8>, c: u16)
    requires |s| >= 4 && s[2] == 0 && s[3] == 0
    ensures WordSum(s[..2] + U16ToBE(c) + s[4..]) == WordSum(s) + c
  {
    var filled := s[..2] + U16ToBE(c) + s[4..];
    assert s[2..][2..] == s[4..] == filled[2..][2..];
    assert WordSum(s) == U16FromBE(s[0], s[1]) + WordSum(s[4..]);
    assert filled[0] == s[0] && filled[1] == s[1];
    assert WordSum(filled) == U16FromBE(s[0], s[1]) + U16FromBE(filled[2], filled[3]) + WordSum(s[4..]);
  }

  /** Storing the checksum of a body whose checksum field is zero makes the
      checksum of the stored packet zero, which is how a receiver verifies it. */
  lemma ChecksumVerifies(s: seq<u8>)
    requires |s| >= 4 && s[2] == 0 && s[3] == 0
    ensures InternetChecksum(s[..2] + U16ToBE(InternetChecksum(s)) + s[4..]) == 0
  {
    FilledWordSum(s, InternetChecksum(s));
    ComplementFolds(WordSum(s));
  }

  /** `new` with the intended checksum in bytes 2..4. */
  function NewIntended(id: u16, seqNum: u16, payload: seq<u8>): (p: TunnelPacket)
    requires |payload| == PayloadLen
    ensures InternetChecksum(p.rawPack) == 0
  {
    var unsummed := Unsummed(id, seqNum, payload);
    ChecksumVerifies(unsummed);
    TunnelPacket(id, seqNum, unsummed[..2] + U16ToBE(InternetChecksum(unsummed)) + unsummed[4..])
  }

  /** The word sum of a packet built by `new`: its id, its sequence and the
      words of its payload (the stored checksum being zero). */
  lemma NewWordSum(id: u16, seqNum: u16, p: seq<u8>)
    requires |p| == PayloadLen
    ensures WordSum(NewSpec(id, seqNum, p).rawPack) == id + seqNum + WordSum(p)
  {
    var raw := NewSpec(id, seqNum, p).rawPack;
    NewLayout(id, seqNum, p);
    var r2 := raw[2..];
    var r4 := r2[2..];
    var r6 := r4[2..];
    assert r6[2..] == p;
    assert raw[4..6] == U16ToBE(id) && raw[6..8] == U16ToBE(seqNum);
    assert WordSum(r6) == seqNum + WordSum(p);
    assert WordSum(r4) == id + WordSum(r6);
    assert WordSum(r2) == WordSum(r4);
    assert WordSum(raw) == WordSum(r2);
  }

  /** As written, every packet carries checksum 0, which RFC 1071
      verification accepts only when the rest of the packet already sums to
      0xffff; a packet with id 7, sequence 0 and a zero payload should carry
      0xfff8. */
  lemma ChecksumAsWrittenFails(id: u16, seqNum: u16, p: seq<u8>)
    requires |p| == PayloadLen
    ensures NewSpec(id, seqNum, p).rawPack[2..4] == [0, 0]
    ensures InternetChecksum(NewSpec(id, seqNum, p).rawPack) == 0
        <==> CarryFold(id + seqNum + WordSum(p)) == 0xffff
    ensures p == Zeros(PayloadLen) && id == 7 && seqNum == 0 ==>
      InternetChecksum(NewSpec(id, seqNum, p).rawPack) == 0xfff8
  {
    NewLayout(id, seqNum, p);
    NewWordSum(id, seqNum, p);
    ZerosSumToZero(PayloadLen);
  }

  lemma {:induction false} ZerosSumToZero(n: nat)
    ensures WordSum(Zeros(n)) == 0
  {
    if n >= 2 {
      assert Zeros(n)[2..] == Zeros(n - 2);
      ZerosSumToZero(n - 2);
    }
  }

  /** As written, the tail of `calculate_checksum` adds the high half twice:
      a sum of 0x10000 gives 2, where folding the carry gives 1. */
  lemma FoldTailAddsCarryTwice()
    ensures FoldTail(0x1_0000) == 2 && CarryFold(0x1_0000) == 1
  {
  }

  // ---------------------------------------------------------------------
  // From<IcmpPacket> reading id and sequence from bytes 4..6 and 6..8

  /** `from` reading the id and sequence where `new` writes them. */
  function FromIntended(item: seq<u8>): Result<TunnelPacket>
    requires |item| >= 4
  {
    if |item| < 8 then Panic(IndexOutOfRange)
    else if |item| - 8 != PayloadLen then Panic(LengthMismatch)
    else Ok(NewSpec(ReadU16BE(item, 4), ReadU16BE(item, 6), item[8..]))
  }

  /** The corrected decoder inverts `new`. */
  lemma FromIntendedRoundTrip(id: u16, seqNum: u16, p: seq<u8>)
    requires |p| == PayloadLen
    ensures FromIntended(NewSpec(id, seqNum, p).rawPack) == Ok(NewSpec(id, seqNum, p))
  {
    NewLayout(id, seqNum, p);
  }

  /** As written, an id below 256 sent with a sequence below 256 comes back
      multiplied by 256 (id 1 as 256). */
  lemma FromAsWrittenMisreadsId(id: u16, seqNum: u16, p: seq<u8>)
    requires |p| == PayloadLen && 0 < id < 0x100 && seqNum < 0x100
    ensures FromSpec(NewSpec(id, seqNum, p).rawPack).value.id == id * 0x100 != id
  {
    FromOfNew(id, seqNum, p);
  }

  // ---------------------------------------------------------------------
  // decode_packs reading id and sequence after the 20-byte IPv4 header

  const IpHeaderLen: nat := 20

  /** Four IPv4 datagrams, each a 20-byte header followed by one packet. */
  function Datagrams(headers: seq<seq<u8>>, packs: seq<TunnelPacket>): (r: seq<u8>)
    requires |headers| == |packs|
    requires forall k :: 0 <= k < |headers| ==> |headers[k]| == IpHeaderLen
    ensures |r| == DatagramLen * |packs|
  {
    if packs == [] then []
    else headers[0] + packs[0].rawPack + Datagrams(headers[1..], packs[1..])
  }

  lemma {:induction false} DatagramAt(headers: seq<seq<u8>>, packs: seq<TunnelPacket>, k: nat)
    requires |headers| == |packs| && k < |packs|
    requires forall i :: 0 <= i < |headers| ==> |headers[i]| == IpHeaderLen
    ensures Datagrams(headers, packs)[DatagramLen * k .. DatagramLen * k + DatagramLen]
         == headers[k] + packs[k].rawPack
  {
    var rest := Datagrams(headers[1..], packs[1..]);
    var whole := Datagrams(headers, packs);
    assert whole == (headers[0] + packs[0].rawPack) + rest;
    if k > 0 {
      DatagramAt(headers[1..], packs[1..], k - 1);
      assert whole[DatagramLen * k .. DatagramLen * k + DatagramLen]
          == rest[DatagramLen * (k - 1) .. DatagramLen * (k - 1) + DatagramLen];
    }
  }

  /** `decode_packs` reading id and sequence at bytes 24..28 of each datagram. */
  function DecodeIntended(buf: seq<u8>): (r: seq<TunnelPacket>)
    requires |buf| == DatagramLen * DatagramCount
    ensures |r| == DatagramCount
  {
    seq(DatagramCount, k requires 0 <= k < DatagramCount =>
      var at := DatagramLen * k;
      NewSpec(ReadU16BE(buf, at + 24), ReadU16BE(buf, at + 26), buf[at + 28 .. at + DatagramLen]))
  }

  /** What `new` can return: its fields agree with its bytes. */
  predicate Built(p: TunnelPacket)
  {
    p == NewSpec(p.id, p.seqNum, p.Payload())
  }

  lemma DecodeIntendedAt(headers: seq<seq<u8>>, packs: seq<TunnelPacket>, k: nat)
    requires |headers| == |packs| == DatagramCount && k < DatagramCount
    requires forall i :: 0 <= i < DatagramCount ==> |headers[i]| == IpHeaderLen
    requires Built(packs[k])
    ensures DecodeIntended(Datagrams(headers, packs))[k] == packs[k]
  {
    var buf := Datagrams(headers, packs);
    var at := DatagramLen * k;
    var p := packs[k];
    DatagramAt(headers, packs, k);
    NewLayout(p.id, p.seqNum, p.Payload());
    var d := buf[at .. at + DatagramLen];
    assert d[IpHeaderLen..] == p.rawPack;
    assert ReadU16BE(buf, at + 24) == ReadU16BE(p.rawPack, 4) by {
      assert buf[at + 24] == d[24] && buf[at + 25] == d[25];
    }
    assert ReadU16BE(buf, at + 26) == ReadU16BE(p.rawPack, 6) by {
      assert buf[at + 26] == d[26] && buf[at + 27] == d[27];
    }
    assert buf[at + 28 .. at + DatagramLen] == p.Payload();
  }

  /** The corrected decoder recovers four packets built by `new`, whatever
      their IPv4 headers hold. */
  lemma DecodeIntendedRoundTrip(headers: seq<seq<u8>>, packs: seq<TunnelPacket>)
    requires |headers| == |packs| == DatagramCount
    requires forall k :: 0 <= k < DatagramCount ==> |headers[k]| == IpHeaderLen && Built(packs[k])
    ensures DecodeIntended(Datagrams(headers, packs)) == packs
  {
    forall k | 0 <= k < DatagramCount
      ensures DecodeIntended(Datagrams(headers, packs))[k] == packs[k]
    {
      DecodeIntendedAt(headers, packs, k);
    }
  }

  /** As written, `decode_packs` takes its id and sequence from bytes 4..8 of
      the IPv4 header (identification, flags and fragment offset) and its
      payload from the packet. */
  lemma DecodeAsWrittenReadsIpHeader(headers: seq<seq<u8>>, packs: seq<TunnelPacket>, k: nat)
    requires |headers| == |packs| == DatagramCount && k < DatagramCount
    requires forall i :: 0 <= i < DatagramCount ==> |headers[i]| == IpHeaderLen
    ensures DecodeSpec(Datagrams(headers, packs))[k]
         == NewSpec(ReadU16BE(headers[k], 4), ReadU16BE(headers[k], 6), packs[k].Payload())
  {
    var buf := Datagrams(headers, packs);
    var at := DatagramLen * k;
    DatagramAt(headers, packs, k);
    var d := buf[at .. at + DatagramLen];
    assert d[..IpHeaderLen] == headers[k];
    assert ReadU16BE(buf, at + 4) == ReadU16BE(headers[k], 4) by {
      assert buf[at + 4] == d[4] && buf[at + 5] == d[5];
    }
    assert ReadU16BE(buf, at + 6) == ReadU16BE(headers[k], 6) by {
      assert buf[at + 6] == d[6] && buf[at + 7] == d[7];
    }
    assert buf[at + 28 .. at + DatagramLen] == packs[k].Payload();
  }

  /** With all-zero IPv4 headers, a packet with a nonzero id decodes as
      written with id 0, and with its own id once corrected. */
  lemma DecodeAsWrittenLosesId(headers: seq<seq<u8>>, packs: seq<TunnelPacket>)
    requires |headers| == |packs| == DatagramCount
    requires forall k :: 0 <= k < DatagramCount ==> |headers[k]| == IpHeaderLen && headers[k] == Zeros(IpHeaderLen)
    requires Built(packs[0]) && packs[0].id != 0
    ensures DecodeSpec(Datagrams(headers, packs))[0].id == 0
    ensures DecodeIntended(Datagrams(headers, packs))[0].id == packs[0].id
  {
    DecodeAsWrittenReadsIpHeader(headers, packs, 0);
    assert ReadU16BE(headers[0], 4) == 0;
    DecodeIntendedAt(headers, packs, 0);
  }
}
