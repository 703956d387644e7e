# pingu packet codec in Dafny

pingu tunnels a TCP byte stream through ICMP echo messages. This project
models its packet codec, `src/packet.rs`, and proves properties of it. The
model follows the code as written, defects included.

- A **tunnel packet** (`TunnelPacket`) is a 16-bit connection `id`, a 16-bit
  sequence number and a 64-byte buffer shaped like an ICMP echo message:
  - bytes 0..2 are the type and code, always zero;
  - bytes 2..4 are the checksum;
  - bytes 4..6 and 6..8 are the big-endian id and sequence number;
  - bytes 8..64 are a 56-byte payload.
- **`new`** fills a zeroed buffer in place and writes the checksum last.
- **`calculate_checksum`** was meant to be the Internet checksum. Its fold
  drops every partial sum, so it returns 0 for every even-length buffer.
- **`encode_packs`** cuts a byte vector into 56-byte chunks, zero-pads the
  last one and numbers the packets 0, 1, 2, ….
- **`from`** (the `From<IcmpPacket>` conversion) reads one 64-byte ICMP
  packet back. **`decode_packs`** reads four 84-byte IPv4 datagrams
  (a 20-byte IPv4 header plus one packet). Both rebuild each packet
  with `new`, so any received checksum is discarded.

Layout:

- `bytes.dfy`, module `Bytes`:
  - the unsigned integer types `u8`, `u16` and `u32`;
  - the `byteorder` big-endian reads and writes;
  - slice copies into an array;
  - a `Result` type in which a Rust panic is a value (`Panic(IndexOutOfRange)`
    or `Panic(LengthMismatch)`).
- `packet.dfy`, module `Packet`: the codec as written.
  - `new`, `from`, `encode_packs` and `decode_packs` are methods over
    arrays, as in the source.
  - Each method is proved equal to a specification function (`NewSpec`,
    `FromSpec`, `EncodeSpec`, `DecodeSpec`).
  - The lemmas are stated about those specification functions.
  - `calculate_checksum` is a recursive function, because the source is a
    `fold`.
- `intended.dfy`, module `Intended`: the corrected definitions for the
  defects under "## Findings", each next to a lemma that exhibits the defect
  in the as-written model.

## Model

| member | source | states |
|---|---|---|
| `Packet.ChecksumFold` | src/packet.rs:44-50 | The fold over 2-byte chunks returns its starting accumulator unchanged for every even-length buffer. An odd-length buffer panics in `copy_from_slice`. |
| `Packet.CalculateChecksum` | src/packet.rs:42-54 | `calculate_checksum` returns 0 for every even-length buffer, including every 64-byte packet, and panics for an odd length. |
| `Packet.NewStoresChecksum` | src/packet.rs:31-32 | The packet `new` builds is the buffer with `calculate_checksum`'s result (which is 0) written big-endian into bytes 2..4. |
| `Packet.New` | src/packet.rs:20-39 | `new` fills a zeroed 64-byte array in place and returns exactly `NewSpec(id, seq, payload)`. |
| `Packet.NewLayout` | src/packet.rs:20-38 | The fields equal the arguments. Bytes 0..4 are zero and bytes 4..6 and 6..8 read back as `id` and `seq`. `payload()` is the given payload and `packet()` is the whole 64-byte layout. |
| `Packet.TunnelPacket.Packet` | src/packet.rs:82-84 | `packet()` is the whole 64-byte buffer. |
| `Packet.TunnelPacket.Payload` | src/packet.rs:87-89 | `payload()` is the 56 bytes after the 8-byte header. |
| `Packet.FromIcmp` | src/packet.rs:63-77 | `from` panics with an index error for fewer than 9 bytes and with a length mismatch when the packet is not 64 bytes. Otherwise it equals `new(BE(q[5..7]), BE(q[7..9]), q[8..64])`. |
| `Packet.FromOfNew` | src/packet.rs:63-77 | Running `from` on a packet built by `new` gives back the payload. The decoded id is the low byte of the id followed by the high byte of the sequence number. The decoded sequence number is the low byte of the sequence number followed by the first payload byte. |
| `Packet.FromRecoversIdIff` | src/packet.rs:67-68 | The id survives `new` then `from` if and only if both of its bytes equal the high byte of the sequence number. |
| `Packet.FromIgnoresHeader` | src/packet.rs:73-76 | Two 64-byte ICMP packets that differ only in type, code or checksum decode to the same packet, and its bytes 0..4 are zero. |
| `Packet.EncodeSpec` | src/packet.rs:95-122 | `encode_packs` returns one packet per chunk, and packet `k` is `new(id, k mod 2^16, chunk k zero-padded to 56 bytes)`. |
| `Packet.ChunkCountBound` | src/packet.rs:102 | Chunk `k` of `chunks(56)` exists if and only if it starts before the end of the input. |
| `Packet.ChunkToPack` | src/packet.rs:103-115 | One loop turn: the chunk (a whole 56 bytes, or the short last chunk) is copied into the front of a zeroed array and handed to `new`. |
| `Packet.EncodePacks` | src/packet.rs:95-122 | The loop that pushes packets and increments `seq` returns exactly `EncodeSpec(id, payload)`. |
| `Packet.EncodeCount` | src/packet.rs:98-121 | The packet count `n` is the input length divided by 56, rounded up: 56(n-1) < len(b) <= 56n. The result is empty if and only if the input is empty. |
| `Packet.EncodeNumbering` | src/packet.rs:101-118 | Packet `k` carries the caller's id and sequence number `k mod 65536`. For inputs of at most 65536 chunks the sequence number is exactly `k`. |
| `Packet.EncodePayloadAt` | src/packet.rs:102-113 | Byte `j` of the payload of packet `k` is input byte `56k + j`, or 0 past the end of the input. |
| `Packet.EncodeConcat` | src/packet.rs:102-116 | Concatenating the payloads gives the input followed by zeros up to the next multiple of 56. |
| `Packet.EncodeHello` | src/packet.rs:95-122 | Encoding "hello" gives a single packet with sequence 0 and payload "hello" followed by 51 zeros. |
| `Packet.Encode120` | src/packet.rs:95-122 | 120 bytes give three packets, numbered 0, 1 and 2, carrying 56, 56 and 8 input bytes. The last is padded with 48 zeros. |
| `Packet.DecodeSpec` | src/packet.rs:124-140 | `decode_packs` returns exactly 4 packets. Packet `k` is `new(BE(b[84k+4..84k+6]), BE(b[84k+6..84k+8]), b[84k+28..84k+84])`. |
| `Packet.DecodePacks` | src/packet.rs:124-140 | The loop that refills one reused 56-byte buffer per 84-byte chunk returns exactly `DecodeSpec(packs)`. |
| `Intended.CarryFold` | src/packet.rs:51 | Folding carries until the sum fits 16 bits gives a value below 2^16. It is congruent to the sum modulo 0xffff and is zero only for a zero sum. |
| `Intended.ComplementFolds` | src/packet.rs:51-53 | Adding the complement of the folded sum gives a sum that folds to 0xffff. |
| `Intended.FilledWordSum` | src/packet.rs:31-32 | Writing `c` into a zero checksum field adds `c` to the word sum. |
| `Intended.ChecksumVerifies` | src/packet.rs:31-32 | With the RFC 1071 checksum stored in a zeroed checksum field, the checksum of the whole packet is 0, which is how a receiver verifies it. |
| `Intended.NewIntended` | src/packet.rs:20-39 | `new` with the RFC 1071 checksum: every packet it builds passes verification. |
| `Intended.NewWordSum` | src/packet.rs:20-38 | The word sum of a packet built by `new` is id + seq + the word sum of its payload. |
| `Intended.ChecksumAsWrittenFails` | src/packet.rs:44-53 | The stored checksum is 0. The packet passes RFC 1071 verification only when id + seq + payload already fold to 0xffff. For id 7, sequence 0 and a zero payload the checksum should be 0xfff8. |
| `Intended.FoldTailAddsCarryTwice` | src/packet.rs:51 | The source's tail turns the sum 0x10000 into 2, where folding the carry gives 1. |
| `Intended.FromIntendedRoundTrip` | src/packet.rs:67-71 | Reading id and seq at bytes 4..6 and 6..8 makes `from` the inverse of `new`. |
| `Intended.FromAsWrittenMisreadsId` | src/packet.rs:67-68 | As written, an id in 1..255 sent with a sequence number below 256 comes back multiplied by 256. |
| `Intended.DatagramAt` | src/packet.rs:130 | Chunk `k` of four concatenated 84-byte datagrams is header `k` followed by packet `k`. |
| `Intended.DecodeIntended` | src/packet.rs:124-140 | The corrected `decode_packs` also returns exactly four packets. |
| `Intended.DecodeIntendedAt` | src/packet.rs:131-135 | Reading id and seq at bytes 24..28 recovers packet `k` built by `new`, whatever its IPv4 header holds. |
| `Intended.DecodeIntendedRoundTrip` | src/packet.rs:124-140 | With the corrected offsets, decoding four datagrams of packets built by `new` returns those packets, whatever their IPv4 headers hold. |
| `Intended.DecodeAsWrittenReadsIpHeader` | src/packet.rs:131-133 | As written, decoded packet `k` takes id and seq from bytes 4..8 of its IPv4 header (identification, flags and fragment offset), but its payload from the packet. |
| `Intended.DecodeAsWrittenLosesId` | src/packet.rs:131-132 | With all-zero IPv4 headers, a packet with a nonzero id decodes as written with id 0. The corrected decoder gives back its own id. |

## Left out

- The `fmt::Debug` impl (src/packet.rs:57-61): formatting only.
- The `eprintln!` branch of `new` (src/packet.rs:26-29): a 56-byte write into the 56-byte tail always succeeds, so this branch never runs.
- pnet's parsing of `IcmpPacket`: the model takes `packet()` to be the ICMP bytes from the type byte on, at least 4 of them, and `payload()` to be `packet()[4..]`.
- Packet.EncodePacks: `seq += 1` is modelled with release-build wrap-around, so the sequence number is `k mod 65536`. A debug build instead panics on the increment after the 65,536th chunk, and the model does not capture that.
- Packet.DecodePacks: the 336-byte array argument becomes a sequence whose length the precondition fixes at 336, as the array type does.
- src/tunnel.rs, src/server.rs, src/client.rs, src/main.rs and src/error.rs are not part of this model. They hold raw sockets, threads, executors, channels, TCP streams and command-line parsing, with no codec logic.
- Checksum verification on receipt, learning the peer's address and routing frames by connection id do not exist in the code, so they are not modelled.
- The corrected definitions in module `Intended` are not used by module `Packet`, which keeps the behaviour as written.
- Where the code falls short of RFC 1071 or of a round trip through `new` and `from`, the model follows the code; the gaps are listed under Findings.

## Findings

| source | as written | input that shows it | evidently intended | confidence | as-written member | corrected member |
|---|---|---|---|---|---|---|
| src/packet.rs:44-50 | The closure computes `acc.wrapping_add(word)`, drops the result and returns `acc`, so the fold is 0 and every packet carries checksum 0. | `new(7, 0, 56 zero bytes)`: stored checksum 0, RFC 1071 checksum 0xfff8. | The Internet checksum of section 1 of RFC 1071 over the 64 bytes with the checksum field zero. | not executed; high | `Intended.ChecksumAsWrittenFails` | `Intended.NewIntended` |
| src/packet.rs:51-53 | `(sum >> 16) + (sum & 0xffff) + (sum >> 16)` adds the carry twice and takes no one's complement. | sum 0x10000: the tail gives 2, folding the carry gives 1. | Fold the carries into the low 16 bits, then take the one's complement. | not executed; high | `Intended.FoldTailAddsCarryTwice` | `Intended.CarryFold` |
| src/packet.rs:67-71 | `from` reads the id from bytes 5..7 and the sequence number from 7..9, one byte after where `new` writes them. | `new(1, 0, p)` decodes with id 256. | Read bytes 4..6 and 6..8, so that `from` inverts `new`. | not executed; high | `Intended.FromAsWrittenMisreadsId` | `Intended.FromIntendedRoundTrip` |
| src/packet.rs:131-132 | `decode_packs` reads id and sequence at offsets 4..8 of each 84-byte datagram, which lie inside the 20-byte IPv4 header. It reads the payload after that header, at 28..84. | Four datagrams with zero IPv4 headers, each carrying `new(7, 0, p)`: the decoded id is 0. | Read id and sequence at 24..26 and 26..28, after the IPv4 header. | not executed; medium | `Intended.DecodeAsWrittenLosesId` | `Intended.DecodeIntendedRoundTrip` |
