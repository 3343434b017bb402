/** The signed block (src/block.rs): a fixed 400-byte layout, read by an
    explicit decoder at fixed offsets, and its verification against an
    expected public key.

    The Ed25519 attached-signature open of NaCl (`crypto_sign_open`, as
    specified by RFC 8032) is not modelled: `Verify` takes it as a
    parameter `open`. */
module Blocks {
  import opened Common
  import opened Base32

  const BLOCK_SIZE: nat := 400
  const REQUEST_OFFSET: nat := 176

  /** An eight-byte field kept as raw bytes. */
  type Word = s: seq<Byte> | |s| == 8 witness seq(8, _ => 0)

  /** `PackedBlockRequest` (src/block.rs:9-16): 224 bytes. */
  datatype PackedBlockRequest = PackedBlockRequest(
    signature: Signature,
    public_key: PublicKey,
    previous_signature: Signature,
    counter: Word,
    timestamp: Word,
    digest: Digest)

  /** `PackedBlock` (src/block.rs:19-26): 400 bytes, integers little-endian. */
  datatype PackedBlock = PackedBlock(
    signature: Signature,
    public_key: PublicKey,
    previous_signature: Signature,
    counter: U64,
    timestamp: U64,
    request: PackedBlockRequest)

  /** `Block` (src/block.rs:64-71): the verified block, binary fields in base 32. */
  datatype Block = Block(
    signature: string,
    public_key: string,
    previous_signature: string,
    counter: U64,
    timestamp: U64,
    digest: string)

  function RequestBytes(q: PackedBlockRequest): (bs: seq<Byte>)
    ensures |bs| == 224
  {
    q.signature + q.public_key + q.previous_signature + q.counter + q.timestamp + q.digest
  }

  function RequestFromBytes(bs: seq<Byte>): (q: PackedBlockRequest)
    requires |bs| == 224
  {
    PackedBlockRequest(bs[0..64], bs[64..96], bs[96..160], bs[160..168], bs[168..176], bs[176..224])
  }

  function U64Bytes(n: U64): (bs: Word)
  {
    assert Pow256(8) == U64_LIMIT;
    ToLittleEndian(n, 8)
  }

  function U64FromBytes(bs: Word): (n: U64)
  {
    EightBytesFitU64(bs);
    FromLittleEndian(bs)
  }

  /** The bytes the packed struct occupies (`plain::as_bytes`). */
  function AsBytes(b: PackedBlock): (bs: seq<Byte>)
    ensures |bs| == BLOCK_SIZE
  {
    b.signature + b.public_key + b.previous_signature
      + U64Bytes(b.counter) + U64Bytes(b.timestamp) + RequestBytes(b.request)
  }

  /** The packed struct overlaid on 400 bytes (`plain::from_bytes`), made an
      explicit decoder. Every caller holds a `[u8; 400]`, so no other length
      reaches it. */
  function FromBytes(bs: seq<Byte>): (b: PackedBlock)
    requires |bs| == BLOCK_SIZE
  {
    PackedBlock(bs[0..64], bs[64..96], bs[96..160],
      U64FromBytes(bs[160..168]), U64FromBytes(bs[168..176]),
      RequestFromBytes(bs[176..400]))
  }

  /** Where each field lies in the 224 request bytes. */
  lemma RequestLayout(q: PackedBlockRequest)
    ensures RequestBytes(q)[0..64] == q.signature
    ensures RequestBytes(q)[64..96] == q.public_key
    ensures RequestBytes(q)[96..160] == q.previous_signature
    ensures RequestBytes(q)[160..168] == q.counter
    ensures RequestBytes(q)[168..176] == q.timestamp
    ensures RequestBytes(q)[176..224] == q.digest
  {
  }

  /** A slice of a piece found at offset `off` is the matching slice of the
      whole. */
  lemma SliceAt(bs: seq<Byte>, piece: seq<Byte>, off: nat, i: nat, j: nat)
    requires off + |piece| <= |bs| && bs[off..off + |piece|] == piece && i <= j <= |piece|
    ensures bs[off + i..off + j] == piece[i..j]
  {
    forall k | 0 <= k < j - i
      ensures bs[off + i..off + j][k] == piece[i..j][k]
    {
      assert piece[i + k] == bs[off..off + |piece|][i + k];
    }
  }

  /** Where each field lies in the 400 bytes. */
  lemma Layout(b: PackedBlock)
    ensures AsBytes(b)[0..64] == b.signature
    ensures AsBytes(b)[64..96] == b.public_key
    ensures AsBytes(b)[96..160] == b.previous_signature
    ensures FromLittleEndian(AsBytes(b)[160..168]) == b.counter
    ensures FromLittleEndian(AsBytes(b)[168..176]) == b.timestamp
    ensures AsBytes(b)[176..240] == b.request.signature
    ensures AsBytes(b)[240..272] == b.request.public_key
    ensures AsBytes(b)[272..336] == b.request.previous_signature
    ensures AsBytes(b)[336..344] == b.request.counter
    ensures AsBytes(b)[344..352] == b.request.timestamp
    ensures AsBytes(b)[352..400] == b.request.digest
  {
    var bs := AsBytes(b);
    var head := b.signature + b.public_key + b.previous_signature;
    var counter, timestamp := U64Bytes(b.counter), U64Bytes(b.timestamp);
    var rq := RequestBytes(b.request);
    assert bs == head + counter + timestamp + rq;
    assert |head| == 160 && |head + counter| == 168 && |head + counter + timestamp| == 176;
    assert bs[160..168] == counter;
    assert bs[168..176] == timestamp;
    assert bs[176..400] == rq;
    assert Pow256(8) == U64_LIMIT;
    LittleEndianRoundTrip(b.counter, 8);
    LittleEndianRoundTrip(b.timestamp, 8);
    RequestLayout(b.request);
    SliceAt(bs, rq, 176, 0, 64);
    SliceAt(bs, rq, 176, 64, 96);
    SliceAt(bs, rq, 176, 96, 160);
    SliceAt(bs, rq, 176, 160, 168);
    SliceAt(bs, rq, 176, 168, 176);
    SliceAt(bs, rq, 176, 176, 224);
  }

  lemma DecodeEncode(b: PackedBlock)
    ensures FromBytes(AsBytes(b)) == b
  {
    Layout(b);
    var bs := AsBytes(b);
    assert bs[176..400][0..64] == bs[176..240];
    assert bs[176..400][64..96] == bs[240..272];
    assert bs[176..400][96..160] == bs[272..336];
    assert bs[176..400][160..168] == bs[336..344];
    assert bs[176..400][168..176] == bs[344..352];
    assert bs[176..400][176..224] == bs[352..400];
  }

  lemma EncodeDecode(bs: seq<Byte>)
    requires |bs| == BLOCK_SIZE
    ensures AsBytes(FromBytes(bs)) == bs
  {
    var b := FromBytes(bs);
    LittleEndianDecodeRoundTrip(bs[160..168]);
    LittleEndianDecodeRoundTrip(bs[168..176]);
    var rq := bs[176..400];
    assert RequestBytes(b.request) == rq by {
      assert rq == rq[0..64] + rq[64..96] + rq[96..160] + rq[160..168] + rq[168..176] + rq[176..224];
    }
    assert bs == bs[0..64] + bs[64..96] + bs[96..160] + bs[160..168] + bs[168..176] + bs[176..400];
  }

  /** What `sign_attached_open` leaves behind: the scratch buffer it wrote
      and the count it returned. */
  datatype Opened = Opened(buffer: seq<Byte>, count: nat)

  /** Attached-signature open: given the signed message and a public key,
      None when the signature does not check. */
  type AttachedOpen = (seq<Byte>, seq<Byte>) -> Option<Opened>

  /** `Vec::truncate`: shortens, never lengthens. */
  function Truncate(m: seq<Byte>, count: nat): (r: seq<Byte>)
    ensures |r| == if count < |m| then count else |m|
    ensures r == m[..|r|]
  {
    if count < |m| then m[..count] else m
  }

  /** The message recovered by opening the block's bytes under its own key. */
  function Recovered(b: PackedBlock, open: AttachedOpen): (r: Option<seq<Byte>>)
  {
    match open(AsBytes(b), b.public_key)
    case None => None
    case Some(o) => Some(Truncate(o.buffer, o.count))
  }

  /** `PackedBlock::verify` (src/block.rs:32-60). */
  function Verify(b: PackedBlock, key: seq<Byte>, open: AttachedOpen): (r: Result<Block, string>)
    // 1. the key check comes first, before any signature work
    ensures AsBytes(b)[64..96] != key ==> r == Err("public key mismatch")
    // 2. then the signature
    ensures AsBytes(b)[64..96] == key && open(AsBytes(b), key).None? ==> r == Err("signature invalid")
    // 3. then the recovered message against bytes [64, 400)
    ensures AsBytes(b)[64..96] == key && Recovered(b, open).Some? ==>
      (r == Err("message data invalid") <==> Recovered(b, open).value != AsBytes(b)[64..])
    // nothing else can make it fail
    ensures r.Ok? <==>
      AsBytes(b)[64..96] == key && Recovered(b, open) == Some(AsBytes(b)[64..])
    // the fields of the result, read from the 400 bytes
    ensures r.Ok? ==>
      && r.value.signature == B32Enc(AsBytes(b)[0..64])
      && r.value.public_key == B32Enc(key)
      && r.value.previous_signature == B32Enc(AsBytes(b)[96..160])
      && r.value.counter == FromLittleEndian(AsBytes(b)[160..168])
      && r.value.timestamp == FromLittleEndian(AsBytes(b)[168..176])
      && r.value.digest == B32Enc(AsBytes(b)[352..400])
  {
    Layout(b);
    if b.public_key != key then Err("public key mismatch")
    else
      var sm := AsBytes(b);
      match open(sm, b.public_key)
      case None => Err("signature invalid")
      case Some(unsealed) =>
        var m := Truncate(unsealed.buffer, unsealed.count);
        if m != sm[64..] then Err("message data invalid")
        else Ok(Block(
          B32Enc(b.signature),
          B32Enc(b.public_key),
          B32Enc(b.previous_signature),
          b.counter,
          b.timestamp,
          B32Enc(b.request.digest)))
  }

  /** A wrong key is rejected whatever the signature primitive would say. */
  lemma KeyCheckedBeforeSignature(b: PackedBlock, key: seq<Byte>, open1: AttachedOpen, open2: AttachedOpen)
    requires b.public_key != key
    ensures Verify(b, key, open1) == Verify(b, key, open2) == Err("public key mismatch")
  {
    Layout(b);
  }

  /** A key of any length other than 32 never matches. */
  lemma WrongLengthKeyRejected(b: PackedBlock, key: seq<Byte>, open: AttachedOpen)
    requires |key| != 32
    ensures Verify(b, key, open) == Err("public key mismatch")
  {
  }

  /** Verification of the 400 bytes a caller holds. */
  lemma VerifyBytes(bs: seq<Byte>, key: seq<Byte>, open: AttachedOpen)
    requires |bs| == BLOCK_SIZE
    ensures Verify(FromBytes(bs), key, open).Ok? <==>
      && bs[64..96] == key
      && open(bs, key).Some?
      && Truncate(open(bs, key).value.buffer, open(bs, key).value.count) == bs[64..]
    ensures Verify(FromBytes(bs), key, open).Ok? ==>
      Verify(FromBytes(bs), key, open).value == Block(
        B32Enc(bs[0..64]), B32Enc(bs[64..96]), B32Enc(bs[96..160]),
        FromLittleEndian(bs[160..168]), FromLittleEndian(bs[168..176]),
        B32Enc(bs[352..400]))
  {
    EncodeDecode(bs);
  }

  /** The request copies of the key, previous signature, counter and
      timestamp are never compared with the outer fields: with a signature
      primitive that accepts the bytes, a block whose request disagrees
      with it in all four still verifies. */
  lemma RequestCopiesNotCompared(b: PackedBlock)
    requires b.request.public_key != b.public_key
    requires b.request.previous_signature != b.previous_signature
    requires b.request.counter != U64Bytes(b.counter)
    requires b.request.timestamp != U64Bytes(b.timestamp)
    ensures Verify(b, b.public_key, (sm: seq<Byte>, pk: seq<Byte>) =>
      Some(Opened(if |sm| >= 64 then sm[64..] else [], if |sm| >= 64 then |sm| - 64 else 0))).Ok?
  {
    Layout(b);
  }
}
