/** SHA-384 values (src/sha384.rs): the digest of a byte stream read in
    chunks of at most 4096 bytes, and its lowercase hexadecimal text form
    (base 16 as in section 8 of RFC 4648, with lower-case letters).

    SHA-384 itself (FIPS 180-4) is not modelled: every operation takes it
    as a parameter `hash`, a function from the whole message to 48 bytes. */
module Digests {
  import opened Common

  /** `Sha384` (src/sha384.rs:23-26): the raw digest bytes. */
  datatype Sha384 = Sha384(bytes: seq<Byte>)

  /** A `std::io::Read` source: the bytes it will deliver, and the offset
      from which every read fails (if any). A read may return fewer bytes
      than asked for; how many is the reader's choice. */
  class Reader {
    const data: seq<Byte>
    const failAt: Option<nat>
    const failure: IoError
    var pos: nat

    ghost predicate Valid()
      reads this
    {
      pos <= |data|
    }

    /** True when a read issued at offset `at` fails. */
    predicate FailsAt(at: nat)
    {
      failAt.Some? && failAt.value <= at
    }

    /** True when reading everything from the start would hit the failure. */
    predicate FailsBeforeEnd()
    {
      failAt.Some? && failAt.value <= |data|
    }

    constructor (data: seq<Byte>, failAt: Option<nat>, failure: IoError)
      ensures this.data == data && this.failAt == failAt && this.failure == failure
      ensures pos == 0 && Valid()
    {
      this.data := data;
      this.failAt := failAt;
      this.failure := failure;
      pos := 0;
    }

    /** `read(&mut buf)` with a buffer of `capacity` bytes: the bytes placed
        in the buffer, empty at the end of the input. */
    method Read(capacity: nat) returns (r: Result<seq<Byte>, IoError>)
      requires Valid() && capacity > 0
      modifies this
      ensures Valid() && old(pos) <= pos
      ensures FailsAt(old(pos)) ==> r == Err(failure) && pos == old(pos)
      ensures !FailsAt(old(pos)) ==> r.Ok? && r.value == data[old(pos)..pos]
      ensures r.Ok? ==> |r.value| <= capacity && (r.value == [] <==> old(pos) == |data|)
    {
      if FailsAt(pos) {
        return Err(failure);
      }
      if pos == |data| {
        return Ok([]);
      }
      var most := if capacity < |data| - pos then capacity else |data| - pos;
      var n :| 0 < n <= most;
      r := Ok(data[pos..pos + n]);
      pos := pos + n;
    }
  }

  /** Size of the buffer each read fills (src/sha384.rs:55). */
  const CHUNK: nat := 4096

  function Flatten(chunks: seq<seq<Byte>>): (s: seq<Byte>)
  {
    if chunks == [] then [] else Flatten(chunks[..|chunks| - 1]) + chunks[|chunks| - 1]
  }

  /** The read loop of `Sha384::new` (src/sha384.rs:51-67), also used by
      `Store::import_object`: read until a read returns nothing, feeding
      each chunk to the hasher, whose state is the bytes fed so far.
      `fed` records the chunks in the order they were fed. */
  method DigestStream(input: Reader, hash: seq<Byte> -> Digest)
    returns (r: Result<Digest, IoError>, ghost fed: seq<seq<Byte>>)
    requires input.Valid()
    modifies input
    ensures input.Valid()
    ensures r.Err? <==> input.FailsAt(|input.data|)
    ensures r.Err? ==> r.error == input.failure
    ensures r.Ok? ==> r.value == hash(old(input.data[input.pos..]))
    ensures r.Ok? ==> Flatten(fed) == old(input.data[input.pos..])
    ensures forall i :: 0 <= i < |fed| ==> 0 < |fed[i]| <= CHUNK
  {
    ghost var start := input.pos;
    var consumed: seq<Byte> := [];
    fed := [];
    while true
      invariant input.Valid() && start <= input.pos
      invariant consumed == input.data[start..input.pos] == Flatten(fed)
      invariant forall i :: 0 <= i < |fed| ==> 0 < |fed[i]| <= CHUNK
      invariant input.FailsAt(start) ==> input.pos == start
      invariant !input.FailsAt(input.pos) || input.FailsAt(|input.data|)
      decreases |input.data| - input.pos
    {
      var chunk := input.Read(CHUNK);
      if chunk.Err? {
        return Err(chunk.error), fed;
      }
      if chunk.value == [] {
        assert input.pos == |input.data|;
        break;
      }
      consumed := consumed + chunk.value;
      fed := fed + [chunk.value];
    }
    assert input.pos == |input.data|;
    assert consumed == old(input.data[input.pos..]);
    r := Ok(hash(consumed));
  }

  /** `Sha384::new` (src/sha384.rs:51-67): the digest of everything the
      reader delivers, or the first read error. */
  method New(input: Reader, hash: seq<Byte> -> Digest) returns (r: Result<Sha384, IoError>)
    requires input.Valid()
    modifies input
    ensures r.Err? <==> input.FailsAt(|input.data|)
    ensures r.Err? ==> r.error == input.failure
    ensures r.Ok? ==> r.value == Sha384(hash(old(input.data[input.pos..]))) && |r.value.bytes| == 48
  {
    var d, _ := DigestStream(input, hash);
    match d
    case Err(e) => r := Err(e);
    case Ok(bytes) => r := Ok(Sha384(bytes));
  }

  // Hexadecimal text.

  function HexDigit(v: nat): (c: char)
    requires v < 16
  {
    if v < 10 then ('0' as int + v) as char else ('a' as int + v - 10) as char
  }

  /** The value of a hexadecimal digit of either case. */
  function HexValue(c: char): (r: Option<nat>)
    ensures r.Some? ==> r.value < 16
  {
    if '0' <= c <= '9' then Some(c as int - '0' as int)
    else if 'a' <= c <= 'f' then Some(c as int - 'a' as int + 10)
    else if 'A' <= c <= 'F' then Some(c as int - 'A' as int + 10)
    else None
  }

  predicate IsLowerHex(c: char)
  {
    '0' <= c <= '9' || 'a' <= c <= 'f'
  }

  /** `to_hex` (src/sha384.rs:16-19): two lower-case digits per byte,
      high nibble first. */
  function ToHex(bs: seq<Byte>): (s: string)
    ensures |s| == 2 * |bs|
  {
    if bs == [] then [] else [HexDigit(bs[0] / 16), HexDigit(bs[0] % 16)] + ToHex(bs[1..])
  }

  /** The UTF-8 encoding of one character (RFC 3629). */
  function CharBytes(c: char): (bs: seq<Byte>)
    ensures 1 <= |bs| <= 4
    ensures c as int < 0x80 <==> |bs| == 1
    ensures |bs| == 1 ==> bs[0] == c as int
    ensures bs[0] >= 0x80 <==> |bs| > 1
  {
    var cp := c as int;
    if cp < 0x80 then [cp]
    else if cp < 0x800 then [0xC0 + cp / 64, 0x80 + cp % 64]
    else if cp < 0x10000 then [0xE0 + cp / 4096, 0x80 + cp / 64 % 64, 0x80 + cp % 64]
    else [0xF0 + cp / 262144, 0x80 + cp / 4096 % 64, 0x80 + cp / 64 % 64, 0x80 + cp % 64]
  }

  /** The bytes of a Rust `String`: its characters in UTF-8. */
  function Utf8Encode(s: string): seq<Byte>
  {
    if s == [] then [] else CharBytes(s[0]) + Utf8Encode(s[1..])
  }

  /** The two ways `from_hex` can fail: the hex crate rejects an odd number
      of bytes before looking at any digit, then reports the first bad
      byte, as a character, with its byte offset. */
  datatype HexError = OddLength | InvalidHexCharacter(c: char, index: nat)

  /** The value of a byte read as a hexadecimal digit. */
  function ByteHexValue(b: Byte): (r: Option<nat>)
    ensures r.Some? ==> r.value < 16
  {
    HexValue(b as char)
  }

  /** Decoding an even number of bytes, two per output byte; `offset` is
      where `bs` starts in the whole input. */
  function FromHexPairs(bs: seq<Byte>, offset: nat): (r: Result<seq<Byte>, HexError>)
    requires |bs| % 2 == 0
    ensures r.Ok? ==> 2 * |r.value| == |bs|
    ensures r.Err? ==> r.error.InvalidHexCharacter? && offset <= r.error.index < offset + |bs|
  {
    if bs == [] then Ok([])
    else if ByteHexValue(bs[0]).None? then Err(InvalidHexCharacter(bs[0] as char, offset))
    else if ByteHexValue(bs[1]).None? then Err(InvalidHexCharacter(bs[1] as char, offset + 1))
    else
      match FromHexPairs(bs[2..], offset + 2)
      case Err(e) => Err(e)
      case Ok(rest) => Ok([(ByteHexValue(bs[0]).value * 16 + ByteHexValue(bs[1]).value) as Byte] + rest)
  }

  /** `Vec::from_hex` on the string `from_hex` (src/sha384.rs:6-14)
      deserialises: the hex crate works on the string's UTF-8 bytes. */
  function FromHex(s: string): (r: Result<seq<Byte>, HexError>)
  {
    var bs := Utf8Encode(s);
    if |bs| % 2 != 0 then Err(OddLength) else FromHexPairs(bs, 0)
  }

  lemma {:induction false} ToHexLowerCase(bs: seq<Byte>)
    ensures forall i :: 0 <= i < |ToHex(bs)| ==> IsLowerHex(ToHex(bs)[i])
  {
    if bs != [] {
      ToHexLowerCase(bs[1..]);
      var s := ToHex(bs);
      assert forall i :: 2 <= i < |s| ==> s[i] == ToHex(bs[1..])[i - 2];
    }
  }

  /** The hex text of `bs` is ASCII: its UTF-8 bytes are its characters. */
  lemma {:induction false} Utf8OfToHex(bs: seq<Byte>)
    requires bs != []
    ensures Utf8Encode(ToHex(bs)) ==
      [HexDigit(bs[0] / 16) as int, HexDigit(bs[0] % 16) as int] + Utf8Encode(ToHex(bs[1..]))
  {
    var s := ToHex(bs);
    var hi, lo := HexDigit(bs[0] / 16), HexDigit(bs[0] % 16);
    assert s[0] == hi && s[1..][0] == lo && s[1..][1..] == ToHex(bs[1..]);
    assert Utf8Encode(s) == [hi as int] + ([lo as int] + Utf8Encode(ToHex(bs[1..])));
  }

  lemma {:induction false} FromHexPairsToHex(bs: seq<Byte>, offset: nat)
    ensures |Utf8Encode(ToHex(bs))| == 2 * |bs|
    ensures FromHexPairs(Utf8Encode(ToHex(bs)), offset) == Ok(bs)
  {
    if bs != [] {
      Utf8OfToHex(bs);
      var e := Utf8Encode(ToHex(bs));
      var hi, lo := bs[0] / 16, bs[0] % 16;
      FromHexPairsToHex(bs[1..], offset + 2);
      assert e[0] == HexDigit(hi) as int && e[1] == HexDigit(lo) as int && e[2..] == Utf8Encode(ToHex(bs[1..]));
      assert ByteHexValue(e[0]) == Some(hi) && ByteHexValue(e[1]) == Some(lo);
      assert hi * 16 + lo == bs[0];
      assert FromHexPairs(e, offset) == Ok([(hi * 16 + lo) as Byte] + bs[1..]);
      assert [bs[0]] + bs[1..] == bs;
    }
  }

  /** from_hex undoes to_hex. */
  lemma HexRoundTrip(bs: seq<Byte>)
    ensures FromHex(ToHex(bs)) == Ok(bs)
  {
    FromHexPairsToHex(bs, 0);
  }

  lemma {:induction false} FromHexPairsFailsOnBadDigit(bs: seq<Byte>, offset: nat)
    requires |bs| % 2 == 0
    ensures FromHexPairs(bs, offset).Err? <==> exists i :: 0 <= i < |bs| && ByteHexValue(bs[i]).None?
    ensures FromHexPairs(bs, offset).Err? ==>
      var k := FromHexPairs(bs, offset).error.index - offset;
      bs[k] as char == FromHexPairs(bs, offset).error.c && ByteHexValue(bs[k]).None? &&
      forall i :: 0 <= i < k ==> ByteHexValue(bs[i]).Some?
  {
    if bs != [] && ByteHexValue(bs[0]).Some? && ByteHexValue(bs[1]).Some? {
      FromHexPairsFailsOnBadDigit(bs[2..], offset + 2);
      assert forall i :: 2 <= i < |bs| ==> bs[i] == bs[2..][i - 2];
      if FromHexPairs(bs, offset).Err? {
        var k := FromHexPairs(bs, offset).error.index - offset;
        assert k >= 2 && bs[k] == bs[2..][k - 2];
      }
    }
  }

  /** from_hex fails exactly on an odd number of UTF-8 bytes (reported
      first) or on a byte that is not an ASCII hex digit of either case,
      naming the first such byte, as a character, and its byte offset. */
  lemma FromHexErrors(s: string)
    ensures |Utf8Encode(s)| % 2 != 0 ==> FromHex(s) == Err(OddLength)
    ensures |Utf8Encode(s)| % 2 == 0 ==>
      (FromHex(s).Err? <==> exists i :: 0 <= i < |Utf8Encode(s)| && ByteHexValue(Utf8Encode(s)[i]).None?)
    ensures FromHex(s).Err? && |Utf8Encode(s)| % 2 == 0 ==>
      var bs := Utf8Encode(s);
      var k := FromHex(s).error.index;
      FromHex(s).error.InvalidHexCharacter? && k < |bs| && bs[k] as char == FromHex(s).error.c &&
      ByteHexValue(bs[k]).None? && forall i :: 0 <= i < k ==> ByteHexValue(bs[i]).Some?
  {
    if |Utf8Encode(s)| % 2 == 0 {
      FromHexPairsFailsOnBadDigit(Utf8Encode(s), 0);
    }
  }

  /** Lengths and offsets are counted in bytes: one two-byte character is
      an even input whose first byte, 0xC3, is reported at offset 0, and
      with one more digit the input is odd. */
  lemma FromHexCountsBytes()
    ensures FromHex("\U{e9}") == Err(InvalidHexCharacter(0xC3 as char, 0))
    ensures FromHex("\U{e9}a") == Err(OddLength)
  {
    assert Utf8Encode("\U{e9}") == [0xC3, 0xA9];
    assert Utf8Encode("\U{e9}a") == [0xC3, 0xA9, 0x61];
  }

  /** Serialising a `Sha384` (src/sha384.rs:24-25) writes its bytes as hex. */
  function Serialize(h: Sha384): (s: string)
  {
    ToHex(h.bytes)
  }

  /** Deserialising accepts any even-length hex string; the length of the
      decoded digest is not checked. */
  function Deserialize(s: string): (r: Result<Sha384, HexError>)
  {
    match FromHex(s)
    case Err(e) => Err(e)
    case Ok(bytes) => Ok(Sha384(bytes))
  }

  lemma SerializeRoundTrip(h: Sha384)
    ensures Deserialize(Serialize(h)) == Ok(h)
    ensures |Serialize(h)| == 2 * |h.bytes|
  {
    HexRoundTrip(h.bytes);
  }
}
