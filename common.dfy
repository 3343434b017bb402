/** Shared value types: bytes, unsigned 64-bit integers, fixed-size byte
    strings, the failure-carrying wrappers, and little-endian integers. */
module Common {

  /** One octet. */
  type Byte = x: int | 0 <= x < 256

  const U64_LIMIT: int := 0x1_0000_0000_0000_0000

  /** Rust's `u64`. */
  type U64 = n: int | 0 <= n < U64_LIMIT

  /** A SHA-384 output: 48 bytes. */
  type Digest = s: seq<Byte> | |s| == 48 witness seq(48, _ => 0)

  /** An Ed25519 signature: 64 bytes. */
  type Signature = s: seq<Byte> | |s| == 64 witness seq(64, _ => 0)

  /** An Ed25519 public key: 32 bytes. */
  type PublicKey = s: seq<Byte> | |s| == 32 witness seq(32, _ => 0)

  datatype Option<+T> = None | Some(value: T)

  datatype Result<+T, +E> = Ok(value: T) | Err(error: E)

  datatype Outcome<+E> = Pass | Fail(error: E)

  /** The `std::io::Error` kinds the core produces or passes on. */
  datatype IoError =
    | NotFound
    | AlreadyExists
    | NotADirectory
    | IsADirectory
    | DirectoryNotEmpty
    | InvalidInput(message: string)
      /** InvalidInput carrying the debug form of a file name that is not UTF-8 */
    | InvalidName(raw: seq<Byte>)
    | InvalidData(message: string)
    | Other(message: string)

  /** 256^n */
  function Pow256(n: nat): (r: nat)
    ensures r > 0
  {
    if n == 0 then 1 else 256 * Pow256(n - 1)
  }

  /** The unsigned integer whose little-endian encoding is `bs`
      (what `u64::from_le` yields on the overlaid bytes). */
  function FromLittleEndian(bs: seq<Byte>): (n: nat)
    ensures n < Pow256(|bs|)
  {
    if bs == [] then 0 else bs[0] + 256 * FromLittleEndian(bs[1..])
  }

  /** The `width`-byte little-endian encoding of `n`. */
  function ToLittleEndian(n: nat, width: nat): (bs: seq<Byte>)
    requires n < Pow256(width)
    ensures |bs| == width
  {
    if width == 0 then [] else [n % 256] + ToLittleEndian(n / 256, width - 1)
  }

  lemma {:induction false} LittleEndianRoundTrip(n: nat, width: nat)
    requires n < Pow256(width)
    ensures FromLittleEndian(ToLittleEndian(n, width)) == n
  {
    if width > 0 {
      LittleEndianRoundTrip(n / 256, width - 1);
    }
  }

  lemma {:induction false} LittleEndianDecodeRoundTrip(bs: seq<Byte>)
    ensures ToLittleEndian(FromLittleEndian(bs), |bs|) == bs
  {
    if bs != [] {
      LittleEndianDecodeRoundTrip(bs[1..]);
      var n := FromLittleEndian(bs);
      assert n % 256 == bs[0] && n / 256 == FromLittleEndian(bs[1..]);
    }
  }

  lemma EightBytesFitU64(bs: seq<Byte>)
    requires |bs| == 8
    ensures FromLittleEndian(bs) < U64_LIMIT
  {
    assert Pow256(8) == U64_LIMIT;
  }
}
