/** Base 32 text as defined in section 6 of RFC 4648, without padding:
    the alphabet A-Z then 2-7, each symbol standing for five bits of the
    input read most-significant bit first; a last group shorter than five
    bits is filled with zero bits and no '=' is appended. */
module Base32 {
  import opened Common

  type Bit = b: int | 0 <= b < 2

  function Pow2(n: nat): (r: nat)
    ensures r > 0
  {
    if n == 0 then 1 else 2 * Pow2(n - 1)
  }

  function Zeros(n: nat): (bits: seq<Bit>)
    ensures |bits| == n
  {
    seq(n, _ => 0)
  }

  function Ones(n: nat): (bits: seq<Bit>)
    ensures |bits| == n
  {
    seq(n, _ => 1)
  }

  /** The `n` low bits of `v`, most significant first. */
  function BitsOf(v: nat, n: nat): (bits: seq<Bit>)
    ensures |bits| == n
  {
    if n == 0 then [] else BitsOf(v / 2, n - 1) + [v % 2]
  }

  /** The unsigned integer whose binary digits are `bits`, most significant first. */
  function ValueOf(bits: seq<Bit>): (v: nat)
    ensures v < Pow2(|bits|)
  {
    if bits == [] then 0 else 2 * ValueOf(bits[..|bits| - 1]) + bits[|bits| - 1]
  }

  /** A value below 2^n is twice a value below 2^(n-1) plus its last digit. */
  lemma SplitValue(v: nat, n: nat)
    requires 0 < n && v < Pow2(n)
    ensures v / 2 < Pow2(n - 1) && 2 * (v / 2) + v % 2 == v
  {
  }

  lemma {:induction false} ValueOfBitsOf(v: nat, n: nat)
    requires v < Pow2(n)
    ensures ValueOf(BitsOf(v, n)) == v
  {
    if n > 0 {
      var bits := BitsOf(v, n);
      assert bits[..n - 1] == BitsOf(v / 2, n - 1) && bits[n - 1] == v % 2;
      SplitValue(v, n);
      ValueOfBitsOf(v / 2, n - 1);
    }
  }

  /** Dropping the last binary digit. */
  lemma HalveValue(q: nat, b: Bit)
    ensures (2 * q + b) / 2 == q && (2 * q + b) % 2 == b
  {
  }

  lemma {:induction false} BitsOfValueOf(bits: seq<Bit>)
    ensures BitsOf(ValueOf(bits), |bits|) == bits
  {
    if bits != [] {
      var n := |bits|;
      HalveValue(ValueOf(bits[..n - 1]), bits[n - 1]);
      BitsOfValueOf(bits[..n - 1]);
      assert bits == bits[..n - 1] + [bits[n - 1]];
    }
  }

  /** The symbol for a five-bit value. */
  function Symbol(v: nat): (c: char)
    requires v < 32
  {
    if v < 26 then ('A' as int + v) as char else ('2' as int + v - 26) as char
  }

  /** The RFC 4648 base 32 alphabet: A-Z and 2-7. */
  predicate IsSymbol(c: char)
  {
    'A' <= c <= 'Z' || '2' <= c <= '7'
  }

  /** The five-bit value of an alphabet symbol, None for any other character. */
  function SymbolValue(c: char): (r: Option<nat>)
    ensures r.Some? <==> IsSymbol(c)
    ensures r.Some? ==> r.value < 32 && Symbol(r.value) == c
  {
    if 'A' <= c <= 'Z' then Some(c as int - 'A' as int)
    else if '2' <= c <= '7' then Some(c as int - '2' as int + 26)
    else None
  }

  lemma SymbolValueOfSymbol(v: nat)
    requires v < 32
    ensures IsSymbol(Symbol(v)) && SymbolValue(Symbol(v)) == Some(v)
  {
  }

  /** The bits of `bs`, eight per byte, most significant first. */
  function ByteBits(bs: seq<Byte>): (bits: seq<Bit>)
    ensures |bits| == 8 * |bs|
  {
    if bs == [] then [] else BitsOf(bs[0], 8) + ByteBits(bs[1..])
  }

  /** Bytes from a bit string whose length is a multiple of eight. */
  function BitsToBytes(bits: seq<Bit>): (bs: seq<Byte>)
    requires |bits| % 8 == 0
    ensures |bs| == |bits| / 8
  {
    if bits == [] then [] else
      assert ValueOf(bits[..8]) < Pow2(8) == 256;
      [ValueOf(bits[..8]) as Byte] + BitsToBytes(bits[8..])
  }

  lemma {:induction false} BitsToBytesOfByteBits(bs: seq<Byte>)
    ensures BitsToBytes(ByteBits(bs)) == bs
  {
    if bs != [] {
      var bits := ByteBits(bs);
      assert bits[..8] == BitsOf(bs[0], 8);
      assert bits[8..] == ByteBits(bs[1..]);
      assert Pow2(8) == 256;
      ValueOfBitsOf(bs[0], 8);
      BitsToBytesOfByteBits(bs[1..]);
    }
  }

  /** Number of zero bits that complete the last five-bit group. */
  function PadBits(n: nat): nat
  {
    (5 - n % 5) % 5
  }

  /** Symbols for `bits`, five bits each, the last group zero-filled. */
  function EncodeBits(bits: seq<Bit>): (txt: string)
    ensures |txt| == (|bits| + 4) / 5
    decreases |bits|
  {
    if bits == [] then []
    else if |bits| < 5 then
      var group := bits + Zeros(5 - |bits|);
      assert Pow2(5) == 32;
      SymbolValueOfSymbol(ValueOf(group));
      [Symbol(ValueOf(group))]
    else
      assert Pow2(5) == 32;
      SymbolValueOfSymbol(ValueOf(bits[..5]));
      [Symbol(ValueOf(bits[..5]))] + EncodeBits(bits[5..])
  }

  /** The bits of a string of alphabet symbols, five per symbol;
      None when some character is outside the alphabet. */
  function SymbolBits(txt: string): (r: Option<seq<Bit>>)
    ensures r.Some? ==> |r.value| == 5 * |txt|
  {
    if txt == [] then Some([])
    else
      match SymbolValue(txt[0])
      case None => None
      case Some(v) =>
        match SymbolBits(txt[1..])
        case None => None
        case Some(rest) => Some(BitsOf(v, 5) + rest)
  }

  /** `b32enc` (src/store.rs:18-20). */
  function B32Enc(bin: seq<Byte>): (txt: string)
  {
    EncodeBits(ByteBits(bin))
  }

  /** `b32dec` (src/store.rs:22-24): None on a character outside the
      alphabet; the bits left over after the last whole byte are dropped. */
  function B32Dec(txt: string): (r: Option<seq<Byte>>)
  {
    match SymbolBits(txt)
    case None => None
    case Some(bits) => Some(BitsToBytes(bits[..5 * |txt| / 8 * 8]))
  }

  lemma {:induction false} EncodeBitsSymbols(bits: seq<Bit>)
    ensures forall i :: 0 <= i < |EncodeBits(bits)| ==> IsSymbol(EncodeBits(bits)[i])
    decreases |bits|
  {
    assert Pow2(5) == 32;
    if |bits| >= 5 {
      EncodeBitsSymbols(bits[5..]);
      SymbolValueOfSymbol(ValueOf(bits[..5]));
    } else if bits != [] {
      SymbolValueOfSymbol(ValueOf(bits + Zeros(5 - |bits|)));
    }
  }

  lemma {:induction false} SymbolBitsDefined(txt: string)
    ensures SymbolBits(txt).Some? <==> forall i :: 0 <= i < |txt| ==> IsSymbol(txt[i])
  {
    if txt != [] {
      SymbolBitsDefined(txt[1..]);
      assert forall i :: 1 <= i < |txt| ==> txt[i] == txt[1..][i - 1];
    }
  }

  /** b32enc emits only alphabet symbols, ceil(8n/5) of them for n bytes. */
  lemma B32EncShape(bin: seq<Byte>)
    ensures |B32Enc(bin)| == (8 * |bin| + 4) / 5
    ensures forall i :: 0 <= i < |B32Enc(bin)| ==> IsSymbol(B32Enc(bin)[i])
  {
    EncodeBitsSymbols(ByteBits(bin));
  }

  /** b32dec fails exactly on a character outside the alphabet and
      yields floor(5n/8) bytes for n symbols. */
  lemma B32DecShape(txt: string)
    ensures B32Dec(txt).Some? <==> forall i :: 0 <= i < |txt| ==> IsSymbol(txt[i])
    ensures B32Dec(txt).Some? ==> |B32Dec(txt).value| == 5 * |txt| / 8
  {
    SymbolBitsDefined(txt);
  }

  /** Decoding the symbol of one zero-filled group gives the group back. */
  lemma SymbolBitsOfGroup(group: seq<Bit>, rest: string, restBits: seq<Bit>)
    requires |group| == 5 && SymbolBits(rest) == Some(restBits)
    ensures ValueOf(group) < 32
    ensures SymbolBits([Symbol(ValueOf(group))] + rest) == Some(group + restBits)
  {
    assert Pow2(5) == 32;
    var v := ValueOf(group);
    SymbolValueOfSymbol(v);
    BitsOfValueOf(group);
    var txt := [Symbol(v)] + rest;
    assert txt[0] == Symbol(v) && txt[1..] == rest;
  }

  lemma PadBitsOfShortGroup(n: nat)
    requires 0 < n < 5
    ensures PadBits(n) == 5 - n
  {
  }

  lemma PadBitsSkipsGroup(n: nat)
    requires n >= 5
    ensures PadBits(n - 5) == PadBits(n)
  {
  }

  lemma EncodeShortGroup(bits: seq<Bit>)
    requires 0 < |bits| < 5
    ensures ValueOf(bits + Zeros(5 - |bits|)) < 32
    ensures EncodeBits(bits) == [Symbol(ValueOf(bits + Zeros(5 - |bits|)))]
  {
    assert Pow2(5) == 32;
  }

  lemma SingleSymbolDecodes(group: seq<Bit>)
    requires |group| == 5
    ensures ValueOf(group) < 32
    ensures SymbolBits([Symbol(ValueOf(group))]) == Some(group)
  {
    SymbolBitsOfGroup(group, [], []);
    assert [Symbol(ValueOf(group))] + [] == [Symbol(ValueOf(group))];
    assert group + [] == group;
  }

  lemma ShortGroupDecodes(bits: seq<Bit>)
    requires 0 < |bits| < 5
    ensures SymbolBits(EncodeBits(bits)) == Some(bits + Zeros(PadBits(|bits|)))
  {
    var group := bits + Zeros(5 - |bits|);
    EncodeShortGroup(bits);
    SingleSymbolDecodes(group);
    var txt := [Symbol(ValueOf(group))];
    assert EncodeBits(bits) == txt;
    assert SymbolBits(txt) == Some(group);
    PadBitsOfShortGroup(|bits|);
    assert Zeros(PadBits(|bits|)) == Zeros(5 - |bits|);
  }

  lemma {:induction false} SymbolBitsOfEncodeBits(bits: seq<Bit>)
    ensures SymbolBits(EncodeBits(bits)) == Some(bits + Zeros(PadBits(|bits|)))
    decreases |bits|
  {
    if bits == [] {
      assert bits + Zeros(0) == [];
    } else if |bits| < 5 {
      ShortGroupDecodes(bits);
    } else {
      SymbolBitsOfEncodeBits(bits[5..]);
      var pad := Zeros(PadBits(|bits|));
      PadBitsSkipsGroup(|bits|);
      SymbolBitsOfGroup(bits[..5], EncodeBits(bits[5..]), bits[5..] + pad);
      assert bits[..5] + (bits[5..] + pad) == bits + pad;
    }
  }

  /** The symbols for `n` bytes carry at least 8n and fewer than 8n + 8
      bits, so decoding keeps exactly `n` bytes. */
  lemma WholeBytes(n: nat)
    ensures 5 * ((8 * n + 4) / 5) / 8 * 8 == 8 * n
  {
    var m := (8 * n + 4) / 5;
    assert 8 * n <= 5 * m <= 8 * n + 4;
    assert 5 * m / 8 == n;
  }

  /** b32dec undoes b32enc: the two share one alphabet and no padding. */
  lemma B32RoundTrip(bin: seq<Byte>)
    ensures B32Dec(B32Enc(bin)) == Some(bin)
  {
    var bits := ByteBits(bin);
    var txt := EncodeBits(bits);
    SymbolBitsOfEncodeBits(bits);
    var n := |bin|;
    assert |txt| == (8 * n + 4) / 5;
    WholeBytes(n);
    var padded := bits + Zeros(PadBits(|bits|));
    assert padded[..8 * n] == bits;
    BitsToBytesOfByteBits(bin);
  }

  lemma B32EncInjective(a: seq<Byte>, b: seq<Byte>)
    requires B32Enc(a) == B32Enc(b)
    ensures a == b
  {
    B32RoundTrip(a);
    B32RoundTrip(b);
  }

  lemma {:induction false} ByteBitsOfConstant(n: nat, b: Byte, bit: Bit)
    requires BitsOf(b, 8) == seq(8, _ => bit)
    ensures ByteBits(seq(n, _ => b)) == seq(8 * n, _ => bit)
  {
    if n > 0 {
      ByteBitsOfConstant(n - 1, b, bit);
      assert seq(n, _ => b)[1..] == seq(n - 1, _ => b);
      assert seq(8, _ => bit) + seq(8 * (n - 1), _ => bit) == seq(8 * n, _ => bit);
    }
  }

  lemma ZerosValue(n: nat)
    ensures ValueOf(Zeros(n)) == 0
  {
    if n > 0 {
      assert Zeros(n)[..n - 1] == Zeros(n - 1);
      ZerosValue(n - 1);
    }
  }

  lemma OnesValue5()
    ensures ValueOf(Ones(5)) == 31
  {
    assert Ones(5)[..4] == Ones(4) && Ones(4)[..3] == Ones(3);
    assert Ones(3)[..2] == Ones(2) && Ones(2)[..1] == Ones(1) && Ones(1)[..0] == [];
  }

  /** Encoding a string of at least five bits: one symbol for the first
      five, then the rest. */
  lemma EncodeFirstGroup(bits: seq<Bit>)
    requires |bits| >= 5
    ensures ValueOf(bits[..5]) < 32
    ensures EncodeBits(bits) == [Symbol(ValueOf(bits[..5]))] + EncodeBits(bits[5..])
  {
    assert Pow2(5) == 32;
  }

  lemma {:induction false} EncodeZeros(m: nat)
    ensures EncodeBits(Zeros(m)) == seq((m + 4) / 5, _ => 'A')
    decreases m
  {
    if 0 < m < 5 {
      assert Zeros(m) + Zeros(5 - m) == Zeros(5);
      ZerosValue(5);
      EncodeShortGroup(Zeros(m));
    } else if m >= 5 {
      EncodeZeros(m - 5);
      EncodeFirstGroup(Zeros(m));
      assert Zeros(m)[..5] == Zeros(5) && Zeros(m)[5..] == Zeros(m - 5);
      ZerosValue(5);
      assert ['A'] + seq((m - 1) / 5, _ => 'A') == seq((m + 4) / 5, _ => 'A');
    }
  }

  /** All-zero input encodes to 'A's only. */
  lemma B32EncOfZeros(n: nat)
    ensures B32Enc(seq(n, _ => 0)) == seq((8 * n + 4) / 5, _ => 'A')
  {
    assert BitsOf(0, 8) == seq(8, _ => 0);
    ByteBitsOfConstant(n, 0, 0);
    EncodeZeros(8 * n);
  }

  /** The symbol of a last group of `k` one bits followed by zero bits. */
  function OnesTail(k: nat): (c: char)
    requires 0 < k < 5
  {
    assert ValueOf(Ones(k) + Zeros(5 - k)) < Pow2(5) == 32;
    Symbol(ValueOf(Ones(k) + Zeros(5 - k)))
  }

  /** Five leading one bits encode as '7'. */
  lemma EncodeOnesStep(m: nat)
    requires m >= 5
    ensures EncodeBits(Ones(m)) == ['7'] + EncodeBits(Ones(m - 5))
  {
    EncodeFirstGroup(Ones(m));
    assert Ones(m)[..5] == Ones(5) && Ones(m)[5..] == Ones(m - 5);
    OnesValue5();
  }

  /** `5 * q + r` one bits, `r < 5`: `q` times '7', then one symbol for the
      `r` leftover bits. */
  lemma {:induction false} EncodeOnes(q: nat, r: nat)
    requires r < 5
    ensures EncodeBits(Ones(5 * q + r)) == seq(q, _ => '7') + (if r == 0 then [] else [OnesTail(r)])
    decreases q
  {
    if q == 0 {
      if r > 0 {
        EncodeShortGroup(Ones(r));
      }
    } else {
      var m := 5 * q + r;
      var tail: string := if r == 0 then [] else [OnesTail(r)];
      assert m - 5 == 5 * (q - 1) + r;
      assert EncodeBits(Ones(m - 5)) == seq(q - 1, _ => '7') + tail by {
        EncodeOnes(q - 1, r);
      }
      calc {
        EncodeBits(Ones(m));
        { EncodeOnesStep(m); }
        ['7'] + EncodeBits(Ones(m - 5));
        ['7'] + (seq(q - 1, _ => '7') + tail);
        { SevensCons(q, tail); }
        seq(q, _ => '7') + tail;
      }
    }
  }

  lemma SevensCons(q: nat, tail: string)
    requires q > 0
    ensures ['7'] + (seq(q - 1, _ => '7') + tail) == seq(q, _ => '7') + tail
  {
    assert ['7'] + seq(q - 1, _ => '7') == seq(q, _ => '7');
  }

  /** All-ones input: '7's, then one symbol for the leftover bits. */
  lemma B32EncOfOnes(n: nat)
    ensures B32Enc(seq(n, _ => 255)) ==
      seq(8 * n / 5, _ => '7') + (if 8 * n % 5 == 0 then [] else [OnesTail(8 * n % 5)])
  {
    assert BitsOf(255, 8) == seq(8, _ => 1);
    ByteBitsOfConstant(n, 255, 1);
    assert 8 * n == 5 * (8 * n / 5) + 8 * n % 5;
    EncodeOnes(8 * n / 5, 8 * n % 5);
  }

  /** Four leftover one bits give '6', two give 'Y'. */
  lemma OnesTailSymbols()
    ensures OnesTail(4) == '6' && OnesTail(2) == 'Y'
  {
    var six: seq<Bit> := [1, 1, 1, 1, 0];
    assert Ones(4) + Zeros(1) == six;
    assert ValueOf(six) == 30 by {
      assert six[..4] == [1, 1, 1, 1] && six[..4][..3] == [1, 1, 1];
      assert [1, 1, 1][..2] == [1, 1] && [1, 1][..1] == [1] && [1][..0] == [];
    }
    var y: seq<Bit> := [1, 1, 0, 0, 0];
    assert Ones(2) + Zeros(3) == y;
    assert ValueOf(y) == 24 by {
      assert y[..4] == [1, 1, 0, 0] && y[..4][..3] == [1, 1, 0];
      assert [1, 1, 0][..2] == [1, 1] && [1, 1][..1] == [1] && [1][..0] == [];
    }
  }

  /** 48 bytes 0xFF: 76 '7's and a '6'. */
  lemma B32EncOfOnes48()
    ensures B32Enc(seq(48, _ => 255)) == seq(76, _ => '7') + "6"
  {
    B32EncOfOnes(48);
    assert 8 * 48 / 5 == 76 && 8 * 48 % 5 == 4;
    OnesTailSymbols();
  }

  /** 64 bytes 0xFF: 102 '7's and a 'Y'. */
  lemma B32EncOfOnes64()
    ensures B32Enc(seq(64, _ => 255)) == seq(102, _ => '7') + "Y"
  {
    B32EncOfOnes(64);
    assert 8 * 64 / 5 == 102 && 8 * 64 % 5 == 2;
    OnesTailSymbols();
  }
}
