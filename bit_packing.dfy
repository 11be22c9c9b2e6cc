/** Bit strings, bytes and hex text as the entropy stage stores them: bits are
    packed eight to a byte, most significant first, after padding with zeros to a
    multiple of eight; the bytes are written as two lower-case hex digits each.
    The decoder unpacks each byte to eight bits and drops the padding again. */
module BitPacking {
  import opened Common

  function Pow2(n: nat): (r: nat)
    ensures r >= 1
  {
    if n == 0 then 1 else 2 * Pow2(n - 1)
  }

  /** `int(bits, 2)`: the bits read as a binary number, most significant first. */
  function Value(bits: seq<Bit>): (v: nat)
    ensures v < Pow2(|bits|)
  {
    if bits == [] then 0 else 2 * Value(bits[..|bits| - 1]) + bits[|bits| - 1]
  }

  /** `format(v, '0nb')` for `v < 2^n`: `n` bits, most significant first. */
  function BitsOf(v: nat, n: nat): (bits: seq<Bit>)
    ensures |bits| == n
  {
    if n == 0 then [] else BitsOf(v / 2, n - 1) + [v % 2]
  }

  /** Writing a number in `n` bits and reading it back gives the number. */
  lemma {:induction false} ValueBitsOf(v: nat, n: nat)
    requires v < Pow2(n)
    ensures Value(BitsOf(v, n)) == v
  {
    if n > 0 {
      ValueBitsOf(v / 2, n - 1);
      assert BitsOf(v, n)[..n - 1] == BitsOf(v / 2, n - 1);
    }
  }

  /** Reading bits as a number and writing it back in as many bits gives the bits. */
  lemma {:induction false} BitsOfValue(bits: seq<Bit>)
    ensures BitsOf(Value(bits), |bits|) == bits
  {
    if bits != [] {
      var n := |bits| - 1;
      BitsOfValue(bits[..n]);
      assert bits == bits[..n] + [bits[n]];
    }
  }

  /** `(8 - len(bits) % 8) % 8` */
  function Padding(n: nat): (pad: nat)
    ensures pad < 8
    ensures (n + pad) % 8 == 0
  {
    (8 - n % 8) % 8
  }

  /** `pad` is below 8 and completes `n` bits to a whole number of bytes. */
  predicate WholeBytes(n: nat, pad: nat)
  {
    pad < 8 && (n + pad) % 8 == 0
  }

  function Zeros(n: nat): (z: seq<Bit>)
    ensures |z| == n
    ensures forall i | 0 <= i < n :: z[i] == 0
  {
    seq(n, _ => 0)
  }

  /** The bytes of a bit string whose length is a multiple of 8. */
  function Pack(bits: seq<Bit>): (bytes: seq<Byte>)
    requires |bits| % 8 == 0
    ensures |bytes| == |bits| / 8
    decreases |bits|
  {
    if bits == [] then []
    else
      assert Pow2(8) == 256;
      [Value(bits[..8])] + Pack(bits[8..])
  }

  /** `bits_to_bytes(bits)`: the bytes of the zero-padded bits, and the padding. */
  method BitsToBytes(bits: seq<Bit>) returns (bytes: seq<Byte>, padding: nat)
    ensures padding == Padding(|bits|)
    ensures bytes == Pack(bits + Zeros(padding))
  {
    padding := Padding(|bits|);
    var padded := bits + Zeros(padding);
    bytes := [];
    var i := 0;
    while i < |padded|
      invariant i <= |padded| && (|padded| - i) % 8 == 0
      invariant bytes + Pack(padded[i..]) == Pack(padded)
      decreases |padded| - i
    {
      PackFront(padded, i);
      var byte: Byte := Value(padded[i..i + 8]);
      bytes := bytes + [byte];
      i := i + 8;
    }
  }

  /** The byte packed from the eight bits at `i` leads the packing of the rest. */
  lemma PackFront(padded: seq<Bit>, i: nat)
    requires i < |padded| && (|padded| - i) % 8 == 0
    ensures i + 8 <= |padded| && (|padded| - (i + 8)) % 8 == 0
    ensures Value(padded[i..i + 8]) < 256
    ensures Pack(padded[i..]) == [Value(padded[i..i + 8])] + Pack(padded[i + 8..])
  {
    assert Pow2(8) == 256;
    assert padded[i..][..8] == padded[i..i + 8] && padded[i..][8..] == padded[i + 8..];
  }

  /** `''.join(f'{b:08b}' for b in bytes)` */
  function Unpack(bytes: seq<Byte>): (bits: seq<Bit>)
    ensures |bits| == 8 * |bytes|
  {
    if bytes == [] then [] else BitsOf(bytes[0], 8) + Unpack(bytes[1..])
  }

  /** `bytes_to_bits(bytes, total_bits, padding_bits)`: the unpacked bits without
      the last `padding_bits`; `total_bits` takes no part. */
  function BytesToBits(bytes: seq<Byte>, totalBits: int, paddingBits: int): seq<Bit>
  {
    var bits := Unpack(bytes);
    if paddingBits > 0 then DropLast(bits, paddingBits) else bits
  }

  /** Unpacking the packed bytes gives the bits back. */
  lemma {:induction false} UnpackPack(bits: seq<Bit>)
    requires |bits| % 8 == 0
    ensures Unpack(Pack(bits)) == bits
    decreases |bits|
  {
    if bits != [] {
      UnpackPack(bits[8..]);
      BitsOfValue(bits[..8]);
      assert Pack(bits)[1..] == Pack(bits[8..]);
      assert bits == bits[..8] + bits[8..];
    }
  }

  /** Packing then unpacking gives back exactly the bits that went in: the padding
      is all the unpacking drops. The byte count is the bit count divided by 8,
      rounded up. */
  lemma PackRoundTrip(bits: seq<Bit>)
    ensures var bytes := Pack(bits + Zeros(Padding(|bits|)));
            BytesToBits(bytes, |bits|, Padding(|bits|)) == bits && |bytes| == (|bits| + 7) / 8
  {
    var padded := bits + Zeros(Padding(|bits|));
    UnpackPack(padded);
    assert padded[..|bits|] == bits;
  }

  /** The same facts about a padding and bytes already computed from `bits`. */
  lemma PackedFields(bits: seq<Bit>, padding: nat, bytes: seq<Byte>)
    requires padding == Padding(|bits|) && bytes == Pack(bits + Zeros(padding))
    ensures WholeBytes(|bits|, padding)
    ensures BytesToBits(bytes, |bits|, padding) == bits && |bytes| == (|bits| + 7) / 8
  {
    PackRoundTrip(bits);
  }

  // ----- Hex text

  function HexDigit(d: nat): (c: char)
    requires d < 16
  {
    if d < 10 then ('0' as int + d) as char else ('a' as int + d - 10) as char
  }

  /** `''.join(f'{b:02x}' for b in bytes)` */
  function BytesToHex(bytes: seq<Byte>): (hex: string)
    ensures |hex| == 2 * |bytes|
  {
    if bytes == [] then "" else [HexDigit(bytes[0] / 16), HexDigit(bytes[0] % 16)] + BytesToHex(bytes[1..])
  }

  /** A hexadecimal digit of either case and its value. */
  function DigitValue(c: char): Option<nat>
  {
    if '0' <= c <= '9' then Some(c as int - '0' as int)
    else if 'a' <= c <= 'f' then Some(c as int - 'a' as int + 10)
    else if 'A' <= c <= 'F' then Some(c as int - 'A' as int + 10)
    else None
  }

  /** `bytearray.fromhex(text)`: pairs of hex digits, with white space allowed
      before each pair; anything else, or a lone digit, is an error. */
  function HexToBytes(text: string): Result<seq<Byte>>
  {
    if text == [] then Ok([])
    else if IsSpace(text[0]) then HexToBytes(text[1..])
    else if |text| < 2 || DigitValue(text[0]).None? || DigitValue(text[1]).None? then Err(BadHex)
    else
      match HexToBytes(text[2..])
      case Err(f) => Err(f)
      case Ok(rest) =>
        assert DigitValue(text[0]).value < 16 && DigitValue(text[1]).value < 16;
        Ok([16 * DigitValue(text[0]).value + DigitValue(text[1]).value] + rest)
  }

  lemma DigitValueHex(d: nat)
    requires d < 16
    ensures DigitValue(HexDigit(d)) == Some(d)
    ensures !IsSpace(HexDigit(d))
  {
  }

  /** Reading the hex text back gives the bytes; the text uses only the digits
      `0-9a-f`. */
  lemma {:induction false} HexRoundTrip(bytes: seq<Byte>)
    ensures HexToBytes(BytesToHex(bytes)) == Ok(bytes)
    ensures forall i | 0 <= i < |BytesToHex(bytes)| ::
              '0' <= BytesToHex(bytes)[i] <= '9' || 'a' <= BytesToHex(bytes)[i] <= 'f'
  {
    if bytes != [] {
      var b := bytes[0];
      DigitValueHex(b / 16);
      DigitValueHex(b % 16);
      HexRoundTrip(bytes[1..]);
      var hex := BytesToHex(bytes);
      assert hex[2..] == BytesToHex(bytes[1..]);
      assert 16 * (b / 16) + b % 16 == b;
      assert HexToBytes(hex) == Ok([b] + bytes[1..]);
      assert [b] + bytes[1..] == bytes;
      forall i | 0 <= i < |hex| ensures '0' <= hex[i] <= '9' || 'a' <= hex[i] <= 'f' {
        if i >= 2 { assert hex[i] == BytesToHex(bytes[1..])[i - 2]; }
      }
    }
  }
}
