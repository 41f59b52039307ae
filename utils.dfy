/** Byte helpers of `src/utils/mod.rs`: hex dumps, nibble and big-endian readers, a byte writer. */
module Utils {
  import opened Base

  /** `HEX_CHARS`: the upper-case hexadecimal alphabet. */
  const HexChars: string := "0123456789ABCDEF"

  /** Specification of `bytes_to_hex`: two characters per byte, high nibble first. */
  function Hex(bytes: seq<u8>): (s: string)
    ensures |s| == 2 * |bytes|
  {
    if bytes == [] then []
    else
      var b := bytes[|bytes| - 1];
      Hex(bytes[..|bytes| - 1]) + [HexChars[b / 16], HexChars[b % 16]]
  }

  /** `bytes_to_hex`: pushes the two digits of every byte in turn. */
  method BytesToHex(bytes: seq<u8>) returns (s: string)
    ensures s == Hex(bytes)
  {
    var v: string := [];
    for i := 0 to |bytes|
      invariant v == Hex(bytes[..i])
    {
      assert bytes[..i + 1][..i] == bytes[..i];
      // `bytes >> 4` and `bytes & 0xf`
      v := v + [HexChars[bytes[i] / 16], HexChars[bytes[i] % 16]];
    }
    assert bytes[..|bytes|] == bytes;
    s := v;
  }

  /** Characters 2i and 2i+1 of the dump are the digits of the high and low nibble of byte i. */
  lemma {:induction false} HexAt(bytes: seq<u8>, i: nat)
    requires i < |bytes|
    ensures Hex(bytes)[2 * i] == HexChars[ReadU4High(bytes[i..])]
    ensures Hex(bytes)[2 * i + 1] == HexChars[ReadU4Low(bytes[i..])]
  {
    var n := |bytes| - 1;
    if i < n {
      HexAt(bytes[..n], i);
      assert bytes[..n][i..][0] == bytes[i..][0];
    }
  }

  /** Every character of a dump is a digit of the alphabet. */
  lemma HexAlphabet(bytes: seq<u8>)
    ensures forall c :: c in Hex(bytes) ==> c in HexChars
  {
  }

  /** Value of a digit of the alphabet (its position in `HexChars`). */
  function DigitValue(c: char): (d: nat)
    ensures d < 16
  {
    if '0' <= c <= '9' then (c as int) - ('0' as int)
    else if 'A' <= c <= 'F' then (c as int) - ('A' as int) + 10
    else 0
  }

  /** Reads a dump back, two digits per byte. */
  function Unhex(s: string): (bytes: seq<u8>)
    requires |s| % 2 == 0
    ensures |bytes| == |s| / 2
  {
    seq(|s| / 2, i requires 0 <= i < |s| / 2 => 16 * DigitValue(s[2 * i]) + DigitValue(s[2 * i + 1]))
  }

  /** The dump loses nothing: reading it back gives the original bytes. */
  lemma HexRoundTrip(bytes: seq<u8>)
    ensures Unhex(Hex(bytes)) == bytes
  {
    var s := Hex(bytes);
    forall i | 0 <= i < |bytes|
      ensures Unhex(s)[i] == bytes[i]
    {
      var b := bytes[i];
      HexAt(bytes, i);
      assert bytes[i..][0] == b;
      assert s[2 * i] == HexChars[b / 16] && s[2 * i + 1] == HexChars[b % 16];
      DigitsOf(b);
      UnhexAt(s, i);
    }
    assert |Unhex(s)| == |bytes|;
  }

  /** Byte `i` of a read-back dump comes from characters `2i` and `2i+1`. */
  lemma UnhexAt(s: string, i: nat)
    requires |s| % 2 == 0 && i < |s| / 2
    ensures Unhex(s)[i] == 16 * DigitValue(s[2 * i]) + DigitValue(s[2 * i + 1])
  {
  }

  /** The two digits written for a byte read back as that byte. */
  lemma DigitsOf(b: u8)
    ensures 16 * DigitValue(HexChars[b / 16]) + DigitValue(HexChars[b % 16]) == b
  {
    DigitOf(b / 16);
    DigitOf(b % 16);
  }

  lemma DigitOf(d: nat)
    requires d < 16
    ensures DigitValue(HexChars[d]) == d
  {
  }

  /** `Reader::read_u4_high`: the high nibble of the first byte. */
  function ReadU4High(bytes: seq<u8>): (r: u8)
    requires |bytes| >= 1
    ensures r < 16 && r * 16 <= bytes[0] < r * 16 + 16
  {
    bytes[0] / 16
  }

  /** `Reader::read_u4_low`: the low nibble of the first byte. */
  function ReadU4Low(bytes: seq<u8>): (r: u8)
    requires |bytes| >= 1
    ensures r < 16 && (bytes[0] - r) % 16 == 0
  {
    bytes[0] % 16
  }

  /** The two nibbles put back together give the byte they were read from. */
  lemma NibblesRecombine(bytes: seq<u8>)
    requires |bytes| >= 1
    ensures ReadU4High(bytes) * 16 + ReadU4Low(bytes) == bytes[0]
  {
  }

  /** `Reader::read_u8`: the first byte, whose nibbles are the two nibble readers' results. */
  function ReadU8(bytes: seq<u8>): (r: u8)
    requires |bytes| >= 1
    ensures r / 16 == ReadU4High(bytes) && r % 16 == ReadU4Low(bytes)
  {
    bytes[0]
  }

  /** `Reader::read_u16`: the first two bytes as a big-endian `u16`. */
  function ReadU16(bytes: seq<u8>): (r: u16)
    requires |bytes| >= 2
    ensures r / 256 == bytes[0] && r % 256 == bytes[1]
  {
    // `u16::from(bytes[0]) << 8 | u16::from(bytes[1])`: the two bytes occupy disjoint bits
    (bytes[0] as int) * 256 + bytes[1] as int
  }

  /** Big-endian bytes of a `u16`. */
  function U16Bytes(v: u16): (bytes: seq<u8>)
    ensures |bytes| == 2
  {
    [v / 256, v % 256]
  }

  /** `read_u16` inverts the big-endian split, in both directions. */
  lemma ReadU16RoundTrip(v: u16, bytes: seq<u8>)
    requires |bytes| == 2
    ensures ReadU16(U16Bytes(v)) == v
    ensures U16Bytes(ReadU16(bytes)) == bytes
  {
  }

  /** `Writer::write_u8`: stores the value in the first byte of the buffer, in place. */
  method WriteU8(buff: array<u8>, value: u8)
    requires buff.Length >= 1
    modifies buff
    ensures ReadU8(buff[..]) == value
    ensures forall i :: 1 <= i < buff.Length ==> buff[i] == old(buff[i])
  {
    buff[0] := value;
  }
}
