/** The hex validator of `src/input/hex.rs`. */
module Hex {
  import opened Der

  /** `u8::is_ascii_hexdigit`: '0'-'9', 'A'-'F' or 'a'-'f'. */
  predicate IsAsciiHexDigit(b: byte) {
    0x30 <= b <= 0x39 || 0x41 <= b <= 0x46 || 0x61 <= b <= 0x66
  }

  /** `is_valid_hex`: an even number of bytes, each an ASCII hex digit. */
  predicate IsValidHex(data: seq<byte>) {
    |data| % 2 == 0 && forall i | 0 <= i < |data| :: IsAsciiHexDigit(data[i])
  }

  /** The buffers made of whole two-digit hex pairs, the shape a hex decoder
      reads one output byte at a time. */
  predicate HexPairs(data: seq<byte>)
    decreases |data|
  {
    data == []
    || (|data| >= 2 && IsAsciiHexDigit(data[0]) && IsAsciiHexDigit(data[1]) && HexPairs(data[2..]))
  }

  /** The validator accepts exactly the buffers made of hex pairs. */
  lemma {:induction false} ValidHexIsPairs(data: seq<byte>)
    ensures IsValidHex(data) <==> HexPairs(data)
    decreases |data|
  {
    if |data| >= 2 {
      ValidHexIsPairs(data[2..]);
      if IsValidHex(data[2..]) && IsAsciiHexDigit(data[0]) && IsAsciiHexDigit(data[1]) {
        forall i | 0 <= i < |data|
          ensures IsAsciiHexDigit(data[i])
        {
          if i >= 2 {
            assert data[i] == data[2..][i - 2];
          }
        }
      }
    } else if |data| == 1 {
      assert !HexPairs(data);
    }
  }

  lemma EmptyIsValidHex()
    ensures IsValidHex([])
  {
  }

  lemma OddLengthIsNotHex(data: seq<byte>)
    requires |data| % 2 == 1
    ensures !IsValidHex(data)
  {
  }

  lemma NonDigitIsNotHex(data: seq<byte>, i: nat)
    requires i < |data| && !IsAsciiHexDigit(data[i])
    ensures !IsValidHex(data)
  {
  }

  /** Valid buffers concatenate to a valid buffer; a valid buffer cut at an
      even offset gives two valid halves. */
  lemma ValidHexConcat(a: seq<byte>, b: seq<byte>)
    ensures IsValidHex(a) && IsValidHex(b) ==> IsValidHex(a + b)
    ensures IsValidHex(a + b) && |a| % 2 == 0 ==> IsValidHex(a) && IsValidHex(b)
  {
    if IsValidHex(a + b) {
      assert forall i | 0 <= i < |a| :: a[i] == (a + b)[i];
      assert forall i | 0 <= i < |b| :: b[i] == (a + b)[|a| + i];
    }
  }
}
