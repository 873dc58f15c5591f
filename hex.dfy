// The hexadecimal helpers the commands rely on: Go's encoding/hex decoder and
// go-ethereum's common.IsHexAddress.
module Hex {
  import opened Results

  newtype byte = x: int | 0 <= x < 256

  predicate IsHexDigit(c: char) {
    ('0' <= c <= '9') || ('a' <= c <= 'f') || ('A' <= c <= 'F')
  }

  function HexValue(c: char): (v: nat)
    requires IsHexDigit(c)
    ensures v < 16
  {
    if '0' <= c <= '9' then c as int - '0' as int
    else if 'a' <= c <= 'f' then c as int - 'a' as int + 10
    else c as int - 'A' as int + 10
  }

  /** Lower-case digit for a value below 16, as hex.EncodeToString writes it. */
  function HexChar(v: nat): (c: char)
    requires v < 16
    ensures IsHexDigit(c) && HexValue(c) == v
  {
    if v < 10 then ('0' as int + v) as char else ('a' as int + v - 10) as char
  }

  predicate AllHex(s: string) {
    forall i :: 0 <= i < |s| ==> IsHexDigit(s[i])
  }

  /**
   * The first byte of a character's UTF-8 encoding: the character itself
   * below U+0080, otherwise a lead byte that carries its top bits.
   */
  function Utf8FirstByte(c: char): (b: byte)
    ensures c as int < 0x80 ==> b as int == c as int
    ensures c as int >= 0x80 ==> 0xC2 <= b as int <= 0xF4
  {
    var n := c as int;
    if n < 0x80 then n as byte
    else if n < 0x800 then (0xC0 + n / 0x40) as byte
    else if n < 0x10000 then (0xE0 + n / 0x1000) as byte
    else (0xF0 + n / 0x40000) as byte
  }

  /** The two errors hex.DecodeString reports; InvalidByte carries the offending byte. */
  datatype DecodeError = InvalidByte(b: byte) | ErrLength

  /**
   * hex.DecodeString: pairs of digits are decoded left to right; the first
   * character that is not a digit is reported by the first byte of its
   * UTF-8 encoding, and only a string made of digits but of odd length is
   * reported as ErrLength. Every digit is one byte, so the first character
   * that is not a digit starts at the first byte that is not one.
   */
  function DecodeString(s: string): (r: Result<seq<byte>, DecodeError>)
    ensures r.Ok? ==> |r.value| * 2 == |s|
  {
    if |s| == 0 then Ok([])
    else if !IsHexDigit(s[0]) then Err(InvalidByte(Utf8FirstByte(s[0])))
    else if |s| == 1 then Err(ErrLength)
    else if !IsHexDigit(s[1]) then Err(InvalidByte(Utf8FirstByte(s[1])))
    else
      match DecodeString(s[2..])
      case Ok(rest) => Ok([(HexValue(s[0]) * 16 + HexValue(s[1])) as byte] + rest)
      case Err(e) => Err(e)
  }

  function EncodeToString(b: seq<byte>): (s: string)
    ensures |s| == 2 * |b| && AllHex(s)
  {
    if b == [] then []
    else [HexChar(b[0] as int / 16), HexChar(b[0] as int % 16)] + EncodeToString(b[1..])
  }

  /** Decoding succeeds exactly on strings of even length made of hexadecimal digits. */
  lemma {:induction false} DecodeOkIff(s: string)
    ensures DecodeString(s).Ok? <==> (|s| % 2 == 0 && AllHex(s))
    decreases |s|
  {
    if |s| >= 2 {
      DecodeOkIff(s[2..]);
      assert AllHex(s) <==> IsHexDigit(s[0]) && IsHexDigit(s[1]) && AllHex(s[2..]) by {
        if IsHexDigit(s[0]) && IsHexDigit(s[1]) && AllHex(s[2..]) {
          forall i | 0 <= i < |s| ensures IsHexDigit(s[i]) {
            if i >= 2 { assert s[i] == s[2..][i - 2]; }
          }
        }
      }
    }
  }

  /** The error is ErrLength exactly when every character is a digit but their number is odd. */
  lemma {:induction false} DecodeErrLengthIff(s: string)
    ensures DecodeString(s) == Err(ErrLength) <==> (|s| % 2 == 1 && AllHex(s))
    decreases |s|
  {
    if |s| >= 2 {
      DecodeErrLengthIff(s[2..]);
      assert AllHex(s) <==> IsHexDigit(s[0]) && IsHexDigit(s[1]) && AllHex(s[2..]) by {
        if IsHexDigit(s[0]) && IsHexDigit(s[1]) && AllHex(s[2..]) {
          forall i | 0 <= i < |s| ensures IsHexDigit(s[i]) {
            if i >= 2 { assert s[i] == s[2..][i - 2]; }
          }
        }
      }
    }
  }

  /** An InvalidByte error names the first byte of the first character that is not a hexadecimal digit. */
  lemma {:induction false} DecodeInvalidIsFirst(s: string, b: byte)
    requires DecodeString(s) == Err(InvalidByte(b))
    ensures exists i :: 0 <= i < |s| && !IsHexDigit(s[i]) && Utf8FirstByte(s[i]) == b && AllHex(s[..i])
    decreases |s|
  {
    if IsHexDigit(s[0]) && IsHexDigit(s[1]) {
      DecodeInvalidIsFirst(s[2..], b);
      var j :| 0 <= j < |s[2..]| && !IsHexDigit(s[2..][j]) && Utf8FirstByte(s[2..][j]) == b && AllHex(s[2..][..j]);
      assert s[j + 2] == s[2..][j];
      var pre := s[..j + 2];
      assert AllHex(pre) by {
        forall i | 0 <= i < |pre| ensures IsHexDigit(pre[i]) {
          if i >= 2 { assert pre[i] == s[2..][..j][i - 2]; }
        }
      }
    } else if IsHexDigit(s[0]) {
      assert AllHex(s[..1]);
    } else {
      assert AllHex(s[..0]);
    }
  }

  /** An ASCII character is reported as itself; `é` is reported by its lead byte 0xC3. */
  lemma InvalidByteExamples()
    ensures DecodeString("g0") == Err(InvalidByte('g' as int as byte))
    ensures DecodeString("\U{E9}") == Err(InvalidByte(0xC3))
  {
  }

  lemma ByteDigits(b: byte)
    ensures HexValue(HexChar(b as int / 16)) * 16 + HexValue(HexChar(b as int % 16)) == b as int
  {
  }

  /** Decoding the encoding of any byte string gives it back. */
  lemma {:induction false} DecodeEncode(b: seq<byte>)
    ensures DecodeString(EncodeToString(b)) == Ok(b)
  {
    if b != [] {
      var s := EncodeToString(b);
      var hi, lo := HexChar(b[0] as int / 16), HexChar(b[0] as int % 16);
      assert s == [hi, lo] + EncodeToString(b[1..]);
      assert s[0] == hi && s[1] == lo;
      assert s[2..] == EncodeToString(b[1..]);
      DecodeEncode(b[1..]);
      ByteDigits(b[0]);
      assert DecodeString(s) == Ok([(HexValue(hi) * 16 + HexValue(lo)) as byte] + b[1..]);
      assert [b[0]] + b[1..] == b;
    }
  }

  /**
   * common.IsHexAddress: after an optional "0x" or "0X" the string is exactly
   * forty hexadecimal digits.
   */
  predicate Has0xPrefix(s: string) {
    |s| >= 2 && s[0] == '0' && (s[1] == 'x' || s[1] == 'X')
  }

  predicate IsHexAddress(s: string) {
    var body := if Has0xPrefix(s) then s[2..] else s;
    |body| == 40 && |body| % 2 == 0 && AllHex(body)
  }

  /** The two accepted shapes of an address, and nothing else. */
  lemma HexAddressShapes(s: string)
    ensures IsHexAddress(s) <==>
      (|s| == 40 && AllHex(s)) || (|s| == 42 && Has0xPrefix(s) && AllHex(s[2..]))
  {
    if |s| == 40 && AllHex(s) {
      assert !IsHexDigit('x') && !IsHexDigit('X');
      assert !Has0xPrefix(s) by { assert IsHexDigit(s[1]); }
    }
  }
}
