/** Base 16 encoding (section 8 of RFC 4648) as Go's `encoding/hex` implements
    it: `EncodeToString` emits the lowercase alphabet, `DecodeString` accepts
    digits of either case and reports the first byte that is not a digit. */
module Base16 {
  import opened Basics

  /** The errors `hex.DecodeString` can return. */
  datatype DecodeError =
    | InvalidByte(c: char)   // hex.InvalidByteError: the first non-digit byte
    | ErrLength              // hex.ErrLength: an odd number of digits

  predicate IsLowerHexDigit(c: char) {
    '0' <= c <= '9' || 'a' <= c <= 'f'
  }

  predicate IsHexDigit(c: char) {
    IsLowerHexDigit(c) || 'A' <= c <= 'F'
  }

  predicate AllHexDigits(s: string) {
    forall i :: 0 <= i < |s| ==> IsHexDigit(s[i])
  }

  predicate AllLowerHexDigits(s: string) {
    forall i :: 0 <= i < |s| ==> IsLowerHexDigit(s[i])
  }

  /** The value of one digit, upper or lower case. */
  function DigitValue(c: char): (v: nat)
    requires IsHexDigit(c)
    ensures v < 16
  {
    if '0' <= c <= '9' then c as int - '0' as int
    else if 'a' <= c <= 'f' then c as int - 'a' as int + 10
    else c as int - 'A' as int + 10
  }

  /** The lowercase digit for a value below 16. */
  function DigitChar(v: nat): (c: char)
    requires v < 16
    ensures IsLowerHexDigit(c) && DigitValue(c) == v
  {
    if v < 10 then ('0' as int + v) as char else ('a' as int + v - 10) as char
  }

  /** The lowercase form of a digit; other characters are left alone. */
  function ToLower(c: char): char {
    if 'A' <= c <= 'F' then (c as int - 'A' as int + 'a' as int) as char else c
  }

  /** `hex.EncodeToString`: two lowercase digits per byte, high nibble first. */
  function Encode(b: seq<Byte>): (s: string)
    ensures |s| == 2 * |b|
    ensures AllLowerHexDigits(s)
  {
    if b == [] then ""
    else [DigitChar(b[0] / 16), DigitChar(b[0] % 16)] + Encode(b[1..])
  }

  /** `hex.DecodeString`: digits are taken in pairs from the left; the first
      byte that is not a digit is reported, and only when every byte is a
      digit does an odd length give `ErrLength`. */
  function Decode(s: string): (r: Result<seq<Byte>, DecodeError>)
    ensures r.Ok? ==> 2 * |r.value| == |s|
    ensures r == Err(ErrLength) ==> |s| % 2 == 1
    decreases |s|
  {
    if |s| == 0 then Ok([])
    else if !IsHexDigit(s[0]) then Err(InvalidByte(s[0]))
    else if |s| == 1 then Err(ErrLength)
    else if !IsHexDigit(s[1]) then Err(InvalidByte(s[1]))
    else
      match Decode(s[2..])
      case Ok(rest) => Ok([DigitValue(s[0]) * 16 + DigitValue(s[1])] + rest)
      case Err(e) => Err(e)
  }

  /** Byte `k` of a decoding is the value of the digit pair at `2k`. */
  lemma {:induction false} DecodeAt(s: string, k: nat)
    requires Decode(s).Ok? && k < |Decode(s).value|
    ensures IsHexDigit(s[2 * k]) && IsHexDigit(s[2 * k + 1])
    ensures Decode(s).value[k] == DigitValue(s[2 * k]) * 16 + DigitValue(s[2 * k + 1])
    decreases |s|
  {
    if k > 0 {
      DecodeAt(s[2..], k - 1);
    }
  }

  /** Byte `k` of an encoding is the digit pair at `2k`. */
  lemma {:induction false} EncodeAt(b: seq<Byte>, k: nat)
    requires k < |b|
    ensures Encode(b)[2 * k] == DigitChar(b[k] / 16)
    ensures Encode(b)[2 * k + 1] == DigitChar(b[k] % 16)
  {
    if k > 0 {
      EncodeAt(b[1..], k - 1);
    }
  }

  /** Decoding undoes encoding, for every byte sequence. */
  lemma {:induction false} DecodeEncode(b: seq<Byte>)
    ensures Decode(Encode(b)) == Ok(b)
  {
    if b != [] {
      var s := Encode(b);
      assert s[2..] == Encode(b[1..]);
      DecodeEncode(b[1..]);
      assert DigitValue(s[0]) * 16 + DigitValue(s[1]) == b[0];
      assert [b[0]] + b[1..] == b;
    }
  }

  /** Decoding succeeds exactly on even-length strings of digits. */
  lemma {:induction false} DecodeSucceeds(s: string)
    ensures Decode(s).Ok? <==> |s| % 2 == 0 && AllHexDigits(s)
    decreases |s|
  {
    if |s| >= 2 {
      DecodeSucceeds(s[2..]);
      if Decode(s).Ok? || (|s| % 2 == 0 && AllHexDigits(s)) {
        assert IsHexDigit(s[0]) && IsHexDigit(s[1]);
        assert forall i :: 2 <= i < |s| ==> s[i] == s[2..][i - 2];
      }
    }
  }

  /** The error names the first byte that is not a digit. */
  lemma {:induction false} DecodeFirstInvalid(s: string, i: nat)
    requires i < |s| && !IsHexDigit(s[i])
    requires forall j :: 0 <= j < i ==> IsHexDigit(s[j])
    ensures Decode(s) == Err(InvalidByte(s[i]))
    decreases |s|
  {
    if i >= 2 {
      assert s[2..][i - 2] == s[i];
      DecodeFirstInvalid(s[2..], i - 2);
    }
  }

  /** An odd number of valid digits gives `ErrLength`. */
  lemma {:induction false} DecodeOddLength(s: string)
    requires |s| % 2 == 1 && AllHexDigits(s)
    ensures Decode(s) == Err(ErrLength)
    decreases |s|
  {
    if |s| > 1 {
      DecodeOddLength(s[2..]);
    }
  }

  /** The digit pair at `2k` of a re-encoded decoding is the lowercase form
      of the pair decoded there. */
  lemma EncodeDecodeAt(s: string, k: nat)
    requires Decode(s).Ok? && k < |Decode(s).value|
    ensures Encode(Decode(s).value)[2 * k] == ToLower(s[2 * k])
    ensures Encode(Decode(s).value)[2 * k + 1] == ToLower(s[2 * k + 1])
  {
    DecodeAt(s, k);
    EncodeAt(Decode(s).value, k);
    DigitOfValue(s[2 * k], s[2 * k + 1]);
  }

  /** Encoding the decoding of a valid string gives back its lowercase form:
      the encoding is canonical. */
  lemma EncodeDecode(s: string)
    requires |s| % 2 == 0 && AllHexDigits(s)
    ensures Decode(s).Ok?
    ensures |Encode(Decode(s).value)| == |s|
    ensures forall i :: 0 <= i < |s| ==> Encode(Decode(s).value)[i] == ToLower(s[i])
  {
    DecodeSucceeds(s);
    var e := Encode(Decode(s).value);
    forall i | 0 <= i < |s|
      ensures e[i] == ToLower(s[i])
    {
      var k := i / 2;
      EncodeDecodeAt(s, k);
      if i % 2 == 0 {
        assert i == 2 * k;
      } else {
        assert i == 2 * k + 1;
      }
    }
  }

  /** The digits of a byte assembled from two digits are those digits,
      in lowercase. */
  lemma DigitOfValue(hi: char, lo: char)
    requires IsHexDigit(hi) && IsHexDigit(lo)
    ensures DigitChar((DigitValue(hi) * 16 + DigitValue(lo)) / 16) == ToLower(hi)
    ensures DigitChar((DigitValue(hi) * 16 + DigitValue(lo)) % 16) == ToLower(lo)
  {
  }
}
