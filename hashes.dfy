/** The content address of a blob (hash.go): a 32-byte digest, its canonical
    text, its two parsers and its database round trip. The digest itself
    (SHA-256) is computed outside this model. */
module Hashes {
  import opened Basics
  import Base16

  const HashSize := 32
  const HexSize := 64

  /** Go's `[32]byte`. */
  type Hash = s: seq<Byte> | |s| == HashSize witness seq(32, i => 0)

  /** The dynamic value a database driver hands to `Scan` (or gets back from
      `Value`): the cases of the type switch, and every other type by name. */
  datatype DbValue =
    | Text(text: string)
    | Bytes(bytes: seq<Byte>)
    | Null
    | Other(typeName: string)

  /** The error values of this file. */
  datatype HashError =
    | BadInputLength                    // ParseHash: "input lenght must be exactly 64 characters"
    | ParseFailed(cause: Base16.DecodeError)  // ParseHash: "failed to parsh hash: %w"
    | InvalidLength(length: nat)        // Scan: "invalid hash length: %d"
    | Undecodable(cause: Base16.DecodeError)  // Scan: the decoder's own error, unchanged
    | NullValue                         // Scan: "NULL cannot be scanned into Hash"
    | CannotScan(typeName: string)      // Scan: "cannot scan %T into Hash"

  /** `Hash.Hex`: the canonical text, 64 lowercase digits. */
  function Hex(h: Hash): (s: string)
    ensures |s| == HexSize
    ensures Base16.AllLowerHexDigits(s)
  {
    Base16.Encode(h)
  }

  /** `Hash.String`. */
  function String(h: Hash): (s: string)
    ensures s == Hex(h)
  {
    Hex(h)
  }

  /** `Hash.Value`: serialises as the hex text and never fails. */
  function Value(h: Hash): (r: Result<DbValue, HashError>)
    ensures r.Ok? && r.value == Text(Hex(h))
  {
    Ok(Text(Hex(h)))
  }

  /** `ParseHash`: exactly 64 digits of either case; anything else fails. */
  function ParseHash(input: string): (r: Result<Hash, HashError>)
    ensures |input| != HexSize ==> r == Err(BadInputLength)
    ensures r.Ok? <==> |input| == HexSize && Base16.AllHexDigits(input)
    ensures r.Err? && |input| == HexSize ==> r.error.ParseFailed? && r.error.cause.InvalidByte?
  {
    Base16.DecodeSucceeds(input);
    if |input| != HexSize then Err(BadInputLength)
    else
      match Base16.Decode(input)
      case Err(e) => Err(ParseFailed(e))
      case Ok(b) => Ok(b)
  }

  /** A 64-character input with a non-digit is rejected, naming the first
      offending character. */
  lemma ParseHashRejectsNonDigit(input: string, i: nat)
    requires |input| == HexSize && i < |input| && !Base16.IsHexDigit(input[i])
    requires forall j :: 0 <= j < i ==> Base16.IsHexDigit(input[j])
    ensures ParseHash(input) == Err(ParseFailed(Base16.InvalidByte(input[i])))
  {
    Base16.DecodeFirstInvalid(input, i);
  }

  /** The round-trip law: parsing the text of a hash gives that hash. */
  lemma ParseHashOfHex(h: Hash)
    ensures ParseHash(Hex(h)) == Ok(h)
  {
    Base16.DecodeEncode(h);
  }

  /** A parsed hash prints as the lowercase form of its input: a hash has
      one text up to letter case. */
  lemma HexOfParsed(input: string)
    requires ParseHash(input).Ok?
    ensures forall i :: 0 <= i < HexSize ==> Hex(ParseHash(input).value)[i] == Base16.ToLower(input[i])
  {
    Base16.EncodeDecode(input);
  }

  /** What `Scan` does with `src`: the hash it stores, or the error it returns. */
  function ScanOutcome(src: DbValue): (r: Result<Hash, HashError>)
    ensures src.Text? ==> (r.Ok? <==> ParseHash(src.text).Ok?)
    ensures src.Text? && r.Ok? ==> r.value == ParseHash(src.text).value
    ensures src.Text? && |src.text| != HexSize ==> r == Err(InvalidLength(|src.text|))
    ensures src.Text? && |src.text| == HexSize && r.Err? ==> r.error.Undecodable? && r.error.cause.InvalidByte?
    ensures src.Text? && |src.text| == HexSize && r.Err? ==> ParseHash(src.text) == Err(ParseFailed(r.error.cause))
    ensures src.Bytes? ==> (r.Ok? <==> |src.bytes| == HashSize)
    ensures src.Bytes? && r.Ok? ==> r.value == src.bytes
    ensures src.Bytes? && r.Err? ==> r == Err(InvalidLength(|src.bytes|))
    ensures src.Null? ==> r == Err(NullValue)
    ensures src.Other? ==> r == Err(CannotScan(src.typeName))
  {
    match src
    case Text(s) =>
      if |s| != HexSize then Err(InvalidLength(|s|))
      else (
        match Base16.Decode(s)
        case Err(e) => Err(Undecodable(e))
        case Ok(b) => Ok(b))
    case Bytes(b) =>
      if |b| != HashSize then Err(InvalidLength(|b|)) else Ok(b)
    case Null => Err(NullValue)
    case Other(t) => Err(CannotScan(t))
  }

  /** `Hash.Scan`: decodes `src` into the 32 bytes `h` points to. The bytes
      are overwritten only on success; every error leaves them as they were. */
  method Scan(h: array<Byte>, src: DbValue) returns (err: Option<HashError>)
    requires h.Length == HashSize
    modifies h
    ensures ScanOutcome(src).Ok? ==> err == None && h[..] == ScanOutcome(src).value
    ensures ScanOutcome(src).Err? ==> err == Some(ScanOutcome(src).error) && h[..] == old(h[..])
  {
    match src
    case Text(s) =>
      if |s| != HexSize {
        return Some(InvalidLength(|s|));
      }
      var decoded := Base16.Decode(s);
      if decoded.Err? {
        return Some(Undecodable(decoded.error));
      }
      var b := decoded.value;
      forall i | 0 <= i < HashSize {
        h[i] := b[i];
      }
      return None;
    case Bytes(b) =>
      if |b| != HashSize {
        return Some(InvalidLength(|b|));
      }
      forall i | 0 <= i < HashSize {
        h[i] := b[i];
      }
      return None;
    case Null =>
      return Some(NullValue);
    case Other(t) =>
      return Some(CannotScan(t));
  }

  /** Storing a hash with `Value` and reading it back with `Scan` restores it. */
  lemma ValueThenScan(h: Hash)
    ensures Value(h).Ok? && ScanOutcome(Value(h).value) == Ok(h)
  {
    ParseHashOfHex(h);
  }
}
