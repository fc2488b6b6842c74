/** DTLS fingerprints: colon-separated upper-case hexadecimal, printed and parsed. */
module Fingerprint {
  import opened Wrappers
  import opened Framing

  datatype Algorithm = Sha1 | Sha224 | Sha256 | Sha384 | Sha512

  datatype DtlsFingerprint = DtlsFingerprint(algorithm: Algorithm, value: seq<Byte>)

  datatype ParseError = UnknownAlgorithm | WrongLength | BadHex

  function Size(a: Algorithm): nat {
    match a case Sha1 => 20 case Sha224 => 28 case Sha256 => 32 case Sha384 => 48 case Sha512 => 64
  }

  function Name(a: Algorithm): string {
    match a
    case Sha1 => "sha-1"
    case Sha224 => "sha-224"
    case Sha256 => "sha-256"
    case Sha384 => "sha-384"
    case Sha512 => "sha-512"
  }

  function AlgorithmOf(name: string): Option<Algorithm> {
    if name == "sha-1" then Some(Sha1)
    else if name == "sha-224" then Some(Sha224)
    else if name == "sha-256" then Some(Sha256)
    else if name == "sha-384" then Some(Sha384)
    else if name == "sha-512" then Some(Sha512)
    else None
  }

  /** An upper-case hexadecimal digit. */
  function Hex(n: nat): char
    requires n < 16
  {
    if n < 10 then '0' + n as char else 'A' + (n - 10) as char
  }

  /** char::to_digit(16): either case. */
  function Digit(c: char): (r: Option<nat>)
    ensures r.Some? ==> r.value < 16
  {
    if '0' <= c <= '9' then Some((c - '0') as nat)
    else if 'A' <= c <= 'F' then Some((c - 'A') as nat + 10)
    else if 'a' <= c <= 'f' then Some((c - 'a') as nat + 10)
    else None
  }

  /** {:02X} of every byte, with colons between. */
  function Print(value: seq<Byte>): string {
    if value == [] then ""
    else
      [Hex(value[0] / 16), Hex(value[0] % 16)] + if |value| == 1 then "" else ":" + Print(value[1..])
  }

  /** u8::from_str_radix(.., 16) of two characters: a leading plus sign is accepted. */
  function ParseByte(c: char, d: char): (r: Option<Byte>) {
    match (Digit(c), Digit(d))
    case (Some(hi), Some(lo)) => Some(hi * 16 + lo)
    case (None, Some(lo)) => if c == '+' then Some(lo) else None
    case _ => None
  }

  /** The two characters at offset 3i. */
  function ByteAt(input: string, i: nat): Option<Byte>
    requires 3 * i + 1 < |input|
  {
    ParseByte(input[3 * i], input[3 * i + 1])
  }

  /** The input holds the bytes, whatever stands between them. */
  ghost predicate ParsesTo(input: string, value: seq<Byte>) {
    |input| >= 3 * |value| - 1 && forall i :: 0 <= i < |value| ==> ByteAt(input, i) == Some(value[i])
  }

  /** parse_as_bytes(): writes the output slice byte by byte and stops at the first error. */
  method ParseAsBytes(input: string, output: array<Byte>) returns (ok: bool)
    requires |input| >= 3 * output.Length - 1
    modifies output
    ensures ok <==> forall i :: 0 <= i < output.Length ==> ByteAt(input, i).Some?
    ensures ok ==> ParsesTo(input, output[..])
  {
    for i := 0 to output.Length
      invariant forall j :: 0 <= j < i ==> ByteAt(input, j) == Some(output[j])
    {
      var v := ByteAt(input, i);
      if v.None? {
        return false;
      }
      output[i] := v.value;
    }
    return true;
  }

  /** The deserializer: algorithm, exact length, then the bytes. */
  method Deserialize(name: string, value: string) returns (r: Result<DtlsFingerprint, ParseError>)
    ensures r == Err(UnknownAlgorithm) <==> AlgorithmOf(name).None?
    ensures r == Err(WrongLength) <==> AlgorithmOf(name).Some? && |value| != 3 * Size(AlgorithmOf(name).value) - 1
    ensures r == Err(BadHex) <==> AlgorithmOf(name).Some? && |value| == 3 * Size(AlgorithmOf(name).value) - 1
                                  && exists i :: 0 <= i < Size(AlgorithmOf(name).value) && ByteAt(value, i).None?
    ensures r.Ok? ==> AlgorithmOf(name) == Some(r.value.algorithm)
                      && |r.value.value| == Size(r.value.algorithm) && |value| == 3 * |r.value.value| - 1
                      && ParsesTo(value, r.value.value)
  {
    var a := AlgorithmOf(name);
    if a.None? {
      return Err(UnknownAlgorithm);
    }
    if |value| != 3 * Size(a.value) - 1 {
      return Err(WrongLength);
    }
    var output := new Byte[Size(a.value)](_ => 0);
    var ok := ParseAsBytes(value, output);
    return if ok then Ok(DtlsFingerprint(a.value, output[..])) else Err(BadHex);
  }

  // ----- Round trips -----

  /** The printed form takes 3n - 1 characters; byte i stands at 3i, a colon after all but the last. */
  lemma {:induction false} PrintedAt(value: seq<Byte>, i: nat)
    requires i < |value|
    ensures |Print(value)| == 3 * |value| - 1
    ensures Print(value)[3 * i] == Hex(value[i] / 16) && Print(value)[3 * i + 1] == Hex(value[i] % 16)
    ensures i + 1 < |value| ==> Print(value)[3 * i + 2] == ':'
  {
    if |value| > 1 {
      var rest := Print(value[1..]);
      PrintedAt(value[1..], if i == 0 then 0 else i - 1);
      assert Print(value) == [Hex(value[0] / 16), Hex(value[0] % 16), ':'] + rest;
    }
  }

  lemma HexDigit(n: nat)
    requires n < 16
    ensures Digit(Hex(n)) == Some(n) && IsUpperHex(Hex(n))
  {}

  predicate IsUpperHex(c: char) {
    '0' <= c <= '9' || 'A' <= c <= 'F'
  }

  /** Parsing what was printed gives the bytes back and nothing else, for every number of bytes. */
  lemma ParsePrint(value: seq<Byte>, other: seq<Byte>)
    requires value != [] && |other| == |value|
    ensures |Print(value)| == 3 * |value| - 1
    ensures ParsesTo(Print(value), other) <==> other == value
  {
    hide Print, Hex, Digit;
    var s := Print(value);
    PrintedAt(value, 0);
    forall i | 0 <= i < |value| ensures ByteAt(s, i) == Some(value[i]) {
      PrintedAt(value, i);
      HexDigit(value[i] / 16);
      HexDigit(value[i] % 16);
    }
  }

  /** Upper-case digits and colons in their places. */
  ghost predicate Canonical(s: string, n: nat)
    requires |s| == 3 * n - 1
  {
    forall i :: 0 <= i < n ==> CanonicalAt(s, n, i)
  }

  ghost predicate CanonicalAt(s: string, n: nat, i: nat)
    requires |s| == 3 * n - 1 && i < n
  {
    IsUpperHex(s[3 * i]) && IsUpperHex(s[3 * i + 1]) && (i < n - 1 ==> s[3 * i + 2] == ':')
  }

  lemma UpperHexIsHex(c: char)
    requires IsUpperHex(c)
    ensures Digit(c).Some? && Hex(Digit(c).value) == c
  {}

  /**
   Re-printing what was parsed gives the input back exactly when the input was canonical. The parser also accepts
   lower case, any separator, and a plus sign for a leading zero.
   */
  lemma PrintParsed(s: string, value: seq<Byte>)
    requires value != [] && |s| == 3 * |value| - 1 && ParsesTo(s, value)
    ensures Print(value) == s <==> Canonical(s, |value|)
  {
    hide Print, Hex, Digit, IsUpperHex;
    var n, p := |value|, Print(value);
    PrintedAt(value, 0);
    if p == s {
      forall i | 0 <= i < n ensures CanonicalAt(s, n, i) {
        PrintedAt(value, i);
        HexDigit(value[i] / 16);
        HexDigit(value[i] % 16);
      }
    }
    if Canonical(s, n) {
      forall k | 0 <= k < |s| ensures p[k] == s[k] {
        CharacterKept(s, value, k);
      }
    }
  }

  lemma CharacterKept(s: string, value: seq<Byte>, k: nat)
    requires value != [] && |s| == 3 * |value| - 1 && ParsesTo(s, value) && Canonical(s, |value|)
    requires k < |s|
    ensures k < |Print(value)| && Print(value)[k] == s[k]
  {
    hide Print, Hex, Digit, IsUpperHex;
    var i := k / 3;
    PrintedAt(value, i);
    assert CanonicalAt(s, |value|, i) && ByteAt(s, i) == Some(value[i]);
    UpperHexIsHex(s[3 * i]);
    UpperHexIsHex(s[3 * i + 1]);
    assert k == 3 * i || k == 3 * i + 1 || k == 3 * i + 2;
  }

  /** The algorithm's name is read back as the algorithm. */
  lemma NameRoundTrip(a: Algorithm)
    ensures AlgorithmOf(Name(a)) == Some(a)
    ensures match a
            case Sha1 => Name(a) == "sha-1" && 8 * Size(a) == 160
            case Sha224 => Name(a) == "sha-224" && 8 * Size(a) == 224
            case Sha256 => Name(a) == "sha-256" && 8 * Size(a) == 256
            case Sha384 => Name(a) == "sha-384" && 8 * Size(a) == 384
            case Sha512 => Name(a) == "sha-512" && 8 * Size(a) == 512
  {}

  /** Any fingerprint that starts with a letter is accepted in lower case too, and then printed differently. */
  lemma LowerCaseLost(a: Algorithm, value: seq<Byte>)
    requires |value| == Size(a) && value[0] >= 0xa0
    ensures |Print(value)| == 3 * Size(a) - 1
    ensures var s := Print(value)[0 := 'a' + (value[0] / 16 - 10) as char]; ParsesTo(s, value) && Print(value) != s
  {
    hide Print;
    var n := value[0] / 16;
    PrintedAt(value, 0);
    var s := Print(value)[0 := 'a' + (n - 10) as char];
    assert 10 <= n < 16 && Print(value)[0] == Hex(n) != s[0] && Digit(s[0]) == Some(n);
    ParsePrint(value, value);
    forall i | 0 <= i < |value| ensures ByteAt(s, i) == Some(value[i]) {
      PrintedAt(value, i);
      HexDigit(value[i] % 16);
      assert i > 0 ==> ByteAt(s, i) == ByteAt(Print(value), i);
    }
  }

  /** The digits themselves: sixteen are printed, and these and the six lower-case letters are read. */
  lemma PrintedDigits(value: seq<Byte>, i: nat)
    requires i < |value|
    ensures |Print(value)| == 3 * |value| - 1
    ensures Print(value)[3 * i] == "0123456789ABCDEF"[value[i] / 16]
    ensures Print(value)[3 * i + 1] == "0123456789ABCDEF"[value[i] % 16]
  {
    hide Print, Hex;
    PrintedAt(value, i);
    HexIs(value[i] / 16);
    HexIs(value[i] % 16);
  }

  lemma HexIs(n: nat)
    requires n < 16
    ensures Hex(n) == "0123456789ABCDEF"[n]
  {}

  lemma DigitIs(c: char, n: nat)
    requires n < 16
    ensures Digit(c) == Some(n) <==> c == "0123456789ABCDEF"[n] || c == "0123456789abcdef"[n]
  {}

  /** What a pair of characters is read as: two digits, or a plus sign and one. */
  lemma PairRead(input: string, i: nat, b: Byte)
    requires 3 * i + 1 < |input|
    ensures ByteAt(input, i) == Some(b) <==>
            && input[3 * i + 1] in ["0123456789ABCDEF"[b % 16], "0123456789abcdef"[b % 16]]
            && (input[3 * i] in ["0123456789ABCDEF"[b / 16], "0123456789abcdef"[b / 16]] ||
                (input[3 * i] == '+' && b < 16))
  {
    var c, d := input[3 * i], input[3 * i + 1];
    DigitIs(c, b / 16);
    DigitIs(d, b % 16);
    assert Digit('+') == None;
    hide Digit;
    if Digit(c).Some? && Digit(d).Some? {
      var n := Digit(c).value * 16 + Digit(d).value;
      assert n / 16 == Digit(c).value && n % 16 == Digit(d).value;
    }
  }
}
