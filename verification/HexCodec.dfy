/** The hex readers and writers of the TLS provisioning and device code. */
module HexCodec {
  import opened Common

  // ---------------------------------------------------------------- characters

  const CR: byte := 13
  const LF: byte := 10
  const DOT: byte := 46
  const SPACE: byte := 32

  predicate IsSeparator(c: byte) {
    c == CR || c == LF || c == DOT || c == SPACE
  }

  predicate IsHexDigit(c: byte) {
    48 <= c <= 57 || 97 <= c <= 102 || 65 <= c <= 70
  }

  /** Value of a digit in either case; 0 for anything else, as in the source. */
  function NibbleOf(c: byte): (v: nat)
    ensures v < 16
  {
    if 48 <= c <= 57 then c - 48
    else if 97 <= c <= 102 then c - 97 + 10
    else if 65 <= c <= 70 then c - 65 + 10
    else 0
  }

  /** Entry n of the table "0123456789ABCDEF". */
  function HexChar(n: nat): byte
    requires n < 16
  {
    if n < 10 then 48 + n else 65 + n - 10
  }

  function UpperCase(c: byte): byte {
    if 97 <= c <= 102 then c - 32 else c
  }

  // ------------------------------------------------------------- specification

  /** The upper-case hex text of b, the form both encoders write. */
  function Encode(b: seq<byte>): seq<byte> {
    seq(2 * |b|, k requires 0 <= k < 2 * |b| => HexChar(if k % 2 == 0 then b[k / 2] / 16 else b[k / 2] % 16))
  }

  /** s without its separators. */
  function Digits(s: seq<byte>): seq<byte> {
    if s == [] then []
    else
      var front := Digits(s[..|s| - 1]);
      if IsSeparator(s[|s| - 1]) then front else front + [s[|s| - 1]]
  }

  function Pairs(d: seq<byte>): seq<byte> {
    seq(|d| / 2, i requires 0 <= i < |d| / 2 => 16 * NibbleOf(d[2 * i]) + NibbleOf(d[2 * i + 1]))
  }

  predicate HexText(s: seq<byte>) {
    forall c :: c in s ==> IsSeparator(c) || IsHexDigit(c)
  }

  /** The bytes a text stands for, if it is hex text with an even number of digits. */
  function Decode(s: seq<byte>): Option<seq<byte>> {
    if HexText(s) && |Digits(s)| % 2 == 0 then Some(Pairs(Digits(s))) else None
  }

  /** What a decoder with room for outMax bytes stores; empty stands for its result 0. */
  ghost function Stored(s: seq<byte>, outMax: nat): seq<byte> {
    match Decode(s)
    case Some(b) => if |b| <= outMax then b else []
    case None => []
  }

  lemma {:induction false} DigitsSound(s: seq<byte>)
    ensures |Digits(s)| <= |s|
    ensures forall c :: c in Digits(s) <==> c in s && !IsSeparator(c)
  {
    if s != [] {
      DigitsSound(s[..|s| - 1]);
      assert s == s[..|s| - 1] + [s[|s| - 1]];
    }
  }

  lemma {:induction false} DigitsOfDigits(s: seq<byte>)
    requires forall c :: c in s ==> !IsSeparator(c)
    ensures Digits(s) == s
  {
    if s != [] {
      DigitsOfDigits(s[..|s| - 1]);
    }
  }

  /** How one more character changes the digits seen, and where it lands among all of them. */
  lemma {:induction false} DigitsStep(s: seq<byte>, i: nat)
    requires i < |s|
    ensures Digits(s[..i + 1]) == Digits(s[..i]) + if IsSeparator(s[i]) then [] else [s[i]]
    ensures Digits(s[..i]) <= Digits(s[..i + 1]) <= Digits(s)
  {
    assert s[..i + 1][..i] == s[..i];
    if i + 1 < |s| {
      assert s[..|s| - 1][..i] == s[..i] && s[..|s| - 1][..i + 1] == s[..i + 1];
      DigitsStep(s[..|s| - 1], i);
    } else {
      assert s[..i + 1] == s;
    }
  }

  lemma NibbleOfHexChar(c: byte, n: nat)
    requires IsHexDigit(c) && n < 16
    ensures UpperCase(c) == HexChar(n) <==> NibbleOf(c) == n
  {
  }

  /** The digits and what they are worth, and the characters skipped between them. */
  lemma Alphabet(c: byte, n: nat)
    requires n < 16
    ensures IsHexDigit(c) && NibbleOf(c) == n <==>
            c == "0123456789ABCDEF"[n] as int || c == "0123456789abcdef"[n] as int
    ensures HexChar(n) == "0123456789ABCDEF"[n] as int
    ensures IsSeparator(c) <==> c as char in "\r\n. "
  {
    assert "\r\n. "[0] as int == 13 && "\r\n. "[1] as int == 10 && "\r\n. "[2] as int == 46;
    assert "\r\n. "[3] as int == 32;
  }

  lemma EncodeAt(b: seq<byte>, i: nat)
    requires i < |b|
    ensures Encode(b)[2 * i] == HexChar(b[i] / 16)
    ensures Encode(b)[2 * i + 1] == HexChar(b[i] % 16)
  {
    assert 2 * i / 2 == i && (2 * i + 1) / 2 == i && 2 * i % 2 == 0 && (2 * i + 1) % 2 == 1;
  }

  /** Digits d spell byte i of b. */
  ghost predicate Spells(d: seq<byte>, b: seq<byte>, i: nat)
    requires |d| == 2 * |b| && i < |b|
  {
    UpperCase(d[2 * i]) == HexChar(b[i] / 16) && UpperCase(d[2 * i + 1]) == HexChar(b[i] % 16)
  }

  lemma PairIff(d: seq<byte>, b: seq<byte>, i: nat)
    requires |d| == 2 * |b| && i < |b|
    requires IsHexDigit(d[2 * i]) && IsHexDigit(d[2 * i + 1])
    ensures Pairs(d)[i] == b[i] <==> Spells(d, b, i)
  {
    NibbleOfHexChar(d[2 * i], b[i] / 16);
    NibbleOfHexChar(d[2 * i + 1], b[i] % 16);
  }

  lemma SpelledThroughout(d: seq<byte>, b: seq<byte>, k: nat)
    requires |d| == 2 * |b| && k < |d| && Spells(d, b, k / 2)
    ensures UpperCase(d[k]) == Encode(b)[k]
  {
    EncodeAt(b, k / 2);
    assert k == 2 * (k / 2) || k == 2 * (k / 2) + 1;
  }

  lemma PairsSpell(d: seq<byte>, b: seq<byte>)
    requires forall k :: 0 <= k < |d| ==> IsHexDigit(d[k])
    requires |d| == 2 * |b|
    ensures Pairs(d) == b <==> forall i :: 0 <= i < |b| ==> Spells(d, b, i)
  {
    forall i | 0 <= i < |b| ensures Pairs(d)[i] == b[i] <==> Spells(d, b, i) {
      PairIff(d, b, i);
    }
  }

  /** Pairing digits and writing hex are inverse, digit for digit. */
  lemma PairsIff(d: seq<byte>, b: seq<byte>)
    requires forall k :: 0 <= k < |d| ==> IsHexDigit(d[k])
    requires |d| == 2 * |b|
    ensures Pairs(d) == b <==> forall k :: 0 <= k < |d| ==> UpperCase(d[k]) == Encode(b)[k]
  {
    PairsSpell(d, b);
    if Pairs(d) == b {
      forall k | 0 <= k < |d| ensures UpperCase(d[k]) == Encode(b)[k] {
        SpelledThroughout(d, b, k);
      }
    } else {
      var i: nat :| i < |b| && !Spells(d, b, i);
      EncodeAt(b, i);
    }
  }

  /** A text decodes to b exactly when its digits, raised to upper case, are the hex text of b. */
  lemma DecodeIff(s: seq<byte>, b: seq<byte>)
    ensures Decode(s) == Some(b) <==>
            HexText(s) && |Digits(s)| == 2 * |b| &&
            forall k :: 0 <= k < |Digits(s)| ==> UpperCase(Digits(s)[k]) == Encode(b)[k]
  {
    DigitsSound(s);
    if HexText(s) && |Digits(s)| == 2 * |b| {
      PairsIff(Digits(s), b);
    }
  }

  /** Decoding the text an encoder writes gives the encoded bytes back. */
  lemma DecodeEncode(b: seq<byte>)
    ensures Decode(Encode(b)) == Some(b)
  {
    var e := Encode(b);
    assert forall k :: 0 <= k < |e| ==> IsHexDigit(e[k]) && !IsSeparator(e[k]) && UpperCase(e[k]) == e[k];
    DigitsOfDigits(e);
    DecodeIff(e, b);
  }

  // ---------------------------------------------------------------- the decoders

  /** The decoder's first pass. */
  method CountDigits(hex: seq<byte>) returns (valid: bool, validCount: nat)
    ensures valid <==> HexText(hex)
    ensures valid ==> validCount == |Digits(hex)|
  {
    validCount := 0;
    for i := 0 to |hex|
      invariant HexText(hex[..i])
      invariant validCount == |Digits(hex[..i])|
    {
      assert hex[..i + 1] == hex[..i] + [hex[i]] && hex[..i + 1][..i] == hex[..i];
      var c := hex[i];
      if IsSeparator(c) {
        continue;
      }
      if !IsHexDigit(c) {
        assert c in hex;
        return false, 0;
      }
      validCount := validCount + 1;
    }
    assert hex[..|hex|] == hex;
    valid := true;
  }

  /** The decoder's second pass: a nibble at a time, a byte stored on every second digit. */
  method FillNibbles(hex: seq<byte>, out: array<byte>) returns (outLen: nat)
    requires |Digits(hex)| % 2 == 0 && |Digits(hex)| / 2 <= out.Length
    modifies out
    ensures outLen == |Digits(hex)| / 2
    ensures out[..outLen] == Pairs(Digits(hex))
    ensures out[outLen..] == old(out[..])[outLen..]
  {
    ghost var d := Digits(hex);
    ghost var seen := 0;
    outLen := 0;
    var highNibble := true;
    var byteVal: byte := 0;
    for i := 0 to |hex|
      invariant seen == 2 * outLen + (if highNibble then 0 else 1) <= |d|
      invariant Digits(hex[..i]) == d[..seen]
      invariant !highNibble ==> byteVal == 16 * NibbleOf(d[2 * outLen])
      invariant forall j :: 0 <= j < outLen ==> out[j] == Pairs(d)[j]
      invariant out[outLen..] == old(out[..])[outLen..]
    {
      DigitsStep(hex, i);
      var c := hex[i];
      if IsSeparator(c) {
        continue;
      }
      assert d[seen] == c;
      seen := seen + 1;
      var val := NibbleOf(c);
      if highNibble {
        byteVal := 16 * val % 256;
        highNibble := false;
      } else {
        // The low four bits of byteVal are clear, so the bitwise or is a sum.
        byteVal := byteVal + val;
        out[outLen] := byteVal;
        outLen := outLen + 1;
        highNibble := true;
      }
    }
    assert hex[..|hex|] == hex;
    assert out[..outLen] == Pairs(d);
  }

  /** Counts the digits, then fills out nibble by nibble; 0 on any malformed input. */
  method ConvertHexToBin(hex: seq<byte>, out: array?<byte>, outMax: nat) returns (outLen: nat)
    requires out != null ==> outMax <= out.Length
    modifies if out == null then {} else {out}
    ensures outLen == if out == null then 0 else |Stored(hex, outMax)|
    ensures outLen <= outMax
    ensures out != null ==> out[..] == Stored(hex, outMax) + old(out[..])[outLen..]
    ensures out != null && Decode(hex).Some? && |Decode(hex).value| <= outMax ==> out[..outLen] == Decode(hex).value
    ensures Decode(hex).None? || |Decode(hex).value| > outMax ==> outLen == 0
  {
    if out == null || outMax == 0 {
      return 0;
    }

    var valid, validCount := CountDigits(hex);
    if !valid {
      return 0;
    }
    if validCount % 2 != 0 || validCount / 2 > outMax {
      return 0;
    }

    outLen := FillNibbles(hex, out);
  }

  /** The library's strtol on a two-character string in base 16, cut to a byte. */
  function StrtolByte(c0: byte, c1: byte): byte {
    if 9 <= c0 <= 13 || c0 == SPACE || c0 == 43 then NibbleOf(c1)     // white space or '+'
    else if c0 == 45 then (256 - NibbleOf(c1)) % 256                  // '-'
    else if !IsHexDigit(c0) then 0
    else if IsHexDigit(c1) then 16 * NibbleOf(c0) + NibbleOf(c1)
    else NibbleOf(c0)                                                 // "0x" gives 0 as well
  }

  /** The library's strtol in base 16 on any text: white space, a sign, a prefix, then all the digits there are. */
  ghost function Strtol(s: seq<byte>): int {
    if s == [] then 0
    else if 9 <= s[0] <= 13 || s[0] == 32 then Strtol(s[1..])
    else if s[0] as char == '-' then 0 - Magnitude(s[1..])
    else if s[0] as char == '+' then Magnitude(s[1..])
    else Magnitude(s)
  }

  ghost function Magnitude(s: seq<byte>): nat {
    if |s| > 2 && s[0] as char == '0' && s[1] as char in "xX" && IsHexDigit(s[2]) then LeadingDigits(s[2..], 0)
    else LeadingDigits(s, 0)
  }

  ghost function LeadingDigits(s: seq<byte>, sofar: nat): nat {
    if s == [] || !IsHexDigit(s[0]) then sofar else LeadingDigits(s[1..], 16 * sofar + NibbleOf(s[0]))
  }

  /** On the two characters the decoder copies out, that is StrtolByte. */
  lemma StrtolByteIs(c0: byte, c1: byte)
    ensures StrtolByte(c0, c1) == Strtol([c0, c1]) % 256
  {
    var s := [c0, c1];
    assert s[1..] == [c1] && [c1][1..] == [];
    assert forall n: nat :: LeadingDigits([c1], n) == if IsHexDigit(c1) then 16 * n + NibbleOf(c1) else n;
    assert Magnitude([c1]) == NibbleOf(c1) && Strtol([]) == 0;
    assert Magnitude(s) == LeadingDigits(s, 0) == if IsHexDigit(c0) then LeadingDigits([c1], NibbleOf(c0)) else 0;
  }

  /** What hex_decode stores. */
  function StrictStored(hex: seq<byte>, outMax: nat): seq<byte> {
    if |hex| % 2 != 0 || |hex| / 2 > outMax then []
    else seq(|hex| / 2, i requires 0 <= i < |hex| / 2 => StrtolByte(hex[2 * i], hex[2 * i + 1]))
  }

  /** The device's own decoder for certificates given at compile time. */
  method HexDecode(hex: seq<byte>, out: array<byte>, outMax: nat) returns (binLen: nat)
    requires outMax <= out.Length
    modifies out
    ensures binLen == |StrictStored(hex, outMax)|
    ensures out[..] == StrictStored(hex, outMax) + old(out[..])[binLen..]
    ensures binLen == if |hex| % 2 == 0 && |hex| / 2 <= outMax then |hex| / 2 else 0
    ensures forall i :: 0 <= i < binLen ==> out[i] == Strtol([hex[2 * i], hex[2 * i + 1]]) % 256
  {
    ghost var stored, rest := StrictStored(hex, outMax), out[..];
    binLen := |hex| / 2;
    if |hex| % 2 != 0 || binLen > outMax {
      return 0;
    }
    for i := 0 to binLen
      invariant forall j :: 0 <= j < i ==> out[j] == stored[j]
      invariant forall j :: i <= j < out.Length ==> out[j] == rest[j]
      invariant forall j :: 0 <= j < i ==> out[j] == Strtol([hex[2 * j], hex[2 * j + 1]]) % 256
    {
      StrtolByteIs(hex[2 * i], hex[2 * i + 1]);
      out[i] := StrtolByte(hex[2 * i], hex[2 * i + 1]);
    }
    assert forall j :: 0 <= j < binLen ==> out[..][j] == (stored + rest[binLen..])[j];
    assert forall j :: binLen <= j < out.Length ==> out[..][j] == (stored + rest[binLen..])[j];
  }

  /** On digits alone the two decoders agree on every length and every capacity, failures included. */
  lemma DecodersAgree(hex: seq<byte>, outMax: nat)
    requires forall c :: c in hex ==> IsHexDigit(c)
    ensures Stored(hex, outMax) == StrictStored(hex, outMax)
  {
    DigitsOfDigits(hex);
    if |hex| % 2 == 0 && |hex| / 2 <= outMax {
      PairsByStrtol(hex, outMax);
    }
  }

  lemma PairsByStrtol(hex: seq<byte>, outMax: nat)
    requires forall k :: 0 <= k < |hex| ==> IsHexDigit(hex[k])
    requires |hex| % 2 == 0 && |hex| / 2 <= outMax
    ensures StrictStored(hex, outMax) == Pairs(hex)
  {
    forall i | 0 <= i < |hex| / 2
      ensures StrictStored(hex, outMax)[i] == Pairs(hex)[i]
    {
      PairByStrtol(hex, outMax, i);
    }
  }

  lemma PairByStrtol(hex: seq<byte>, outMax: nat, i: nat)
    requires |hex| % 2 == 0 && i < |hex| / 2 <= outMax
    requires IsHexDigit(hex[2 * i]) && IsHexDigit(hex[2 * i + 1])
    ensures StrictStored(hex, outMax)[i] == Pairs(hex)[i]
  {
    var a, b := hex[2 * i], hex[2 * i + 1];
    var v, w := StrictStored(hex, outMax)[i], Pairs(hex)[i];
    assert v == StrtolByte(a, b) && w == 16 * NibbleOf(a) + NibbleOf(b);
    SameValue(a, b, v, w);
  }

  lemma SameValue(a: byte, b: byte, v: byte, w: byte)
    requires IsHexDigit(a) && IsHexDigit(b) && v == StrtolByte(a, b) && w == 16 * NibbleOf(a) + NibbleOf(b)
    ensures v == w
  {
  }

  /** Text with an even number of digits, at least two, that decodes to no more than outMax bytes. */
  ghost predicate Yields(s: seq<byte>, outMax: nat) {
    HexText(s) && |Digits(s)| % 2 == 0 && 0 < |Digits(s)| <= 2 * outMax
  }

  /** On every text and every capacity: where the strict decoder stores anything they agree only on digits
      alone; where it refuses the length, only on text from which the other one stores nothing either. */
  lemma DecodersAgreeIff(hex: seq<byte>, outMax: nat)
    ensures Stored(hex, outMax) == StrictStored(hex, outMax) <==>
            if |hex| % 2 == 0 && |hex| / 2 <= outMax then forall c :: c in hex ==> IsHexDigit(c)
            else !Yields(hex, outMax)
  {
    if |hex| % 2 == 0 && |hex| / 2 <= outMax {
      if forall c :: c in hex ==> IsHexDigit(c) {
        DecodersAgree(hex, outMax);
      } else if Stored(hex, outMax) == StrictStored(hex, outMax) {
        DigitsSound(hex);
        var i :| 0 <= i < |hex| && IsSeparator(hex[i]);
        DigitsShorter(hex, i);
      }
    }
  }

  lemma {:induction false} DigitsShorter(s: seq<byte>, i: nat)
    requires i < |s| && IsSeparator(s[i])
    ensures |Digits(s)| < |s|
  {
    DigitsSound(s[..|s| - 1]);
    if i + 1 < |s| {
      DigitsShorter(s[..|s| - 1], i);
    }
  }

  // -------------------------------------------------------------- the classifier

  /** "-----BEGIN" */
  const PEM_MARKER: seq<byte> := [45, 45, 45, 45, 45, 66, 69, 71, 73, 78]
  const DER_SEQUENCE: byte := 0x30

  ghost predicate IsHexData(data: seq<byte>) {
    && |data| >= 2 && data[0] != DER_SEQUENCE
    && Decode(data).Some? && Decode(data).value != []
  }

  ghost predicate HasPemMarker(data: seq<byte>) {
    |data| >= 16 && exists i :: MarkerAt(data, i)
  }

  ghost predicate MarkerAt(data: seq<byte>, i: int) {
    0 <= i <= |data| - 10 && data[i..i + 10] == PEM_MARKER
  }

  /** Tells hex text from DER and PEM. What it accepts always decodes to at least one byte. */
  method IsHexString(data: seq<byte>) returns (yes: bool)
    ensures yes <==> IsHexData(data)
  {
    if |data| < 2 {
      return false;
    }
    if data[0] == DER_SEQUENCE {
      return false;
    }
    if |data| >= 5 && data[..5] == PEM_MARKER[..5] {
      assert data[0] == data[..5][0] && data[0] in data;
      return false;
    }
    var hexCharCount := 0;
    for i := 0 to |data|
      invariant HexText(data[..i])
      invariant hexCharCount == |Digits(data[..i])|
    {
      assert data[..i + 1] == data[..i] + [data[i]] && data[..i + 1][..i] == data[..i];
      var c := data[i];
      if IsSeparator(c) {
        continue;
      }
      if IsHexDigit(c) {
        hexCharCount := hexCharCount + 1;
      } else {
        assert c in data;
        return false;
      }
    }
    assert data[..|data|] == data;
    return hexCharCount >= 2 && hexCharCount % 2 == 0;
  }

  /** text stands in data at i. */
  ghost predicate TextAt(data: seq<byte>, i: int, text: string) {
    0 <= i <= |data| - |text| && forall k :: 0 <= k < |text| ==> data[i + k] == text[k] as int
  }

  lemma PemMarkerIs(data: seq<byte>)
    ensures HasPemMarker(data) <==> |data| >= 16 && exists i :: TextAt(data, i, "-----BEGIN")
  {
    forall i ensures MarkerAt(data, i) <==> TextAt(data, i, "-----BEGIN") {
      MarkerSpelt(data, i);
    }
  }

  lemma MarkerSpelt(data: seq<byte>, i: int)
    ensures MarkerAt(data, i) <==> TextAt(data, i, "-----BEGIN")
  {
    var text := "-----BEGIN";
    assert forall k :: 0 <= k < 10 ==> PEM_MARKER[k] == text[k] as int;
    if MarkerAt(data, i) {
      forall k | 0 <= k < 10 ensures data[i + k] == text[k] as int {
        assert data[i..i + 10][k] == PEM_MARKER[k];
      }
    }
    if TextAt(data, i, text) {
      assert forall k :: 0 <= k < 10 ==> data[i..i + 10][k] == PEM_MARKER[k];
    }
  }

  /** Text with the marker is never taken for hex. */
  lemma PemIsNotHex(data: seq<byte>)
    requires HasPemMarker(data)
    ensures !IsHexData(data)
  {
    var i :| MarkerAt(data, i);
    assert data[i] == data[i..i + 10][0] && data[i] in data;
  }

  method LooksLikePem(data: seq<byte>) returns (yes: bool)
    ensures yes <==> HasPemMarker(data)
    ensures yes <==> |data| >= 16 && exists i :: TextAt(data, i, "-----BEGIN")
  {
    PemMarkerIs(data);
    if |data| < 16 {
      return false;
    }
    var i := 0;
    while i + 10 <= |data|
      invariant 0 <= i <= |data| - 9
      invariant forall j :: 0 <= j < i ==> !MarkerAt(data, j)
    {
      if data[i..i + 10] == PEM_MARKER {
        assert MarkerAt(data, i);
        return true;
      }
      i := i + 1;
    }
    return false;
  }

  /** Accepted text fits the buffer the caller sizes for it, so the decoder's 0 result never occurs there. */
  lemma HexDataDecodes(data: seq<byte>)
    requires IsHexData(data)
    ensures Stored(data, |data| / 2 + 1) == Decode(data).value != []
  {
    DigitsSound(data);
  }

  /** Text that decodes to something is recognised unless its first character is the digit '0',
      whose code is the DER tag of a SEQUENCE. */
  lemma HexRecognisedIff(text: seq<byte>)
    requires Decode(text).Some? && Decode(text).value != []
    ensures IsHexData(text) <==> text[0] != DER_SEQUENCE
  {
    DigitsSound(text);
  }

  // ---------------------------------------------------------------- the encoder

  /** Writes the hex text of data, closed by a zero byte. */
  method EncodeToText(data: seq<byte>) returns (text: array<byte>)
    ensures fresh(text) && text.Length == 2 * |data| + 1
    ensures text[..2 * |data|] == Encode(data) && text[2 * |data|] == 0
  {
    text := new byte[2 * |data| + 1];
    for i := 0 to |data|
      invariant forall k :: 0 <= k < 2 * i ==> text[k] == Encode(data)[k]
    {
      EncodeAt(data, i);
      text[2 * i] := HexChar(data[i] / 16);
      text[2 * i + 1] := HexChar(data[i] % 16);
    }
    text[2 * |data|] := 0;
  }
}
