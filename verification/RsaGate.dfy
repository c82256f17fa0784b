/** The search for an RSA modulus in a DER certificate, and the size gate built on it. */
module RsaGate {
  import opened Common

  // -------------------------------------------------------- numbers as octets

  /** The value of the octets s[lo..hi], most significant first. */
  function BigEndian(s: seq<byte>, lo: nat, hi: nat): nat
    requires lo <= hi <= |s|
  {
    if lo == hi then 0 else BigEndian(s, lo, hi - 1) * 256 + s[hi - 1]
  }

  function Pow2(k: nat): (p: nat)
    ensures p > 0
  {
    if k == 0 then 1 else 2 * Pow2(k - 1)
  }

  lemma Pow2Eight(k: nat)
    ensures Pow2(k + 8) == 256 * Pow2(k)
  {
    assert Pow2(k + 8) == 2 * Pow2(k + 7) == 4 * Pow2(k + 6) == 8 * Pow2(k + 5) == 16 * Pow2(k + 4);
    assert Pow2(k + 4) == 2 * Pow2(k + 3) == 4 * Pow2(k + 2) == 8 * Pow2(k + 1) == 16 * Pow2(k);
  }

  lemma {:induction false} Pow2Monotone(j: nat, k: nat)
    requires j <= k
    ensures Pow2(j) <= Pow2(k)
    decreases k - j
  {
    if j < k {
      Pow2Monotone(j + 1, k);
    }
  }

  lemma {:induction false} BigEndianBelow(s: seq<byte>, lo: nat, hi: nat)
    requires lo <= hi <= |s|
    ensures BigEndian(s, lo, hi) < Pow2(8 * (hi - lo))
    decreases hi
  {
    if lo < hi {
      BigEndianBelow(s, lo, hi - 1);
      Pow2Eight(8 * (hi - 1 - lo));
    }
  }

  lemma {:induction false} BigEndianAtLeast(s: seq<byte>, lo: nat, hi: nat)
    requires lo < hi <= |s| && s[lo] != 0
    ensures BigEndian(s, lo, hi) >= Pow2(8 * (hi - lo - 1))
    decreases hi
  {
    if lo + 1 < hi {
      BigEndianAtLeast(s, lo, hi - 1);
      Pow2Eight(8 * (hi - lo - 2));
    }
  }

  /** Without leading zeros, a number has more than k octets exactly when it reaches 2 to the 8k. */
  lemma OctetsExceedIff(s: seq<byte>, lo: nat, hi: nat, k: nat)
    requires lo <= hi <= |s| && (lo < hi ==> s[lo] != 0)
    ensures hi - lo > k <==> BigEndian(s, lo, hi) >= Pow2(8 * k)
  {
    if hi - lo > k {
      BigEndianAtLeast(s, lo, hi);
      Pow2Monotone(8 * k, 8 * (hi - lo - 1));
    } else {
      BigEndianBelow(s, lo, hi);
      Pow2Monotone(8 * (hi - lo), 8 * k);
    }
  }

  lemma {:induction false} LeadingZero(s: seq<byte>, hi: nat)
    requires 0 < hi <= |s| && s[0] == 0
    ensures BigEndian(s, 0, hi) == BigEndian(s, 1, hi)
  {
    if hi > 1 {
      LeadingZero(s, hi - 1);
    }
  }

  /** A number reads the same wherever its octets stand. */
  lemma {:induction false} BigEndianElsewhere(s: seq<byte>, lo: nat, hi: nat, t: seq<byte>, at: nat)
    requires lo <= hi <= |s| && at + hi - lo <= |t|
    requires forall i :: lo <= i < hi ==> s[i] == t[at + i - lo]
    ensures BigEndian(s, lo, hi) == BigEndian(t, at, at + hi - lo)
    decreases hi
  {
    if lo < hi {
      BigEndianElsewhere(s, lo, hi - 1, t, at);
    }
  }

  // -------------------------------------------------------------- DER lengths

  /** Octets of a size_t on the target. */
  const SIZE_T: nat := 4
  const SIZE_RANGE: nat := 0x1_0000_0000

  /** A length and the position after it. */
  datatype Length = Length(value: nat, next: nat)

  /** The length at p, as section 8.1.3 of X.690 lays it out; None when the
      octets stop short, are indefinite, or exceed a size_t. */
  ghost function DerLen(s: seq<byte>, p: nat): Option<Length> {
    if p >= |s| then None
    else if s[p] < 128 then Some(Length(s[p], p + 1))
    else
      var n := s[p] - 128;
      if n == 0 || n > SIZE_T || p + 1 + n > |s| then None
      else Some(Length(BigEndian(s, p + 1, p + 1 + n), p + 1 + n))
  }

  /** l is a definite length of n as section 8.1.3 of X.690 allows it: the short form, or the long form
      with up to 126 subsequent octets, leading zeros included. */
  ghost predicate IsLength(l: seq<byte>, n: nat) {
    || (|l| == 1 && l[0] == n < 128)
    || (2 <= |l| <= 127 && l[0] == 128 + |l| - 1 && BigEndian(l, 1, |l|) == n)
  }

  /** l has no more subsequent octets than a size_t. */
  predicate Readable(l: seq<byte>) {
    |l| <= 5
  }

  lemma Pow2Size()
    ensures Pow2(8) == 0x100 && Pow2(16) == 0x1_0000 && Pow2(24) == 0x100_0000 && Pow2(32) == SIZE_RANGE
  {
    Pow2Eight(0);
    Pow2Eight(8);
    Pow2Eight(16);
    Pow2Eight(24);
  }

  /** Reads the length at p and moves p past it. */
  method ReadDerLen(s: seq<byte>, p: nat) returns (ok: bool, next: nat, value: nat)
    ensures ok <==> DerLen(s, p).Some?
    ensures ok ==> DerLen(s, p) == Some(Length(value, next))
  {
    next, value := p, 0;
    if p >= |s| {
      return false, next, value;
    }
    var b := s[p];
    next := p + 1;
    if b < 128 {
      return true, next, b;
    }
    var nbytes := b - 128;
    if nbytes == 0 || nbytes > SIZE_T || next + nbytes > |s| {
      return false, next, value;
    }
    for i := 0 to nbytes
      invariant next == p + 1 + i
      invariant value == BigEndian(s, p + 1, p + 1 + i)
    {
      NoWrap(s, p + 1, p + 2 + i);
      value := (value * 256 + s[next]) % SIZE_RANGE;
      next := next + 1;
    }
    ok := true;
  }

  lemma NoWrap(s: seq<byte>, lo: nat, hi: nat)
    requires lo <= hi <= |s| && hi - lo <= SIZE_T
    ensures BigEndian(s, lo, hi) < SIZE_RANGE
  {
    BigEndianBelow(s, lo, hi);
    Pow2Size();
    Pow2Monotone(8 * (hi - lo), 8 * SIZE_T);
  }

  // -------------------------------------------------------- the modulus search

  /** The object identifier rsaEncryption with its tag and length. */
  const OID_RSA: seq<byte> := [0x06, 0x09, 0x2A, 0x86, 0x48, 0x86, 0xF7, 0x0D, 0x01, 0x01, 0x01]

  /** Arc n of an object identifier (section 8.19.2 of X.690): seven bits an octet, all but the last marked. */
  function Arc(n: nat): seq<byte> {
    if n < 128 then [n] else Marked(n / 128) + [n % 128]
  }

  function Marked(n: nat): seq<byte> {
    if n < 128 then [128 + n] else Marked(n / 128) + [128 + n % 128]
  }

  /** It is the identifier 1.2.840.113549.1.1.1, nine octets behind the tag 6. */
  lemma OidIsRsaEncryption()
    ensures OID_RSA == [6, 9] + (Arc(40 * 1 + 2) + (Arc(840) + (Arc(113549) + (Arc(1) + (Arc(1) + Arc(1))))))
  {
    assert Arc(840) == [0x86, 0x48] && Arc(1) == [1] && Arc(42) == [42];
    assert Marked(113549 / 128) == [0x86, 0xF7] by {
      assert 113549 / 128 == 887 && 887 / 128 == 6 && 887 % 128 == 0x77;
    }
    assert 113549 % 128 == 0x0D;
    assert Arc(113549) == [0x86, 0xF7, 0x0D];
  }

  /** NotRsa is the parser's false. PastEnd is its unguarded look at the octet after a modulus
      length that ends the data. */
  datatype Modulus = NotRsa | Bits(bits: nat) | PastEnd(octets: nat)

  predicate OidAt(s: seq<byte>, i: int) {
    0 <= i <= |s| - 11 && s[i..i + 11] == OID_RSA
  }

  /** The place of the first identifier at or after p. */
  ghost function FirstOid(s: seq<byte>, p: nat): (r: Option<nat>)
    ensures r.None? ==> forall i :: p <= i ==> !OidAt(s, i)
    ensures r.Some? ==> p <= r.value && OidAt(s, r.value) && forall i :: p <= i < r.value ==> !OidAt(s, i)
    decreases |s| - p
  {
    if p + 11 > |s| then None
    else if OidAt(s, p) then Some(p)
    else FirstOid(s, p + 1)
  }

  /** The first octet b at or after p, or the end of s. */
  ghost function NextOctet(s: seq<byte>, p: nat, b: byte): (i: nat)
    requires p <= |s|
    ensures p <= i <= |s|
    ensures forall j :: p <= j < i ==> s[j] != b
    ensures i < |s| ==> s[i] == b
    decreases |s| - p
  {
    if p == |s| || s[p] == b then p else NextOctet(s, p + 1, b)
  }

  ghost function Tagged(s: seq<byte>, p: nat, tag: byte): Option<Length> {
    if p < |s| && s[p] == tag then DerLen(s, p + 1) else None
  }

  /** Where the search for the BIT STRING tag stops: behind the identifier and NULL parameters. */
  ghost function KeyStart(s: seq<byte>): Option<nat> {
    match FirstOid(s, 0)
    case None => None
    case Some(oid) =>
      var p := oid + 11;
      var q := if p + 2 <= |s| && s[p] == 0x05 && s[p + 1] == 0x00 then p + 2 else p;
      Some(NextOctet(s, q, 0x03))
  }

  /** From the BIT STRING at p: the declared length of the modulus and where its content starts. */
  ghost function ModulusFrom(s: seq<byte>, p: nat): Option<Length> {
    match Tagged(s, p, 0x03)
    case None => None
    case Some(Length(_, unused)) =>
      if unused >= |s| then None
      else
        match Tagged(s, unused + 1, 0x30)
        case None => None
        case Some(Length(_, body)) => Tagged(s, body, 0x02)
  }

  ghost function ModulusAt(s: seq<byte>): Option<Length> {
    match KeyStart(s)
    case None => None
    case Some(p) => ModulusFrom(s, p)
  }

  ghost function RsaModulus(s: seq<byte>): Modulus {
    match ModulusAt(s)
    case None => NotRsa
    case Some(Length(mlen, at)) =>
      if mlen == 0 then Bits(0)
      else if at >= |s| then PastEnd(mlen)
      else Bits((if s[at] == 0 then mlen - 1 else mlen) * 8 % SIZE_RANGE)
  }

  /** The library's memchr from p on. */
  method MemChr(s: seq<byte>, p: nat, b: byte) returns (i: nat)
    requires p <= |s|
    ensures i == NextOctet(s, p, b)
  {
    i := p;
    while i < |s| && s[i] != b
      invariant i <= |s| && NextOctet(s, p, b) == NextOctet(s, i, b)
    {
      i := i + 1;
    }
  }

  /** The scan for the identifier: jump to the next possible first octet, compare, step on. */
  method FindOid(der: seq<byte>) returns (found: bool, p: nat)
    ensures FirstOid(der, 0) == if found then Some(p) else None
  {
    p := 0;
    while p < |der|
      invariant p <= |der| && FirstOid(der, 0) == FirstOid(der, p)
    {
      var hit := MemChr(der, p, OID_RSA[0]);
      SkipToOctet(der, p, hit);
      if hit == |der| {
        return false, p;
      }
      p := hit;
      FirstOidStep(der, p);
      if |der| - p < |OID_RSA| {
        return false, p;
      }
      if der[p..p + |OID_RSA|] != OID_RSA {
        p := p + 1;
        continue;
      }
      return true, p;
    }
    return false, p;
  }

  /** Too short a rest holds no identifier; a comparison that fails moves the search on by one. */
  lemma FirstOidStep(s: seq<byte>, p: nat)
    requires p < |s|
    ensures |s| - p < |OID_RSA| ==> FirstOid(s, p) == None
    ensures FirstOid(s, p) == if OidAt(s, p) then Some(p) else FirstOid(s, p + 1)
    decreases |s| - p
  {
    if |s| - p < |OID_RSA| && p + 1 < |s| {
      FirstOidStep(s, p + 1);
    }
  }

  lemma OidHead(s: seq<byte>, i: nat)
    requires OidAt(s, i)
    ensures s[i] == OID_RSA[0]
  {
    assert s[i] == s[i..i + 11][0];
  }

  lemma {:induction false} SkipToOctet(s: seq<byte>, p: nat, q: nat)
    requires p <= q <= |s|
    requires forall j :: p <= j < q ==> s[j] != OID_RSA[0]
    ensures FirstOid(s, p) == FirstOid(s, q)
    decreases q - p
  {
    if p < q {
      if OidAt(s, p) {
        OidHead(s, p);
      }
      SkipToOctet(s, p + 1, q);
    }
  }

  /** Expects tag at p and reads the length behind it. */
  method ReadTagged(s: seq<byte>, p: nat, tag: byte) returns (ok: bool, next: nat, value: nat)
    ensures ok <==> Tagged(s, p, tag).Some?
    ensures ok ==> Tagged(s, p, tag) == Some(Length(value, next))
  {
    if p >= |s| || s[p] != tag {
      return false, p, 0;
    }
    ok, next, value := ReadDerLen(s, p + 1);
  }

  method FindKeyBits(der: seq<byte>) returns (found: bool, p: nat)
    ensures KeyStart(der) == if found then Some(p) else None
  {
    found, p := FindOid(der);
    if !found {
      return;
    }
    p := p + |OID_RSA|;
    if |der| - p >= 2 && der[p] == 0x05 && der[p + 1] == 0x00 {
      p := p + 2;
    }
    p := MemChr(der, p, 0x03);
  }

  method ReadModulusLength(der: seq<byte>, start: nat) returns (ok: bool, p: nat, mlen: nat)
    ensures ModulusFrom(der, start) == if ok then Some(Length(mlen, p)) else None
  {
    var bitLen, seqLen;
    mlen := 0;
    ok, p, bitLen := ReadTagged(der, start, 0x03);
    if !ok || p >= |der| {
      return false, p, 0;
    }
    ok, p, seqLen := ReadTagged(der, p + 1, 0x30);
    if !ok {
      return;
    }
    ok, p, mlen := ReadTagged(der, p, 0x02);
  }

  /** The gate's parser. */
  method ParseRsaModulusBits(der: seq<byte>) returns (r: Modulus)
    ensures r == RsaModulus(der)
  {
    var found, p := FindKeyBits(der);
    if !found {
      return NotRsa;
    }
    var ok, mlen;
    ok, p, mlen := ReadModulusLength(der, p);
    if !ok {
      return NotRsa;
    }
    if mlen > 0 {
      if p >= |der| {
        return PastEnd(mlen);
      }
      if der[p] == 0x00 {
        mlen := mlen - 1;
      }
    }
    return Bits(mlen * 8 % SIZE_RANGE);
  }

  // --------------------------------------------------- well-formed RSA keys

  /** The content of the INTEGER n > 0 or 0: no more octets than needed, and a clear top bit. */
  ghost predicate IsInteger(c: seq<byte>, n: nat) {
    && c != [] && c[0] < 128
    && (|c| > 1 && c[0] == 0 ==> c[1] >= 128)
    && BigEndian(c, 0, |c|) == n
  }

  /** A SubjectPublicKeyInfo from its identifier on (section 2.3.1 of RFC 3279): parameters, NULL in a key
      that follows it and here any octets but the tag of a BIT STRING, then that BIT STRING, whatever it says
      about unused bits, around the RSAPublicKey. exponent stands for the whole INTEGER behind the modulus. */
  datatype KeyInfo = KeyInfo(params: seq<byte>, unusedBits: byte, bitsLen: seq<byte>, keyLen: seq<byte>,
                             modulusLen: seq<byte>, modulus: seq<byte>, exponent: seq<byte>)
  {
    ghost function Numbers(): seq<byte> {
      [0x02] + (modulusLen + (modulus + exponent))
    }

    ghost function Sequence(): seq<byte> {
      [0x30] + (keyLen + Numbers())
    }

    ghost function Key(): seq<byte> {
      [unusedBits] + Sequence()
    }

    ghost function Bits(): seq<byte> {
      [0x03] + (bitsLen + Key())
    }

    /** Every declared length is right; the modulus stays below 2 to the 29 octets so that no size_t
        wraps, where callers cap their input at 4096. */
    ghost predicate LengthsRight() {
      && IsLength(bitsLen, |Key()|)
      && IsLength(keyLen, |Numbers()|)
      && IsLength(modulusLen, |modulus|) && 0 < |modulus| < SIZE_RANGE / 8
    }

    /** No declared length has more subsequent octets than a size_t. */
    ghost predicate LengthsReadable() {
      Readable(bitsLen) && Readable(keyLen) && Readable(modulusLen)
    }
  }

  /** t stands in s at p. */
  ghost predicate Holds(s: seq<byte>, p: nat, t: seq<byte>) {
    p + |t| <= |s| && forall i :: 0 <= i < |t| ==> s[p + i] == t[i]
  }

  lemma HoldsParts(s: seq<byte>, p: nat, a: seq<byte>, b: seq<byte>)
    requires Holds(s, p, a + b)
    ensures Holds(s, p, a) && Holds(s, p + |a|, b)
  {
    forall i | 0 <= i < |a| ensures s[p + i] == a[i] {
      assert (a + b)[i] == a[i];
    }
    forall i | 0 <= i < |b| ensures s[p + |a| + i] == b[i] {
      assert (a + b)[|a| + i] == b[i];
    }
  }

  /** s holds a key: anything may stand before it and after it, as long as its identifier is the first. */
  ghost predicate KeyAt(s: seq<byte>, oid: nat, k: KeyInfo) {
    && OidAt(s, oid)
    && (forall i :: 0 <= i < oid ==> !OidAt(s, i))
    && 0x03 !in k.params && Holds(s, oid + 11, k.params + k.Bits())
  }

  /** A definite length is read as the number it stands for exactly when its subsequent octets are no
      more than a size_t has; any other fails, however small the number. */
  lemma LengthAt(s: seq<byte>, p: nat, l: seq<byte>, n: nat)
    requires Holds(s, p, l) && IsLength(l, n)
    ensures DerLen(s, p) == if Readable(l) then Some(Length(n, p + |l|)) else None
  {
    assert s[p + 0] == l[0];
    if 1 < |l| <= 1 + SIZE_T {
      BigEndianElsewhere(l, 1, |l|, s, p + 1);
    }
  }

  /** And on any octets: what is read is a definite length with no more than four subsequent octets, and every
      such length is read. */
  lemma LengthIff(s: seq<byte>, p: nat, q: nat, n: nat)
    requires p <= q <= |s|
    ensures DerLen(s, p) == Some(Length(n, q)) <==> IsLength(s[p..q], n) && Readable(s[p..q])
  {
    var l := s[p..q];
    if IsLength(l, n) {
      LengthAt(s, p, l, n);
    }
    if DerLen(s, p) == Some(Length(n, q)) && |l| > 1 {
      BigEndianElsewhere(l, 1, |l|, s, p + 1);
    }
  }

  /** Reading an element steps to its content, if its length can be read. */
  lemma TaggedAt(s: seq<byte>, p: nat, tag: byte, l: seq<byte>, n: nat, content: seq<byte>)
    requires Holds(s, p, [tag] + (l + content)) && IsLength(l, n)
    ensures Holds(s, p + 1 + |l|, content)
    ensures Tagged(s, p, tag) == if Readable(l) then Some(Length(n, p + 1 + |l|)) else None
  {
    HoldsParts(s, p, [tag], l + content);
    HoldsParts(s, p + 1, l, content);
    assert s[p + 0] == [tag][0];
    LengthAt(s, p + 1, l, n);
  }

  lemma FirstOidIs(s: seq<byte>, oid: nat)
    requires OidAt(s, oid) && forall i :: 0 <= i < oid ==> !OidAt(s, i)
    ensures FirstOid(s, 0) == Some(oid)
  {
  }

  lemma KeyStartFound(s: seq<byte>, oid: nat, k: KeyInfo) returns (p: nat)
    requires KeyAt(s, oid, k)
    ensures KeyStart(s) == Some(p) && Holds(s, p, k.Bits())
  {
    FirstOidIs(s, oid);
    HoldsParts(s, oid + 11, k.params, k.Bits());
    p := oid + 11 + |k.params|;
    assert s[p + 0] == k.Bits()[0] == 0x03;
    forall j | oid + 11 <= j < p ensures s[j] != 0x03 {
      var i := j - (oid + 11);
      assert s[oid + 11 + i] == k.params[i];
    }
  }

  lemma EnterSequence(s: seq<byte>, p: nat, k: KeyInfo) returns (body: nat, at: nat)
    requires k.LengthsRight() && Holds(s, p, k.Sequence())
    ensures Tagged(s, p, 0x30) == if Readable(k.keyLen) then Some(Length(|k.Numbers()|, body)) else None
    ensures Tagged(s, body, 0x02) == if Readable(k.modulusLen) then Some(Length(|k.modulus|, at)) else None
    ensures at < |s| && s[at] == k.modulus[0]
  {
    TaggedAt(s, p, 0x30, k.keyLen, |k.Numbers()|, k.Numbers());
    body := p + 1 + |k.keyLen|;
    TaggedAt(s, body, 0x02, k.modulusLen, |k.modulus|, k.modulus + k.exponent);
    at := body + 1 + |k.modulusLen|;
    assert s[at + 0] == (k.modulus + k.exponent)[0];
  }

  lemma ModulusFound(s: seq<byte>, p: nat, k: KeyInfo) returns (at: nat)
    requires k.LengthsRight() && Holds(s, p, k.Bits())
    ensures ModulusFrom(s, p) == if k.LengthsReadable() then Some(Length(|k.modulus|, at)) else None
    ensures at < |s| && s[at] == k.modulus[0]
  {
    TaggedAt(s, p, 0x03, k.bitsLen, |k.Key()|, k.Key());
    var unused := p + 1 + |k.bitsLen|;
    HoldsParts(s, unused, [k.unusedBits], k.Sequence());
    var body;
    body, at := EnterSequence(s, unused + 1, k);
    assert unused < |s|;
    if Readable(k.bitsLen) && Readable(k.keyLen) {
      ModulusBehindTags(s, p, unused, body);
    }
  }

  lemma ModulusBehindTags(s: seq<byte>, p: nat, unused: nat, body: nat)
    requires Tagged(s, p, 0x03).Some? && Tagged(s, p, 0x03).value.next == unused < |s|
    requires Tagged(s, unused + 1, 0x30).Some? && Tagged(s, unused + 1, 0x30).value.next == body
    ensures ModulusFrom(s, p) == Tagged(s, body, 0x02)
  {
  }

  lemma BitsOfModulus(s: seq<byte>, c: seq<byte>, at: nat) returns (bits: nat)
    requires ModulusAt(s) == Some(Length(|c|, at)) && at < |s|
    requires 0 < |c| < SIZE_RANGE / 8 && s[at] == c[0]
    ensures RsaModulus(s) == Bits(bits)
    ensures bits == 8 * if c[0] == 0 then |c| - 1 else |c|
  {
    bits := 8 * if c[0] == 0 then |c| - 1 else |c|;
    NoOverflow(if c[0] == 0 then |c| - 1 else |c|);
  }

  /** So many octets have a number of bits that fits a size_t. */
  lemma NoOverflow(octets: nat)
    requires octets < SIZE_RANGE / 8
    ensures octets * 8 % SIZE_RANGE == 8 * octets
  {
  }

  /** Largest modulus size the modem takes, in bits. */
  const MAX_RSA_BITS: nat := 2048

  /** On a well-formed key the parser succeeds if and only if none of the three lengths on the way to
      the modulus has more than four subsequent octets. */
  lemma ParserSucceedsIff(s: seq<byte>, oid: nat, k: KeyInfo)
    requires KeyAt(s, oid, k) && k.LengthsRight()
    ensures RsaModulus(s).Bits? <==> k.LengthsReadable()
    ensures RsaModulus(s) == NotRsa <==> !k.LengthsReadable()
  {
    var p := KeyStartFound(s, oid, k);
    var at := ModulusFound(s, p, k);
  }

  /** The gate is exact on every well-formed key whose lengths it can read and whose modulus is n: it
      reports more than 8 * octets bits exactly when n is at least 2 to the 8 * octets. */
  lemma GateIsExact(s: seq<byte>, oid: nat, k: KeyInfo, n: nat, octets: nat) returns (bits: nat)
    requires KeyAt(s, oid, k) && k.LengthsRight() && k.LengthsReadable() && IsInteger(k.modulus, n)
    ensures RsaModulus(s) == Bits(bits)
    ensures bits > 8 * octets <==> n >= Pow2(8 * octets)
  {
    var p := KeyStartFound(s, oid, k);
    var at := ModulusFound(s, p, k);
    bits := BitsOfModulus(s, k.modulus, at);
    IntegerExceedsIff(k.modulus, n, octets);
  }

  /** A well-formed key of 2049 bits that the parser does not take for one: the BIT STRING spells its
      length of 269 with five octets. */
  lemma LongLengthUnread() returns (s: seq<byte>, k: KeyInfo, n: nat, cap: nat)
    ensures KeyAt(s, 0, k) && k.LengthsRight() && IsInteger(k.modulus, n)
    ensures cap == 2048 && n >= Pow2(cap) && RsaModulus(s) == NotRsa
  {
    var modulus: seq<byte> := seq(257, i => if i == 0 then 1 else 0);
    var bitsLen: seq<byte> := [0x85, 0, 0, 0, 1, 13];
    var keyLen: seq<byte> := [0x82, 1, 8];
    var modulusLen: seq<byte> := [0x82, 1, 1];
    k := KeyInfo([], 0, bitsLen, keyLen, modulusLen, modulus, [0x02, 0x01, 0x03]);
    n, cap := BigEndian(modulus, 0, 257), 2048;
    s := OID_RSA + k.Bits();
    assert s[0..11] == OID_RSA && k.params + k.Bits() == k.Bits();
    LongLengthNumbers(bitsLen, keyLen, modulusLen);
    IntegerExceedsIff(modulus, n, 256);
    assert cap == 8 * 256;
    ParserSucceedsIff(s, 0, k);
  }

  lemma LongLengthNumbers(bitsLen: seq<byte>, keyLen: seq<byte>, modulusLen: seq<byte>)
    requires bitsLen == [0x85, 0, 0, 0, 1, 13] && keyLen == [0x82, 1, 8] && modulusLen == [0x82, 1, 1]
    ensures IsLength(bitsLen, 269) && IsLength(keyLen, 264) && IsLength(modulusLen, 257)
  {
    assert BigEndian(bitsLen, 1, 2) == BigEndian(bitsLen, 1, 3) == BigEndian(bitsLen, 1, 4) == 0;
    assert BigEndian(bitsLen, 1, 5) == 1;
    assert BigEndian(keyLen, 1, 2) == BigEndian(modulusLen, 1, 2) == 1;
  }

  lemma IntegerExceedsIff(c: seq<byte>, n: nat, k: nat)
    requires IsInteger(c, n)
    ensures (if c[0] == 0 then |c| - 1 else |c|) > k <==> n >= Pow2(8 * k)
  {
    if c[0] == 0 {
      LeadingZero(c, |c|);
      OctetsExceedIff(c, 1, |c|, k);
    } else {
      OctetsExceedIff(c, 0, |c|, k);
    }
  }

  /** Exactly when the unguarded look happens: the data ends behind the length of a non-empty modulus. */
  lemma PastEndIff(s: seq<byte>, mlen: nat)
    ensures RsaModulus(s) == PastEnd(mlen) <==> ModulusAt(s) == Some(Length(mlen, |s|)) && mlen > 0
  {
  }

  /** One such input. */
  lemma TruncatedKeyReadsPastEnd()
    ensures RsaModulus(OID_RSA + [0x03, 0x05, 0x00, 0x30, 0x02, 0x02, 0x01]) == PastEnd(1)
  {
    var s := OID_RSA + [0x03, 0x05, 0x00, 0x30, 0x02, 0x02, 0x01];
    assert s[0..11] == OID_RSA;
    assert FirstOid(s, 0) == Some(0);
    assert s[11] == 0x03 && s[12] == 0x05 && s[14] == 0x30 && s[15] == 0x02 && s[16] == 0x02 && s[17] == 0x01;
  }

  /** What the parser computes when the octet it finds beyond the data is beyond. */
  ghost function ReportedBits(s: seq<byte>, beyond: byte): Option<nat> {
    match RsaModulus(s)
    case NotRsa => None
    case Bits(bits) => Some(bits)
    case PastEnd(octets) => Some((if beyond == 0 then octets - 1 else octets) * 8 % SIZE_RANGE)
  }
}
