/** Keys and certificates in the modem's sixteen TLS profiles. */
module TlsProfiles {
  import opened Common
  import opened HexCodec
  import opened RsaGate

  const PROFILES: nat := 16
  const MAX_PEM_SIZE: nat := 4096
  const KEY_SIZE: int := 32

  datatype CertType = CertDevice | CertCaRoot

  datatype Storage = Otp | Flash | RetRam | Ram

  /** A key the modem made itself, told apart by a serial number, or one uploaded as bytes. */
  datatype Key = Generated(serial: nat) | Uploaded(bytes: seq<byte>)

  datatype Profile = Profile(key: Option<Key>, ca: Option<seq<byte>>, device: Option<seq<byte>>)

  /** What the modem stores; serial numbers the next key it generates. */
  datatype Store = Store(profiles: seq<Profile>, serial: nat)

  datatype Command =
    | KeyDel(p: int)
    | KeyGenerate(p: int, size: int, storage: Storage)
    | KeyAdd(p: int, storage: Storage, bytes: seq<byte>)
    | KeyList(p: int)
    | CertDel(p: int, kind: CertType)
    | CertAdd(p: int, kind: CertType, length: nat, text: seq<byte>)

  datatype Error = Ok | BadParameter | OutOfMemory | Device

  predicate InRange(p: int) {
    0 <= p < PROFILES
  }

  function SetCert(s: Profile, kind: CertType, cert: Option<seq<byte>>): Profile {
    if kind.CertCaRoot? then s.(ca := cert) else s.(device := cert)
  }

  /** What an accepted command does to its profile. */
  function ApplyTo(s: Profile, c: Command, serial: nat): Profile {
    match c
    case KeyDel(_) => s.(key := None)
    case KeyGenerate(_, _, _) => s.(key := Some(Generated(serial)))
    case KeyAdd(_, _, bytes) => s.(key := Some(Uploaded(bytes)))
    case KeyList(_) => s
    case CertDel(_, kind) => SetCert(s, kind, None)
    case CertAdd(_, kind, length, text) => SetCert(s, kind, Decode(text))
  }

  function Apply(m: Store, c: Command): Store {
    if !(0 <= c.p < |m.profiles|) then m
    else
      Store(m.profiles[c.p := ApplyTo(m.profiles[c.p], c, m.serial)],
            if c.KeyGenerate? then m.serial + 1 else m.serial)
  }

  /** One command with what the modem stored before it. */
  datatype Entry = Entry(command: Command, before: Store)

  // ------------------------------------------------------ what calls are meant to do

  datatype Call =
    | GenerateKey(p: int)
    | AddKey(p: int, data: seq<byte>)
    | DeleteKey(p: int)
    | AddCertificate(p: int, kind: CertType, data: seq<byte>)

  /** The PEM parsers, and the octet found beyond an upload: fixed but arbitrary. */
  datatype Platform = Platform(pemKey: seq<byte> -> Option<seq<byte>>, pemCert: seq<byte> -> Option<seq<byte>>,
                               beyond: byte)
  {
    /** The bytes uploaded for a key. A PEM that no parser takes goes up as it is. */
    ghost function KeyBytes(data: seq<byte>): seq<byte> {
      if IsHexData(data) then Decode(data).value
      else if HasPemMarker(data) && pemKey(data).Some? then pemKey(data).value
      else data
    }

    /** The bytes uploaded for a certificate. A PEM the parser rejects is rejected. */
    ghost function CertBytes(data: seq<byte>): Option<seq<byte>> {
      if IsHexData(data) then Some(Decode(data).value)
      else if HasPemMarker(data) then pemCert(data)
      else Some(data)
    }

    ghost predicate Oversized(bytes: seq<byte>) {
      ReportedBits(bytes, beyond).Some? && ReportedBits(bytes, beyond).value > MAX_RSA_BITS
    }

    ghost predicate GoodUpload(p: int, data: seq<byte>) {
      InRange(p) && 0 < |data| <= MAX_PEM_SIZE
    }

    ghost predicate GoodCert(p: int, data: seq<byte>) {
      GoodUpload(p, data) && CertBytes(data).Some? && !Oversized(CertBytes(data).value)
    }

    /** Whether a call succeeds on a modem that never fails. */
    ghost predicate Accepts(m: Store, c: Call)
      requires |m.profiles| == PROFILES
    {
      match c
      case GenerateKey(p) => InRange(p)
      case AddKey(p, data) => GoodUpload(p, data)
      case DeleteKey(p) => InRange(p)
      case AddCertificate(p, kind, data) => GoodCert(p, data) && (kind.CertDevice? ==> m.profiles[p].key.Some?)
    }

    /** What a call does to its profile on a modem that never fails. */
    ghost function EffectOn(s: Profile, c: Call, serial: nat): Profile {
      match c
      case GenerateKey(_) => s.(key := Some(Generated(serial)))
      case AddKey(_, data) => s.(key := Some(Uploaded(KeyBytes(data))))
      case DeleteKey(_) => s.(key := None)
      case AddCertificate(_, kind, data) =>
        SetCert(if kind.CertCaRoot? then s.(key := Some(Generated(serial))) else s, kind, CertBytes(data))
    }

    ghost predicate Generates(c: Call) {
      c.GenerateKey? || (c.AddCertificate? && c.kind.CertCaRoot?)
    }

    ghost function Effect(m: Store, c: Call): (m': Store)
      requires |m.profiles| == PROFILES
      ensures |m'.profiles| == PROFILES
    {
      if !Accepts(m, c) then m
      else
        Store(m.profiles[c.p := EffectOn(m.profiles[c.p], c, m.serial)],
              if Generates(c) then m.serial + 1 else m.serial)
    }

    ghost function Effects(m: Store, cs: seq<Call>): (m': Store)
      requires |m.profiles| == PROFILES
      ensures |m'.profiles| == PROFILES
    {
      if cs == [] then m else Effect(Effects(m, cs[..|cs| - 1]), cs[|cs| - 1])
    }

    /** Call i is an accepted one that puts a key into profile p or takes it out. */
    ghost predicate TouchesKey(m: Store, cs: seq<Call>, i: int, p: int)
      requires |m.profiles| == PROFILES && 0 <= i < |cs|
    {
      && cs[i].p == p && Accepts(Effects(m, cs[..i]), cs[i])
      && !(cs[i].AddCertificate? && cs[i].kind.CertDevice?)
    }

    /** The key of a profile after any run of calls is the one its last accepted key call set: an upload
        for add_key, none for delete_key, and a new one of the modem's for generate_key, but for
        add_ca_certificate as well. Device certificates never touch it. */
    lemma {:induction false} LastKeyCallWins(m: Store, cs: seq<Call>, p: int, i: nat)
      requires |m.profiles| == PROFILES && InRange(p) && i < |cs| && TouchesKey(m, cs, i, p)
      requires forall j :: i < j < |cs| ==> !TouchesKey(m, cs, j, p)
      ensures Effects(m, cs).profiles[p].key ==
              match cs[i]
              case AddKey(_, data) => Some(Uploaded(KeyBytes(data)))
              case DeleteKey(_) => None
              case _ => Some(Generated(Effects(m, cs[..i]).serial))
      decreases |cs|
    {
      var front := cs[..|cs| - 1];
      if i < |cs| - 1 {
        assert front[..i] == cs[..i];
        forall j | i < j < |front| ensures !TouchesKey(m, front, j, p) {
          assert front[..j] == cs[..j];
          assert !TouchesKey(m, cs, j, p);
        }
        LastKeyCallWins(m, front, p, i);
        assert !TouchesKey(m, cs, |cs| - 1, p);
      }
    }

    /** A profile no call names stays as it is. */
    lemma {:induction false} OthersUntouched(m: Store, cs: seq<Call>, p: int)
      requires |m.profiles| == PROFILES && InRange(p)
      requires forall j :: 0 <= j < |cs| ==> cs[j].p != p
      ensures Effects(m, cs).profiles[p] == m.profiles[p]
      decreases |cs|
    {
      if cs != [] {
        OthersUntouched(m, cs[..|cs| - 1], p);
      }
    }

    /** The gate in use: a well-formed RSA key is refused exactly when its modulus reaches 2 to the cap and
        none of the lengths before it has more than four subsequent octets. */
    lemma CapIsExact(s: seq<byte>, oid: nat, k: KeyInfo, n: nat, cap: nat)
      requires KeyAt(s, oid, k) && k.LengthsRight() && IsInteger(k.modulus, n) && cap == 2048
      ensures Oversized(s) <==> k.LengthsReadable() && n >= Pow2(cap)
    {
      ParserSucceedsIff(s, oid, k);
      if k.LengthsReadable() {
        var octets := cap / 8;
        assert cap == 8 * octets;
        var bits := GateIsExact(s, oid, k, n, octets);
      }
    }

    /** A key the modem cannot use that passes the gate. */
    lemma OversizedKeyPasses() returns (s: seq<byte>, k: KeyInfo, n: nat, cap: nat)
      ensures KeyAt(s, 0, k) && k.LengthsRight() && IsInteger(k.modulus, n)
      ensures cap == 2048 && n >= Pow2(cap) && !Oversized(s)
    {
      s, k, n, cap := LongLengthUnread();
    }

    /** Where the parser looks beyond its data, what it finds there can decide: a modulus said to have 257 octets
        is refused exactly when that octet is not zero. */
    lemma BeyondDecides(s: seq<byte>)
      requires ModulusAt(s) == Some(Length(257, |s|))
      ensures Oversized(s) <==> beyond != 0
    {
    }

    /** A DER SEQUENCE and any hex text of it stand for the same upload: the text may mix cases and hold any
        separators. */
    lemma CredentialNormalisation(der: seq<byte>, text: seq<byte>)
      requires der != [] && der[0] == DER_SEQUENCE && !HasPemMarker(der)
      requires Decode(text) == Some(der)
      ensures CertBytes(text) == CertBytes(der) == Some(der)
      ensures KeyBytes(text) == KeyBytes(der) == der
      ensures |text| >= 2 * |der|
    {
      DecodeIff(text, der);
      DigitsSound(text);
      EncodeAt(der, 0);
      if text[0] == DER_SEQUENCE {
        FirstDigit(text);
      }
      HexRecognisedIff(text);
    }

    /** A PEM that its parser takes stands for the DER the parser gives. One it does not take is no
        certificate, and as a key goes up as it is. */
    lemma PemNormalisation(pem: seq<byte>, der: seq<byte>)
      requires HasPemMarker(pem) && der != [] && der[0] == DER_SEQUENCE && !HasPemMarker(der)
      ensures pemCert(pem) == Some(der) ==> CertBytes(pem) == CertBytes(der) == Some(der)
      ensures pemCert(pem) == None ==> CertBytes(pem) == None
      ensures pemKey(pem) == Some(der) ==> KeyBytes(pem) == KeyBytes(der) == der
      ensures pemKey(pem) == None ==> KeyBytes(pem) == pem
    {
      PemIsNotHex(pem);
    }

    /** Data that stands for der as a certificate: the DER, a PEM of it, or its hex text. */
    ghost predicate CertificateOf(data: seq<byte>, der: seq<byte>) {
      && der != [] && der[0] == 0x30 && !HasPemMarker(der)
      && (data == der || Decode(data) == Some(der) || (HasPemMarker(data) && pemCert(data) == Some(der)))
    }

    ghost predicate KeyOf(data: seq<byte>, der: seq<byte>) {
      && der != [] && der[0] == 0x30 && !HasPemMarker(der)
      && (data == der || Decode(data) == Some(der) || (HasPemMarker(data) && pemKey(data) == Some(der)))
    }

    lemma Normalised(data: seq<byte>, der: seq<byte>)
      ensures CertificateOf(data, der) ==> CertBytes(data) == Some(der)
      ensures KeyOf(data, der) ==> KeyBytes(data) == der
    {
      if CertificateOf(data, der) || KeyOf(data, der) {
        if Decode(data) == Some(der) {
          CredentialNormalisation(der, data);
        } else if HasPemMarker(data) {
          PemNormalisation(data, der);
        }
      }
    }

    /** A certificate around an RSA key goes up, in whichever form it is given, if and only if the form itself has
        at most 4096 bytes, the profile exists and, for a device, holds a key, and the modulus is below 2 to the
        cap or behind a length the gate cannot read. */
    lemma CertificateAcceptedIff(m: Store, p: int, kind: CertType, data: seq<byte>, der: seq<byte>, oid: nat,
                                 k: KeyInfo, n: nat, cap: nat)
      requires |m.profiles| == 16 && CertificateOf(data, der)
      requires KeyAt(der, oid, k) && k.LengthsRight() && IsInteger(k.modulus, n) && cap == 2048
      ensures Accepts(m, AddCertificate(p, kind, data)) <==>
              && 0 <= p <= 15 && 0 < |data| <= 4096 && (kind.CertDevice? ==> m.profiles[p].key.Some?)
              && !(k.LengthsReadable() && n >= Pow2(cap))
    {
      Normalised(data, der);
      CapIsExact(der, oid, k, n, cap);
    }

    /** What an accepted certificate leaves in its profile, in whichever form it was given. */
    lemma CertificateShows(m: Store, p: int, kind: CertType, data: seq<byte>, der: seq<byte>)
      requires |m.profiles| == 16 && CertificateOf(data, der) && Accepts(m, AddCertificate(p, kind, data))
      ensures var s, t := m.profiles[p], Effect(m, AddCertificate(p, kind, data)).profiles[p];
              if kind.CertCaRoot? then t == Profile(Some(Generated(m.serial)), Some(der), s.device)
              else t == Profile(s.key, s.ca, Some(der))
    {
      Normalised(data, der);
    }

    /** A PEM certificate and its DER have the same effect when each has at most 4096 bytes; a PEM that does not
        parse, or whose DER is oversized, has none. */
    lemma PemCertificate(m: Store, p: int, kind: CertType, pem: seq<byte>)
      requires |m.profiles| == 16 && HasPemMarker(pem)
      ensures var call := AddCertificate(p, kind, pem);
              match pemCert(pem)
              case None => !Accepts(m, call)
              case Some(der) =>
                && (Oversized(der) ==> !Accepts(m, call))
                && (CertificateOf(pem, der) && |pem| <= 4096 && |der| <= 4096 ==>
                      Effect(m, call) == Effect(m, AddCertificate(p, kind, der)))
    {
      PemIsNotHex(pem);
    }

    /** A key goes up in any form of at most 4096 bytes, whatever its size, and is then the profile's key. A PEM
        that does not parse is uploaded as it is. */
    lemma KeyShows(m: Store, p: int, data: seq<byte>, der: seq<byte>)
      requires |m.profiles| == 16
      requires KeyOf(data, der) || (HasPemMarker(data) && pemKey(data) == None && der == data)
      ensures Accepts(m, Call.AddKey(p, data)) <==> 0 <= p <= 15 && 0 < |data| <= 4096
      ensures Accepts(m, Call.AddKey(p, data)) ==>
                Effect(m, Call.AddKey(p, data)).profiles[p] == m.profiles[p].(key := Some(Uploaded(der)))
    {
      Normalised(data, der);
      if HasPemMarker(data) {
        PemIsNotHex(data);
      }
    }

    /** c with other data. */
    ghost function With(c: Call, data: seq<byte>): Call
      requires c.AddKey? || c.AddCertificate?
    {
      c.(data := data)
    }

    /** The cap of 4096 counts what is handed over, not what it stands for: the hex text of an accepted DER is
        accepted too if and only if the text itself fits, and then it has the same effect. */
    lemma HexAcceptedIff(m: Store, c: Call, der: seq<byte>, text: seq<byte>)
      requires |m.profiles| == PROFILES && (c.AddKey? || c.AddCertificate?)
      requires der != [] && der[0] == DER_SEQUENCE && !HasPemMarker(der)
      requires Decode(text) == Some(der)
      ensures Accepts(m, With(c, text)) <==> Accepts(m, With(c, der)) && |text| <= MAX_PEM_SIZE
      ensures Accepts(m, With(c, text)) ==> Effect(m, With(c, text)) == Effect(m, With(c, der))
    {
      CredentialNormalisation(der, text);
    }

    /** So for a CA certificate, whose upload always shows, DER and hex text have the same effect if and only if
        the text fits or the DER is refused as well. */
    lemma SameEffectIff(m: Store, p: int, der: seq<byte>, text: seq<byte>)
      requires |m.profiles| == PROFILES && der != [] && der[0] == DER_SEQUENCE && !HasPemMarker(der)
      requires Decode(text) == Some(der)
      ensures var raw, hex := AddCertificate(p, CertCaRoot, der), AddCertificate(p, CertCaRoot, text);
              Effect(m, raw) == Effect(m, hex) <==> |text| <= MAX_PEM_SIZE || !Accepts(m, raw)
    {
      var raw, hex := AddCertificate(p, CertCaRoot, der), AddCertificate(p, CertCaRoot, text);
      HexAcceptedIff(m, raw, der, text);
      assert With(raw, text) == hex && With(raw, der) == raw;
      if Accepts(m, raw) {
        assert Effect(m, raw).serial == m.serial + 1;
      }
    }

    /** One such DER: 2049 bytes go through, no hex text of them does. */
    lemma LongHexRefused(m: Store, p: int, text: seq<byte>) returns (der: seq<byte>)
      requires |m.profiles| == PROFILES && InRange(p)
      ensures |der| == 2049
      ensures Accepts(m, Call.AddKey(p, der)) && Accepts(m, AddCertificate(p, CertCaRoot, der))
      ensures Decode(text) == Some(der) ==>
                !Accepts(m, Call.AddKey(p, text)) && !Accepts(m, AddCertificate(p, CertCaRoot, text))
    {
      der := seq(2049, i => if i == 0 then DER_SEQUENCE else 0);
      PlainPasses(der);
      if Decode(text) == Some(der) {
        CredentialNormalisation(der, text);
      }
    }

    lemma PlainPasses(der: seq<byte>)
      requires der != [] && der[0] == DER_SEQUENCE
      requires forall i :: 0 <= i < |der| ==> der[i] != PEM_MARKER[0] && der[i] != OID_RSA[0]
      ensures !HasPemMarker(der) && CertBytes(der) == Some(der) && !Oversized(der)
    {
      NoMarker(der);
    }
  }

  lemma MarkerHead(s: seq<byte>, i: nat)
    requires MarkerAt(s, i)
    ensures s[i] == PEM_MARKER[0]
  {
    assert s[i] == s[i..i + 10][0];
  }

  lemma NoMarker(s: seq<byte>)
    requires forall i :: 0 <= i < |s| ==> s[i] != PEM_MARKER[0] && s[i] != OID_RSA[0]
    ensures !HasPemMarker(s) && FirstOid(s, 0).None?
  {
    forall i | 0 <= i < |s| ensures !MarkerAt(s, i) {
      if MarkerAt(s, i) {
        MarkerHead(s, i);
      }
    }
    if FirstOid(s, 0).Some? {
      OidHead(s, FirstOid(s, 0).value);
    }
  }

  lemma {:induction false} FirstDigit(s: seq<byte>)
    requires s != [] && !IsSeparator(s[0])
    ensures Digits(s) != [] && Digits(s)[0] == s[0]
  {
    DigitsStep(s, 0);
    assert Digits(s[..0]) == [];
  }

  // ------------------------------------------------------------------ the modem

  class TlsModem {
    var store: Store
    ghost var log: seq<Entry>
    /** How many commands and allocations have failed; a key listing that reports no key is an answer. */
    ghost var faults: nat

    /** Every certificate was added to a profile that held a key at that moment. */
    ghost predicate CertsHaveKeys()
      reads `log
    {
      forall i :: 0 <= i < |log| && log[i].command.CertAdd? ==>
        var c := log[i].command;
        0 <= c.p < |log[i].before.profiles| && log[i].before.profiles[c.p].key.Some?
    }

    ghost predicate Valid()
      reads `store, `log
    {
      |store.profiles| == PROFILES && CertsHaveKeys()
    }

    constructor ()
      ensures Valid() && faults == 0 && log == []
      ensures store == Store(seq(PROFILES, _ => Profile(None, None, None)), 0)
    {
      store := Store(seq(PROFILES, _ => Profile(None, None, None)), 0);
      log, faults := [], 0;
    }

    /** Runs a command. One that succeeds has taken effect; one that fails may have as well, when only its
        answer was lost. Listing a key succeeds only when there is one. */
    method Exec(c: Command) returns (ok: bool)
      requires Valid() && InRange(c.p)
      requires c.CertAdd? ==> store.profiles[c.p].key.Some?
      modifies this
      ensures Valid() && log == old(log) + [Entry(c, old(store))]
      ensures store == Apply(old(store), c) || (!ok && store == old(store))
      ensures c.KeyList? && ok ==> store.profiles[c.p].key.Some?
      ensures faults == old(faults) + if ok || (c.KeyList? && store.profiles[c.p].key.None?) then 0 else 1
    {
      log := log + [Entry(c, store)];
      ok := *;
      if c.KeyList? && store.profiles[c.p].key.None? {
        ok := false;
      } else if !ok {
        faults := faults + 1;
      }
      var reached: bool := *;
      if ok || reached {
        store := Apply(store, c);
      }
    }

    method Allocate() returns (ok: bool)
      modifies `faults
      ensures faults == old(faults) + if ok then 0 else 1
    {
      ok := *;
      if !ok {
        faults := faults + 1;
      }
    }
  }

  /** The log grew by exactly these commands. */
  ghost predicate Issued(before: seq<Entry>, after: seq<Entry>, commands: seq<Command>) {
    && |after| == |before| + |commands| && before <= after
    && forall k :: 0 <= k < |commands| ==> after[|before| + k].command == commands[k]
  }

  lemma IssuedBoth(a: seq<Entry>, b: seq<Entry>, c: seq<Entry>, first: seq<Command>, second: seq<Command>)
    requires Issued(a, b, first) && Issued(b, c, second)
    ensures Issued(a, c, first + second)
  {
    forall k | 0 <= k < |first| + |second| ensures c[|a| + k].command == (first + second)[k] {
      if k < |first| {
        assert c[|a| + k] == b[|a| + k];
      } else {
        assert c[|b| + (k - |first|)].command == second[k - |first|];
      }
    }
  }

  /** How a certificate upload sees to a key. */
  ghost function KeyScript(p: int, kind: CertType): seq<Command> {
    if kind.CertCaRoot? then [KeyDel(p), KeyGenerate(p, KEY_SIZE, Flash)] else [KeyList(p)]
  }

  ghost function UploadScript(p: int, kind: CertType, bytes: seq<byte>): seq<Command> {
    KeyScript(p, kind) + [CertDel(p, kind), CertAdd(p, kind, |bytes|, Encode(bytes))]
  }

  /** The commands of an upload. */
  lemma UploadCommands(p: int, bytes: seq<byte>)
    ensures UploadScript(p, CertCaRoot, bytes) ==
            [KeyDel(p), KeyGenerate(p, 32, Flash), CertDel(p, CertCaRoot),
             CertAdd(p, CertCaRoot, |bytes|, Encode(bytes))]
    ensures UploadScript(p, CertDevice, bytes) ==
            [KeyList(p), CertDel(p, CertDevice), CertAdd(p, CertDevice, |bytes|, Encode(bytes))]
  {
  }

  // ------------------------------------------------------------------- the driver

  class TlsProvisioning {
    const modem: TlsModem
    const platform: Platform

    constructor (modem: TlsModem, platform: Platform)
      ensures this.modem == modem && this.platform == platform
    {
      this.modem, this.platform := modem, platform;
    }

    /** Profiles other than p are what they were, and so are the certificates of p. */
    twostate predicate OnlyKeyOf(p: int)
      requires |old(modem.store.profiles)| == |modem.store.profiles| == PROFILES
      reads modem
    {
      && (forall q :: 0 <= q < PROFILES && q != p ==> modem.store.profiles[q] == old(modem.store.profiles)[q])
      && (InRange(p) ==> modem.store.profiles[p].ca == old(modem.store.profiles)[p].ca
                         && modem.store.profiles[p].device == old(modem.store.profiles)[p].device)
    }

    method DeleteKey(p: int) returns (e: Error)
      requires modem.Valid()
      modifies modem
      ensures modem.Valid() && OnlyKeyOf(p)
      ensures !InRange(p) ==> e == BadParameter && unchanged(modem)
      ensures InRange(p) ==> modem.log == old(modem.log) + [Entry(KeyDel(p), old(modem.store))]
      ensures InRange(p) ==> modem.store.profiles[p].key == None ||
                             (e != Ok && modem.store.profiles[p].key == old(modem.store.profiles)[p].key)
      ensures modem.store.serial == old(modem.store.serial)
      ensures modem.faults >= old(modem.faults)
      ensures modem.faults == old(modem.faults) ==> modem.store == platform.Effect(old(modem.store), Call.DeleteKey(p))
    {
      if p < 0 || p > 15 {
        return BadParameter;
      }
      var ok := modem.Exec(KeyDel(p));
      return if ok then Ok else Device;
    }

    /** A generated key always goes to persistent storage: RAM requests are raised to flash. */
    method GenerateKey(p: int, size: int, storage: Storage) returns (e: Error)
      requires modem.Valid()
      modifies modem
      ensures modem.Valid() && OnlyKeyOf(p)
      ensures !InRange(p) ==> e == BadParameter && unchanged(modem)
      ensures e == Ok ==> modem.store.profiles[p].key == Some(Generated(old(modem.store.serial)))
      ensures InRange(p) ==>
                || modem.store.profiles[p].key == Some(Generated(old(modem.store.serial)))
                || modem.store.profiles[p].key == None
                || modem.store.profiles[p].key == old(modem.store.profiles)[p].key
      ensures InRange(p) ==>
                Issued(old(modem.log), modem.log,
                       [KeyDel(p), KeyGenerate(p, size, if storage.Otp? then Otp else Flash)])
      ensures modem.faults >= old(modem.faults)
      ensures modem.faults == old(modem.faults) ==>
                modem.store == platform.Effect(old(modem.store), Call.GenerateKey(p))
      ensures modem.faults == old(modem.faults) && InRange(p) ==> e == Ok
    {
      if p < 0 || p > 15 {
        return BadParameter;
      }
      var kept := storage;
      if storage == Ram || storage == RetRam {
        kept := Flash;
      }
      var deleted := DeleteKey(p);
      var ok := modem.Exec(KeyGenerate(p, size, kept));
      return if ok then Ok else Device;
    }

    /** Text to bytes into a buffer sized as the callers size it; recognised text always yields some. */
    method HexToDer(data: seq<byte>) returns (e: Error, bytes: seq<byte>)
      requires IsHexData(data)
      modifies modem`faults
      ensures modem.faults >= old(modem.faults)
      ensures modem.faults == old(modem.faults) ==> e == Ok
      ensures e == Ok || e == OutOfMemory
      ensures e == Ok ==> bytes == Decode(data).value
    {
      bytes := [];
      var maxLen := |data| / 2 + 1;
      var roomy := modem.Allocate();
      if !roomy {
        return OutOfMemory, bytes;
      }
      var buffer := new byte[maxLen];
      var binLen := ConvertHexToBin(data, buffer, maxLen);
      HexDataDecodes(data);
      assert binLen != 0;
      return Ok, buffer[..binLen];
    }

    method NormaliseKey(data: seq<byte>) returns (e: Error, bytes: seq<byte>)
      modifies modem`faults
      ensures modem.faults >= old(modem.faults)
      ensures modem.faults == old(modem.faults) ==> e == Ok
      ensures e == Ok || e == OutOfMemory
      ensures e == Ok ==> bytes == platform.KeyBytes(data)
      ensures e == Ok ==>
                if IsHexData(data) then Decode(data) == Some(bytes)
                else if HasPemMarker(data) then
                  platform.pemKey(data) == Some(bytes) || (platform.pemKey(data) == None && bytes == data)
                else bytes == data
    {
      e, bytes := Ok, data;
      var isHex := IsHexString(data);
      if isHex {
        e, bytes := HexToDer(data);
        return;
      }
      var isPem := LooksLikePem(data);
      if isPem {
        var roomy := modem.Allocate();
        if !roomy {
          return OutOfMemory, bytes;
        }
        var parsed := platform.pemKey(data);
        if parsed.Some? {
          bytes := parsed.value;
        }
      }
    }

    method NormaliseCertificate(data: seq<byte>) returns (e: Error, bytes: seq<byte>)
      modifies modem`faults
      ensures modem.faults >= old(modem.faults)
      ensures modem.faults == old(modem.faults) ==> e != OutOfMemory
      ensures e == Ok ==> platform.CertBytes(data) == Some(bytes)
      ensures e == BadParameter ==> platform.CertBytes(data) == None
      ensures e == Ok ==>
                if HasPemMarker(data) then platform.pemCert(data) == Some(bytes)
                else if IsHexData(data) then Decode(data) == Some(bytes)
                else bytes == data
      ensures e == BadParameter ==> HasPemMarker(data) && platform.pemCert(data) == None
      ensures e != Device
    {
      if HasPemMarker(data) {
        PemIsNotHex(data);
      }
      e, bytes := Ok, data;
      var isHex := IsHexString(data);
      if isHex {
        e, bytes := HexToDer(data);
        return;
      }
      var isPem := LooksLikePem(data);
      if isPem {
        var roomy := modem.Allocate();
        if !roomy {
          return OutOfMemory, bytes;
        }
        var parsed := platform.pemCert(data);
        if parsed.None? {
          return BadParameter, bytes;
        }
        bytes := parsed.value;
      }
    }

    method AddKey(p: int, data: seq<byte>, storage: Storage) returns (e: Error)
      requires modem.Valid()
      modifies modem
      ensures modem.Valid() && OnlyKeyOf(p)
      ensures !platform.GoodUpload(p, data) ==> e == BadParameter && unchanged(modem)
      ensures e == OutOfMemory ==> modem.log == old(modem.log) && modem.store == old(modem.store)
      ensures e == Ok ==> modem.store.profiles[p].key == Some(Uploaded(platform.KeyBytes(data)))
      ensures e == Ok ==>
                Issued(old(modem.log), modem.log, [KeyDel(p), KeyAdd(p, storage, platform.KeyBytes(data))])
      ensures e == Device ==>
                || modem.store.profiles[p].key == Some(Uploaded(platform.KeyBytes(data)))
                || modem.store.profiles[p].key == None
                || modem.store.profiles[p].key == old(modem.store.profiles)[p].key
      ensures modem.faults >= old(modem.faults)
      ensures modem.faults == old(modem.faults) ==>
                modem.store == platform.Effect(old(modem.store), Call.AddKey(p, data))
      ensures modem.faults == old(modem.faults) && platform.GoodUpload(p, data) ==> e == Ok
    {
      if p < 0 || p > 15 || |data| == 0 {
        return BadParameter;
      }
      if |data| > MAX_PEM_SIZE {
        return BadParameter;
      }
      var bytes;
      e, bytes := NormaliseKey(data);
      if e != Ok {
        return;
      }
      var deleted := DeleteKey(p);
      var ok := modem.Exec(KeyAdd(p, storage, bytes));
      return if ok then Ok else Device;
    }

    /** The size gate on an upload. */
    method TooManyBits(bytes: seq<byte>) returns (yes: bool)
      ensures yes <==> platform.Oversized(bytes)
    {
      var r := ParseRsaModulusBits(bytes);
      match r
      case NotRsa => yes := false;
      case Bits(bits) => yes := bits > MAX_RSA_BITS;
      case PastEnd(octets) =>
        yes := (if platform.beyond == 0 then octets - 1 else octets) * 8 % SIZE_RANGE > MAX_RSA_BITS;
    }

    /** A key for the profile: a new one of the modem's for a CA certificate, whatever was there before;
        the one provisioned earlier for a device certificate. */
    method EnsureKey(p: int, kind: CertType, volatileStorage: bool) returns (e: Error)
      requires modem.Valid() && InRange(p)
      modifies modem
      ensures modem.Valid() && OnlyKeyOf(p)
      ensures e == Ok ==> modem.store.profiles[p].key.Some?
      ensures Issued(old(modem.log), modem.log, KeyScript(p, kind))
      ensures kind.CertDevice? ==> modem.store == old(modem.store)
      ensures kind.CertCaRoot? && e == Ok ==> modem.store.profiles[p].key == Some(Generated(old(modem.store.serial)))
      ensures kind.CertCaRoot? ==>
                || modem.store.profiles[p].key == Some(Generated(old(modem.store.serial)))
                || modem.store.profiles[p].key == None
                || modem.store.profiles[p].key == old(modem.store.profiles)[p].key
      ensures modem.faults >= old(modem.faults)
      ensures modem.faults == old(modem.faults) && kind.CertCaRoot? ==>
                e == Ok && modem.store == platform.Effect(old(modem.store), Call.GenerateKey(p))
      ensures modem.faults == old(modem.faults) && kind.CertDevice? ==>
                (e == Ok <==> old(modem.store.profiles)[p].key.Some?)
    {
      if kind == CertCaRoot {
        e := GenerateKey(p, KEY_SIZE, if volatileStorage then Ram else Flash);
      } else {
        var listed := modem.Exec(KeyList(p));
        e := if listed then Ok else BadParameter;
      }
    }

    ghost function CertOf(s: Profile, kind: CertType): Option<seq<byte>> {
      if kind.CertCaRoot? then s.ca else s.device
    }

    /** Replaces one certificate of a profile that holds a key. What is sent is hex text with the
        declared length of the bytes, and the modem ends up with those bytes. */
    method InstallCertificate(p: int, kind: CertType, bytes: seq<byte>) returns (e: Error)
      requires modem.Valid() && InRange(p) && modem.store.profiles[p].key.Some?
      modifies modem
      ensures modem.Valid() && modem.store.serial == old(modem.store.serial)
      ensures forall q :: 0 <= q < PROFILES && q != p ==> modem.store.profiles[q] == old(modem.store.profiles)[q]
      ensures modem.store.profiles[p] ==
              SetCert(old(modem.store.profiles)[p], kind, CertOf(modem.store.profiles[p], kind))
      ensures e == Ok ==> CertOf(modem.store.profiles[p], kind) == Some(bytes)
      ensures CertOf(modem.store.profiles[p], kind) in {Some(bytes), None, CertOf(old(modem.store.profiles)[p], kind)}
      ensures e == Ok ==>
                Issued(old(modem.log), modem.log, [CertDel(p, kind), CertAdd(p, kind, |bytes|, Encode(bytes))])
      ensures |modem.log| > |old(modem.log)| && modem.log[|old(modem.log)|].command == CertDel(p, kind)
      ensures modem.faults >= old(modem.faults)
      ensures modem.faults == old(modem.faults) ==> e == Ok
    {
      var deleted := modem.Exec(CertDel(p, kind));
      var roomy := modem.Allocate();
      if !roomy {
        return OutOfMemory;
      }
      var text := EncodeToText(bytes);
      DecodeEncode(bytes);
      var ok := modem.Exec(CertAdd(p, kind, |bytes|, text[..2 * |bytes|]));
      return if ok then Ok else Device;
    }

    /** Uploads a certificate: normalise, gate, make sure of a key, replace. Nothing reaches the modem
        unless the certificate passes; volatileStorage changes nothing that does. */
    method AddCertificate(p: int, kind: CertType, data: seq<byte>, volatileStorage: bool) returns (e: Error)
      requires modem.Valid()
      modifies modem
      ensures modem.Valid()
      ensures forall q :: 0 <= q < PROFILES && q != p ==> modem.store.profiles[q] == old(modem.store.profiles)[q]
      ensures !platform.GoodCert(p, data) ==>
                && (e == BadParameter || e == OutOfMemory)
                && modem.log == old(modem.log) && modem.store == old(modem.store)
      ensures InRange(p) && kind.CertDevice? ==>
                modem.store.profiles[p].key == old(modem.store.profiles)[p].key &&
                modem.store.profiles[p].ca == old(modem.store.profiles)[p].ca
      ensures InRange(p) && kind.CertCaRoot? ==> modem.store.profiles[p].device == old(modem.store.profiles)[p].device
      ensures platform.GoodCert(p, data) ==>
                CertOf(modem.store.profiles[p], kind) in
                  {platform.CertBytes(data), None, CertOf(old(modem.store.profiles)[p], kind)}
      ensures e == Ok ==>
                && platform.GoodCert(p, data)
                && CertOf(modem.store.profiles[p], kind) == platform.CertBytes(data)
                && (kind.CertCaRoot? ==> modem.store.profiles[p].key == Some(Generated(old(modem.store.serial))))
      ensures e == Ok && HasPemMarker(data) ==> CertOf(modem.store.profiles[p], kind) == platform.pemCert(data) != None
      ensures e == Ok ==> Issued(old(modem.log), modem.log, UploadScript(p, kind, platform.CertBytes(data).value))
      ensures modem.faults >= old(modem.faults)
      ensures modem.faults == old(modem.faults) ==>
                modem.store == platform.Effect(old(modem.store), Call.AddCertificate(p, kind, data))
      ensures modem.faults == old(modem.faults) ==>
                (e == Ok <==> platform.Accepts(old(modem.store), Call.AddCertificate(p, kind, data)))
    {
      if p < 0 || p > 15 || |data| == 0 {
        return BadParameter;
      }
      if |data| > MAX_PEM_SIZE {
        return BadParameter;
      }
      var bytes;
      e, bytes := NormaliseCertificate(data);
      if e != Ok {
        return;
      }
      var oversized := TooManyBits(bytes);
      if oversized {
        return BadParameter;
      }
      e := ReplaceCertificate(p, kind, bytes, volatileStorage);
    }

    /** Makes sure of a key, then replaces the certificate. */
    method ReplaceCertificate(p: int, kind: CertType, bytes: seq<byte>, volatileStorage: bool) returns (e: Error)
      requires modem.Valid() && InRange(p)
      modifies modem
      ensures modem.Valid()
      ensures forall q :: 0 <= q < PROFILES && q != p ==> modem.store.profiles[q] == old(modem.store.profiles)[q]
      ensures kind.CertDevice? ==>
                modem.store.profiles[p].key == old(modem.store.profiles)[p].key &&
                modem.store.profiles[p].ca == old(modem.store.profiles)[p].ca
      ensures kind.CertCaRoot? ==> modem.store.profiles[p].device == old(modem.store.profiles)[p].device
      ensures CertOf(modem.store.profiles[p], kind) in {Some(bytes), None, CertOf(old(modem.store.profiles)[p], kind)}
      ensures e == Ok ==>
                && CertOf(modem.store.profiles[p], kind) == Some(bytes)
                && (kind.CertCaRoot? ==> modem.store.profiles[p].key == Some(Generated(old(modem.store.serial))))
                && Issued(old(modem.log), modem.log, UploadScript(p, kind, bytes))
      ensures modem.faults >= old(modem.faults)
      ensures modem.faults == old(modem.faults) ==>
                && (e == Ok <==> (kind.CertDevice? ==> old(modem.store.profiles)[p].key.Some?))
                && modem.store == if e == Ok then Replaced(old(modem.store), p, kind, bytes) else old(modem.store)
    {
      e := EnsureKey(p, kind, volatileStorage);
      if e != Ok {
        return;
      }
      ghost var keyed := modem.log;
      e := InstallCertificate(p, kind, bytes);
      if e == Ok {
        IssuedBoth(old(modem.log), keyed, modem.log, KeyScript(p, kind),
                   [CertDel(p, kind), CertAdd(p, kind, |bytes|, Encode(bytes))]);
      }
    }

    /** The store after an upload on a modem that does not fail. */
    ghost function Replaced(m: Store, p: int, kind: CertType, bytes: seq<byte>): Store
      requires |m.profiles| == PROFILES && InRange(p)
    {
      var s := m.profiles[p];
      if kind.CertCaRoot? then
        Store(m.profiles[p := Profile(Some(Generated(m.serial)), Some(bytes), s.device)], m.serial + 1)
      else Store(m.profiles[p := Profile(s.key, s.ca, Some(bytes))], m.serial)
    }
  }
}
