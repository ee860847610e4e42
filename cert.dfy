/**
 * The custom extensions of cert/cert.go: the certificate template that
 * newCertificate fills from a CertInformation, with one critical extension
 * per entry of its Names map, and GetCertExtProperty, which looks an
 * extension up by the OBJECT IDENTIFIER its key decodes to.
 */
module Cert {
  import opened Wrappers
  import opened Base128
  import opened ObjectIdentifier
  import opened OidProperties

  /** A Go string: a sequence of bytes, usually UTF-8. */
  type GoString = seq<byte>

  /** pkix.Extension. */
  datatype Extension = Extension(id: seq<int>, critical: bool, value: seq<byte>)

  /** The input of newCertificate. */
  datatype CertInformation = CertInformation(
    country: seq<GoString>,
    organization: seq<GoString>,
    organizationalUnit: seq<GoString>,
    emailAddress: seq<GoString>,
    province: seq<GoString>,
    locality: seq<GoString>,
    commonName: GoString,
    crtName: GoString,
    keyName: GoString,
    isCA: bool,
    names: map<GoString, GoString>)

  /** The part of pkix.Name that newCertificate sets. */
  datatype Name = Name(
    country: seq<GoString>,
    organization: seq<GoString>,
    organizationalUnit: seq<GoString>,
    province: seq<GoString>,
    commonName: GoString,
    locality: seq<GoString>)

  /** x509.KeyUsage is a bit set; these are its bits 0 and 5. */
  const KeyUsageDigitalSignature: bv32 := 1
  const KeyUsageCertSign: bv32 := 1 << 5

  datatype ExtKeyUsage = ExtKeyUsageServerAuth | ExtKeyUsageClientAuth

  /** The fields of x509.Certificate that newCertificate sets or GetCertExtProperty reads. */
  datatype Certificate = Certificate(
    serialNumber: int,
    subject: Name,
    notBefore: int,
    notAfter: int,
    basicConstraintsValid: bool,
    isCA: bool,
    extKeyUsage: seq<ExtKeyUsage>,
    keyUsage: bv32,
    emailAddresses: seq<GoString>,
    extraExtensions: seq<Extension>,
    extensions: seq<Extension>)

  /**
   * The extension newCertificate adds for one Names entry. The identifier is
   * whatever parseObjectIdentifier returned, also when it failed.
   */
  function ExtensionFor(key: GoString, value: GoString): (e: Extension)
    ensures e.critical && e.value == value && e.id == DecodeOid(key).arcs
  {
    Extension(DecodeOid(key).arcs, true, value)
  }

  /**
   * The identifier of that extension: the 2..len+1 arcs of a well-formed key,
   * no arcs for the empty key, and the whole len+1 preallocated slice for any
   * other key that fails to decode.
   */
  lemma ExtensionIdLength(key: GoString, value: GoString)
    ensures WellFormed(key) ==> 2 <= |ExtensionFor(key, value).id| <= |key| + 1
    ensures !WellFormed(key) ==> |ExtensionFor(key, value).id| == (if key == [] then 0 else |key| + 1)
  {
    DecodeOidLength(key);
  }

  /** The keys of a map, each once, in some order: one run of Go's map iteration. */
  predicate IsOrdering(order: seq<GoString>, keys: set<GoString>)
  {
    |order| == |keys| &&
    (forall i :: 0 <= i < |order| ==> order[i] in keys) &&
    (forall k :: k in keys ==> k in order) &&
    (forall i, j :: 0 <= i < j < |order| ==> order[i] != order[j])
  }

  /** The extensions for the Names entries visited in `order`, one per entry, in that order. */
  function ExtensionsIn(order: seq<GoString>, names: map<GoString, GoString>): seq<Extension>
    requires forall i :: 0 <= i < |order| ==> order[i] in names
  {
    seq(|order|, i requires 0 <= i < |order| => ExtensionFor(order[i], names[order[i]]))
  }

  /** Visiting one more key appends its extension. */
  lemma ExtensionsInAppend(order: seq<GoString>, key: GoString, names: map<GoString, GoString>)
    requires forall i :: 0 <= i < |order| ==> order[i] in names
    requires key in names
    ensures ExtensionsIn(order + [key], names) == ExtensionsIn(order, names) + [ExtensionFor(key, names[key])]
  {
    var longer := order + [key];
    assert forall i :: 0 <= i < |order| ==> longer[i] == order[i];
  }

  /**
   * newCertificate: the template for a new certificate. The serial number
   * (rd.Int63(), so below 2^63) and the validity window (now, twenty years on) are
   * parameters. The ghost `order` is the order in which the map iteration
   * visited the Names entries.
   */
  method NewCertificate(info: CertInformation, serialNumber: int, notBefore: int, notAfter: int)
    returns (cert: Certificate, ghost order: seq<GoString>)
    requires 0 <= serialNumber < 0x8000_0000_0000_0000
    ensures cert.serialNumber == serialNumber && cert.notBefore == notBefore && cert.notAfter == notAfter
    ensures cert.subject == Name(info.country, info.organization, info.organizationalUnit,
                                 info.province, info.commonName, info.locality)
    ensures cert.basicConstraintsValid && cert.isCA == info.isCA
    ensures cert.extKeyUsage == [ExtKeyUsageClientAuth, ExtKeyUsageServerAuth]
    ensures cert.keyUsage == KeyUsageDigitalSignature | KeyUsageCertSign
    ensures cert.emailAddresses == info.emailAddress && cert.extensions == []
    ensures IsOrdering(order, info.names.Keys)
    ensures cert.extraExtensions == ExtensionsIn(order, info.names)
    ensures |cert.extraExtensions| == |info.names|
    ensures forall k :: k in info.names ==> ExtensionFor(k, info.names[k]) in cert.extraExtensions
  {
    cert := Certificate(
      serialNumber,
      Name(info.country, info.organization, info.organizationalUnit, info.province, info.commonName, info.locality),
      notBefore,
      notAfter,
      true,
      info.isCA,
      [ExtKeyUsageClientAuth, ExtKeyUsageServerAuth],
      KeyUsageDigitalSignature | KeyUsageCertSign,
      info.emailAddress,
      [],
      []);
    ghost var template := cert;
    var remaining := info.names.Keys;
    order := [];
    while remaining != {}
      invariant remaining <= info.names.Keys
      invariant forall i :: 0 <= i < |order| ==> order[i] in info.names && order[i] !in remaining
      invariant forall i, j :: 0 <= i < j < |order| ==> order[i] != order[j]
      invariant forall k :: k in info.names ==> k in remaining || k in order
      invariant |order| + |remaining| == |info.names.Keys|
      invariant cert == template.(extraExtensions := ExtensionsIn(order, info.names))
      decreases |remaining|
    {
      var key :| key in remaining;
      var xi, err := ParseObjectIdentifier(key);
      // An error is only printed; the extension is appended all the same.
      cert := cert.(extraExtensions := cert.extraExtensions + [Extension(xi, true, info.names[key])]);
      assert Extension(xi, true, info.names[key]) == ExtensionFor(key, info.names[key]);
      ExtensionsInAppend(order, key, info.names);
      order := order + [key];
      remaining := remaining - {key};
    }
    forall k | k in info.names
      ensures ExtensionFor(k, info.names[k]) in cert.extraExtensions
    {
      var i :| 0 <= i < |order| && order[i] == k;
      assert cert.extraExtensions[i] == ExtensionFor(k, info.names[k]);
    }
  }

  /** The value of the first extension whose identifier equals id, if any. */
  function FirstValue(exts: seq<Extension>, id: seq<int>): (r: Option<seq<byte>>)
    ensures r.None? <==> forall i :: 0 <= i < |exts| ==> exts[i].id != id
    ensures r.Some? ==> exists i :: 0 <= i < |exts| && exts[i].id == id && r.value == exts[i].value &&
                                    forall j :: 0 <= j < i ==> exts[j].id != id
    decreases |exts|
  {
    if exts == [] then None
    else if exts[0].id == id then Some(exts[0].value)
    else
      var r := FirstValue(exts[1..], id);
      assert forall i :: 1 <= i < |exts| ==> exts[1..][i - 1] == exts[i];
      r
  }

  /** What GetCertExtProperty returns for a certificate with these extensions. */
  function ExtProperty(exts: seq<Extension>, key: GoString): (r: Option<seq<byte>>)
    ensures r.Some? <==> WellFormed(key) && exists i :: 0 <= i < |exts| && exts[i].id == DecodeOid(key).arcs
    ensures r.Some? ==> exists i :: 0 <= i < |exts| && exts[i].id == DecodeOid(key).arcs &&
                                    r.value == exts[i].value &&
                                    forall j :: 0 <= j < i ==> exts[j].id != DecodeOid(key).arcs
  {
    DecodeOidSucceeds(key);
    if exts == [] || DecodeOid(key).err.Some? then None else FirstValue(exts, DecodeOid(key).arcs)
  }

  /**
   * GetCertExtProperty: decodes the key (again on every turn of the loop)
   * and returns the Value of the first extension with that identifier; nil,
   * here None, when there is none or the key does not decode.
   */
  method GetCertExtProperty(cert: Certificate, key: GoString) returns (r: Option<seq<byte>>)
    ensures r == ExtProperty(cert.extensions, key)
  {
    var ext := cert.extensions;
    ghost var id := DecodeOid(key).arcs;
    if |ext| > 0 {
      var i := 0;
      while i < |ext|
        invariant 0 <= i <= |ext|
        invariant i > 0 ==> DecodeOid(key).err.None?
        invariant FirstValue(ext, id) == FirstValue(ext[i..], id)
      {
        var k, err := ParseObjectIdentifier(key);
        if err.Some? {
          return None;
        }
        if ext[i].id == k {
          return Some(ext[i].value);
        }
        assert ext[i..][1..] == ext[i + 1..];
        i := i + 1;
      }
    }
    return None;
  }

  /**
   * An entry of Names can be read back from the issued certificate when its
   * key decodes and no other extension carries the same identifier: x509
   * keeps the ExtraExtensions, in order, after the extensions it adds itself
   * (`before`).
   */
  lemma IssuedExtensionFound(names: map<GoString, GoString>, order: seq<GoString>,
                             before: seq<Extension>, key: GoString)
    requires IsOrdering(order, names.Keys)
    requires key in names && WellFormed(key)
    requires forall e :: e in before ==> e.id != DecodeOid(key).arcs
    requires forall k :: k in names && k != key ==> DecodeOid(k).arcs != DecodeOid(key).arcs
    ensures ExtProperty(before + ExtensionsIn(order, names), key) == Some(names[key])
  {
    var i := UniqueIdIn(names, order, key);
    var exts := ExtensionsIn(order, names);
    var all := before + exts;
    var id := DecodeOid(key).arcs;
    forall j | 0 <= j < |all| && j != |before| + i
      ensures all[j].id != id
    {
      if j < |before| {
        assert all[j] == before[j];
      } else {
        assert all[j] == exts[j - |before|];
      }
    }
    assert all[|before| + i] == exts[i];
    FirstValueOnly(all, id, |before| + i);
  }

  /** When no two keys decode alike, exactly one extension carries the identifier of a key. */
  lemma UniqueIdIn(names: map<GoString, GoString>, order: seq<GoString>, key: GoString) returns (i: nat)
    requires IsOrdering(order, names.Keys) && key in names
    requires forall k :: k in names && k != key ==> DecodeOid(k).arcs != DecodeOid(key).arcs
    ensures i < |order| && ExtensionsIn(order, names)[i] == ExtensionFor(key, names[key])
    ensures forall j :: 0 <= j < |order| && j != i ==> ExtensionsIn(order, names)[j].id != DecodeOid(key).arcs
  {
    i :| 0 <= i < |order| && order[i] == key;
  }

  /** The extension carrying id is the only one: the lookup returns its value. */
  lemma FirstValueOnly(exts: seq<Extension>, id: seq<int>, i: nat)
    requires i < |exts| && exts[i].id == id
    requires forall j :: 0 <= j < |exts| && j != i ==> exts[j].id != id
    ensures FirstValue(exts, id) == Some(exts[i].value)
  {
  }

  /**
   * A key that does not decode still gets an extension. When it fails in its
   * first subidentifier the identifier is the zeroed slice; a later failure
   * keeps the arcs written before it. The key "中" (E4 B8 AD, every byte with
   * the 0x80 bit) fails in its first subidentifier and gets 0.0.0.0: it
   * cannot find its own extension, but the key 00 00 00, which decodes to the
   * same four zero arcs, does.
   */
  lemma MalformedKeyAlias(value: GoString)
    ensures ExtensionFor([0xE4, 0xB8, 0xAD], value).id == [0, 0, 0, 0]
    ensures ExtProperty([ExtensionFor([0xE4, 0xB8, 0xAD], value)], [0xE4, 0xB8, 0xAD]) == None
    ensures ExtProperty([ExtensionFor([0xE4, 0xB8, 0xAD], value)], [0, 0, 0]) == Some(value)
  {
    TruncatedZeros([0xE4, 0xB8, 0xAD]);
    ZeroBytes();
  }

  /** The bytes of "abcdefghijklmnopqrstuvwxyz". */
  const Alphabet: GoString := seq(26, i requires 0 <= i < 26 => 0x61 + i)

  /** The Names of the server certificate in cert/cert_test.go: "abcdefghijklmnopqrstuvwxyz" -> "p", "p" -> "bbbbbb". */
  const ServerNames: map<GoString, GoString> := map[Alphabet := [0x70], [0x70] := [0x62, 0x62, 0x62, 0x62, 0x62, 0x62]]

  /**
   * Looking up "p" on the issued server certificate gives "bbbbbb": "p"
   * decodes to 2.32 and the alphabet to 27 arcs, so the two never collide.
   */
  lemma ServerNamesLookup(order: seq<GoString>, before: seq<Extension>)
    requires IsOrdering(order, ServerNames.Keys)
    requires forall e :: e in before ==> e.id != [2, 32]
    ensures ExtProperty(before + ExtensionsIn(order, ServerNames), [0x70]) == Some([0x62, 0x62, 0x62, 0x62, 0x62, 0x62])
  {
    ServerKeysDistinct();
    IssuedExtensionFound(ServerNames, order, before, [0x70]);
  }

  /** "p" decodes to 2.32, and the other key of ServerNames to something else. */
  lemma ServerKeysDistinct()
    ensures WellFormed([0x70]) && DecodeOid([0x70]).arcs == [2, 32]
    ensures forall k :: k in ServerNames && k != [0x70] ==> DecodeOid(k).arcs != [2, 32]
  {
    var p: GoString := [0x70];
    AsciiArcs(p);
    AsciiArcs(Alphabet);
    assert |DecodeOid(Alphabet).arcs| == 27;
    assert forall k :: k in ServerNames && k != p ==> k == Alphabet;
  }
}
