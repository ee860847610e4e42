# Certificate extensions, OBJECT IDENTIFIER decoding and string splitting

This project models, in Dafny, the computing core of the `cert` and `utils`
packages of a small Go toolkit for issuing X.509 certificates:

- `parseBase128Int` and `parseObjectIdentifier` (module `Base128` in
  `base128.dfy`, module `ObjectIdentifier` in `oid.dfy`). They are the
  package's own copy of the ASN.1 OBJECT IDENTIFIER decoder. It reads base-128
  subidentifiers of at most four bytes and packs the first one into two arcs.
  On an empty input it returns no arcs and a syntax error. On any other
  malformed input it returns its preallocated `len(bytes)+1` slice together
  with the error.
  - The specification is the function `DecodeOid`.
  - The method `ParseObjectIdentifier` fills an `array` the way the Go loop
    fills its slice, and is proved equal to `DecodeOid` on every input.
  - `OidProperties` (`oid_properties.dfy`) proves what `DecodeOid` promises:
    - exactly when it succeeds;
    - the shape and number of the arcs;
    - how ASCII keys decode;
    - that it inverts the minimal DER encoding of the arcs.
- The custom extensions of a certificate (module `Cert`, `cert.dfy`).
  `newCertificate` fills a certificate template and adds one critical extension
  per entry of `CertInformation.Names`, keyed by the OBJECT IDENTIFIER the key
  decodes to. `GetCertExtProperty` looks an extension up again by key. Go map
  iteration has no fixed order, so `NewCertificate` returns the order it visited
  the keys in as a ghost out-parameter.
- `PrettyPrintBytes` and `PublicKeyAlgorithm` (module `CertPrint`,
  `certprint.dfy`). `PrettyPrintBytes` prints bytes as lines of upper-case hex
  pairs joined by colons.
- `SplitFunc` and `Split` of `utils/strings.go` (module `Utils`,
  `strings.dfy`). They are proved against `Fields`, a character-by-character
  reference definition of the pieces between separators.

Go strings in the certificate code (`Names` keys and values) are byte
sequences (`seq<byte>`). In `Utils` they are sequences of characters. Go's
`int` never leaves the range the model uses, so unbounded integers are exact.
Go's `/` and `%` truncate toward zero. For the non-negative `len(b)` they
divide, this agrees with Dafny's operators.

## Model

| member | source | states |
|---|---|---|
| Base128.ErrorString | cert/cert.go:26-33 | the text of an error starts with "asn1: ", then a kind letter that tells a structure error from a syntax error, and ends in the error's message |
| Base128.Value | cert/cert.go:44-46 | the value that shifting ret by 7 and or-ing in `b&0x7f` accumulates over the bytes, big-endian, 7 bits per byte; n bytes give a value below 128^n |
| Base128.ParseBase128Int | cert/cert.go:37-54 | success iff the bytes from initOffset hold neither a run of four 0x80-bit bytes followed by more input nor only 0x80-bit bytes up to the end. On success it consumes one subidentifier of 1 to 4 bytes, returns their big-endian 7-bit value below 2^28 and the offset just past it. Otherwise StructuralError "too large" after four bytes, or SyntaxError "truncated" at the end of the input; ret and offset are as the loop left them |
| Base128.CapBound | cert/cert.go:39-46 | a value of at most four bytes lies below 2^28 |
| Base128.EncodeDecode | cert/cert.go:44-49 | every value below 2^28 has a minimal encoding of 1 to 4 bytes that decodes back to it |
| Base128.HighRunPrefix | cert/cert.go:44-46 | a run of continuation bytes that does not start with 0x80 is exactly the minimal prefix of the value it accumulates |
| Base128.DecodeEncode | cert/cert.go:39-50 | the other direction of the round trip: a subidentifier with no leading 0x80 byte re-encodes to the same bytes |
| Base128.LeadingZeroGroup | cert/cert.go:44-46 | a leading 0x80 byte does not change the decoded value |
| ObjectIdentifier.PackFirst | cert/cert.go:69-83 | defines the split of the first subidentifier v into two arcs: (v/40, v%40) below 80, else (2, v-80). Its inverse is proved in OidProperties.PackFirstInverse |
| ObjectIdentifier.DecodeOid | cert/cert.go:59-95 | defines what parseObjectIdentifier returns. The empty input gives no arcs and the "zero length" syntax error. A run of four 0x80-bit bytes followed by more input gives the structural error with the preallocated slice. An input ending inside a subidentifier gives the truncation error with the same slice. Otherwise the result is the arcs and no error |
| ObjectIdentifier.Filled | cert/cert.go:67 | the preallocated slice always holds len(bytes)+1 arcs |
| ObjectIdentifier.Preallocated | cert/cert.go:67 | the slice returned on an error holds len(bytes)+1 arcs |
| ObjectIdentifier.ArcsCount | cert/cert.go:85-93 | a complete input has one arc per byte without the 0x80 bit plus one, between 2 and len+1 |
| ObjectIdentifier.StructuralFailure | cert/cert.go:39-43 | a too-long subidentifier at a group boundary makes the result the structural error with the arcs filled so far, then zeros |
| ObjectIdentifier.TruncatedFailure | cert/cert.go:52 | an input ending inside a subidentifier gives the syntax error with the arcs filled so far, then zeros |
| ObjectIdentifier.FilledFirst | cert/cert.go:77-83 | the first subidentifier writes its two packed arcs into slots 0 and 1 |
| ObjectIdentifier.FilledNext | cert/cert.go:91 | each further subidentifier writes its value into the next free slot, which lies inside the slice |
| ObjectIdentifier.FirstArc | cert/cert.go:73-76 | the first decode either ends the whole decode with the result DecodeOid gives, or yields the two first arcs |
| ObjectIdentifier.NextArc | cert/cert.go:86-91 | one loop turn either ends the decode with the result DecodeOid gives, or writes exactly one more arc |
| ObjectIdentifier.Completed | cert/cert.go:93 | once all input is consumed, the arcs are the filled prefix of the slice |
| ObjectIdentifier.ParseObjectIdentifier | cert/cert.go:59-95 | the returned slice and error equal DecodeOid(bytes) on every input, including the empty one and both error paths |
| OidProperties.DecodeOidSucceeds | cert/cert.go:59-95 | decoding succeeds iff the input is non-empty, its last byte is below 0x80, and it has no four consecutive bytes of 0x80 or more |
| OidProperties.SubIdsBelowCap | cert/cert.go:39-43 | every subidentifier of an input without a long run is below 2^28 |
| OidProperties.ArcsShape | cert/cert.go:69-93 | on success: 1 + (number of bytes below 0x80) arcs, between 2 and len+1; arc 0 is 0, 1 or 2; arc 1 is below 40 unless arc 0 is 2; later arcs are below 2^28 |
| OidProperties.DecodeOidLength | cert/cert.go:60-67 | no arcs for the empty input, 2..len+1 on success, exactly len+1 on any other error |
| OidProperties.AsciiArcs | cert/cert.go:77-92 | a key of bytes below 0x80 decodes to its first byte packed into two arcs, then one arc per remaining byte |
| OidProperties.PackFirstInverse | cert/cert.go:69-83 | the packing 40*a0+a1 of the first subidentifier unpacks to (a0, a1) for a0 <= 2, and a1 < 40 when a0 < 2 |
| OidProperties.EncodeIdsDecode | cert/cert.go:86-92 | the concatenated minimal encodings of values below 2^28 decode to those values, with no long run |
| OidProperties.DecodeEncodedIds | cert/cert.go:73-93 | decoding encoded subidentifiers succeeds with the first one unpacked and the rest unchanged |
| OidProperties.EncodeOidDecode | cert/cert.go:59-95 | round trip: decoding the DER encoding of valid arcs gives back the arcs with no error |
| OidProperties.DecodeOidValid | cert/cert.go:69-93 | every successful decode yields non-negative arcs that are valid for the encoder |
| OidProperties.TruncatedZeros | cert/cert.go:73-76 | three bytes with the 0x80 bit (the UTF-8 encoding of a CJK character) give the truncation error with four zero arcs |
| OidProperties.ZeroBytes | cert/cert.go:77-92 | three zero bytes decode to four zero arcs without error |
| OidProperties.NonMinimalAlias | cert/cert.go:44-46 | the non-minimal 0x80 0x01 decodes like 0x01, to 0.1 |
| Cert.ExtensionFor | cert/cert.go:216-224 | the extension for one Names entry is critical, carries the value's bytes, and has as id whatever decoding the key returned, also when decoding failed |
| Cert.ExtensionIdLength | cert/cert.go:216-224 | that id has 2..len+1 arcs for a well-formed key, no arcs for the empty key, and the len+1 preallocated arcs for any other key that fails to decode |
| Cert.ExtensionsIn | cert/cert.go:215-225 | defines the extensions for the entries visited in a given order, one per entry, in that order |
| Cert.ExtensionsInAppend | cert/cert.go:220-224 | visiting one more key appends exactly its extension |
| Cert.NewCertificate | cert/cert.go:196-227 | for a serial number in the range of `rd.Int63()`, every field of the template as set from the input; no Extensions; ExtraExtensions hold exactly one extension per Names entry, in the order the keys were visited, which is a permutation of the keys, malformed keys included |
| Cert.FirstValue | cert/cert.go:116-124 | the value of the lowest-index extension with the given id, None iff no id equals it |
| Cert.ExtProperty | cert/cert.go:113-127 | a value is found iff the key decodes and some extension's id equals its arcs; it is then the value of the first such extension |
| Cert.GetCertExtProperty | cert/cert.go:113-127 | the index loop returns exactly ExtProperty(cert.Extensions, key): nil with no extensions or an undecodable key |
| Cert.IssuedExtensionFound | cert/cert.go:113-127 | whatever the map order, a Names entry whose key decodes and whose arcs no other extension carries is read back with its own value |
| Cert.MalformedKeyAlias | cert/cert.go:216-224 | the key "中" (E4 B8 AD) fails to decode and still gets an extension, with id 0.0.0.0; it cannot be looked up by itself, but the key 00 00 00 finds it |
| Cert.ServerNamesLookup | cert/cert_test.go:92 | with Names {"abcdefghijklmnopqrstuvwxyz": "p", "p": "bbbbbb"}, looking up "p" on the issued certificate gives "bbbbbb" |
| CertPrint.PublicKeyAlgorithm | cert/cert.go:318-329 | "RSA", "DSA", "ECDSA" for 1, 2, 3 respectively, each iff; "UnknownPublicKeyAlgorithm" iff n is anything else |
| CertPrint.HexDigit | cert/cert.go:365 | a value below 16 is printed as one upper-case hex digit |
| CertPrint.DigitValueOfHexDigit | cert/cert.go:365 | the printed digit reads back to its value |
| CertPrint.HexPair | cert/cert.go:365 | defines how "% X" prints one byte: its high and its low nibble as upper-case hex digits, two characters. CertPrint.PairValueOf proves they read back to the byte |
| CertPrint.PairValueOf | cert/cert.go:365 | the two digits HexPair prints read back to the byte |
| CertPrint.Joined | cert/cert.go:365 | a line of n bytes is 3n-1 characters long |
| CertPrint.ReplaceAll | cert/cert.go:366 | replacing changes exactly the characters equal to the old one, and nothing else |
| CertPrint.SpacesToColons | cert/cert.go:365-366 | replacing the spaces of the "% X" output by colons gives the colon-joined pairs |
| CertPrint.ParseJoined | cert/cert.go:365-366 | a printed line reads back to the bytes it was printed from |
| CertPrint.Groups | cert/cert.go:355-361 | len(b)/L lines when that is positive, plus one if len(b)%L > 0 |
| CertPrint.LineBound | cert/cert.go:356 | the slice bounds of whole line i lie within the input |
| CertPrint.LastLine | cert/cert.go:358-360 | the last partial line starts inside the input and holds len(b)%L bytes |
| CertPrint.QuotientSign | cert/cert.go:355 | a negative line length gives no whole lines |
| CertPrint.PrettyPrintBytes | cert/cert.go:352-370 | one string per group, each the colon-joined upper-case hex pairs of that group |
| CertPrint.IntendedGroups | cert/cert.go:355-361 | the corrected lines, as many as the code produces |
| CertPrint.WholeLineDropsLastByte | cert/cert.go:356 | as written, every whole line is the intended line of L bytes without its last byte |
| CertPrint.LastLineIntact | cert/cert.go:358-360 | the partial last line is as intended, len(b)%L bytes |
| CertPrint.IntendedPrefix | cert/cert.go:355-357 | the first k corrected lines are exactly the first k*L bytes |
| CertPrint.IntendedGroupsFlatten | cert/cert.go:355-361 | with the bound corrected, the lines together are exactly the input, each of 1 to L bytes |
| CertPrint.TwoBytesOneLine | cert/cert.go:356 | for 0xAB 0xCD with L = 2 the code prints "AB" where "AB:CD" is meant |
| Utils.IndexFunc | utils/strings.go:10 | the index of the first character f picks; -1 iff there is none |
| Utils.FieldsOfSeparatorFree | utils/strings.go:16 | a string without separators is a single piece |
| Utils.FieldsCut | utils/strings.go:12-13 | cutting at the first separator gives the piece before it, then the pieces of what follows it |
| Utils.FieldsCount | utils/strings.go:10-16 | there is one piece more than there are separators |
| Utils.FieldsSeparatorFree | utils/strings.go:12-16 | no piece contains a separator |
| Utils.FieldsInterleave | utils/strings.go:12-16 | putting the separators back between the pieces rebuilds the string |
| Utils.FieldsUnique | utils/strings.go:12-16 | the pieces are the only way to write the string as separator-free parts joined by single separators |
| Utils.SplitFunc | utils/strings.go:5-18 | an empty list for the empty string; otherwise exactly the pieces between separators, left to right |
| Utils.Split | utils/strings.go:19-27 | SplitFunc at exactly ';' and ',' |
| Utils.SplitThreeItems | strings_test.go:21-22 | "a;b,c" splits into "a", "b", "c" |
| Utils.SplitTrailingSeparator | strings_test.go:23-25 | "a;中文," splits into three pieces, the last one empty |

## Left out

- `CreateCRT`, `write`, `Parse`, `ParseCrt`, `ParseKey` (cert/cert.go:129-194): RSA key generation, x509 signing, PEM encoding and file I/O are foreign calls. The self-signed choice they make (cert/cert.go:137) is not modelled either.
- `PrintCertInfo` and `PublicKeyPrint` (cert/cert.go:230-315, 333-348): they only write text to standard output. What they compute is `PrettyPrintBytes` and `PublicKeyAlgorithm`, which are modelled.
- Cert.NewCertificate: the serial number comes from the random generator and the validity window from the clock (`rd.Int63()`, `time.Now()`, twenty years on). Both are parameters here. The generator seeding in `init` (cert/cert.go:96-98) is left out.
- Base128.ErrorString: the contract fixes only the prefix "asn1: ", the letter that tells "structure error: " from "syntax error: ", and the message at the end. The full texts are written out only in the function body, and they are used only by the `fmt.Printf` at cert/cert.go:218, which is not modelled.
- Cert.NewCertificate: the `fmt.Printf` of a decode error (cert/cert.go:218) is output only and is not modelled. The extension is appended all the same, as modelled.
- The `x509.Certificate` and `pkix.Name` records hold only the fields the core sets or reads.
- Go's nil and empty slices are both the empty sequence, and a nil `[]byte` result is `None`.
- Utils.SplitFunc: the strings are sequences of characters. Go indexes strings by byte and cuts with `s[i+1:]`, which skips one byte. For the ASCII separators of `Split` the two agree. A predicate that picks a multi-byte character would leave its trailing bytes in the next piece in Go, and that case is not modelled.
- CertPrint.PrettyPrintBytes: a line length of 0 divides by zero in Go. It is excluded by the precondition.
- `http/http.go`, `log/logger.go` and `htpasswd` are network, logging and file plumbing, and are not part of this model.

## Findings

| source | as written | input that shows it | evidently intended | confidence | as-written member | corrected member |
|---|---|---|---|---|---|---|
| cert/cert.go:356 | whole line i is `b[i*lineLength:(i+1)*lineLength-1]`, so it loses its last byte | b = 0xAB 0xCD, lineLength = 2 prints the single line "AB" | `b[i*lineLength:(i+1)*lineLength]`, printing "AB:CD" and every byte once | not executed | CertPrint.TwoBytesOneLine | CertPrint.IntendedGroupsFlatten |

`CertPrint.Groups` and `CertPrint.PrettyPrintBytes` model the code as written.
`CertPrint.WholeLineDropsLastByte` shows that every whole line is one byte short.
`CertPrint.IntendedGroups` is the corrected grouping.
`CertPrint.IntendedGroupsFlatten` proves that its lines hold every input byte exactly once, in order.
