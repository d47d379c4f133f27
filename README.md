# ksv in Dafny

ksv reads a Kubernetes Secret in YAML and rewrites the values of its `data`
section. `encode` base64-encodes every value. `decode` base64-decodes every
value, either in place or, with `-s`, moving each entry into the
`StringData` field.
`add` decodes, sets one key, and encodes again. This project models that
core and proves what the transformations promise.

Three modules:

- `Base64` (base64.dfy) is the codec ksv calls: `EncodeToString` and
  `DecodeString` of Go's `base64.StdEncoding`. It uses the standard alphabet
  of section 4 of RFC 4648 with `=` padding as in section 3.2.
  - Encoding is a total function on bytes.
  - Decoding follows Go's lenient decoder. Line breaks are skipped. The bits
    that padding drops are not checked (section 3.5 of RFC 4648 is not
    enforced).
  - On malformed input, decoding reports an error and still returns the
    bytes of every group of four decoded before the fault.
- `Secrets` (secret.dfy) holds the record (`v1secret`) and the abstract YAML
  document. It states each transformation as a function on values, and
  proves the properties as lemmas about those functions.
- `Ksv` (ksv.dfy) is the code as written. `Secret` is a class whose `data`
  and `stringData` maps are rewritten in place, one key at a time, by the two
  range loops. `SecretFromYaml`, `DecodeFromBase64`, `EncodeToBase64` and
  `Add` are the entry points. Each method is proved equal to the
  corresponding function in `Secrets`.

Values of `data` and `stringData` are byte sequences. Go strings are byte
strings, and ksv converts between `string` and `[]byte` without changing a
byte. A nil `Data` map, which is what a document without a `data` section
gives, is `None` in the record and `dataNil` in the class.

A malformed base64 value does not become the empty string. ksv.go:58 drops
the error that `DecodeString` reports, but keeps the bytes it returns. Those
bytes are everything decoded before the fault: "YWRt!" gives "adm", and
"YWRtaW4=x" gives "admin". The model follows that code
(`Base64.MalformedKeepsPrefix`, `Base64.TrailingGarbageKeepsBytes`,
`Base64.PrefixSurvivesMalformedTail`).

## Model

| member | source | states |
|---|---|---|
| Base64.Encode | ksv.go:74 | the encoding of n bytes is 4·⌈n/3⌉ bytes long |
| Base64.EncodeAlphabet | ksv.go:74 | every byte of an encoding is in A–Z a–z 0–9 + / except the last (3 − n mod 3) mod 3 bytes, which are '=' (at most two) |
| Base64.Decode | ksv.go:58 | `DecodeString`: line breaks are skipped, the bytes of every good group are returned, and ok is false on any fault, including trailing bytes after padding. Its contract: at most three bytes per four input bytes, and ok only when the input without line breaks is whole groups of four |
| Base64.DecodeQuantaBounds | ksv.go:58 | `DecodeQuanta`, the group-by-group decoder behind `Decode`, returns at most three bytes per four it reads, and reports no error only on whole groups of four |
| Base64.DecodeEncode | ksv.go:58 | decoding the encoding of any bytes gives back exactly those bytes, with no error |
| Base64.DecodeQuantaAfterEncode | ksv.go:58 | an encoding followed by arbitrary input decodes to the encoded bytes. After whole groups of three, decoding goes on into what follows. After a padded group it stops, with an error exactly when something follows |
| Base64.PrefixSurvivesMalformedTail | ksv.go:58 | whatever follows an encoding, the decoded bytes still start with the encoded bytes |
| Base64.EncodeCanonical | ksv.go:74 | every encoding is canonical: groups of four, padding only at the end, and the dropped bits zero |
| Base64.CanonicalReencodes | ksv.go:58 | a canonical value decodes without error, and re-encoding the result gives back the value |
| Base64.ReencodeIffCanonical | ksv.go:58 | re-encoding what the decoder returns gives back the input if and only if the input is canonical |
| Base64.NonCanonicalAccepted | ksv.go:58 | the lenient decoder accepts "QR==" as "A", whose encoding is "QQ==" |
| Base64.MalformedKeepsPrefix | ksv.go:58 | "YWRt!" decodes to "adm" with an error, not to nothing |
| Base64.TrailingGarbageKeepsBytes | ksv.go:58 | "YWRtaW4=x" decodes to "admin" with an error |
| Base64.TestDocumentValues | ksv_test.go:8-28 | the test values "admin" and "1f2d1e2e67df" encode to "YWRtaW4=" and "MWYyZDFlMmU2N2Rm", and those decode back |
| Secrets.Serialize | ksv.go:44-50 | the written document parses back to the same record |
| Secrets.FromDocument | ksv.go:33-42 | the record `secretFromYaml` builds: the document's fields, with StringData the empty map from ksv.go:36 when the document has none |
| Secrets.Parse | ksv.go:33-42 | parsing fails exactly on text the YAML library rejects, with `ParseError`. Otherwise the result is the document's record |
| Secrets.EncodeRecord | ksv.go:73-76 | encode keeps the Data keys and leaves StringData and the other four fields alone. Without a Data map, the record is unchanged |
| Secrets.DecodeRecord | ksv.go:57-63 | decode leaves the other four fields alone, and without a Data map the record is unchanged. In place, it keeps the Data keys and StringData. With the move, Data ends empty and StringData's keys are the union of both maps' keys |
| Secrets.AddToDocument | ksv.go:105-131 | add fails exactly when the input is unreadable (`ParseError`) or has no Data map (`NilMapAssignment`). Otherwise the written Data has the old keys plus key, StringData and the other four fields come from the input |
| Secrets.EncodeRecordSpec | ksv.go:73-76 | encode replaces each Data value by its padded base64: 4·⌈n/3⌉ bytes long and canonical |
| Secrets.DecodeInPlaceSpec | ksv.go:57-59 | decode without the move replaces each Data value by its decoded bytes, whatever the error flag and independently of the other keys |
| Secrets.DecodeMoveSpec | ksv.go:57-63 | decode with the move writes every former Data key into StringData with its decoded value, winning over an earlier StringData entry. Other StringData entries stay |
| Secrets.DecodeAfterEncode | ksv.go:57-76 | decoding in place after encoding gives back the whole record, every value byte for byte |
| Secrets.EncodeAfterDecode | ksv.go:57-76 | encoding after decoding gives back a Data value exactly when it was canonical base64 |
| Secrets.AddShape | ksv.go:105-131 | when add succeeds, it writes the encoding of the decoded Data with key set to value (last write wins), and StringData and the other fields of the input |
| Secrets.AddThenDecode | ksv_test.go:106-119 | after add, the key set is the old one plus key. The key decodes to value. Every other key decodes without error to what it decoded to before, and a canonical value is written back unchanged |
| Secrets.AddTwoKeys | ksv.go:105-131 | two adds of distinct keys leave both keys, each decoding to its own value |
| Secrets.TestDocument | ksv_test.go:74-96 | for the test document, encode and decode are inverse. Decoding with the move leaves Data empty and StringData holding both keys with their plain values |
| Ksv.Secret.FromYaml | ksv.go:33-42 | the new object holds the record the document parses to, and StringData defaults to empty |
| Ksv.Secret.ToYaml | ksv.go:44-50 | the written document parses back to the object's record |
| Ksv.Secret.DecodeData | ksv.go:57-64 | the range loop, over any key order, leaves the record equal to the decode transformation of the old record |
| Ksv.Secret.EncodeData | ksv.go:73-76 | the range loop, over any key order, leaves the record equal to the encode transformation of the old record |
| Ksv.SecretFromYaml | ksv.go:33-42 | fails exactly when parsing fails. Otherwise it returns a fresh object holding the parsed record |
| Ksv.DecodeFromBase64 | ksv.go:52-66 | fails exactly when parsing fails: a malformed value is never an error. Otherwise it returns the decoded record |
| Ksv.EncodeToBase64 | ksv.go:68-78 | fails exactly when parsing fails. Otherwise it returns the encoded record |
| Ksv.Add | ksv.go:105-131 | the add pipeline (decode, assign, serialise, parse, encode, serialise) gives the document `Secrets.AddToDocument` describes |

## Left out

- Command-line wiring is not modelled: `main`, `encodeCmd`, `decodeCmd`, the flags and the default action (ksv.go:80-102, 133-185). It is argument parsing and dispatch.
- `readInputOrFail`, `log.Fatal` and every `fmt.Println` are left out. This includes the intermediate document `add` prints at ksv.go:118. Input arrives as a parameter, and errors are returned as a `Result` instead of ending the process.
- The YAML library is abstract. `Input` is either text it rejects or a document with the six fields, and serialising then parsing is the identity on the record. The text format, non-string values and the nil-or-empty distinction for `metadata` are not modelled. `Secrets.Serialize` is total, so `Marshal` never fails.
- The key each field maps to is not modelled. yaml.v2 names an untagged field by its lower-cased name, so `StringData` is read from and written to the key `stringdata`. A Kubernetes `stringData:` section is therefore ignored on parse and leaves the empty map from ksv.go:36. `Document.stringData` stands for whatever the `stringdata` key holds. A null value under `stringdata` is not modelled. It would leave StringData nil, and the move at ksv.go:61 would panic.
- Because of that key mapping, the written document never contains the text "stringData", which ksv_test.go:101 looks for. This concerns the YAML codec, outside the modelled core.
- Go's map iteration order is not fixed. The loops visit keys in an arbitrary order, and the results are proved the same for every order.
- `addKey`, which ksv_test.go:106-119 calls, does not exist in ksv.go. Add is modelled from the body of `addCmd`, and `Secrets.AddThenDecode` states what that test checks.
- The panic of the assignment into a nil Data map (ksv.go:112) is modelled as the `NilMapAssignment` failure, not as a crash.
