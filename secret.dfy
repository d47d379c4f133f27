/**
 * The ksv Secret record and the transformations ksv applies to it, stated as
 * functions on values. The in-place implementation in module Ksv is proved
 * against these functions; the lemmas here say what the transformations
 * promise.
 *
 * Keys and the passthrough fields are strings. Values of Data and StringData
 * are bytes: Go strings are byte strings and ksv converts between string and
 * []byte without changing a byte.
 */
module Secrets {
  import opened Base64

  datatype Option<T> = None | Some(value: T)

  /** The ways a ksv run ends without a document. */
  datatype Error =
    | ParseError        // the YAML library rejected the input
    | NilMapAssignment  // add assigned into a Data map that is nil (a Go runtime panic)

  datatype Result<T> = Success(value: T) | Failure(error: Error)

  /** The fields of a v1secret. data is None when Data is a nil map (the
      document has no data section); StringData is never nil. */
  datatype SecretRecord = SecretRecord(
    apiVersion: string,
    kind: string,
    metadata: map<string, string>,
    secretType: string,
    data: Option<map<string, Bytes>>,
    stringData: map<string, Bytes>)

  /** What the YAML library reads out of, or writes into, a document: the six
      fields, with None for a map section that is absent. */
  datatype Document = Document(
    apiVersion: string,
    kind: string,
    metadata: map<string, string>,
    secretType: string,
    data: Option<map<string, Bytes>>,
    stringData: Option<map<string, Bytes>>)

  /** Raw input text, as the YAML library sees it: either text it rejects, or
      text that reads as a document. */
  datatype Input = Unparsable | Yaml(doc: Document)

  // ---------------------------------------------------------------- parse and serialise

  /** The record secretFromYaml builds from a readable document: StringData
      starts as an empty map, so a document without a stringData section
      still gives a present, empty StringData. */
  function FromDocument(doc: Document): (r: SecretRecord)
    ensures r.apiVersion == doc.apiVersion && r.kind == doc.kind && r.metadata == doc.metadata
    ensures r.secretType == doc.secretType && r.data == doc.data
    ensures doc.stringData.None? ==> r.stringData == map[]
    ensures doc.stringData.Some? ==> r.stringData == doc.stringData.value
  {
    SecretRecord(doc.apiVersion, doc.kind, doc.metadata, doc.secretType, doc.data,
                 if doc.stringData.Some? then doc.stringData.value else map[])
  }

  /** secretFromYaml: the only error is the one the YAML library reports. */
  function Parse(input: Input): (res: Result<SecretRecord>)
    ensures res.Failure? <==> input.Unparsable?
    ensures res.Failure? ==> res.error == ParseError
    ensures res.Success? ==> res.value == FromDocument(input.doc)
  {
    match input
    case Unparsable => Failure(ParseError)
    case Yaml(doc) => Success(FromDocument(doc))
  }

  /** secretToYamlString, as the document it writes. */
  function Serialize(r: SecretRecord): (doc: Document)
    ensures Parse(Yaml(doc)) == Success(r)
  {
    Document(r.apiVersion, r.kind, r.metadata, r.secretType, r.data, Some(r.stringData))
  }

  // ---------------------------------------------------------------- transformations

  /** Every value of m replaced by its base64 encoding. */
  function EncodedValues(m: map<string, Bytes>): map<string, Bytes> {
    map k | k in m :: Encode(m[k])
  }

  /** Every value of m replaced by the bytes the lenient decoder hands back,
      whether or not it reported an error. */
  function DecodedValues(m: map<string, Bytes>): map<string, Bytes> {
    map k | k in m :: Decode(m[k]).bytes
  }

  /** encodeToBase64 after parsing: every Data value is encoded in place. */
  function EncodeRecord(r: SecretRecord): (o: SecretRecord)
    ensures SamePassthrough(o, r) && o.stringData == r.stringData
    ensures r.data.None? ==> o == r
    ensures r.data.Some? ==> o.data.Some? && o.data.value.Keys == r.data.value.Keys
  {
    match r.data
    case None => r
    case Some(d) => r.(data := Some(EncodedValues(d)))
  }

  /** decodeFromBase64 after parsing: every Data value is decoded; with
      toStringData, each decoded entry is written into StringData (replacing
      an entry under the same key) and removed from Data. */
  function DecodeRecord(r: SecretRecord, toStringData: bool): (o: SecretRecord)
    ensures SamePassthrough(o, r)
    ensures r.data.None? ==> o == r
    ensures r.data.Some? && !toStringData ==>
      o.stringData == r.stringData && o.data.Some? && o.data.value.Keys == r.data.value.Keys
    ensures r.data.Some? && toStringData ==>
      o.data == Some(map[]) && o.stringData.Keys == r.stringData.Keys + r.data.value.Keys
  {
    match r.data
    case None => r
    case Some(d) =>
      if toStringData then r.(data := Some(map[]), stringData := r.stringData + DecodedValues(d))
      else r.(data := Some(DecodedValues(d)))
  }

  /** The document addCmd writes last: decode without moving, set Data[key],
      serialise, parse again, encode, serialise. */
  function AddToDocument(input: Input, key: string, value: Bytes): (res: Result<Document>)
    ensures res.Failure? <==> input.Unparsable? || input.doc.data.None?
    ensures input.Unparsable? ==> res == Failure(ParseError)
    ensures input.Yaml? && input.doc.data.None? ==> res == Failure(NilMapAssignment)
    ensures res.Success? ==>
      var doc := input.doc;
      res.value.apiVersion == doc.apiVersion && res.value.kind == doc.kind
      && res.value.metadata == doc.metadata && res.value.secretType == doc.secretType
      && res.value.stringData == Some(FromDocument(doc).stringData)
      && res.value.data.Some? && res.value.data.value.Keys == doc.data.value.Keys + {key}
  {
    match Parse(input)
    case Failure(e) => Failure(e)
    case Success(r) =>
      var decoded := DecodeRecord(r, false);
      match decoded.data
      case None => Failure(NilMapAssignment)
      case Some(d) =>
        match Parse(Yaml(Serialize(decoded.(data := Some(d[key := value])))))
        case Failure(e) => Failure(e)
        case Success(mixed) => Success(Serialize(EncodeRecord(mixed)))
  }

  /** The four fields ksv never looks at. */
  predicate SamePassthrough(a: SecretRecord, b: SecretRecord) {
    a.apiVersion == b.apiVersion && a.kind == b.kind && a.metadata == b.metadata && a.secretType == b.secretType
  }

  // ---------------------------------------------------------------- lemmas

  /** Encode replaces each Data value by its padded standard base64 encoding:
      four bytes per started group of three, and canonical. */
  lemma EncodeRecordSpec(r: SecretRecord)
    ensures r.data.Some? ==> forall k :: k in r.data.value ==>
      var e := EncodeRecord(r).data.value[k];
      e == Encode(r.data.value[k]) && |e| == 4 * ((|r.data.value[k]| + 2) / 3) && Canonical(e)
  {
    if r.data.Some? {
      forall k | k in r.data.value
        ensures Canonical(EncodeRecord(r).data.value[k])
      {
        EncodeCanonical(r.data.value[k]);
      }
    }
  }

  /** Decode without the move replaces each Data value by its decoded bytes,
      independently of the others: a malformed value affects only its own
      key. */
  lemma DecodeInPlaceSpec(r: SecretRecord)
    ensures r.data.Some? ==> forall k :: k in r.data.value ==>
      DecodeRecord(r, false).data.value[k] == Decode(r.data.value[k]).bytes
  {
  }

  /** Decode with the move writes every former Data key into StringData with
      its decoded value (over any earlier StringData entry under that key) and
      keeps every other StringData entry. */
  lemma DecodeMoveSpec(r: SecretRecord)
    requires r.data.Some?
    ensures var o := DecodeRecord(r, true);
      (forall k :: k in r.data.value ==> o.stringData[k] == Decode(r.data.value[k]).bytes)
      && (forall k :: k in r.stringData && k !in r.data.value ==> o.stringData[k] == r.stringData[k])
  {
  }

  /** Round trip: decoding, without the move, a record just encoded gives the
      record back, every Data value byte for byte. */
  lemma DecodeAfterEncode(r: SecretRecord)
    ensures DecodeRecord(EncodeRecord(r), false) == r
  {
    if r.data.Some? {
      var d := r.data.value;
      var back := DecodedValues(EncodedValues(d));
      forall k | k in d
        ensures back[k] == d[k]
      {
        DecodeEncode(d[k]);
      }
      assert back == d;
    }
  }

  /** Encoding after decoding gives back exactly the Data values that were
      canonical base64; any other value comes back as the canonical encoding
      of what the lenient decoder made of it. */
  lemma EncodeAfterDecode(r: SecretRecord)
    requires r.data.Some?
    ensures var o := EncodeRecord(DecodeRecord(r, false));
      o.data.Some? && o.data.value.Keys == r.data.value.Keys
      && forall k :: k in r.data.value ==>
           (o.data.value[k] == r.data.value[k] <==> Canonical(r.data.value[k]))
  {
    var d := r.data.value;
    var o := EncodeRecord(DecodeRecord(r, false));
    forall k | k in d
      ensures o.data.value[k] == d[k] <==> Canonical(d[k])
    {
      ReencodeIffCanonical(d[k]);
    }
  }

  /** add: the written Data is the encoding of the decoded Data with key set
      to value (last write wins). */
  lemma AddShape(input: Input, key: string, value: Bytes)
    ensures input.Yaml? && input.doc.data.Some? ==>
      var r := FromDocument(input.doc);
      AddToDocument(input, key, value)
        == Success(Serialize(r.(data := Some(EncodedValues(DecodedValues(r.data.value)[key := value])))))
  {
  }

  /** add, read back: decoding the written Data gives value at key, and every
      other key decodes to what it decoded to before; a key whose value was
      canonical base64 is written back unchanged. */
  lemma AddThenDecode(input: Input, key: string, value: Bytes)
    requires input.Yaml? && input.doc.data.Some?
    ensures AddToDocument(input, key, value).Success?
    ensures var out := AddToDocument(input, key, value).value;
      var d := input.doc.data.value;
      out.data.Some? && out.data.value.Keys == d.Keys + {key}
      && Decode(out.data.value[key]) == Decoded(value, true)
      && (forall k :: k in d && k != key ==> Decode(out.data.value[k]) == Decoded(Decode(d[k]).bytes, true))
      && (forall k :: k in d && k != key && Canonical(d[k]) ==> out.data.value[k] == d[k])
  {
    var d := input.doc.data.value;
    var out := AddToDocument(input, key, value).value;
    DecodeEncode(value);
    forall k | k in d && k != key
      ensures Decode(out.data.value[k]) == Decoded(Decode(d[k]).bytes, true)
      ensures Canonical(d[k]) ==> out.data.value[k] == d[k]
    {
      DecodeEncode(Decode(d[k]).bytes);
      ReencodeIffCanonical(d[k]);
    }
  }

  /** Adding two distinct keys one after the other leaves both in the
      document, each decoding to its own value. */
  lemma AddTwoKeys(input: Input, k1: string, v1: Bytes, k2: string, v2: Bytes)
    requires input.Yaml? && input.doc.data.Some? && k1 != k2
    ensures AddToDocument(input, k1, v1).Success?
    ensures var once := AddToDocument(input, k1, v1).value;
      once.data.Some? && AddToDocument(Yaml(once), k2, v2).Success?
      && var twice := AddToDocument(Yaml(once), k2, v2).value;
         twice.data.Some? && k1 in twice.data.value && k2 in twice.data.value
         && Decode(twice.data.value[k1]) == Decoded(v1, true)
         && Decode(twice.data.value[k2]) == Decoded(v2, true)
  {
    AddThenDecode(input, k1, v1);
    var once := AddToDocument(input, k1, v1).value;
    AddThenDecode(Yaml(once), k2, v2);
    var twice := AddToDocument(Yaml(once), k2, v2).value;
    DecodeEncode(v1);
    assert Decode(twice.data.value[k1]) == Decoded(Decode(once.data.value[k1]).bytes, true);
  }

  /** The test document's Data, both ways: encoding the plain values gives
      the base64 values, and decoding those in place gives the plain values
      back; with the move, Data ends empty and StringData holds both keys
      with their plain values. */
  lemma TestDocument(r: SecretRecord)
    requires r.stringData == map[]
    ensures var plain := map["username" := User, "password" := Password];
      var encoded := map["username" := UserBase64, "password" := PasswordBase64];
      EncodedValues(plain) == encoded && DecodedValues(encoded) == plain
      && DecodeRecord(r.(data := Some(encoded)), true) == r.(data := Some(map[]), stringData := plain)
  {
    TestDocumentValues();
    EncodeTwoKeys("username", User, "password", Password);
    DecodeTwoKeys("username", UserBase64, "password", PasswordBase64);
    MoveTwoKeys(r, "username", User, UserBase64, "password", Password, PasswordBase64);
  }

  /** Two values and their encodings, under two keys. */
  lemma EncodeTwoKeys(k1: string, p1: Bytes, k2: string, p2: Bytes)
    requires k1 != k2
    ensures EncodedValues(map[k1 := p1, k2 := p2]) == map[k1 := Encode(p1), k2 := Encode(p2)]
  {
    var m := EncodedValues(map[k1 := p1, k2 := p2]);
    assert m.Keys == {k1, k2};
  }

  /** Two encodings and their decodings, under two keys. */
  lemma DecodeTwoKeys(k1: string, e1: Bytes, k2: string, e2: Bytes)
    requires k1 != k2
    ensures DecodedValues(map[k1 := e1, k2 := e2]) == map[k1 := Decode(e1).bytes, k2 := Decode(e2).bytes]
  {
    var m := DecodedValues(map[k1 := e1, k2 := e2]);
    assert m.Keys == {k1, k2};
  }

  lemma MoveTwoKeys(r: SecretRecord, k1: string, p1: Bytes, e1: Bytes, k2: string, p2: Bytes, e2: Bytes)
    requires r.stringData == map[]
    requires DecodedValues(map[k1 := e1, k2 := e2]) == map[k1 := p1, k2 := p2]
    ensures DecodeRecord(r.(data := Some(map[k1 := e1, k2 := e2])), true)
      == r.(data := Some(map[]), stringData := map[k1 := p1, k2 := p2])
  {
    assert map[] + map[k1 := p1, k2 := p2] == map[k1 := p1, k2 := p2];
  }
}
