/**
 * ksv's transformation pipeline as the Go code runs it: a v1secret object
 * whose Data and StringData maps are rewritten in place, key by key, in the
 * order a Go map range happens to produce (here: any order), and the three
 * entry points that parse a document, transform it and hand it back.
 *
 * Reading standard input, printing and exiting are not part of this model;
 * the YAML text is the abstract Input/Document of module Secrets.
 */
module Ksv {
  import opened Base64
  import opened Secrets

  /** The v1secret struct. dataNil stands for a nil Data map. */
  class Secret {
    var apiVersion: string
    var kind: string
    var metadata: map<string, string>
    var secretType: string
    var data: map<string, Bytes>
    var dataNil: bool
    var stringData: map<string, Bytes>

    /** A nil map holds no entries. */
    ghost predicate Valid()
      reads this
    {
      dataNil ==> data == map[]
    }

    /** The object's fields as a value. */
    function Record(): SecretRecord
      reads this
    {
      SecretRecord(apiVersion, kind, metadata, secretType,
                   if dataNil then None else Some(data), stringData)
    }

    /** secretFromYaml once Unmarshal has succeeded: StringData is made empty
        first, then the document's fields are filled in. */
    constructor FromYaml(doc: Document)
      ensures Valid() && Record() == FromDocument(doc)
    {
      stringData := map[];
      apiVersion := doc.apiVersion;
      kind := doc.kind;
      metadata := doc.metadata;
      secretType := doc.secretType;
      match doc.data {
        case None =>
          data, dataNil := map[], true;
        case Some(d) =>
          data, dataNil := d, false;
      }
      if doc.stringData.Some? {
        stringData := doc.stringData.value;
      }
    }

    /** secretToYamlString: the document that parses back to this record. */
    function ToYaml(): (doc: Document)
      reads this
      ensures Parse(Yaml(doc)) == Success(Record())
    {
      Serialize(Record())
    }

    /** The range loop of decodeFromBase64: each value is decoded, its error
        ignored, and the bytes written back under the same key; with
        toStringData they are written into StringData and the key deleted
        from Data. */
    method DecodeData(toStringData: bool)
      requires Valid()
      modifies this`data, this`stringData
      ensures Valid()
      ensures Record() == DecodeRecord(old(Record()), toStringData)
    {
      ghost var d0, sd0, dec := data, stringData, DecodedValues(data);
      var pending := data.Keys;
      StepStart(d0, dec);
      while pending != {}
        invariant pending <= d0.Keys
        invariant !toStringData ==> data == d0 + (dec - pending) && stringData == sd0
        invariant toStringData ==> data == d0 - (d0.Keys - pending) && stringData == sd0 + (dec - pending)
        decreases pending
      {
        var k :| k in pending;
        StepUpdate(d0, dec, pending, k);
        if toStringData {
          StepMove(d0, sd0, dec, pending, k);
        }
        var v := data[k];
        var decoded := Decode(v).bytes;
        data := data[k := decoded];
        if toStringData {
          stringData := stringData[k := decoded];
          data := data - {k};
        }
        pending := pending - {k};
      }
      StepDone(d0, dec);
    }

    /** The range loop of encodeToBase64: each value is replaced by its
        base64 encoding. */
    method EncodeData()
      requires Valid()
      modifies this`data
      ensures Valid()
      ensures Record() == EncodeRecord(old(Record()))
    {
      ghost var d0, enc := data, EncodedValues(data);
      var pending := data.Keys;
      StepStart(d0, enc);
      while pending != {}
        invariant pending <= d0.Keys
        invariant data == d0 + (enc - pending)
        decreases pending
      {
        var k :| k in pending;
        StepUpdate(d0, enc, pending, k);
        var v := data[k];
        data := data[k := Encode(v)];
        pending := pending - {k};
      }
      StepDone(d0, enc);
    }
  }

  /* Map facts behind the range loops. d0 is Data before the loop, f the
     map of finished values (decoded or encoded), pending the keys not yet
     visited. */

  lemma StepStart<K, V>(d0: map<K, V>, f: map<K, V>)
    requires f.Keys == d0.Keys
    ensures d0 + (f - d0.Keys) == d0 && f - d0.Keys == map[] && d0 - (d0.Keys - d0.Keys) == d0
  {
    assert f - d0.Keys == map[];
    assert d0 - (d0.Keys - d0.Keys) == d0;
  }

  lemma StepUpdate<K, V>(d0: map<K, V>, f: map<K, V>, pending: set<K>, k: K)
    requires f.Keys == d0.Keys && k in pending && pending <= d0.Keys
    ensures (d0 + (f - pending))[k] == d0[k]
    ensures (d0 - (d0.Keys - pending))[k] == d0[k]
    ensures (d0 + (f - pending))[k := f[k]] == d0 + (f - (pending - {k}))
  {
    assert (d0 + (f - pending))[k := f[k]] == d0 + (f - (pending - {k}));
  }

  lemma StepMove<K, V>(d0: map<K, V>, sd0: map<K, V>, f: map<K, V>, pending: set<K>, k: K)
    requires f.Keys == d0.Keys && k in pending && pending <= d0.Keys
    ensures (d0 - (d0.Keys - pending))[k := f[k]] - {k} == d0 - (d0.Keys - (pending - {k}))
    ensures (sd0 + (f - pending))[k := f[k]] == sd0 + (f - (pending - {k}))
  {
    assert (d0 - (d0.Keys - pending))[k := f[k]] - {k} == d0 - (d0.Keys - (pending - {k}));
    assert (sd0 + (f - pending))[k := f[k]] == sd0 + (f - (pending - {k}));
  }

  lemma StepDone<K, V>(d0: map<K, V>, f: map<K, V>)
    requires f.Keys == d0.Keys
    ensures d0 + (f - {}) == f && f - {} == f && d0 - (d0.Keys - {}) == map[]
  {
    assert d0 + (f - {}) == f;
    assert d0 - (d0.Keys - {}) == map[];
  }

  /** secretFromYaml: the YAML library's verdict decides; a readable document
      gives a fresh Secret holding its record. */
  method SecretFromYaml(input: Input) returns (r: Result<Secret>)
    ensures r.Failure? <==> Parse(input).Failure?
    ensures r.Failure? ==> r.error == Parse(input).error
    ensures r.Success? ==> fresh(r.value) && r.value.Valid() && r.value.Record() == Parse(input).value
  {
    if input.Unparsable? {
      return Failure(ParseError);
    }
    var s := new Secret.FromYaml(input.doc);
    r := Success(s);
  }

  /** decodeFromBase64: parse, then decode every Data value. A malformed value
      never produces an error: the parse is the only way to fail. */
  method DecodeFromBase64(input: Input, toStringData: bool) returns (r: Result<Secret>)
    ensures r.Failure? <==> Parse(input).Failure?
    ensures r.Failure? ==> r.error == Parse(input).error
    ensures r.Success? ==>
      fresh(r.value) && r.value.Valid() && r.value.Record() == DecodeRecord(Parse(input).value, toStringData)
  {
    var parsed := SecretFromYaml(input);
    if parsed.Failure? {
      return Failure(parsed.error);
    }
    var s := parsed.value;
    s.DecodeData(toStringData);
    return Success(s);
  }

  /** encodeToBase64: parse, then encode every Data value. */
  method EncodeToBase64(input: Input) returns (r: Result<Secret>)
    ensures r.Failure? <==> Parse(input).Failure?
    ensures r.Failure? ==> r.error == Parse(input).error
    ensures r.Success? ==>
      fresh(r.value) && r.value.Valid() && r.value.Record() == EncodeRecord(Parse(input).value)
  {
    var parsed := SecretFromYaml(input);
    if parsed.Failure? {
      return Failure(parsed.error);
    }
    var s := parsed.value;
    s.EncodeData();
    return Success(s);
  }

  /** The body of addCmd: decode in place, set Data[key] (which panics on a
      nil map), serialise, parse and encode that text again, and serialise the
      result. */
  method Add(input: Input, key: string, value: Bytes) returns (r: Result<Document>)
    ensures r == AddToDocument(input, key, value)
  {
    var decoded := DecodeFromBase64(input, false);
    if decoded.Failure? {
      return Failure(decoded.error);
    }
    var s := decoded.value;
    if s.dataNil {
      return Failure(NilMapAssignment);
    }
    s.data := s.data[key := value];
    var mixed := s.ToYaml();
    var encoded := EncodeToBase64(Yaml(mixed));
    if encoded.Failure? {
      // a serialised record always parses again
      return Failure(ParseError);
    }
    r := Success(encoded.value.ToYaml());
  }
}
