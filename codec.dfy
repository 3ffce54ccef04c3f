/**
  The serde codec shared by the three preference maps. A document is the
  sequence of (key, serialised value) pairs of a serde map, in the order the
  format holds them; per-value serialisation is the host's and is left
  uninterpreted (`Behaviour.encode` / `Behaviour.decode`).
 */
module Codec {
  import opened Reflection
  import opened KeyOrder
  import opened EffectivePath

  datatype Entry = Entry(key: string, encoded: Encoded)

  type Document = seq<Entry>

  function Keys(doc: Document): (r: seq<string>)
    ensures |r| == |doc|
    ensures forall i :: 0 <= i < |doc| ==> r[i] == doc[i].key
  {
    seq(|doc|, i requires 0 <= i < |doc| => doc[i].key)
  }

  // ---------------------------------------------------------------------
  // Serialisation

  /** The entries of `values` for `keys`, in that order, or the first
      serializer error. Defined on the last key so that it follows the
      serialising loop. */
  function EncodeEntries(b: Behaviour, values: map<string, Value>, keys: seq<string>): (r: Outcome<Document>)
    requires forall k :: k in keys ==> k in values
    ensures !r.Panicked?
    ensures r.Failed? ==> r.error == SerializationError
    ensures r.Done? <==> forall i :: 0 <= i < |keys| ==> b.encode(values[keys[i]]).Some?
    ensures r.Done? ==> |r.value| == |keys|
    ensures r.Done? ==> forall i :: 0 <= i < |keys| ==>
      r.value[i] == Entry(keys[i], b.encode(values[keys[i]]).value)
    decreases |keys|
  {
    if keys == [] then Done([])
    else
      var prefix := keys[..|keys| - 1];
      var last := keys[|keys| - 1];
      assert forall i :: 0 <= i < |prefix| ==> prefix[i] == keys[i];
      match EncodeEntries(b, values, prefix)
      case Done(doc) =>
        (match b.encode(values[last])
         case Some(e) => Done(doc + [Entry(last, e)])
         case None => Failed(SerializationError))
      case Failed(err) => Failed(err)
      case Panicked(p) => Panicked(p)
  }

  /** `Serialize`: one entry per stored value, in ascending key order, under
      the stored key verbatim; any serializer error fails the whole map. */
  function EncodeMap(b: Behaviour, values: map<string, Value>): (r: Outcome<Document>)
    ensures !r.Panicked?
    ensures r.Failed? ==> r.error == SerializationError
    ensures r.Done? ==> |r.value| == |values|
    ensures r.Done? ==> Keys(r.value) == SortedKeys(values.Keys)
    ensures r.Done? ==> forall i :: 0 <= i < |r.value| ==>
      r.value[i].key in values && b.encode(values[r.value[i].key]) == Some(r.value[i].encoded)
  {
    EncodeEntries(b, values, SortedKeys(values.Keys))
  }

  /** Serialisation fails exactly when some stored value cannot be
      serialised. */
  lemma EncodeMapFailsIff(b: Behaviour, values: map<string, Value>)
    ensures EncodeMap(b, values).Failed? <==> exists k :: k in values && b.encode(values[k]).None?
  {
    var keys := SortedKeys(values.Keys);
    if k :| k in values && b.encode(values[k]).None? {
      var i :| 0 <= i < |keys| && keys[i] == k;
    }
  }

  /** The serialising loop over the map's entries. */
  method SerializeMap(b: Behaviour, values: map<string, Value>) returns (r: Outcome<Document>)
    ensures r == EncodeMap(b, values)
  {
    var keys := SortedKeys(values.Keys);
    var doc: Document := [];
    var i := 0;
    while i < |keys|
      invariant 0 <= i <= |keys|
      invariant EncodeEntries(b, values, keys[..i]) == Done(doc)
    {
      EncodeStep(b, values, keys, i);
      var encoded := b.encode(values[keys[i]]);
      if encoded.None? {
        EncodeFailurePersists(b, values, keys, i + 1);
        return Failed(SerializationError);
      }
      doc := doc + [Entry(keys[i], encoded.value)];
      i := i + 1;
    }
    assert keys[..i] == keys;
    return Done(doc);
  }

  lemma EncodeStep(b: Behaviour, values: map<string, Value>, keys: seq<string>, i: nat)
    requires forall k :: k in keys ==> k in values
    requires i < |keys|
    ensures forall k :: k in keys[..i] ==> k in values
    ensures EncodeEntries(b, values, keys[..i + 1]) ==
      match EncodeEntries(b, values, keys[..i])
      case Done(doc) =>
        (match b.encode(values[keys[i]])
         case Some(e) => Done(doc + [Entry(keys[i], e)])
         case None => Failed(SerializationError))
      case Failed(err) => Failed(err)
      case Panicked(p) => Panicked(p)
  {
    assert keys[..i + 1][..i] == keys[..i];
  }

  lemma {:induction false} EncodeFailurePersists(b: Behaviour, values: map<string, Value>, keys: seq<string>, n: nat)
    requires forall k :: k in keys ==> k in values
    requires n <= |keys|
    requires EncodeEntries(b, values, keys[..n]).Failed?
    ensures EncodeEntries(b, values, keys).Failed?
  {
  }

  // ---------------------------------------------------------------------
  // Deserialisation

  /** The error an entry fails with, if any: its key must resolve as a
      short or a full path, and its value must deserialise as that type. */
  function DecodeEntry(reg: Registry, b: Behaviour, e: Entry): (r: Outcome<Value>)
    ensures !r.Panicked?
    ensures ResolveKey(reg, e.key).None? <==> r == Failed(UnregisteredType(e.key))
    ensures r.Done? <==> ResolveKey(reg, e.key).Some? && b.decode(ResolveKey(reg, e.key).value, e.encoded).Some?
    ensures r.Done? ==> r.value == b.decode(ResolveKey(reg, e.key).value, e.encoded).value
    ensures r.Failed? && ResolveKey(reg, e.key).Some? ==> r.error == DeserializationError
  {
    match ResolveKey(reg, e.key)
    case None => Failed(UnregisteredType(e.key))
    case Some(registration) =>
      match b.decode(registration, e.encoded)
      case None => Failed(DeserializationError)
      case Some(v) => Done(v)
  }

  /** `visit_map`: every entry decoded and inserted under its document key;
      the first entry that fails fails the whole document. Defined on the
      last entry so that it follows the decoding loop. */
  function DecodeEntries(reg: Registry, b: Behaviour, doc: Document): (r: Outcome<map<string, Value>>)
    ensures !r.Panicked?
    ensures r.Failed? ==> r.error == DeserializationError || r.error.UnregisteredType?
    ensures r.Done? ==> |r.value| <= |doc|
    decreases |doc|
  {
    if doc == [] then Done(map[])
    else
      var last := doc[|doc| - 1];
      match DecodeEntries(reg, b, doc[..|doc| - 1])
      case Done(values) =>
        (match DecodeEntry(reg, b, last)
         case Done(v) => Done(values[last.key := v])
         case Failed(err) => Failed(err)
         case Panicked(p) => Panicked(p))
      case Failed(err) => Failed(err)
      case Panicked(p) => Panicked(p)
  }

  /** The document decodes exactly when each of its entries does. */
  lemma {:induction false} DecodeSucceedsIff(reg: Registry, b: Behaviour, doc: Document)
    ensures DecodeEntries(reg, b, doc).Done? <==> forall i :: 0 <= i < |doc| ==> DecodeEntry(reg, b, doc[i]).Done?
    decreases |doc|
  {
    if doc != [] {
      var prefix := doc[..|doc| - 1];
      DecodeSucceedsIff(reg, b, prefix);
      assert forall i :: 0 <= i < |prefix| ==> prefix[i] == doc[i];
    }
  }

  /** A failed decode reports the error of the first entry that fails. */
  lemma {:induction false} DecodeFailsAtFirstBadEntry(reg: Registry, b: Behaviour, doc: Document)
    requires DecodeEntries(reg, b, doc).Failed?
    ensures exists i :: (0 <= i < |doc| && DecodeEntry(reg, b, doc[i]) == Failed(DecodeEntries(reg, b, doc).error) &&
      (forall j :: 0 <= j < i ==> DecodeEntry(reg, b, doc[j]).Done?))
    decreases |doc|
  {
    var prefix := doc[..|doc| - 1];
    assert forall i :: 0 <= i < |prefix| ==> prefix[i] == doc[i];
    if DecodeEntries(reg, b, prefix).Failed? {
      DecodeFailsAtFirstBadEntry(reg, b, prefix);
      var i :| 0 <= i < |prefix| && DecodeEntry(reg, b, prefix[i]) == Failed(DecodeEntries(reg, b, prefix).error) &&
        (forall j :: 0 <= j < i ==> DecodeEntry(reg, b, prefix[j]).Done?);
      assert DecodeEntry(reg, b, doc[i]) == Failed(DecodeEntries(reg, b, doc).error);
    } else {
      DecodeSucceedsIff(reg, b, prefix);
      assert DecodeEntry(reg, b, doc[|doc| - 1]) == Failed(DecodeEntries(reg, b, doc).error);
    }
  }

  /** A decoded document holds exactly the keys of the document. */
  lemma {:induction false} DecodedKeys(reg: Registry, b: Behaviour, doc: Document)
    requires DecodeEntries(reg, b, doc).Done?
    ensures forall k :: k in DecodeEntries(reg, b, doc).value <==> k in Keys(doc)
    decreases |doc|
  {
    if doc != [] {
      var prefix := doc[..|doc| - 1];
      var last := doc[|doc| - 1];
      DecodeStepKeys(reg, b, doc);
      DecodedKeys(reg, b, prefix);
      KeysOfStep(doc);
    }
  }

  /** The keys of a document are those of all but its last entry, and the
      last entry's key. */
  lemma KeysOfStep(doc: Document)
    requires doc != []
    ensures forall k :: k in Keys(doc) <==> k in Keys(doc[..|doc| - 1]) || k == doc[|doc| - 1].key
  {
    assert Keys(doc) == Keys(doc[..|doc| - 1]) + [doc[|doc| - 1].key];
  }

  /** One step of the decoding loop adds the key of the last entry. */
  lemma DecodeStepKeys(reg: Registry, b: Behaviour, doc: Document)
    requires doc != [] && DecodeEntries(reg, b, doc).Done?
    ensures DecodeEntries(reg, b, doc[..|doc| - 1]).Done?
    ensures DecodeEntries(reg, b, doc).value.Keys ==
      DecodeEntries(reg, b, doc[..|doc| - 1]).value.Keys + {doc[|doc| - 1].key}
  {
  }

  /** Under a repeated key the value of its last entry is kept. */
  lemma {:induction false} DecodedLastEntryWins(reg: Registry, b: Behaviour, doc: Document, i: nat)
    requires DecodeEntries(reg, b, doc).Done?
    requires i < |doc| && forall j :: i < j < |doc| ==> doc[j].key != doc[i].key
    ensures doc[i].key in DecodeEntries(reg, b, doc).value
    ensures DecodeEntry(reg, b, doc[i]) == Done(DecodeEntries(reg, b, doc).value[doc[i].key])
    decreases |doc|
  {
    var prefix := doc[..|doc| - 1];
    if i < |doc| - 1 {
      assert prefix[i] == doc[i];
      DecodedLastEntryWins(reg, b, prefix, i);
    }
  }

  /** The `while let` loop of `visit_map`. */
  method VisitMap(reg: Registry, b: Behaviour, doc: Document) returns (r: Outcome<map<string, Value>>)
    ensures r == DecodeEntries(reg, b, doc)
  {
    var values: map<string, Value> := map[];
    var i := 0;
    while i < |doc|
      invariant 0 <= i <= |doc|
      invariant DecodeEntries(reg, b, doc[..i]) == Done(values)
    {
      assert doc[..i + 1][..i] == doc[..i];
      assert doc[..i + 1][i] == doc[i];
      var registration := ResolveKey(reg, doc[i].key);
      if registration.None? {
        DecodeFailurePersists(reg, b, doc, i + 1);
        return Failed(UnregisteredType(doc[i].key));
      }
      var value := b.decode(registration.value, doc[i].encoded);
      if value.None? {
        DecodeFailurePersists(reg, b, doc, i + 1);
        return Failed(DeserializationError);
      }
      values := values[doc[i].key := value.value];
      i := i + 1;
    }
    assert doc[..i] == doc;
    return Done(values);
  }

  /** A failure in a prefix of the document is the failure of the whole
      document: decoding stops at the first bad entry. */
  lemma {:induction false} DecodeFailurePersists(reg: Registry, b: Behaviour, doc: Document, n: nat)
    requires n <= |doc|
    requires DecodeEntries(reg, b, doc[..n]).Failed?
    ensures DecodeEntries(reg, b, doc) == DecodeEntries(reg, b, doc[..n])
    decreases |doc| - n
  {
    if n < |doc| {
      var m := |doc| - 1;
      assert doc[..m][..n] == doc[..n];
      DecodeFailurePersists(reg, b, doc[..m], n);
      assert DecodeEntries(reg, b, doc[..m]).Failed?;
    } else {
      assert doc[..n] == doc;
    }
  }

  /** An unknown key anywhere in the document fails the whole decode; no
      entry is silently dropped. */
  lemma UnknownKeyFailsDecode(reg: Registry, b: Behaviour, doc: Document, i: nat)
    requires i < |doc| && ResolveKey(reg, doc[i].key).None?
    ensures DecodeEntries(reg, b, doc).Failed?
  {
    assert !DecodeEntry(reg, b, doc[i]).Done?;
    DecodeSucceedsIff(reg, b, doc);
  }

  // ---------------------------------------------------------------------
  // Round trip

  /** Every stored value can be serialised, its key resolves to a
      registration, and the host's deserializer reads back under that
      registration what its serializer wrote. */
  predicate ValuesRoundTrip(reg: Registry, b: Behaviour, values: map<string, Value>) {
    forall k :: k in values ==>
      && b.encode(values[k]).Some?
      && ResolveKey(reg, k).Some?
      && b.decode(ResolveKey(reg, k).value, b.encode(values[k]).value) == Some(values[k])
  }

  /** Every stored value can be serialised, its key resolves to a
      registration, and the host's deserializer reads `decoded[k]` back
      under that registration: the same value, or another representation
      of it. */
  predicate DecodesTo(reg: Registry, b: Behaviour, values: map<string, Value>, decoded: map<string, Value>) {
    && decoded.Keys == values.Keys
    && forall k :: k in values ==>
      && b.encode(values[k]).Some?
      && ResolveKey(reg, k).Some?
      && b.decode(ResolveKey(reg, k).value, b.encode(values[k]).value) == Some(decoded[k])
  }

  /** Writing a map and reading it back gives, key by key, what the host's
      deserializer reads for each written value. */
  lemma {:induction false} EncodeDecodeYields(reg: Registry, b: Behaviour, values: map<string, Value>, decoded: map<string, Value>)
    requires DecodesTo(reg, b, values, decoded)
    ensures EncodeMap(b, values).Done?
    ensures DecodeEntries(reg, b, EncodeMap(b, values).value) == Done(decoded)
  {
    EncodeMapFailsIff(b, values);
    var doc := EncodeMap(b, values).value;
    EncodedEntriesDecode(reg, b, values, decoded, doc);
    DecodeSucceedsIff(reg, b, doc);
    var r := DecodeEntries(reg, b, doc).value;
    DecodedKeys(reg, b, doc);
    forall k | k in decoded ensures k in r && r[k] == decoded[k] {
      var i :| 0 <= i < |doc| && Keys(doc)[i] == k;
      SortedKeysAreUnique(doc, i);
      DecodedLastEntryWins(reg, b, doc, i);
    }
    SameMaps(r, decoded);
  }

  /** Writing a map and reading it back gives the same map. */
  lemma {:induction false} EncodeDecodeRoundTrip(reg: Registry, b: Behaviour, values: map<string, Value>)
    requires ValuesRoundTrip(reg, b, values)
    ensures EncodeMap(b, values).Done?
    ensures DecodeEntries(reg, b, EncodeMap(b, values).value) == Done(values)
  {
    assert DecodesTo(reg, b, values, values);
    EncodeDecodeYields(reg, b, values, values);
  }

  lemma SameMaps(m1: map<string, Value>, m2: map<string, Value>)
    requires forall k :: k in m2 ==> k in m1 && m1[k] == m2[k]
    requires forall k :: k in m1 ==> k in m2
    ensures m1 == m2
  {
  }

  lemma EncodedEntriesDecode(reg: Registry, b: Behaviour, values: map<string, Value>, decoded: map<string, Value>, doc: Document)
    requires EncodeMap(b, values) == Done(doc)
    requires DecodesTo(reg, b, values, decoded)
    ensures forall i :: 0 <= i < |doc| ==> doc[i].key in decoded && DecodeEntry(reg, b, doc[i]) == Done(decoded[doc[i].key])
  {
  }

  lemma SortedKeysAreUnique(doc: Document, i: nat)
    requires StrictlySorted(Keys(doc)) && i < |doc|
    ensures forall j :: i < j < |doc| ==> doc[j].key != doc[i].key
  {
    var keys := Keys(doc);
    forall j | i < j < |doc| ensures doc[j].key != doc[i].key {
      assert Less(keys[i], keys[j]);
      if keys[i] == keys[j] {
        LessIrreflexive(keys[i]);
      }
    }
  }
}
