/** The canonical bytes `hash_json_value` feeds to SHA-256.  The hasher is the byte
    string fed to it so far. */
module JsonFingerprint {
  import opened Bytes

  /** `serde_json::Value`; strings as UTF-8 bytes, numbers by their printed text. */
  datatype Json =
    | Null
    | Bool(value: bool)
    | Number(text: Bytes)
    | String(bytes: Bytes)
    | Array(items: seq<Json>)
    | Object(fields: map<Bytes, Json>)

  const TAG_NULL: Bytes := [0x6e, 0x75, 0x6c, 0x6c]
  const TAG_BOOL: Bytes := [0x62, 0x6f, 0x6f, 0x6c]
  const TAG_NUMBER: Bytes := [0x6e, 0x75, 0x6d, 0x62, 0x65, 0x72]
  const TAG_STRING: Bytes := [0x73, 0x74, 0x72, 0x69, 0x6e, 0x67]
  const TAG_ARRAY: Bytes := [0x61, 0x72, 0x72, 0x61, 0x79]
  const TAG_OBJECT: Bytes := [0x6f, 0x62, 0x6a, 0x65, 0x63, 0x74]

  function Tag(v: Json): Bytes {
    match v
    case Null => TAG_NULL
    case Bool(_) => TAG_BOOL
    case Number(_) => TAG_NUMBER
    case String(_) => TAG_STRING
    case Array(_) => TAG_ARRAY
    case Object(_) => TAG_OBJECT
  }

  /** Every length fits the u64 it is hashed as. */
  ghost predicate Sized(v: Json) {
    match v
    case Null => true
    case Bool(_) => true
    case Number(t) => |t| < MAX_LENGTH
    case String(b) => |b| < MAX_LENGTH
    case Array(vs) => |vs| < MAX_LENGTH && forall i :: 0 <= i < |vs| ==> Sized(vs[i])
    case Object(m) => |m| < MAX_LENGTH && forall k :: k in m ==> |k| < MAX_LENGTH && Sized(m[k])
  }

  ghost function Encode(v: Json): Bytes
    decreases v, 2, 0
  {
    Tag(v) + Payload(v)
  }

  ghost function Payload(v: Json): Bytes
    decreases v, 1, 0
  {
    match v
    case Null => []
    case Bool(b) => [if b then 1 else 0]
    case Number(t) => Prefixed(t)
    case String(b) => Prefixed(b)
    case Array(vs) => LittleEndian(|vs|, 8) + EncodeItems(v, 0)
    case Object(m) => LittleEndian(|m|, 8) + (KeysSorted(v); EncodeFields(v, SortedKeys(m.Keys), 0))
  }

  ghost function EncodeItems(v: Json, i: nat): Bytes
    requires v.Array? && i <= |v.items|
    decreases v, 0, |v.items| - i
  {
    if i == |v.items| then [] else Encode(v.items[i]) + EncodeItems(v, i + 1)
  }

  ghost predicate KeysIn(v: Json, ks: seq<Bytes>) {
    v.Object? && forall i :: 0 <= i < |ks| ==> ks[i] in v.fields
  }

  ghost function EncodeFields(v: Json, ks: seq<Bytes>, i: nat): Bytes
    requires KeysIn(v, ks) && i <= |ks|
    decreases v, 0, |ks| - i
  {
    if i == |ks| then []
    else TAG_STRING + Prefixed(ks[i]) + Encode(v.fields[ks[i]]) + EncodeFields(v, ks, i + 1)
  }

  lemma KeysSorted(v: Json)
    requires v.Object?
    ensures KeysIn(v, SortedKeys(v.fields.Keys)) && |SortedKeys(v.fields.Keys)| == |v.fields|
  {
    var ks := SortedKeys(v.fields.Keys);
    forall i | 0 <= i < |ks| ensures ks[i] in v.fields {
      assert ks[i] in Elements(ks);
    }
  }

  // ---- the code ------------------------------------------------------------

  method HashJsonValue(hasher: Hasher, value: Json)
    modifies hasher
    ensures hasher.fed == old(hasher.fed) + Encode(value)
    decreases if value.String? then 0 else 1, value, 1
  {
    hide LittleEndian, SortedKeys, Sorted, KeysIn, EncodeItems, EncodeFields;
    match value {
      case Null =>
        hasher.Update(TAG_NULL);
      case Bool(b) =>
        hasher.Update(TAG_BOOL);
        hasher.Update([if b then 1 else 0]);
      case Number(t) =>
        hasher.Update(TAG_NUMBER);
        hasher.Update(LittleEndian(|t|, 8));
        hasher.Update(t);
      case String(b) =>
        hasher.Update(TAG_STRING);
        hasher.Update(LittleEndian(|b|, 8));
        hasher.Update(b);
      case Array(vs) =>
        hasher.Update(TAG_ARRAY);
        hasher.Update(LittleEndian(|vs|, 8));
        HashItems(hasher, value);
      case Object(m) =>
        hasher.Update(TAG_OBJECT);
        hasher.Update(LittleEndian(|m|, 8));
        KeysSorted(value);
        HashFields(hasher, value);
    }
    assert hasher.fed == old(hasher.fed) + (Tag(value) + Payload(value));
  }

  /** The loop over an array's elements. */
  method HashItems(hasher: Hasher, value: Json)
    requires value.Array?
    modifies hasher
    ensures hasher.fed == old(hasher.fed) + EncodeItems(value, 0)
    decreases 1, value, 0
  {
    hide Encode;
    for i := 0 to |value.items|
      invariant hasher.fed + EncodeItems(value, i) == old(hasher.fed) + EncodeItems(value, 0)
    {
      HashJsonValue(hasher, value.items[i]);
    }
  }

  /** The loop over an object's sorted keys. */
  method HashFields(hasher: Hasher, value: Json)
    requires value.Object? && KeysIn(value, SortedKeys(value.fields.Keys))
    modifies hasher
    ensures hasher.fed == old(hasher.fed) + EncodeFields(value, SortedKeys(value.fields.Keys), 0)
    decreases 1, value, 0
  {
    hide Encode, SortedKeys, Sorted;
    var keys := SortKeys(value.fields);
    for i := 0 to |keys|
      invariant hasher.fed + EncodeFields(value, keys, i) == old(hasher.fed) + EncodeFields(value, keys, 0)
    {
      FieldAdvance(value, keys, i, hasher.fed);
      HashJsonValue(hasher, String(keys[i]));
      HashJsonValue(hasher, value.fields[keys[i]]);
    }
  }

  lemma FieldAdvance(v: Json, ks: seq<Bytes>, i: nat, fed: Bytes)
    requires KeysIn(v, ks) && i < |ks|
    ensures fed + Encode(String(ks[i])) + Encode(v.fields[ks[i]]) + EncodeFields(v, ks, i + 1)
         == fed + EncodeFields(v, ks, i)
  {
    hide Encode, Prefixed;
    StringBytes(ks[i]);
    Regroup(fed, TAG_STRING + Prefixed(ks[i]), Encode(v.fields[ks[i]]), EncodeFields(v, ks, i + 1), []);
  }

  lemma StringBytes(b: Bytes)
    ensures Encode(String(b)) == TAG_STRING + Prefixed(b)
  {
  }

  lemma TagsSpelled()
    ensures TAG_NULL == Ascii("null") && TAG_BOOL == Ascii("bool") && TAG_NUMBER == Ascii("number")
    ensures TAG_STRING == Ascii("string") && TAG_ARRAY == Ascii("array") && TAG_OBJECT == Ascii("object")
  {
    assert |Ascii("null")| == 4 && |Ascii("bool")| == 4 && |Ascii("number")| == 6;
    assert |Ascii("string")| == 6 && |Ascii("array")| == 5 && |Ascii("object")| == 6;
  }

  /** The word for the kind of value, then a byte, or a length and that many bytes, or a
      count and the encodings of that many items. */
  lemma ValueFormat(v: Json)
    ensures v.Null? ==> Encode(v) == Ascii("null")
    ensures v.Bool? ==> Encode(v) == Ascii("bool") + [if v.value then 1 else 0]
    ensures v.Number? ==> Encode(v) == Ascii("number") + (LittleEndian(|v.text|, 8) + v.text)
    ensures v.String? ==> Encode(v) == Ascii("string") + (LittleEndian(|v.bytes|, 8) + v.bytes)
    ensures v.Array? ==> Encode(v) == Ascii("array") + (LittleEndian(|v.items|, 8) + EncodeItems(v, 0))
    ensures v.Object? ==> KeysIn(v, SortedKeys(v.fields.Keys))
    ensures v.Object? ==>
              Encode(v) == Ascii("object") + (LittleEndian(|v.fields|, 8) + EncodeFields(v, SortedKeys(v.fields.Keys), 0))
  {
    TagsSpelled();
    hide Ascii, LittleEndian, SortedKeys, EncodeItems, EncodeFields;
    if v.Object? {
      KeysSorted(v);
    }
    assert TAG_NULL + [] == TAG_NULL;
  }

  // ---- unique decoding -----------------------------------------------------

  lemma TagFree(v: Json, w: Json, x: Bytes, y: Bytes)
    requires Tag(v) + x == Tag(w) + y
    ensures Tag(v) == Tag(w) && x == y
  {
    var a, b := Tag(v) + x, Tag(w) + y;
    assert a[0] == Tag(v)[0] && a[2] == Tag(v)[2] && b[0] == Tag(w)[0] && b[2] == Tag(w)[2];
    Cancel(Tag(v), Tag(w), x, y);
  }

  /** No encoding is a prefix of another and the encoding is injective: the value and
      everything after it can be told apart in any continuation. */
  lemma {:induction false} PrefixFree(v: Json, w: Json, r: Bytes, q: Bytes)
    requires Sized(v) && Sized(w)
    requires Encode(v) + r == Encode(w) + q
    ensures v == w && r == q
    decreases v, 2, 0
  {
    hide Tag, Payload, Sized;
    Assoc(Tag(v), Payload(v), r);
    Assoc(Tag(w), Payload(w), q);
    TagFree(v, w, Payload(v) + r, Payload(w) + q);
    PayloadFree(v, w, r, q);
  }

  lemma {:induction false} PayloadFree(v: Json, w: Json, r: Bytes, q: Bytes)
    requires Sized(v) && Sized(w) && Tag(v) == Tag(w)
    requires Payload(v) + r == Payload(w) + q
    ensures v == w && r == q
    decreases v, 1, 0
  {
    hide LittleEndian, Prefixed, SortedKeys, Sorted, EncodeItems, EncodeFields;
    assert Tag(v)[0] == Tag(w)[0] && Tag(v)[2] == Tag(w)[2];
    match v {
      case Null =>
        assert [] + r == r && [] + q == q;
      case Bool(b) =>
        Cancel(Payload(v), Payload(w), r, q);
        assert Payload(v)[0] == Payload(w)[0];
      case Number(t) =>
        PrefixedCancel(t, w.text, r, q);
      case String(b) =>
        PrefixedCancel(b, w.bytes, r, q);
      case Array(_) =>
        ArrayFree(v, w, r, q);
      case Object(_) =>
        ObjectFree(v, w, r, q);
    }
  }

  lemma {:induction false} ArrayFree(v: Json, w: Json, r: Bytes, q: Bytes)
    requires v.Array? && w.Array? && Sized(v) && Sized(w) && Payload(v) + r == Payload(w) + q
    ensures v == w && r == q
    decreases v, 0, |v.items| + 1
  {
    hide LittleEndian, EncodeItems;
    var x, y := EncodeItems(v, 0) + r, EncodeItems(w, 0) + q;
    assert Payload(v) + r == LittleEndian(|v.items|, 8) + x;
    assert Payload(w) + q == LittleEndian(|w.items|, 8) + y;
    LengthCancel(|v.items|, |w.items|, x, y);
    ItemsFree(v, w, 0, r, q);
  }

  lemma {:induction false} ObjectFree(v: Json, w: Json, r: Bytes, q: Bytes)
    requires v.Object? && w.Object? && Sized(v) && Sized(w) && Payload(v) + r == Payload(w) + q
    ensures v == w && r == q
    decreases v, 0, |v.fields| + 1
  {
    hide LittleEndian, EncodeFields, Payload, Sorted, SortedKeys, KeysIn;
    ObjectPayload(v, r);
    ObjectPayload(w, q);
    var ks, ls := SortedKeys(v.fields.Keys), SortedKeys(w.fields.Keys);
    LengthCancel(|v.fields|, |w.fields|, EncodeFields(v, ks, 0) + r, EncodeFields(w, ls, 0) + q);
    FieldsFree(v, w, ks, ls, 0, r, q);
    assert ks == ks[0..] && ls == ls[0..];
    SameFields(v, w, ks);
  }

  lemma ObjectPayload(v: Json, r: Bytes)
    requires v.Object?
    ensures KeysIn(v, SortedKeys(v.fields.Keys)) && |SortedKeys(v.fields.Keys)| == |v.fields|
    ensures Payload(v) + r == LittleEndian(|v.fields|, 8) + (EncodeFields(v, SortedKeys(v.fields.Keys), 0) + r)
  {
    hide LittleEndian, EncodeFields, Sorted, SortedKeys, KeysIn;
    KeysSorted(v);
  }

  lemma {:induction false} ItemsFree(v: Json, w: Json, i: nat, r: Bytes, q: Bytes)
    requires v.Array? && w.Array? && Sized(v) && Sized(w)
    requires |v.items| == |w.items| && i <= |v.items|
    requires EncodeItems(v, i) + r == EncodeItems(w, i) + q
    ensures v.items[i..] == w.items[i..] && r == q
    decreases v, 0, |v.items| - i
  {
    hide Encode;
    if i < |v.items| {
      var x, y := EncodeItems(v, i + 1) + r, EncodeItems(w, i + 1) + q;
      assert EncodeItems(v, i) + r == Encode(v.items[i]) + x;
      assert EncodeItems(w, i) + q == Encode(w.items[i]) + y;
      PrefixFree(v.items[i], w.items[i], x, y);
      ItemsFree(v, w, i + 1, r, q);
      assert v.items[i..] == [v.items[i]] + v.items[i + 1..];
      assert w.items[i..] == [w.items[i]] + w.items[i + 1..];
    } else {
      assert [] + r == r && [] + q == q;
    }
  }

  lemma {:induction false} FieldsFree(v: Json, w: Json, ks: seq<Bytes>, ls: seq<Bytes>, i: nat, r: Bytes, q: Bytes)
    requires Sized(v) && Sized(w) && KeysIn(v, ks) && KeysIn(w, ls) && i <= |ks| == |ls|
    requires EncodeFields(v, ks, i) + r == EncodeFields(w, ls, i) + q
    ensures ks[i..] == ls[i..] && r == q
    ensures forall j :: i <= j < |ks| ==> ks[j] in w.fields && v.fields[ks[j]] == w.fields[ks[j]]
    decreases v, 0, |ks| - i
  {
    hide Encode, Prefixed, EncodeFields, Sized;
    FieldSplit(v, ks, i, r);
    FieldSplit(w, ls, i, q);
    if i < |ks| {
      var k, l := ks[i], ls[i];
      var x, y := EncodeFields(v, ks, i + 1) + r, EncodeFields(w, ls, i + 1) + q;
      SizedField(v, k);
      SizedField(w, l);
      Cancel(TAG_STRING, TAG_STRING, Prefixed(k) + (Encode(v.fields[k]) + x), Prefixed(l) + (Encode(w.fields[l]) + y));
      PrefixedCancel(k, l, Encode(v.fields[k]) + x, Encode(w.fields[l]) + y);
      PrefixFree(v.fields[k], w.fields[l], x, y);
      FieldsFree(v, w, ks, ls, i + 1, r, q);
      assert ks[i..] == [k] + ks[i + 1..] && ls[i..] == [l] + ls[i + 1..];
    }
  }

  lemma FieldSplit(v: Json, ks: seq<Bytes>, i: nat, r: Bytes)
    requires KeysIn(v, ks) && i <= |ks|
    ensures EncodeFields(v, ks, i) + r ==
            if i == |ks| then r
            else TAG_STRING + (Prefixed(ks[i]) + (Encode(v.fields[ks[i]]) + (EncodeFields(v, ks, i + 1) + r)))
  {
    hide Encode, Prefixed;
    if i < |ks| {
      Regroup(TAG_STRING, Prefixed(ks[i]), Encode(v.fields[ks[i]]), EncodeFields(v, ks, i + 1), r);
    } else {
      assert [] + r == r;
    }
  }

  lemma SizedField(v: Json, k: Bytes)
    requires Sized(v) && v.Object? && k in v.fields
    ensures |k| < MAX_LENGTH && Sized(v.fields[k])
  {
  }

  lemma SameFields(v: Json, w: Json, ks: seq<Bytes>)
    requires v.Object? && w.Object? && Elements(ks) == v.fields.Keys == w.fields.Keys
    requires forall j :: 0 <= j < |ks| ==> ks[j] in v.fields && ks[j] in w.fields && v.fields[ks[j]] == w.fields[ks[j]]
    ensures v == w
  {
    forall k | k in v.fields ensures v.fields[k] == w.fields[k] {
      assert k in Elements(ks);
    }
    assert v.fields == w.fields;
  }
}
