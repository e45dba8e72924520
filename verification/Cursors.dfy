/** Keyset cursors: the tag layer that carries big integers through JSON. Text
    and Base64 below it are taken to be inverse. */
module Cursors {
  import opened Metadata
  import Bigints

  /** A JSON tree, with big integers JSON itself cannot hold. */
  datatype Json = Null | Bool(b: bool) | Number(x: real) | Str(s: string) | BigInt(i: int)
                | Array(items: seq<Json>) | Object(fields: seq<Field>)

  datatype Field = Field(key: string, value: Json)

  const TAG := "$bigint"

  // ----------------------------------------------------------------- encoding

  /** The replacer, applied throughout a tree. */
  function Tagged(v: Json): Json {
    match v
    case BigInt(i) => Object([Field(TAG, Str(Bigints.Print(i)))])
    case Array(items) => Array(TaggedItems(items))
    case Object(fields) => Object(TaggedFields(fields))
    case _ => v
  }

  function TaggedItems(items: seq<Json>): seq<Json> {
    if items == [] then [] else [Tagged(items[0])] + TaggedItems(items[1..])
  }

  function TaggedFields(fields: seq<Field>): seq<Field> {
    if fields == [] then []
    else [Field(fields[0].key, Tagged(fields[0].value))] + TaggedFields(fields[1..])
  }

  // ----------------------------------------------------------------- decoding

  /** The value of a field, if the object has it. */
  function Lookup(fields: seq<Field>, key: string): Option<Json> {
    if fields == [] then None else if fields[0].key == key then Some(fields[0].value) else Lookup(fields[1..], key)
  }

  /** `BigInt(text)`; `other` reads the forms that are not plain digits, or
      refuses them. */
  function ToBigInt(text: string, other: string -> Option<int>): Option<int> {
    if Bigints.IsIntegerText(text) then Some(Bigints.Parse(text)) else other(text)
  }

  predicate HasTag(fields: seq<Field>) {
    Lookup(fields, TAG).Some? && Lookup(fields, TAG).value.Str?
  }

  /** The reviver, applied bottom-up; None when it throws. */
  function Revived(v: Json, other: string -> Option<int>): Option<Json> {
    match v
    case Array(items) =>
      var r := RevivedItems(items, other);
      if r.None? then None else Some(Array(r.value))
    case Object(fields) =>
      var r := RevivedFields(fields, other);
      if r.None? then None
      else if HasTag(r.value) then
        var i := ToBigInt(Lookup(r.value, TAG).value.s, other);
        if i.None? then None else Some(BigInt(i.value))
      else Some(Object(r.value))
    case _ => Some(v)
  }

  function RevivedItems(items: seq<Json>, other: string -> Option<int>): Option<seq<Json>> {
    if items == [] then Some([])
    else
      var first, rest := Revived(items[0], other), RevivedItems(items[1..], other);
      if first.None? || rest.None? then None else Some([first.value] + rest.value)
  }

  function RevivedFields(fields: seq<Field>, other: string -> Option<int>): Option<seq<Field>> {
    if fields == [] then Some([])
    else
      var first, rest := Revived(fields[0].value, other), RevivedFields(fields[1..], other);
      if first.None? || rest.None? then None else Some([Field(fields[0].key, first.value)] + rest.value)
  }

  // --------------------------------------------------------------- round trip

  /** No object anywhere in the tree has a string under the tag. */
  predicate Untagged(v: Json) {
    match v
    case Array(items) => forall x :: x in items ==> Untagged(x)
    case Object(fields) => !HasTag(fields) && forall f :: f in fields ==> Untagged(f.value)
    case _ => true
  }

  lemma {:induction false} RevivedIsInverseIff(v: Json, other: string -> Option<int>)
    ensures Revived(Tagged(v), other) == Some(v) <==> Untagged(v)
  {
    match v
    case BigInt(i) => RevivesBigInt(i, other);
    case Array(items) => ItemsInverseIff(items, other);
    case Object(fields) => FieldsInverseIff(fields, other);
    case _ =>
  }

  lemma RevivesBigInt(i: int, other: string -> Option<int>)
    ensures Revived(Tagged(BigInt(i)), other) == Some(BigInt(i))
  {
    var text := Bigints.Print(i);
    var fields := [Field(TAG, Str(text))];
    Bigints.PrintedParses(i);
    assert Revived(Str(text), other) == Some(Str(text));
    assert fields[1..] == [];
    ConsEqual(RevivedFields(fields[1..], other), Some(fields[0]), fields);
  }

  lemma {:induction false} ItemsInverseIff(items: seq<Json>, other: string -> Option<int>)
    ensures RevivedItems(TaggedItems(items), other) == Some(items) <==> forall x :: x in items ==> Untagged(x)
  {
    if items != [] {
      RevivedIsInverseIff(items[0], other);
      ItemsInverseIff(items[1..], other);
      assert items == [items[0]] + items[1..];
      assert TaggedItems(items)[1..] == TaggedItems(items[1..]);
      ConsEqual(RevivedItems(TaggedItems(items[1..]), other), Revived(Tagged(items[0]), other), items);
    }
  }

  lemma ConsEqual<T>(rest: Option<seq<T>>, first: Option<T>, all: seq<T>)
    requires all != []
    ensures (if first.None? || rest.None? then None else Some([first.value] + rest.value)) == Some(all)
            <==> first == Some(all[0]) && rest == Some(all[1..])
  {
    assert all == [all[0]] + all[1..];
    if first.Some? && rest.Some? {
      var joined := [first.value] + rest.value;
      assert joined[0] == first.value && joined[1..] == rest.value;
    }
  }

  lemma {:induction false} FieldsInverseIff(fields: seq<Field>, other: string -> Option<int>)
    ensures RevivedFields(TaggedFields(fields), other) == Some(fields) <==> forall f :: f in fields ==> Untagged(f.value)
  {
    if fields != [] {
      RevivedIsInverseIff(fields[0].value, other);
      FieldsInverseIff(fields[1..], other);
      assert fields == [fields[0]] + fields[1..];
      assert TaggedFields(fields)[1..] == TaggedFields(fields[1..]);
      var first := Revived(Tagged(fields[0].value), other);
      ConsEqual(RevivedFields(TaggedFields(fields[1..]), other),
                if first.None? then None else Some(Field(fields[0].key, first.value)), fields);
    }
  }

  // ------------------------------------------------------------- plain JSON

  /** What JSON text can hold: no big integer anywhere. */
  predicate Plain(v: Json) {
    match v
    case BigInt(_) => false
    case Array(items) => forall x :: x in items ==> Plain(x)
    case Object(fields) => forall f :: f in fields ==> Plain(f.value)
    case _ => true
  }

  /** The tagged tree is JSON, with an object of one text for a big integer. */
  lemma {:induction false} TaggedIsPlain(v: Json)
    ensures Plain(Tagged(v))
    ensures v.BigInt? ==> Tagged(v) == Object([Field("$bigint", Str(Bigints.Print(v.i)))])
  {
    match v
    case BigInt(i) => assert forall f :: f in Tagged(v).fields ==> f.value == Str(Bigints.Print(i));
    case Array(items) => TaggedItemsArePlain(items);
    case Object(fields) => TaggedFieldsArePlain(fields);
    case _ =>
  }

  lemma {:induction false} TaggedItemsArePlain(items: seq<Json>)
    ensures forall x :: x in TaggedItems(items) ==> Plain(x)
  {
    if items != [] {
      TaggedIsPlain(items[0]);
      TaggedItemsArePlain(items[1..]);
    }
  }

  lemma {:induction false} TaggedFieldsArePlain(fields: seq<Field>)
    ensures forall f :: f in TaggedFields(fields) ==> Plain(f.value)
    ensures |TaggedFields(fields)| == |fields|
    ensures forall i :: 0 <= i < |fields| ==> TaggedFields(fields)[i].key == fields[i].key
  {
    if fields != [] {
      TaggedIsPlain(fields[0].value);
      TaggedFieldsArePlain(fields[1..]);
    }
  }

  /** Without big integers the tagged tree is the tree itself. */
  lemma {:induction false} PlainIsUnchanged(v: Json)
    requires Plain(v)
    ensures Tagged(v) == v
  {
    match v
    case Array(items) => PlainItemsAreUnchanged(items);
    case Object(fields) => PlainFieldsAreUnchanged(fields);
    case _ =>
  }

  lemma {:induction false} PlainItemsAreUnchanged(items: seq<Json>)
    requires forall x :: x in items ==> Plain(x)
    ensures TaggedItems(items) == items
  {
    if items != [] {
      PlainIsUnchanged(items[0]);
      PlainItemsAreUnchanged(items[1..]);
    }
  }

  lemma {:induction false} PlainFieldsAreUnchanged(fields: seq<Field>)
    requires forall f :: f in fields ==> Plain(f.value)
    ensures TaggedFields(fields) == fields
  {
    if fields != [] {
      PlainIsUnchanged(fields[0].value);
      PlainFieldsAreUnchanged(fields[1..]);
    }
  }

  /** A tree has a tag when the first field under it holds a string. */
  lemma {:induction false} HasTagIs(fields: seq<Field>)
    ensures HasTag(fields) <==> exists i :: 0 <= i < |fields| && fields[i].key == "$bigint" && fields[i].value.Str?
                                            && forall k :: 0 <= k < i ==> fields[k].key != "$bigint"
  {
    forall i | 0 <= i < |fields| && fields[i].key == TAG && forall k :: 0 <= k < i ==> fields[k].key != TAG
      ensures Lookup(fields, TAG) == Some(fields[i].value)
    {
      LookupAt(fields, TAG, i);
    }
    if HasTag(fields) { var i := LookedUp(fields, TAG); }
  }

  lemma {:induction false} LookedUp(fields: seq<Field>, key: string) returns (i: nat)
    requires Lookup(fields, key).Some?
    ensures i < |fields| && fields[i].key == key && Lookup(fields, key) == Some(fields[i].value)
    ensures forall k :: 0 <= k < i ==> fields[k].key != key
  {
    if fields[0].key == key {
      i := 0;
    } else {
      var j := LookedUp(fields[1..], key);
      i := j + 1;
    }
  }

  // ------------------------------------------------------------------ cursors

  /** What a cursor carries: the order value, the primary key and a second
      tiebreaker; None is `undefined`. */
  datatype Decoded = Decoded(order: Json, pk: Option<Json>, subKey: Option<Json>)

  function OrNull(v: Option<Json>): Json {
    if v.None? then Null else v.value
  }

  function OptionalField(key: string, v: Option<Json>): seq<Field> {
    if v.None? then [] else [Field(key, v.value)]
  }

  /** The payload as JSON; an undefined field is left out. */
  function EncodeCursorKey(order: Option<Json>, pk: Option<Json>, subKey: Option<Json>): Json {
    Tagged(Object(Payload(order, pk, subKey)))
  }

  /** None for a payload that throws or is no object. */
  function DecodeCursorKey(payload: Json, other: string -> Option<int>): Option<Decoded> {
    var parsed := Revived(payload, other);
    if parsed.None? then None
    else
      match parsed.value
      case Object(fields) => Some(Decoded(OrNull(Lookup(fields, "v")), Lookup(fields, "p"), Lookup(fields, "d")))
      case Array(_) => Some(Decoded(Null, None, None))
      case _ => None
  }

  function Payload(order: Option<Json>, pk: Option<Json>, subKey: Option<Json>): seq<Field> {
    [Field("v", OrNull(order))] + OptionalField("p", pk) + OptionalField("d", subKey)
  }

  /** The fields of a payload with or without a primary key and a tiebreaker. */
  predicate PayloadKeys(r: seq<Field>, hasPk: bool, hasSub: bool) {
    && |r| == 1 + (if hasPk then 1 else 0) + (if hasSub then 1 else 0)
    && r[0].key == "v" && (hasPk ==> r[1].key == "p") && (hasSub ==> r[|r| - 1].key == "d")
  }

  lemma PayloadLookup(r: seq<Field>, hasPk: bool, hasSub: bool)
    requires PayloadKeys(r, hasPk, hasSub)
    ensures Lookup(r, "v") == Some(r[0].value)
    ensures Lookup(r, "p") == if hasPk then Some(r[1].value) else None
    ensures Lookup(r, "d") == if hasSub then Some(r[|r| - 1].value) else None
    ensures Lookup(r, TAG).None?
  {
    assert "v" != "p" && "v" != "d" && "p" != "d";
    assert |TAG| == 7 && |"v"| == 1 && |"p"| == 1 && |"d"| == 1;
    LookupAt(r, "v", 0);
    LookupAt(r, "p", if hasPk then 1 else |r|);
    LookupAt(r, "d", if hasSub then |r| - 1 else |r|);
    LookupAt(r, TAG, |r|);
  }

  lemma {:induction false} LookupAt(r: seq<Field>, key: string, i: nat)
    requires i <= |r| && (i < |r| ==> r[i].key == key) && forall k :: 0 <= k < i ==> r[k].key != key
    ensures Lookup(r, key) == if i < |r| then Some(r[i].value) else None
  {
    if i > 0 { LookupAt(r[1..], key, i - 1); }
  }

  /** Two payloads with the same keys are one when they look up the same. */
  lemma PayloadsAgree(a: seq<Field>, b: seq<Field>, hasPk: bool, hasSub: bool)
    requires PayloadKeys(a, hasPk, hasSub) && PayloadKeys(b, hasPk, hasSub)
    ensures a == b <==> Lookup(a, "v") == Lookup(b, "v") && Lookup(a, "p") == Lookup(b, "p") && Lookup(a, "d") == Lookup(b, "d")
  {
    PayloadLookup(a, hasPk, hasSub);
    PayloadLookup(b, hasPk, hasSub);
    if Lookup(a, "v") == Lookup(b, "v") && Lookup(a, "p") == Lookup(b, "p") && Lookup(a, "d") == Lookup(b, "d") {
      assert forall i :: 0 <= i < |a| ==> a[i].key == b[i].key && a[i].value == b[i].value;
    }
  }

  lemma PayloadUntagged(order: Option<Json>, pk: Option<Json>, subKey: Option<Json>)
    ensures (forall f :: f in Payload(order, pk, subKey) ==> Untagged(f.value))
            <==> Untagged(OrNull(order)) && (pk.Some? ==> Untagged(pk.value)) && (subKey.Some? ==> Untagged(subKey.value))
  {
    var fields := Payload(order, pk, subKey);
    assert fields[0] == Field("v", OrNull(order)) && fields[0] in fields;
    if pk.Some? { assert fields[1] == Field("p", pk.value) && fields[1] in fields; }
    if subKey.Some? { assert fields[|fields| - 1] == Field("d", subKey.value) && fields[|fields| - 1] in fields; }
  }

  /** Decoding looks the revived fields up. */
  lemma DecodedIs(order: Option<Json>, pk: Option<Json>, subKey: Option<Json>, other: string -> Option<int>)
    ensures var r := RevivedFields(TaggedFields(Payload(order, pk, subKey)), other);
            && (r.Some? ==> PayloadKeys(r.value, pk.Some?, subKey.Some?))
            && DecodeCursorKey(EncodeCursorKey(order, pk, subKey), other)
               == if r.None? then None
                  else Some(Decoded(OrNull(Lookup(r.value, "v")), Lookup(r.value, "p"), Lookup(r.value, "d")))
  {
    RevivedPayload(order, pk, subKey, other);
    DecodedFields(TaggedFields(Payload(order, pk, subKey)), other);
  }

  /** The revived payload has the keys it was written with, so it is no tag. */
  lemma RevivedPayload(order: Option<Json>, pk: Option<Json>, subKey: Option<Json>, other: string -> Option<int>)
    ensures var r := RevivedFields(TaggedFields(Payload(order, pk, subKey)), other);
            r.Some? ==> PayloadKeys(r.value, pk.Some?, subKey.Some?) && !HasTag(r.value)
  {
    RevivedKeys(Payload(order, pk, subKey), other);
    var r := RevivedFields(TaggedFields(Payload(order, pk, subKey)), other);
    if r.Some? { PayloadLookup(r.value, pk.Some?, subKey.Some?); }
  }

  lemma DecodedFields(fields: seq<Field>, other: string -> Option<int>)
    requires RevivedFields(fields, other).Some? ==> !HasTag(RevivedFields(fields, other).value)
    ensures var r := RevivedFields(fields, other);
            DecodeCursorKey(Object(fields), other)
            == if r.None? then None
               else Some(Decoded(OrNull(Lookup(r.value, "v")), Lookup(r.value, "p"), Lookup(r.value, "d")))
  {
    var r := RevivedFields(fields, other);
    assert Revived(Object(fields), other) == if r.None? then None else Some(Object(r.value));
  }

  /** Decoding gives the encoded key back exactly when none of its values has an
      object with a string under the tag. */
  lemma DecodeInvertsEncodeIff(order: Option<Json>, pk: Option<Json>, subKey: Option<Json>, other: string -> Option<int>)
    ensures DecodeCursorKey(EncodeCursorKey(order, pk, subKey), other) == Some(Decoded(OrNull(order), pk, subKey))
            <==> Untagged(OrNull(order)) && (pk.Some? ==> Untagged(pk.value)) && (subKey.Some? ==> Untagged(subKey.value))
  {
    var fields := Payload(order, pk, subKey);
    var r := RevivedFields(TaggedFields(fields), other);
    DecodedIs(order, pk, subKey, other);
    FieldsInverseIff(fields, other);
    PayloadUntagged(order, pk, subKey);
    PayloadLookup(fields, pk.Some?, subKey.Some?);
    if r.Some? {
      PayloadLookup(r.value, pk.Some?, subKey.Some?);
      PayloadsAgree(r.value, fields, pk.Some?, subKey.Some?);
    }
  }

  /** Reviving keeps the keys in place. */
  lemma {:induction false} RevivedKeys(fields: seq<Field>, other: string -> Option<int>)
    ensures var r := RevivedFields(TaggedFields(fields), other);
            r.Some? ==> |r.value| == |fields| && forall i :: 0 <= i < |fields| ==> r.value[i].key == fields[i].key
  {
    if fields != [] {
      RevivedKeys(fields[1..], other);
      assert TaggedFields(fields)[1..] == TaggedFields(fields[1..]);
    }
  }

  /** For example, an ordinary object that looks like a tag comes back as a big
      integer. */
  lemma TagLookalikeIsLost(other: string -> Option<int>)
    ensures var pk := Object([Field(TAG, Str("7"))]);
            DecodeCursorKey(EncodeCursorKey(None, Some(pk), None), other) != Some(Decoded(Null, Some(pk), None))
  {
    var pk := Object([Field(TAG, Str("7"))]);
    DecodeInvertsEncodeIff(None, Some(pk), None, other);
  }

  /** A cursor is a JSON object with the order value, null for undefined, under `v`,
      then the primary key under `p` and the tiebreaker under `d` where there is one,
      each as it is unless it holds big integers. */
  lemma CursorIs(order: Option<Json>, pk: Option<Json>, subKey: Option<Json>)
    ensures var c := EncodeCursorKey(order, pk, subKey);
            && Plain(c) && c.Object? && PayloadKeys(c.fields, pk.Some?, subKey.Some?)
            && c.fields[0].value == (if order.None? then Null else Tagged(order.value))
            && (pk.Some? ==> c.fields[1].value == Tagged(pk.value))
            && (subKey.Some? ==> c.fields[|c.fields| - 1].value == Tagged(subKey.value))
  {
    var fields := Payload(order, pk, subKey);
    TaggedIsPlain(Object(fields));
    TaggedFieldsArePlain(fields);
    forall i | 0 <= i < |fields| ensures TaggedFields(fields)[i].value == Tagged(fields[i].value) {
      TaggedFieldAt(fields, i);
    }
  }

  lemma {:induction false} TaggedFieldAt(fields: seq<Field>, i: nat)
    requires i < |fields|
    ensures |TaggedFields(fields)| == |fields| && TaggedFields(fields)[i] == Field(fields[i].key, Tagged(fields[i].value))
  {
    TaggedFieldsArePlain(fields);
    if i > 0 { TaggedFieldAt(fields[1..], i - 1); }
  }

  /** A cursor from before there were keys, with an order value alone, still decodes;
      a payload that is no object does not. */
  lemma LegacyCursorDecodes(order: Json, payload: Json, other: string -> Option<int>)
    requires Plain(order) && Untagged(order) && (payload.Null? || payload.Bool? || payload.Number? || payload.Str?)
    ensures DecodeCursorKey(Object([Field("v", order)]), other) == Some(Decoded(order, None, None))
    ensures DecodeCursorKey(payload, other).None?
  {
    PlainIsUnchanged(order);
    DecodeInvertsEncodeIff(Some(order), None, None, other);
    var fields := [Field("v", order)];
    assert Payload(Some(order), None, None) == fields;
    PlainFieldsAreUnchanged(fields);
  }
}
