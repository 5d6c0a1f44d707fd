/** `json.Unmarshal` of a document onto a deep copy of an existing object,
    with both the object and the document given as `Json`: the copy is the
    target's own encoding, and the Go field types are read off the target's
    non-null values. */
module Decoding {
  import opened Wrappers
  import opened Document

  /** Every value of `doc` fits the place it is decoded into: `null` fits
      anywhere, anything fits where the target holds `null` or nothing (a nil
      pointer, map or slice, or an unknown member), and otherwise the kinds
      must agree. */
  predicate Decodable(target: Json, doc: Json)
    decreases doc
  {
    if doc.Null? || target.Null? then true
    else if target.Obj? && doc.Obj? then
      forall k :: k in doc.fields && k in target.fields ==> Decodable(target.fields[k], doc.fields[k])
    else if target.Arr? && doc.Arr? then
      forall i :: 0 <= i < |doc.items| && i < |target.items| ==> Decodable(target.items[i], doc.items[i])
    else
      (target.Bool? && doc.Bool?) || (target.Int? && doc.Int?) || (target.Str? && doc.Str?)
  }

  /** The object `json.Unmarshal` leaves behind when it decodes `doc` onto
      `target`. Object members absent from `doc` keep the target's values and
      present ones are decoded onto the target's member. An array becomes
      exactly as long as `doc`'s, and its leading elements are decoded onto
      the target's elements in the same positions, because the decoder reuses
      the existing slice. Any other value of `doc` replaces the target. */
  function Overlay(target: Json, doc: Json): (r: Json)
    decreases doc
    ensures target.Obj? && doc.Obj? ==> r.Obj? && r.fields.Keys == target.fields.Keys + doc.fields.Keys
    ensures target.Obj? && doc.Obj? ==>
      forall k :: k in target.fields && k !in doc.fields ==> r.fields[k] == target.fields[k]
    ensures target.Arr? && doc.Arr? ==> r.Arr? && |r.items| == |doc.items|
    ensures !(target.Obj? && doc.Obj?) && !(target.Arr? && doc.Arr?) ==> r == doc
    ensures r == target <==> Embeds(target, doc)
  {
    match doc
    case Obj(d) =>
      if target.Obj? then
        var t := target.fields;
        Obj(map k | k in t.Keys + d.Keys ::
              if k !in d then t[k] else if k in t then Overlay(t[k], d[k]) else d[k])
      else doc
    case Arr(d) =>
      if target.Arr? then
        var t := target.items;
        Arr(seq(|d|, i requires 0 <= i < |d| => if i < |t| then Overlay(t[i], d[i]) else d[i]))
      else doc
    case _ => doc
  }

  /** `json.Unmarshal(doc, copy of target)`: the overlaid object, or the type
      error when some value does not fit. */
  function Unmarshal(target: Json, doc: Json): (r: Result<Json, Error>)
    ensures r.Success? <==> Decodable(target, doc)
    ensures r.Failure? ==> r.error == UnmarshalTypeError
    ensures r.Success? ==> r.value == Overlay(target, doc)
    ensures r == Success(target) <==> Embeds(target, doc)
  {
    EmbedsDecodable(target, doc);
    if Decodable(target, doc) then Success(Overlay(target, doc)) else Failure(UnmarshalTypeError)
  }

  /** A document that embeds into the target fits it. */
  lemma {:induction false} EmbedsDecodable(target: Json, doc: Json)
    ensures Embeds(target, doc) ==> Decodable(target, doc)
    decreases doc
  {
    if target.Obj? && doc.Obj? {
      forall k | k in doc.fields && k in target.fields
        ensures Embeds(target.fields[k], doc.fields[k]) ==> Decodable(target.fields[k], doc.fields[k])
      {
        EmbedsDecodable(target.fields[k], doc.fields[k]);
      }
    } else if target.Arr? && doc.Arr? {
      forall i | 0 <= i < |doc.items| && i < |target.items|
        ensures Embeds(target.items[i], doc.items[i]) ==> Decodable(target.items[i], doc.items[i])
      {
        EmbedsDecodable(target.items[i], doc.items[i]);
      }
    }
  }

  /** Decoding `doc` onto `target` changes nothing: every object member of
      `doc` exists in the target and decodes losslessly onto it, arrays have
      the target's length and decode losslessly element by element, and any
      other value equals the target. */
  predicate Embeds(target: Json, doc: Json)
    decreases doc
  {
    if target.Obj? && doc.Obj? then
      forall k :: k in doc.fields ==> k in target.fields && Embeds(target.fields[k], doc.fields[k])
    else if target.Arr? && doc.Arr? then
      |doc.items| == |target.items| &&
      forall i :: 0 <= i < |doc.items| ==> Embeds(target.items[i], doc.items[i])
    else
      target == doc
  }

  /** Decoding leaves the target as it was, without error, exactly when the
      document embeds into it. */
  lemma UnmarshalUnchangedIffEmbeds(target: Json, doc: Json)
    ensures Unmarshal(target, doc) == Success(target) <==> Embeds(target, doc)
  {
  }

  /** Every document embeds into itself. */
  lemma {:induction false} EmbedsReflexive(d: Json)
    ensures Embeds(d, d)
    decreases d
  {
    match d
    case Obj(m) =>
      forall k | k in m ensures Embeds(m[k], m[k]) {
        EmbedsReflexive(m[k]);
      }
    case Arr(s) =>
      forall i | 0 <= i < |s| ensures Embeds(s[i], s[i]) {
        EmbedsReflexive(s[i]);
      }
    case _ =>
  }

  /** Decoding a document onto an object with that very encoding succeeds
      and changes nothing. */
  lemma UnmarshalSelf(d: Json)
    ensures Unmarshal(d, d) == Success(d)
  {
    EmbedsReflexive(d);
    UnmarshalUnchangedIffEmbeds(d, d);
  }
}
