/** `mergeObject` and `IsEqual`: replay the merge patch from the original
    object to the modified one onto the original, decode the result onto a
    copy of the original, and report whether that copy still equals it. */
module Compare {
  import opened Wrappers
  import opened Document
  import opened MergePatch
  import opened Decoding

  /** The document `mergeObject` decodes: the patch from `original` to
      `modified`, applied to `original`. */
  function Merged(original: Json, modified: Json): Json {
    Apply(original, Diff(original, modified))
  }

  /** `mergeObject(old, new)`. Objects are of any type `T` and `marshal`
      stands for `json.Marshal`. A failure of either encoding, or of the
      final decoding, is returned alone: there is no partial object. */
  function MergeObject<T>(marshal: T -> Result<Json, Error>, original: T, modified: T): (r: Result<Json, Error>)
    ensures marshal(original).Failure? ==> r == Failure(marshal(original).error)
    ensures marshal(original).Success? && marshal(modified).Failure? ==> r == Failure(marshal(modified).error)
    ensures marshal(original).Success? && marshal(modified).Success? ==>
      var o, n := marshal(original).value, marshal(modified).value;
      && (r.Failure? ==> r.error == UnmarshalTypeError)
      && (r.Success? ==> r.value == Overlay(o, Apply(o, Diff(o, n))))
      && (NoNullMembers(n) ==> r == Unmarshal(o, n))
  {
    var o :- marshal(original);
    var n :- marshal(modified);
    var patch := Diff(o, n);
    var merged := Apply(o, patch);
    assert NoNullMembers(n) ==> merged == n by {
      if NoNullMembers(n) {
        RoundTrip(o, n);
      }
    }
    Unmarshal(o, merged)
  }

  /** The pair `(bool, error)` that `IsEqual` returns; `None` is a nil error. */
  datatype Verdict = Verdict(equal: bool, err: Option<Error>)

  /** `IsEqual(old, new)`: `false` with the error when `mergeObject` fails,
      otherwise whether the original object deeply equals the merged one,
      with no error. */
  function IsEqual<T>(marshal: T -> Result<Json, Error>, original: T, modified: T): (r: Verdict)
    ensures MergeObject(marshal, original, modified).Failure? ==>
      r == Verdict(false, Some(MergeObject(marshal, original, modified).error))
    ensures MergeObject(marshal, original, modified).Success? ==>
      && r.err == None
      && (r.equal <==> MergeObject(marshal, original, modified).value == marshal(original).value)
    ensures marshal(original).Success? && marshal(modified).Success? ==>
      (r == Verdict(true, None) <==> Tolerates(marshal(original).value, marshal(modified).value))
  {
    assert marshal(original).Success? && marshal(modified).Success? ==>
      var o, n := marshal(original).value, marshal(modified).value;
      (Unmarshal(o, Merged(o, n)) == Success(o) <==> Tolerates(o, n)) by {
      if marshal(original).Success? && marshal(modified).Success? {
        MergedUnchangedIffTolerates(marshal(original).value, marshal(modified).value);
      }
    }
    match MergeObject(marshal, original, modified)
    case Failure(e) => Verdict(false, Some(e))
    case Success(merged) => Verdict(merged == marshal(original).value, None)
  }

  /** Every member the modified document sets agrees with the original: a
      `null` member is tolerated outright, any other member must exist in the
      original and be tolerated there; below objects, the modified value
      must embed into the original one (arrays of the same length whose
      elements decode losslessly onto the original elements, equal scalars). */
  predicate Tolerates(original: Json, modified: Json)
    decreases modified
  {
    if original.Obj? && modified.Obj? then
      forall k :: k in modified.fields ==>
        modified.fields[k].Null? ||
        (k in original.fields && Tolerates(original.fields[k], modified.fields[k]))
    else
      Embeds(original, modified)
  }

  /** A member of two objects that the merged document carries is the merge
      of that member's own values, or an untouched `null` of the original. */
  lemma MergedMember(o: Json, n: Json, k: string)
    requires o.Obj? && n.Obj?
    ensures k in Merged(o, n).fields ==> k in n.fields
    ensures k in n.fields && !n.fields[k].Null? ==>
      k in Merged(o, n).fields && Merged(o, n).fields[k] == Merged(Lookup(o.fields, k), n.fields[k])
    ensures k in Merged(o, n).fields && n.fields[k].Null? ==>
      k in o.fields && o.fields[k] == Null && Merged(o, n).fields[k] == Null
  {
    var a, b := o.fields, n.fields;
    var patch := Diff(o, n);
    if k in b && !b[k].Null? {
      if k in patch.fields {
        assert patch.fields[k] == Diff(Lookup(a, k), b[k]);
      } else {
        ApplyDiffSelf(b[k]);
      }
    }
  }

  /** Central property: decoding the merged document onto a copy of the
      original reproduces the original, without error, exactly when the
      original tolerates the modified document. */
  lemma {:induction false} MergedUnchangedIffTolerates(o: Json, n: Json)
    ensures Unmarshal(o, Merged(o, n)) == Success(o) <==> Tolerates(o, n)
    decreases n
  {
    var m := Merged(o, n);
    UnmarshalUnchangedIffEmbeds(o, m);
    if o.Obj? && n.Obj? {
      var a, b := o.fields, n.fields;
      forall k | k in b && k in a && !b[k].Null?
        ensures Unmarshal(a[k], Merged(a[k], b[k])) == Success(a[k]) <==> Tolerates(a[k], b[k])
      {
        MergedUnchangedIffTolerates(a[k], b[k]);
      }
      forall k | k in m.fields
        ensures k in b && (b[k].Null? ==> k in a && a[k] == Null && m.fields[k] == Null)
        ensures !b[k].Null? ==> m.fields[k] == Merged(Lookup(a, k), b[k])
      {
        MergedMember(o, n, k);
      }
      if Tolerates(o, n) {
        forall k | k in m.fields ensures k in a && Embeds(a[k], m.fields[k]) {
          if b[k].Null? {
            EmbedsReflexive(Null);
          } else {
            UnmarshalUnchangedIffEmbeds(a[k], m.fields[k]);
          }
        }
      }
      if Embeds(o, m) {
        forall k | k in b && !b[k].Null? ensures k in a && Tolerates(a[k], b[k]) {
          MergedMember(o, n, k);
          UnmarshalUnchangedIffEmbeds(a[k], m.fields[k]);
        }
      }
    } else if n.Obj? {
      assert Overlay(o, m) == m;
    } else {
      UnmarshalUnchangedIffEmbeds(o, n);
    }
  }

  /** The verdict is `true` with no error exactly when the original's
      encoding tolerates the modified one's. */
  lemma IsEqualIffTolerates<T>(marshal: T -> Result<Json, Error>, original: T, modified: T)
    requires marshal(original).Success? && marshal(modified).Success?
    ensures IsEqual(marshal, original, modified) == Verdict(true, None) <==>
      Tolerates(marshal(original).value, marshal(modified).value)
  {
    MergedUnchangedIffTolerates(marshal(original).value, marshal(modified).value);
  }

  /** The merged document fits the original wherever the modified one does. */
  lemma {:induction false} MergedDecodable(o: Json, n: Json)
    requires Decodable(o, n)
    ensures Decodable(o, Merged(o, n))
    decreases n
  {
    var m := Merged(o, n);
    if o.Obj? && n.Obj? {
      var a, b := o.fields, n.fields;
      forall k | k in m.fields && k in a ensures Decodable(a[k], m.fields[k]) {
        MergedMember(o, n, k);
        if !b[k].Null? {
          MergedDecodable(a[k], b[k]);
        }
      }
    }
  }

  /** When the modified encoding fits the original's types, `IsEqual`
      reports no error. */
  lemma IsEqualNoError<T>(marshal: T -> Result<Json, Error>, original: T, modified: T)
    requires marshal(original).Success? && marshal(modified).Success?
    requires Decodable(marshal(original).value, marshal(modified).value)
    ensures IsEqual(marshal, original, modified).err == None
  {
    MergedDecodable(marshal(original).value, marshal(modified).value);
  }

  /** When the new object holds no explicit `null` members, the merged
      document is the new object's encoding: mergeObject decodes the new
      object onto a copy of the old one. */
  lemma MergeObjectDecodesModified<T>(marshal: T -> Result<Json, Error>, original: T, modified: T)
    requires marshal(original).Success? && marshal(modified).Success?
    requires NoNullMembers(marshal(modified).value)
    ensures MergeObject(marshal, original, modified) ==
      Unmarshal(marshal(original).value, marshal(modified).value)
  {
    RoundTrip(marshal(original).value, marshal(modified).value);
  }

  /** Members only the old object sets, or that the new one sets to `null`,
      keep the old value in the merged object. */
  lemma MergeObjectKeepsBaselineOnly<T>(marshal: T -> Result<Json, Error>, original: T, modified: T, k: string)
    requires marshal(original).Success? && marshal(modified).Success?
    requires marshal(original).value.Obj? && marshal(modified).value.Obj?
    requires k in marshal(original).value.fields
    requires k !in marshal(modified).value.fields || marshal(modified).value.fields[k].Null?
    ensures MergeObject(marshal, original, modified).Success? ==>
      var r := MergeObject(marshal, original, modified).value;
      r.Obj? && k in r.fields && r.fields[k] == marshal(original).value.fields[k]
  {
    var o, n := marshal(original).value, marshal(modified).value;
    MergedMember(o, n, k);
  }

  /** Every document tolerates itself. */
  lemma {:induction false} ToleratesReflexive(d: Json)
    ensures Tolerates(d, d)
    decreases d
  {
    if d.Obj? {
      forall k | k in d.fields ensures Tolerates(d.fields[k], d.fields[k]) {
        ToleratesReflexive(d.fields[k]);
      }
    } else {
      EmbedsReflexive(d);
    }
  }

  /** Reflexivity: an object compares equal to itself, with no error. */
  lemma IsEqualReflexive<T>(marshal: T -> Result<Json, Error>, x: T)
    requires marshal(x).Success?
    ensures IsEqual(marshal, x, x) == Verdict(true, None)
  {
    ToleratesReflexive(marshal(x).value);
    IsEqualIffTolerates(marshal, x, x);
  }

  /** Members the new object leaves out, or sets to `null`, are tolerated:
      when every other member of the new object equals the old one's, the
      verdict is `true` with no error. */
  lemma IsEqualToleratesOmittedMembers<T>(marshal: T -> Result<Json, Error>, original: T, modified: T)
    requires marshal(original).Success? && marshal(modified).Success?
    requires marshal(original).value.Obj? && marshal(modified).value.Obj?
    requires var a, b := marshal(original).value.fields, marshal(modified).value.fields;
      forall k :: k in b && !b[k].Null? ==> k in a && a[k] == b[k]
    ensures IsEqual(marshal, original, modified) == Verdict(true, None)
  {
    var a := marshal(original).value.fields;
    forall k | k in a ensures Tolerates(a[k], a[k]) {
      ToleratesReflexive(a[k]);
    }
    IsEqualIffTolerates(marshal, original, modified);
  }

  /** Change detection: a member both objects set to different scalars
      gives `false`. */
  lemma IsEqualDetectsChangedScalar<T>(marshal: T -> Result<Json, Error>, original: T, modified: T, k: string)
    requires marshal(original).Success? && marshal(modified).Success?
    requires marshal(original).value.Obj? && marshal(modified).value.Obj?
    requires k in marshal(original).value.fields && k in marshal(modified).value.fields
    requires var v := marshal(modified).value.fields[k]; !v.Null? && !v.Obj? && !v.Arr?
    requires marshal(original).value.fields[k] != marshal(modified).value.fields[k]
    ensures !IsEqual(marshal, original, modified).equal
  {
    IsEqualIffTolerates(marshal, original, modified);
  }

  /** A member only the new object sets, to anything but `null`, gives
      `false`. */
  lemma IsEqualDetectsAddedMember<T>(marshal: T -> Result<Json, Error>, original: T, modified: T, k: string)
    requires marshal(original).Success? && marshal(modified).Success?
    requires marshal(original).value.Obj? && marshal(modified).value.Obj?
    requires k !in marshal(original).value.fields
    requires k in marshal(modified).value.fields && !marshal(modified).value.fields[k].Null?
    ensures !IsEqual(marshal, original, modified).equal
  {
    IsEqualIffTolerates(marshal, original, modified);
  }
}
