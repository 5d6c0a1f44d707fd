/** JSON Merge Patch (RFC 7386), standing for the json-patch library's
    `CreateMergePatch`, which generates a patch from one document to another,
    and `MergePatch`, which applies a patch to a document. */
module MergePatch {
  import opened Document

  /** Member `k` must appear in a patch from members `a` to members `b`:
      it was added, removed, or changed its value. */
  predicate Changed(a: map<string, Json>, b: map<string, Json>, k: string) {
    k !in a || k !in b || a[k] != b[k]
  }

  /** The merge patch from `original` to `modified` (`CreateMergePatch`). Between two
      objects it names every changed member: a removed member becomes `null`,
      and a present one gets the patch from its original value (absent reads as
      `null`) to its modified value, which is a nested patch when both values are
      objects and the modified value itself otherwise. Anything else is replaced
      wholesale by `modified`. */
  function Diff(original: Json, modified: Json): (patch: Json)
    decreases modified
    ensures !(original.Obj? && modified.Obj?) ==> patch == modified
    ensures original.Obj? && modified.Obj? ==> patch.Obj?
    ensures original.Obj? && modified.Obj? ==>
      forall k :: k in patch.fields <==> k in original.fields.Keys + modified.fields.Keys && Changed(original.fields, modified.fields, k)
    ensures original.Obj? && modified.Obj? ==>
      forall k :: k in patch.fields && k !in modified.fields ==> patch.fields[k] == Null
    ensures original.Obj? && modified.Obj? ==>
      forall k :: k in patch.fields && k in modified.fields && k !in original.fields ==> patch.fields[k] == modified.fields[k]
    ensures !modified.Null? ==> !patch.Null?
  {
    if original.Obj? && modified.Obj? then
      var a, b := original.fields, modified.fields;
      Obj(map k | k in a.Keys + b.Keys && Changed(a, b, k) ::
            if k in b then Diff(Lookup(a, k), b[k]) else Null)
    else
      modified
  }

  /** `MergePatch(target, patch)`, the algorithm of section 2 of RFC 7386:
      a non-object patch replaces the target; an object patch starts from the
      target's members (none if it is not an object), deletes each member the
      patch sets to `null` and merges every other patch member recursively. */
  function Apply(target: Json, patch: Json): (r: Json)
    decreases patch
    ensures !patch.Obj? ==> r == patch
    ensures patch.Obj? ==> r.Obj?
    ensures patch.Obj? ==>
      forall k :: k in patch.fields && patch.fields[k].Null? ==> k !in r.fields
    ensures patch.Obj? ==>
      forall k :: k in Members(target) && k !in patch.fields ==>
        k in r.fields && r.fields[k] == Members(target)[k]
    ensures patch.Obj? ==>
      forall k :: k in r.fields ==> k in patch.fields || k in Members(target)
  {
    match patch
    case Obj(p) =>
      var t := Members(target);
      Obj(map k | k in t.Keys + p.Keys && !(k in p && p[k].Null?) ::
            if k in p then Apply(Lookup(t, k), p[k]) else t[k])
    case _ => patch
  }

  /** The patch between two objects is empty exactly when they are equal; so
      a nested member is emitted exactly when its own patch is non-empty. */
  lemma DiffEmptyIffEqual(original: Json, modified: Json)
    requires original.Obj? && modified.Obj?
    ensures Diff(original, modified) == Empty <==> original == modified
  {
    var a, b := original.fields, modified.fields;
    if Diff(original, modified) == Empty {
      forall k | k in a.Keys + b.Keys
        ensures k in a && k in b && a[k] == b[k]
      {
        assert k !in Diff(original, modified).fields;
      }
      assert a == b;
    }
  }

  /** A member present in both objects, with object values on both sides,
      appears in the patch exactly when the nested patch is non-empty. */
  lemma NestedMemberEmittedIffNonEmpty(original: Json, modified: Json, k: string)
    requires original.Obj? && modified.Obj?
    requires k in original.fields && k in modified.fields
    requires original.fields[k].Obj? && modified.fields[k].Obj?
    ensures k in Diff(original, modified).fields <==> Diff(original.fields[k], modified.fields[k]) != Empty
  {
    DiffEmptyIffEqual(original.fields[k], modified.fields[k]);
  }

  /** The patch from an object to itself is empty. */
  lemma DiffSelfIsEmpty(d: Json)
    requires d.Obj?
    ensures Diff(d, d) == Empty
  {
    DiffEmptyIffEqual(d, d);
  }

  /** Applying `{}` leaves a document unchanged exactly when it is an object:
      RFC 7386 turns any non-object target of an object patch into `{}`. */
  lemma ApplyEmptyPatch(d: Json)
    ensures Apply(d, Empty) == d <==> d.Obj?
  {
    if d.Obj? {
      assert Apply(d, Empty).fields == d.fields;
    }
  }

  /** Idempotence: replaying the patch from a document to itself gives the
      document back, whatever its shape. */
  lemma ApplyDiffSelf(d: Json)
    ensures Apply(d, Diff(d, d)) == d
  {
    if d.Obj? {
      DiffSelfIsEmpty(d);
      ApplyEmptyPatch(d);
    }
  }

  /** Round trip: the patch from `original` to `modified`, applied to `original`, yields
      `modified`, provided `modified` holds no explicit `null` members (a merge patch
      cannot tell "set to null" from "remove"). */
  lemma {:induction false} RoundTrip(original: Json, modified: Json)
    requires NoNullMembers(modified)
    ensures Apply(original, Diff(original, modified)) == modified
    decreases modified
  {
    var patch := Diff(original, modified);
    var r := Apply(original, patch);
    match modified
    case Obj(b) =>
      var a := Members(original);
      forall k | k in b
        ensures k in r.fields && r.fields[k] == b[k]
      {
        RoundTrip(Lookup(a, k), b[k]);
        if original.Obj? {
          if k in patch.fields {
            assert patch.fields[k] == Diff(Lookup(a, k), b[k]);
          } else {
            ApplyDiffSelf(b[k]);
          }
        } else {
          assert Diff(Lookup(a, k), b[k]) == b[k];
        }
      }
      assert r.fields.Keys == b.Keys;
      assert r.fields == b;
    case _ =>
  }
}
