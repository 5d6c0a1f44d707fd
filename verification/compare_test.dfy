/** The cases of `Test_Compare`, with each test pod given by its JSON
    encoding (abridged to the members the cases exercise). */
module CompareScenarios {
  import opened Wrappers
  import opened Document
  import opened Decoding
  import opened Compare

  /** The test pods stand for their own encodings; encoding them cannot fail. */
  function Encode(pod: Json): Result<Json, Error> {
    Success(pod)
  }

  /** `containerPort: 80`, the one port of the cases that have ports. */
  const Port80: Json := Obj(map["containerPort" := Int(80)])

  /** A container named `container1`, with its port list when one is given. */
  function Container(image: string, ports: Option<seq<Json>>): Json {
    var base := map["name" := Str("container1"), "image" := Str(image), "resources" := Empty];
    match ports
    case None => Obj(base)
    case Some(p) => Obj(base["ports" := Arr(p)])
  }

  /** Pod `pod1` in namespace `default` with a single container. A zero
      creation timestamp encodes as `null`. */
  function Pod(creationTimestamp: Json, container: Json): Json {
    Obj(map[
      "metadata" := Obj(map[
        "name" := Str("pod1"),
        "namespace" := Str("default"),
        "creationTimestamp" := creationTimestamp]),
      "spec" := Obj(map["containers" := Arr([container])]),
      "status" := Empty])
  }

  const Now: Json := Str("2024-01-01T00:00:00Z")

  /** "Pod objects are equal". */
  lemma IdenticalPodsAreEqual()
    ensures IsEqual(Encode, Pod(Null, Container("nginx", None)), Pod(Null, Container("nginx", None)))
      == Verdict(true, None)
  {
    IsEqualReflexive(Encode, Pod(Null, Container("nginx", None)));
  }

  /** A pod with a differing container is not tolerated. */
  lemma ContainerNotTolerated(ts: Json, oc: Json, nc: Json)
    requires !Embeds(oc, nc)
    ensures !Tolerates(Pod(ts, oc), Pod(ts, nc))
  {
    var os, ns := Pod(ts, oc).fields["spec"], Pod(ts, nc).fields["spec"];
    assert Arr([nc]).items[0] == nc;
    assert !Tolerates(os.fields["containers"], ns.fields["containers"]);
    assert !Tolerates(os, ns);
  }

  /** A pod whose new container fits the old one's types decodes onto it. */
  lemma ContainerDecodable(ts: Json, oc: Json, nc: Json)
    requires Decodable(oc, nc)
    ensures Decodable(Pod(ts, oc), Pod(ts, nc))
  {
    var o, n := Pod(ts, oc), Pod(ts, nc);
    assert Decodable(Arr([oc]), Arr([nc]));
    assert Decodable(o.fields["spec"], n.fields["spec"]);
    UnmarshalSelf(o.fields["metadata"]);
    UnmarshalSelf(Empty);
  }

  /** "Pod objects are not equal": the image differs. */
  lemma ChangedImageIsNotEqual()
    ensures IsEqual(Encode, Pod(Null, Container("nginx:v1", None)), Pod(Null, Container("nginx:v2", None)))
      == Verdict(false, None)
  {
    var oc, nc := Container("nginx:v1", None), Container("nginx:v2", None);
    assert !Embeds(oc, nc) by {
      assert "image" in nc.fields && !Embeds(oc.fields["image"], nc.fields["image"]);
    }
    assert Decodable(oc, nc);
    ContainerNotTolerated(Null, oc, nc);
    ContainerDecodable(Null, oc, nc);
    IsEqualIffTolerates(Encode, Pod(Null, oc), Pod(Null, nc));
    IsEqualNoError(Encode, Pod(Null, oc), Pod(Null, nc));
  }

  /** "Pod objects are equal but old contains creation timestamp": the new
      pod's zero timestamp encodes as `null`, which is tolerated. */
  lemma TimestampOnlyInOldIsEqual()
    ensures IsEqual(Encode, Pod(Now, Container("nginx", None)), Pod(Null, Container("nginx", None)))
      == Verdict(true, None)
  {
    var o, n := Pod(Now, Container("nginx", None)), Pod(Null, Container("nginx", None));
    ToleratesReflexive(o.fields["spec"]);
    ToleratesReflexive(Empty);
    assert Tolerates(o.fields["metadata"], n.fields["metadata"]);
    assert Tolerates(o, n);
    IsEqualIffTolerates(Encode, o, n);
  }

  /** "Pod objects are equal but old container has additional field": the
      patch replaces the container list, but decoding it onto the old list
      keeps the old container's ports. */
  lemma PortsOnlyInOldIsEqual()
    ensures IsEqual(Encode, Pod(Null, Container("nginx", Some([Port80]))), Pod(Null, Container("nginx", None)))
      == Verdict(true, None)
  {
    var o, n := Pod(Null, Container("nginx", Some([Port80]))), Pod(Null, Container("nginx", None));
    var oc, nc := Container("nginx", Some([Port80])), Container("nginx", None);
    assert Embeds(oc, nc) by {
      EmbedsReflexive(Empty);
    }
    assert Tolerates(o.fields["spec"], n.fields["spec"]) by {
      assert Embeds(Arr([oc]), Arr([nc]));
    }
    ToleratesReflexive(o.fields["metadata"]);
    ToleratesReflexive(Empty);
    assert Tolerates(o, n);
    IsEqualIffTolerates(Encode, o, n);
  }

  /** "Pod objects are equal but old missing field": ports set only in the
      new container give `false`. */
  lemma PortsOnlyInNewIsNotEqual()
    ensures IsEqual(Encode, Pod(Null, Container("nginx", None)), Pod(Null, Container("nginx", Some([Port80]))))
      == Verdict(false, None)
  {
    var oc, nc := Container("nginx", None), Container("nginx", Some([Port80]));
    assert !Embeds(oc, nc) by {
      assert "ports" in nc.fields && "ports" !in oc.fields;
    }
    assert Decodable(oc, nc);
    ContainerNotTolerated(Null, oc, nc);
    ContainerDecodable(Null, oc, nc);
    IsEqualIffTolerates(Encode, Pod(Null, oc), Pod(Null, nc));
    IsEqualNoError(Encode, Pod(Null, oc), Pod(Null, nc));
  }
}
