/** The interning repository: one object per string, built on first request. */
module Repositories {
  import opened Wrappers
  import opened Utf8

  /** A stored object; `source` is the string it was built from. */
  class Element<T> {
    const source: Bytes
    const value: T

    constructor (source: Bytes, value: T)
      ensures this.source == source && this.value == value
    {
      this.source, this.value := source, value;
    }
  }

  const MAX_CANDIDATE_SIZE := 80

  /** The text a candidate is stored under; over-long ones become empty and are never returned. */
  function Clipped(text: Bytes): Bytes
  {
    if |text| > MAX_CANDIDATE_SIZE then [] else text
  }

  /** holder keeps a null entry for a string whose constructor threw; build is None there. */
  class Repository<T> {
    var holder: map<Bytes, Element?<T>>
    const build: Bytes -> Option<T>
    const holdsCandidates: bool
    /** Every string requested so far, after clipping, with the object handed out for it. */
    ghost var served: seq<(Bytes, Element<T>)>

    constructor (build: Bytes -> Option<T>, holdsCandidates: bool)
      ensures Valid() && holder == map[] && served == []
      ensures this.build == build && this.holdsCandidates == holdsCandidates
    {
      this.build, this.holdsCandidates := build, holdsCandidates;
      holder, served := map[], [];
    }

    /** The string a request is interned under. */
    function Clip(text: Bytes): Bytes
    {
      if holdsCandidates then Clipped(text) else text
    }

    ghost predicate Valid()
      reads this
    {
      && (forall k :: k in holder && holder[k] != null ==>
           holder[k].source == k && build(k) == Some(holder[k].value))
      && (forall i :: 0 <= i < |served| ==> served[i].0 in holder && holder[served[i].0] == served[i].1)
    }

    /** The object already there, or a new one; None where the constructor throws. */
    method GetElement(text: Bytes) returns (r: Option<Element<T>>)
      requires Valid()
      modifies this`holder
      ensures Valid() && Grows(old(holder), holder)
      ensures holder.Keys == old(holder.Keys) + {Clip(text)}
      ensures r.Some? <==> build(Clip(text)).Some?
      ensures r.Some? ==> holder[Clip(text)] == r.value
    {
      var key := Clip(text);
      if key !in holder {
        holder := holder[key := null];
      }
      if holder[key] == null {
        var built := build(key);
        if built.None? { return None; }
        var element := new Element(key, built.value);
        holder := holder[key := element];
      }
      return Some(holder[key]);
    }

    /** The request goes on record. */
    ghost method Serve(elements: seq<Bytes>, objects: seq<Element<T>>)
      requires Valid() && |objects| == |elements|
      requires forall i :: 0 <= i < |elements| ==>
        Clip(elements[i]) in holder && holder[Clip(elements[i])] == objects[i]
      modifies this`served
      ensures Valid()
      ensures served ==
        old(served) + seq(|elements|, i requires 0 <= i < |elements| => (Clip(elements[i]), objects[i]))
    {
      var pairs := seq(|elements|, i requires 0 <= i < |elements| => (Clip(elements[i]), objects[i]));
      assert forall i :: 0 <= i < |pairs| ==> pairs[i].0 in holder && holder[pairs[i].0] == pairs[i].1;
      served := served + pairs;
    }

    method GetElements(elements: seq<Bytes>) returns (r: Option<seq<Element<T>>>)
      requires Valid()
      modifies this
      ensures Valid() && Grows(old(holder), holder)
      ensures r.Some? <==> forall i :: 0 <= i < |elements| ==> build(Clip(elements[i])).Some?
      ensures r.Some? ==> |r.value| == |elements|
      ensures r.Some? ==> holder.Keys == old(holder.Keys) + set i | 0 <= i < |elements| :: Clip(elements[i])
      ensures r.Some? ==> forall i :: 0 <= i < |elements| ==> holder[Clip(elements[i])] == r.value[i]
      ensures r.Some? ==>
        served == old(served) + seq(|elements|, i requires 0 <= i < |elements| => (Clip(elements[i]), r.value[i]))
      ensures r.None? ==> served == old(served)
    {
      var objects: seq<Element<T>> := [];
      for i := 0 to |elements|
        invariant Valid() && Grows(old(holder), holder) && served == old(served)
        invariant |objects| == i
        invariant holder.Keys == old(holder.Keys) + set j | 0 <= j < i :: Clip(elements[j])
        invariant forall j :: 0 <= j < i ==> build(Clip(elements[j])).Some?
        invariant forall j :: 0 <= j < i ==> holder[Clip(elements[j])] == objects[j]
      {
        var element := GetElement(elements[i]);
        if element.None? { return None; }
        objects := objects + [element.value];
      }
      Serve(elements, objects);
      return Some(objects);
    }
  }

  /** The map only grows, and an object once stored stays. */
  ghost predicate Grows<T>(before: map<Bytes, Element?<T>>, after: map<Bytes, Element?<T>>)
  {
    before.Keys <= after.Keys && forall k :: k in before && before[k] != null ==> after[k] == before[k]
  }

  /** Only a repository of candidates clips, at 80 bytes. */
  lemma ClipMeaning<T>(repository: Repository<T>, text: Bytes)
    ensures repository.Clip(text) == if repository.holdsCandidates && |text| > 80 then [] else text
  {
  }

  /** Over every run of requests: equal strings get the same object, different strings different ones, each built
      from its own. */
  lemma InterningOverRuns<T>(repository: Repository<T>, i: nat, j: nat)
    requires repository.Valid() && i < |repository.served| && j < |repository.served|
    ensures repository.served[i].0 == repository.served[j].0 <==> repository.served[i].1 == repository.served[j].1
    ensures repository.build(repository.served[i].0) == Some(repository.served[i].1.value)
  {
    assert repository.served[i].1.source == repository.served[i].0;
    assert repository.served[j].1.source == repository.served[j].0;
  }
}
