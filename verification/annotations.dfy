/** The annotation lookups of `ReflectionUtil`: `getMethodsAnnotatedWith` and
    `getFieldsAnnotatedWith` filter a type's directly declared methods or
    fields. As written, the filter asks whether the annotation is present on
    the reflection class of the member (`java.lang.reflect.Method` or
    `java.lang.reflect.Field`), not on the member; that class's annotations
    are a parameter here. The member-level lookup the documentation describes
    is modelled alongside. */
module Annotations {
  import opened Wrappers
  import opened Types

  /** `a` occurs in `b` in order: `idx` picks, for each element of `a`, a
      strictly later position of `b` holding it. */
  ghost predicate Embeds<T>(a: seq<T>, b: seq<T>, idx: seq<nat>) {
    && |idx| == |a|
    && (forall k :: 0 <= k < |idx| ==> idx[k] < |b| && a[k] == b[idx[k]])
    && (forall k, l :: 0 <= k < l < |idx| ==> idx[k] < idx[l])
  }

  /** `a` is an order-preserving subsequence of `b`. */
  ghost predicate IsSubsequence<T>(a: seq<T>, b: seq<T>) {
    exists idx :: Embeds(a, b, idx)
  }

  /** The members of `ms` that `keep` accepts, in their original order
      (Java's `stream().filter(keep).collect(toList())`). Every accepted
      occurrence is kept: two equal members (overloads, say) both stay. */
  function Filter(ms: seq<Member>, keep: Member -> bool): (r: seq<Member>)
    ensures |r| <= |ms|
    ensures forall m :: m in r <==> m in ms && keep(m)
    ensures forall m :: multiset(r)[m] == if keep(m) then multiset(ms)[m] else 0
  {
    if ms == [] then []
    else
      var rest := Filter(ms[1..], keep);
      assert multiset(ms) == multiset{ms[0]} + multiset(ms[1..]) by {
        assert ms == [ms[0]] + ms[1..];
      }
      if keep(ms[0]) then
        assert multiset([ms[0]] + rest) == multiset{ms[0]} + multiset(rest);
        [ms[0]] + rest
      else
        rest
  }

  /** The filter keeps the order of the members it keeps. */
  lemma {:induction false} FilterIsSubsequence(ms: seq<Member>, keep: Member -> bool)
    ensures IsSubsequence(Filter(ms, keep), ms)
  {
    var idx := FilterPositions(ms, keep);
  }

  /** The positions in `ms` of the members the filter keeps. */
  lemma {:induction false} FilterPositions(ms: seq<Member>, keep: Member -> bool) returns (idx: seq<nat>)
    ensures Embeds(Filter(ms, keep), ms, idx)
    decreases |ms|
  {
    if ms == [] {
      idx := [];
    } else {
      var rest := FilterPositions(ms[1..], keep);
      var shifted := EmbedsInTail(Filter(ms[1..], keep), ms, rest);
      if keep(ms[0]) {
        idx := EmbedsCons(Filter(ms[1..], keep), ms, shifted);
      } else {
        idx := shifted;
      }
    }
  }

  /** An embedding into `ms[1..]`, moved one position on, embeds into `ms`
      and avoids position 0. */
  lemma EmbedsInTail<T>(a: seq<T>, ms: seq<T>, rest: seq<nat>) returns (idx: seq<nat>)
    requires ms != [] && Embeds(a, ms[1..], rest)
    ensures Embeds(a, ms, idx)
    ensures forall k :: 0 <= k < |idx| ==> idx[k] > 0
  {
    idx := seq(|rest|, k requires 0 <= k < |rest| => rest[k] + 1);
    forall k | 0 <= k < |idx|
      ensures idx[k] < |ms| && a[k] == ms[idx[k]]
    {
      assert ms[1..][rest[k]] == ms[rest[k] + 1];
    }
  }

  /** Position 0 followed by an embedding that avoids it embeds `[ms[0]] + a`. */
  lemma EmbedsCons<T>(a: seq<T>, ms: seq<T>, tail: seq<nat>) returns (idx: seq<nat>)
    requires ms != [] && Embeds(a, ms, tail)
    requires forall k :: 0 <= k < |tail| ==> tail[k] > 0
    ensures Embeds([ms[0]] + a, ms, idx)
  {
    idx := [0] + tail;
    var b := [ms[0]] + a;
    forall k | 0 <= k < |idx|
      ensures idx[k] < |ms| && b[k] == ms[idx[k]]
    {
      if k > 0 {
        assert idx[k] == tail[k - 1] && b[k] == a[k - 1];
      }
    }
    forall k, l | 0 <= k < l < |idx|
      ensures idx[k] < idx[l]
    {
      assert idx[l] == tail[l - 1];
      if k > 0 {
        assert idx[k] == tail[k - 1];
      }
    }
  }

  /** A filter whose test ignores the member keeps everything or nothing. */
  lemma {:induction false} FilterConstant(ms: seq<Member>, keep: Member -> bool, b: bool)
    requires forall m :: keep(m) == b
    ensures Filter(ms, keep) == if b then ms else []
    decreases |ms|
  {
    if ms != [] {
      FilterConstant(ms[1..], keep, b);
      assert ms == [ms[0]] + ms[1..];
    }
  }

  // ---------------------------------------------------------------------------
  // As written

  /** `getMethodsAnnotatedWith(clazz, annotation)`: `methodClassAnnotations`
      are the annotations present on the class `java.lang.reflect.Method`. */
  function MethodsAnnotatedWith(t: Type, annotation: Annotation, methodClassAnnotations: set<Annotation>): (r: seq<Member>)
    ensures r == (if annotation in methodClassAnnotations then t.methods else [])
  {
    FilterConstant(t.methods, m => annotation in methodClassAnnotations, annotation in methodClassAnnotations);
    Filter(t.methods, m => annotation in methodClassAnnotations)
  }

  /** `getFieldsAnnotatedWith(clazz, annotation)`: `fieldClassAnnotations`
      are the annotations present on the class `java.lang.reflect.Field`. */
  function FieldsAnnotatedWith(t: Type, annotation: Annotation, fieldClassAnnotations: set<Annotation>): (r: seq<Member>)
    ensures r == (if annotation in fieldClassAnnotations then t.fields else [])
  {
    FilterConstant(t.fields, f => annotation in fieldClassAnnotations, annotation in fieldClassAnnotations);
    Filter(t.fields, f => annotation in fieldClassAnnotations)
  }

  /** Both lookups return an order-preserving subsequence of what `t` itself
      declares, and nothing when `t` declares nothing. */
  lemma LookupsAreDeclaredSubsequences(t: Type, annotation: Annotation, methodClass: set<Annotation>, fieldClass: set<Annotation>)
    ensures IsSubsequence(MethodsAnnotatedWith(t, annotation, methodClass), t.methods)
    ensures IsSubsequence(FieldsAnnotatedWith(t, annotation, fieldClass), t.fields)
    ensures t.methods == [] ==> MethodsAnnotatedWith(t, annotation, methodClass) == []
    ensures t.fields == [] ==> FieldsAnnotatedWith(t, annotation, fieldClass) == []
  {
    FilterIsSubsequence(t.methods, m => annotation in methodClass);
    FilterIsSubsequence(t.fields, f => annotation in fieldClass);
  }

  // ---------------------------------------------------------------------------
  // As documented: the annotation looked up on the member itself

  /** The declared methods of `t` that carry `annotation`, in declaration
      order and with every occurrence kept. */
  function MethodsMarkedWith(t: Type, annotation: Annotation): (r: seq<Member>)
    ensures forall m :: m in r <==> m in t.methods && annotation in m.annotations
    ensures forall m :: multiset(r)[m] == if annotation in m.annotations then multiset(t.methods)[m] else 0
    ensures IsSubsequence(r, t.methods)
  {
    FilterIsSubsequence(t.methods, (m: Member) => annotation in m.annotations);
    Filter(t.methods, (m: Member) => annotation in m.annotations)
  }

  /** The declared fields of `t` that carry `annotation`, in declaration
      order and with every occurrence kept. */
  function FieldsMarkedWith(t: Type, annotation: Annotation): (r: seq<Member>)
    ensures forall f :: f in r <==> f in t.fields && annotation in f.annotations
    ensures forall f :: multiset(r)[f] == if annotation in f.annotations then multiset(t.fields)[f] else 0
    ensures IsSubsequence(r, t.fields)
  {
    FilterIsSubsequence(t.fields, (f: Member) => annotation in f.annotations);
    Filter(t.fields, (f: Member) => annotation in f.annotations)
  }

  /** A listener declaring one method annotated `Subscribe`: the lookup as
      written finds nothing, because `Method` itself carries no `Subscribe`,
      while the member-level lookup finds the method. */
  lemma AnnotatedMethodMissed()
    ensures
      var handler := Member("onEvent", {"Subscribe"});
      var listener := Type("Listener", None, [], [handler], []);
      && MethodsAnnotatedWith(listener, "Subscribe", {}) == []
      && MethodsMarkedWith(listener, "Subscribe") == [handler]
  {
    var handler := Member("onEvent", {"Subscribe"});
    var listener := Type("Listener", None, [], [handler], []);
    var r := MethodsMarkedWith(listener, "Subscribe");
    assert handler in r;
    assert |r| <= 1;
  }

  /** A class declaring one field annotated `Inject`: the lookup as written
      finds nothing, because `Field` itself carries no `Inject`, while the
      member-level lookup finds the field. */
  lemma AnnotatedFieldMissed()
    ensures
      var logger := Member("logger", {"Inject"});
      var service := Type("Service", None, [], [], [logger]);
      && FieldsAnnotatedWith(service, "Inject", {}) == []
      && FieldsMarkedWith(service, "Inject") == [logger]
  {
    var logger := Member("logger", {"Inject"});
    var service := Type("Service", None, [], [], [logger]);
    var r := FieldsMarkedWith(service, "Inject");
    assert logger in r;
    assert |r| <= 1;
  }
}
