/** JSON Merge Patch (section 2 of RFC 7386): `deep_merge` and the laws of an overlay. */
module JsonMerge {

  datatype Json =
    | Null
    | Bool(b: bool)
    | Number(text: string)
    | Str(s: string)
    | Array(items: seq<Json>)
    | Object(members: map<string, Json>)

  const EMPTY_OBJECT := Object(map[])

  /** The members of an object; a value of another kind counts as the empty object. */
  function Members(j: Json): map<string, Json> {
    if j.Object? then j.members else map[]
  }

  function Member(j: Json, k: string): Json {
    if k in Members(j) then Members(j)[k] else Null
  }

  /** MergePatch(Target, Patch) of section 2 of RFC 7386. */
  function Merge(target: Json, patch: Json): Json
    decreases patch
  {
    if !patch.Object? then patch
    else
      var t, p := Members(target), patch.members;
      Object(map k | k in t.Keys + p.Keys && !(k in p && p[k].Null?)
             :: if k in p then Merge(Member(target, k), p[k]) else t[k])
  }

  /** What becomes of member `k`: kept where the patch does not mention it, gone where it says
      null, otherwise merged (into null, if there is none). */
  ghost predicate IsMergedAt(base: Json, patch: Json, result: Json, k: string)
    requires patch.Object? && result.Object?
  {
    var target := if base.Object? then base.members else map[];
    if k !in patch.members then
      (k in result.members <==> k in target) && (k in target ==> result.members[k] == target[k])
    else if patch.members[k] == Null then k !in result.members
    else
      && k in result.members
      && result.members[k] == Merge(if k in target then target[k] else Null, patch.members[k])
  }

  /** `deep_merge`: the members of the patch one by one, in any order. */
  method DeepMerge(base: Json, patch: Json) returns (r: Json)
    ensures r == Merge(base, patch)
    ensures !patch.Object? ==> r == patch
    ensures patch.Object? ==>
              && r.Object?
              && forall k :: IsMergedAt(base, patch, r, k)
    decreases patch
  {
    if !patch.Object? {
      return patch;
    }
    var members := Members(base);
    var todo := patch.members.Keys;
    ghost var done: set<string> := {};
    while todo != {}
      invariant todo + done == patch.members.Keys && todo !! done
      invariant forall k :: k in members <==>
                  if k in done then !patch.members[k].Null? else k in Members(base)
      invariant forall k :: k in members ==>
                  members[k] == if k in done then Merge(Member(base, k), patch.members[k]) else Members(base)[k]
      decreases todo
    {
      var k :| k in todo;
      var v := patch.members[k];
      if v.Null? {
        members := members - {k};
      } else {
        var slot := if k in members then members[k] else Null;
        var merged := DeepMerge(slot, v);
        members := members[k := merged];
      }
      todo, done := todo - {k}, done + {k};
    }
    r := Object(members);
    assert members == Merge(base, patch).members;
  }

  // ----------------------------------------------------------------- pointwise

  lemma {:induction false} MergeAt(target: Json, patch: Json, k: string)
    requires patch.Object?
    ensures Merge(target, patch).Object?
    ensures k in Members(Merge(target, patch)) <==>
              if k in patch.members then !patch.members[k].Null? else k in Members(target)
    ensures k in Members(Merge(target, patch)) ==>
              Member(Merge(target, patch), k)
              == if k in patch.members then Merge(Member(target, k), patch.members[k]) else Member(target, k)
  {}

  /** Objects are equal when they are equal at every key. */
  lemma {:induction false} ObjectsEqual(a: Json, b: Json)
    requires a.Object? && b.Object?
    requires forall k :: (k in a.members <==> k in b.members) && Member(a, k) == Member(b, k)
    ensures a == b
  {
    forall k | k in a.members ensures a.members[k] == b.members[k] {
      assert Member(a, k) == Member(b, k);
    }
  }

  lemma {:induction false} MergeNotNull(target: Json, patch: Json)
    requires !patch.Null?
    ensures !Merge(target, patch).Null?
  {}

  /** Applying a patch twice is applying it once. */
  lemma {:induction false} MergeIdempotent(target: Json, patch: Json)
    ensures Merge(Merge(target, patch), patch) == Merge(target, patch)
    decreases patch
  {
    if patch.Object? {
      var once := Merge(target, patch);
      var twice := Merge(once, patch);
      forall k ensures (k in twice.members <==> k in once.members) && Member(twice, k) == Member(once, k) {
        MergeAt(target, patch, k);
        MergeAt(once, patch, k);
        if k in patch.members && !patch.members[k].Null? {
          MergeIdempotent(Member(target, k), patch.members[k]);
        }
      }
      ObjectsEqual(twice, once);
    }
  }

  /** The patch has no null members, at any depth of nested objects. */
  ghost predicate NoNulls(patch: Json)
    decreases patch
  {
    patch.Object? ==> forall k :: k in patch.members ==> !patch.members[k].Null? && NoNulls(patch.members[k])
  }

  /** Patching the overlay has the effect of patching the configuration, whatever the base. */
  ghost predicate Composes(overlay: Json, patch: Json) {
    forall base :: Merge(base, Merge(overlay, patch)) == Merge(Merge(base, overlay), patch)
  }

  /** What a caller can check: wherever the patch has an object, the overlay has an object
      or (if the patch deletes nothing there) no member at all; and nowhere does the patch
      delete a member. */
  ghost predicate Compatible(overlay: Json, patch: Json)
    decreases patch
  {
    patch.Object? ==>
      && overlay.Object?
      && forall k :: k in patch.members ==>
           && !patch.members[k].Null?
           && (patch.members[k].Object? ==>
                if k in overlay.members then Compatible(overlay.members[k], patch.members[k])
                else NoNulls(patch.members[k]))
  }

  /** Without nulls, patching nothing gives the patch itself. */
  lemma {:induction false} CleanPatch(target: Json, patch: Json)
    requires NoNulls(patch) && !target.Object?
    ensures Merge(target, patch) == patch
    decreases patch
  {
    if patch.Object? {
      var m := Merge(target, patch);
      forall k ensures (k in m.members <==> k in patch.members) && Member(m, k) == Member(patch, k) {
        MergeAt(target, patch, k);
        if k in patch.members { CleanPatch(Null, patch.members[k]); }
      }
      ObjectsEqual(m, patch);
    }
  }

  lemma {:induction false} CompatibleComposes(base: Json, overlay: Json, patch: Json)
    requires Compatible(overlay, patch)
    ensures Merge(base, Merge(overlay, patch)) == Merge(Merge(base, overlay), patch)
    decreases patch
  {
    if patch.Object? {
      var inner, both := Merge(overlay, patch), Merge(base, overlay);
      var left, right := Merge(base, inner), Merge(both, patch);
      forall k ensures (k in left.members <==> k in right.members) && Member(left, k) == Member(right, k) {
        MergeAt(overlay, patch, k);
        MergeAt(base, inner, k);
        MergeAt(base, overlay, k);
        MergeAt(both, patch, k);
        if k in patch.members {
          var p := patch.members[k];
          MergeNotNull(Member(overlay, k), p);
          if p.Object? {
            if k in overlay.members {
              CompatibleComposes(Member(base, k), overlay.members[k], p);
            } else {
              CleanPatch(Null, p);
            }
          }
        }
      }
      ObjectsEqual(left, right);
    }
  }

  // ------------------------------------------------- the condition is necessary

  lemma {:induction false} LongerThanAll(keys: set<string>) returns (n: nat)
    ensures forall k :: k in keys ==> |k| <= n
  {
    if keys == {} {
      n := 0;
    } else {
      var k :| k in keys;
      var m := LongerThanAll(keys - {k});
      n := if m < |k| then |k| else m;
      forall l | l in keys ensures |l| <= n { assert l == k || l in keys - {k}; }
    }
  }

  lemma {:induction false} FreshKey(keys: set<string>) returns (k: string)
    ensures k !in keys
  {
    var n := LongerThanAll(keys);
    k := seq(n + 1, _ => 'k');
  }

  /** A null in the patch deletes from a base what its clean form would keep. */
  lemma {:induction false} NullMatters(patch: Json) returns (base: Json)
    requires patch.Object? && !NoNulls(patch)
    ensures Merge(base, Merge(Null, patch)) != Merge(base, patch)
    decreases patch
  {
    var k :| k in patch.members && (patch.members[k].Null? || !NoNulls(patch.members[k]));
    var clean := Merge(Null, patch);
    MergeAt(Null, patch, k);
    if patch.members[k].Null? {
      base := Object(map[k := Bool(true)]);
    } else {
      var inner := NullMatters(patch.members[k]);
      base := Object(map[k := inner]);
      MergeNotNull(Null, patch.members[k]);
      MergeNotNull(inner, patch.members[k]);
    }
    MergeAt(base, clean, k);
    MergeAt(base, patch, k);
  }

  lemma {:induction false} NotAnObject(overlay: Json, patch: Json) returns (base: Json)
    requires patch.Object? && !overlay.Object?
    ensures Merge(base, Merge(overlay, patch)) != Merge(Merge(base, overlay), patch)
  {
    var z := FreshKey(patch.members.Keys);
    base := Object(map[z := Bool(true)]);
    MergeAt(overlay, patch, z);
    MergeAt(base, Merge(overlay, patch), z);
    MergeAt(Merge(base, overlay), patch, z);
  }

  /** One level down: a base that separates the two at member `k`. */
  lemma {:induction false} SeparatedAt(overlay: Json, patch: Json, k: string, inner: Json)
    requires patch.Object? && overlay.Object? && k in patch.members && patch.members[k].Object?
    requires Merge(inner, Merge(Member(overlay, k), patch.members[k]))
             != Merge(if k in overlay.members then Merge(inner, overlay.members[k]) else inner, patch.members[k])
    ensures var base := Object(map[k := inner]);
            Merge(base, Merge(overlay, patch)) != Merge(Merge(base, overlay), patch)
  {
    var base := Object(map[k := inner]);
    MergeAt(overlay, patch, k);
    MergeAt(base, Merge(overlay, patch), k);
    MergeAt(base, overlay, k);
    MergeAt(Merge(base, overlay), patch, k);
    MergeNotNull(Member(overlay, k), patch.members[k]);
  }

  /** Where the condition fails there is a base on which the two ways differ. */
  lemma {:induction false} IncompatibleDiffers(overlay: Json, patch: Json) returns (base: Json)
    requires !Compatible(overlay, patch)
    ensures Merge(base, Merge(overlay, patch)) != Merge(Merge(base, overlay), patch)
    decreases patch
  {
    if !overlay.Object? {
      base := NotAnObject(overlay, patch);
    } else if k :| k in patch.members && patch.members[k].Null? {
      base := Object(map[k := Bool(true)]);
      MergeAt(overlay, patch, k);
      MergeAt(base, Merge(overlay, patch), k);
      MergeAt(Merge(base, overlay), patch, k);
    } else {
      var k :| k in patch.members && patch.members[k].Object?
               && !(if k in overlay.members then Compatible(overlay.members[k], patch.members[k])
                    else NoNulls(patch.members[k]));
      var inner: Json;
      if k in overlay.members {
        inner := IncompatibleDiffers(overlay.members[k], patch.members[k]);
      } else {
        inner := NullMatters(patch.members[k]);
      }
      SeparatedAt(overlay, patch, k, inner);
      base := Object(map[k := inner]);
    }
  }

  /** Accumulating a patch in the overlay equals applying it to the effective
      configuration, for every base, exactly when the two are compatible. */
  lemma {:induction false} ComposesExactly(overlay: Json, patch: Json)
    ensures Composes(overlay, patch) <==> Compatible(overlay, patch)
  {
    if Compatible(overlay, patch) {
      forall base ensures Merge(base, Merge(overlay, patch)) == Merge(Merge(base, overlay), patch) {
        CompatibleComposes(base, overlay, patch);
      }
    } else {
      var base := IncompatibleDiffers(overlay, patch);
    }
  }

  /** A patch `{k: null}` gives member `k` back to the base and leaves the others alone. */
  lemma {:induction false} NullReverts(base: Json, overlay: Json, k: string)
    requires overlay.Object?
    ensures var r := Merge(base, Merge(overlay, Object(map[k := Null])));
            && r.Object?
            && (k in r.members <==> k in Members(base)) && Member(r, k) == Member(base, k)
            && forall l :: l != k ==>
                 (l in r.members <==> l in Members(Merge(base, overlay)))
                 && Member(r, l) == Member(Merge(base, overlay), l)
  {
    var patch := Object(map[k := Null]);
    var trimmed := Merge(overlay, patch);
    MergeAt(overlay, patch, k);
    MergeAt(base, trimmed, k);
    forall l | l != k
      ensures l in Members(Merge(base, trimmed)) <==> l in Members(Merge(base, overlay))
      ensures Member(Merge(base, trimmed), l) == Member(Merge(base, overlay), l)
    {
      MergeAt(overlay, patch, l);
      MergeAt(base, trimmed, l);
      MergeAt(base, overlay, l);
    }
  }

  // ------------------------------------------------------------- examples of RFC 7386

  function One(k: string, v: Json): Json { Object(map[k := v]) }

  /** Merging objects with at most one member each. */
  lemma {:induction false} MergeOne(k: string, v: Json, w: Json)
    ensures Merge(One(k, v), One(k, w)) == if w.Null? then Object(map[]) else One(k, Merge(v, w))
    ensures !v.Object? ==> Merge(v, One(k, w)) == if w.Null? then Object(map[]) else One(k, Merge(Null, w))
    ensures Merge(Object(map[]), One(k, w)) == if w.Null? then Object(map[]) else One(k, Merge(Null, w))
  {
    var a, b := Merge(One(k, v), One(k, w)), Merge(Object(map[]), One(k, w));
    assert a.members == if w.Null? then map[] else map[k := Merge(v, w)];
    assert b.members == if w.Null? then map[] else map[k := Merge(Null, w)];
    if !v.Object? { assert Merge(v, One(k, w)).members == b.members; }
  }

  /** From appendix A of RFC 7386: {"a":"b"} with {"a":"c"} and with {"a":null}, ["a","b"] with
      ["c","d"], "bar" with {"a":"b"}, {"a":{"b":"c"}} with {"a":{"b":"d"}}, and {} with
      {"a":{"bb":{"ccc":null}}}. */
  lemma {:induction false} Examples()
    ensures Merge(One("a", Str("b")), One("a", Str("c"))) == One("a", Str("c"))
    ensures Merge(One("a", Str("b")), One("a", Null)) == Object(map[])
    ensures Merge(Array([Str("a"), Str("b")]), Array([Str("c"), Str("d")])) == Array([Str("c"), Str("d")])
    ensures Merge(Str("bar"), One("a", Str("b"))) == One("a", Str("b"))
    ensures Merge(One("a", One("b", Str("c"))), One("a", One("b", Str("d")))) == One("a", One("b", Str("d")))
    ensures Merge(Object(map[]), One("a", One("bb", One("ccc", Null)))) == One("a", One("bb", Object(map[])))
  {
    MergeOne("a", Str("b"), Str("c"));
    MergeOne("a", Str("b"), Null);
    MergeOne("a", Str("bar"), Str("b"));
    MergeOne("b", Str("c"), Str("d"));
    MergeOne("a", One("b", Str("c")), One("b", Str("d")));
    MergeOne("ccc", Null, Null);
    MergeOne("bb", Null, One("ccc", Null));
    MergeOne("a", Null, One("bb", One("ccc", Null)));
  }
}
