/** Turning Swagger references with siblings into OpenAPI 3.0 `allOf` pairs: the rewrite, and
    what it counts and keeps. */
module RefSiblings {
  import opened Results
  import opened Numerals
  import opened JsonTree
  import opened JsonPointer

  predicate HasSiblings(fields: map<string, Json>) {
    REF in fields && |fields| > 1
  }

  // ---------- what is accepted, and the result ----------

  /** The documents the rewrite accepts: wherever `$ref` has siblings it is a string. */
  predicate Accepted(value: Json)
    decreases value, 1
  {
    match value
    case Arr(_) => AcceptedItems(value)
    case Obj(fields) => AcceptedMembers(value) && (HasSiblings(fields) ==> fields[REF].Str?)
    case _ => true
  }

  predicate AcceptedItems(value: Json)
    requires value.Arr?
    decreases value, 0
  {
    forall i | 0 <= i < |value.items| :: Accepted(value.items[i])
  }

  predicate AcceptedMembers(value: Json)
    requires value.Obj?
    decreases value, 0
  {
    forall k | k in value.fields :: Accepted(value.fields[k])
  }

  /** The reference on its own, next to everything that stood beside it. */
  function Pair(fields: map<string, Json>): Json
    requires REF in fields
  {
    Obj(map["allOf" := Arr([Obj(map[REF := fields[REF]]), Obj(fields - {REF})])])
  }

  function Normalized(value: Json): Json
    decreases value, 1
  {
    match value
    case Arr(_) => Arr(NormalizedItems(value))
    case Obj(_) =>
      var members := NormalizedMembers(value);
      if HasSiblings(members) then Pair(members) else Obj(members)
    case _ => value
  }

  function NormalizedItems(value: Json): (r: seq<Json>)
    requires value.Arr?
    ensures |r| == |value.items|
    decreases value, 0
  {
    seq(|value.items|, i requires 0 <= i < |value.items| => Normalized(value.items[i]))
  }

  function NormalizedMembers(value: Json): (r: map<string, Json>)
    requires value.Obj?
    ensures r.Keys == value.fields.Keys
    decreases value, 0
  {
    map k | k in value.fields :: Normalized(value.fields[k])
  }

  /** Rewriting the members keeps the keys, and strings stay the same strings. */
  lemma MembersShape(value: Json)
    requires value.Obj?
    ensures var members := NormalizedMembers(value);
            && HasSiblings(members) == HasSiblings(value.fields)
            && (forall k | k in members :: members[k].Str? == value.fields[k].Str?)
            && (forall k | k in members :: members[k].Arr? == value.fields[k].Arr?)
            && (forall k | k in members && members[k].Str? :: members[k] == value.fields[k])
  {
    assert |NormalizedMembers(value).Keys| == |value.fields.Keys|;
  }

  // ---------- counting objects ----------

  /** What is counted: references with siblings, or references to one place. */
  datatype Kind = WithSiblings | To(ref: Json)

  function Bit(b: bool): nat { if b then 1 else 0 }

  function Weight(kind: Kind, fields: map<string, Json>): nat {
    match kind
    case WithSiblings => Bit(HasSiblings(fields))
    case To(ref) => Bit(REF in fields && fields[REF] == ref)
  }

  ghost function SeqSum(s: seq<nat>): nat {
    if s == [] then 0 else s[0] + SeqSum(s[1..])
  }

  /** The number of objects of a kind anywhere in the tree. */
  ghost function Count(kind: Kind, value: Json): nat
    decreases value, 1
  {
    match value
    case Arr(_) => SeqSum(ItemCounts(kind, value))
    case Obj(fields) => Weight(kind, fields) + Sum(MemberCounts(kind, value))
    case _ => 0
  }

  ghost function ItemCounts(kind: Kind, value: Json): (r: seq<nat>)
    requires value.Arr?
    ensures |r| == |value.items|
    decreases value, 0
  {
    seq(|value.items|, i requires 0 <= i < |value.items| => Count(kind, value.items[i]))
  }

  ghost function MemberCounts(kind: Kind, value: Json): (r: map<string, nat>)
    requires value.Obj?
    ensures r.Keys == value.fields.Keys
    decreases value, 0
  {
    map k | k in value.fields :: Count(kind, value.fields[k])
  }

  // ---------- the rewrite in place ----------

  method NormalizeRefSiblings(value: Json) returns (r: Result<(Json, nat), string>)
    ensures r.Ok? <==> Accepted(value)
    ensures r.Ok? ==> r.value == (Normalized(value), Count(WithSiblings, value))
    decreases value, 1
  {
    if value.Arr? {
      var items, count, failed := NormalizeItems(value);
      return if failed then Err("$ref value must be a string") else Ok((Arr(items), count));
    } else if value.Obj? {
      var fields, count, failed := NormalizeMembers(value);
      if failed {
        return Err("$ref value must be a string");
      }
      MembersShape(value);
      r := PairSiblings(fields, count);
    } else {
      return Ok((value, 0));
    }
  }

  /** Items are overwritten in order, until one of them is refused. */
  method NormalizeItems(value: Json) returns (items: seq<Json>, count: nat, failed: bool)
    requires value.Arr?
    ensures failed == !AcceptedItems(value)
    ensures !failed ==> items == NormalizedItems(value) && count == SeqSum(ItemCounts(WithSiblings, value))
    decreases value, 0
  {
    items, count, failed := value.items, 0, false;
    ghost var counts := ItemCounts(WithSiblings, value);
    for index := 0 to |items|
      invariant |items| == |value.items|
      invariant forall i | 0 <= i < index :: Accepted(value.items[i]) && items[i] == Normalized(value.items[i])
      invariant forall i | index <= i < |items| :: items[i] == value.items[i]
      invariant count + SeqSum(counts[index..]) == SeqSum(counts)
    {
      var item := NormalizeRefSiblings(items[index]);
      if item.Err? {
        return items, count, true;
      }
      items := items[index := item.value.0];
      count := count + item.value.1;
      assert counts[index..][1..] == counts[index + 1..];
    }
  }

  /** The members are rewritten but for those still to do. */
  ghost predicate RewrittenBut(value: Json, fields: map<string, Json>, todo: set<string>)
    requires value.Obj?
  {
    && todo <= value.fields.Keys && fields.Keys == value.fields.Keys
    && (forall k | k in todo :: fields[k] == value.fields[k])
    && (forall k | k in fields && k !in todo :: Accepted(value.fields[k]) && fields[k] == Normalized(value.fields[k]))
  }

  lemma MemberRewritten(value: Json, fields: map<string, Json>, todo: set<string>, key: string)
    requires value.Obj? && RewrittenBut(value, fields, todo) && key in todo && Accepted(value.fields[key])
    ensures RewrittenBut(value, fields[key := Normalized(value.fields[key])], todo - {key})
  {
  }

  lemma AllRewritten(value: Json, fields: map<string, Json>)
    requires value.Obj? && RewrittenBut(value, fields, {})
    ensures AcceptedMembers(value) && fields == NormalizedMembers(value)
  {
  }

  /** Members are overwritten in any order, until one of them is refused. */
  method NormalizeMembers(value: Json) returns (fields: map<string, Json>, count: nat, failed: bool)
    requires value.Obj?
    ensures failed == !AcceptedMembers(value)
    ensures !failed ==> fields == NormalizedMembers(value) && count == Sum(MemberCounts(WithSiblings, value))
    decreases value, 0
  {
    fields, count, failed := value.fields, 0, false;
    var todo := fields.Keys;
    ghost var counts := MemberCounts(WithSiblings, value);
    while todo != {}
      invariant RewrittenBut(value, fields, todo)
      invariant counts.Keys == todo && forall k | k in todo :: counts[k] == Count(WithSiblings, value.fields[k])
      invariant count + Sum(counts) == Sum(MemberCounts(WithSiblings, value))
    {
      var key :| key in todo;
      var item := NormalizeRefSiblings(fields[key]);
      if item.Err? {
        return fields, count, true;
      }
      SumRemove(counts, key);
      MemberRewritten(value, fields, todo, key);
      fields := fields[key := item.value.0];
      count := count + item.value.1;
      todo, counts := todo - {key}, counts - {key};
    }
    assert counts == map[];
    AllRewritten(value, fields);
  }

  /** A `$ref` that has siblings is split off. */
  method PairSiblings(fields: map<string, Json>, count: nat) returns (r: Result<(Json, nat), string>)
    ensures r.Ok? <==> (HasSiblings(fields) ==> fields[REF].Str?)
    ensures r.Ok? ==> r.value.0 == if HasSiblings(fields) then Pair(fields) else Obj(fields)
    ensures r.Ok? ==> r.value.1 == count + Weight(WithSiblings, fields)
  {
    if REF in fields && |fields| > 1 {
      var ref := fields[REF];
      if !ref.Str? {
        return Err("$ref value must be a string");
      }
      var siblings := fields - {REF};
      return Ok((Obj(map["allOf" := Arr([Obj(map[REF := ref]), Obj(siblings)])]), count + 1));
    }
    return Ok((Obj(fields), count));
  }

  /** An object with a reference and siblings becomes one with a single key, `allOf`, of the
      reference on its own and then everything else; nothing else changes its shape. */
  lemma NormalizedShape(value: Json)
    ensures
      var n := Normalized(value);
      match value
      case Arr(items) =>
        n.Arr? && |n.items| == |items| && forall i | 0 <= i < |items| :: n.items[i] == Normalized(items[i])
      case Obj(fields) =>
        if "$ref" in fields && |fields| > 1 then
          && n.Obj? && n.fields.Keys == {"allOf"} && n.fields["allOf"].Arr? && |n.fields["allOf"].items| == 2
          && n.fields["allOf"].items[0] == Obj(map["$ref" := Normalized(fields["$ref"])])
          && IsNormalizedObject(n.fields["allOf"].items[1], fields - {"$ref"})
        else IsNormalizedObject(n, fields)
      case _ => n == value
  {
    if value.Obj? { MembersShape(value); }
  }

  predicate IsNormalizedObject(n: Json, fields: map<string, Json>) {
    n.Obj? && n.fields.Keys == fields.Keys && forall k | k in fields :: n.fields[k] == Normalized(fields[k])
  }

  // ---------- what is accepted, by the walk ----------

  ghost predicate Acceptable(visits: seq<Visit>) {
    forall v | v in visits :: HasSiblings(v.fields) ==> v.fields[REF].Str?
  }

  lemma AcceptableAppend(a: seq<Visit>, b: seq<Visit>)
    ensures Acceptable(a + b) <==> Acceptable(a) && Acceptable(b)
  {
    forall v ensures v in a + b <==> v in a || v in b {}
  }

  /** A document is accepted exactly when every object the walk visits is. */
  lemma {:induction false} AcceptedIff(value: Json, path: seq<string>)
    ensures Accepted(value) <==> Acceptable(Visits(value, path))
    decreases value, 1
  {
    match value
    case Arr(items) => ItemsAcceptedIff(value, 0, path);
    case Obj(fields) =>
      MembersAcceptedIff(value, SortedKeys(fields.Keys), path);
      AcceptableAppend([Visit(fields, path)], MemberVisits(value, SortedKeys(fields.Keys), path));
      assert Visit(fields, path) in [Visit(fields, path)];
    case _ =>
  }

  lemma {:induction false} ItemsAcceptedIff(value: Json, index: nat, path: seq<string>)
    requires value.Arr? && index <= |value.items|
    ensures (forall i | index <= i < |value.items| :: Accepted(value.items[i]))
            <==> Acceptable(ItemVisits(value, index, path))
    decreases value, 0, |value.items| - index
  {
    if index < |value.items| {
      AcceptedIff(value.items[index], path + [Decimal(index)]);
      ItemsAcceptedIff(value, index + 1, path);
      AcceptableAppend(Visits(value.items[index], path + [Decimal(index)]), ItemVisits(value, index + 1, path));
    }
  }

  lemma {:induction false} MembersAcceptedIff(value: Json, keys: seq<string>, path: seq<string>)
    requires value.Obj? && forall k | k in keys :: k in value.fields
    ensures (forall k | k in keys :: Accepted(value.fields[k])) <==> Acceptable(MemberVisits(value, keys, path))
    decreases value, 0, |keys|
  {
    if keys != [] {
      AcceptedIff(value.fields[keys[0]], path + [keys[0]]);
      MembersAcceptedIff(value, keys[1..], path);
      AcceptableAppend(Visits(value.fields[keys[0]], path + [keys[0]]), MemberVisits(value, keys[1..], path));
      assert keys == [keys[0]] + keys[1..];
    }
  }

  // ---------- counting by the walk ----------

  function SiblingVisits(visits: seq<Visit>): nat {
    if visits == [] then 0 else Weight(WithSiblings, visits[0].fields) + SiblingVisits(visits[1..])
  }

  lemma {:induction false} SiblingVisitsAppend(a: seq<Visit>, b: seq<Visit>)
    ensures SiblingVisits(a + b) == SiblingVisits(a) + SiblingVisits(b)
  {
    if a == [] {
      assert a + b == b;
    } else {
      SiblingVisitsAppend(a[1..], b);
      assert (a + b)[1..] == a[1..] + b;
    }
  }

  /** It is the number of visited objects that have a reference and something besides. */
  lemma {:induction false} SiblingVisitsAre(visits: seq<Visit>)
    ensures SiblingVisits(visits) == |SiblingPositions(visits)|
  {
    if visits != [] {
      var before, last := visits[..|visits| - 1], visits[|visits| - 1];
      SiblingVisitsAre(before);
      SiblingVisitsAppend(before, [last]);
      PositionsGrow(before, last);
      assert visits == before + [last] && [last][1..] == [];
    }
  }

  lemma PositionsGrow(before: seq<Visit>, last: Visit)
    ensures |SiblingPositions(before + [last])| == |SiblingPositions(before)| + Weight(WithSiblings, last.fields)
  {
    var visits, n := before + [last], |before|;
    forall i: nat ensures i in SiblingPositions(visits) <==>
                            i in SiblingPositions(before) || (i == n && HasSiblings(last.fields))
    {
      if i < n { assert visits[i] == before[i]; }
    }
    assert SiblingPositions(visits) == SiblingPositions(before) + (if HasSiblings(last.fields) then {n} else {});
  }

  function SiblingPositions(visits: seq<Visit>): set<nat> {
    set i: nat | i < |visits| && "$ref" in visits[i].fields && |visits[i].fields| > 1
  }

  method CountRefSiblings(value: Json) returns (count: nat)
    ensures count == Count(WithSiblings, value)
  {
    count := 0;
    var visits := Visits(value, []);
    for i := 0 to |visits|
      invariant count + SiblingVisits(visits[i..]) == SiblingVisits(visits)
    {
      assert visits[i..][1..] == visits[i + 1..];
      if REF in visits[i].fields && |visits[i].fields| > 1 {
        count := count + 1;
      }
    }
    WalkCounts(value, []);
  }

  /** What the walk sees adds up to what is there. */
  lemma {:induction false} WalkCounts(value: Json, path: seq<string>)
    ensures SiblingVisits(Visits(value, path)) == Count(WithSiblings, value)
    decreases value, 1
  {
    if value.Arr? {
      ItemsCount(value, 0, path);
      assert ItemCounts(WithSiblings, value)[0..] == ItemCounts(WithSiblings, value);
    } else if value.Obj? {
      MembersCount(value, SortedKeys(value.fields.Keys), MemberCounts(WithSiblings, value), path);
      var visits := Visits(value, path);
      assert visits[0].fields == value.fields;
      assert visits[1..] == MemberVisits(value, SortedKeys(value.fields.Keys), path);
    }
  }

  lemma {:induction false} ItemsCount(value: Json, index: nat, path: seq<string>)
    requires value.Arr? && index <= |value.items|
    ensures SiblingVisits(ItemVisits(value, index, path)) == SeqSum(ItemCounts(WithSiblings, value)[index..])
    decreases value, 0, |value.items| - index
  {
    if index < |value.items| {
      var counts := ItemCounts(WithSiblings, value);
      WalkCounts(value.items[index], path + [Decimal(index)]);
      ItemsCount(value, index + 1, path);
      assert counts[index..][1..] == counts[index + 1..];
      SiblingVisitsAppend(Visits(value.items[index], path + [Decimal(index)]), ItemVisits(value, index + 1, path));
    }
  }

  lemma {:induction false} MembersCount(value: Json, keys: seq<string>, counts: map<string, nat>, path: seq<string>)
    requires value.Obj? && (forall k :: k in keys <==> k in counts)
    requires forall k | k in counts :: k in value.fields && counts[k] == Count(WithSiblings, value.fields[k])
    requires forall i, j | 0 <= i < j < |keys| :: keys[i] != keys[j]
    ensures SiblingVisits(MemberVisits(value, keys, path)) == Sum(counts)
    decreases value, 0, |keys|
  {
    if keys == [] {
      assert counts == map[];
    } else {
      var key := keys[0];
      assert keys == [key] + keys[1..];
      WalkCounts(value.fields[key], path + [key]);
      MembersCount(value, keys[1..], counts - {key}, path);
      SumRemove(counts, key);
      SiblingVisitsAppend(Visits(value.fields[key], path + [key]), MemberVisits(value, keys[1..], path));
    }
  }

  // ---------- what a pair adds up to ----------

  lemma CountSingle(kind: Kind, key: string, item: Json)
    ensures Count(kind, Obj(map[key := item])) == Weight(kind, map[key := item]) + Count(kind, item)
  {
    SumAdd(map[], key, Count(kind, item));
    assert MemberCounts(kind, Obj(map[key := item])) == map[][key := Count(kind, item)];
  }

  lemma CountTwo(kind: Kind, a: Json, b: Json)
    ensures Count(kind, Arr([a, b])) == Count(kind, a) + Count(kind, b)
  {
    var counts := ItemCounts(kind, Arr([a, b]));
    assert counts[0] == Count(kind, a) && counts[1] == Count(kind, b);
    assert counts[1..] == [counts[1]] && counts[1..][1..] == [];
    assert SeqSum(counts[1..]) == counts[1] + SeqSum([]);
  }

  lemma CountPair(kind: Kind, members: map<string, Json>)
    requires HasSiblings(members)
    ensures Count(kind, Pair(members))
         == Sum(MemberCounts(kind, Obj(members))) + (if kind.To? then Weight(kind, members) else 0)
  {
    var reference, siblings := Obj(map[REF := members[REF]]), Obj(members - {REF});
    CountSingle(kind, "allOf", Arr([reference, siblings]));
    CountTwo(kind, reference, siblings);
    CountReference(kind, members[REF]);
    CountOthers(kind, members);
  }

  /** The reference on its own has no siblings, and is still a reference. */
  lemma CountReference(kind: Kind, ref: Json)
    ensures Count(kind, Obj(map[REF := ref])) == Count(kind, ref) + if kind == To(ref) then 1 else 0
  {
    CountSingle(kind, REF, ref);
    assert |map[REF := ref]| == 1;
  }

  /** What stands beside the reference is no reference any more. */
  lemma CountOthers(kind: Kind, members: map<string, Json>)
    requires REF in members
    ensures Count(kind, Obj(members - {REF})) + Count(kind, members[REF]) == Sum(MemberCounts(kind, Obj(members)))
  {
    SumRemove(MemberCounts(kind, Obj(members)), REF);
    assert MemberCounts(kind, Obj(members)) - {REF} == MemberCounts(kind, Obj(members - {REF}));
  }

  // ---------- nothing is left to rewrite, and no reference is lost ----------

  lemma {:induction false} SeqSumZero(s: seq<nat>)
    requires forall i | 0 <= i < |s| :: s[i] == 0
    ensures SeqSum(s) == 0
  {
    if s != [] { SeqSumZero(s[1..]); }
  }

  lemma {:induction false} SeqSumMember(s: seq<nat>, i: nat)
    requires i < |s|
    ensures s[i] <= SeqSum(s)
  {
    if i > 0 { SeqSumMember(s[1..], i - 1); }
  }

  /** After the rewrite no reference has siblings, so the completeness check passes. */
  lemma {:induction false} NothingLeft(value: Json)
    ensures Count(WithSiblings, Normalized(value)) == 0
  {
    match value
    case Arr(items) =>
      forall i | 0 <= i < |items| ensures Count(WithSiblings, Normalized(items[i])) == 0 { NothingLeft(items[i]); }
      SeqSumZero(ItemCounts(WithSiblings, Arr(NormalizedItems(value))));
    case Obj(fields) =>
      forall k | k in fields ensures Count(WithSiblings, Normalized(fields[k])) == 0 { NothingLeft(fields[k]); }
      var members := NormalizedMembers(value);
      SumZero(MemberCounts(WithSiblings, Obj(members)));
      if HasSiblings(members) { CountPair(WithSiblings, members); }
    case _ =>
  }

  /** A document with nothing to do is accepted and left as it is. */
  lemma {:induction false} UnchangedWhenNothingToDo(value: Json)
    requires Count(WithSiblings, value) == 0
    ensures Normalized(value) == value && Accepted(value)
  {
    match value
    case Arr(items) =>
      forall i | 0 <= i < |items| ensures Normalized(items[i]) == items[i] && Accepted(items[i]) {
        SeqSumMember(ItemCounts(WithSiblings, value), i);
        UnchangedWhenNothingToDo(items[i]);
      }
      assert NormalizedItems(value) == items;
    case Obj(fields) =>
      forall k | k in fields ensures Normalized(fields[k]) == fields[k] && Accepted(fields[k]) {
        SumRemove(MemberCounts(WithSiblings, value), k);
        UnchangedWhenNothingToDo(fields[k]);
      }
      assert NormalizedMembers(value) == fields;
    case _ =>
  }

  /** Rewriting twice is rewriting once, and the second time nothing is counted. */
  lemma NormalizedTwice(value: Json)
    ensures Normalized(Normalized(value)) == Normalized(value)
    ensures Accepted(Normalized(value)) && Count(WithSiblings, Normalized(value)) == 0
  {
    NothingLeft(value);
    UnchangedWhenNothingToDo(Normalized(value));
  }

  /** Every reference stays, as often as it occurred: the multiset of `$ref` strings is the
      same before and after. */
  lemma {:induction false} ReferencesKept(value: Json, ref: string)
    requires Accepted(value)
    ensures Count(To(Str(ref)), Normalized(value)) == Count(To(Str(ref)), value)
  {
    var kind := To(Str(ref));
    match value
    case Arr(items) =>
      forall i | 0 <= i < |items| ensures Count(kind, Normalized(items[i])) == Count(kind, items[i]) {
        ReferencesKept(items[i], ref);
      }
      assert ItemCounts(kind, Arr(NormalizedItems(value))) == ItemCounts(kind, value);
    case Obj(fields) =>
      forall k | k in fields ensures Count(kind, Normalized(fields[k])) == Count(kind, fields[k]) {
        ReferencesKept(fields[k], ref);
      }
      var members := NormalizedMembers(value);
      MembersShape(value);
      assert MemberCounts(kind, Obj(members)) == MemberCounts(kind, value);
      if HasSiblings(members) { CountPair(kind, members); }
    case _ =>
  }
}
