/** What a document means to a Swagger reader and to an OpenAPI 3.0 reader, and that the
    rewrite of references with siblings carries the first meaning over to the second. */
module RefMeaning {
  import opened JsonTree
  import opened RefSiblings

  /** An interpretation of documents: how scalars, lists, the ordinary keywords of an object
      (read together), references and conjunctions are understood. */
  datatype Reader<!D> = Reader(
    scalar: Json -> D,
    list: seq<D> -> D,
    keywords: map<string, D> -> D,
    reference: string -> D,
    both: (D, D) -> D
  )

  /** An object without keywords asks for nothing. */
  ghost predicate EmptyObjectIsNeutral<D(!new)>(reader: Reader<D>) {
    forall d :: reader.both(d, reader.keywords(map[])) == d
  }

  predicate IsReference(fields: map<string, Json>) {
    REF in fields && fields[REF].Str?
  }

  predicate HasAllOf(fields: map<string, Json>) {
    "allOf" in fields && fields["allOf"].Arr?
  }

  /** The key is an ordinary keyword: neither the reference nor the conjunction. */
  predicate Ordinary(fields: map<string, Json>, k: string) {
    && !(k == REF && IsReference(fields))
    && !(k == "allOf" && HasAllOf(fields))
  }

  ghost function All<D>(reader: Reader<D>, parts: seq<D>): D {
    if parts == [] then reader.keywords(map[]) else reader.both(parts[0], All(reader, parts[1..]))
  }

  /** Swagger 2.0: a reference and its siblings both apply. */
  ghost function V2<D>(reader: Reader<D>, value: Json): D {
    match value
    case Arr(items) => reader.list(seq(|items|, i requires 0 <= i < |items| => V2(reader, items[i])))
    case Obj(fields) =>
      var rest := reader.keywords(map k | k in fields && Ordinary(fields, k) :: V2(reader, fields[k]));
      var own :=
        if HasAllOf(fields) then
          var items := fields["allOf"].items;
          reader.both(All(reader, seq(|items|, i requires 0 <= i < |items| => V2(reader, items[i]))), rest)
        else rest;
      if IsReference(fields) then reader.both(reader.reference(fields[REF].text), own) else own
    case _ => reader.scalar(value)
  }

  /** OpenAPI 3.0.3, Reference Object: the siblings of a reference are ignored. */
  ghost function V3<D>(reader: Reader<D>, value: Json): D {
    match value
    case Arr(items) => reader.list(seq(|items|, i requires 0 <= i < |items| => V3(reader, items[i])))
    case Obj(fields) =>
      if IsReference(fields) then reader.reference(fields[REF].text)
      else
        var rest := reader.keywords(map k | k in fields && Ordinary(fields, k) :: V3(reader, fields[k]));
        if HasAllOf(fields) then
          var items := fields["allOf"].items;
          reader.both(All(reader, seq(|items|, i requires 0 <= i < |items| => V3(reader, items[i]))), rest)
        else rest
    case _ => reader.scalar(value)
  }

  // ---------- the parts of an object's meaning, by name ----------

  ghost function Items2<D>(reader: Reader<D>, items: seq<Json>): (r: seq<D>)
    ensures |r| == |items| && forall i | 0 <= i < |r| :: r[i] == V2(reader, items[i])
  {
    seq(|items|, i requires 0 <= i < |items| => V2(reader, items[i]))
  }

  ghost function Items3<D>(reader: Reader<D>, items: seq<Json>): (r: seq<D>)
    ensures |r| == |items| && forall i | 0 <= i < |r| :: r[i] == V3(reader, items[i])
  {
    seq(|items|, i requires 0 <= i < |items| => V3(reader, items[i]))
  }

  ghost function Rest2<D>(reader: Reader<D>, fields: map<string, Json>): (r: map<string, D>)
    ensures forall k :: k in r <==> k in fields && Ordinary(fields, k)
    ensures forall k | k in r :: r[k] == V2(reader, fields[k])
  {
    map k | k in fields && Ordinary(fields, k) :: V2(reader, fields[k])
  }

  ghost function Rest3<D>(reader: Reader<D>, fields: map<string, Json>): (r: map<string, D>)
    ensures forall k :: k in r <==> k in fields && Ordinary(fields, k)
    ensures forall k | k in r :: r[k] == V3(reader, fields[k])
  {
    map k | k in fields && Ordinary(fields, k) :: V3(reader, fields[k])
  }

  ghost function Own2<D>(reader: Reader<D>, fields: map<string, Json>): D {
    var rest := reader.keywords(Rest2(reader, fields));
    if HasAllOf(fields) then reader.both(All(reader, Items2(reader, fields["allOf"].items)), rest) else rest
  }

  ghost function Own3<D>(reader: Reader<D>, fields: map<string, Json>): D {
    var rest := reader.keywords(Rest3(reader, fields));
    if HasAllOf(fields) then reader.both(All(reader, Items3(reader, fields["allOf"].items)), rest) else rest
  }

  lemma Object2<D>(reader: Reader<D>, fields: map<string, Json>)
    ensures V2(reader, Obj(fields))
         == if IsReference(fields) then reader.both(reader.reference(fields[REF].text), Own2(reader, fields))
             else Own2(reader, fields)
  {
  }

  lemma Object3<D>(reader: Reader<D>, fields: map<string, Json>)
    ensures V3(reader, Obj(fields))
         == if IsReference(fields) then reader.reference(fields[REF].text) else Own3(reader, fields)
  {
  }

  // ---------- the meaning is kept ----------

  /** For every document the rewrite accepts, and every way of reading documents in which an
      empty object asks for nothing, OpenAPI 3.0 reads the rewritten document as Swagger
      reads the original. */
  lemma {:induction false} MeaningKept<D(!new)>(reader: Reader<D>, value: Json)
    requires Accepted(value) && EmptyObjectIsNeutral(reader)
    ensures V3(reader, Normalized(value)) == V2(reader, value)
    decreases value, 1
  {
    if value.Arr? {
      ItemsKept(reader, value);
    } else if value.Obj? {
      forall k | k in value.fields ensures V3(reader, Normalized(value.fields[k])) == V2(reader, value.fields[k]) {
        MeaningKept(reader, value.fields[k]);
      }
      if HasAllOf(value.fields) {
        ItemsKept(reader, value.fields["allOf"]);
      }
      ObjectFromParts(reader, value);
    }
  }

  lemma {:induction false} ItemsKept<D(!new)>(reader: Reader<D>, value: Json)
    requires value.Arr? && Accepted(value) && EmptyObjectIsNeutral(reader)
    ensures Items3(reader, NormalizedItems(value)) == Items2(reader, value.items)
    decreases value, 0
  {
    forall i | 0 <= i < |value.items| ensures V3(reader, Normalized(value.items[i])) == V2(reader, value.items[i]) {
      MeaningKept(reader, value.items[i]);
    }
  }

  /** One object, given that the parts it is made of are kept. */
  lemma ObjectFromParts<D(!new)>(reader: Reader<D>, value: Json)
    requires value.Obj? && Accepted(value) && EmptyObjectIsNeutral(reader)
    requires forall k | k in value.fields :: V3(reader, Normalized(value.fields[k])) == V2(reader, value.fields[k])
    requires HasAllOf(value.fields) ==>
               Items3(reader, NormalizedItems(value.fields["allOf"])) == Items2(reader, value.fields["allOf"].items)
    ensures V3(reader, Normalized(value)) == V2(reader, value)
  {
    var fields, members := value.fields, NormalizedMembers(value);
    MembersShape(value);
    Object2(reader, fields);
    if HasSiblings(members) {
      PairMeaning(reader, members);
      OwnKept(reader, fields, members - {REF});
    } else if IsReference(fields) {
      Object3(reader, members);
      OnlyReference(fields);
      assert Rest2(reader, fields) == map[];
    } else {
      Object3(reader, members);
      OwnKept(reader, fields, members);
    }
  }

  lemma OnlyReference(fields: map<string, Json>)
    requires REF in fields && !HasSiblings(fields)
    ensures fields.Keys == {REF}
  {
    assert |fields.Keys - {REF}| == 0;
  }

  /** The members that are not the reference keep their meaning together. */
  lemma OwnKept<D>(reader: Reader<D>, fields: map<string, Json>, others: map<string, Json>)
    requires forall k :: k in others <==> k in fields && !(k == REF && IsReference(fields))
    requires forall k | k in others :: others[k] == Normalized(fields[k])
    requires forall k | k in others :: V3(reader, others[k]) == V2(reader, fields[k])
    requires HasAllOf(fields) ==>
               Items3(reader, NormalizedItems(fields["allOf"])) == Items2(reader, fields["allOf"].items)
    ensures Own3(reader, others) == Own2(reader, fields)
  {
    MembersShape(Obj(fields));
    assert "allOf" != REF;
    assert HasAllOf(others) == HasAllOf(fields);
    RestKept(reader, fields, others);
  }

  /** The ordinary members among them keep theirs one by one. */
  lemma RestKept<D>(reader: Reader<D>, fields: map<string, Json>, others: map<string, Json>)
    requires forall k :: k in others <==> k in fields && !(k == REF && IsReference(fields))
    requires forall k | k in others :: V3(reader, others[k]) == V2(reader, fields[k])
    requires HasAllOf(others) == HasAllOf(fields) && !IsReference(others)
    ensures Rest3(reader, others) == Rest2(reader, fields)
  {
    forall k ensures k in others && Ordinary(others, k) <==> k in fields && Ordinary(fields, k) {}
  }

  /** In OpenAPI 3.0 a pair means the reference and the rest, both. */
  lemma PairMeaning<D(!new)>(reader: Reader<D>, members: map<string, Json>)
    requires IsReference(members) && EmptyObjectIsNeutral(reader)
    ensures V3(reader, Pair(members)) == reader.both(reader.reference(members[REF].text), Own3(reader, members - {REF}))
  {
    var reference, others := Obj(map[REF := members[REF]]), Obj(members - {REF});
    var fields := map["allOf" := Arr([reference, others])];
    Object3(reader, fields);
    Object3(reader, reference.fields);
    Object3(reader, others.fields);
    assert Rest3(reader, fields) == map[];
    var parts := Items3(reader, [reference, others]);
    assert parts == [V3(reader, reference), V3(reader, others)];
    assert parts[1..] == [V3(reader, others)] && parts[1..][1..] == [];
    assert All(reader, parts[1..]) == reader.both(V3(reader, others), All(reader, []));
  }

  // ---------- and it has to be rewritten ----------

  /** A reader that only asks whether any keyword applies. */
  ghost function AnyKeyword(): Reader<bool> {
    Reader(_ => false, (_: seq<bool>) => false, (m: map<string, bool>) => m != map[], _ => false, (a, b) => a || b)
  }

  /** Left as it is, a reference with an ordinary keyword beside it means less in OpenAPI
      3.0 than it did in Swagger. */
  lemma SiblingsWouldBeLost(fields: map<string, Json>, key: string)
    requires IsReference(fields) && key in fields && Ordinary(fields, key)
    ensures EmptyObjectIsNeutral(AnyKeyword())
    ensures V2(AnyKeyword(), Obj(fields)) && !V3(AnyKeyword(), Obj(fields))
  {
    Object2(AnyKeyword(), fields);
    Object3(AnyKeyword(), fields);
    assert key in Rest2(AnyKeyword(), fields);
  }

  /** What the rewrite finds nothing to do in means the same to both readers. */
  lemma NothingToDoMeansTheSame<D(!new)>(reader: Reader<D>, value: Json)
    requires Count(WithSiblings, value) == 0 && EmptyObjectIsNeutral(reader)
    ensures V3(reader, value) == V2(reader, value)
  {
    UnchangedWhenNothingToDo(value);
    MeaningKept(reader, value);
  }
}
