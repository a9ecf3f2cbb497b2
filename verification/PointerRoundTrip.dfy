/** The locations `walk` hands to its visitor and the resolver that reads them agree
    (sections 3, 4 and 6 of RFC 6901). */
module PointerRoundTrip {
  import opened Results
  import opened Numerals
  import opened JsonTree
  import opened JsonPointer

  /** No key of any object in the document contains '%'. */
  predicate PercentFree(value: Json) {
    match value
    case Arr(items) => forall i | 0 <= i < |items| :: PercentFree(items[i])
    case Obj(fields) => forall k | k in fields :: '%' !in k && PercentFree(fields[k])
    case _ => true
  }

  /** Every array fits in a Go slice. */
  predicate Sized(value: Json) {
    match value
    case Arr(items) => |items| <= MAX_INT && forall i | 0 <= i < |items| :: Sized(items[i])
    case Obj(fields) => forall k | k in fields :: Sized(fields[k])
    case _ => true
  }

  predicate PlainPath(path: seq<string>) {
    forall i | 0 <= i < |path| :: '%' !in path[i]
  }

  // ---------- a location decodes to the path it was built from ----------

  function EscapeAll(path: seq<string>): (r: seq<string>)
    ensures |r| == |path|
  {
    if path == [] then [] else EscapeAll(path[..|path| - 1]) + [Escape(path[|path| - 1])]
  }

  lemma {:induction false} SplitAppend(s: string, token: string)
    requires '/' !in token
    ensures Split(s + "/" + token, '/') == Split(s, '/') + [token]
  {
    if s == "" {
      SplitToken(token);
      assert ("" + "/" + token)[1..] == token;
    } else {
      assert (s + "/" + token)[1..] == s[1..] + "/" + token;
      SplitAppend(s[1..], token);
    }
  }

  lemma {:induction false} SplitToken(token: string)
    requires '/' !in token
    ensures Split(token, '/') == [token]
  {
    if token != "" {
      SplitToken(token[1..]);
      assert token == [token[0]] + token[1..];
    }
  }

  lemma {:induction false} LocationTokens(path: seq<string>)
    requires path != []
    ensures "#/" <= Location(path)
    ensures Split(Location(path)[2..], '/') == EscapeAll(path)
  {
    var init, last := path[..|path| - 1], path[|path| - 1];
    EscapeCharacters(last);
    if init == [] {
      assert Location(path) == "#/" + Escape(last);
      assert Location(path)[2..] == Escape(last);
      SplitToken(Escape(last));
    } else {
      LocationTokens(init);
      assert Location(path)[2..] == Location(init)[2..] + "/" + Escape(last);
      SplitAppend(Location(init)[2..], Escape(last));
    }
  }

  lemma {:induction false} DecodeEscaped(path: seq<string>)
    ensures DecodeAll(EscapeAll(path)) == Some(path) <==> PlainPath(path)
  {
    if path != [] {
      var init, last := path[..|path| - 1], path[|path| - 1];
      assert path == init + [last];
      DecodeEscaped(init);
      TokenRoundTrip(last);
      EscapeLast(init, last);
      DecodeLast(EscapeAll(init), Escape(last), init, last);
      PlainLast(init, last);
    }
  }

  lemma {:induction false} EscapeLast(path: seq<string>, key: string)
    ensures EscapeAll(path + [key]) == EscapeAll(path) + [Escape(key)]
  {
    assert (path + [key])[..|path|] == path;
  }

  lemma PlainLast(path: seq<string>, key: string)
    ensures PlainPath(path + [key]) <==> PlainPath(path) && '%' !in key
  {
    if PlainPath(path + [key]) {
      assert (path + [key])[|path|] == key;
      forall i | 0 <= i < |path| ensures '%' !in path[i] { assert (path + [key])[i] == path[i]; }
    }
  }

  lemma {:induction false} DecodeLast(tokens: seq<string>, token: string, path: seq<string>, key: string)
    ensures DecodeAll(tokens + [token]) == Some(path + [key])
            <==> DecodeAll(tokens) == Some(path) && DecodeToken(token) == Some(key)
  {
    assert (tokens + [token])[..|tokens|] == tokens;
    if DecodeAll(tokens).Some? && DecodeToken(token).Some? {
      var decoded := DecodeAll(tokens).value;
      assert (decoded + [DecodeToken(token).value])[..|decoded|] == decoded;
      assert (path + [key])[..|path|] == path;
    }
  }

  /** A location reads back as the very path it was built from exactly when no key on that
      path contains '%': the escaper leaves '%' alone, the resolver percent-decodes. */
  lemma LocationRoundTrip(path: seq<string>)
    ensures RefPath(Location(path)) == Some(path) <==> PlainPath(path)
  {
    if path != [] {
      LocationTokens(path);
      DecodeEscaped(path);
      assert Location(path) != "#";
    }
  }

  // ---------- what the walk visits ----------

  /** The visits under a value lie below its path, and each names the object found there. */
  lemma {:induction false} VisitsAreReached(document: Json, value: Json, path: seq<string>, v: Visit)
    requires Follow(document, path) == Some(value) && Sized(value)
    requires v in Visits(value, path)
    ensures Follow(document, v.path) == Some(Obj(v.fields))
    ensures PercentFree(value) && PlainPath(path) ==> PlainPath(v.path)
    decreases value, 1
  {
    match value
    case Arr(items) => ItemsAreReached(document, value, 0, path, v);
    case Obj(fields) =>
      if v != Visit(fields, path) {
        MembersAreReached(document, value, SortedKeys(fields.Keys), path, v);
      }
    case _ =>
  }

  lemma {:induction false} ItemsAreReached(document: Json, value: Json, index: nat, path: seq<string>, v: Visit)
    requires Follow(document, path) == Some(value) && Sized(value)
    requires value.Arr? && index <= |value.items| && v in ItemVisits(value, index, path)
    ensures Follow(document, v.path) == Some(Obj(v.fields))
    ensures PercentFree(value) && PlainPath(path) ==> PlainPath(v.path)
    decreases value, 0, |value.items| - index
  {
    var here := path + [Decimal(index)];
    if v in Visits(value.items[index], here) {
      ParseIndexIff(Decimal(index), |value.items|, index);
      FollowStep(document, path, Decimal(index));
      DecimalValue(index);
      VisitsAreReached(document, value.items[index], here, v);
    } else {
      ItemsAreReached(document, value, index + 1, path, v);
    }
  }

  lemma {:induction false} MembersAreReached(document: Json, value: Json, keys: seq<string>, path: seq<string>,
                                           v: Visit)
    requires Follow(document, path) == Some(value) && Sized(value)
    requires value.Obj? && (forall k | k in keys :: k in value.fields) && v in MemberVisits(value, keys, path)
    ensures Follow(document, v.path) == Some(Obj(v.fields))
    ensures PercentFree(value) && PlainPath(path) ==> PlainPath(v.path)
    decreases value, 0, |keys|
  {
    var here := path + [keys[0]];
    if v in Visits(value.fields[keys[0]], here) {
      FollowStep(document, path, keys[0]);
      VisitsAreReached(document, value.fields[keys[0]], here, v);
    } else {
      MembersAreReached(document, value, keys[1..], path, v);
    }
  }

  /** Every object that can be reached from a value is visited. */
  lemma {:induction false} ReachedAreVisited(value: Json, path: seq<string>, rest: seq<string>,
                                             fields: map<string, Json>)
    requires Follow(value, rest) == Some(Obj(fields))
    ensures Visit(fields, path + rest) in Visits(value, path)
    decreases |rest|
  {
    if rest == [] {
      assert path + rest == path;
    } else {
      FollowFirst(value, rest);
      var child := Step(value, rest[0]).value;
      ReachedAreVisited(child, path + [rest[0]], rest[1..], fields);
      assert path + [rest[0]] + rest[1..] == path + rest;
      match value
      case Arr(items) =>
        var index := ParseIndex(rest[0], |items|).value;
        ParseIndexIff(rest[0], |items|, index);
        ItemVisited(value, 0, index, path, Visit(fields, path + rest));
      case Obj(members) =>
        MemberVisited(value, SortedKeys(members.Keys), rest[0], path, Visit(fields, path + rest));
    }
  }

  lemma {:induction false} FollowFirst(value: Json, path: seq<string>)
    requires path != []
    ensures Follow(value, path) ==
            match Step(value, path[0])
            case None => None
            case Some(child) => Follow(child, path[1..])
    decreases |path|
  {
    var init := path[..|path| - 1];
    if init == [] {
      assert path[1..] == [];
    } else {
      FollowFirst(value, init);
      InitOfTail(path);
    }
  }

  lemma InitOfTail(path: seq<string>)
    requires |path| > 1
    ensures path[..|path| - 1][1..] == path[1..][..|path[1..]| - 1] && path[..|path| - 1][0] == path[0]
    ensures path[1..][|path[1..]| - 1] == path[|path| - 1]
  {
  }

  lemma {:induction false} ItemVisited(value: Json, from: nat, index: nat, path: seq<string>, v: Visit)
    requires value.Arr? && from <= index < |value.items|
    requires v in Visits(value.items[index], path + [Decimal(index)])
    ensures v in ItemVisits(value, from, path)
    decreases index - from
  {
    if from < index { ItemVisited(value, from + 1, index, path, v); }
  }

  lemma {:induction false} MemberVisited(value: Json, keys: seq<string>, key: string, path: seq<string>, v: Visit)
    requires value.Obj? && (forall k | k in keys :: k in value.fields) && key in keys
    requires v in Visits(value.fields[key], path + [key])
    ensures v in MemberVisits(value, keys, path)
  {
    if keys[0] != key { MemberVisited(value, keys[1..], key, path, v); }
  }

  // ---------- in which order ----------

  /** From its n-th step on, the first path comes before the second: an object before what it
      holds, members in the order of their keys, and items in the order of the list. */
  ghost predicate Before(value: Json, n: nat, a: seq<string>, b: seq<string>)
    requires n <= |a| && n <= |b|
    decreases |a| - n
  {
    && n < |b|
    && (n == |a|
        || if a[n] == b[n] then Step(value, a[n]).Some? && Before(Step(value, a[n]).value, n + 1, a, b)
           else StepsBefore(value, a[n], b[n]))
  }

  ghost predicate StepsBefore(value: Json, a: string, b: string) {
    match value
    case Arr(items) => exists i: nat, j: nat :: i < j < |items| && a == Decimal(i) && b == Decimal(j)
    case Obj(fields) => LexLe(a, b)
    case _ => false
  }

  ghost predicate Ordered(value: Json, path: seq<string>, visits: seq<Visit>) {
    && (forall v | v in visits :: path <= v.path)
    && forall i, j | 0 <= i < j < |visits| :: Precedes(value, path, visits[i], visits[j])
  }

  ghost predicate Precedes(value: Json, path: seq<string>, v: Visit, w: Visit) {
    path <= v.path && path <= w.path && Before(value, |path|, v.path, w.path)
  }

  lemma OrderedAppend(value: Json, path: seq<string>, a: seq<Visit>, b: seq<Visit>)
    requires Ordered(value, path, a) && Ordered(value, path, b)
    requires forall v, w | v in a && w in b :: Precedes(value, path, v, w)
    ensures Ordered(value, path, a + b)
  {
    forall i, j | 0 <= i < j < |a + b| ensures Precedes(value, path, (a + b)[i], (a + b)[j]) {
      if i < |a| <= j { assert a[i] in a && b[j - |a|] in b; }
    }
  }

  /** The visits under a child, seen from its parent. */
  lemma OrderedBelow(value: Json, path: seq<string>, key: string, visits: seq<Visit>)
    requires Step(value, key).Some? && Ordered(Step(value, key).value, path + [key], visits)
    ensures Ordered(value, path, visits)
    ensures forall v | v in visits :: |v.path| > |path| && v.path[|path|] == key
  {
    forall v | v in visits ensures path <= v.path && |v.path| > |path| && v.path[|path|] == key {
      assert path + [key] <= v.path;
    }
    forall i, j | 0 <= i < j < |visits| ensures Precedes(value, path, visits[i], visits[j]) {
      assert visits[i] in visits && visits[j] in visits;
      assert Precedes(Step(value, key).value, path + [key], visits[i], visits[j]);
    }
  }

  lemma {:induction false} VisitsOrdered(value: Json, path: seq<string>)
    requires Sized(value)
    ensures Ordered(value, path, Visits(value, path))
    decreases value, 1
  {
    match value
    case Arr(items) => ItemsOrdered(value, 0, path);
    case Obj(fields) =>
      MembersOrdered(value, SortedKeys(fields.Keys), path);
      OrderedAppend(value, path, [Visit(fields, path)], MemberVisits(value, SortedKeys(fields.Keys), path));
    case _ =>
  }

  ghost predicate FromItem(value: Json, path: seq<string>, index: nat, v: Visit)
    requires value.Arr?
  {
    |v.path| > |path| && exists k: nat :: index <= k < |value.items| && v.path[|path|] == Decimal(k)
  }

  lemma {:induction false} ItemsOrdered(value: Json, index: nat, path: seq<string>)
    requires Sized(value) && value.Arr? && index <= |value.items|
    ensures Ordered(value, path, ItemVisits(value, index, path))
    ensures forall v | v in ItemVisits(value, index, path) :: FromItem(value, path, index, v)
    decreases value, 0, |value.items| - index
  {
    if index < |value.items| {
      var key := Decimal(index);
      var visits, rest := Visits(value.items[index], path + [key]), ItemVisits(value, index + 1, path);
      ParseIndexIff(key, |value.items|, index);
      VisitsOrdered(value.items[index], path + [key]);
      OrderedBelow(value, path, key, visits);
      ItemsOrdered(value, index + 1, path);
      forall v, w | v in visits && w in rest ensures Precedes(value, path, v, w) {
        var k: nat :| index < k < |value.items| && w.path[|path|] == Decimal(k);
        DecimalValue(index);
        DecimalValue(k);
      }
      OrderedAppend(value, path, visits, rest);
    }
  }

  lemma {:induction false} MembersOrdered(value: Json, keys: seq<string>, path: seq<string>)
    requires Sized(value) && value.Obj? && forall k | k in keys :: k in value.fields
    requires forall i, j | 0 <= i < j < |keys| :: keys[i] != keys[j] && LexLe(keys[i], keys[j])
    ensures Ordered(value, path, MemberVisits(value, keys, path))
    ensures forall v | v in MemberVisits(value, keys, path) :: |v.path| > |path| && v.path[|path|] in keys
    decreases value, 0, |keys|
  {
    if keys != [] {
      var key := keys[0];
      var visits, rest := Visits(value.fields[key], path + [key]), MemberVisits(value, keys[1..], path);
      VisitsOrdered(value.fields[key], path + [key]);
      OrderedBelow(value, path, key, visits);
      MembersOrdered(value, keys[1..], path);
      forall v, w | v in visits && w in rest ensures Precedes(value, path, v, w) {
        var j :| 1 <= j < |keys| && w.path[|path|] == keys[j];
      }
      OrderedAppend(value, path, visits, rest);
    }
  }

  /** The walk visits in document order, and nothing twice. */
  lemma WalkInOrder(document: Json)
    requires Sized(document)
    ensures forall i, j | 0 <= i < j < |Visits(document, [])| ::
              Before(document, 0, Visits(document, [])[i].path, Visits(document, [])[j].path)
  {
    VisitsOrdered(document, []);
    forall i, j | 0 <= i < j < |Visits(document, [])|
      ensures Before(document, 0, Visits(document, [])[i].path, Visits(document, [])[j].path)
    {
      assert Precedes(document, [], Visits(document, [])[i], Visits(document, [])[j]);
    }
  }

  /** The walk visits exactly the objects of the document, each at its own path. */
  lemma WalkIsComplete(document: Json, v: Visit)
    requires Sized(document)
    ensures v in Visits(document, []) <==> Follow(document, v.path) == Some(Obj(v.fields))
  {
    if v in Visits(document, []) {
      VisitsAreReached(document, document, [], v);
    }
    if Follow(document, v.path) == Some(Obj(v.fields)) {
      ReachedAreVisited(document, [], v.path, v.fields);
      assert [] + v.path == v.path;
    }
  }

  /** The round trip: what is visited at a location is what the location resolves to. */
  lemma VisitedLocationsResolve(document: Json, v: Visit)
    requires Sized(document) && PercentFree(document) && v in Visits(document, [])
    ensures Resolve(document, Location(v.path)) == Some(Obj(v.fields))
  {
    VisitsAreReached(document, document, [], v);
    LocationRoundTrip(v.path);
  }

  /** With a '%' in a key the round trip is lost: the object under "%41" is visited at
      "#/%41", which names the missing key "A". */
  lemma PercentKeyDoesNotResolve()
    ensures var document := Obj(map["%41" := Obj(map[])]);
            && Visit(map[], ["%41"]) in Visits(document, [])
            && Resolve(document, Location(["%41"])).None?
  {
    var document := Obj(map["%41" := Obj(map[])]);
    var path := ["%41"];
    assert path[..0] == [];
    assert Follow(document, path) == Step(document, "%41");
    WalkIsComplete(document, Visit(map[], path));
    LocationTokens(path);
    assert Location(path) != "#";
    LocationRoundTrip(path);
    var decoded := RefPath(Location(path));
    if decoded.Some? {
      assert |decoded.value| == 1 && decoded.value != path;
      assert decoded.value == [decoded.value[0]] && decoded.value[..0] == [];
      assert Follow(document, decoded.value) == Step(document, decoded.value[0]);
    }
  }
}
