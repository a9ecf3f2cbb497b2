/** Moving Swagger definitions to OpenAPI component schemas: references are renamed as the
    definitions are copied, and go on resolving to the same things. */
module RefRewrite {
  import opened Results
  import opened Sequences
  import opened JsonTree
  import opened JsonPointer
  import opened PointerRoundTrip

  const DEFINITIONS := "#/" + "definitions" + "/"
  const PARAMETERS := "#/" + "parameters" + "/"
  const RESPONSES := "#/" + "responses" + "/"
  const SCHEMAS := "#/" + "components" + "/" + "schemas" + "/"

  /** The first matching prefix is replaced, once. */
  function RenameRef(ref: string): string {
    if DEFINITIONS <= ref then SCHEMAS + ref[|DEFINITIONS|..]
    else if PARAMETERS <= ref then "#/components/parameters/" + ref[|PARAMETERS|..]
    else if RESPONSES <= ref then "#/components/responses/" + ref[|RESPONSES|..]
    else ref
  }

  function RewriteRef(value: Json): Json {
    if value.Str? then Str(RenameRef(value.text)) else value
  }

  function RewriteSchemaRefs(value: Json): Json
    decreases value, 1
  {
    match value
    case Arr(_) => Arr(RewrittenItems(value))
    case Obj(_) => Obj(RewrittenMembers(value))
    case _ => value
  }

  function RewrittenItems(value: Json): (r: seq<Json>)
    requires value.Arr?
    ensures |r| == |value.items|
    decreases value, 0
  {
    seq(|value.items|, i requires 0 <= i < |value.items| => RewriteSchemaRefs(value.items[i]))
  }

  function RewrittenMembers(value: Json): (r: map<string, Json>)
    requires value.Obj?
    ensures r.Keys == value.fields.Keys
    decreases value, 0
  {
    map k | k in value.fields :: if k == REF then RewriteRef(value.fields[k]) else RewriteSchemaRefs(value.fields[k])
  }

  // ---------- following a path in the copy ----------

  /** The rewritten version of what was found, if anything was found. */
  function Rewritten(found: Option<Json>): Option<Json> {
    match found
    case None => None
    case Some(value) => Some(RewriteSchemaRefs(value))
  }

  /** A step other than into `$ref` leads to the rewritten version of where it led. */
  lemma StepCommutes(value: Json, key: string)
    requires key != REF
    ensures Step(RewriteSchemaRefs(value), key) == Rewritten(Step(value, key))
  {
  }

  /** The item of a `$ref` is renamed if it is a string and left alone otherwise. */
  lemma StepIntoRef(value: Json)
    ensures Step(RewriteSchemaRefs(value), REF)
         == match Step(value, REF)
            case None => None
            case Some(item) => Some(RewriteRef(item))
    ensures Step(value, REF).Some? ==> value.Obj?
  {
    assert value.Arr? ==> ParseIndex(REF, |value.items|).None?;
  }

  lemma {:induction false} FollowCommutes(value: Json, path: seq<string>)
    requires REF !in path
    ensures Follow(RewriteSchemaRefs(value), path) == Rewritten(Follow(value, path))
  {
    if path != [] {
      FollowCommutes(value, path[..|path| - 1]);
      var parent := Follow(value, path[..|path| - 1]);
      if parent.Some? { StepCommutes(parent.value, path[|path| - 1]); }
    }
  }

  /** Whatever path is followed, the copy leads somewhere exactly when the original does. */
  lemma {:induction false} FollowsAlike(value: Json, path: seq<string>)
    ensures Follow(RewriteSchemaRefs(value), path).Some? <==> Follow(value, path).Some?
    decreases |path|
  {
    if path != [] {
      FollowFirst(value, path);
      FollowFirst(RewriteSchemaRefs(value), path);
      var child := Step(value, path[0]);
      if path[0] != REF {
        StepCommutes(value, path[0]);
        if child.Some? { FollowsAlike(child.value, path[1..]); }
      } else {
        StepIntoRef(value);
        if child.Some? && child.value.Str? && path[1..] != [] {
          FollowFirst(child.value, path[1..]);
          FollowFirst(RewriteRef(child.value), path[1..]);
        }
      }
    }
  }

  // ---------- what the copy changes, and what not ----------

  /** None of the three prefixes; then a reference is left alone. */
  ghost predicate KeptRef(value: Json) {
    if value.Str? then
      !("#/definitions/" <= value.text) && !("#/parameters/" <= value.text) && !("#/responses/" <= value.text)
    else true
  }

  ghost predicate NothingToRename(value: Json)
    decreases value, 1
  {
    match value
    case Arr(_) => NothingInItems(value)
    case Obj(_) => NothingInMembers(value)
    case _ => true
  }

  ghost predicate NothingInItems(value: Json)
    requires value.Arr?
    decreases value, 0
  {
    forall i | 0 <= i < |value.items| :: NothingToRename(value.items[i])
  }

  ghost predicate NothingInMembers(value: Json)
    requires value.Obj?
    decreases value, 0
  {
    forall k | k in value.fields :: if k == REF then KeptRef(value.fields[k]) else NothingToRename(value.fields[k])
  }

  lemma KeptRefStays(value: Json)
    requires KeptRef(value)
    ensures RewriteRef(value) == value
  {
    assert DEFINITIONS == "#/definitions/" && PARAMETERS == "#/parameters/" && RESPONSES == "#/responses/";
  }

  /** A value without a reference under one of the prefixes is copied as it is. */
  lemma {:induction false} CopyIsIdentity(value: Json)
    requires NothingToRename(value)
    ensures RewriteSchemaRefs(value) == value
  {
    match value
    case Arr(items) =>
      forall i | 0 <= i < |items| ensures RewriteSchemaRefs(items[i]) == items[i] { CopyIsIdentity(items[i]); }
      assert RewrittenItems(value) == items;
    case Obj(fields) =>
      forall k | k in fields ensures RewrittenMembers(value)[k] == fields[k] {
        if k == REF { KeptRefStays(fields[k]); } else { CopyIsIdentity(fields[k]); }
      }
      assert RewrittenMembers(value) == fields;
    case _ =>
  }

  /** Where a path without `$ref` leads in the original, the copy has the same scalar, a list
      as long, or an object with the same keys. */
  lemma CopyKeepsShape(value: Json, path: seq<string>)
    requires REF !in path && Follow(value, path).Some?
    ensures Follow(RewriteSchemaRefs(value), path).Some?
    ensures
      var copied := Follow(RewriteSchemaRefs(value), path).value;
      match Follow(value, path).value
      case Arr(items) => copied.Arr? && |copied.items| == |items|
      case Obj(fields) => copied.Obj? && copied.fields.Keys == fields.Keys
      case original => copied == original
  {
    FollowCommutes(value, path);
  }

  /** What stands at `$ref` in the copy of an object: the same reference under the place the
      conversion moved its target to, or what stood there. */
  lemma CopiedRef(value: Json, path: seq<string>, name: string)
    requires REF !in path
    requires Follow(value, path).Some? && Follow(value, path).value.Obj? && REF in Follow(value, path).value.fields
    ensures
      var copied := Follow(RewriteSchemaRefs(value), path);
      var ref := Follow(value, path).value.fields[REF];
      && copied.Some? && copied.value.Obj? && REF in copied.value.fields
      && (ref == Str("#/definitions/" + name) ==> copied.value.fields[REF] == Str("#/components/schemas/" + name))
      && (ref == Str("#/parameters/" + name) ==> copied.value.fields[REF] == Str("#/components/parameters/" + name))
      && (ref == Str("#/responses/" + name) ==> copied.value.fields[REF] == Str("#/components/responses/" + name))
      && (KeptRef(ref) ==> copied.value.fields[REF] == ref)
  {
    FollowCommutes(value, path);
    var parent := Follow(value, path).value;
    assert RewriteSchemaRefs(parent).fields[REF] == RewriteRef(parent.fields[REF]);
    RenamedDefinition(name);
    RenamedParameter(name);
    RenamedResponse(name);
    if KeptRef(parent.fields[REF]) { KeptRefStays(parent.fields[REF]); }
  }

  lemma RenamedDefinition(name: string)
    ensures RenameRef("#/definitions/" + name) == "#/components/schemas/" + name
  {
    assert DEFINITIONS == "#/definitions/" && SCHEMAS == "#/components/schemas/";
    assert (DEFINITIONS + name)[|DEFINITIONS|..] == name;
  }

  lemma RenamedParameter(name: string)
    ensures RenameRef("#/parameters/" + name) == "#/components/parameters/" + name
  {
    assert PARAMETERS == "#/parameters/" && PARAMETERS[2] == 'p' && DEFINITIONS[2] == 'd';
    OtherPrefix(DEFINITIONS, PARAMETERS, name, 2);
    assert (PARAMETERS + name)[|PARAMETERS|..] == name;
  }

  lemma RenamedResponse(name: string)
    ensures RenameRef("#/responses/" + name) == "#/components/responses/" + name
  {
    assert RESPONSES == "#/responses/" && RESPONSES[2] == 'r' && PARAMETERS[2] == 'p' && DEFINITIONS[2] == 'd';
    OtherPrefix(DEFINITIONS, RESPONSES, name, 2);
    OtherPrefix(PARAMETERS, RESPONSES, name, 2);
    assert (RESPONSES + name)[|RESPONSES|..] == name;
  }

  lemma OtherPrefix(a: string, b: string, rest: string, i: nat)
    requires i < |a| && i < |b| && a[i] != b[i]
    ensures !(a <= b + rest)
  {
    assert (b + rest)[i] == b[i];
  }

  // ---------- resolving a renamed reference ----------

  lemma {:induction false} SplitFirst(word: string, rest: string)
    requires '/' !in word
    ensures Split(word + "/" + rest, '/') == [word] + Split(rest, '/')
  {
    if word == "" {
      assert (word + "/" + rest)[1..] == rest;
    } else {
      SplitFirst(word[1..], rest);
      assert (word + "/" + rest)[1..] == word[1..] + "/" + rest;
      assert word == [word[0]] + word[1..];
    }
  }

  function Front(first: Option<string>, rest: Option<seq<string>>): Option<seq<string>> {
    if first.Some? && rest.Some? then Some([first.value] + rest.value) else None
  }

  function Back(rest: Option<seq<string>>, last: Option<string>): Option<seq<string>> {
    if rest.Some? && last.Some? then Some(rest.value + [last.value]) else None
  }

  lemma FrontBack(first: Option<string>, middle: Option<seq<string>>, last: Option<string>)
    ensures Back(Front(first, middle), last) == Front(first, Back(middle, last))
  {
    if first.Some? && middle.Some? && last.Some? { Regroup([first.value], middle.value, [last.value]); }
  }

  lemma DecodeLast(tokens: seq<string>, last: string)
    ensures DecodeAll(tokens + [last]) == Back(DecodeAll(tokens), DecodeToken(last))
  {
    assert (tokens + [last])[..|tokens|] == tokens;
  }

  lemma {:induction false} DecodeFirst(token: string, tokens: seq<string>)
    ensures DecodeAll([token] + tokens) == Front(DecodeToken(token), DecodeAll(tokens))
  {
    if tokens == [] {
      DecodeLast([], token);
      assert [] + [token] == [token] + tokens;
      if DecodeToken(token).Some? { assert [] + [DecodeToken(token).value] == [DecodeToken(token).value] + []; }
    } else {
      var init, last := tokens[..|tokens| - 1], tokens[|tokens| - 1];
      DecodeFirst(token, init);
      DecodeLast(init, last);
      DecodeLast([token] + init, last);
      FrontBack(DecodeToken(token), DecodeAll(init), DecodeToken(last));
      assert init + [last] == tokens;
      Regroup([token], init, [last]);
    }
  }

  /** A word without special characters stands for itself. */
  lemma PlainWord(word: string)
    requires '%' !in word && '~' !in word && '/' !in word
    ensures DecodeToken(word) == Some(word)
  {
    TokenRoundTrip(word);
    PlainEscape(word);
  }

  lemma {:induction false} PlainEscape(word: string)
    requires '~' !in word && '/' !in word
    ensures Escape(word) == word
  {
    if word != "" {
      EscapeCons(word);
      PlainEscape(word[1..]);
      assert word == [word[0]] + word[1..];
    }
  }

  ghost predicate Plain(word: string) {
    '%' !in word && '~' !in word && '/' !in word
  }

  lemma FirstToken(word: string, rest: string)
    requires Plain(word)
    ensures DecodeAll(Split(word + "/" + rest, '/'))
         == match DecodeAll(Split(rest, '/'))
            case None => None
            case Some(path) => Some([word] + path)
  {
    SplitFirst(word, rest);
    DecodeFirst(word, Split(rest, '/'));
    PlainWord(word);
  }

  lemma RefPathFirst(word: string, rest: string)
    requires Plain(word)
    ensures RefPath("#/" + word + "/" + rest)
         == match DecodeAll(Split(rest, '/'))
            case None => None
            case Some(path) => Some([word] + path)
  {
    var ref := "#/" + word + "/" + rest;
    assert ref[2..] == word + "/" + rest;
    FirstToken(word, rest);
  }

  lemma RefPathSecond(first: string, second: string, rest: string)
    requires Plain(first) && Plain(second)
    ensures RefPath("#/" + first + "/" + second + "/" + rest)
         == match DecodeAll(Split(rest, '/'))
            case None => None
            case Some(path) => Some([first, second] + path)
  {
    SecondWord(first, second, rest);
    TwoWords(first, second, rest, "#/" + first + "/" + (second + "/" + rest));
  }

  lemma TwoWords(first: string, second: string, rest: string, ref: string)
    requires Plain(first) && Plain(second) && ref == "#/" + first + "/" + (second + "/" + rest)
    ensures RefPath(ref)
         == match DecodeAll(Split(rest, '/'))
            case None => None
            case Some(path) => Some([first, second] + path)
  {
    RefPathFirst(first, second + "/" + rest);
    FirstToken(second, rest);
    Prepend(first, second, DecodeAll(Split(rest, '/')));
  }

  lemma Prepend(first: string, second: string, decoded: Option<seq<string>>)
    ensures decoded.Some? ==> [first] + ([second] + decoded.value) == [first, second] + decoded.value
  {
  }

  lemma SecondWord(first: string, second: string, rest: string)
    ensures "#/" + first + "/" + second + "/" + rest == "#/" + first + "/" + (second + "/" + rest)
  {
    RegroupFour("#/" + first + "/", second, "/", rest);
  }

  lemma DefinitionPath(rest: string)
    ensures RefPath(DEFINITIONS + rest)
         == match DecodeAll(Split(rest, '/'))
            case None => None
            case Some(path) => Some(["definitions"] + path)
  {
    assert Plain("definitions");
    RefPathFirst("definitions", rest);
  }

  lemma SchemaPath(rest: string)
    ensures RefPath(SCHEMAS + rest)
         == match DecodeAll(Split(rest, '/'))
            case None => None
            case Some(path) => Some(["components", "schemas"] + path)
  {
    assert Plain("components") && Plain("schemas");
    RefPathSecond("components", "schemas", rest);
  }

  /** The converted document holds the rewritten definitions as its component schemas. */
  ghost predicate Converted(v2: Json, v3: Json) {
    && v2.Obj? && "definitions" in v2.fields
    && v3.Obj? && "components" in v3.fields
    && v3.fields["components"].Obj? && "schemas" in v3.fields["components"].fields
    && v3.fields["components"].fields["schemas"] == RewriteSchemaRefs(v2.fields["definitions"])
  }

  lemma FollowDefinitions(v2: Json, path: seq<string>)
    requires v2.Obj? && "definitions" in v2.fields
    ensures Follow(v2, ["definitions"] + path) == Follow(v2.fields["definitions"], path)
  {
    FollowFirst(v2, ["definitions"] + path);
    assert (["definitions"] + path)[1..] == path;
  }

  lemma FollowSchemas(v2: Json, v3: Json, path: seq<string>)
    requires Converted(v2, v3)
    ensures Follow(v3, ["components", "schemas"] + path) == Follow(RewriteSchemaRefs(v2.fields["definitions"]), path)
  {
    var whole := ["components", "schemas"] + path;
    FollowFirst(v3, whole);
    assert whole[1..] == ["schemas"] + path;
    FollowFirst(v3.fields["components"], whole[1..]);
    assert whole[1..][1..] == path;
  }

  /** Renaming and copying commute with resolution: a reference under `#/definitions/` whose
      path does not go through a `$ref` key resolves, renamed, in the converted document to
      the rewritten version of what it resolved to before. */
  lemma RenamedRefResolves(v2: Json, v3: Json, rest: string)
    requires Converted(v2, v3)
    requires RefPath(DEFINITIONS + rest).Some? ==> REF !in RefPath(DEFINITIONS + rest).value
    ensures Resolve(v3, RenameRef(DEFINITIONS + rest)) == Rewritten(Resolve(v2, DEFINITIONS + rest))
  {
    DefinitionPath(rest);
    SchemaPath(rest);
    assert (DEFINITIONS + rest)[|DEFINITIONS|..] == rest;
    var decoded := DecodeAll(Split(rest, '/'));
    if decoded.Some? {
      NotInTail(REF, "definitions", decoded.value);
      FollowDefinitions(v2, decoded.value);
      FollowSchemas(v2, v3, decoded.value);
      FollowCommutes(v2.fields["definitions"], decoded.value);
    }
  }

  lemma NotInTail(key: string, first: string, rest: seq<string>)
    requires key !in [first] + rest
    ensures key !in rest
  {
  }

  /** Without the condition on `$ref` the reference still resolves, if it did before. */
  lemma RenamedRefStillResolves(v2: Json, v3: Json, rest: string)
    requires Converted(v2, v3)
    ensures Resolve(v3, RenameRef(DEFINITIONS + rest)).Some? <==> Resolve(v2, DEFINITIONS + rest).Some?
  {
    DefinitionPath(rest);
    SchemaPath(rest);
    assert (DEFINITIONS + rest)[|DEFINITIONS|..] == rest;
    var decoded := DecodeAll(Split(rest, '/'));
    if decoded.Some? {
      FollowDefinitions(v2, decoded.value);
      FollowSchemas(v2, v3, decoded.value);
      FollowsAlike(v2.fields["definitions"], decoded.value);
    }
  }

  /** ... but through a `$ref` key it may resolve to something else: the reference string
      found there has been renamed, which rewriting the string itself would not do. */
  lemma ThroughRefKeyDiffers(name: string)
    ensures var value := Obj(map[REF := Str(DEFINITIONS + name)]);
            Follow(RewriteSchemaRefs(value), [REF]) != Rewritten(Follow(value, [REF]))
  {
    var value := Obj(map[REF := Str(DEFINITIONS + name)]);
    var renamed := RewriteSchemaRefs(value);
    assert Follow(value, [REF]) == Step(value, REF) by { FollowOne(value, REF); }
    assert Follow(renamed, [REF]) == Step(renamed, REF) by { FollowOne(renamed, REF); }
    StepIntoRef(value);
    RenamedIsLonger(name);
  }

  lemma FollowOne(value: Json, token: string)
    ensures Follow(value, [token]) == Step(value, token)
  {
    FollowFirst(value, [token]);
    assert [token][1..] == [];
  }

  lemma RenamedIsLonger(name: string)
    ensures |RenameRef(DEFINITIONS + name)| > |DEFINITIONS + name|
  {
    assert (DEFINITIONS + name)[|DEFINITIONS|..] == name;
  }

  // ---------- the check of internal references ----------

  datatype RefError = NotAString | NotInternal(ref: string) | Unresolved(ref: string)

  /** What is wrong with a reference, if anything. */
  function RefProblem(document: Json, value: Json): Option<RefError> {
    if !value.Str? then Some(NotAString)
    else
      var ref := value.text;
      if ref != "#" && !("#/" <= ref) then Some(NotInternal(ref))
      else if Resolve(document, ref).None? then Some(Unresolved(ref))
      else None
  }

  /** The same for an object, which need not be a reference. */
  function Problem(document: Json, fields: map<string, Json>): Option<RefError> {
    if REF in fields then RefProblem(document, fields[REF]) else None
  }

  function RefCount(visits: seq<Visit>): nat {
    if visits == [] then 0
    else RefCount(visits[..|visits| - 1]) + (if REF in visits[|visits| - 1].fields then 1 else 0)
  }

  /** A reference passes exactly when it is a string that is "#" or starts with "#/", and leads
      somewhere; which problem is reported when it does not. */
  lemma ProblemIff(document: Json, fields: map<string, Json>)
    requires REF in fields
    ensures
      var ref, problem := fields[REF], Problem(document, fields);
      && (problem == Some(NotAString) <==> !ref.Str?)
      && (ref.Str? ==>
            var internal := ref.text == "#" || (|ref.text| >= 2 && ref.text[0] == '#' && ref.text[1] == '/');
            && (problem == Some(NotInternal(ref.text)) <==> !internal)
            && (problem == Some(Unresolved(ref.text)) <==> internal && Resolve(document, ref.text).None?)
            && (problem == None <==> internal && Resolve(document, ref.text).Some?))
  {
  }

  lemma {:induction false} RefCountIs(visits: seq<Visit>)
    ensures RefCount(visits) == |set i | 0 <= i < |visits| && REF in visits[i].fields|
  {
    if visits != [] {
      var n := |visits| - 1;
      RefCountIs(visits[..n]);
      var before := set i | 0 <= i < n && REF in visits[..n][i].fields;
      assert (set i | 0 <= i < |visits| && REF in visits[i].fields)
          == before + (if REF in visits[n].fields then {n} else {});
    }
  }

  ghost predicate RefsAreValid(document: Json) {
    forall v | v in Visits(document, []) :: Problem(document, v.fields).None?
  }

  method CheckRef(document: Json, value: Json) returns (problem: Option<RefError>)
    ensures problem == RefProblem(document, value)
  {
    if !value.Str? {
      return Some(NotAString);
    }
    var ref := value.text;
    if ref != "#" && !("#/" <= ref) {
      return Some(NotInternal(ref));
    }
    var resolved := ResolveJSONPointer(document, ref);
    return if resolved.None? then Some(Unresolved(ref)) else None;
  }

  /** The check passes exactly when every reference is an internal one that resolves; it
      counts them all, or reports the first bad one in the order of the walk. */
  method ValidateInternalRefs(document: Json) returns (count: nat, problem: Option<RefError>)
    ensures problem.None? <==> RefsAreValid(document)
    ensures problem.None? ==> count == RefCount(Visits(document, []))
    ensures problem.Some? ==> HasFirstProblem(document, count, problem)
  {
    var visits := Visits(document, []);
    count, problem := 0, None;
    for i := 0 to |visits|
      invariant forall j | 0 <= j < i :: Problem(document, visits[j].fields).None?
      invariant count == RefCount(visits[..i])
      invariant problem.None?
    {
      RefCountGrows(visits, i);
      if REF in visits[i].fields {
        count := count + 1;
        problem := CheckRef(document, visits[i].fields[REF]);
        if problem.Some? {
          FirstProblem(document, i, count, problem);
          return;
        }
      }
    }
    assert visits[..|visits|] == visits;
  }

  lemma RefCountGrows(visits: seq<Visit>, i: nat)
    requires i < |visits|
    ensures RefCount(visits[..i + 1]) == RefCount(visits[..i]) + if REF in visits[i].fields then 1 else 0
  {
    assert visits[..i + 1][..i] == visits[..i];
  }

  ghost predicate HasFirstProblem(document: Json, count: nat, problem: Option<RefError>) {
    exists i: nat :: i < |Visits(document, [])| && IsFirstProblem(document, i, count, problem)
  }

  lemma FirstProblem(document: Json, i: nat, count: nat, problem: Option<RefError>)
    requires IsFirstProblem(document, i, count, problem)
    ensures !RefsAreValid(document) && HasFirstProblem(document, count, problem)
  {
    assert Visits(document, [])[i] in Visits(document, []);
  }

  ghost predicate IsFirstProblem(document: Json, i: nat, count: nat, problem: Option<RefError>) {
    var visits := Visits(document, []);
    && i < |visits|
    && problem.Some? && Problem(document, visits[i].fields) == problem
    && (forall j | 0 <= j < i :: Problem(document, visits[j].fields).None?)
    && count == RefCount(visits[..i + 1])
  }

  // ---------- references that passed go on passing ----------

  /** Every reference inside a value is a string. */
  ghost predicate RefsAreStrings(value: Json) {
    forall v | v in Visits(value, []) :: REF in v.fields ==> v.fields[REF].Str?
  }

  lemma {:induction false} SizedCopy(value: Json)
    requires Sized(value)
    ensures Sized(RewriteSchemaRefs(value))
  {
    match value
    case Arr(items) =>
      forall i | 0 <= i < |items| ensures Sized(RewriteSchemaRefs(items[i])) { SizedCopy(items[i]); }
    case Obj(fields) =>
      forall k | k in fields ensures Sized(RewriteSchemaRefs(fields[k])) { SizedCopy(fields[k]); }
    case _ =>
  }

  /** Where references are strings, no path to an object goes through one. */
  lemma {:induction false} NoObjectBelowRef(value: Json, path: seq<string>, n: nat)
    requires Sized(value) && RefsAreStrings(value)
    requires n <= |path| && Follow(RewriteSchemaRefs(value), path).Some?
        && Follow(RewriteSchemaRefs(value), path).value.Obj?
    ensures REF !in path[..n]
  {
    if n > 0 {
      NoObjectBelowRef(value, path, n - 1);
      assert path[..n] == path[..n - 1] + [path[n - 1]];
      if path[n - 1] == REF { RefIsNoObject(value, path, n); }
    }
  }

  /** What a path reaches through a first `$ref` is no object. */
  lemma RefIsNoObject(value: Json, path: seq<string>, n: nat)
    requires Sized(value) && RefsAreStrings(value)
    requires 0 < n <= |path| && REF !in path[..n - 1] && path[..n] == path[..n - 1] + [REF]
    ensures var found := Follow(RewriteSchemaRefs(value), path); found.None? || !found.value.Obj?
  {
    var rewritten := RewriteSchemaRefs(value);
    if Follow(rewritten, path[..n]).None? {
      FollowNone(rewritten, path, n);
    } else {
      RefIsString(value, path[..n - 1]);
      if n < |path| {
        assert path[..n + 1][..n] == path[..n];
        FollowNone(rewritten, path, n + 1);
      } else {
        assert path[..n] == path;
      }
    }
  }

  lemma RefIsString(value: Json, init: seq<string>)
    requires Sized(value) && RefsAreStrings(value) && REF !in init
    requires Follow(RewriteSchemaRefs(value), init + [REF]).Some?
    ensures Follow(RewriteSchemaRefs(value), init + [REF]).value.Str?
  {
    FollowCommutes(value, init);
    FollowStep(RewriteSchemaRefs(value), init, REF);
    var parent := Follow(value, init).value;
    StepIntoRef(parent);
    WalkIsComplete(value, Visit(parent.fields, init));
  }

  /** Where all references of a document are valid, those among its definitions are visited
      with the document and are strings. */
  lemma DefinitionRefs(v2: Json, v: Visit)
    requires v2.Obj? && "definitions" in v2.fields && Sized(v2) && RefsAreValid(v2)
    requires v in Visits(v2.fields["definitions"], [])
    ensures Problem(v2, v.fields).None? && (REF in v.fields ==> v.fields[REF].Str?)
  {
    WalkIsComplete(v2.fields["definitions"], v);
    FollowDefinitions(v2, v.path);
    var before := Visit(v.fields, ["definitions"] + v.path);
    WalkIsComplete(v2, before);
    assert Problem(v2, before.fields).None?;
  }

  /** A reference that the conversion of the definitions is responsible for: to a definition, or
      to the whole document. */
  predicate Covered(fields: map<string, Json>) {
    REF in fields && fields[REF].Str? && (DEFINITIONS <= fields[REF].text || fields[REF].text == "#")
  }

  /** If all references of a Swagger document are valid, then an object among the component
      schemas of the converted document is the copy of one among the definitions; and if that
      has a reference to a definition, or to the whole document, its copy's is valid too,
      whatever other references there are. */
  lemma ValidRefsStayValid(v2: Json, v3: Json, v: Visit) returns (original: map<string, Json>)
    requires Converted(v2, v3) && Sized(v2) && RefsAreValid(v2)
    requires v in Visits(RewriteSchemaRefs(v2.fields["definitions"]), [])
    ensures Visit(original, v.path) in Visits(v2.fields["definitions"], [])
    ensures v.fields == RewrittenMembers(Obj(original))
    ensures Covered(original) ==> Problem(v3, v.fields).None?
  {
    var definitions := v2.fields["definitions"];
    forall w | w in Visits(definitions, []) && REF in w.fields ensures w.fields[REF].Str? { DefinitionRefs(v2, w); }
    original := OriginalOf(definitions, v);
    WalkIsComplete(definitions, Visit(original, v.path));
    if Covered(original) {
      DefinitionRefs(v2, Visit(original, v.path));
      if original[REF].text == "#" {
        WholeDocumentIsValid(v3);
      } else {
        RenamedRefIsValid(v2, v3, original[REF].text);
      }
    }
  }

  lemma WholeDocumentIsValid(document: Json)
    ensures RefProblem(document, RewriteRef(Str("#"))).None?
  {
    assert RenameRef("#") == "#";
  }

  lemma RenamedRefIsValid(v2: Json, v3: Json, ref: string)
    requires Converted(v2, v3) && DEFINITIONS <= ref
    requires RefProblem(v2, Str(ref)).None?
    ensures RefProblem(v3, RewriteRef(Str(ref))).None?
  {
    var rest := ref[|DEFINITIONS|..];
    assert ref == DEFINITIONS + rest;
    RenamedRefStillResolves(v2, v3, rest);
    assert "#/" <= SCHEMAS + rest;
  }

  /** An object visited in the copy is the copy of an object visited in the original. */
  lemma OriginalOf(value: Json, v: Visit) returns (original: map<string, Json>)
    requires Sized(value) && RefsAreStrings(value)
    requires v in Visits(RewriteSchemaRefs(value), [])
    ensures Follow(value, v.path) == Some(Obj(original)) && v.fields == RewrittenMembers(Obj(original))
  {
    SizedCopy(value);
    WalkIsComplete(RewriteSchemaRefs(value), v);
    NoObjectBelowRef(value, v.path, |v.path|);
    assert v.path[..|v.path|] == v.path;
    FollowCommutes(value, v.path);
    original := Follow(value, v.path).value.fields;
  }
}
