/** The identifiers of mutants, by which exemptions name them: no two mutants share one. */
module MutantNames {
  import opened Numerals
  import opened Sequences
  import opened Mutants

  function Describe(node: Rewrite): string {
    match node
    case Direct => "direct"
    case Computed(relation) => relation
    case TupleTo(relation, tupleset) => relation + " from " + tupleset
    case Union(_) => "union"
    case Intersection(_) => "intersection"
    case Difference(_, _) => "difference"
  }

  function EdgeText(e: Edge): string {
    match e
    case InUnion(i) => ".union[" + Decimal(i) + "]"
    case InIntersection(i) => ".intersection[" + Decimal(i) + "]"
    case InBase => ".base"
    case InSubtract => ".subtract"
  }

  function PathText(site: seq<Edge>): string {
    if site == [] then "" else EdgeText(site[0]) + PathText(site[1..])
  }

  function BreakText(node: Rewrite, b: Break): string
    requires Applies(node, b)
  {
    match b
    case DropUnion(i) => "drop union child " + Decimal(i) + " (" + Describe(node.children[i]) + ")"
    case DropIntersection(i) => "drop intersection child " + Decimal(i) + " (" + Describe(node.children[i]) + ")"
    case ToUnion => "intersection -> union"
    case DropButNot => "drop 'but not' (" + Describe(node.subtract) + ")"
  }

  /** The identifier of a mutant of the relation called `base`. */
  function Id(base: string, node: Rewrite, m: Mutant): string
    requires SingleBreak(node, m)
  {
    base + PathText(m.site) + ": " + BreakText(At(node, m.site), m.broken)
  }

  /** How some of them read. */
  lemma HowUnionBreaksRead()
    ensures BreakText(Union([Direct, Computed("editor")]), DropUnion(1)) == "drop union child 1 (editor)"
  {
    assert Decimal(1) == "1";
  }

  lemma HowIntersectionBreaksRead()
    ensures BreakText(Intersection([Direct]), DropIntersection(0)) == "drop intersection child 0 (direct)"
    ensures Describe(TupleTo("viewer", "parent")) == "viewer from parent"
  {
    assert Decimal(0) == "0";
  }

  lemma HowOtherBreaksRead(children: seq<Rewrite>, base: Rewrite)
    ensures BreakText(Intersection(children), ToUnion) == "intersection -> union"
    ensures BreakText(Difference(base, Computed("blocked")), DropButNot) == "drop 'but not' (blocked)"
    ensures Describe(Union(children)) == "union" && Describe(Intersection(children)) == "intersection"
    ensures Describe(Difference(base, base)) == "difference" && Describe(Direct) == "direct"
  {
  }

  lemma HowSitesRead()
    ensures PathText([InUnion(0), InBase]) == ".union[0].base"
    ensures PathText([InIntersection(12), InSubtract]) == ".intersection[12].subtract"
  {
    assert Decimal(0) == "0" && Decimal(1) == "1" && Decimal(12) == Decimal(1) + "2";
    var a, b := [InUnion(0), InBase], [InIntersection(12), InSubtract];
    assert a[1..] == [InBase] && b[1..] == [InSubtract] && [InBase][1..] == [] && [InSubtract][1..] == [];
    assert PathText([InBase]) == ".base" + "" && PathText([InSubtract]) == ".subtract" + "";
  }

  // ---------- reading identifiers ----------

  /** A text up to the first of some marks is determined by the whole. */
  lemma {:induction false} UpToMark(a: string, b: string, r: string, s: string, marks: set<char>)
    requires a + r == b + s && r != "" && s != "" && r[0] in marks && s[0] in marks
    requires forall c | c in a :: c !in marks
    requires forall c | c in b :: c !in marks
    ensures a == b && r == s
  {
    BothEmpty(a, b, r, s, marks);
    if a == "" {
      assert a + r == r && b + s == s;
    } else {
      assert (a + r)[0] == a[0] && (b + s)[0] == b[0];
      assert (a + r)[1..] == a[1..] + r && (b + s)[1..] == b[1..] + s;
      UpToMark(a[1..], b[1..], r, s, marks);
      assert a == [a[0]] + a[1..] && b == [b[0]] + b[1..];
    }
  }

  lemma BothEmpty(a: string, b: string, r: string, s: string, marks: set<char>)
    requires a + r == b + s && r != "" && s != "" && r[0] in marks && s[0] in marks
    requires forall c | c in a :: c !in marks
    requires forall c | c in b :: c !in marks
    ensures a == "" <==> b == ""
  {
    assert (a + r)[0] == if a == "" then r[0] else a[0];
    assert (b + s)[0] == if b == "" then s[0] else b[0];
  }

  lemma NumeralThenMark(i: nat, j: nat, r: string, s: string, mark: char)
    requires Decimal(i) + r == Decimal(j) + s && r != "" && s != "" && r[0] == s[0] == mark && !IsDigit(mark)
    ensures i == j && r == s
  {
    DecimalValue(i);
    DecimalValue(j);
    UpToMark(Decimal(i), Decimal(j), r, s, {mark});
  }

  lemma IndexReads(prefix: string, i: nat, j: nat, mark: string, r: string, s: string)
    requires |mark| == 1 && !IsDigit(mark[0])
    requires prefix + Decimal(i) + mark + r == prefix + Decimal(j) + mark + s
    ensures i == j && r == s
  {
    RegroupFour(prefix, Decimal(i), mark, r);
    RegroupFour(prefix, Decimal(j), mark, s);
    SamePrefix(prefix, Decimal(i) + (mark + r), Decimal(j) + (mark + s));
    NumeralThenMark(i, j, mark + r, mark + s, mark[0]);
    SamePrefix(mark, r, s);
  }

  lemma EdgeStarts(e: Edge)
    ensures |EdgeText(e)| > 1 && EdgeText(e)[0] == '.'
    ensures EdgeText(e)[1] ==
              match e
              case InUnion(_) => 'u'
              case InIntersection(_) => 'i'
              case InBase => 'b'
              case InSubtract => 's'
  {
  }

  /** One edge can be read off the front of a path. */
  lemma EdgeReads(e: Edge, f: Edge, r: string, s: string)
    requires EdgeText(e) + r == EdgeText(f) + s
    ensures e == f && r == s
  {
    EdgeStarts(e);
    EdgeStarts(f);
    assert (EdgeText(e) + r)[1] == EdgeText(e)[1] && (EdgeText(f) + s)[1] == EdgeText(f)[1];
    if e.InUnion? {
      IndexReads(".union[", e.i, f.i, "]", r, s);
    } else if e.InIntersection? {
      IndexReads(".intersection[", e.i, f.i, "]", r, s);
    } else {
      SamePrefix(EdgeText(e), r, s);
    }
  }

  lemma {:induction false} PathReads(a: seq<Edge>, b: seq<Edge>, mark: string, r: string, s: string)
    requires |mark| > 0 && mark[0] == ':'
    requires PathText(a) + (mark + r) == PathText(b) + (mark + s)
    ensures a == b && r == s
  {
    PathStarts(a, mark + r);
    PathStarts(b, mark + s);
    if a == [] {
      assert "" + (mark + r) == mark + r && "" + (mark + s) == mark + s;
      SamePrefix(mark, r, s);
    } else {
      assert b != [];
      var t, u := PathText(a[1..]) + (mark + r), PathText(b[1..]) + (mark + s);
      Regroup(EdgeText(a[0]), PathText(a[1..]), mark + r);
      Regroup(EdgeText(b[0]), PathText(b[1..]), mark + s);
      EdgeReads(a[0], b[0], t, u);
      PathReads(a[1..], b[1..], mark, r, s);
      assert a == [a[0]] + a[1..] && b == [b[0]] + b[1..];
    }
  }

  lemma PathStarts(site: seq<Edge>, text: string)
    requires text != "" && text[0] == ':'
    ensures PathText(site) + text != "" && (PathText(site) + text)[0] == if site == [] then ':' else '.'
  {
    if site != [] { EdgeStarts(site[0]); }
  }

  lemma BreakReads(node: Rewrite, a: Break, b: Break)
    requires Applies(node, a) && Applies(node, b) && BreakText(node, a) == BreakText(node, b)
    ensures a == b
  {
    if a.DropUnion? {
      DropReads("drop union child ", a.i, b.i, Describe(node.children[a.i]), Describe(node.children[b.i]));
    } else if a.DropIntersection? && b.DropIntersection? {
      DropReads("drop intersection child ", a.i, b.i, Describe(node.children[a.i]), Describe(node.children[b.i]));
    } else {
      assert BreakText(node, a)[0] == BreakText(node, b)[0];
    }
  }

  lemma DropReads(prefix: string, i: nat, j: nat, x: string, y: string)
    requires prefix + Decimal(i) + " (" + x + ")" == prefix + Decimal(j) + " (" + y + ")"
    ensures i == j
  {
    assert prefix + Decimal(i) + " (" + x + ")" == prefix + Decimal(i) + " " + ("(" + x + ")");
    assert prefix + Decimal(j) + " (" + y + ")" == prefix + Decimal(j) + " " + ("(" + y + ")");
    IndexReads(prefix, i, j, " ", "(" + x + ")", "(" + y + ")");
  }

  // ---------- identifiers tell mutants apart ----------

  lemma IdReads(base: string, p: seq<Edge>, q: seq<Edge>, a: string, b: string)
    requires base + PathText(p) + ": " + a == base + PathText(q) + ": " + b
    ensures p == q && a == b
  {
    RegroupFour(base, PathText(p), ": ", a);
    RegroupFour(base, PathText(q), ": ", b);
    SamePrefix(base, PathText(p) + (": " + a), PathText(q) + (": " + b));
    PathReads(p, q, ": ", a, b);
  }

  /** Mutants of one rewrite with the same identifier are the same mutant, whatever the names
      in the rewrite are. */
  lemma IdDeterminesMutant(base: string, node: Rewrite, m: Mutant, n: Mutant)
    requires SingleBreak(node, m) && SingleBreak(node, n) && Id(base, node, m) == Id(base, node, n)
    ensures m == n
  {
    IdReads(base, m.site, n.site, BreakText(At(node, m.site), m.broken), BreakText(At(node, n.site), n.broken));
    BreakReads(At(node, m.site), m.broken, n.broken);
  }

  /** The identifiers generated for one relation, in order, are all different. */
  lemma IdsDistinct(base: string, node: Rewrite)
    ensures forall m | m in AllMutants(node) :: SingleBreak(node, m)
    ensures forall i, j | 0 <= i < j < |AllMutants(node)| ::
              Id(base, node, AllMutants(node)[i]) != Id(base, node, AllMutants(node)[j])
  {
    forall m | m in AllMutants(node) ensures SingleBreak(node, m) { MutantsExactly(node, m); }
    MutantsDistinct(node);
    forall i, j | 0 <= i < j < |AllMutants(node)|
      ensures Id(base, node, AllMutants(node)[i]) != Id(base, node, AllMutants(node)[j])
    {
      var m, n := AllMutants(node)[i], AllMutants(node)[j];
      assert m in AllMutants(node) && n in AllMutants(node);
      if Id(base, node, m) == Id(base, node, n) { IdDeterminesMutant(base, node, m, n); }
    }
  }

  // ---------- dropped allowed types ----------

  /** An allowed type: a type, all of its objects, or a relation of them, perhaps under a
      condition. An empty relation or condition is none. */
  datatype TypeRef = TypeRef(typeName: string, wildcard: bool, relation: string, condition: string)

  function WithRelation(r: TypeRef): string { if r.relation != "" then "#" + r.relation else "" }

  function WithCondition(r: TypeRef): string { if r.condition != "" then " with " + r.condition else "" }

  /** `type_ref` */
  function TypeText(r: TypeRef): string {
    r.typeName + ((if r.wildcard then ":*" else "") + (WithRelation(r) + WithCondition(r)))
  }

  /** The identifier of the mutant that drops an allowed type. */
  function AllowedId(base: string, r: TypeRef): string {
    base + PathText([]) + ": " + ("drop allowed type [" + TypeText(r) + "]")
  }

  lemma HowTypesRead()
    ensures TypeText(TypeRef("user", false, "", "")) == "user"
    ensures TypeText(TypeRef("user", true, "", "active")) == "user:* with active"
    ensures TypeText(TypeRef("group", false, "member", "")) == "group#member"
  {
  }

  lemma HowDroppedTypesRead()
    ensures AllowedId("doc#viewer", TypeRef("user", false, "", "")) == "doc#viewer: drop allowed type [user]"
  {
    HowTypesRead();
  }

  /** Names without the characters that allowed types are punctuated with. */
  predicate PlainRef(r: TypeRef) {
    ':' !in r.typeName && '#' !in r.typeName && ' ' !in r.typeName && ' ' !in r.relation
  }

  lemma BreakStarts(node: Rewrite, b: Break)
    requires Applies(node, b)
    ensures |BreakText(node, b)| > 5 && BreakText(node, b)[5] != 'a'
  {
  }

  /** No mutant of the rewrite is described as the drop of an allowed type. */
  lemma AllowedIdsApart(base: string, node: Rewrite, m: Mutant, r: TypeRef)
    requires SingleBreak(node, m)
    ensures Id(base, node, m) != AllowedId(base, r)
  {
    var text := "drop allowed type [" + TypeText(r) + "]";
    BreakStarts(At(node, m.site), m.broken);
    AllowedStarts(text, TypeText(r));
    if Id(base, node, m) == AllowedId(base, r) {
      IdReads(base, m.site, [], BreakText(At(node, m.site), m.broken), text);
    }
  }

  lemma AllowedStarts(text: string, inner: string)
    requires text == "drop allowed type [" + inner + "]"
    ensures |text| > 5 && text[5] == 'a'
  {
  }

  lemma SameSuffix(r: string, s: string, suffix: string)
    requires r + suffix == s + suffix
    ensures r == s
  {
    assert |r| == |s| && r == (r + suffix)[..|r|] && s == (s + suffix)[..|s|];
  }

  /** Two such descriptions are the same only if the types read the same, ... */
  lemma AllowedIdReads(base: string, r: TypeRef, s: TypeRef)
    requires AllowedId(base, r) == AllowedId(base, s)
    ensures TypeText(r) == TypeText(s)
  {
    var prefix := "drop allowed type [";
    IdReads(base, [], [], prefix + TypeText(r) + "]", prefix + TypeText(s) + "]");
    SameSuffix(prefix + TypeText(r), prefix + TypeText(s), "]");
    SamePrefix(prefix, TypeText(r), TypeText(s));
  }

  /** A text that goes on with one of some marks, or not at all, is determined by the whole. */
  lemma UpToEnd(a: string, b: string, r: string, s: string, marks: set<char>)
    requires a + r == b + s && ' ' in marks
    requires (r == "" || r[0] in marks) && (s == "" || s[0] in marks)
    requires forall c | c in a :: c !in marks
    requires forall c | c in b :: c !in marks
    ensures a == b && r == s
  {
    Regroup(a, r, " ");
    Regroup(b, s, " ");
    assert r == "" ==> r + " " == " ";
    assert s == "" ==> s + " " == " ";
    UpToMark(a, b, r + " ", s + " ", marks);
    SameSuffix(r, s, " ");
  }

  lemma ConditionReads(r: TypeRef, s: TypeRef)
    requires WithCondition(r) == WithCondition(s)
    ensures r.condition == s.condition
  {
    assert r.condition != "" ==> WithCondition(r) != "";
    assert s.condition != "" ==> WithCondition(s) != "";
    if r.condition != "" { SamePrefix(" with ", r.condition, s.condition); }
  }

  lemma RelationPartReads(r: TypeRef, s: TypeRef)
    requires PlainRef(r) && PlainRef(s)
    requires WithRelation(r) + WithCondition(r) == WithRelation(s) + WithCondition(s)
    ensures r.relation == s.relation && r.condition == s.condition
  {
    UpToEnd(WithRelation(r), WithRelation(s), WithCondition(r), WithCondition(s), {' '});
    if r.relation != "" { SamePrefix("#", r.relation, s.relation); }
    ConditionReads(r, s);
  }

  /** ... and types with plain names read the same only if they are the same. */
  lemma TypeTextReads(r: TypeRef, s: TypeRef)
    requires PlainRef(r) && PlainRef(s) && TypeText(r) == TypeText(s)
    ensures r == s
  {
    var x := (if r.wildcard then ":*" else "") + (WithRelation(r) + WithCondition(r));
    var y := (if s.wildcard then ":*" else "") + (WithRelation(s) + WithCondition(s));
    TypeTailStarts(r);
    TypeTailStarts(s);
    UpToEnd(r.typeName, s.typeName, x, y, {':', '#', ' '});
    WildcardReads(r, s);
    RelationPartReads(r, s);
  }

  lemma TypeTailStarts(r: TypeRef)
    ensures var x := (if r.wildcard then ":*" else "") + (WithRelation(r) + WithCondition(r));
            (x == "" || x[0] in {':', '#', ' '}) && (r.wildcard <==> x != "" && x[0] == ':')
  {
  }

  lemma WildcardReads(r: TypeRef, s: TypeRef)
    requires (if r.wildcard then ":*" else "") + (WithRelation(r) + WithCondition(r))
             == (if s.wildcard then ":*" else "") + (WithRelation(s) + WithCondition(s))
    ensures r.wildcard == s.wildcard && WithRelation(r) + WithCondition(r) == WithRelation(s) + WithCondition(s)
  {
    TypeTailStarts(r);
    TypeTailStarts(s);
    SamePrefix(if r.wildcard then ":*" else "", WithRelation(r) + WithCondition(r), WithRelation(s) + WithCondition(s));
  }

  /** All descriptions yielded for one relation are different: those of the breaks of its
      rewrite, whatever the names in it, and those of its allowed types, if these are different
      and have plain names. */
  lemma DescriptionsDistinct(base: string, node: Rewrite, allowed: seq<TypeRef>)
    requires forall i, j | 0 <= i < j < |allowed| :: allowed[i] != allowed[j]
    requires forall i | 0 <= i < |allowed| :: PlainRef(allowed[i])
    ensures forall m | m in AllMutants(node) :: SingleBreak(node, m)
    ensures forall i, j | 0 <= i < j < |AllMutants(node)| ::
              Id(base, node, AllMutants(node)[i]) != Id(base, node, AllMutants(node)[j])
    ensures forall m, i | m in AllMutants(node) && 0 <= i < |allowed| ::
        Id(base, node, m) != AllowedId(base, allowed[i])
    ensures forall i, j | 0 <= i < j < |allowed| :: AllowedId(base, allowed[i]) != AllowedId(base, allowed[j])
  {
    IdsDistinct(base, node);
    forall m, i | m in AllMutants(node) && 0 <= i < |allowed| ensures Id(base, node, m) != AllowedId(base, allowed[i]) {
      AllowedIdsApart(base, node, m, allowed[i]);
    }
    forall i, j | 0 <= i < j < |allowed| ensures AllowedId(base, allowed[i]) != AllowedId(base, allowed[j]) {
      AllowedIdsDiffer(base, allowed[i], allowed[j]);
    }
  }

  lemma AllowedIdsDiffer(base: string, r: TypeRef, s: TypeRef)
    requires PlainRef(r) && PlainRef(s) && r != s
    ensures AllowedId(base, r) != AllowedId(base, s)
  {
    if AllowedId(base, r) == AllowedId(base, s) {
      AllowedIdReads(base, r, s);
      TypeTextReads(r, s);
    }
  }

  // ---------- identifiers of different relations ----------

  /** The name of a relation in identifiers. */
  function Base(typeName: string, relation: string): string { typeName + "#" + relation }

  /** A name without the characters that identifiers are punctuated with. */
  predicate PlainName(name: string) { '#' !in name && '.' !in name && ':' !in name }

  lemma RelationReads(t: string, r: string, p: seq<Edge>, a: string, u: string, s: string, q: seq<Edge>, b: string)
    requires PlainName(t) && PlainName(r) && PlainName(u) && PlainName(s)
    requires t + "#" + r + PathText(p) + ": " + a == u + "#" + s + PathText(q) + ": " + b
    ensures t == u && r == s
  {
    var x, y := PathText(p) + (": " + a), PathText(q) + (": " + b);
    RegroupFour(t + "#" + r, PathText(p), ": ", a);
    RegroupFour(u + "#" + s, PathText(q), ": ", b);
    RegroupFour(t, "#", r, x);
    RegroupFour(u, "#", s, y);
    PathStarts(p, ": " + a);
    PathStarts(q, ": " + b);
    PartsRead(t, "#", r, x, u, s, y);
  }

  lemma PartsRead(t: string, mark: string, r: string, x: string, u: string, s: string, y: string)
    requires mark == "#" && PlainName(t) && PlainName(r) && PlainName(u) && PlainName(s)
    requires x != "" && y != "" && x[0] in {'.', ':'} && y[0] in {'.', ':'}
    requires t + (mark + (r + x)) == u + (mark + (s + y))
    ensures t == u && r == s
  {
    UpToMark(t, u, mark + (r + x), mark + (s + y), {'#'});
    SamePrefix(mark, r + x, s + y);
    UpToMark(r, s, x, y, {'.', ':'});
  }

  // ---------- everything yielded for a relation ----------

  /** A relation of a model: its type and name, its rewrite, and the types it allows. */
  datatype Definition = Definition(typeName: string, relation: string, rewrite: Rewrite, allowed: seq<TypeRef>)

  function BaseOf(d: Definition): string { Base(d.typeName, d.relation) }

  lemma OnlySingleBreaks(node: Rewrite)
    ensures forall m | m in AllMutants(node) :: SingleBreak(node, m)
  {
    forall m | m in AllMutants(node) ensures SingleBreak(node, m) { MutantsExactly(node, m); }
  }

  function BreakIds(d: Definition): (ids: seq<string>)
    ensures |ids| == |AllMutants(d.rewrite)|
  {
    OnlySingleBreaks(d.rewrite);
    var mutants := AllMutants(d.rewrite);
    seq(|mutants|, i requires 0 <= i < |mutants| => Id(BaseOf(d), d.rewrite, mutants[i]))
  }

  /** Types are only dropped where another one is left. */
  function AllowedIds(d: Definition): seq<string> {
    if |d.allowed| > 1 then
      seq(|d.allowed|, i requires 0 <= i < |d.allowed| => AllowedId(BaseOf(d), d.allowed[i]))
    else []
  }

  /** The identifiers that `mutants` yields for a relation, in order. */
  function Ids(d: Definition): seq<string> { BreakIds(d) + AllowedIds(d) }

  lemma BreakIdsExactly(d: Definition, id: string)
    ensures forall m | m in AllMutants(d.rewrite) :: SingleBreak(d.rewrite, m)
    ensures id in BreakIds(d) <==> exists m :: m in AllMutants(d.rewrite) && id == Id(BaseOf(d), d.rewrite, m)
  {
    OnlySingleBreaks(d.rewrite);
    var mutants := AllMutants(d.rewrite);
    if m :| m in mutants && id == Id(BaseOf(d), d.rewrite, m) {
      var i :| 0 <= i < |mutants| && mutants[i] == m;
      assert BreakIds(d)[i] == id;
    }
  }

  lemma AllowedIdsExactly(d: Definition, id: string)
    ensures id in AllowedIds(d) <==>
              |d.allowed| >= 2 && exists i | 0 <= i < |d.allowed| :: id == AllowedId(BaseOf(d), d.allowed[i])
  {
    if |d.allowed| >= 2 {
      if i :| 0 <= i < |d.allowed| && id == AllowedId(BaseOf(d), d.allowed[i]) { assert AllowedIds(d)[i] == id; }
    }
  }

  /** There is one for each break of the rewrite, and one for each allowed type where there is more
      than one. */
  lemma IdsExactly(d: Definition, id: string)
    ensures forall m | m in AllMutants(d.rewrite) :: SingleBreak(d.rewrite, m)
    ensures id in Ids(d) <==>
              || (exists m :: m in AllMutants(d.rewrite) && id == Id(BaseOf(d), d.rewrite, m))
              || (|d.allowed| >= 2 && exists i | 0 <= i < |d.allowed| :: id == AllowedId(BaseOf(d), d.allowed[i]))
    ensures |Ids(d)| == |AllMutants(d.rewrite)| + if |d.allowed| >= 2 then |d.allowed| else 0
  {
    BreakIdsExactly(d, id);
    AllowedIdsExactly(d, id);
  }

  predicate PlainTypes(d: Definition) {
    && (forall i, j | 0 <= i < j < |d.allowed| :: d.allowed[i] != d.allowed[j])
    && forall i | 0 <= i < |d.allowed| :: PlainRef(d.allowed[i])
  }

  /** Those of one relation are all different. */
  lemma RelationIdsDistinct(d: Definition)
    requires PlainTypes(d)
    ensures Distinct(Ids(d))
  {
    DescriptionsDistinct(BaseOf(d), d.rewrite, d.allowed);
    forall id | id in BreakIds(d) ensures id !in AllowedIds(d) { BreakIsNoAllowed(d, id); }
    DistinctAppend(BreakIds(d), AllowedIds(d));
  }

  lemma BreakIsNoAllowed(d: Definition, id: string)
    requires id in BreakIds(d)
    ensures id !in AllowedIds(d)
  {
    BreakIdsExactly(d, id);
    AllowedIdsExactly(d, id);
    var m :| m in AllMutants(d.rewrite) && id == Id(BaseOf(d), d.rewrite, m);
    forall i | 0 <= i < |d.allowed| ensures id != AllowedId(BaseOf(d), d.allowed[i]) {
      AllowedIdsApart(BaseOf(d), d.rewrite, m, d.allowed[i]);
    }
  }

  lemma IdForm(d: Definition, id: string) returns (site: seq<Edge>, text: string)
    requires id in Ids(d)
    ensures id == BaseOf(d) + PathText(site) + ": " + text
  {
    if id in BreakIds(d) {
      var i :| 0 <= i < |BreakIds(d)| && id == BreakIds(d)[i];
      OnlySingleBreaks(d.rewrite);
      site, text := BreakForm(BaseOf(d), d.rewrite, AllMutants(d.rewrite)[i]);
    } else {
      var i :| 0 <= i < |d.allowed| && id == AllowedId(BaseOf(d), d.allowed[i]);
      site, text := AllowedForm(BaseOf(d), d.allowed[i]);
    }
  }

  lemma BreakForm(base: string, node: Rewrite, m: Mutant) returns (site: seq<Edge>, text: string)
    requires SingleBreak(node, m)
    ensures Id(base, node, m) == base + PathText(site) + ": " + text
  {
    site, text := m.site, BreakText(At(node, m.site), m.broken);
  }

  lemma AllowedForm(base: string, r: TypeRef) returns (site: seq<Edge>, text: string)
    ensures AllowedId(base, r) == base + PathText(site) + ": " + text
  {
    site, text := [], "drop allowed type [" + TypeText(r) + "]";
  }

  /** When type and relation names are plain, whatever is yielded for a relation is yielded for
      no other. */
  lemma IdDeterminesRelation(d: Definition, e: Definition, id: string)
    requires PlainName(d.typeName) && PlainName(d.relation) && PlainName(e.typeName) && PlainName(e.relation)
    requires id in Ids(d) && id in Ids(e)
    ensures d.typeName == e.typeName && d.relation == e.relation
  {
    var p, a := IdForm(d, id);
    var q, b := IdForm(e, id);
    RelationReads(d.typeName, d.relation, p, a, e.typeName, e.relation, q, b);
  }
}
