/** Single-rule breaks of a relation's rewrite: which mutants are made, that each breaks one
    site, and which way each can move the set of users the relation grants. */
module Mutants {
  import opened Sequences

  /** A userset rewrite of an authorization model. */
  datatype Rewrite =
    | Direct
    | Computed(relation: string)
    | TupleTo(relation: string, tupleset: string)
    | Union(children: seq<Rewrite>)
    | Intersection(children: seq<Rewrite>)
    | Difference(base: Rewrite, subtract: Rewrite)

  /** One step from a node to a part of it. */
  datatype Edge = InUnion(i: nat) | InIntersection(i: nat) | InBase | InSubtract

  /** One way to break a node. */
  datatype Break = DropUnion(i: nat) | DropIntersection(i: nat) | ToUnion | DropButNot

  datatype Mutant = Mutant(site: seq<Edge>, broken: Break, result: Rewrite)

  // ---------- the generator ----------

  function UnionOf(rest: seq<Rewrite>): Rewrite {
    if |rest| == 1 then rest[0] else Union(rest)
  }

  function IntersectionOf(rest: seq<Rewrite>): Rewrite {
    if |rest| == 1 then rest[0] else Intersection(rest)
  }

  /** The breaks of the node itself, in the order they are yielded. */
  function Own(node: Rewrite): seq<Mutant> {
    match node
    case Union(children) =>
      seq(|children|, i requires 0 <= i < |children| => Mutant([], DropUnion(i), UnionOf(Without(children, i))))
    case Intersection(children) =>
      seq(|children|, i requires 0 <= i < |children| =>
        Mutant([], DropIntersection(i), IntersectionOf(Without(children, i))))
      + [Mutant([], ToUnion, Union(children))]
    case Difference(base, _) => [Mutant([], DropButNot, base)]
    case _ => []
  }

  /** The parts of a node, as edges leading to them. */
  function Edges(node: Rewrite): (edges: seq<Edge>)
    ensures forall e | e in edges :: Leads(node, e)
  {
    match node
    case Union(children) => seq(|children|, i requires 0 <= i < |children| => InUnion(i))
    case Intersection(children) => seq(|children|, i requires 0 <= i < |children| => InIntersection(i))
    case Difference(_, _) => [InBase, InSubtract]
    case _ => []
  }

  predicate Leads(node: Rewrite, e: Edge) {
    match e
    case InUnion(i) => node.Union? && i < |node.children|
    case InIntersection(i) => node.Intersection? && i < |node.children|
    case InBase => node.Difference?
    case InSubtract => node.Difference?
  }

  function Part(node: Rewrite, e: Edge): (part: Rewrite)
    requires Leads(node, e)
    ensures part < node
  {
    match e
    case InUnion(i) => node.children[i]
    case InIntersection(i) => node.children[i]
    case InBase => node.base
    case InSubtract => node.subtract
  }

  function WithPart(node: Rewrite, e: Edge, part: Rewrite): (r: Rewrite)
    requires Leads(node, e)
    ensures Leads(r, e) && Part(r, e) == part
    ensures forall f | Leads(node, f) && f != e :: Leads(r, f) && Part(r, f) == Part(node, f)
  {
    match e
    case InUnion(i) => Union(node.children[i := part])
    case InIntersection(i) => Intersection(node.children[i := part])
    case InBase => Difference(part, node.subtract)
    case InSubtract => Difference(node.base, part)
  }

  /** A mutant of a part, put back in its place. */
  function Lift(node: Rewrite, e: Edge, m: Mutant): Mutant
    requires Leads(node, e)
  {
    Mutant([e] + m.site, m.broken, WithPart(node, e, m.result))
  }

  /** `rewrite_mutants`: the breaks of the node, then those of each part in turn. */
  function AllMutants(node: Rewrite): seq<Mutant>
    decreases node, 1
  {
    Own(node) + Nested(node, Edges(node))
  }

  function Nested(node: Rewrite, edges: seq<Edge>): seq<Mutant>
    requires forall e | e in edges :: Leads(node, e)
    decreases node, 0, |edges|
  {
    if edges == [] then []
    else LiftAll(node, edges[0], AllMutants(Part(node, edges[0]))) + Nested(node, edges[1..])
  }

  function LiftAll(node: Rewrite, e: Edge, inner: seq<Mutant>): (lifted: seq<Mutant>)
    requires Leads(node, e)
    ensures |lifted| == |inner| && forall i | 0 <= i < |inner| :: lifted[i] == Lift(node, e, inner[i])
  {
    seq(|inner|, i requires 0 <= i < |inner| => Lift(node, e, inner[i]))
  }

  // ---------- one break at one site ----------

  predicate IsSite(node: Rewrite, site: seq<Edge>)
    decreases |site|
  {
    site == [] || (Leads(node, site[0]) && IsSite(Part(node, site[0]), site[1..]))
  }

  function At(node: Rewrite, site: seq<Edge>): Rewrite
    requires IsSite(node, site)
    decreases |site|
  {
    if site == [] then node else At(Part(node, site[0]), site[1..])
  }

  function ReplaceAt(node: Rewrite, site: seq<Edge>, replacement: Rewrite): Rewrite
    requires IsSite(node, site)
    decreases |site|
  {
    if site == [] then replacement
    else WithPart(node, site[0], ReplaceAt(Part(node, site[0]), site[1..], replacement))
  }

  predicate Applies(node: Rewrite, b: Break) {
    match b
    case DropUnion(i) => node.Union? && i < |node.children|
    case DropIntersection(i) => node.Intersection? && i < |node.children|
    case ToUnion => node.Intersection?
    case DropButNot => node.Difference?
  }

  function Broken(node: Rewrite, b: Break): Rewrite
    requires Applies(node, b)
  {
    match b
    case DropUnion(i) => UnionOf(Without(node.children, i))
    case DropIntersection(i) => IntersectionOf(Without(node.children, i))
    case ToUnion => Union(node.children)
    case DropButNot => node.base
  }

  /** The mutant is the original with one applicable break at one of its sites. */
  ghost predicate SingleBreak(node: Rewrite, m: Mutant) {
    && IsSite(node, m.site)
    && Applies(At(node, m.site), m.broken)
    && m.result == ReplaceAt(node, m.site, Broken(At(node, m.site), m.broken))
  }

  lemma OwnExactly(node: Rewrite, m: Mutant)
    ensures m in Own(node) <==> m.site == [] && SingleBreak(node, m)
  {
    if m.site == [] && SingleBreak(node, m) {
      match m.broken
      case DropUnion(i) => assert Own(node)[i] == m;
      case DropIntersection(i) => assert Own(node)[i] == m;
      case ToUnion => assert Own(node)[|node.children|] == m;
      case DropButNot => assert Own(node)[0] == m;
    }
  }

  lemma EdgesExactly(node: Rewrite, e: Edge)
    ensures e in Edges(node) <==> Leads(node, e)
  {
    if Leads(node, e) {
      match e
      case InUnion(i) => assert Edges(node)[i] == e;
      case InIntersection(i) => assert Edges(node)[i] == e;
      case InBase => assert Edges(node)[0] == e;
      case InSubtract => assert Edges(node)[1] == e;
    }
  }

  /** The generator is exhaustive and makes nothing else: its mutants are exactly the
      single breaks of the rewrite. */
  lemma {:induction false} MutantsExactly(node: Rewrite, m: Mutant)
    ensures m in AllMutants(node) <==> SingleBreak(node, m)
    decreases node, 1
  {
    OwnExactly(node, m);
    NestedExactly(node, Edges(node), m);
    if m.site != [] { EdgesExactly(node, m.site[0]); }
  }

  lemma {:induction false} NestedExactly(node: Rewrite, edges: seq<Edge>, m: Mutant)
    requires forall e | e in edges :: Leads(node, e)
    ensures m in Nested(node, edges) <==> m.site != [] && m.site[0] in edges && SingleBreak(node, m)
    decreases node, 0, |edges|
  {
    if edges != [] {
      assert edges == [edges[0]] + edges[1..];
      NestedExactly(node, edges[1..], m);
      LiftedExactly(node, edges[0], m);
    }
  }

  lemma {:induction false} LiftedExactly(node: Rewrite, e: Edge, m: Mutant)
    requires Leads(node, e)
    ensures m in LiftAll(node, e, AllMutants(Part(node, e))) <==> m.site != [] && m.site[0] == e && SingleBreak(node, m)
    decreases node, 0, 0
  {
    var inner := AllMutants(Part(node, e));
    var lifted := LiftAll(node, e, inner);
    if m in lifted {
      var i :| 0 <= i < |inner| && m == Lift(node, e, inner[i]);
      MutantsExactly(Part(node, e), inner[i]);
      LiftedBreak(node, e, inner[i]);
    }
    if m.site != [] && m.site[0] == e && SingleBreak(node, m) {
      var below := BreakBelow(node, e, m);
      MutantsExactly(Part(node, e), below);
      var i :| 0 <= i < |inner| && inner[i] == below;
      assert lifted[i] == m;
    }
  }

  lemma BreakBelow(node: Rewrite, e: Edge, m: Mutant) returns (below: Mutant)
    requires Leads(node, e) && m.site != [] && m.site[0] == e && SingleBreak(node, m)
    ensures SingleBreak(Part(node, e), below) && m == Lift(node, e, below)
  {
    below := Mutant(m.site[1..], m.broken, Part(m.result, e));
    assert m.site == [e] + m.site[1..];
  }

  lemma LiftedBreak(node: Rewrite, e: Edge, m: Mutant)
    requires Leads(node, e) && SingleBreak(Part(node, e), m)
    ensures SingleBreak(node, Lift(node, e, m))
  {
    assert ([e] + m.site)[1..] == m.site;
  }

  // ---------- how many, and all different ----------

  /** k for a union of k children, k + 1 for an intersection, 1 for a difference, summed over
      all nodes. */
  function BreakCount(node: Rewrite): nat
    decreases node, 1
  {
    (match node
     case Union(children) => |children|
     case Intersection(children) => |children| + 1
     case Difference(_, _) => 1
     case _ => 0)
    + PartsCount(node, Edges(node))
  }

  function PartsCount(node: Rewrite, edges: seq<Edge>): nat
    requires forall e | e in edges :: Leads(node, e)
    decreases node, 0, |edges|
  {
    if edges == [] then 0 else BreakCount(Part(node, edges[0])) + PartsCount(node, edges[1..])
  }

  lemma {:induction false} MutantCount(node: Rewrite)
    ensures |AllMutants(node)| == BreakCount(node)
    decreases node, 1
  {
    NestedCount(node, Edges(node));
  }

  lemma {:induction false} NestedCount(node: Rewrite, edges: seq<Edge>)
    requires forall e | e in edges :: Leads(node, e)
    ensures |Nested(node, edges)| == PartsCount(node, edges)
    decreases node, 0, |edges|
  {
    if edges != [] {
      MutantCount(Part(node, edges[0]));
      NestedCount(node, edges[1..]);
    }
  }

  /** No two mutants break the same site in the same way. */
  ghost predicate SitesDiffer(mutants: seq<Mutant>) {
    forall i, j | 0 <= i < j < |mutants| :: mutants[i].site != mutants[j].site || mutants[i].broken != mutants[j].broken
  }

  /** No break of a site is made twice. */
  lemma {:induction false} MutantsDistinct(node: Rewrite)
    ensures SitesDiffer(AllMutants(node))
    decreases node, 1
  {
    NestedDistinct(node, Edges(node));
    OwnDistinct(node);
    OwnApart(node);
  }

  lemma OwnApart(node: Rewrite)
    ensures forall m | m in Own(node) :: m.site == []
    ensures forall m | m in Nested(node, Edges(node)) :: m.site != []
  {
    forall m | m in Own(node) ensures m.site == [] { OwnExactly(node, m); }
    forall m | m in Nested(node, Edges(node)) ensures m.site != [] { NestedExactly(node, Edges(node), m); }
  }

  lemma OwnDistinct(node: Rewrite)
    ensures SitesDiffer(Own(node))
  {
  }

  lemma {:induction false} NestedDistinct(node: Rewrite, edges: seq<Edge>)
    requires forall e | e in edges :: Leads(node, e)
    requires forall i, j | 0 <= i < j < |edges| :: edges[i] != edges[j]
    ensures SitesDiffer(Nested(node, edges))
    decreases node, 0, |edges|
  {
    if edges != [] {
      var e := edges[0];
      var inner := AllMutants(Part(node, e));
      var lifted := LiftAll(node, e, inner);
      var rest := Nested(node, edges[1..]);
      MutantsDistinct(Part(node, e));
      NestedDistinct(node, edges[1..]);
      assert SitesDiffer(lifted) by {
        forall i, j | 0 <= i < j < |lifted|
          ensures lifted[i].site != lifted[j].site || lifted[i].broken != lifted[j].broken
        {
          assert lifted[i].site[1..] == inner[i].site && lifted[j].site[1..] == inner[j].site;
        }
      }
      forall i, j | 0 <= i < |lifted| && 0 <= j < |rest| ensures lifted[i].site != rest[j].site {
        NestedExactly(node, edges[1..], rest[j]);
        assert rest[j] in rest;
        assert lifted[i].site[0] == e && e !in edges[1..];
      }
    }
  }

  /** Every mutant differs from the original. */
  lemma {:induction false} MutantDiffers(node: Rewrite, m: Mutant)
    requires SingleBreak(node, m)
    ensures m.result != node
    decreases |m.site|
  {
    if m.site == [] {
      BrokenDiffers(node, m.broken);
    } else {
      var e := m.site[0];
      MutantDiffers(Part(node, e), Mutant(m.site[1..], m.broken, Part(m.result, e)));
    }
  }

  lemma BrokenDiffers(node: Rewrite, b: Break)
    requires Applies(node, b)
    ensures Broken(node, b) != node
  {
    if b.DropUnion? || b.DropIntersection? {
      var rest := Without(node.children, b.i);
      assert |rest| == |node.children| - 1;
      assert rest != node.children;
      if |rest| == 1 {
        var j := if b.i == 0 then 1 else 0;
        var e := if b.DropUnion? then InUnion(j) else InIntersection(j);
        assert rest[0] == node.children[j] == Part(node, e);
        assert Broken(node, b) == Part(node, e) < node;
      }
    } else if b.DropButNot? {
      assert Broken(node, b) == Part(node, InBase) < node;
    }
  }

  // ---------- what a mutant is, at its site and elsewhere ----------

  /** Whether one user is granted, given for each leaf whether it grants that user. */
  predicate Grants(node: Rewrite, leaf: Rewrite -> bool) {
    match node
    case Union(children) => exists i :: 0 <= i < |children| && Grants(children[i], leaf)
    case Intersection(children) => forall i | 0 <= i < |children| :: Grants(children[i], leaf)
    case Difference(base, subtract) => Grants(base, leaf) && !Grants(subtract, leaf)
    case _ => leaf(node)
  }

  /** What is left of a node grants a user exactly when the parts a break keeps do. */
  ghost predicate GrantsAfter(node: Rewrite, b: Break, leaf: Rewrite -> bool)
    requires Applies(node, b)
  {
    match b
    case DropUnion(i) => exists j :: 0 <= j < |node.children| && j != i && Grants(node.children[j], leaf)
    case DropIntersection(i) => forall j | 0 <= j < |node.children| && j != i :: Grants(node.children[j], leaf)
    case ToUnion => exists j :: 0 <= j < |node.children| && Grants(node.children[j], leaf)
    case DropButNot => Grants(node.base, leaf)
  }

  lemma {:induction false} SomeOther(children: seq<Rewrite>, i: nat, leaf: Rewrite -> bool)
    requires i < |children|
    ensures (exists k :: 0 <= k < |Without(children, i)| && Grants(Without(children, i)[k], leaf))
            <==> exists j :: 0 <= j < |children| && j != i && Grants(children[j], leaf)
  {
    var rest := Without(children, i);
    if k :| 0 <= k < |rest| && Grants(rest[k], leaf) {
      WithoutAt(children, i, if k < i then k else k + 1);
    }
    if j :| 0 <= j < |children| && j != i && Grants(children[j], leaf) {
      WithoutAt(children, i, j);
    }
  }

  lemma {:induction false} AllOthers(children: seq<Rewrite>, i: nat, leaf: Rewrite -> bool)
    requires i < |children|
    ensures (forall k | 0 <= k < |Without(children, i)| :: Grants(Without(children, i)[k], leaf))
            <==> forall j | 0 <= j < |children| && j != i :: Grants(children[j], leaf)
  {
    var rest := Without(children, i);
    if k :| 0 <= k < |rest| && !Grants(rest[k], leaf) {
      WithoutAt(children, i, if k < i then k else k + 1);
    }
    if j :| 0 <= j < |children| && j != i && !Grants(children[j], leaf) {
      WithoutAt(children, i, j);
    }
  }

  lemma {:induction false} BreakMeaning(node: Rewrite, b: Break, leaf: Rewrite -> bool)
    requires Applies(node, b)
    ensures Grants(Broken(node, b), leaf) <==> GrantsAfter(node, b, leaf)
  {
    match b
    case DropUnion(i) => SomeOther(node.children, i, leaf);
    case DropIntersection(i) => AllOthers(node.children, i, leaf);
    case _ =>
  }

  lemma {:induction false} ResultAtSite(node: Rewrite, m: Mutant)
    requires SingleBreak(node, m)
    ensures IsSite(m.result, m.site) && At(m.result, m.site) == Broken(At(node, m.site), m.broken)
    decreases |m.site|
  {
    if m.site != [] {
      var e := m.site[0];
      ResultAtSite(Part(node, e), Mutant(m.site[1..], m.broken, Part(m.result, e)));
    }
  }

  /** For every mutant that is made, and every interpretation of the leaves: what stands at its
      site grants a user if and only if one of the other children of the union did, or all the
      other children of the intersection, or any child, or the base of the difference. */
  lemma MutantMeaning(node: Rewrite, m: Mutant, leaf: Rewrite -> bool)
    requires m in AllMutants(node)
    ensures IsSite(node, m.site) && Applies(At(node, m.site), m.broken) && IsSite(m.result, m.site)
    ensures Grants(At(m.result, m.site), leaf) <==> GrantsAfter(At(node, m.site), m.broken, leaf)
  {
    MutantsExactly(node, m);
    ResultAtSite(node, m);
    BreakMeaning(At(node, m.site), m.broken, leaf);
  }

  /** Neither of the sites lies within the other. */
  predicate Apart(a: seq<Edge>, b: seq<Edge>)
    decreases |a|
  {
    a != [] && b != [] && (a[0] != b[0] || Apart(a[1..], b[1..]))
  }

  /** A mutant leaves every part outside its site as it was, ... */
  lemma {:induction false} OutsideIsKept(node: Rewrite, m: Mutant, other: seq<Edge>)
    requires SingleBreak(node, m) && IsSite(node, other) && Apart(m.site, other)
    ensures IsSite(m.result, other) && At(m.result, other) == At(node, other)
    decreases |m.site|
  {
    var e, f := m.site[0], other[0];
    if e == f {
      OutsideIsKept(Part(node, e), Mutant(m.site[1..], m.broken, Part(m.result, e)), other[1..]);
    } else {
      assert Part(m.result, f) == Part(node, f);
    }
  }

  predicate SameKind(a: Rewrite, b: Rewrite) {
    match a
    case Union(children) => b.Union? && |b.children| == |children|
    case Intersection(children) => b.Intersection? && |b.children| == |children|
    case Difference(_, _) => b.Difference?
    case _ => a == b
  }

  /** ... and the nodes its site lies in of the same kind, with as many parts. */
  lemma {:induction false} AncestorsAreKept(node: Rewrite, m: Mutant, n: nat)
    requires SingleBreak(node, m) && n < |m.site|
    ensures IsSite(node, m.site[..n]) && IsSite(m.result, m.site[..n])
    ensures SameKind(At(node, m.site[..n]), At(m.result, m.site[..n]))
    decreases n
  {
    if n > 0 {
      var e := m.site[0];
      AncestorsAreKept(Part(node, e), Mutant(m.site[1..], m.broken, Part(m.result, e)), n - 1);
      assert m.site[..n][0] == e && m.site[..n][1..] == m.site[1..][..n - 1];
    }
  }

  /** Where a child is dropped the others stay, in order; a single one takes the place of the
      node. */
  lemma ChildrenLeft(node: Rewrite, b: Break)
    requires Applies(node, b) && (b.DropUnion? || b.DropIntersection?)
    ensures
      var left, n := Broken(node, b), |node.children| - 1;
      if n == 1 then left == node.children[if b.i == 0 then 1 else 0]
      else
        && (if b.DropUnion? then left.Union? else left.Intersection?) && |left.children| == n
        && forall j | 0 <= j < n :: left.children[j] == node.children[if j < b.i then j else j + 1]
  {
  }

  // ---------- which way a mutant can move the granted users ----------

  /** An intersection of nothing does not occur in a model. */
  predicate WellFormed(node: Rewrite) {
    match node
    case Union(children) => forall i | 0 <= i < |children| :: WellFormed(children[i])
    case Intersection(children) => children != [] && forall i | 0 <= i < |children| :: WellFormed(children[i])
    case Difference(base, subtract) => WellFormed(base) && WellFormed(subtract)
    case _ => true
  }

  /** Dropping a branch of an "or" narrows its node; every other break widens it. */
  predicate Widens(b: Break) { !b.DropUnion? }

  /** The site is under an odd number of "but not" exclusions. */
  predicate Excluded(site: seq<Edge>) {
    site != [] && (if site[0].InSubtract? then !Excluded(site[1..]) else Excluded(site[1..]))
  }

  /** Of the two, the wider one grants whatever the narrower one grants. */
  ghost predicate Ordered(narrow: Rewrite, wide: Rewrite) {
    forall leaf: Rewrite -> bool :: Grants(narrow, leaf) ==> Grants(wide, leaf)
  }

  /** The polarity of mutants: at a site under an even number of exclusions a widening break
      can only add granted users and a narrowing one can only remove some; under an odd
      number it is the other way round. It holds of every rewrite, whatever its leaves
      grant to whom. */
  lemma {:induction false} Polarity(node: Rewrite, m: Mutant)
    requires WellFormed(node) && m in AllMutants(node)
    ensures if Widens(m.broken) != Excluded(m.site) then Ordered(node, m.result) else Ordered(m.result, node)
  {
    MutantsExactly(node, m);
    PolarityAt(node, m);
  }

  lemma {:induction false} PolarityAt(node: Rewrite, m: Mutant)
    requires WellFormed(node) && SingleBreak(node, m)
    ensures if Widens(m.broken) != Excluded(m.site) then Ordered(node, m.result) else Ordered(m.result, node)
    decreases |m.site|
  {
    if m.site == [] {
      BreakPolarity(node, m.broken);
    } else {
      var e := m.site[0];
      PolarityAt(Part(node, e), Mutant(m.site[1..], m.broken, Part(m.result, e)));
      if Ordered(Part(node, e), Part(m.result, e)) { PartPolarity(node, e, Part(m.result, e)); }
      if Ordered(Part(m.result, e), Part(node, e)) {
        PartPolarity(m.result, e, Part(node, e));
        WithPartBack(node, e, Part(m.result, e));
      }
    }
  }

  lemma WithPartBack(node: Rewrite, e: Edge, part: Rewrite)
    requires Leads(node, e)
    ensures WithPart(WithPart(node, e, part), e, Part(node, e)) == node
  {
    match e
    case InUnion(i) => assert node.children[i := part][i := node.children[i]] == node.children;
    case InIntersection(i) => assert node.children[i := part][i := node.children[i]] == node.children;
    case _ =>
  }

  /** Widening a part widens the whole, unless the part is what is excluded. */
  lemma PartPolarity(node: Rewrite, e: Edge, wider: Rewrite)
    requires Leads(node, e) && Ordered(Part(node, e), wider)
    ensures if e.InSubtract? then Ordered(WithPart(node, e, wider), node) else Ordered(node, WithPart(node, e, wider))
  {
    var changed := WithPart(node, e, wider);
    forall leaf: Rewrite -> bool
      ensures if e.InSubtract? then Grants(changed, leaf) ==> Grants(node, leaf)
              else Grants(node, leaf) ==> Grants(changed, leaf)
    {
      assert Grants(Part(node, e), leaf) ==> Grants(wider, leaf);
      if e.InUnion? && Grants(node, leaf) {
        var j :| 0 <= j < |node.children| && Grants(node.children[j], leaf);
        assert Grants(changed.children[j], leaf);
      }
    }
  }

  lemma BreakPolarity(node: Rewrite, b: Break)
    requires WellFormed(node) && Applies(node, b)
    ensures if Widens(b) then Ordered(node, Broken(node, b)) else Ordered(Broken(node, b), node)
  {
    forall leaf: Rewrite -> bool
      ensures if Widens(b) then Grants(node, leaf) ==> Grants(Broken(node, b), leaf)
              else Grants(Broken(node, b), leaf) ==> Grants(node, leaf)
    {
      match b
      case DropUnion(i) =>
        var rest := Without(node.children, i);
        if Grants(Broken(node, b), leaf) {
          var j :| 0 <= j < |rest| && Grants(rest[j], leaf);
          assert rest[j] == node.children[if j < i then j else j + 1];
        }
      case DropIntersection(i) =>
        var rest := Without(node.children, i);
        if Grants(node, leaf) {
          forall j | 0 <= j < |rest| ensures Grants(rest[j], leaf) {
            assert rest[j] == node.children[if j < i then j else j + 1];
          }
        }
      case ToUnion =>
        if Grants(node, leaf) { assert Grants(node.children[0], leaf); }
      case DropButNot =>
    }
  }

  // ---------- the allowed types go with the direct grants ----------

  predicate HasDirect(node: Rewrite) {
    match node
    case Direct => true
    case Union(children) => exists i :: 0 <= i < |children| && HasDirect(children[i])
    case Intersection(children) => exists i :: 0 <= i < |children| && HasDirect(children[i])
    case Difference(base, subtract) => HasDirect(base) || HasDirect(subtract)
    case _ => false
  }

  lemma {:induction false} DirectFound(node: Rewrite, site: seq<Edge>)
    requires IsSite(node, site) && At(node, site).Direct?
    ensures HasDirect(node)
    decreases |site|
  {
    if site != [] { DirectFound(Part(node, site[0]), site[1..]); }
  }

  lemma {:induction false} DirectSite(node: Rewrite) returns (site: seq<Edge>)
    requires HasDirect(node)
    ensures IsSite(node, site) && At(node, site).Direct?
  {
    if node.Direct? {
      site := [];
    } else {
      var e := EdgeToDirect(node);
      var rest := DirectSite(Part(node, e));
      site := [e] + rest;
      assert site[1..] == rest;
    }
  }

  lemma EdgeToDirect(node: Rewrite) returns (e: Edge)
    requires HasDirect(node) && !node.Direct?
    ensures Leads(node, e) && HasDirect(Part(node, e))
  {
    match node
    case Union(children) =>
      var i :| 0 <= i < |children| && HasDirect(children[i]);
      e := InUnion(i);
    case Intersection(children) =>
      var i :| 0 <= i < |children| && HasDirect(children[i]);
      e := InIntersection(i);
    case Difference(base, _) => e := if HasDirect(base) then InBase else InSubtract;
  }

  /** There is a direct grant at some site. */
  lemma {:induction false} HasDirectIff(node: Rewrite)
    ensures HasDirect(node) <==> exists site :: IsSite(node, site) && At(node, site).Direct?
  {
    if HasDirect(node) { var site := DirectSite(node); }
    if site: seq<Edge> :| IsSite(node, site) && At(node, site).Direct? { DirectFound(node, site); }
  }

  /** No break introduces a direct grant. */
  lemma {:induction false} NoDirectAppears(node: Rewrite, m: Mutant)
    requires SingleBreak(node, m) && HasDirect(m.result)
    ensures HasDirect(node)
    decreases |m.site|
  {
    if m.site == [] {
      if m.broken.DropUnion? || m.broken.DropIntersection? {
        var rest := Without(node.children, m.broken.i);
        assert exists j :: 0 <= j < |rest| && HasDirect(rest[j]);
        var j :| 0 <= j < |rest| && HasDirect(rest[j]);
        assert rest[j] == node.children[if j < m.broken.i then j else j + 1];
      }
    } else {
      var e := m.site[0];
      if HasDirect(Part(m.result, e)) {
        NoDirectAppears(Part(node, e), Mutant(m.site[1..], m.broken, Part(m.result, e)));
      } else if node.Union? || node.Intersection? {
        var j :| 0 <= j < |m.result.children| && HasDirect(m.result.children[j]);
        assert node.children[j] == m.result.children[j];
      }
    }
  }

  /** A relation of a model: its rewrite and the types that may be granted directly. */
  datatype Relation = Relation(rewrite: Rewrite, allowed: seq<string>)

  /** A model is valid only when a relation allows types exactly if it has a direct grant. */
  predicate ValidTypes(r: Relation) {
    r.allowed != [] <==> HasDirect(r.rewrite)
  }

  function RewriteMutant(r: Relation, m: Mutant): Relation {
    Relation(m.result, if HasDirect(r.rewrite) && !HasDirect(m.result) then [] else r.allowed)
  }

  function AllowedMutant(r: Relation, i: nat): Relation
    requires i < |r.allowed|
  {
    r.(allowed := Without(r.allowed, i))
  }

  /** Every mutant of a valid relation is valid in this respect: breaking the rewrite keeps
      the allowed types in step, and a type is only dropped when another one is left. The one
      has the mutant for its rewrite, and all types or none; the other has all but one type. */
  lemma MutantsKeepTypesValid(r: Relation)
    requires ValidTypes(r)
    ensures forall m | m in AllMutants(r.rewrite) :: ValidTypes(RewriteMutant(r, m))
    ensures forall m | m in AllMutants(r.rewrite) ::
              RewriteMutant(r, m).rewrite == m.result && RewriteMutant(r, m).allowed in [[], r.allowed]
    ensures |r.allowed| > 1 ==> forall i | 0 <= i < |r.allowed| :: ValidTypes(AllowedMutant(r, i))
    ensures forall i | 0 <= i < |r.allowed| ::
              && AllowedMutant(r, i).rewrite == r.rewrite && |AllowedMutant(r, i).allowed| == |r.allowed| - 1
              && forall j | 0 <= j < |r.allowed| - 1 ::
                   AllowedMutant(r, i).allowed[j] == r.allowed[if j < i then j else j + 1]
  {
    forall m | m in AllMutants(r.rewrite) ensures ValidTypes(RewriteMutant(r, m)) {
      MutantsExactly(r.rewrite, m);
      if HasDirect(m.result) { NoDirectAppears(r.rewrite, m); }
    }
  }
}
