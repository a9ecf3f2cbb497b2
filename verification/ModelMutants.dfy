/** All mutants of a model, of its relations and of its conditions: their identifiers. */
module ModelMutants {
  import opened Numerals
  import opened Sequences
  import opened MutantNames

  // ---------- the mutants of a condition ----------

  /** A condition, with the operands of its expression at the top level. */
  datatype Condition = Condition(name: string, expression: string, ands: seq<string>, ors: seq<string>)

  /** A comparison and where it stands. */
  datatype Comparison = Comparison(at: nat, op: string)

  predicate IsComparison(op: string) {
    op == "<=" || op == ">=" || op == "==" || op == "!=" || op == "<" || op == ">"
  }

  function Flip(op: string): string
    requires IsComparison(op)
  {
    if op == "<=" then "<" else if op == "<" then "<=" else if op == ">=" then ">" else if op == ">" then ">="
    else if op == "==" then "!=" else "=="
  }

  /** The comparison that stands at a position, a longer one before a shorter one; or nothing. */
  function ComparisonAt(s: string, i: nat): (op: string)
    requires i < |s|
    ensures op != "" ==> IsComparison(op) && i + |op| <= |s| && s[i..i + |op|] == op
  {
    if i + 1 < |s| && s[i + 1] == '=' && (s[i] == '<' || s[i] == '>' || s[i] == '=' || s[i] == '!') then [s[i], '=']
    else if s[i] == '<' || s[i] == '>' then [s[i]]
    else ""
  }

  /** The comparisons from a position on: the next is looked for behind the last one found. */
  function Comparisons(s: string, i: nat): (found: seq<Comparison>)
    requires i <= |s|
    ensures forall k | 0 <= k < |found| :: IsComparison(found[k].op)
    decreases |s| - i
  {
    if i == |s| then []
    else
      var op := ComparisonAt(s, i);
      if op == "" then Comparisons(s, i + 1) else [Comparison(i, op)] + Comparisons(s, i + |op|)
  }

  lemma {:induction false} ComparisonsAscend(s: string, i: nat)
    requires i <= |s|
    ensures forall k | 0 <= k < |Comparisons(s, i)| :: i <= Comparisons(s, i)[k].at
    ensures forall k, l | 0 <= k < l < |Comparisons(s, i)| :: Comparisons(s, i)[k].at < Comparisons(s, i)[l].at
    decreases |s| - i
  {
    if i < |s| {
      var op := ComparisonAt(s, i);
      if op == "" {
        ComparisonsAscend(s, i + 1);
      } else {
        ComparisonsAscend(s, i + |op|);
      }
    }
  }

  /** What a comparison says of two numbers. */
  predicate Says(op: string, a: int, b: int)
    requires IsComparison(op)
  {
    if op == "<=" then a <= b else if op == ">=" then a >= b else if op == "==" then a == b
    else if op == "!=" then a != b else if op == "<" then a < b else a > b
  }

  /** Flipping an order changes what it says exactly at the boundary, where the numbers are the
      same; flipping an equality changes what it says of all. */
  lemma FlipIsBoundary(op: string, a: int, b: int)
    requires IsComparison(op)
    ensures IsComparison(Flip(op))
    ensures Says(Flip(op), a, b) != Says(op, a, b) <==> a == b || op == "==" || op == "!="
  {
    FlipOthers(op);
  }

  lemma FlipOthers(op: string)
    requires IsComparison(op)
    ensures IsComparison(Flip(op)) && Flip(Flip(op)) == op && Flip(op) != op
  {
  }

  /** A comparison stands at a position, written out. */
  predicate StandsAt(s: string, i: nat) {
    i < |s| && (s[i] == '<' || s[i] == '>' || ((s[i] == '=' || s[i] == '!') && i + 1 < |s| && s[i + 1] == '='))
  }

  /** One is read where one stands, and takes a following '=' with it. */
  lemma ComparisonIsRead(s: string, i: nat)
    requires i < |s|
    ensures ComparisonAt(s, i) != "" <==> StandsAt(s, i)
    ensures StandsAt(s, i) ==>
              ComparisonAt(s, i) == if i + 1 < |s| && s[i + 1] == '=' then [s[i], s[i + 1]] else [s[i]]
  {
  }

  predicate Covers(c: Comparison, i: nat) { c.at <= i < c.at + |c.op| }

  /** Nothing that stands behind a position is missed. */
  lemma {:induction false} NoneMissed(s: string, from: nat, i: nat)
    requires from <= i && StandsAt(s, i)
    ensures exists c :: c in Comparisons(s, from) && Covers(c, i)
    decreases i - from
  {
    var op, found := ComparisonAt(s, from), Comparisons(s, from);
    ComparisonIsRead(s, from);
    if op == "" {
      NoneMissed(s, from + 1, i);
    } else if i < from + |op| {
      assert found[0] == Comparison(from, op) && Covers(found[0], i);
    } else {
      NoneMissed(s, from + |op|, i);
      var c :| c in Comparisons(s, from + |op|) && Covers(c, i);
      assert c in found;
    }
  }

  /** And each one that is found stands at its place. */
  lemma {:induction false} FoundStands(s: string, from: nat, c: Comparison)
    requires from <= |s| && c in Comparisons(s, from)
    ensures from <= c.at < |s| && StandsAt(s, c.at) && c.op == ComparisonAt(s, c.at)
    decreases |s| - from
  {
    var op := ComparisonAt(s, from);
    ComparisonIsRead(s, from);
    if op == "" {
      FoundStands(s, from + 1, c);
    } else if c != Comparison(from, op) {
      FoundStands(s, from + |op|, c);
    }
  }

  function FlipText(c: Comparison): string
    requires IsComparison(c.op)
  {
    "'" + c.op + "' -> '" + Flip(c.op) + "' at " + Decimal(c.at)
  }

  function FlipTexts(s: string): (texts: seq<string>)
    ensures |texts| == |Comparisons(s, 0)|
  {
    var found := Comparisons(s, 0);
    seq(|found|, k requires 0 <= k < |found| => FlipText(found[k]))
  }

  function DropText(op: string, i: nat, part: string): string {
    "drop '" + op + "' operand " + Decimal(i) + " (" + part + ")"
  }

  function DropTexts(op: string, parts: seq<string>): seq<string> {
    if |parts| > 1 then seq(|parts|, i requires 0 <= i < |parts| => DropText(op, i, parts[i])) else []
  }

  /** `condition_mutants`: what is said of each of them, in order. */
  function ConditionTexts(c: Condition): seq<string> {
    Concat([["negated"], FlipTexts(c.expression), DropTexts("&&", c.ands), DropTexts("||", c.ors)])
  }

  function ConditionId(name: string, text: string): string { "condition " + (name + (": " + text)) }

  function ConditionIds(c: Condition): (ids: seq<string>)
    ensures |ids| == |ConditionTexts(c)|
  {
    var texts := ConditionTexts(c);
    seq(|texts|, i requires 0 <= i < |texts| => ConditionId(c.name, texts[i]))
  }

  /** How they read. */
  lemma HowConditionsRead()
    ensures FlipText(Comparison(3, "<=")) == "'<=' -> '<' at 3"
    ensures ConditionId("active", "negated") == "condition active: negated"
  {
    assert Decimal(3) == "3";
  }

  lemma HowDropsRead()
    ensures DropText("&&", 0, "x > 1") == "drop '&&' operand 0 (x > 1)"
  {
    assert Decimal(0) == "0";
  }

  lemma {:induction false} FlipTextsExactly(s: string, found: seq<Comparison>, text: string)
    requires found == Comparisons(s, 0)
    ensures text in FlipTexts(s) <==> exists k | 0 <= k < |found| :: text == FlipText(found[k])
  {
    assert |FlipTexts(s)| == |found| && forall k | 0 <= k < |found| :: FlipTexts(s)[k] == FlipText(found[k]);
  }

  lemma {:induction false} DropTextsExactly(op: string, parts: seq<string>, text: string)
    ensures text in DropTexts(op, parts) <==>
              |parts| >= 2 && exists i | 0 <= i < |parts| :: text == DropText(op, i, parts[i])
  {
    if |parts| >= 2 {
      var texts := DropTexts(op, parts);
      assert |texts| == |parts| && forall i | 0 <= i < |parts| :: texts[i] == DropText(op, i, parts[i]);
    }
  }

  /** Which there are: the negation, one for each comparison, and one for each operand where there
      is more than one. */
  lemma ConditionTextsExactly(c: Condition, text: string)
    ensures text in ConditionTexts(c) <==>
              || text == "negated"
              || (exists k | 0 <= k < |Comparisons(c.expression, 0)| ::
                    text == FlipText(Comparisons(c.expression, 0)[k]))
              || (|c.ands| >= 2 && exists i | 0 <= i < |c.ands| :: text == DropText("&&", i, c.ands[i]))
              || (|c.ors| >= 2 && exists i | 0 <= i < |c.ors| :: text == DropText("||", i, c.ors[i]))
  {
    var parts := [["negated"], FlipTexts(c.expression), DropTexts("&&", c.ands), DropTexts("||", c.ors)];
    FourParts(parts, text);
    FlipTextsExactly(c.expression, Comparisons(c.expression, 0), text);
    DropTextsExactly("&&", c.ands, text);
    DropTextsExactly("||", c.ors, text);
  }

  lemma FourParts(parts: seq<seq<string>>, text: string)
    requires |parts| == 4
    ensures text in Concat(parts) <==>
              text in parts[0] || text in parts[1] || text in parts[2] || text in parts[3]
  {
    InConcatIff(parts, text);
  }

  // ---------- those of one condition are different ----------

  lemma FlipTextReads(c: Comparison, d: Comparison)
    requires IsComparison(c.op) && IsComparison(d.op) && FlipText(c) == FlipText(d)
    ensures c == d
  {
    var x, y := "' -> '" + Flip(c.op) + "' at " + Decimal(c.at), "' -> '" + Flip(d.op) + "' at " + Decimal(d.at);
    FlipTextParts(c, x);
    FlipTextParts(d, y);
    SamePrefix("'", c.op + x, d.op + y);
    UpToMark(c.op, d.op, x, y, {'\''});
    SamePrefix("' -> '" + Flip(c.op) + "' at ", Decimal(c.at), Decimal(d.at));
    DecimalValue(c.at);
    DecimalValue(d.at);
  }

  lemma FlipTextParts(c: Comparison, rest: string)
    requires IsComparison(c.op) && rest == "' -> '" + Flip(c.op) + "' at " + Decimal(c.at)
    ensures FlipText(c) == "'" + (c.op + rest) && rest[0] == '\'' && '\'' !in c.op
  {
  }

  lemma FlipTextsDistinct(s: string)
    ensures Distinct(FlipTexts(s))
  {
    var found := Comparisons(s, 0);
    ComparisonsAscend(s, 0);
    forall k, l | 0 <= k < l < |found| ensures FlipTexts(s)[k] != FlipTexts(s)[l] {
      if FlipText(found[k]) == FlipText(found[l]) { FlipTextReads(found[k], found[l]); }
    }
  }

  lemma DropTextsDistinct(op: string, parts: seq<string>)
    ensures Distinct(DropTexts(op, parts))
  {
    forall i, j | 0 <= i < j < |DropTexts(op, parts)| ensures DropTexts(op, parts)[i] != DropTexts(op, parts)[j] {
      if DropText(op, i, parts[i]) == DropText(op, j, parts[j]) {
        DropReads("drop '" + op + "' operand ", i, j, parts[i], parts[j]);
      }
    }
  }

  lemma FlipTextStarts(s: string, text: string)
    requires text in FlipTexts(s)
    ensures text != "" && text[0] == '\''
  {
  }

  lemma DropTextStarts(op: string, parts: seq<string>, text: string)
    requires op != "" && text in DropTexts(op, parts)
    ensures |text| > 6 && text[0] == 'd' && text[6] == op[0]
  {
  }

  lemma ConditionTextsDistinct(c: Condition)
    ensures Distinct(ConditionTexts(c))
  {
    var parts := [["negated"], FlipTexts(c.expression), DropTexts("&&", c.ands), DropTexts("||", c.ors)];
    FlipTextsDistinct(c.expression);
    DropTextsDistinct("&&", c.ands);
    DropTextsDistinct("||", c.ors);
    forall i, j, x | 0 <= i < j < |parts| && x in parts[i] ensures x !in parts[j] {
      if x in parts[1] { FlipTextStarts(c.expression, x); }
      if x in parts[2] { DropTextStarts("&&", c.ands, x); }
      if x in parts[3] { DropTextStarts("||", c.ors, x); }
    }
    DistinctConcat(parts);
  }

  // ---------- those of a model are different ----------

  /** A name without the character that ends the names of conditions. */
  predicate PlainCondition(name: string) { ':' !in name }

  lemma ConditionReads(name: string, text: string, other: string, more: string)
    requires PlainCondition(name) && PlainCondition(other) && ConditionId(name, text) == ConditionId(other, more)
    ensures name == other && text == more
  {
    SamePrefix("condition ", name + (": " + text), other + (": " + more));
    UpToMark(name, other, ": " + text, ": " + more, {':'});
    SamePrefix(": ", text, more);
  }

  lemma ConditionIdsDistinct(c: Condition)
    requires PlainCondition(c.name)
    ensures Distinct(ConditionIds(c))
  {
    var texts := ConditionTexts(c);
    ConditionTextsDistinct(c);
    forall i, j | 0 <= i < j < |texts| ensures ConditionIds(c)[i] != ConditionIds(c)[j] {
      if ConditionIds(c)[i] == ConditionIds(c)[j] { ConditionReads(c.name, texts[i], c.name, texts[j]); }
    }
  }

  lemma ConditionsApart(c: Condition, d: Condition, id: string)
    requires PlainCondition(c.name) && PlainCondition(d.name) && id in ConditionIds(c) && id in ConditionIds(d)
    ensures c.name == d.name
  {
    var i :| 0 <= i < |ConditionIds(c)| && id == ConditionIds(c)[i];
    var j :| 0 <= j < |ConditionIds(d)| && id == ConditionIds(d)[j];
    ConditionReads(c.name, ConditionTexts(c)[i], d.name, ConditionTexts(d)[j]);
  }

  /** A type name has no '#' and no blank, so no relation reads like a condition. */
  lemma RelationIsNoCondition(d: Definition, c: Condition, id: string)
    requires PlainName(d.typeName) && ' ' !in d.typeName && id in Ids(d)
    ensures id !in ConditionIds(c)
  {
    var rest := TypeFirst(d, id);
    if id in ConditionIds(c) {
      var i :| 0 <= i < |ConditionIds(c)| && id == ConditionIds(c)[i];
      NeverAlike(d.typeName, rest, c.name + (": " + ConditionTexts(c)[i]));
    }
  }

  lemma TypeFirst(d: Definition, id: string) returns (rest: string)
    requires id in Ids(d)
    ensures id == d.typeName + ("#" + rest)
  {
    var site, text := IdForm(d, id);
    var tail := PathText(site) + (": " + text);
    RegroupFour(BaseOf(d), PathText(site), ": ", text);
    RegroupFour(d.typeName, "#", d.relation, tail);
    rest := d.relation + tail;
  }

  lemma NeverAlike(name: string, rest: string, more: string)
    requires PlainName(name) && ' ' !in name
    ensures name + ("#" + rest) != "condition " + more
  {
    if name + ("#" + rest) == "condition " + more {
      assert "condition " + more == "condition" + (" " + more);
      UpToMark(name, "condition", "#" + rest, " " + more, {'#', ' '});
    }
  }

  predicate PlainDefinition(d: Definition) {
    PlainTypes(d) && PlainName(d.typeName) && ' ' !in d.typeName && PlainName(d.relation)
  }

  /** What names of a model look like; no relation and no condition is defined twice, and no
      relation allows a type twice. */
  ghost predicate PlainModel(relations: seq<Definition>, conditions: seq<Condition>) {
    && (forall i | 0 <= i < |relations| :: PlainDefinition(relations[i]))
    && (forall i | 0 <= i < |conditions| :: PlainCondition(conditions[i].name))
    && (forall i, j | 0 <= i < j < |relations| ::
          relations[i].typeName != relations[j].typeName || relations[i].relation != relations[j].relation)
    && (forall i, j | 0 <= i < j < |conditions| :: conditions[i].name != conditions[j].name)
  }

  function RelationIds(relations: seq<Definition>): (parts: seq<seq<string>>)
    ensures |parts| == |relations|
  {
    seq(|relations|, i requires 0 <= i < |relations| => Ids(relations[i]))
  }

  function AllConditionIds(conditions: seq<Condition>): (parts: seq<seq<string>>)
    ensures |parts| == |conditions|
  {
    seq(|conditions|, i requires 0 <= i < |conditions| => ConditionIds(conditions[i]))
  }

  /** The identifiers that `mutants` yields for a model, in order. */
  function ModelIds(relations: seq<Definition>, conditions: seq<Condition>): seq<string> {
    Concat(RelationIds(relations)) + Concat(AllConditionIds(conditions))
  }

  /** No two mutants of a model have the same identifier: an exemption names one mutant. */
  lemma ModelIdsDistinct(relations: seq<Definition>, conditions: seq<Condition>)
    requires PlainModel(relations, conditions)
    ensures Distinct(ModelIds(relations, conditions))
  {
    RelationsDistinct(relations, conditions);
    ConditionsDistinct(relations, conditions);
    var a, b := RelationIds(relations), AllConditionIds(conditions);
    forall id | id in Concat(a) ensures id !in Concat(b) {
      if id in Concat(b) {
        var i := InConcat(a, id);
        var j := InConcat(b, id);
        RelationIsNoCondition(relations[i], conditions[j], id);
      }
    }
    DistinctAppend(Concat(a), Concat(b));
  }

  lemma RelationsDistinct(relations: seq<Definition>, conditions: seq<Condition>)
    requires PlainModel(relations, conditions)
    ensures Distinct(Concat(RelationIds(relations)))
  {
    var parts := RelationIds(relations);
    forall i | 0 <= i < |parts| ensures Distinct(parts[i]) { RelationIdsDistinct(relations[i]); }
    forall i, j, id | 0 <= i < j < |parts| && id in parts[i] ensures id !in parts[j] {
      if id in parts[j] { IdDeterminesRelation(relations[i], relations[j], id); }
    }
    DistinctConcat(parts);
  }

  lemma ConditionsDistinct(relations: seq<Definition>, conditions: seq<Condition>)
    requires PlainModel(relations, conditions)
    ensures Distinct(Concat(AllConditionIds(conditions)))
  {
    var parts := AllConditionIds(conditions);
    forall i | 0 <= i < |parts| ensures Distinct(parts[i]) { ConditionIdsDistinct(conditions[i]); }
    forall i, j, id | 0 <= i < j < |parts| && id in parts[i] ensures id !in parts[j] {
      if id in parts[j] { ConditionsApart(conditions[i], conditions[j], id); }
    }
    DistinctConcat(parts);
  }
}
