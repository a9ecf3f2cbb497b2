/** Splitting a condition's expression at an operator outside quotes and brackets
    (`top_level_split`). */
module ConditionSplit {
  import opened Results
  import opened Sequences

  /** What str.strip removes. */
  predicate IsSpace(c: char) {
    || '\t' <= c <= '\r' || '\U{1c}' <= c <= ' ' || c == '\U{85}' || c == '\U{a0}' || c == '\U{1680}'
    || '\U{2000}' <= c <= '\U{200a}' || c == '\U{2028}' || c == '\U{2029}' || c == '\U{202f}'
    || c == '\U{205f}' || c == '\U{3000}'
  }

  /** These are 29 characters. */
  lemma SpacesAre(c: char)
    ensures IsSpace(c) <==> c as int in {
        9, 10, 11, 12, 13, 28, 29, 30, 31, 32, 133, 160, 5760, 8192, 8193, 8194, 8195, 8196, 8197, 8198, 8199, 8200,
        8201, 8202, 8232, 8233, 8239, 8287, 12288}
  {
  }

  predicate IsQuote(c: char) { c == '"' || c == '\'' }
  predicate Opens(c: char) { c == '(' || c == '[' || c == '{' }
  predicate Closes(c: char) { c == ')' || c == ']' || c == '}' }

  /** Where a character stands: the quote it is in, and how many brackets are open. */
  datatype Place = Place(quote: Option<char>, depth: int)

  const TOP := Place(None, 0)

  function Move(p: Place, c: char): Place {
    if p.quote.Some? then (if c == p.quote.value then Place(None, p.depth) else p)
    else if IsQuote(c) then Place(Some(c), p.depth)
    else if Opens(c) then Place(None, p.depth + 1)
    else if Closes(c) then Place(None, p.depth - 1)
    else p
  }

  /** The place after reading a text. */
  function After(p: Place, s: string): Place
    decreases |s|
  {
    if s == "" then p else After(Move(p, s[0]), s[1..])
  }

  /** The operators the script splits at are such: not empty, and without quotes, brackets
      and white space. */
  predicate IsOperator(op: string) {
    op != "" && forall i | 0 <= i < |op| :: !IsQuote(op[i]) && !Opens(op[i]) && !Closes(op[i]) && !IsSpace(op[i])
  }

  /** How much is read from a place before the operator occurs at the top level, or all. */
  function FirstCut(p: Place, s: string, op: string): (k: nat)
    ensures k <= |s| && (k < |s| ==> k + |op| <= |s|)
    decreases |s|
  {
    if s == "" || (p == TOP && op <= s) then 0 else 1 + FirstCut(Move(p, s[0]), s[1..], op)
  }

  /** The text is read to its end without a cut. */
  predicate Uncut(p: Place, s: string, op: string) { FirstCut(p, s, op) == |s| }

  /** The parts before they are trimmed. */
  function RawParts(s: string, op: string): (parts: seq<string>)
    requires IsOperator(op)
    ensures parts != []
    decreases |s|
  {
    var k := FirstCut(TOP, s, op);
    if k == |s| then [s]
    else [s[..k]] + RawParts(s[k + |op|..], op)
  }

  /** At a cut the operator occurs, outside quotes and brackets. */
  lemma {:induction false} CutFits(p: Place, s: string, op: string)
    requires !Uncut(p, s, op)
    ensures var k := FirstCut(p, s, op); op <= s[k..] && k + |op| <= |s| && After(p, s[..k]) == TOP
    decreases |s|
  {
    if !(p == TOP && op <= s) {
      CutFits(Move(p, s[0]), s[1..], op);
      var k := FirstCut(p, s, op);
      assert s[..k][0] == s[0] && s[..k][1..] == s[1..][..k - 1];
      assert s[k..] == s[1..][k - 1..];
    }
  }

  function StripStart(s: string): string {
    if s != "" && IsSpace(s[0]) then StripStart(s[1..]) else s
  }

  function StripEnd(s: string): string {
    if s != "" && IsSpace(s[|s| - 1]) then StripEnd(s[..|s| - 1]) else s
  }

  function Strip(s: string): string { StripEnd(StripStart(s)) }

  /** The list is the parts of the text, trimmed. */
  ghost predicate Splits(s: string, op: string, parts: seq<string>)
    requires IsOperator(op)
  {
    |parts| == |RawParts(s, op)| && forall i | 0 <= i < |parts| :: parts[i] == Strip(RawParts(s, op)[i])
  }

  // ---------- the loop ----------

  /** expr.startswith(op, i) */
  predicate Occurs(s: string, i: nat, op: string)
    requires i <= |s|
    decreases |op|
  {
    op == "" || (i < |s| && s[i] == op[0] && Occurs(s, i + 1, op[1..]))
  }

  lemma {:induction false} OccursIff(s: string, i: nat, op: string)
    requires i <= |s|
    ensures Occurs(s, i, op) <==> op <= s[i..]
    decreases |op|
  {
    if op != "" && i < |s| && s[i] == op[0] {
      OccursIff(s, i + 1, op[1..]);
      assert s[i..][1..] == s[i + 1..];
      assert op == [op[0]] + op[1..] && s[i..] == [s[i]] + s[i + 1..];
    }
  }

  /** The position of the first cut at or after a position, or the length. */
  function NextCut(s: string, i: nat, p: Place, op: string): (k: nat)
    requires i <= |s|
    ensures i <= k <= |s|
    decreases |s| - i
  {
    if i == |s| || (p == TOP && Occurs(s, i, op)) then i else NextCut(s, i + 1, Move(p, s[i]), op)
  }

  /** The parts of what follows a position. */
  function PartsFrom(s: string, i: nat, op: string): seq<string>
    requires IsOperator(op) && i <= |s|
    decreases |s| - i
  {
    var k := NextCut(s, i, TOP, op);
    if k + |op| > |s| then [s[i..]] else [s[i..k]] + PartsFrom(s, k + |op|, op)
  }

  /** The branches that track quotes and brackets. */
  method Track(quote: Option<char>, depth: int, c: char) returns (inQuote: Option<char>, open: int)
    ensures Place(inQuote, open) == Move(Place(quote, depth), c)
  {
    inQuote, open := quote, depth;
    if quote.Some? {
      if c == quote.value {
        inQuote := None;
      }
    } else if IsQuote(c) {
      inQuote := Some(c);
    } else if Opens(c) {
      open := depth + 1;
    } else if Closes(c) {
      open := depth - 1;
    }
  }

  predicate Marks(c: char) { IsQuote(c) || Opens(c) || Closes(c) }

  /** The parts so far are those that end before a position, trimmed. */
  ghost predicate SplitSoFar(expr: string, start: nat, op: string, parts: seq<string>)
    requires IsOperator(op) && start <= |expr|
  {
    var all := PartsFrom(expr, 0, op);
    && |parts| <= |all| && all[|parts|..] == PartsFrom(expr, start, op)
    && forall j | 0 <= j < |parts| :: parts[j] == Strip(all[j])
  }

  method TopLevelSplit(expr: string, op: string) returns (parts: seq<string>)
    requires IsOperator(op)
    ensures Splits(expr, op, parts)
  {
    parts := [];
    var depth, quote, start, i := 0, None, 0, 0;
    while i < |expr|
      invariant 0 <= start <= i <= |expr|
      invariant NextCut(expr, start, TOP, op) == NextCut(expr, i, Place(quote, depth), op)
      invariant SplitSoFar(expr, start, op, parts)
      decreases |expr| - i
    {
      var c := expr[i];
      if quote.None? && !Marks(c) && depth == 0 && Occurs(expr, i, op) {
        parts := PushPart(expr, start, i, op, parts);
        i := i + |op|;
        start := i;
      } else {
        ghost var place := Place(quote, depth);
        quote, depth := Track(quote, depth, c);
        ReadOn(expr, i, place, Place(quote, depth), op);
        i := i + 1;
      }
    }
    parts := PushLast(expr, start, op, parts);
  }

  /** parts.append(expr[start:i].strip()) at a cut. */
  method PushPart(expr: string, start: nat, i: nat, op: string, parts: seq<string>) returns (more: seq<string>)
    requires IsOperator(op) && start <= i < |expr| && Occurs(expr, i, op)
    requires NextCut(expr, start, TOP, op) == NextCut(expr, i, TOP, op)
    requires SplitSoFar(expr, start, op, parts)
    ensures i + |op| <= |expr| && SplitSoFar(expr, i + |op|, op, more)
  {
    ghost var all := PartsFrom(expr, 0, op);
    CutOff(expr, start, i, op, all, |parts|);
    more := parts + [Strip(expr[start..i])];
    assert |more| == |parts| + 1;
  }

  /** parts.append(expr[start:].strip()) at the end. */
  method PushLast(expr: string, start: nat, op: string, parts: seq<string>) returns (more: seq<string>)
    requires IsOperator(op) && start <= |expr| && NextCut(expr, start, TOP, op) == |expr|
    requires SplitSoFar(expr, start, op, parts)
    ensures Splits(expr, op, more)
  {
    LastPart(expr, start, op, PartsFrom(expr, 0, op), |parts|);
    more := parts + [Strip(expr[start..])];
  }

  lemma ReadOn(s: string, i: nat, p: Place, q: Place, op: string)
    requires IsOperator(op) && i < |s| && q == Move(p, s[i])
    requires p != TOP || Marks(s[i]) || !Occurs(s, i, op)
    ensures NextCut(s, i, p, op) == NextCut(s, i + 1, q, op)
  {
    assert Occurs(s, i, op) ==> op[0] == s[i];
  }

  lemma CutOff(s: string, start: nat, i: nat, op: string, all: seq<string>, n: nat)
    requires IsOperator(op) && start <= i < |s| && Occurs(s, i, op)
    requires NextCut(s, start, TOP, op) == NextCut(s, i, TOP, op)
    requires n <= |all| && all[n..] == PartsFrom(s, start, op)
    ensures i + |op| <= |s|
    ensures n + 1 <= |all| && all[n] == s[start..i] && all[n + 1..] == PartsFrom(s, i + |op|, op)
  {
    OccursIff(s, i, op);
    var rest := PartsFrom(s, i + |op|, op);
    assert all[n..] == [s[start..i]] + rest;
    assert all[n..][1..] == rest && all[n..][1..] == all[n + 1..];
  }

  lemma LastPart(s: string, start: nat, op: string, all: seq<string>, n: nat)
    requires IsOperator(op) && start <= |s| && NextCut(s, start, TOP, op) == |s|
    requires all == PartsFrom(s, 0, op) && n <= |all| && all[n..] == PartsFrom(s, start, op)
    ensures n + 1 == |all| && all[n] == s[start..] && all == RawParts(s, op)
  {
    assert all[n..] == [s[start..]];
    PartsFromRaw(s, 0, op);
    assert s[0..] == s;
  }

  lemma {:induction false} NextIsFirst(s: string, i: nat, p: Place, op: string)
    requires i <= |s|
    ensures NextCut(s, i, p, op) == i + FirstCut(p, s[i..], op)
    decreases |s| - i
  {
    if i < |s| {
      assert s[i..][0] == s[i] && s[i..][1..] == s[i + 1..];
      OccursIff(s, i, op);
      NextIsFirst(s, i + 1, Move(p, s[i]), op);
    }
  }

  lemma {:induction false} PartsFromStep(s: string, i: nat, k: nat, op: string)
    requires IsOperator(op) && i <= |s| && i + k == NextCut(s, i, TOP, op)
    ensures PartsFrom(s, i, op)
            == if i + k + |op| > |s| then [s[i..]] else [s[i..i + k]] + PartsFrom(s, i + k + |op|, op)
  {
  }

  lemma {:induction false} RawPartsStep(s: string, k: nat, op: string)
    requires IsOperator(op) && k == FirstCut(TOP, s, op)
    ensures RawParts(s, op) == if k == |s| then [s] else [s[..k]] + RawParts(s[k + |op|..], op)
  {
  }

  /** Both make the same first cut, and go on from the same place. */
  lemma {:induction false} SameCut(s: string, i: nat, op: string) returns (k: nat)
    requires IsOperator(op) && i <= |s|
    ensures i + k <= |s| && (i + k < |s| ==> i + k + |op| <= |s|)
    ensures i + k == |s| ==> PartsFrom(s, i, op) == [s[i..]] == RawParts(s[i..], op)
    ensures i + k < |s| ==> PartsFrom(s, i, op) == [s[i..i + k]] + PartsFrom(s, i + k + |op|, op)
    ensures i + k < |s| ==> RawParts(s[i..], op) == [s[i..i + k]] + RawParts(s[i + k + |op|..], op)
  {
    k := FirstCut(TOP, s[i..], op);
    NextIsFirst(s, i, TOP, op);
    PartsFromStep(s, i, k, op);
    RawPartsStep(s[i..], k, op);
    if i + k < |s| { Slices(s, i, k, |op|); }
  }

  /** The part they both begin with, and where the next one starts, if there is one. */
  lemma {:induction false} SameFirstPart(s: string, i: nat, op: string) returns (first: seq<string>, next: nat)
    requires IsOperator(op) && i <= |s|
    ensures i < next && (next > |s| ==> PartsFrom(s, i, op) == first && RawParts(s[i..], op) == first)
    ensures next <= |s| ==> PartsFrom(s, i, op) == first + PartsFrom(s, next, op)
    ensures next <= |s| ==> RawParts(s[i..], op) == first + RawParts(s[next..], op)
  {
    var k := SameCut(s, i, op);
    if i + k < |s| {
      first, next := [s[i..i + k]], i + k + |op|;
    } else {
      first, next := [s[i..]], |s| + 1;
    }
  }

  lemma {:induction false} PartsFromRaw(s: string, i: nat, op: string)
    requires IsOperator(op) && i <= |s|
    ensures PartsFrom(s, i, op) == RawParts(s[i..], op)
    decreases |s| - i
  {
    var first, next := SameFirstPart(s, i, op);
    if next <= |s| { PartsFromRaw(s, next, op); }
  }

  lemma Slices(s: string, i: nat, k: nat, n: nat)
    requires i + k + n <= |s|
    ensures s[i..][..k] == s[i..i + k] && s[i..][k + n..] == s[i + k + n..]
  {
  }

  // ---------- trimming ----------

  predicate AllSpace(s: string) { forall i | 0 <= i < |s| :: IsSpace(s[i]) }

  predicate Trim(s: string) { s == "" || (!IsSpace(s[0]) && !IsSpace(s[|s| - 1])) }

  /** `y` is `x` without the white space at its ends. */
  ghost predicate Trimmed(x: string, y: string) {
    Trim(y) && exists l, r :: AllSpace(l) && AllSpace(r) && x == l + y + r
  }

  lemma {:induction false} StartTrims(s: string) returns (l: string)
    ensures AllSpace(l) && s == l + StripStart(s) && (StripStart(s) != "" ==> !IsSpace(StripStart(s)[0]))
  {
    if s != "" && IsSpace(s[0]) {
      var m := StartTrims(s[1..]);
      l := [s[0]] + m;
      assert s == [s[0]] + s[1..];
    } else {
      l := "";
    }
  }

  lemma {:induction false} EndTrims(s: string) returns (r: string)
    ensures AllSpace(r) && s == StripEnd(s) + r
    ensures StripEnd(s) != "" ==> !IsSpace(StripEnd(s)[|StripEnd(s)| - 1])
  {
    if s != "" && IsSpace(s[|s| - 1]) {
      var m := EndTrims(s[..|s| - 1]);
      r := m + [s[|s| - 1]];
      assert s == s[..|s| - 1] + [s[|s| - 1]];
      assert s == StripEnd(s) + r;
    } else {
      r := "";
    }
  }

  lemma StripTrims(s: string)
    ensures Trimmed(s, Strip(s))
  {
    var l := StartTrims(s);
    var r := EndTrims(StripStart(s));
    assert s == l + Strip(s) + r;
  }

  lemma StartPad(l: string, x: string)
    requires (l == "" || l == " ") && (x == "" || !IsSpace(x[0]))
    ensures StripStart(l + x) == x
  {
    if l == "" {
      assert l + x == x;
    } else {
      assert (l + x)[0] == ' ' && (l + x)[1..] == x;
    }
  }

  lemma EndPad(x: string, r: string)
    requires (r == "" || r == " ") && (x == "" || !IsSpace(x[|x| - 1]))
    ensures StripEnd(x + r) == x
  {
    if r == "" {
      assert x + r == x;
    } else {
      EndBlank(x + r, x);
    }
  }

  lemma EndBlank(s: string, x: string)
    requires s == x + " "
    ensures StripEnd(s) == StripEnd(x)
  {
    assert s != "" && s[|s| - 1] == ' ' && s[..|s| - 1] == x;
  }

  lemma {:induction false} SpacesStrip(s: string)
    requires AllSpace(s)
    ensures StripStart(s) == ""
  {
    if s != "" { SpacesStrip(s[1..]); }
  }

  /** White space around a trimmed text is what strip removes. */
  lemma StripPadded(l: string, y: string, r: string)
    requires (l == "" || l == " ") && (r == "" || r == " ") && Trim(y)
    ensures Strip(l + y + r) == y
  {
    if y == "" {
      SpacesStrip(l + y + r);
    } else {
      assert (y + r)[0] == y[0];
      StartPad(l, y + r);
      EndPad(y, r);
      Regroup(l, y, r);
    }
  }

  // ---------- splitting and joining ----------

  function Join(sep: string, parts: seq<string>): string
    requires parts != []
  {
    if |parts| == 1 then parts[0] else parts[0] + sep + Join(sep, parts[1..])
  }

  lemma JoinFirst(sep: string, part: string, rest: seq<string>)
    requires rest != []
    ensures Join(sep, [part] + rest) == part + sep + Join(sep, rest)
  {
    assert ([part] + rest)[1..] == rest;
  }

  lemma AroundCut(s: string, k: nat, op: string)
    requires k + |op| <= |s| && op <= s[k..]
    ensures s == s[..k] + op + s[k + |op|..]
  {
    assert s == s[..k] + s[k..];
    assert s[k..] == op + s[k..][|op|..];
  }

  /** Joining the parts on the operator gives the expression back. */
  lemma {:induction false} JoinUndoesRawParts(s: string, op: string)
    requires IsOperator(op)
    ensures Join(op, RawParts(s, op)) == s
    decreases |s|
  {
    var k := FirstCut(TOP, s, op);
    if k < |s| {
      CutFits(TOP, s, op);
      JoinUndoesRawParts(s[k + |op|..], op);
      JoinFirst(op, s[..k], RawParts(s[k + |op|..], op));
      AroundCut(s, k, op);
    }
  }

  /** Splitting is undone by joining, up to the white space trimmed off each part. */
  lemma SplitIsUndoneByJoining(s: string, op: string, parts: seq<string>) returns (raw: seq<string>)
    requires IsOperator(op) && Splits(s, op, parts)
    ensures raw != [] && Join(op, raw) == s
    ensures |raw| == |parts| && forall i | 0 <= i < |raw| :: Trimmed(raw[i], parts[i])
  {
    raw := RawParts(s, op);
    JoinUndoesRawParts(s, op);
    forall i | 0 <= i < |raw| ensures Trimmed(raw[i], parts[i]) { StripTrims(raw[i]); }
  }

  // ---------- the characters that count ----------

  /** The operators of the script. */
  predicate IsConnective(op: string) { op == "&&" || op == "||" }

  predicate IsPlain(c: char) {
    && c != '(' && c != ')' && c != '[' && c != ']' && c != '{' && c != '}' && c != '"' && c != '\''
  }

  lemma ConnectiveIsOperator(op: string)
    requires IsConnective(op)
    ensures IsOperator(op) && |op| == 2 && (op[0] == '&' || op[0] == '|')
  {
  }

  lemma {:induction false} UncutInside(p: Place, inner: string, close: char, op: string)
    requires p != TOP && Move(p, close) == TOP && op != ""
    requires forall i | 0 <= i < |inner| :: Move(p, inner[i]) == p
    ensures Uncut(p, inner + [close], op)
    decreases |inner|
  {
    if inner == "" {
      assert inner + [close] == [close] && [close][1..] == "";
    } else {
      UncutInside(p, inner[1..], close, op);
      assert (inner + [close])[1..] == inner[1..] + [close] && (inner + [close])[0] == inner[0];
    }
  }

  lemma {:induction false} UncutIsWhole(s: string, op: string)
    requires IsOperator(op) && Uncut(TOP, s, op)
    ensures RawParts(s, op) == [s]
  {
  }

  lemma {:induction false} UncutEnclosed(open: char, inner: string, close: char, op: string)
    requires IsConnective(op) && open != op[0] && Move(TOP, open) != TOP && Move(Move(TOP, open), close) == TOP
    requires forall i | 0 <= i < |inner| :: Move(Move(TOP, open), inner[i]) == Move(TOP, open)
    ensures IsOperator(op) && RawParts([open] + inner + [close], op) == [[open] + inner + [close]]
  {
    var s := [open] + inner + [close];
    ConnectiveIsOperator(op);
    UncutInside(Move(TOP, open), inner, close, op);
    FirstIsRead(open, inner + [close], op);
    assert s == [open] + (inner + [close]);
    UncutIsWhole(s, op);
  }

  lemma {:induction false} FirstIsRead(c: char, rest: string, op: string)
    requires op != "" && op[0] != c
    ensures FirstCut(TOP, [c] + rest, op) == 1 + FirstCut(Move(TOP, c), rest, op)
  {
    assert ([c] + rest)[0] == c && ([c] + rest)[1..] == rest;
  }

  /** Nothing is cut between two brackets that belong together. */
  lemma BracketsProtect(inner: string, op: string)
    requires IsConnective(op) && forall i | 0 <= i < |inner| :: IsPlain(inner[i])
    ensures IsOperator(op)
    ensures RawParts("(" + inner + ")", op) == ["(" + inner + ")"]
    ensures RawParts("[" + inner + "]", op) == ["[" + inner + "]"]
    ensures RawParts("{" + inner + "}", op) == ["{" + inner + "}"]
  {
    UncutEnclosed('(', inner, ')', op);
    UncutEnclosed('[', inner, ']', op);
    UncutEnclosed('{', inner, '}', op);
  }

  /** Nor between two quotes that are the same, whatever else stands there. */
  lemma QuotesProtect(inner: string, op: string)
    requires IsConnective(op)
    ensures IsOperator(op)
    ensures '"' !in inner ==> RawParts("\"" + inner + "\"", op) == ["\"" + inner + "\""]
    ensures '\'' !in inner ==> RawParts("'" + inner + "'", op) == ["'" + inner + "'"]
  {
    ConnectiveIsOperator(op);
    if '"' !in inner { UncutEnclosed('"', inner, '"', op); }
    if '\'' !in inner { UncutEnclosed('\'', inner, '\'', op); }
  }

  lemma {:induction false} PlainUntil(a: string, rest: string, op: string)
    requires IsConnective(op) && (rest == "" || op <= rest)
    requires forall i | 0 <= i < |a| :: IsPlain(a[i]) && a[i] != op[0]
    ensures FirstCut(TOP, a + rest, op) == |a|
    decreases |a|
  {
    if a == "" {
      assert a + rest == rest;
    } else {
      PlainUntil(a[1..], rest, op);
      assert (a + rest)[0] == a[0] && (a + rest)[1..] == a[1..] + rest;
    }
  }

  /** And between texts without brackets and quotes every operator is a cut. */
  lemma PlainIsCut(a: string, b: string, op: string)
    requires IsConnective(op)
    requires forall i | 0 <= i < |a| :: IsPlain(a[i]) && a[i] != op[0]
    requires forall i | 0 <= i < |b| :: IsPlain(b[i]) && b[i] != op[0]
    ensures IsOperator(op) && RawParts(a + op + b, op) == [a, b]
  {
    ConnectiveIsOperator(op);
    Regroup(a, op, b);
    PlainUntil(a, op + b, op);
    PlainUntil(b, "", op);
    assert b + "" == b;
    UncutIsWhole(b, op);
    assert (a + op + b)[..|a|] == a && (a + op + b)[|a| + |op|..] == b;
  }

  lemma {:induction false} AfterAppend(p: Place, a: string, b: string)
    ensures After(p, a + b) == After(After(p, a), b)
    decreases |a|
  {
    if a == "" {
      assert a + b == b;
    } else {
      assert (a + b)[0] == a[0] && (a + b)[1..] == a[1..] + b;
      AfterAppend(Move(p, a[0]), a[1..], b);
    }
  }

  lemma {:induction false} StaysAtTop(s: string)
    requires forall i | 0 <= i < |s| :: !IsQuote(s[i]) && !Opens(s[i]) && !Closes(s[i])
    ensures After(TOP, s) == TOP
  {
    if s != "" { StaysAtTop(s[1..]); }
  }

  /** Every cut falls where the whole expression up to it has closed its quotes and brackets. */
  lemma {:induction false} CutsAtTopLevel(s: string, op: string, i: nat)
    requires IsOperator(op) && i + 1 < |RawParts(s, op)|
    ensures var before := Join(op, RawParts(s, op)[..i + 1]); before + op <= s && After(TOP, before) == TOP
    decreases |s|
  {
    var k := FirstCut(TOP, s, op);
    CutFits(TOP, s, op);
    AroundCut(s, k, op);
    var x, rest := s[..k], s[k + |op|..];
    if i > 0 { CutsAtTopLevel(rest, op, i - 1); }
    PastCut(s, x, op, rest, RawParts(rest, op), i);
  }

  lemma PastCut(s: string, x: string, op: string, rest: string, parts: seq<string>, i: nat)
    requires IsOperator(op) && After(TOP, x) == TOP && s == x + op + rest && i <= |parts|
    requires i > 0 ==> After(TOP, Join(op, parts[..i])) == TOP && Join(op, parts[..i]) + op <= rest
    ensures After(TOP, Join(op, ([x] + parts)[..i + 1])) == TOP && Join(op, ([x] + parts)[..i + 1]) + op <= s
  {
    assert ([x] + parts)[..i + 1] == [x] + parts[..i];
    if i == 0 {
      assert [x] + parts[..i] == [x];
    } else {
      var inner := Join(op, parts[..i]);
      JoinFirst(op, x, parts[..i]);
      AfterAppend(TOP, x + op, inner);
      AfterAppend(TOP, x, op);
      StaysAtTop(op);
      PrefixAfter(x + op, inner + op, rest);
      assert x + op + inner + op == x + op + (inner + op);
    }
  }

  lemma PrefixAfter(a: string, b: string, c: string)
    requires b <= c
    ensures a + b <= a + c
  {
  }

  // ---------- parts stay whole ----------

  lemma {:induction false} PrefixUncut(p: Place, s: string, k: nat, op: string)
    requires k <= FirstCut(p, s, op)
    ensures Uncut(p, s[..k], op)
    decreases k
  {
    if k > 0 {
      assert s[..k][0] == s[0] && s[..k][1..] == s[1..][..k - 1];
      PrefixUncut(Move(p, s[0]), s[1..], k - 1, op);
      assert op <= s[..k] ==> op <= s;
    }
  }

  lemma {:induction false} SuffixUncut(p: Place, l: string, s: string, op: string)
    requires Uncut(p, l + s, op)
    ensures Uncut(After(p, l), s, op)
    decreases |l|
  {
    if l == "" {
      assert l + s == s;
    } else {
      assert (l + s)[0] == l[0] && (l + s)[1..] == l[1..] + s;
      SuffixUncut(Move(p, l[0]), l[1..], s, op);
    }
  }

  lemma {:induction false} RawPartUncut(s: string, op: string, i: nat)
    requires IsOperator(op) && i < |RawParts(s, op)|
    ensures Uncut(TOP, RawParts(s, op)[i], op)
    ensures i + 1 < |RawParts(s, op)| ==> After(TOP, RawParts(s, op)[i]) == TOP
    decreases |s|
  {
    var k := FirstCut(TOP, s, op);
    if k < |s| {
      CutFits(TOP, s, op);
      PrefixUncut(TOP, s, k, op);
      if i > 0 { RawPartUncut(s[k + |op|..], op, i - 1); }
    }
  }

  lemma TrimmedUncut(x: string, y: string, op: string)
    requires Trimmed(x, y) && Uncut(TOP, x, op)
    ensures Uncut(TOP, y, op) && (After(TOP, x) == TOP ==> After(TOP, y) == TOP)
  {
    var l, r :| AllSpace(l) && AllSpace(r) && x == l + y + r;
    assert l + y + r == l + (y + r);
    StartUncut(l, y + r, op);
    PrefixUncut(TOP, y + r, |y|, op);
    assert (y + r)[..|y|] == y;
    AfterAppend(TOP, y, r);
    AfterQuotes(TOP, y);
    SpacesKeepPlace(After(TOP, y), r);
  }

  lemma StartUncut(l: string, s: string, op: string)
    requires AllSpace(l) && Uncut(TOP, l + s, op)
    ensures Uncut(TOP, s, op) && After(TOP, l + s) == After(TOP, s)
  {
    SpacesKeepPlace(TOP, l);
    SuffixUncut(TOP, l, s, op);
    AfterAppend(TOP, l, s);
  }

  /** Only quotes are ever open as quotes. */
  lemma {:induction false} AfterQuotes(p: Place, s: string)
    requires p.quote.Some? ==> IsQuote(p.quote.value)
    ensures After(p, s).quote.Some? ==> IsQuote(After(p, s).quote.value)
    decreases |s|
  {
    if s != "" { AfterQuotes(Move(p, s[0]), s[1..]); }
  }

  lemma {:induction false} SpacesKeepPlace(p: Place, s: string)
    requires AllSpace(s) && (p.quote.Some? ==> IsQuote(p.quote.value))
    ensures After(p, s) == p
  {
    if s != "" { SpacesKeepPlace(p, s[1..]); }
  }

  /** A part, trimmed, splits to itself alone; and all but the last close what they open. */
  lemma PartsAreWhole(s: string, op: string, parts: seq<string>, i: nat)
    requires IsOperator(op) && Splits(s, op, parts) && i < |parts|
    ensures Trim(parts[i]) && Uncut(TOP, parts[i], op)
    ensures Splits(parts[i], op, [parts[i]])
    ensures i + 1 < |parts| ==> After(TOP, parts[i]) == TOP
  {
    var raw, part := RawParts(s, op)[i], parts[i];
    RawPartUncut(s, op, i);
    StripTrims(raw);
    TrimmedUncut(raw, part, op);
    StripPadded("", part, "");
    assert "" + part + "" == part;
  }

  // ---------- dropping an operand ----------

  /** The text the mutants of a condition are made of: the parts joined on the operator
      between blanks. */
  function Spaced(op: string): string { " " + op + " " }

  lemma NoStraddle(op: string, y: string, tail: string)
    requires IsOperator(op) && tail != "" && tail[0] == ' '
    ensures op <= y + tail ==> op <= y
  {
    assert (y + tail)[|y|] == ' ';
  }

  lemma {:induction false} CutAfterBlank(p: Place, y: string, tail: string, op: string)
    requires IsOperator(op) && Uncut(p, y, op) && tail != "" && tail[0] == ' '
    ensures FirstCut(p, y + tail, op) == |y| + FirstCut(After(p, y), tail, op)
    decreases |y|
  {
    if y == "" {
      assert y + tail == tail;
    } else {
      assert (y + tail)[0] == y[0] && (y + tail)[1..] == y[1..] + tail;
      CutAfterBlank(Move(p, y[0]), y[1..], tail, op);
      NoStraddle(op, y, tail);
    }
  }

  ghost predicate Whole(parts: seq<string>, op: string)
    requires IsOperator(op)
  {
    && parts != []
    && (forall i | 0 <= i < |parts| :: Trim(parts[i]) && Uncut(TOP, parts[i], op))
    && (forall i | 0 <= i < |parts| - 1 :: After(TOP, parts[i]) == TOP)
  }

  /** Whole parts joined between blanks split to exactly those parts. */
  lemma {:induction false} JoinedSplits(l: string, parts: seq<string>, op: string)
    requires IsOperator(op) && Whole(parts, op) && (l == "" || l == " ")
    ensures Splits(l + Join(Spaced(op), parts), op, parts)
    decreases |parts|
  {
    var y := parts[0];
    BlankUncut(l, y, op);
    if |parts| == 1 {
      StripPadded(l, y, "");
      assert l + y + "" == l + y;
    } else {
      JoinedSplits(" ", parts[1..], op);
      StripPadded(l, y, " ");
      FirstOfJoined(l, y, Join(Spaced(op), parts[1..]), op);
    }
  }

  lemma BlankUncut(l: string, y: string, op: string)
    requires IsOperator(op) && Uncut(TOP, y, op) && (l == "" || l == " ")
    ensures Uncut(TOP, l + y, op) && After(TOP, l + y) == After(TOP, y)
  {
    if l == "" {
      assert l + y == y;
    } else {
      assert (l + y)[0] == ' ' && (l + y)[1..] == y;
    }
  }

  lemma FirstOfJoined(l: string, y: string, more: string, op: string)
    requires IsOperator(op) && Uncut(TOP, l + y, op) && After(TOP, l + y) == TOP
    ensures RawParts(l + (y + Spaced(op) + more), op) == [l + y + " "] + RawParts(" " + more, op)
  {
    var s := l + y + Tail(op, more);
    CutAtBlank(l + y, more, op);
    RawFirst(s, op, |l + y| + 1, l + y + " ", " " + more);
    TailFollows(l, y, op, more);
  }

  lemma TailFollows(l: string, y: string, op: string, more: string)
    ensures l + (y + Spaced(op) + more) == l + y + Tail(op, more)
  {
    assert Spaced(op) + more == Tail(op, more);
    Regroup(y, Spaced(op), more);
    Regroup(l, y, Tail(op, more));
  }

  lemma RawFirst(s: string, op: string, k: nat, part: string, rest: string)
    requires IsOperator(op) && FirstCut(TOP, s, op) == k < |s| && part == s[..k] && rest == s[k + |op|..]
    ensures RawParts(s, op) == [part] + RawParts(rest, op)
  {
  }

  function Tail(op: string, more: string): string { " " + (op + (" " + more)) }

  lemma CutAtBlank(y: string, more: string, op: string)
    requires IsOperator(op) && Uncut(TOP, y, op) && After(TOP, y) == TOP
    ensures FirstCut(TOP, y + Tail(op, more), op) == |y| + 1
    ensures (y + Tail(op, more))[..|y| + 1] == y + " "
    ensures (y + Tail(op, more))[|y| + 1 + |op|..] == " " + more
  {
    var tail := Tail(op, more);
    CutAfterBlank(TOP, y, tail, op);
    assert tail[0] == ' ' && tail[1..] == op + (" " + more);
    assert op <= tail[1..];
    assert !(op <= tail) by { assert op[0] != ' '; }
    assert (y + tail)[|y| + 1 + |op|..] == tail[1..][|op|..] == " " + more;
  }

  /** Dropping an operand of a condition drops that operand and nothing else: the mutant
      splits to the other operands, in order. */
  lemma DropOperand(s: string, op: string, parts: seq<string>, i: nat)
    requires IsOperator(op) && Splits(s, op, parts) && i < |parts| && |parts| > 1
    ensures var rest := Without(parts, i); Splits(Join(Spaced(op), rest), op, rest)
  {
    var rest := Without(parts, i);
    assert Whole(rest, op) by {
      forall j | 0 <= j < |rest|
        ensures Trim(rest[j]) && Uncut(TOP, rest[j], op) && (j + 1 < |rest| ==> After(TOP, rest[j]) == TOP)
      {
        var k := if j < i then j else j + 1;
        assert rest[j] == parts[k];
        PartsAreWhole(s, op, parts, k);
      }
    }
    JoinedSplits("", rest, op);
    assert "" + Join(Spaced(op), rest) == Join(Spaced(op), rest);
  }
}
