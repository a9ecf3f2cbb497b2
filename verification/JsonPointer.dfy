/** JSON Pointer locations (RFC 6901): the strings `walk` builds, and the resolver that
    reads them back. A Go string is a sequence of bytes; each `char` here is one byte. */
module JsonPointer {
  import opened Results
  import opened Numerals
  import opened JsonTree

  // ---------- escaping ----------

  /** strings.ReplaceAll for a non-empty pattern. */
  function ReplaceAll(s: string, from: string, to: string): string
    requires from != ""
  {
    if s == "" then ""
    else if from <= s then to + ReplaceAll(s[|from|..], from, to)
    else [s[0]] + ReplaceAll(s[1..], from, to)
  }

  function Escape(key: string): string {
    ReplaceAll(ReplaceAll(key, "~", "~0"), "/", "~1")
  }

  function Unescape(token: string): string {
    ReplaceAll(ReplaceAll(token, "~1", "/"), "~0", "~")
  }

  predicate IsHex(c: char) {
    '0' <= c <= '9' || 'a' <= c <= 'f' || 'A' <= c <= 'F'
  }

  function HexValue(c: char): nat
    requires IsHex(c)
    ensures HexValue(c) < 16
  {
    if '0' <= c <= '9' then c as int - '0' as int
    else if 'a' <= c <= 'f' then c as int - 'a' as int + 10
    else c as int - 'A' as int + 10
  }

  /** url.PathUnescape: a '%' must start two hex digits, everything else stands for itself. */
  function PathUnescape(s: string): Option<string> {
    if s == "" then Some("")
    else if s[0] == '%' then
      if |s| < 3 || !IsHex(s[1]) || !IsHex(s[2]) then None
      else
        match PathUnescape(s[3..])
        case None => None
        case Some(rest) => Some([(16 * HexValue(s[1]) + HexValue(s[2])) as char] + rest)
    else
      match PathUnescape(s[1..])
      case None => None
      case Some(rest) => Some([s[0]] + rest)
  }

  function DecodeToken(token: string): Option<string> {
    match PathUnescape(token)
    case None => None
    case Some(s) => Some(Unescape(s))
  }

  // ---------- array indices ----------

  /** The largest value of a 64-bit Go int, and so the longest a Go slice can be. */
  const MAX_INT: nat := 0x7fff_ffff_ffff_ffff

  function ParseIndex(token: string, length: nat): Option<nat> {
    if token == "0" then (if length == 0 then None else Some(0))
    else if token == "" || !('1' <= token[0] <= '9') then None
    else if exists i | 1 <= i < |token| :: !IsDigit(token[i]) then None
    else if DigitsValue(token) > MAX_INT then None
    else if DigitsValue(token) >= length then None
    else Some(DigitsValue(token))
  }

  /** An index token is accepted exactly when it is the decimal numeral, without leading
      zeros, of a position in the array. */
  lemma ParseIndexIff(token: string, length: nat, index: nat)
    ensures ParseIndex(token, length) == Some(index) <==> index < length && index <= MAX_INT && token == Decimal(index)
  {
    if ParseIndex(token, length) == Some(index) {
      if token == "0" {
        assert DigitsValue(token) == DigitsValue(token[..0]) * 10;
      }
      ValueDecimal(token);
    }
    if index < length && index <= MAX_INT && token == Decimal(index) {
      DecimalValue(index);
    }
  }

  method ParseArrayIndex(token: string, length: nat) returns (r: Option<nat>)
    ensures r == ParseIndex(token, length)
    ensures r.Some? ==> r.value < length && token == Decimal(r.value)
    ensures r.None? ==> forall index: nat | index < length && index <= MAX_INT :: token != Decimal(index)
  {
    forall index: nat
      ensures ParseIndex(token, length) == Some(index)
              <==> index < length && index <= MAX_INT && token == Decimal(index)
    {
      ParseIndexIff(token, length, index);
    }
    if token == "0" {
      return if length == 0 then None else Some(0);
    }
    if token == "" || token[0] < '1' || token[0] > '9' {
      return None;
    }
    for index := 1 to |token|
      invariant forall i | 1 <= i < index :: IsDigit(token[i])
    {
      if token[index] < '0' || token[index] > '9' {
        return None;
      }
    }
    var parsed := DigitsValue(token);
    if parsed > MAX_INT {
      return None;
    }
    if parsed >= length {
      return None;
    }
    return Some(parsed);
  }

  // ---------- locations and the walk ----------

  /** "#" followed by one escaped token for each step of the path. */
  function Location(path: seq<string>): string {
    if path == [] then "#"
    else Location(path[..|path| - 1]) + "/" + Escape(path[|path| - 1])
  }

  /** One call of the visitor `walk` makes: the object and the path it was reached by. */
  datatype Visit = Visit(fields: map<string, Json>, path: seq<string>)

  /** The visitor calls `walk` makes, in order: an object before its members, members by
      sorted key, array items by index. */
  function Visits(value: Json, path: seq<string>): seq<Visit>
    decreases value, 1
  {
    match value
    case Arr(items) => ItemVisits(value, 0, path)
    case Obj(fields) => [Visit(fields, path)] + MemberVisits(value, SortedKeys(fields.Keys), path)
    case _ => []
  }

  function ItemVisits(value: Json, index: nat, path: seq<string>): seq<Visit>
    requires value.Arr? && index <= |value.items|
    decreases value, 0, |value.items| - index
  {
    if index == |value.items| then []
    else Visits(value.items[index], path + [Decimal(index)]) + ItemVisits(value, index + 1, path)
  }

  function MemberVisits(value: Json, keys: seq<string>, path: seq<string>): seq<Visit>
    requires value.Obj? && forall k | k in keys :: k in value.fields
    decreases value, 0, |keys|
  {
    if keys == [] then []
    else Visits(value.fields[keys[0]], path + [keys[0]]) + MemberVisits(value, keys[1..], path)
  }

  // ---------- resolution ----------

  function Split(s: string, separator: char): (parts: seq<string>)
    ensures parts != []
  {
    if s == "" then [""]
    else
      var rest := Split(s[1..], separator);
      if s[0] == separator then [""] + rest
      else [[s[0]] + rest[0]] + rest[1..]
  }

  function TrimPrefix(s: string, prefix: string): string {
    if prefix <= s then s[|prefix|..] else s
  }

  /** One step into a value: a member of an object or an item of an array. */
  function Step(current: Json, key: string): Option<Json> {
    match current
    case Obj(fields) => if key in fields then Some(fields[key]) else None
    case Arr(items) =>
      (match ParseIndex(key, |items|)
       case Some(index) => ParseIndexIff(key, |items|, index); Some(items[index])
       case None => None)
    case _ => None
  }

  /** Where a path of plain keys and indices leads. */
  function Follow(document: Json, path: seq<string>): Option<Json> {
    if path == [] then Some(document)
    else
      match Follow(document, path[..|path| - 1])
      case None => None
      case Some(parent) => Step(parent, path[|path| - 1])
  }

  function DecodeAll(tokens: seq<string>): (r: Option<seq<string>>)
    ensures r.Some? ==> |r.value| == |tokens|
  {
    if tokens == [] then Some([])
    else
      match (DecodeAll(tokens[..|tokens| - 1]), DecodeToken(tokens[|tokens| - 1]))
      case (Some(init), Some(last)) => Some(init + [last])
      case _ => None
  }

  /** The keys a reference names, decoded; None when a token does not decode. */
  function RefPath(ref: string): Option<seq<string>> {
    if ref == "#" then Some([]) else DecodeAll(Split(TrimPrefix(ref, "#/"), '/'))
  }

  function Resolve(document: Json, ref: string): Option<Json> {
    match RefPath(ref)
    case None => None
    case Some(path) => Follow(document, path)
  }

  /** The loop decodes and steps token by token, and gives up at the first failure. */
  method ResolveJSONPointer(document: Json, ref: string) returns (r: Option<Json>)
    ensures r == Resolve(document, ref)
  {
    if ref == "#" {
      return Some(document);
    }
    var tokens := Split(TrimPrefix(ref, "#/"), '/');
    var current := document;
    ghost var path := [];
    for i := 0 to |tokens|
      invariant DecodeAll(tokens[..i]) == Some(path)
      invariant Follow(document, path) == Some(current)
    {
      var decoded := DecodeToken(tokens[i]);
      DecodeAllStep(tokens, i);
      if decoded.None? {
        DecodeAllPrefix(tokens, i + 1);
        return None;
      }
      FollowStep(document, path, decoded.value);
      var next := None;
      match current {
        case Obj(fields) =>
          if decoded.value in fields {
            next := Some(fields[decoded.value]);
          }
        case Arr(items) =>
          var index := ParseArrayIndex(decoded.value, |items|);
          if index.Some? {
            next := Some(items[index.value]);
          }
        case _ =>
      }
      assert next == Step(current, decoded.value);
      if next.None? {
        FollowPrefix(document, tokens, i + 1);
        return None;
      }
      current := next.value;
      path := path + [decoded.value];
    }
    assert tokens[..|tokens|] == tokens;
    return Some(current);
  }

  lemma DecodeAllStep(tokens: seq<string>, n: nat)
    requires n < |tokens|
    ensures DecodeAll(tokens[..n + 1]) ==
            match (DecodeAll(tokens[..n]), DecodeToken(tokens[n]))
            case (Some(init), Some(last)) => Some(init + [last])
            case _ => None
  {
    assert tokens[..n + 1][..n] == tokens[..n];
  }

  lemma FollowStep(document: Json, path: seq<string>, key: string)
    ensures Follow(document, path + [key]) ==
            match Follow(document, path)
            case None => None
            case Some(parent) => Step(parent, key)
  {
    assert (path + [key])[..|path|] == path;
  }

  lemma {:induction false} DecodeAllPrefix(tokens: seq<string>, n: nat)
    requires n <= |tokens|
    ensures DecodeAll(tokens[..n]).None? ==> DecodeAll(tokens).None?
    ensures DecodeAll(tokens).Some? ==> DecodeAll(tokens[..n]) == Some(DecodeAll(tokens).value[..n])
    decreases |tokens|
  {
    if n == |tokens| {
      assert tokens[..n] == tokens;
      if tokens != [] { DecodeAllPrefix(tokens[..n - 1], n - 1); }
      if DecodeAll(tokens).Some? {
        assert DecodeAll(tokens).value[..n] == DecodeAll(tokens).value;
      }
    } else {
      DecodeAllPrefix(tokens[..|tokens| - 1], n);
      assert tokens[..|tokens| - 1][..n] == tokens[..n];
      if DecodeAll(tokens).Some? {
        var init := DecodeAll(tokens[..|tokens| - 1]).value;
        assert DecodeAll(tokens).value[..n] == init[..n];
      }
    }
  }

  lemma {:induction false} FollowNone(document: Json, path: seq<string>, n: nat)
    requires n <= |path| && Follow(document, path[..n]).None?
    ensures Follow(document, path).None?
    decreases |path|
  {
    if n == |path| {
      assert path[..n] == path;
    } else {
      assert path[..|path| - 1][..n] == path[..n];
      FollowNone(document, path[..|path| - 1], n);
    }
  }

  /** A failed step decides the whole resolution, whatever tokens follow. */
  lemma FollowPrefix(document: Json, tokens: seq<string>, n: nat)
    requires n <= |tokens|
    requires DecodeAll(tokens[..n]).Some? ==> Follow(document, DecodeAll(tokens[..n]).value).None?
    ensures DecodeAll(tokens).Some? ==> Follow(document, DecodeAll(tokens).value).None?
  {
    DecodeAllPrefix(tokens, n);
    if DecodeAll(tokens).Some? {
      FollowNone(document, DecodeAll(tokens).value, n);
    }
  }

  // ---------- a token written by `walk` reads back ----------

  function EscapeChar(c: char): string {
    if c == '~' then "~0" else if c == '/' then "~1" else [c]
  }

  lemma {:induction false} EscapeCons(key: string)
    requires key != ""
    ensures Escape(key) == EscapeChar(key[0]) + Escape(key[1..])
  {
    var tail := ReplaceAll(key[1..], "~", "~0");
    if key[0] == '~' {
      assert ReplaceAll(key, "~", "~0") == "~0" + tail;
      ReplaceStep("~0" + tail, "/", "~1");
      ReplaceStep("0" + tail, "/", "~1");
      assert ("~0" + tail)[1..] == "0" + tail && ("0" + tail)[1..] == tail;
    } else {
      assert ReplaceAll(key, "~", "~0") == [key[0]] + tail;
      ReplaceStep([key[0]] + tail, "/", "~1");
      assert ([key[0]] + tail)[1..] == tail;
    }
  }

  /** The two characters that are escaped. */
  lemma EscapedForms()
    ensures Escape("~") == "~0" && Escape("/") == "~1"
  {
    EscapeCons("~");
    EscapeCons("/");
    assert "~"[1..] == "" && "/"[1..] == "" && Escape("") == "";
  }

  /** Replacing a one-character pattern looks at one character at a time. */
  lemma ReplaceStep(s: string, from: string, to: string)
    requires s != "" && |from| == 1
    ensures ReplaceAll(s, from, to) == (if s[0] == from[0] then to else [s[0]]) + ReplaceAll(s[1..], from, to)
  {
    assert from <= s <==> s[0] == from[0];
  }

  lemma {:induction false} EscapeCharacters(key: string)
    ensures '/' !in Escape(key)
    ensures '%' in Escape(key) <==> '%' in key
  {
    if key != "" {
      EscapeCons(key);
      EscapeCharacters(key[1..]);
      assert key == [key[0]] + key[1..];
    }
  }

  /** `~1` is undone before `~0`, so no escape is read twice. */
  lemma {:induction false} UnescapeEscape(key: string)
    ensures Unescape(Escape(key)) == key
  {
    UnescapeFirst(key);
    UnescapeSecond(key);
  }

  lemma {:induction false} UnescapeFirst(key: string)
    ensures ReplaceAll(Escape(key), "~1", "/") == ReplaceAll(key, "~", "~0")
  {
    if key != "" {
      EscapeCons(key);
      UnescapeFirst(key[1..]);
      ReplaceStep(key, "~", "~0");
      UnescapeFirstChar(key[0], Escape(key[1..]));
    }
  }

  lemma UnescapeFirstChar(c: char, tail: string)
    ensures ReplaceAll(EscapeChar(c) + tail, "~1", "/")
         == (if c == '~' then "~0" else [c]) + ReplaceAll(tail, "~1", "/")
  {
    if c == '/' {
      ReplaceMatch(tail, "~1", "/");
    } else if c == '~' {
      ReplaceSkip('~', "0" + tail, "~1", "/");
      ReplaceSkip('0', tail, "~1", "/");
      assert ['~'] + ("0" + tail) == "~0" + tail;
      assert ['~'] + ("0" + ReplaceAll(tail, "~1", "/")) == "~0" + ReplaceAll(tail, "~1", "/");
    } else {
      ReplaceSkip(c, tail, "~1", "/");
    }
  }

  lemma ReplaceMatch(s: string, from: string, to: string)
    requires from != ""
    ensures ReplaceAll(from + s, from, to) == to + ReplaceAll(s, from, to)
  {
    assert (from + s)[|from|..] == s;
  }

  lemma ReplaceSkip(c: char, s: string, from: string, to: string)
    requires |from| == 2 && (c == from[0] ==> s != "" && s[0] != from[1])
    ensures ReplaceAll([c] + s, from, to) == [c] + ReplaceAll(s, from, to)
  {
    assert s == "" || ([c] + s)[1] == s[0];
    assert ([c] + s)[1..] == s;
  }

  lemma {:induction false} UnescapeSecond(key: string)
    ensures ReplaceAll(ReplaceAll(key, "~", "~0"), "~0", "~") == key
  {
    if key != "" {
      ReplaceStep(key, "~", "~0");
      UnescapeSecond(key[1..]);
      var tail := ReplaceAll(key[1..], "~", "~0");
      assert key == [key[0]] + key[1..];
      if key[0] == '~' {
        assert ("~0" + tail)[2..] == tail;
      } else {
        assert ([key[0]] + tail)[1..] == tail;
      }
    }
  }

  lemma {:induction false} PathUnescapePlain(s: string)
    requires '%' !in s
    ensures PathUnescape(s) == Some(s)
  {
    if s != "" {
      PathUnescapePlain(s[1..]);
      assert s == [s[0]] + s[1..];
    }
  }

  const LOWER_HEX := "0123456789abcdef"
  const UPPER_HEX := "0123456789ABCDEF"

  /** The n-th of them stands for n. */
  predicate AreHexDigits(digits: string) {
    |digits| == 16 && forall n | 0 <= n < 16 :: IsHex(digits[n]) && HexValue(digits[n]) == n
  }

  lemma HexDigits()
    ensures AreHexDigits(LOWER_HEX) && AreHexDigits(UPPER_HEX)
  {
  }

  lemma HexIff(c: char)
    ensures IsHex(c) <==> c in LOWER_HEX || c in UPPER_HEX
  {
    if IsHex(c) {
      assert c == if c >= 'a' then LOWER_HEX[HexValue(c)] else UPPER_HEX[HexValue(c)];
    }
  }

  /** Every byte written as a percent sign and two hexadecimal digits. */
  function PercentEncoded(s: string, digits: string): string
    requires |digits| == 16 && forall i | 0 <= i < |s| :: s[i] as int < 256
  {
    if s == "" then ""
    else ['%', digits[s[0] as int / 16], digits[s[0] as int % 16]] + PercentEncoded(s[1..], digits)
  }

  /** Percent-encoding is undone, with the digits in either case. */
  lemma {:induction false} PercentRoundTrip(s: string, digits: string)
    requires AreHexDigits(digits) && forall i | 0 <= i < |s| :: s[i] as int < 256
    ensures PathUnescape(PercentEncoded(s, digits)) == Some(s)
  {
    if s != "" {
      var n := s[0] as int;
      PercentRoundTrip(s[1..], digits);
      UnescapeTriple(digits[n / 16], digits[n % 16], PercentEncoded(s[1..], digits));
      assert s == [s[0]] + s[1..];
    }
  }

  lemma {:induction false} UnescapeTriple(high: char, low: char, rest: string)
    requires IsHex(high) && IsHex(low) && PathUnescape(rest).Some?
    ensures PathUnescape(['%', high, low] + rest)
         == Some([(16 * HexValue(high) + HexValue(low)) as char] + PathUnescape(rest).value)
  {
    assert (['%', high, low] + rest)[3..] == rest;
  }

  /** A percent sign without two hexadecimal digits behind it. */
  predicate BadPercent(s: string, i: nat) {
    i < |s| && s[i] == '%' && !(i + 2 < |s| && IsHex(s[i + 1]) && IsHex(s[i + 2]))
  }

  /** A token fails to decode exactly when it has one. */
  lemma {:induction false} UndecodableIff(s: string)
    ensures PathUnescape(s).None? <==> exists i: nat :: BadPercent(s, i)
  {
    if s != "" {
      if BadPercent(s, 0) {
      } else {
        var n := if s[0] == '%' then 3 else 1;
        UndecodableIff(s[n..]);
        if i: nat :| BadPercent(s, i) { assert i >= n && BadPercent(s[n..], i - n); }
        if i: nat :| BadPercent(s[n..], i) { assert BadPercent(s, i + n); }
      }
    }
  }

  /** The number of places where `~` is followed by c. */
  ghost function Pairs(s: string, c: char): nat {
    if |s| < 2 then 0 else (if s[0] == '~' && s[1] == c then 1 else 0) + Pairs(s[1..], c)
  }

  lemma {:induction false} UnescapeLength(s: string)
    ensures |Unescape(s)| + Pairs(s, '1') + Pairs(s, '0') <= |s|
  {
    ReplaceLength(s, "~1", "/");
    ReplaceLength(ReplaceAll(s, "~1", "/"), "~0", "~");
    PairsKept(s);
  }

  lemma {:induction false} ReplaceLength(s: string, from: string, to: string)
    requires |from| == 2 && from[0] == '~' && from[1] != '~' && |to| == 1
    ensures |ReplaceAll(s, from, to)| + Pairs(s, from[1]) == |s|
  {
    if s != "" {
      if from <= s {
        assert s[1] == from[1] && s[1..][1..] == s[2..];
        ReplaceLength(s[2..], from, to);
      } else {
        ReplaceLength(s[1..], from, to);
      }
    }
  }

  lemma {:induction false} PairsKept(s: string)
    ensures Pairs(s, '0') <= Pairs(ReplaceAll(s, "~1", "/"), '0')
    ensures s != "" && s[0] == '0' ==> ReplaceAll(s, "~1", "/") != "" && ReplaceAll(s, "~1", "/")[0] == '0'
  {
    if s != "" {
      var r := ReplaceAll(s, "~1", "/");
      if "~1" <= s {
        assert s[1..][1..] == s[2..];
        PairsKept(s[2..]);
        assert r[1..] == ReplaceAll(s[2..], "~1", "/");
      } else {
        PairsKept(s[1..]);
        assert r[1..] == ReplaceAll(s[1..], "~1", "/");
      }
    }
  }

  /** Percent-decoding an escaped key leaves its escapes alone and loses characters for
      every '%', so it cannot give back a key that has one. */
  lemma {:induction false} PercentShrinks(key: string)
    requires PathUnescape(Escape(key)).Some?
    ensures var u := PathUnescape(Escape(key)).value;
            |u| <= |key| + Pairs(u, '1') + Pairs(u, '0') && ('%' in key ==> |u| < |key| + Pairs(u, '1') + Pairs(u, '0'))
  {
    if key != "" {
      EscapeCons(key);
      var u, tail := PathUnescape(Escape(key)).value, Escape(key[1..]);
      assert key == [key[0]] + key[1..];
      if key[0] == '%' {
        PercentTriple(key);
        PercentShrinks(key[3..]);
        assert u[1..] == PathUnescape(Escape(key[3..])).value;
      } else {
        var v := PathUnescape(tail).value;
        PercentShrinks(key[1..]);
        if key[0] == '~' || key[0] == '/' {
          var d := if key[0] == '~' then '0' else '1';
          assert Escape(key)[1..] == [d] + tail && ([d] + tail)[1..] == tail;
          assert PathUnescape([d] + tail) == Some([d] + v);
          assert u == ['~'] + ([d] + v);
          assert u[1..] == [d] + v && ([d] + v)[1..] == v;
        } else {
          assert u[1..] == v;
        }
      }
    }
  }

  /** A '%' or a hex digit in an escaped key is a character of the key itself. */
  lemma PlainStart(key: string)
    requires Escape(key) != "" && (Escape(key)[0] == '%' || IsHex(Escape(key)[0]))
    ensures key != "" && Escape(key)[1..] == Escape(key[1..])
  {
    if key != "" { EscapeCons(key); }
  }

  /** So are the two hex digits after a '%'. */
  lemma PercentTriple(key: string)
    requires key != "" && key[0] == '%' && PathUnescape(Escape(key)).Some?
    ensures |key| >= 3 && Escape(key)[3..] == Escape(key[3..])
  {
    var escaped := Escape(key);
    EscapeCons(key);
    assert escaped[0] == '%' && |escaped| >= 3 && IsHex(escaped[1]) && IsHex(escaped[2]);
    PlainStart(key);
    PlainStart(key[1..]);
    assert key[1..][1..] == key[2..] && escaped[1..][1..] == escaped[2..];
    PlainStart(key[2..]);
    assert key[2..][1..] == key[3..] && escaped[2..][1..] == escaped[3..];
  }

  /** Exactly the keys without '%' survive being written as a token and read back. */
  lemma TokenRoundTrip(key: string)
    ensures DecodeToken(Escape(key)) == Some(key) <==> '%' !in key
  {
    EscapeCharacters(key);
    if '%' !in key {
      PathUnescapePlain(Escape(key));
      UnescapeEscape(key);
    } else if PathUnescape(Escape(key)).Some? {
      PercentShrinks(key);
      UnescapeLength(PathUnescape(Escape(key)).value);
    }
  }
}
