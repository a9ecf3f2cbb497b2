/** Newline-delimited JSON: the reader of whole payloads and the reader of chunks
    (`parseNDJSONStream`), and exactly when they yield the same values. */
module Ndjson {
  import opened Results
  import opened Sequences
  import opened Utf8

  const NEWLINE: nat := 0x0A

  // ---------- whitespace ----------

  /** Section 2 of RFC 8259. */
  predicate IsJsonSpace(p: nat) {
    p == 0x20 || p == 0x09 || p == 0x0A || p == 0x0D
  }

  /** What String.prototype.trim removes: the JSON whitespace and more. */
  predicate IsSpace(p: nat) {
    || IsJsonSpace(p)
    || p == 0x0B || p == 0x0C || p == 0xA0 || p == 0x1680 || 0x2000 <= p <= 0x200A
    || p == 0x2028 || p == 0x2029 || p == 0x202F || p == 0x205F || p == 0x3000 || p == BOM
  }

  /** These are 25 characters. */
  lemma SpacesAre(p: nat)
    ensures IsSpace(p) <==> p in {
        0x09, 0x0A, 0x0B, 0x0C, 0x0D, 0x20, 0xA0, 0x1680, 0x2000, 0x2001, 0x2002, 0x2003, 0x2004, 0x2005, 0x2006,
        0x2007, 0x2008, 0x2009, 0x200A, 0x2028, 0x2029, 0x202F, 0x205F, 0x3000, 0xFEFF}
  {
  }

  function TrimStart(t: Text): Text {
    if t != [] && IsSpace(t[0]) then TrimStart(t[1..]) else t
  }

  function TrimEnd(t: Text): Text {
    if t != [] && IsSpace(t[|t| - 1]) then TrimEnd(t[..|t| - 1]) else t
  }

  function Trim(t: Text): Text { TrimEnd(TrimStart(t)) }

  predicate AllSpace(t: Text) { forall i | 0 <= i < |t| :: IsSpace(t[i]) }

  predicate SolidEdges(t: Text) { t != [] ==> !IsSpace(t[0]) && !IsSpace(t[|t| - 1]) }

  lemma {:induction false} TrimStartIs(t: Text) returns (l: Text)
    ensures AllSpace(l) && t == l + TrimStart(t) && (TrimStart(t) != [] ==> !IsSpace(TrimStart(t)[0]))
  {
    if t != [] && IsSpace(t[0]) {
      var m := TrimStartIs(t[1..]);
      l := [t[0]] + m;
      assert t == [t[0]] + t[1..];
    } else {
      l := [];
    }
  }

  lemma {:induction false} TrimEndIs(t: Text) returns (r: Text)
    ensures AllSpace(r) && t == TrimEnd(t) + r
    ensures TrimEnd(t) != [] ==> !IsSpace(TrimEnd(t)[|TrimEnd(t)| - 1])
  {
    if t != [] && IsSpace(t[|t| - 1]) {
      var m := TrimEndIs(t[..|t| - 1]);
      r := m + [t[|t| - 1]];
      assert t == t[..|t| - 1] + [t[|t| - 1]];
    } else {
      r := [];
    }
  }

  /** Trimming takes the white space off both ends, and nothing else. */
  lemma TrimIs(t: Text) returns (l: Text, r: Text)
    ensures AllSpace(l) && AllSpace(r) && t == l + Trim(t) + r && SolidEdges(Trim(t))
  {
    l := TrimStartIs(t);
    r := TrimEndIs(TrimStart(t));
    Regroup(l, Trim(t), r);
    if Trim(t) != [] { assert Trim(t)[0] == TrimStart(t)[0]; }
  }

  // ---------- lines ----------

  /** text.split("\n") */
  function Lines(text: Text): (lines: seq<Text>)
    ensures lines != []
  {
    if text == [] then [[]]
    else
      var rest := Lines(text[1..]);
      if text[0] == NEWLINE then [[]] + rest
      else [[text[0]] + rest[0]] + rest[1..]
  }

  function Last(lines: seq<Text>): Text
    requires lines != []
  {
    lines[|lines| - 1]
  }

  function AllButLast(lines: seq<Text>): seq<Text>
    requires lines != []
  {
    lines[..|lines| - 1]
  }

  /** Two lists of lines joined in the middle of a line. */
  function Glue(a: seq<Text>, b: seq<Text>): seq<Text>
    requires a != [] && b != []
  {
    AllButLast(a) + [Last(a) + b[0]] + b[1..]
  }

  lemma {:induction false} LinesGlue(a: Text, b: Text)
    ensures Lines(a + b) == Glue(Lines(a), Lines(b))
  {
    if a == [] {
      assert a + b == b;
      assert [] + Lines(b)[0] == Lines(b)[0];
    } else {
      LinesGlue(a[1..], b);
      assert (a + b)[1..] == a[1..] + b;
      GlueCons(a[0], Lines(a[1..]), Lines(b));
    }
  }

  function Cons(p: nat, lines: seq<Text>): seq<Text>
    requires lines != []
  {
    if p == NEWLINE then [[]] + lines else [[p] + lines[0]] + lines[1..]
  }

  lemma GlueInside(first: Text, inner: seq<Text>, last: Text, b: seq<Text>)
    requires b != []
    ensures Glue([first] + inner + [last], b) == [first] + (inner + [last + b[0]] + b[1..])
  {
    assert AllButLast([first] + inner + [last]) == [first] + inner;
  }

  lemma GlueCons(p: nat, a: seq<Text>, b: seq<Text>)
    requires a != [] && b != []
    ensures Cons(p, Glue(a, b)) == Glue(Cons(p, a), b)
  {
    if p == NEWLINE {
      GlueInside([], AllButLast(a), Last(a), b);
      assert Cons(p, a) == [[]] + AllButLast(a) + [Last(a)];
    } else if |a| == 1 {
      Regroup([p], a[0], b[0]);
      assert Glue(a, b) == [a[0] + b[0]] + b[1..];
    } else {
      GlueInside(a[0], a[1..|a| - 1], Last(a), b);
      GlueInside([p] + a[0], a[1..|a| - 1], Last(a), b);
      assert a == [a[0]] + a[1..|a| - 1] + [Last(a)];
      assert Cons(p, a) == [[p] + a[0]] + a[1..|a| - 1] + [Last(a)];
    }
  }

  lemma GlueLast(a: seq<Text>, b: seq<Text>)
    requires a != [] && b != []
    ensures Glue(a, b) == AllButLast(a) + Glue([Last(a)], b)
  {
  }

  /** Appending text only changes and extends the last line. */
  lemma LinesAppend(a: Text, b: Text)
    ensures Lines(a + b) == AllButLast(Lines(a)) + Lines(Last(Lines(a)) + b)
  {
    var last := Last(Lines(a));
    LinesGlue(a, b);
    GlueLast(Lines(a), Lines(b));
    LastHasNoNewline(a);
    SingleLine(last);
    LinesGlue(last, b);
  }

  function JoinLines(lines: seq<Text>): Text
    requires lines != []
  {
    if |lines| == 1 then lines[0] else lines[0] + [NEWLINE] + JoinLines(lines[1..])
  }

  /** The lines have no line ends in them, and make up the text when they are joined by those. */
  lemma {:induction false} LinesJoin(text: Text)
    ensures JoinLines(Lines(text)) == text
    ensures forall i | 0 <= i < |Lines(text)| :: NEWLINE !in Lines(text)[i]
  {
    if text != [] {
      var rest := Lines(text[1..]);
      LinesJoin(text[1..]);
      JoinCons(text[0], rest);
      assert text == [text[0]] + text[1..];
    }
  }

  lemma JoinCons(p: nat, rest: seq<Text>)
    requires rest != []
    ensures JoinLines(Cons(p, rest)) == [p] + JoinLines(rest)
  {
    if p == NEWLINE {
      assert ([[]] + rest)[1..] == rest && [] + [NEWLINE] == [NEWLINE];
    } else if |rest| > 1 {
      assert ([[p] + rest[0]] + rest[1..])[1..] == rest[1..];
    }
  }

  // ---------- parsing lines ----------

  /** A JSON parser, kept abstract: JSON whitespace around a text is ignored, and no text
      starts or ends with any other whitespace (section 2 of RFC 8259). */
  ghost predicate IsJsonParser<V(!new)>(parse: Text -> Option<V>) {
    && (forall t: Text, p: nat | IsJsonSpace(p) :: parse([p] + t) == parse(t) && parse(t + [p]) == parse(t))
    && (forall t: Text | t != [] && IsSpace(t[0]) && !IsJsonSpace(t[0]) :: parse(t).None?)
    && (forall t: Text | t != [] && IsSpace(t[|t| - 1]) && !IsJsonSpace(t[|t| - 1]) :: parse(t).None?)
  }

  function Value<V>(parsed: Option<V>): seq<V> {
    match parsed
    case Some(v) => [v]
    case None => []
  }

  /** A line yields its value; a blank or unparsable line yields nothing. */
  function LineValue<V>(parse: Text -> Option<V>, line: Text): seq<V> {
    if Trim(line) == [] then [] else Value(parse(Trim(line)))
  }

  function LineValues<V>(parse: Text -> Option<V>, lines: seq<Text>): seq<V> {
    if lines == [] then []
    else LineValues(parse, AllButLast(lines)) + LineValue(parse, Last(lines))
  }

  /** What is left in the buffer at the end is parsed as it is, not trimmed. */
  function FinalValue<V>(parse: Text -> Option<V>, buffer: Text): seq<V> {
    if Trim(buffer) == [] then [] else Value(parse(buffer))
  }

  lemma {:induction false} LineValuesAppend<V>(parse: Text -> Option<V>, a: seq<Text>, b: seq<Text>)
    ensures LineValues(parse, a + b) == LineValues(parse, a) + LineValues(parse, b)
  {
    if b == [] {
      assert a + b == a;
    } else {
      LineValuesAppend(parse, a, AllButLast(b));
      assert AllButLast(a + b) == a + AllButLast(b) && Last(a + b) == Last(b);
      Regroup(LineValues(parse, a), LineValues(parse, AllButLast(b)), LineValue(parse, Last(b)));
    }
  }

  // ---------- the two readers, as functions of the text ----------

  function Whole<V>(parse: Text -> Option<V>, text: Text): seq<V> {
    LineValues(parse, Lines(text))
  }

  function Complete<V>(parse: Text -> Option<V>, text: Text): seq<V> {
    LineValues(parse, AllButLast(Lines(text)))
  }

  function Streamed<V>(parse: Text -> Option<V>, text: Text): seq<V> {
    Complete(parse, text) + FinalValue(parse, Last(Lines(text)))
  }

  // ---------- the two readers, as the code runs them ----------

  /** A chunk of the source: bytes, or a string that is encoded first. */
  datatype Chunk = Bytes(bytes: seq<Byte>) | String(units: seq<CodeUnit>)

  function ChunkBytes(chunk: Chunk): seq<Byte> {
    match chunk
    case Bytes(bytes) => bytes
    case String(units) => EncodeAll(Scalars(units))
  }

  function Payload(chunks: seq<Chunk>): seq<Byte> {
    if chunks == [] then []
    else Payload(chunks[..|chunks| - 1]) + ChunkBytes(chunks[|chunks| - 1])
  }

  method YieldLines<V>(parse: Text -> Option<V>, lines: seq<Text>) returns (out: seq<V>)
    ensures out == LineValues(parse, lines)
  {
    out := [];
    for i := 0 to |lines|
      invariant out == LineValues(parse, lines[..i])
    {
      assert AllButLast(lines[..i + 1]) == lines[..i];
      var trimmed := Trim(lines[i]);
      if trimmed != [] {
        var parsed := parse(trimmed);
        if parsed.Some? {
          out := out + [parsed.value];
        }
      }
    }
    assert lines[..|lines|] == lines;
  }

  /** The text of a whole payload: bytes are decoded, a string is taken as it is. */
  function PayloadText(payload: Chunk): Text {
    match payload
    case Bytes(bytes) => Decode(bytes)
    case String(units) => Points(units)
  }

  method ParsePayload<V>(parse: Text -> Option<V>, payload: Chunk) returns (out: seq<V>)
    ensures out == Whole(parse, PayloadText(payload))
  {
    var text;
    if payload.String? {
      text := Points(payload.units);
    } else {
      text := Decode(payload.bytes);
    }
    out := YieldLines(parse, Lines(text));
  }

  /** Reads a source that delivers these chunks and then ends, or fails. When it fails, the
      values of the complete lines so far have been yielded. */
  method ParseStream<V>(parse: Text -> Option<V>, chunks: seq<Chunk>, fails: bool) returns (out: seq<V>)
    ensures !fails ==> out == Streamed(parse, Decode(Payload(chunks)))
    ensures fails ==> out == Complete(parse, DecodeChunk(INITIAL, Payload(chunks)).1)
  {
    var decoder, buffer := INITIAL, [];
    out := [];
    ghost var text := [];
    assert Lines(text) == [[]];
    for i := 0 to |chunks|
      invariant DecodeChunk(INITIAL, Payload(chunks[..i])) == (decoder, text)
      invariant buffer == Last(Lines(text))
      invariant out == Complete(parse, text)
    {
      assert chunks[..i + 1][..i] == chunks[..i];
      var bytes := ChunkBytes(chunks[i]);
      DecodeChunkAppend(INITIAL, Payload(chunks[..i]), bytes);
      var (next, decoded) := DecodeChunk(decoder, bytes);
      BufferStep(parse, text, decoded);
      buffer := buffer + decoded;
      var lines := Lines(buffer);
      buffer := Last(lines);
      var values := YieldLines(parse, AllButLast(lines));
      out := out + values;
      decoder, text := next, text + decoded;
    }
    assert chunks[..|chunks|] == chunks;
    if fails {
      return;
    }
    BufferFlush(parse, text, decoder);
    buffer := buffer + Flush(decoder);
    if Trim(buffer) != [] {
      var parsed := parse(buffer);
      if parsed.Some? {
        out := out + [parsed.value];
      }
    }
  }

  lemma BufferStep<V>(parse: Text -> Option<V>, text: Text, decoded: Text)
    ensures var lines := Lines(Last(Lines(text)) + decoded);
            && Last(Lines(text + decoded)) == Last(lines)
            && Complete(parse, text + decoded) == Complete(parse, text) + LineValues(parse, AllButLast(lines))
  {
    LinesAppend(text, decoded);
    var lines := Lines(Last(Lines(text)) + decoded);
    assert AllButLast(Lines(text + decoded)) == AllButLast(Lines(text)) + AllButLast(lines);
    LineValuesAppend(parse, AllButLast(Lines(text)), AllButLast(lines));
  }

  /** Flushing the decoder adds no line end, so it only changes the last line. */
  lemma BufferFlush<V>(parse: Text -> Option<V>, text: Text, s: State)
    ensures Last(Lines(text + Flush(s))) == Last(Lines(text)) + Flush(s)
    ensures Complete(parse, text + Flush(s)) == Complete(parse, text)
  {
    BufferStep(parse, text, Flush(s));
    NoNewline(Last(Lines(text)) + Flush(s), text, s);
    var line := Last(Lines(text)) + Flush(s);
    assert AllButLast([line]) == [];
    assert Complete(parse, text) + [] == Complete(parse, text);
  }

  lemma NoNewline(line: Text, text: Text, s: State)
    requires line == Last(Lines(text)) + Flush(s)
    ensures Lines(line) == [line]
  {
    LastHasNoNewline(text);
    SingleLine(line);
  }

  lemma {:induction false} LastHasNoNewline(text: Text)
    ensures NEWLINE !in Last(Lines(text))
    ensures |Lines(text)| == 1 ==> Lines(text)[0] == text
  {
    if text != [] {
      LastHasNoNewline(text[1..]);
      assert text == [text[0]] + text[1..];
    }
  }

  lemma {:induction false} SingleLine(line: Text)
    requires NEWLINE !in line
    ensures Lines(line) == [line]
  {
    if line != [] {
      SingleLine(line[1..]);
      assert line == [line[0]] + line[1..];
    }
  }

  // ---------- when the readers agree ----------

  /** Everything trimmed off the start of the text is JSON whitespace. */
  predicate StartIsJson(t: Text) {
    t != [] && IsSpace(t[0]) ==> IsJsonSpace(t[0]) && StartIsJson(t[1..])
  }

  predicate EndIsJson(t: Text) {
    t != [] && IsSpace(t[|t| - 1]) ==> IsJsonSpace(t[|t| - 1]) && EndIsJson(t[..|t| - 1])
  }

  predicate EdgesAreJson(t: Text) {
    StartIsJson(t) && EndIsJson(TrimStart(t))
  }

  lemma {:induction false} ParseTrimEnd<V(!new)>(parse: Text -> Option<V>, t: Text)
    requires IsJsonParser(parse)
    ensures EndIsJson(t) ==> parse(t) == parse(TrimEnd(t))
    ensures !EndIsJson(t) ==> parse(t).None?
  {
    if t != [] && IsSpace(t[|t| - 1]) {
      var init := t[..|t| - 1];
      assert t == init + [t[|t| - 1]];
      ParseTrimEnd(parse, init);
    }
  }

  lemma {:induction false} ParseTrimStart<V(!new)>(parse: Text -> Option<V>, t: Text)
    requires IsJsonParser(parse)
    ensures StartIsJson(t) ==> parse(t) == parse(TrimStart(t))
    ensures !StartIsJson(t) ==> parse(t).None?
  {
    if t != [] && IsSpace(t[0]) {
      assert t == [t[0]] + t[1..];
      ParseTrimStart(parse, t[1..]);
    }
  }

  lemma ParseUntrimmed<V(!new)>(parse: Text -> Option<V>, t: Text)
    requires IsJsonParser(parse)
    ensures parse(t) == if EdgesAreJson(t) then parse(Trim(t)) else None
  {
    ParseTrimStart(parse, t);
    ParseTrimEnd(parse, TrimStart(t));
  }

  /** The chunked reader yields exactly what the reader of whole payloads yields, wherever
      the payload is cut, if and only if its last line is blank, is not JSON, or has only
      JSON whitespace around its JSON. */
  lemma ReadersAgree<V(!new)>(parse: Text -> Option<V>, bytes: seq<Byte>)
    requires IsJsonParser(parse)
    ensures var last := Last(Lines(Decode(bytes)));
            Streamed(parse, Decode(bytes)) == Whole(parse, Decode(bytes))
            <==> Trim(last) == [] || parse(Trim(last)).None? || EdgesAreJson(last)
  {
    var last := Last(Lines(Decode(bytes)));
    ParseUntrimmed(parse, last);
    SamePrefix(Complete(parse, Decode(bytes)), FinalValue(parse, last), LineValue(parse, last));
  }

  /** In particular a payload that ends with a line end, or whose whitespace is all JSON
      whitespace, is read the same both ways. */
  lemma ReadersAgreeOnJsonSpace<V(!new)>(parse: Text -> Option<V>, bytes: seq<Byte>)
    requires IsJsonParser(parse)
    requires forall p | p in Last(Lines(Decode(bytes))) && IsSpace(p) :: IsJsonSpace(p)
    ensures Streamed(parse, Decode(bytes)) == Whole(parse, Decode(bytes))
  {
    var last := Last(Lines(Decode(bytes)));
    PlainStart(last);
    PlainEnd(TrimStart(last));
    ReadersAgree(parse, bytes);
  }

  lemma {:induction false} PlainStart(t: Text)
    requires forall p | p in t && IsSpace(p) :: IsJsonSpace(p)
    ensures StartIsJson(t)
    ensures forall p | p in TrimStart(t) :: p in t
  {
    if t != [] && IsSpace(t[0]) { PlainStart(t[1..]); }
  }

  lemma {:induction false} PlainEnd(t: Text)
    requires forall p | p in t && IsSpace(p) :: IsJsonSpace(p)
    ensures EndIsJson(t)
  {
    if t != [] && IsSpace(t[|t| - 1]) { PlainEnd(t[..|t| - 1]); }
  }

  /** A payload the readers disagree on: `0` and a no-break space, without a line end. */
  lemma NoBreakSpaceIsLost<V(!new)>(parse: Text -> Option<V>)
    requires IsJsonParser(parse) && parse([0x30]).Some?
    ensures var text := Decode([0x30, 0xC2, 0xA0]);
            Whole(parse, text) == [parse([0x30]).value] && Streamed(parse, text) == []
  {
    var text := [0x30, 0xA0];
    DecodeZeroSpace();
    SingleLine(text);
    assert AllButLast([text]) == [];
    assert text[..1] == [0x30];
    assert TrimStart(text) == text && TrimEnd(text) == TrimEnd([0x30]);
    assert !EndIsJson(text);
    ParseUntrimmed(parse, text);
  }

  lemma DecodeZeroSpace()
    ensures Decode([0x30, 0xC2, 0xA0]) == [0x30, 0xA0]
  {
    var scalars: seq<Scalar> := [0x30, 0xA0];
    assert scalars[1..] == [0xA0] && scalars[1..][1..] == [];
    assert EncodeAll(scalars[1..]) == Encode(0xA0) + [];
    assert EncodeAll(scalars) == [0x30, 0xC2, 0xA0];
    DecodeUndoesEncode(scalars);
  }

  // ---------- what has been yielded stays a prefix ----------

  /** Whatever has been yielded when the source fails is the beginning of what the whole
      payload would have yielded, however it would have gone on. */
  lemma YieldedIsPrefix<V>(parse: Text -> Option<V>, read: seq<Byte>, unread: seq<Byte>)
    ensures Complete(parse, DecodeChunk(INITIAL, read).1) <= Whole(parse, Decode(read + unread))
  {
    DecodeChunkAppend(INITIAL, read, unread);
    var text := DecodeChunk(INITIAL, read).1;
    var more := Decode(read + unread)[|text|..];
    assert Decode(read + unread) == text + more;
    BufferStep(parse, text, more);
  }

  /** Cutting a string payload into string chunks changes no byte, unless a cut falls inside
      a surrogate pair. */
  lemma StringChunks(a: seq<CodeUnit>, b: seq<CodeUnit>)
    ensures !CutsPair(a, b) ==> ChunkBytes(String(a + b)) == Payload([String(a), String(b)])
  {
    if !CutsPair(a, b) {
      ScalarsAppend(a, b);
      EncodeAllAppend(Scalars(a), Scalars(b));
      PayloadOfTwo(String(a), String(b));
    }
  }

  lemma PayloadOfTwo(a: Chunk, b: Chunk)
    ensures Payload([a, b]) == ChunkBytes(a) + ChunkBytes(b)
  {
    var one, two := [a], [a, b];
    assert two[..|two| - 1] == one && two[|two| - 1] == b;
    assert one[..|one| - 1] == [] && one[|one| - 1] == a;
    assert Payload(one) == [] + ChunkBytes(a) == ChunkBytes(a);
  }

  lemma {:induction false} EncodeAllAppend(a: seq<Scalar>, b: seq<Scalar>)
    ensures EncodeAll(a + b) == EncodeAll(a) + EncodeAll(b)
  {
    if a == [] {
      assert a + b == b;
    } else {
      EncodeAllAppend(a[1..], b);
      assert (a + b)[1..] == a[1..] + b && (a + b)[0] == a[0];
      Regroup(Encode(a[0]), EncodeAll(a[1..]), EncodeAll(b));
    }
  }

  // ---------- a string as a whole, and in chunks ----------

  /** The string that string chunks make up. */
  function Joined(chunks: seq<Chunk>): seq<CodeUnit>
    requires forall i | 0 <= i < |chunks| :: chunks[i].String?
  {
    if chunks == [] then [] else Joined(chunks[..|chunks| - 1]) + chunks[|chunks| - 1].units
  }

  /** What the decoder makes of string chunks, a byte order mark included. */
  function Transcoded(chunks: seq<Chunk>): seq<Scalar>
    requires forall i | 0 <= i < |chunks| :: chunks[i].String?
  {
    if chunks == [] then [] else Transcoded(chunks[..|chunks| - 1]) + Scalars(chunks[|chunks| - 1].units)
  }

  lemma {:induction false} PayloadTranscoded(chunks: seq<Chunk>)
    requires forall i | 0 <= i < |chunks| :: chunks[i].String?
    ensures Payload(chunks) == EncodeAll(Transcoded(chunks))
  {
    if chunks != [] {
      PayloadTranscoded(chunks[..|chunks| - 1]);
      EncodeAllAppend(Transcoded(chunks[..|chunks| - 1]), Scalars(chunks[|chunks| - 1].units));
    }
  }

  ghost predicate AllWellFormed(chunks: seq<Chunk>) {
    forall i | 0 <= i < |chunks| :: chunks[i].String? && WellFormed(chunks[i].units)
  }

  lemma {:induction false} JoinedWellFormed(chunks: seq<Chunk>)
    requires AllWellFormed(chunks)
    ensures WellFormed(Joined(chunks))
  {
    if chunks != [] {
      JoinedWellFormed(chunks[..|chunks| - 1]);
      WellFormedAppend(Joined(chunks[..|chunks| - 1]), chunks[|chunks| - 1].units);
    }
  }

  /** Sequences of which the first is no longer than the third. */
  lemma SameParts(a: Text, b: Text, c: Text, d: Text)
    requires |a| <= |c| && |b| == |d|
    ensures a + b == c + d <==> a == c && b == d
  {
    if a + b == c + d {
      assert a == (a + b)[..|a|] && c == (c + d)[..|c|];
      assert b == (a + b)[|a|..] && d == (c + d)[|c|..];
    }
  }

  /** The chunks decode to the string they make up exactly when each of them is well-formed:
      an unpaired surrogate is replaced, and each half of a pair that is cut is unpaired. */
  lemma {:induction false} TranscodedIff(chunks: seq<Chunk>)
    requires forall i | 0 <= i < |chunks| :: chunks[i].String?
    ensures |Points(Joined(chunks))| <= |Transcoded(chunks)|
    ensures Points(Joined(chunks)) == Transcoded(chunks) <==> AllWellFormed(chunks)
  {
    if chunks != [] {
      var init, units := chunks[..|chunks| - 1], chunks[|chunks| - 1].units;
      TranscodedIff(init);
      assert AllWellFormed(chunks) <==> AllWellFormed(init) && WellFormed(units);
      ChunkTranscoded(init, units);
    }
  }

  lemma ChunkTranscoded(init: seq<Chunk>, units: seq<CodeUnit>)
    requires forall i | 0 <= i < |init| :: init[i].String?
    requires |Points(Joined(init))| <= |Transcoded(init)|
    requires Points(Joined(init)) == Transcoded(init) <==> AllWellFormed(init)
    ensures |Points(Joined(init) + units)| <= |Transcoded(init) + Scalars(units)|
    ensures Points(Joined(init) + units) == Transcoded(init) + Scalars(units)
            <==> AllWellFormed(init) && WellFormed(units)
  {
    var before := Joined(init);
    PointsAreScalarsIff(units);
    if CutsPair(before, units) {
      PointsAreScalarsIff(before);
      PointsAreScalarsIff(before + units);
      ScalarsParts(before, units);
      if AllWellFormed(init) && WellFormed(units) {
        JoinedWellFormed(init);
        WellFormedAppend(before, units);
      }
    } else {
      PointsAppend(before, units);
      SameParts(Points(before), Points(units), Transcoded(init), Scalars(units));
    }
  }

  lemma {:induction false} SameMark(chunks: seq<Chunk>)
    requires forall i | 0 <= i < |chunks| :: chunks[i].String?
    ensures var a, b := Transcoded(chunks), Joined(chunks);
            (a == [] <==> b == []) && (a != [] ==> (a[0] == BOM <==> b[0] == BOM))
  {
    if chunks != [] {
      SameMark(chunks[..|chunks| - 1]);
      var before, units := Joined(chunks[..|chunks| - 1]), chunks[|chunks| - 1].units;
      var decoded := Transcoded(chunks[..|chunks| - 1]);
      if before == [] {
        assert before + units == units && decoded + Scalars(units) == Scalars(units);
        assert units != [] ==> Scalars(units)[0] == FirstScalar(units);
      } else {
        assert (before + units)[0] == before[0] && (decoded + Scalars(units))[0] == decoded[0];
      }
    }
  }

  /** A string read in chunks decodes to the very string, but for a leading byte order mark, if
      and only if every chunk is well-formed. */
  lemma StringTextsAgreeIff(chunks: seq<Chunk>)
    requires forall i | 0 <= i < |chunks| :: chunks[i].String?
    ensures Decode(Payload(chunks)) == DropBom(false, PayloadText(String(Joined(chunks)))) <==> AllWellFormed(chunks)
  {
    PayloadTranscoded(chunks);
    DecodeUndoesEncode(Transcoded(chunks));
    TranscodedIff(chunks);
    SameMark(chunks);
    SameTail(Transcoded(chunks), Points(Joined(chunks)));
  }

  lemma SameTail(a: Text, b: Text)
    requires (a == [] <==> b == []) && (a != [] ==> (a[0] == BOM <==> b[0] == BOM))
    ensures DropBom(false, a) == DropBom(false, b) <==> a == b
  {
    if a != [] {
      SameCons(a[0], a[1..], b[0], b[1..]);
      assert a == [a[0]] + a[1..] && b == [b[0]] + b[1..];
    }
  }

  lemma LoneHalf(unit: CodeUnit)
    requires High(unit) || Low(unit)
    ensures Scalars([unit]) == [REPLACEMENT]
  {
    assert [unit][1..] == [];
  }

  lemma PairPoint(high: CodeUnit, low: CodeUnit)
    requires High(high) && Low(low)
    ensures Points([high, low]) == [FirstScalar([high, low])]
  {
    assert [high, low][2..] == [];
  }

  lemma TwoStrings(a: seq<CodeUnit>, b: seq<CodeUnit>)
    ensures Joined([String(a), String(b)]) == a + b
    ensures Decode(Payload([String(a), String(b)])) == DropBom(false, Scalars(a) + Scalars(b))
  {
    var one, two := [String(a)], [String(a), String(b)];
    assert two[..1] == one && one[..0] == [];
    assert Joined(one) == [] + a == a && Transcoded(one) == [] + Scalars(a) == Scalars(a);
    PayloadTranscoded(two);
    DecodeUndoesEncode(Transcoded(two));
  }

  /** A cut inside a surrogate pair: U+1F600 comes out as two replacement characters. */
  lemma CutPairIsLost()
    ensures var chunks := [String([0xD83D]), String([0xDE00])];
            && PayloadText(String(Joined(chunks))) == [0x1F600]
            && Decode(Payload(chunks)) == [REPLACEMENT, REPLACEMENT]
  {
    CutPair(0xD83D, 0xDE00);
  }

  lemma CutPair(high: CodeUnit, low: CodeUnit)
    requires High(high) && Low(low)
    ensures var chunks := [String([high]), String([low])];
            && PayloadText(String(Joined(chunks))) == [FirstScalar([high, low])]
            && Decode(Payload(chunks)) == [REPLACEMENT, REPLACEMENT]
  {
    TwoStrings([high], [low]);
    LoneHalf(high);
    LoneHalf(low);
    PairPoint(high, low);
    assert [high] + [low] == [high, low];
    assert [REPLACEMENT] + [REPLACEMENT] == [REPLACEMENT, REPLACEMENT];
  }

  /** A leading byte order mark is white space of the first line, so dropping it changes
      nothing. */
  lemma BomIsTrimmed<V>(parse: Text -> Option<V>, text: Text)
    ensures Whole(parse, DropBom(false, text)) == Whole(parse, text)
  {
    if text != [] && text[0] == BOM {
      var lines := Lines(text[1..]);
      FirstLine(parse, [BOM] + lines[0], lines[1..]);
      FirstLine(parse, lines[0], lines[1..]);
      assert lines == [lines[0]] + lines[1..];
      BomBeforeLine(lines[0]);
    }
  }

  lemma FirstLine<V>(parse: Text -> Option<V>, line: Text, lines: seq<Text>)
    ensures LineValues(parse, [line] + lines) == LineValue(parse, line) + LineValues(parse, lines)
  {
    LineValuesAppend(parse, [line], lines);
    assert AllButLast([line]) == [];
    assert [] + LineValue(parse, line) == LineValue(parse, line);
  }

  lemma BomBeforeLine(line: Text)
    ensures Trim([BOM] + line) == Trim(line)
  {
    assert ([BOM] + line)[1..] == line;
  }

  /** A string read in well-formed chunks yields what the string as a whole yields, wherever it
      is cut into them, if and only if the last line is blank, is not JSON, or has only JSON
      white space around its JSON; although its chunks are encoded and decoded again, and the
      string as a whole is not. Other chunks do not even decode to the string's text. */
  lemma StringReadersAgree<V(!new)>(parse: Text -> Option<V>, chunks: seq<Chunk>)
    requires IsJsonParser(parse)
    requires forall i | 0 <= i < |chunks| :: chunks[i].String?
    ensures var text, whole := Decode(Payload(chunks)), PayloadText(String(Joined(chunks)));
            if AllWellFormed(chunks) then
              Streamed(parse, text) == Whole(parse, whole)
              <==> Trim(Last(Lines(text))) == [] || parse(Trim(Last(Lines(text)))).None?
                   || EdgesAreJson(Last(Lines(text)))
            else text != DropBom(false, whole)
  {
    StringTextsAgreeIff(chunks);
    if AllWellFormed(chunks) {
      BomIsTrimmed(parse, Points(Joined(chunks)));
      ReadersAgree(parse, Payload(chunks));
    }
  }

  // ---------- what is written is read ----------

  /** A text that ends every line. */
  function Written(lines: seq<Text>): Text {
    if lines == [] then [] else Written(AllButLast(lines)) + (Last(lines) + [NEWLINE])
  }

  lemma {:induction false} WrittenLines(lines: seq<Text>)
    requires forall i | 0 <= i < |lines| :: NEWLINE !in lines[i]
    ensures Lines(Written(lines)) == lines + [[]]
  {
    if lines != [] {
      var before, last := AllButLast(lines), Last(lines);
      WrittenLines(before);
      LinesAppend(Written(before), last + [NEWLINE]);
      EndedLine(last);
      assert AllButLast(before + [[]]) == before && Last(before + [[]]) == [];
      assert [] + (last + [NEWLINE]) == last + [NEWLINE];
      assert lines == before + [last];
    }
  }

  lemma EndedLine(line: Text)
    requires NEWLINE !in line
    ensures Lines(line + [NEWLINE]) == [line, []]
  {
    SingleLine(line);
    LinesGlue(line, [NEWLINE]);
    assert [NEWLINE][1..] == [] && Lines([NEWLINE]) == [[]] + [[]];
    assert line + [] == line;
  }

  /** JSON without white space around it, or nothing but white space. */
  predicate Tidy(line: Text) { NEWLINE !in line && (AllSpace(line) || SolidEdges(line)) }

  /** The values of the lines that have one, in order. */
  function ValuesOf<V>(parse: Text -> Option<V>, lines: seq<Text>): seq<V> {
    if lines == [] then []
    else
      var before, last := AllButLast(lines), Last(lines);
      if AllSpace(last) || parse(last).None? then ValuesOf(parse, before)
      else ValuesOf(parse, before) + [parse(last).value]
  }

  lemma TidyLine<V>(parse: Text -> Option<V>, line: Text)
    requires Tidy(line)
    ensures LineValue(parse, line) == if AllSpace(line) || parse(line).None? then [] else [parse(line).value]
  {
    if AllSpace(line) {
      SpacesTrim(line);
    } else {
      assert Trim(line) == line;
    }
  }

  lemma {:induction false} SpacesTrim(t: Text)
    requires AllSpace(t)
    ensures TrimStart(t) == [] == Trim(t)
  {
    if t != [] { SpacesTrim(t[1..]); }
  }

  lemma {:induction false} TidyLines<V>(parse: Text -> Option<V>, lines: seq<Text>)
    requires forall i | 0 <= i < |lines| :: Tidy(lines[i])
    ensures LineValues(parse, lines) == ValuesOf(parse, lines)
  {
    if lines != [] {
      TidyLines(parse, AllButLast(lines));
      TidyLine(parse, Last(lines));
    }
  }

  lemma WrittenAndRest(lines: seq<Text>, rest: Text)
    requires (forall i | 0 <= i < |lines| :: NEWLINE !in lines[i]) && NEWLINE !in rest
    ensures Lines(Written(lines) + rest) == lines + [rest]
  {
    WrittenLines(lines);
    LinesAppend(Written(lines), rest);
    SingleLine(rest);
    assert AllButLast(lines + [[]]) == lines && Last(lines + [[]]) == [] && [] + rest == rest;
  }

  /** When the source fails, the values of the lines that were complete have been yielded; when it
      ends, a tidy last line is read like the others, though no line end follows it. */
  lemma CompleteLinesAreRead<V>(parse: Text -> Option<V>, lines: seq<Text>, rest: Text)
    requires (forall i | 0 <= i < |lines| :: Tidy(lines[i])) && NEWLINE !in rest
    ensures Complete(parse, Written(lines) + rest) == ValuesOf(parse, lines)
    ensures Tidy(rest) ==> Streamed(parse, Written(lines) + rest) == ValuesOf(parse, lines + [rest])
  {
    WrittenAndRest(lines, rest);
    TidyLines(parse, lines);
    ValuesOfLast(parse, lines, rest);
    if Tidy(rest) { TidyRest(parse, rest); }
  }

  lemma {:induction false} ValuesOfLast<V>(parse: Text -> Option<V>, lines: seq<Text>, rest: Text)
    ensures AllButLast(lines + [rest]) == lines && Last(lines + [rest]) == rest
    ensures ValuesOf(parse, lines + [rest]) ==
              if AllSpace(rest) || parse(rest).None? then ValuesOf(parse, lines)
              else ValuesOf(parse, lines) + [parse(rest).value]
  {
    assert AllButLast(lines + [rest]) == lines;
  }

  lemma TidyRest<V>(parse: Text -> Option<V>, rest: Text)
    requires Tidy(rest)
    ensures FinalValue(parse, rest) == if AllSpace(rest) || parse(rest).None? then [] else [parse(rest).value]
  {
    if AllSpace(rest) {
      SpacesTrim(rest);
    } else {
      assert Trim(rest) == rest;
    }
  }

  /** Both readers give back what was written one to a line, in order; blank lines, and lines that
      are not JSON, are left out. */
  lemma WrittenIsRead<V>(parse: Text -> Option<V>, lines: seq<Text>)
    requires forall i | 0 <= i < |lines| :: Tidy(lines[i])
    ensures Whole(parse, Written(lines)) == ValuesOf(parse, lines)
    ensures Streamed(parse, Written(lines)) == ValuesOf(parse, lines)
  {
    WrittenLines(lines);
    TidyLines(parse, lines);
    assert AllButLast(lines + [[]]) == lines && Last(lines + [[]]) == [];
    LineValuesAppend(parse, lines, [[]]);
    assert LineValue(parse, []) == [] && LineValues(parse, []) == [];
    assert AllButLast([[]]) == [];
  }
}
