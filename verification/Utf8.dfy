/** Streaming UTF-8 decoding as a TextDecoder does it (malformed input becomes U+FFFD, a
    leading byte order mark is dropped), measured against the encoding of section 3 of
    RFC 3629. Texts are sequences of code points. */
module Utf8 {
  import opened Sequences

  type Byte = b: nat | b < 256
  type Text = seq<nat>

  const REPLACEMENT: nat := 0xFFFD
  const BOM: nat := 0xFEFF

  // ---------- the decoder ----------

  /** How many continuation bytes are needed and seen, the bits so far, and the range the
      next byte has to be in. */
  datatype Decoder = Decoder(needed: nat, seen: nat, point: nat, lower: nat, upper: nat)

  const IDLE := Decoder(0, 0, 0, 0x80, 0xBF)

  /** A byte that starts a new sequence. */
  function Start(b: Byte): (Decoder, Text) {
    if b <= 0x7F then (IDLE, [b])
    else if 0xC2 <= b <= 0xDF then (Decoder(1, 0, b % 32, 0x80, 0xBF), [])
    else if 0xE0 <= b <= 0xEF then
      (Decoder(2, 0, b % 16, if b == 0xE0 then 0xA0 else 0x80, if b == 0xED then 0x9F else 0xBF), [])
    else if 0xF0 <= b <= 0xF4 then
      (Decoder(3, 0, b % 8, if b == 0xF0 then 0x90 else 0x80, if b == 0xF4 then 0x8F else 0xBF), [])
    else (IDLE, [REPLACEMENT])
  }

  /** One byte. A byte that cannot continue the sequence ends it and is read again as the
      start of the next one. */
  function Feed(d: Decoder, b: Byte): (Decoder, Text) {
    if d.needed == 0 then Start(b)
    else if b < d.lower || d.upper < b then (Start(b).0, [REPLACEMENT] + Start(b).1)
    else
      var point := d.point * 64 + b % 64;
      if d.seen + 1 == d.needed then (IDLE, [point])
      else (Decoder(d.needed, d.seen + 1, point, 0x80, 0xBF), [])
  }

  /** The decoder after some bytes, and the code points that came out. */
  function After(d: Decoder, bytes: seq<Byte>): Decoder
    decreases |bytes|
  {
    if bytes == [] then d else After(Feed(d, bytes[0]).0, bytes[1..])
  }

  function Output(d: Decoder, bytes: seq<Byte>): Text
    decreases |bytes|
  {
    if bytes == [] then [] else Feed(d, bytes[0]).1 + Output(Feed(d, bytes[0]).0, bytes[1..])
  }

  /** What is left of an unfinished sequence when the input ends. */
  function Rest(d: Decoder): Text {
    if d.needed == 0 then [] else [REPLACEMENT]
  }

  lemma {:induction false} FeedAppend(d: Decoder, a: seq<Byte>, b: seq<Byte>)
    ensures After(d, a + b) == After(After(d, a), b)
    ensures Output(d, a + b) == Output(d, a) + Output(After(d, a), b)
    decreases |a|
  {
    if a == [] {
      assert a + b == b;
    } else {
      assert (a + b)[1..] == a[1..] + b && (a + b)[0] == a[0];
      var next, out := Feed(d, a[0]).0, Feed(d, a[0]).1;
      FeedAppend(next, a[1..], b);
      Regroup(out, Output(next, a[1..]), Output(After(next, a[1..]), b));
    }
  }

  // ---------- byte order mark ----------

  /** The state of a TextDecoder: the decoder, and whether any code point came out yet. */
  datatype State = State(decoder: Decoder, begun: bool)

  const INITIAL := State(IDLE, false)

  function DropBom(begun: bool, text: Text): Text {
    if !begun && text != [] && text[0] == BOM then text[1..] else text
  }

  /** decode(bytes, {stream: true}) */
  function DecodeChunk(s: State, bytes: seq<Byte>): (State, Text) {
    var text := Output(s.decoder, bytes);
    (State(After(s.decoder, bytes), s.begun || text != []), DropBom(s.begun, text))
  }

  /** decode() at the end of the input. */
  function Flush(s: State): Text {
    DropBom(s.begun, Rest(s.decoder))
  }

  /** decode(bytes) of a whole payload. */
  function Decode(bytes: seq<Byte>): Text {
    var (s, text) := DecodeChunk(INITIAL, bytes);
    text + Flush(s)
  }

  /** Where a payload is cut makes no difference to its text. */
  lemma DecodeChunkAppend(s: State, a: seq<Byte>, b: seq<Byte>)
    ensures var (s1, t1) := DecodeChunk(s, a);
            var (s2, t2) := DecodeChunk(s1, b);
            DecodeChunk(s, a + b) == (s2, t1 + t2)
  {
    FeedAppend(s.decoder, a, b);
    DropBomAppend(s.begun, Output(s.decoder, a), Output(After(s.decoder, a), b));
  }

  lemma DropBomAppend(begun: bool, t: Text, u: Text)
    ensures DropBom(begun, t + u) == DropBom(begun, t) + DropBom(begun || t != [], u)
  {
    if t == [] {
      assert t + u == u;
    } else {
      assert (t + u)[1..] == t[1..] + u;
    }
  }

  // ---------- the encoding ----------

  /** A code point other than a surrogate. */
  type Scalar = p: nat | p < 0xD800 || 0xE000 <= p < 0x11_0000

  /** Section 3 of RFC 3629: the number of bytes depends on the range of the code point. */
  function Encode(p: Scalar): seq<Byte> {
    if p < 0x80 then [p]
    else if p < 0x800 then [0xC0 + p / 64, 0x80 + p % 64]
    else if p < 0x1_0000 then [0xE0 + p / 4096, 0x80 + p / 64 % 64, 0x80 + p % 64]
    else [0xF0 + p / 262144, 0x80 + p / 4096 % 64, 0x80 + p / 64 % 64, 0x80 + p % 64]
  }

  function EncodeAll(text: seq<Scalar>): seq<Byte> {
    if text == [] then [] else Encode(text[0]) + EncodeAll(text[1..])
  }

  /** Examples of section 7 of RFC 3629. */
  lemma EncodingExamples()
    ensures Encode(0x41) == [0x41] && Encode(0x391) == [0xCE, 0x91] && Encode(0x2262) == [0xE2, 0x89, 0xA2]
    ensures Encode(0x233B4) == [0xF0, 0xA3, 0x8E, 0xB4] && Encode(BOM) == [0xEF, 0xBB, 0xBF]
  {
  }

  lemma FeedFirst(d: Decoder, a: Byte, rest: seq<Byte>)
    ensures After(d, [a] + rest) == After(Feed(d, a).0, rest)
    ensures Output(d, [a] + rest) == Feed(d, a).1 + Output(Feed(d, a).0, rest)
  {
    assert ([a] + rest)[1..] == rest;
  }

  /** A continuation byte that is accepted and is not the last one. */
  lemma FeedMiddle(d: Decoder, a: Byte, rest: seq<Byte>)
    requires d.needed != 0 && d.lower <= a <= d.upper && d.seen + 1 != d.needed
    ensures var e := Decoder(d.needed, d.seen + 1, d.point * 64 + a % 64, 0x80, 0xBF);
            After(d, [a] + rest) == After(e, rest) && Output(d, [a] + rest) == Output(e, rest)
  {
    FeedFirst(d, a, rest);
    var e := Decoder(d.needed, d.seen + 1, d.point * 64 + a % 64, 0x80, 0xBF);
    assert Feed(d, a) == (e, []);
    assert [] + Output(e, rest) == Output(e, rest);
  }

  lemma FeedLast(d: Decoder, a: Byte)
    requires d.needed != 0 && d.lower <= a <= d.upper && d.seen + 1 == d.needed
    ensures After(d, [a]) == IDLE && Output(d, [a]) == [d.point * 64 + a % 64]
  {
    FeedFirst(d, a, []);
    assert [a] + [] == [a];
  }

  lemma DecodeEncode(p: Scalar)
    ensures After(IDLE, Encode(p)) == IDLE && Output(IDLE, Encode(p)) == [p]
  {
    var bytes := Encode(p);
    assert bytes == [bytes[0]] + bytes[1..];
    FeedFirst(IDLE, bytes[0], bytes[1..]);
    var d := Start(bytes[0]).0;
    if p < 0x80 {
      assert bytes[1..] == [];
    } else if p < 0x800 {
      assert d.point == p / 64;
      FeedLast(d, bytes[1]);
    } else if p < 0x1_0000 {
      DecodeThree(p, d);
    } else {
      DecodeFour(p, d);
    }
  }

  /** A code point in base 64. */
  lemma SixBits(p: nat)
    ensures p / 64 * 64 + p % 64 == p
    ensures p / 4096 * 64 + p / 64 % 64 == p / 64
    ensures p / 262144 * 64 + p / 4096 % 64 == p / 4096
    ensures p < 0x11_0000 ==> p / 262144 <= 4 && (p / 262144 == 4 ==> p / 4096 % 64 <= 0x0F)
    ensures 0x1_0000 <= p < 262144 ==> 0x10 <= p / 4096 % 64
  {
  }

  /** What a continuation byte carries. */
  lemma Continues(n: nat)
    ensures (0x80 + n % 64) % 64 == n % 64 && 0x80 <= 0x80 + n % 64 <= 0xBF
  {
  }

  /** The second to last and the last continuation byte. */
  lemma TwoRead(d: Decoder, b: Byte, c: Byte, middle: nat, point: nat)
    requires d.needed > 1 && d.seen + 2 == d.needed && d.lower <= b <= d.upper && 0x80 <= c <= 0xBF
    requires d.point * 64 + b % 64 == middle && middle * 64 + c % 64 == point
    ensures After(d, [b, c]) == IDLE && Output(d, [b, c]) == [point]
  {
    FeedMiddle(d, b, [c]);
    assert [b, c] == [b] + [c];
    FeedLast(Decoder(d.needed, d.seen + 1, middle, 0x80, 0xBF), c);
  }

  lemma DecodeThree(p: Scalar, d: Decoder)
    requires 0x800 <= p < 0x1_0000 && d == Start(Encode(p)[0]).0
    ensures After(d, Encode(p)[1..]) == IDLE && Output(d, Encode(p)[1..]) == [p]
  {
    StartThree(p);
    SixBits(p);
    Continues(p / 64);
    Continues(p);
    TwoRead(d, Encode(p)[1], Encode(p)[2], p / 64, p);
    assert Encode(p)[1..] == [Encode(p)[1], Encode(p)[2]];
  }

  lemma StartThree(p: Scalar)
    requires 0x800 <= p < 0x1_0000
    ensures var d := Start(Encode(p)[0]).0;
            d == Decoder(2, 0, p / 4096, d.lower, d.upper) && d.lower <= Encode(p)[1] <= d.upper
  {
    SixBits(p);
  }

  lemma DecodeFour(p: Scalar, d: Decoder)
    requires 0x1_0000 <= p && d == Start(Encode(p)[0]).0
    ensures After(d, Encode(p)[1..]) == IDLE && Output(d, Encode(p)[1..]) == [p]
  {
    var a, b, c := Encode(p)[1], Encode(p)[2], Encode(p)[3];
    StartFour(p);
    SixBits(p);
    Continues(p / 4096);
    Continues(p / 64);
    Continues(p);
    FeedMiddle(d, a, [b, c]);
    TwoRead(Decoder(3, 1, p / 4096, 0x80, 0xBF), b, c, p / 64, p);
    assert Encode(p)[1..] == [a] + [b, c];
  }

  lemma StartFour(p: Scalar)
    requires 0x1_0000 <= p
    ensures var d := Start(Encode(p)[0]).0;
            d == Decoder(3, 0, p / 262144, d.lower, d.upper) && d.lower <= Encode(p)[1] <= d.upper
  {
    SixBits(p);
  }

  lemma {:induction false} FeedEncoded(text: seq<Scalar>)
    ensures After(IDLE, EncodeAll(text)) == IDLE && Output(IDLE, EncodeAll(text)) == text
  {
    if text != [] {
      DecodeEncode(text[0]);
      FeedEncoded(text[1..]);
      FeedAppend(IDLE, Encode(text[0]), EncodeAll(text[1..]));
      assert text == [text[0]] + text[1..];
    }
  }

  /** The decoder undoes the encoding, except that it drops one leading byte order mark. */
  lemma DecodeUndoesEncode(text: seq<Scalar>)
    ensures Decode(EncodeAll(text)) == DropBom(false, text)
  {
    FeedEncoded(text);
  }

  // ---------- malformed input ----------

  lemma DecodeOne(b: Byte)
    ensures Output(IDLE, [b]) == Start(b).1 && After(IDLE, [b]) == Start(b).0
  {
    FeedFirst(IDLE, b, []);
    assert [b] + [] == [b] && Start(b).1 + [] == Start(b).1;
  }

  /** A byte that cannot start a sequence is replaced. */
  lemma StrayByteIsReplaced(b: Byte)
    requires 0x80 <= b < 0xC2 || 0xF5 <= b
    ensures Decode([b]) == [REPLACEMENT]
  {
    DecodeOne(b);
  }

  /** After the first bytes of a code point's encoding the decoder waits for more. */
  lemma InTheMiddle(p: Scalar, k: nat)
    requires 0 < k < |Encode(p)|
    ensures var d := After(IDLE, Encode(p)[..k]); d.needed > 0 && d.lower >= 0x80
    ensures Output(IDLE, Encode(p)[..k]) == []
  {
    var bytes := Encode(p);
    DecodeOne(bytes[0]);
    assert bytes[..1] == [bytes[0]];
    if k > 1 {
      if p < 0x1_0000 { StartThree(p); } else { StartFour(p); }
      ReadMore(bytes, 1, Start(bytes[0]).0);
      if k > 2 {
        Continues(p / 64);
        ReadMore(bytes, 2, After(IDLE, bytes[..2]));
      }
    }
  }

  lemma ReadMore(bytes: seq<Byte>, k: nat, d: Decoder)
    requires 0 < k < |bytes| && d == After(IDLE, bytes[..k]) && Output(IDLE, bytes[..k]) == []
    requires d.needed > d.seen + 1 && d.lower <= bytes[k] <= d.upper
    ensures After(IDLE, bytes[..k + 1]) == Decoder(d.needed, d.seen + 1, d.point * 64 + bytes[k] % 64, 0x80, 0xBF)
    ensures Output(IDLE, bytes[..k + 1]) == []
  {
    assert bytes[..k + 1] == bytes[..k] + [bytes[k]];
    FeedAppend(IDLE, bytes[..k], [bytes[k]]);
    FeedMiddle(d, bytes[k], []);
    assert [bytes[k]] + [] == [bytes[k]];
  }

  /** A sequence that is cut short is replaced as a whole, once, at the end of the input or before
      a character that does not continue it. */
  lemma TruncatedIsReplaced(p: Scalar, k: nat, b: Byte)
    requires 0 < k < |Encode(p)| && b < 0x80
    ensures Decode(Encode(p)[..k]) == [REPLACEMENT]
    ensures Decode(Encode(p)[..k] + [b]) == [REPLACEMENT, b]
  {
    var bytes := Encode(p)[..k];
    InTheMiddle(p, k);
    FeedAppend(IDLE, bytes, [b]);
    FeedFirst(After(IDLE, bytes), b, []);
    assert [b] + [] == [b];
    assert [REPLACEMENT] + [b] == [REPLACEMENT, b];
  }

  /** Overlong forms, surrogates and what lies beyond the last code point: the second byte already
      does not continue the first, and each is replaced on its own. */
  lemma BadSecondByte(a: Byte, b: Byte)
    requires
      || (a == 0xE0 && 0x80 <= b < 0xA0) || (a == 0xED && 0xA0 <= b < 0xC0)
      || (a == 0xF0 && 0x80 <= b < 0x90) || (a == 0xF4 && 0x90 <= b < 0xC0)
    ensures Decode([a, b]) == [REPLACEMENT, REPLACEMENT]
  {
    DecodeOne(a);
    FeedAppend(IDLE, [a], [b]);
    FeedFirst(Start(a).0, b, []);
    assert [a] + [b] == [a, b] && [b] + [] == [b];
    assert [REPLACEMENT] + [REPLACEMENT] == [REPLACEMENT, REPLACEMENT];
  }

  // ---------- strings, which a source may deliver instead of bytes ----------

  type CodeUnit = u: nat | u < 0x1_0000

  predicate High(u: CodeUnit) { 0xD800 <= u < 0xDC00 }
  predicate Low(u: CodeUnit) { 0xDC00 <= u < 0xE000 }

  predicate StartsWithPair(units: seq<CodeUnit>) {
    |units| > 1 && High(units[0]) && Low(units[1])
  }

  function FirstScalar(units: seq<CodeUnit>): Scalar
    requires units != []
  {
    if StartsWithPair(units) then 0x1_0000 + (units[0] as int - 0xD800) * 1024 + (units[1] as int - 0xDC00)
    else if High(units[0]) || Low(units[0]) then REPLACEMENT
    else units[0]
  }

  /** The scalar values of a UTF-16 string; an unpaired surrogate becomes U+FFFD. */
  function Scalars(units: seq<CodeUnit>): seq<Scalar> {
    if units == [] then []
    else [FirstScalar(units)] + Scalars(units[Width(units)..])
  }

  ghost predicate CutsPair(a: seq<CodeUnit>, b: seq<CodeUnit>) {
    a != [] && b != [] && High(a[|a| - 1]) && Low(b[0])
  }

  function Width(units: seq<CodeUnit>): nat {
    if StartsWithPair(units) then 2 else 1
  }

  lemma FirstOfAppend(a: seq<CodeUnit>, b: seq<CodeUnit>)
    requires a != [] && !(|a| == 1 && CutsPair(a, b))
    ensures Width(a + b) == Width(a) && FirstScalar(a + b) == FirstScalar(a)
    ensures (a + b)[Width(a)..] == a[Width(a)..] + b
    ensures CutsPair(a[Width(a)..], b) == CutsPair(a, b)
  {
    assert StartsWithPair(a + b) == StartsWithPair(a);
    var rest := a[Width(a)..];
    assert rest != [] ==> rest[|rest| - 1] == a[|a| - 1];
  }

  lemma {:induction false} ScalarsParts(a: seq<CodeUnit>, b: seq<CodeUnit>)
    ensures |Scalars(a + b)| == |Scalars(a)| + |Scalars(b)| - (if CutsPair(a, b) then 1 else 0)
    ensures !CutsPair(a, b) ==> Scalars(a + b) == Scalars(a) + Scalars(b)
  {
    if a == [] {
      assert a + b == b;
    } else if |a| == 1 && CutsPair(a, b) {
      assert a[1..] == [] && Scalars(a) == [FirstScalar(a)];
      assert Width(b) == 1 && Scalars(b) == [FirstScalar(b)] + Scalars(b[1..]);
      assert Width(a + b) == 2 && (a + b)[2..] == b[1..];
    } else {
      var first, rest := FirstScalar(a), a[Width(a)..];
      FirstOfAppend(a, b);
      ScalarsParts(rest, b);
      assert Scalars(a + b) == [first] + Scalars(rest + b);
      assert Scalars(a) == [first] + Scalars(rest);
      Regroup([first], Scalars(rest), Scalars(b));
    }
  }

  /** A string may be cut anywhere but between the halves of a surrogate pair. */
  lemma ScalarsAppend(a: seq<CodeUnit>, b: seq<CodeUnit>)
    ensures Scalars(a + b) == Scalars(a) + Scalars(b) <==> !CutsPair(a, b)
  {
    ScalarsParts(a, b);
  }

  /** A pair stands for the code point it was made from, and any other character for itself. */
  lemma PairStandsFor(p: Scalar)
    ensures p < 0x1_0000 ==> Scalars([p]) == [p]
    ensures p >= 0x1_0000 ==>
              Scalars([0xD800 + (p - 0x1_0000) / 1024, 0xDC00 + (p - 0x1_0000) % 1024]) == [p]
  {
    if p < 0x1_0000 {
      assert [p][1..] == [];
    } else {
      var units: seq<CodeUnit> := [0xD800 + (p - 0x1_0000) / 1024, 0xDC00 + (p - 0x1_0000) % 1024];
      assert StartsWithPair(units) && FirstScalar(units) == p && units[2..] == [];
    }
  }

  /** The code points of a UTF-16 string as it is, unpaired surrogates included. */
  function Points(units: seq<CodeUnit>): Text {
    if units == [] then []
    else [if StartsWithPair(units) then FirstScalar(units) else units[0]] + Points(units[Width(units)..])
  }

  /** Every surrogate is half of a pair. */
  predicate WellFormed(units: seq<CodeUnit>) {
    units == []
    || ((StartsWithPair(units) || !(High(units[0]) || Low(units[0]))) && WellFormed(units[Width(units)..]))
  }

  /** Encoding replaces nothing exactly in well-formed strings. */
  lemma {:induction false} PointsAreScalarsIff(units: seq<CodeUnit>)
    ensures |Points(units)| == |Scalars(units)|
    ensures Points(units) == Scalars(units) <==> WellFormed(units)
  {
    if units != [] {
      var rest := units[Width(units)..];
      var point := if StartsWithPair(units) then FirstScalar(units) else units[0];
      PointsAreScalarsIff(rest);
      SameCons(point, Points(rest), FirstScalar(units), Scalars(rest));
    }
  }

  lemma SameCons(x: nat, a: seq<nat>, y: nat, b: seq<nat>)
    ensures [x] + a == [y] + b <==> x == y && a == b
  {
    assert ([x] + a)[0] == x && ([y] + b)[0] == y;
    assert ([x] + a)[1..] == a && ([y] + b)[1..] == b;
  }

  lemma {:induction false} PointsAppend(a: seq<CodeUnit>, b: seq<CodeUnit>)
    requires !CutsPair(a, b)
    ensures Points(a + b) == Points(a) + Points(b)
  {
    if a == [] {
      assert a + b == b;
    } else {
      var rest := a[Width(a)..];
      FirstOfAppend(a, b);
      PointsAppend(rest, b);
      assert StartsWithPair(a + b) == StartsWithPair(a) && (a + b)[0] == a[0];
      Regroup([if StartsWithPair(a) then FirstScalar(a) else a[0]], Points(rest), Points(b));
    }
  }

  lemma {:induction false} WellFormedEnd(units: seq<CodeUnit>)
    requires WellFormed(units) && units != []
    ensures !High(units[|units| - 1])
  {
    var rest := units[Width(units)..];
    if rest != [] {
      WellFormedEnd(rest);
      assert rest[|rest| - 1] == units[|units| - 1];
    }
  }

  lemma {:induction false} WellFormedAppend(a: seq<CodeUnit>, b: seq<CodeUnit>)
    requires WellFormed(a) && WellFormed(b)
    ensures WellFormed(a + b) && !CutsPair(a, b)
  {
    if a == [] {
      assert a + b == b;
    } else {
      WellFormedEnd(a);
      FirstOfAppend(a, b);
      assert StartsWithPair(a + b) == StartsWithPair(a) && (a + b)[0] == a[0];
      WellFormedAppend(a[Width(a)..], b);
    }
  }
}
