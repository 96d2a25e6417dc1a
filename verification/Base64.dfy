/** Standard base64, section 4 of RFC 4648, as Go's encoding/base64 implements it. */
module Base64 {
  import opened Common

  type byte = b: int | 0 <= b < 256

  const PAD: byte := 61
  const NEWLINE: byte := 10
  const RETURN: byte := 13

  type sextet = v: int | 0 <= v < 64

  /** The alphabet: A-Z, a-z, 0-9, '+' and '/'. */
  function Symbol(v: sextet): byte {
    if v < 26 then 65 + v
    else if v < 52 then 97 + (v - 26)
    else if v < 62 then 48 + (v - 52)
    else if v == 62 then 43
    else 47
  }

  function Value(c: byte): Option<sextet> {
    if 65 <= c <= 90 then Some(c - 65)
    else if 97 <= c <= 122 then Some(c - 97 + 26)
    else if 48 <= c <= 57 then Some(c - 48 + 52)
    else if c == 43 then Some(62)
    else if c == 47 then Some(63)
    else None
  }

  /** Symbols and values are inverse to each other. */
  lemma SymbolValue(v: sextet, c: byte)
    ensures Value(Symbol(v)) == Some(v)
    ensures Value(c).Some? ==> Symbol(Value(c).value) == c
  {
  }

  /** The four sextets of three bytes, most significant first. */
  function Sextets(b0: byte, b1: byte, b2: byte): seq<sextet> {
    [b0 / 4, b0 % 4 * 16 + b1 / 16, b1 % 16 * 4 + b2 / 64, b2 % 64]
  }

  /** The three bytes of four sextets. */
  function Octets(q0: sextet, q1: sextet, q2: sextet, q3: sextet): seq<byte> {
    [q0 * 4 + q1 / 16, q1 % 16 * 16 + q2 / 4, q2 % 4 * 64 + q3]
  }

  lemma OctetsOfSextets(b0: byte, b1: byte, b2: byte)
    ensures var q := Sextets(b0, b1, b2); Octets(q[0], q[1], q[2], q[3]) == [b0, b1, b2]
  {
  }

  function Encode(s: seq<byte>): (text: seq<byte>)
    ensures forall i :: 0 <= i < |text| ==> Value(text[i]).Some? || text[i] == PAD
    decreases |s|
  {
    if |s| == 0 then []
    else if |s| == 1 then
      var q := Sextets(s[0], 0, 0);
      [Symbol(q[0]), Symbol(q[1]), PAD, PAD]
    else if |s| == 2 then
      var q := Sextets(s[0], s[1], 0);
      [Symbol(q[0]), Symbol(q[1]), Symbol(q[2]), PAD]
    else
      var q := Sextets(s[0], s[1], s[2]);
      [Symbol(q[0]), Symbol(q[1]), Symbol(q[2]), Symbol(q[3])] + Encode(s[3..])
  }

  lemma NotEncoded(s: seq<byte>, c: byte)
    requires Value(c).None? && c != PAD
    ensures c !in Encode(s)
  {
  }

  /** Line breaks are ignored anywhere in the input. */
  function DropBreaks(text: seq<byte>): seq<byte> {
    if text == [] then []
    else (if text[0] == NEWLINE || text[0] == RETURN then [] else [text[0]]) + DropBreaks(text[1..])
  }

  function DecodeQuads(text: seq<byte>): Option<seq<byte>>
    decreases |text|
  {
    if |text| == 0 then Some([])
    else if |text| < 4 then None
    else
      match (Value(text[0]), Value(text[1]), Value(text[2]), Value(text[3]))
      case (Some(q0), Some(q1), Some(q2), Some(q3)) =>
        (match DecodeQuads(text[4..])
         case Some(rest) => Some(Octets(q0, q1, q2, q3) + rest)
         case None => None)
      case (Some(q0), Some(q1), Some(q2), None) =>
        if text[3] == PAD && |text| == 4 then Some(Octets(q0, q1, q2, 0)[..2]) else None
      case (Some(q0), Some(q1), None, None) =>
        if text[2] == PAD && text[3] == PAD && |text| == 4 then Some(Octets(q0, q1, 0, 0)[..1]) else None
      case _ => None
  }

  /** DecodeString; where the error lies is not modelled. */
  function Decode(text: seq<byte>): Option<seq<byte>> {
    DecodeQuads(DropBreaks(text))
  }

  lemma {:induction false} NoBreaks(text: seq<byte>)
    requires NEWLINE !in text && RETURN !in text
    ensures DropBreaks(text) == text
  {
    if text != [] {
      NoBreaks(text[1..]);
      assert text == [text[0]] + text[1..];
    }
  }

  /** The padded quad at the end. */
  lemma DecodeLast(b0: byte, b1: byte, s: seq<byte>)
    requires s == [b0, b1] || (s == [b0] && b1 == 0)
    ensures DecodeQuads(Encode(s)) == Some(s)
  {
    var q := Sextets(b0, b1, 0);
    OctetsOfSextets(b0, b1, 0);
    assert q[3] == 0 && (b1 == 0 ==> q[2] == 0);
    SymbolValue(q[0], 0);
    SymbolValue(q[1], 0);
    SymbolValue(q[2], 0);
    assert [b0, b1, 0][..|s|] == s;
  }

  /** A full quad comes off the front. */
  lemma DecodeFirst(b0: byte, b1: byte, b2: byte, back: seq<byte>, rest: seq<byte>)
    requires DecodeQuads(back) == Some(rest)
    ensures var q := Sextets(b0, b1, b2);
            DecodeQuads([Symbol(q[0]), Symbol(q[1]), Symbol(q[2]), Symbol(q[3])] + back) == Some([b0, b1, b2] + rest)
  {
    var q := Sextets(b0, b1, b2);
    OctetsOfSextets(b0, b1, b2);
    SymbolValue(q[0], 0);
    SymbolValue(q[1], 0);
    SymbolValue(q[2], 0);
    SymbolValue(q[3], 0);
    assert ([Symbol(q[0]), Symbol(q[1]), Symbol(q[2]), Symbol(q[3])] + back)[4..] == back;
  }

  lemma {:induction false} DecodeQuadsOfEncode(s: seq<byte>)
    ensures DecodeQuads(Encode(s)) == Some(s)
    decreases |s|
  {
    if |s| == 1 {
      DecodeLast(s[0], 0, s);
    } else if |s| == 2 {
      DecodeLast(s[0], s[1], s);
    } else if |s| >= 3 {
      DecodeQuadsOfEncode(s[3..]);
      DecodeFirst(s[0], s[1], s[2], Encode(s[3..]), s[3..]);
      assert s == [s[0], s[1], s[2]] + s[3..];
    }
  }

  /** Decoding undoes encoding, for every byte string. */
  lemma DecodeOfEncode(s: seq<byte>)
    ensures Decode(Encode(s)) == Some(s)
  {
    NotEncoded(s, NEWLINE);
    NotEncoded(s, RETURN);
    NoBreaks(Encode(s));
    DecodeQuadsOfEncode(s);
  }

  /** Whole quads of symbols, of which up to two at the end are padding. */
  predicate WellFormed(text: seq<byte>, pads: nat) {
    && |text| % 4 == 0 && pads <= 2 && pads <= |text|
    && (forall i :: 0 <= i < |text| - pads ==> Value(text[i]).Some?)
    && (forall i :: |text| - pads <= i < |text| ==> text[i] == PAD)
  }

  predicate FullQuad(text: seq<byte>)
    requires |text| >= 4
  {
    Value(text[0]).Some? && Value(text[1]).Some? && Value(text[2]).Some? && Value(text[3]).Some?
  }

  lemma WellFormedTail(text: seq<byte>, pads: nat)
    requires |text| > 4 && FullQuad(text)
    ensures WellFormed(text, pads) <==> WellFormed(text[4..], pads)
  {
    var tail := text[4..];
    assert forall i :: 0 <= i < |tail| ==> tail[i] == text[i + 4];
    if WellFormed(tail, pads) {
      assert forall i :: 4 <= i < |text| ==> text[i] == tail[i - 4];
    }
  }

  /** A text of one quad. */
  lemma QuadDecodesIff(text: seq<byte>, pads: nat)
    requires |text| == 4
    ensures WellFormed(text, pads) ==> DecodeQuads(text).Some? && |DecodeQuads(text).value| == 3 - pads
    ensures DecodeQuads(text).Some? ==> exists p: nat :: WellFormed(text, p)
  {
    assert text[4..] == [];
    assert DecodeQuads([]) == Some([]);
    if DecodeQuads(text).Some? {
      assert WellFormed(text, if Value(text[3]).Some? then 0 else if Value(text[2]).Some? then 1 else 2);
    }
  }

  /** A quad in front of another one must not be padded. */
  lemma QuadInFront(text: seq<byte>)
    requires |text| > 4
    ensures DecodeQuads(text).Some? <==> FullQuad(text) && DecodeQuads(text[4..]).Some?
    ensures DecodeQuads(text).Some? ==> |DecodeQuads(text).value| == 3 + |DecodeQuads(text[4..]).value|
  {
  }

  /** Exactly the well-formed texts are accepted, and what they decode to has three bytes a quad, less the padding. */
  lemma {:induction false} DecodesIff(text: seq<byte>, pads: nat)
    ensures WellFormed(text, pads) ==>
              DecodeQuads(text).Some? && |DecodeQuads(text).value| == |text| / 4 * 3 - pads
    ensures DecodeQuads(text).Some? ==> exists p: nat :: WellFormed(text, p)
    decreases |text|
  {
    if |text| == 0 {
      assert WellFormed(text, 0);
    } else if |text| == 4 {
      QuadDecodesIff(text, pads);
    } else if |text| > 4 {
      DecodesIff(text[4..], pads);
      QuadInFront(text);
      if FullQuad(text) {
        WellFormedTail(text, pads);
        if DecodeQuads(text).Some? {
          var p: nat :| WellFormed(text[4..], p);
          WellFormedTail(text, p);
        }
      }
    }
  }

  lemma {:induction false} DropBreaksAppend(a: seq<byte>, b: seq<byte>)
    ensures DropBreaks(a + b) == DropBreaks(a) + DropBreaks(b)
  {
    if a == [] {
      assert a + b == b;
    } else {
      var first := if a[0] == NEWLINE || a[0] == RETURN then [] else [a[0]];
      calc {
        DropBreaks(a + b);
        { assert (a + b)[0] == a[0] && (a + b)[1..] == a[1..] + b; }
        first + DropBreaks(a[1..] + b);
        { DropBreaksAppend(a[1..], b); }
        first + (DropBreaks(a[1..]) + DropBreaks(b));
        (first + DropBreaks(a[1..])) + DropBreaks(b);
        DropBreaks(a) + DropBreaks(b);
      }
    }
  }

  /** Two of the test vectors in section 10 of RFC 4648: "fooba" and "foobar". */
  lemma Rfc4648Vectors()
    ensures Encode([102, 111, 111, 98, 97]) == [90, 109, 57, 118, 89, 109, 69, 61]
    ensures Encode([102, 111, 111, 98, 97, 114]) == [90, 109, 57, 118, 89, 109, 70, 121]
  {
    assert [102, 111, 111, 98, 97][3..] == [98, 97];
    assert [102, 111, 111, 98, 97, 114][3..] == [98, 97, 114];
    assert [98, 97, 114][3..] == [];
  }
}
