/** The application/x-www-form-urlencoded serializer and parser of section 5 of the
    WHATWG URL Standard, with the byte-level percent-encoding of names and values
    left as parameters: `enc` encodes one name or value, `dec` decodes one. */
module FormUrlEncoded {

  /** One query parameter: (name, value). */
  type Pair = (string, string)

  /** Cuts `s` at every occurrence of `sep`. */
  function Split(s: string, sep: char): (pieces: seq<string>)
    ensures |pieces| >= 1
    decreases |s|
  {
    if |s| == 0 then [""]
    else
      var rest := Split(s[1..], sep);
      if s[0] == sep then [""] + rest
      else [[s[0]] + rest[0]] + rest[1..]
  }

  /** Position of the first `c` in `s`. */
  function FirstIndex(s: string, c: char): (i: nat)
    requires c in s
    ensures i < |s| && s[i] == c && c !in s[..i]
  {
    if s[0] == c then 0 else 1 + FirstIndex(s[1..], c)
  }

  /** `name=value` for one pair. */
  function SerializePair(p: Pair, enc: string -> string): string {
    enc(p.0) + "=" + enc(p.1)
  }

  /** The serializer of section 5.2: the encoded pairs joined by `&`, in order. */
  function Serialize(pairs: seq<Pair>, enc: string -> string): string
    decreases |pairs|
  {
    if |pairs| == 0 then ""
    else if |pairs| == 1 then SerializePair(pairs[0], enc)
    else SerializePair(pairs[0], enc) + "&" + Serialize(pairs[1..], enc)
  }

  /** One non-empty `&`-separated piece: name before the first `=`, value after it,
      or the whole piece as name and an empty value when it holds no `=`. */
  function ParsePiece(piece: string, dec: string -> string): Pair {
    if '=' in piece then
      var i := FirstIndex(piece, '=');
      (dec(piece[..i]), dec(piece[i + 1..]))
    else
      (dec(piece), "")
  }

  /** Parses the pieces in order, skipping empty ones. */
  function ParsePieces(pieces: seq<string>, dec: string -> string): seq<Pair>
    decreases |pieces|
  {
    if |pieces| == 0 then []
    else if pieces[0] == "" then ParsePieces(pieces[1..], dec)
    else [ParsePiece(pieces[0], dec)] + ParsePieces(pieces[1..], dec)
  }

  /** The parser of section 5.1. */
  function Parse(s: string, dec: string -> string): seq<Pair> {
    ParsePieces(Split(s, '&'), dec)
  }

  /** An encoder whose output never holds the two separators, and a decoder that undoes it. */
  ghost predicate CodecPair(enc: string -> string, dec: string -> string) {
    && (forall s :: '&' !in enc(s) && '=' !in enc(s))
    && (forall s :: dec(enc(s)) == s)
  }

  lemma {:induction false} SplitWithoutSeparator(a: string, sep: char)
    requires sep !in a
    ensures Split(a, sep) == [a]
    decreases |a|
  {
    if |a| > 0 {
      assert sep !in a[1..];
      SplitWithoutSeparator(a[1..], sep);
      assert [a[0]] + a[1..] == a;
    }
  }

  lemma {:induction false} SplitAtFirstSeparator(a: string, b: string, sep: char)
    requires sep !in a
    ensures Split(a + [sep] + b, sep) == [a] + Split(b, sep)
    decreases |a|
  {
    var s := a + [sep] + b;
    if |a| == 0 {
      assert s[1..] == b;
    } else {
      assert s[1..] == a[1..] + [sep] + b;
      assert sep !in a[1..];
      SplitAtFirstSeparator(a[1..], b, sep);
      assert [a[0]] + a[1..] == a;
    }
  }

  lemma {:induction false} FirstIndexAfter(a: string, b: string, c: char)
    requires c !in a
    ensures FirstIndex(a + [c] + b, c) == |a|
    decreases |a|
  {
    if |a| > 0 {
      assert (a + [c] + b)[1..] == a[1..] + [c] + b;
      FirstIndexAfter(a[1..], b, c);
    }
  }

  /** A serialized pair is one non-empty piece without `&` that parses back to the pair. */
  lemma ParsePieceOfPair(p: Pair, enc: string -> string, dec: string -> string)
    requires CodecPair(enc, dec)
    ensures '&' !in SerializePair(p, enc) && SerializePair(p, enc) != ""
    ensures ParsePiece(SerializePair(p, enc), dec) == p
  {
    var piece := SerializePair(p, enc);
    var k := enc(p.0);
    assert piece == k + ['='] + enc(p.1);
    assert '&' !in k && '&' !in enc(p.1);
    assert piece[|k|] == '=';
    FirstIndexAfter(k, enc(p.1), '=');
    assert piece[..|k|] == k;
    assert piece[|k| + 1..] == enc(p.1);
  }

  /** A lone non-empty piece without `&` parses as one pair. */
  lemma ParseOnePiece(head: string, dec: string -> string)
    requires '&' !in head && head != ""
    ensures Parse(head, dec) == [ParsePiece(head, dec)]
  {
    SplitWithoutSeparator(head, '&');
    assert ParsePieces([head], dec) == [ParsePiece(head, dec)] + ParsePieces([], dec);
  }

  /** A non-empty piece without `&` in front of `&` parses as its pair, then the rest. */
  lemma ParseFirstPiece(head: string, tail: string, dec: string -> string)
    requires '&' !in head && head != ""
    ensures Parse(head + ['&'] + tail, dec) == [ParsePiece(head, dec)] + Parse(tail, dec)
  {
    SplitAtFirstSeparator(head, tail, '&');
    var pieces := [head] + Split(tail, '&');
    assert pieces[1..] == Split(tail, '&');
  }

  /** Parsing the serialization recovers every pair, in order. */
  lemma {:induction false} ParseSerialize(pairs: seq<Pair>, enc: string -> string, dec: string -> string)
    requires CodecPair(enc, dec)
    ensures Parse(Serialize(pairs, enc), dec) == pairs
    decreases |pairs|
  {
    if |pairs| > 0 {
      var head := SerializePair(pairs[0], enc);
      ParsePieceOfPair(pairs[0], enc, dec);
      if |pairs| == 1 {
        ParseOnePiece(head, dec);
      } else {
        var tail := Serialize(pairs[1..], enc);
        assert Serialize(pairs, enc) == head + ['&'] + tail;
        ParseFirstPiece(head, tail, dec);
        ParseSerialize(pairs[1..], enc, dec);
        assert [pairs[0]] + pairs[1..] == pairs;
      }
    }
  }
}
