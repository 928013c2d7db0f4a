/** `url_decode`, over bytes. */
module UrlDecode {
  import opened Json

  newtype byte = x: int | 0 <= x < 256

  const PERCENT: byte := 37
  const PLUS: byte := 43
  const MINUS: byte := 45
  const SPACE: byte := 32

  function HexValue(c: byte): Option<int> {
    if 48 <= c <= 57 then Some(c as int - 48)
    else if 65 <= c <= 70 then Some(c as int - 55)
    else if 97 <= c <= 102 then Some(c as int - 87)
    else None
  }

  predicate IsSpace(c: byte) {
    c == SPACE || 9 <= c <= 13
  }

  /** `strtol` in base 16 on two characters: white space, then a sign, then as many digits as there are. */
  function Strtol(a: byte, b: byte): (v: int)
    ensures -15 <= v < 256
  {
    match (HexValue(a), HexValue(b))
    case (Some(x), Some(y)) => 16 * x + y
    case (Some(x), None) => x
    case (None, Some(y)) => if IsSpace(a) || a == PLUS then y else if a == MINUS then -y else 0
    case (None, None) => 0
  }

  /** The cast of a `long` to `char`. */
  function ToByte(v: int): byte {
    (v % 256) as byte
  }

  /** An escape needs two more characters. */
  predicate IsEscape(value: seq<byte>, i: nat)
    requires i < |value|
  {
    value[i] == PERCENT && i + 2 < |value|
  }

  /** The byte that the character or escape at `i` stands for. */
  function ByteAt(value: seq<byte>, i: nat): byte
    requires i < |value|
  {
    if IsEscape(value, i) then ToByte(Strtol(value[i + 1], value[i + 2]))
    else if value[i] == PLUS then SPACE
    else value[i]
  }

  /** The decoded text from position `i` on. */
  function Decoded(value: seq<byte>, i: nat): (r: seq<byte>)
    requires i <= |value|
    ensures |r| <= |value| - i
    decreases |value| - i
  {
    if i == |value| then [] else [ByteAt(value, i)] + Decoded(value, if IsEscape(value, i) then i + 3 else i + 1)
  }

  method UrlDecode(value: seq<byte>) returns (result: seq<byte>)
    ensures result == Decoded(value, 0)
    ensures |result| <= |value|
  {
    result := [];
    var i := 0;
    while i < |value|
      invariant 0 <= i <= |value|
      invariant result + Decoded(value, i) == Decoded(value, 0)
    {
      ghost var before, from := result, i;
      var ch := value[i];
      if ch == PERCENT && i + 2 < |value| {
        var dec := ToByte(Strtol(value[i + 1], value[i + 2]));
        result := result + [dec];
        i := i + 2;
      } else if ch == PLUS {
        result := result + [SPACE];
      } else {
        result := result + [ch];
      }
      i := i + 1;
      assert result == before + [ByteAt(value, from)];
      Associative(before, [ByteAt(value, from)], Decoded(value, i));
    }
  }

  lemma Associative(a: seq<byte>, b: seq<byte>, c: seq<byte>)
    ensures a + b + c == a + (b + c)
  {
  }

  // ---- Percent-encoding ----

  /** The unreserved characters of section 2.3 of RFC 3986. */
  predicate Unreserved(c: byte) {
    48 <= c <= 57 || 65 <= c <= 90 || 97 <= c <= 122 || c == MINUS || c == 46 || c == 95 || c == 126
  }

  function HexDigit(v: int): byte
    requires 0 <= v < 16
  {
    if v < 10 then (48 + v) as byte else (55 + v) as byte
  }

  /** Section 2.1 of RFC 3986, for a byte that is not unreserved. */
  function EncodedByte(c: byte): (code: seq<byte>)
    ensures |code| == if Unreserved(c) then 1 else 3
  {
    if Unreserved(c) then [c] else [PERCENT, HexDigit(c as int / 16), HexDigit(c as int % 16)]
  }

  function Encoded(text: seq<byte>): seq<byte> {
    if text == [] then [] else EncodedByte(text[0]) + Encoded(text[1..])
  }

  lemma HexRoundTrip(c: byte)
    ensures ToByte(Strtol(HexDigit(c as int / 16), HexDigit(c as int % 16))) == c
  {
    var hi, lo := c as int / 16, c as int % 16;
    assert HexValue(HexDigit(hi)) == Some(hi) && HexValue(HexDigit(lo)) == Some(lo);
  }

  lemma {:induction false} DecodedSuffix(value: seq<byte>, i: nat, j: nat)
    requires i <= j <= |value|
    ensures Decoded(value[i..], j - i) == Decoded(value, j)
    decreases |value| - j
  {
    if j < |value| {
      var next := if IsEscape(value, j) then j + 3 else j + 1;
      DecodedSuffix(value, i, next);
      SuffixByte(value, i, j);
      assert Decoded(value, j) == [ByteAt(value, j)] + Decoded(value, next);
      assert Decoded(value[i..], j - i) == [ByteAt(value[i..], j - i)] + Decoded(value[i..], next - i);
    }
  }

  lemma SuffixByte(value: seq<byte>, i: nat, j: nat)
    requires i <= j < |value|
    ensures IsEscape(value[i..], j - i) == IsEscape(value, j)
    ensures ByteAt(value[i..], j - i) == ByteAt(value, j)
  {
    if IsEscape(value, j) {
      assert value[i..][j - i + 1] == value[j + 1] && value[i..][j - i + 2] == value[j + 2];
    }
  }

  /** Decoding an encoded text, whatever follows it, gives the text and then decodes what follows. */
  lemma {:induction false} DecodeAfterEncoded(text: seq<byte>, rest: seq<byte>)
    ensures Decoded(Encoded(text) + rest, 0) == text + Decoded(rest, 0)
    decreases |text|
  {
    if text == [] {
      assert Encoded(text) + rest == rest;
    } else {
      var c := text[0];
      var code := EncodedByte(c);
      var tail := Encoded(text[1..]) + rest;
      Associative(code, Encoded(text[1..]), rest);
      DecodeOneCode(c, tail);
      DecodeAfterEncoded(text[1..], rest);
      Associative([c], text[1..], Decoded(rest, 0));
      assert [c] + text[1..] == text;
    }
  }

  lemma DecodeOneCode(c: byte, tail: seq<byte>)
    ensures Decoded(EncodedByte(c) + tail, 0) == [c] + Decoded(tail, 0)
  {
    var code := EncodedByte(c);
    var all := code + tail;
    assert all[|code|..] == tail;
    DecodedSuffix(all, |code|, |code|);
    HexRoundTrip(c);
    assert ByteAt(all, 0) == c;
  }

  /** Decoding undoes encoding, for every byte string. */
  lemma DecodeUndoesEncode(text: seq<byte>)
    ensures Decoded(Encoded(text), 0) == text
  {
    DecodeAfterEncoded(text, []);
    assert Encoded(text) + [] == Encoded(text);
  }

  // ---- What else a text may contain ----

  /** The character stands for the hexadecimal digit `v`, in either letter case. */
  predicate Denotes(c: byte, v: int) {
    (0 <= v < 10 && c as int == 48 + v) || (10 <= v < 16 && (c as int == 65 + (v - 10) || c as int == 97 + (v - 10)))
  }

  ghost predicate IsHexDigit(c: byte) {
    exists v :: Denotes(c, v)
  }

  lemma HexValueIff(c: byte, v: int)
    ensures HexValue(c) == Some(v) <==> Denotes(c, v)
  {
  }

  lemma NoHexValueIff(c: byte)
    ensures HexValue(c) == None <==> !IsHexDigit(c)
  {
    if HexValue(c).Some? { HexValueIff(c, HexValue(c).value); }
  }

  /** A '+' anywhere between texts decodes to a space. */
  lemma PlusIsSpace(text: seq<byte>, rest: seq<byte>)
    ensures Decoded(Encoded(text) + ([43] + rest), 0) == text + ([32] + Decoded(rest, 0))
  {
    var all := [43] + rest;
    DecodeAfterEncoded(text, all);
    assert all[1..] == rest;
    DecodedSuffix(all, 1, 1);
  }

  /** '%' and two more characters decode to one byte, and the rest after them. */
  lemma EscapeTakesThree(a: byte, b: byte, rest: seq<byte>)
    ensures Decoded([37, a, b] + rest, 0) == [ToByte(Strtol(a, b))] + Decoded(rest, 0)
  {
    var all := [37, a, b] + rest;
    assert all[3..] == rest;
    DecodedSuffix(all, 3, 3);
  }

  /** An escape with two hexadecimal digits, each in either letter case, decodes to its byte. */
  lemma EscapeInEitherCase(a: byte, b: byte, hi: int, lo: int, rest: seq<byte>)
    requires Denotes(a, hi) && Denotes(b, lo)
    ensures 0 <= 16 * hi + lo < 256
    ensures Decoded([37, a, b] + rest, 0) == [(16 * hi + lo) as byte] + Decoded(rest, 0)
  {
    HexDigitsValue(a, b, hi, lo);
    EscapeTakesThree(a, b, rest);
  }

  lemma HexDigitsValue(a: byte, b: byte, hi: int, lo: int)
    requires Denotes(a, hi) && Denotes(b, lo)
    ensures 0 <= 16 * hi + lo < 256 && ToByte(Strtol(a, b)) == (16 * hi + lo) as byte
  {
    HexValueIff(a, hi);
    HexValueIff(b, lo);
    assert Strtol(a, b) == 16 * hi + lo;
  }

  /** What an escape decodes to that is not two hexadecimal digits: a first digit counts alone; a second one
      counts after white space or '+', and negated after '-'; anything else is zero. */
  lemma MalformedEscape(a: byte, b: byte, rest: seq<byte>) returns (c: byte)
    requires !IsHexDigit(a) || !IsHexDigit(b)
    ensures Decoded([37, a, b] + rest, 0) == [c] + Decoded(rest, 0)
    ensures forall v :: Denotes(a, v) ==> c as int == v
    ensures forall v :: !IsHexDigit(a) && Denotes(b, v) ==>
      c as int == if a == 32 || 9 <= a <= 13 || a == 43 then v else if a == 45 && v > 0 then 256 - v else 0
    ensures !IsHexDigit(a) && !IsHexDigit(b) ==> c == 0
  {
    c := ToByte(Strtol(a, b));
    EscapeTakesThree(a, b, rest);
    NoHexValueIff(a);
    NoHexValueIff(b);
    forall v ensures Denotes(a, v) <==> HexValue(a) == Some(v) { HexValueIff(a, v); }
    forall v ensures Denotes(b, v) <==> HexValue(b) == Some(v) { HexValueIff(b, v); }
  }

  /** A '%' with fewer than two characters after it stands for itself. */
  lemma LatePercent(rest: seq<byte>)
    requires |rest| < 2
    ensures Decoded([37] + rest, 0) == [37] + Decoded(rest, 0)
  {
    var all := [37] + rest;
    assert all[1..] == rest;
    DecodedSuffix(all, 1, 1);
  }

  /** Any other character stands for itself. */
  lemma OtherCharacter(c: byte, rest: seq<byte>)
    requires c != 37 && c != 43
    ensures Decoded([c] + rest, 0) == [c] + Decoded(rest, 0)
  {
    var all := [c] + rest;
    assert all[1..] == rest;
    DecodedSuffix(all, 1, 1);
  }
}
