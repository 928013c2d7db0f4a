/** JSON Pointer: strings such as "/torrents/3/name", and the reference tokens they stand for. */
module Pointer {
  import opened Json

  type Tokens = seq<string>

  // ---- Decimal array indices ----

  function Digit(d: nat): (c: char)
    requires d < 10
  {
    ('0' as int + d) as char
  }

  /** `std::to_string` of an array index. */
  function Decimal(n: nat): string {
    if n < 10 then [Digit(n)] else Decimal(n / 10) + [Digit(n % 10)]
  }

  predicate AllDigits(s: string) {
    forall i :: 0 <= i < |s| ==> '0' <= s[i] <= '9'
  }

  function DecimalValue(s: string): nat
    requires AllDigits(s)
  {
    if s == "" then 0
    else 10 * DecimalValue(s[..|s| - 1]) + (s[|s| - 1] as int - '0' as int)
  }

  /** An array index token (section 4 of RFC 6901): "0", or digits without a leading zero. */
  function ParseIndex(token: string): Option<nat> {
    if token == "" || !AllDigits(token) || (|token| > 1 && token[0] == '0') then None
    else Some(DecimalValue(token))
  }

  lemma {:induction false} DecimalShape(n: nat)
    ensures Decimal(n) != "" && AllDigits(Decimal(n))
    ensures n > 0 ==> Decimal(n)[0] != '0'
    ensures |Decimal(n)| > 1 ==> n >= 10
    ensures DecimalValue(Decimal(n)) == n
  {
    if n < 10 {
      assert Decimal(n)[..0] == "";
    } else {
      DecimalShape(n / 10);
      assert Decimal(n)[..|Decimal(n)| - 1] == Decimal(n / 10);
    }
  }

  /** Every index survives printing and parsing. */
  lemma IndexRoundTrip(n: nat)
    ensures ParseIndex(Decimal(n)) == Some(n)
  {
    DecimalShape(n);
  }

  /** Only one token names an index: the one that `std::to_string` prints. */
  lemma {:induction false} IndexTokenIsCanonical(token: string)
    requires ParseIndex(token).Some?
    ensures token == Decimal(ParseIndex(token).value)
    decreases |token|
  {
    var init, last := token[..|token| - 1], token[|token| - 1];
    if init == "" {
      assert token == [last];
      assert DecimalValue(token) == last as int - '0' as int;
    } else {
      IndexTokenIsCanonical(init);
      DecimalShape(DecimalValue(init));
      assert init[0] == token[0] != '0';
      assert DecimalValue(init) > 0;
      assert token == init + [last];
    }
  }

  lemma DecimalIsCleanKey(n: nat)
    ensures CleanKey(Decimal(n)) && Decimal(n) != "-"
  {
    DecimalShape(n);
    assert Decimal(n) != "-" by {
      assert '0' <= Decimal(n)[0];
    }
  }

  lemma DecimalInjective(a: nat, b: nat)
    requires Decimal(a) == Decimal(b)
    ensures a == b
  {
    IndexRoundTrip(a);
    IndexRoundTrip(b);
  }

  // ---- Pointers ----

  /** Undoes the escapes "~1" and "~0"; any other use of '~' is an error. */
  function Unescape(token: string): Option<string> {
    if token == "" then Some("")
    else if token[0] != '~' then
      match Unescape(token[1..])
      case None => None
      case Some(rest) => Some([token[0]] + rest)
    else if |token| > 1 && (token[1] == '0' || token[1] == '1') then
      match Unescape(token[2..])
      case None => None
      case Some(rest) => Some([if token[1] == '0' then '~' else '/'] + rest)
    else None
  }

  /** Where the token that starts at `from` ends: at the next '/' or at the end of the string. */
  function TokenEnd(s: string, from: nat): (end: nat)
    requires from <= |s|
    ensures from <= end <= |s|
    ensures end < |s| ==> s[end] == '/'
    ensures forall i :: from <= i < end ==> s[i] != '/'
    decreases |s| - from
  {
    if from == |s| || s[from] == '/' then from else TokenEnd(s, from + 1)
  }

  /** The reference tokens of a pointer (sections 3 and 4 of RFC 6901). */
  function ParsePointer(s: string): Option<Tokens>
    decreases |s|
  {
    if s == "" then Some([])
    else if s[0] != '/' then None
    else
      var end := TokenEnd(s, 1);
      match (Unescape(s[1..end]), ParsePointer(s[end..]))
      case (Some(token), Some(rest)) => Some([token] + rest)
      case (_, _) => None
  }

  lemma {:induction false} UnescapeClean(token: string)
    requires '~' !in token
    ensures Unescape(token) == Some(token)
  {
    if token != "" {
      UnescapeClean(token[1..]);
      assert token == [token[0]] + token[1..];
    }
  }

  lemma TokenEndIs(s: string, from: nat, end: nat)
    requires from <= end <= |s|
    requires forall i :: from <= i < end ==> s[i] != '/'
    requires end == |s| || s[end] == '/'
    ensures TokenEnd(s, from) == end
  {
  }

  /** Extending a path with "/" and a token extends its tokens with what the token stands for. */
  lemma {:induction false} ParseToken(path: string, token: string)
    requires ParsePointer(path).Some? && '/' !in token && Unescape(token).Some?
    ensures ParsePointer(path + "/" + token) == Some(ParsePointer(path).value + [Unescape(token).value])
    decreases |path|
  {
    var longer, key := path + "/" + token, Unescape(token).value;
    if path == "" {
      assert longer == "/" + token;
      TokenEndIs(longer, 1, |longer|);
      assert longer[1..|longer|] == token && longer[|longer|..] == "";
      var none: Tokens := [];
      assert ParsePointer("") == Some(none);
      assert [key] + none == none + [key];
    } else {
      var end := TokenEnd(path, 1);
      TokenEndIs(longer, 1, end);
      assert longer[1..end] == path[1..end];
      assert longer[end..] == path[end..] + "/" + token;
      ParseToken(path[end..], token);
      var head, rest := Unescape(path[1..end]).value, ParsePointer(path[end..]).value;
      assert [head] + (rest + [key]) == [head] + rest + [key];
    }
  }

  /** Extending a path with "/" and a clean key extends its tokens with exactly that key. */
  lemma ParseExtended(path: string, key: string)
    requires ParsePointer(path).Some? && CleanKey(key)
    ensures ParsePointer(path + "/" + key) == Some(ParsePointer(path).value + [key])
  {
    UnescapeClean(key);
    ParseToken(path, key);
  }

  // ---- What an escaped key would be read as ----

  /** The escapes of section 3 of RFC 6901, which `json_diff` leaves out. */
  function Escape(key: string): string {
    if key == "" then ""
    else (if key[0] == '~' then "~0" else if key[0] == '/' then "~1" else [key[0]]) + Escape(key[1..])
  }

  lemma {:induction false} EscapeRoundTrip(key: string)
    ensures '/' !in Escape(key) && Unescape(Escape(key)) == Some(key)
  {
    if key != "" {
      EscapeRoundTrip(key[1..]);
      var code := if key[0] == '~' then "~0" else if key[0] == '/' then "~1" else [key[0]];
      var token := Escape(key);
      assert token == code + Escape(key[1..]) && token[|code|..] == Escape(key[1..]);
      assert key == [key[0]] + key[1..];
    }
  }

  /** With escapes, every key would be read as itself. */
  lemma EscapedKeyIsRead(path: string, key: string)
    requires ParsePointer(path).Some?
    ensures ParsePointer(path + "/" + Escape(key)) == Some(ParsePointer(path).value + [key])
  {
    EscapeRoundTrip(key);
    ParseToken(path, Escape(key));
  }
}
