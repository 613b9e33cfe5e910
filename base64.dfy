/** Standard base64 (section 4 of RFC 4648) with the behaviour of Go's
    base64.StdEncoding: padded to a multiple of four characters, carriage
    returns and line feeds ignored, non-zero trailing bits accepted.
    Go strings are byte strings; here a byte string is a string whose every
    character is below 256. */
module Base64 {
  import opened Types

  predicate IsByteString(s: string) {
    forall i :: 0 <= i < |s| ==> s[i] as int < 256
  }

  /** The character of the standard alphabet for a 6-bit value. */
  function Digit(v: int): char
    requires 0 <= v < 64
  {
    if v < 26 then (65 + v) as char           // 'A' .. 'Z'
    else if v < 52 then (97 + v - 26) as char // 'a' .. 'z'
    else if v < 62 then (48 + v - 52) as char // '0' .. '9'
    else if v == 62 then '+'
    else '/'
  }

  /** The 6-bit value of an alphabet character, -1 for every other character. */
  function Value(c: char): (v: int)
    ensures -1 <= v < 64
    ensures 0 <= v ==> Digit(v) == c
  {
    if 'A' <= c <= 'Z' then c as int - 65
    else if 'a' <= c <= 'z' then c as int - 97 + 26
    else if '0' <= c <= '9' then c as int - 48 + 52
    else if c == '+' then 62
    else if c == '/' then 63
    else -1
  }

  const Pad := '='

  /** The four characters that encode one group of three bytes. */
  function EncodeTriple(x: int, y: int, z: int): string
    requires 0 <= x < 256 && 0 <= y < 256 && 0 <= z < 256
  {
    [Digit(x / 4), Digit(x % 4 * 16 + y / 16), Digit(y % 16 * 4 + z / 64), Digit(z % 64)]
  }

  /** base64.StdEncoding.EncodeToString. */
  function Encode(s: string): (e: string)
    requires IsByteString(s)
    ensures |e| == (|s| + 2) / 3 * 4
  {
    if |s| == 0 then ""
    else if |s| == 1 then
      var x := s[0] as int;
      [Digit(x / 4), Digit(x % 4 * 16), Pad, Pad]
    else if |s| == 2 then
      var x, y := s[0] as int, s[1] as int;
      [Digit(x / 4), Digit(x % 4 * 16 + y / 16), Digit(y % 16 * 4), Pad]
    else
      EncodeTriple(s[0] as int, s[1] as int, s[2] as int) + Encode(s[3..])
  }

  /** Every character is an alphabet character or padding. */
  predicate InAlphabet(e: string) {
    forall i :: 0 <= i < |e| ==> e[i] == Pad || 0 <= Value(e[i])
  }

  lemma AlphabetConcat(a: string, b: string)
    requires InAlphabet(a) && InAlphabet(b)
    ensures InAlphabet(a + b)
  {
    forall i | 0 <= i < |a + b|
      ensures (a + b)[i] == Pad || 0 <= Value((a + b)[i])
    {
      if i >= |a| {
        assert (a + b)[i] == b[i - |a|];
      }
    }
  }

  lemma TripleInAlphabet(x: int, y: int, z: int)
    requires 0 <= x < 256 && 0 <= y < 256 && 0 <= z < 256
    ensures InAlphabet(EncodeTriple(x, y, z))
  {
    DigitValue(x / 4); DigitValue(x % 4 * 16 + y / 16); DigitValue(y % 16 * 4 + z / 64); DigitValue(z % 64);
  }

  /** An encoding uses only the alphabet and padding. */
  lemma {:induction false} EncodeInAlphabet(s: string)
    requires IsByteString(s)
    ensures InAlphabet(Encode(s))
    decreases |s|
  {
    if |s| == 1 {
      var x := s[0] as int;
      DigitValue(x / 4); DigitValue(x % 4 * 16);
    } else if |s| == 2 {
      var x, y := s[0] as int, s[1] as int;
      DigitValue(x / 4); DigitValue(x % 4 * 16 + y / 16); DigitValue(y % 16 * 4);
    } else if |s| >= 3 {
      TripleInAlphabet(s[0] as int, s[1] as int, s[2] as int);
      EncodeInAlphabet(s[3..]);
      AlphabetConcat(EncodeTriple(s[0] as int, s[1] as int, s[2] as int), Encode(s[3..]));
    }
  }

  /** The input with line feeds and carriage returns dropped: Go's decoder skips them. */
  function WithoutNewlines(s: string): (t: string)
    ensures '\n' !in t && '\r' !in t
  {
    if s == [] then []
    else (if s[0] == '\n' || s[0] == '\r' then [] else [s[0]]) + WithoutNewlines(s[1..])
  }

  /** Decodes one group of four characters. Only the last group may end in
      padding ("xy==" gives one byte, "xyz=" two). */
  function DecodeQuadruple(q: string, last: bool): (r: Option<string>)
    requires |q| == 4
    ensures r.Some? ==> IsByteString(r.value) && 1 <= |r.value| <= 3
  {
    var a, b, c, d := Value(q[0]), Value(q[1]), Value(q[2]), Value(q[3]);
    if a < 0 || b < 0 then None
    else if 0 <= c && 0 <= d then
      Some([(a * 4 + b / 16) as char, (b % 16 * 16 + c / 4) as char, (c % 4 * 64 + d) as char])
    else if !last then None
    else if 0 <= c && q[3] == Pad then
      Some([(a * 4 + b / 16) as char, (b % 16 * 16 + c / 4) as char])
    else if q[2] == Pad && q[3] == Pad then
      Some([(a * 4 + b / 16) as char])
    else None
  }

  /** Decodes a newline-free input group by group; a length that is not a
      multiple of four is an error. */
  function DecodeGroups(t: string): (r: Option<string>)
    ensures r.Some? ==> IsByteString(r.value)
    decreases |t|
  {
    if |t| == 0 then Some("")
    else if |t| < 4 then None
    else
      match DecodeQuadruple(t[..4], |t| == 4)
      case None => None
      case Some(bytes) =>
        if |t| == 4 then Some(bytes)
        else
          match DecodeGroups(t[4..])
          case None => None
          case Some(rest) => Some(bytes + rest)
  }

  /** base64.StdEncoding.DecodeString; None stands for its error. */
  function Decode(s: string): (r: Option<string>)
    ensures r.Some? ==> IsByteString(r.value)
  {
    DecodeGroups(WithoutNewlines(s))
  }

  lemma DigitValue(v: int)
    requires 0 <= v < 64
    ensures Value(Digit(v)) == v
  {
  }

  /** Round trip of one group of three bytes. */
  lemma TripleRoundTrip(x: int, y: int, z: int)
    requires 0 <= x < 256 && 0 <= y < 256 && 0 <= z < 256
    ensures DecodeQuadruple(EncodeTriple(x, y, z), true) == Some([x as char, y as char, z as char])
    ensures DecodeQuadruple(EncodeTriple(x, y, z), false) == Some([x as char, y as char, z as char])
  {
    var a, b, c, d := x / 4, x % 4 * 16 + y / 16, y % 16 * 4 + z / 64, z % 64;
    DigitValue(a); DigitValue(b); DigitValue(c); DigitValue(d);
    assert a * 4 + b / 16 == x;
    assert b % 16 * 16 + c / 4 == y;
    assert c % 4 * 64 + d == z;
  }

  /** An encoding contains neither line feeds nor carriage returns. */
  lemma {:induction false} WithoutNewlinesOfEncoding(e: string)
    requires InAlphabet(e)
    ensures WithoutNewlines(e) == e
  {
    if e != [] {
      assert e[0] != '\n' && e[0] != '\r';
      WithoutNewlinesOfEncoding(e[1..]);
      assert e == [e[0]] + e[1..];
    }
  }

  /** The final group "xy==" decodes to its one byte. */
  lemma SingleQuadruple(x: int)
    requires 0 <= x < 256
    ensures DecodeQuadruple([Digit(x / 4), Digit(x % 4 * 16), Pad, Pad], true) == Some([x as char])
  {
    var a, b := x / 4, x % 4 * 16;
    DigitValue(a); DigitValue(b);
    var q := [Digit(a), Digit(b), Pad, Pad];
    assert Value(q[0]) == a && Value(q[1]) == b && Value(q[2]) == -1 && Value(q[3]) == -1;
    assert a * 4 + b / 16 == x;
  }

  /** The final group "xyz=" decodes to its two bytes. */
  lemma PairQuadruple(x: int, y: int)
    requires 0 <= x < 256 && 0 <= y < 256
    ensures DecodeQuadruple([Digit(x / 4), Digit(x % 4 * 16 + y / 16), Digit(y % 16 * 4), Pad], true) ==
      Some([x as char, y as char])
  {
    var a, b, c := x / 4, x % 4 * 16 + y / 16, y % 16 * 4;
    DigitValue(a); DigitValue(b); DigitValue(c);
    var q := [Digit(a), Digit(b), Digit(c), Pad];
    assert Value(q[0]) == a && Value(q[1]) == b && Value(q[2]) == c && Value(q[3]) == -1;
    assert a * 4 + b / 16 == x;
    assert b % 16 * 16 + c / 4 == y;
  }

  /** Round trip of a final single byte, encoded as "xy==". */
  lemma SingleRoundTrip(s: string)
    requires IsByteString(s) && |s| == 1
    ensures DecodeGroups(Encode(s)) == Some(s)
  {
    var x := s[0] as int;
    var e := Encode(s);
    assert e == [Digit(x / 4), Digit(x % 4 * 16), Pad, Pad];
    assert e[..4] == e;
    SingleQuadruple(x);
    assert [x as char] == s;
  }

  /** Round trip of two final bytes, encoded as "xyz=". */
  lemma PairRoundTrip(s: string)
    requires IsByteString(s) && |s| == 2
    ensures DecodeGroups(Encode(s)) == Some(s)
  {
    var x, y := s[0] as int, s[1] as int;
    var e := Encode(s);
    assert e == [Digit(x / 4), Digit(x % 4 * 16 + y / 16), Digit(y % 16 * 4), Pad];
    assert e[..4] == e;
    PairQuadruple(x, y);
    assert [x as char, y as char] == s;
  }

  lemma {:induction false} DecodeGroupsOfEncoding(s: string)
    requires IsByteString(s)
    ensures DecodeGroups(Encode(s)) == Some(s)
    decreases |s|
  {
    if |s| == 1 {
      SingleRoundTrip(s);
    } else if |s| == 2 {
      PairRoundTrip(s);
    } else if |s| >= 3 {
      var head := s[..3];
      var tail := s[3..];
      var q := EncodeTriple(s[0] as int, s[1] as int, s[2] as int);
      var e := Encode(s);
      assert e == q + Encode(tail);
      assert e[..4] == q;
      TripleRoundTrip(s[0] as int, s[1] as int, s[2] as int);
      assert [s[0], s[1], s[2]] == head;
      if |s| == 3 {
        assert head == s;
      } else {
        assert e[4..] == Encode(tail);
        DecodeGroupsOfEncoding(tail);
        assert head + tail == s;
      }
    }
  }

  /** Decoding undoes encoding (section 4 of RFC 4648). */
  lemma DecodeEncode(s: string)
    requires IsByteString(s)
    ensures Decode(Encode(s)) == Some(s)
  {
    EncodeInAlphabet(s);
    WithoutNewlinesOfEncoding(Encode(s));
    DecodeGroupsOfEncoding(s);
  }
}
