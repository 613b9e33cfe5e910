/** What the JSON files do to strings (cmd/helpers.go:356-383): json.MarshalIndent
    replaces every byte that does not begin a valid UTF-8 sequence with the
    encoding of U+FFFD, and json.Unmarshal does the same on the way back, so a
    stored string is always valid UTF-8 and a valid one is stored unchanged. The
    validity test is utf8.DecodeRuneInString's: a byte below 0x80, or a
    two-, three- or four-byte sequence within the ranges of the Unicode
    standard (no overlong forms, no surrogates, nothing above U+10FFFF). */
module Json {
  import opened Types

  /** The bytes of U+FFFD, the replacement character. */
  const Replacement: string := ['\U{EF}', '\U{BF}', '\U{BD}']

  predicate InRange(c: char, lo: int, hi: int) {
    lo <= c as int <= hi
  }

  /** The length of the valid UTF-8 sequence `s` starts with, 0 when its first
      character does not begin one. */
  function SequenceLength(s: string): (n: nat)
    requires |s| > 0
    ensures n <= 4 && n <= |s|
    ensures s[0] as int < 0x80 <==> n == 1
  {
    var b := s[0] as int;
    if b < 0x80 then 1
    else if 0xC2 <= b <= 0xDF then
      if |s| >= 2 && InRange(s[1], 0x80, 0xBF) then 2 else 0
    else if 0xE0 <= b <= 0xEF then
      var lo := if b == 0xE0 then 0xA0 else 0x80;
      var hi := if b == 0xED then 0x9F else 0xBF;
      if |s| >= 3 && InRange(s[1], lo, hi) && InRange(s[2], 0x80, 0xBF) then 3 else 0
    else if 0xF0 <= b <= 0xF4 then
      var lo := if b == 0xF0 then 0x90 else 0x80;
      var hi := if b == 0xF4 then 0x8F else 0xBF;
      if |s| >= 4 && InRange(s[1], lo, hi) && InRange(s[2], 0x80, 0xBF) && InRange(s[3], 0x80, 0xBF) then 4 else 0
    else 0
  }

  /** `s` is a sequence of valid UTF-8 encodings. */
  predicate ValidUtf8(s: string)
    decreases |s|
  {
    s == [] || (SequenceLength(s) > 0 && ValidUtf8(s[SequenceLength(s)..]))
  }

  /** The sequence length depends only on the sequence itself. */
  lemma SequenceLengthPrefix(s: string, t: string)
    requires |s| > 0 && SequenceLength(s) > 0
    ensures SequenceLength(s[..SequenceLength(s)] + t) == SequenceLength(s)
  {
    var n := SequenceLength(s);
    var u := s[..n] + t;
    assert forall k :: 0 <= k < n ==> u[k] == s[k];
  }

  /** A valid sequence followed by valid text is valid text. */
  lemma ValidPrepend(s: string, t: string)
    requires |s| > 0 && SequenceLength(s) > 0 && ValidUtf8(t)
    ensures ValidUtf8(s[..SequenceLength(s)] + t)
  {
    var n := SequenceLength(s);
    SequenceLengthPrefix(s, t);
    assert (s[..n] + t)[n..] == t;
  }

  /** The string as the JSON files store it: each character that does not
      begin a valid sequence becomes U+FFFD. The result is valid UTF-8, never
      shorter, and a valid string is stored as it is. */
  function Coerce(s: string): (t: string)
    ensures ValidUtf8(t)
    ensures |t| >= |s|
    ensures ValidUtf8(s) ==> t == s
    decreases |s|
  {
    if s == [] then []
    else
      var n := SequenceLength(s);
      if n == 0 then
        var rest := Coerce(s[1..]);
        assert SequenceLength(Replacement) == 3;
        ValidPrepend(Replacement, rest);
        assert Replacement[..3] == Replacement;
        Replacement + rest
      else
        var rest := Coerce(s[n..]);
        ValidPrepend(s, rest);
        assert s[..n] + s[n..] == s;
        s[..n] + rest
  }

  /** Storing is not injective: a lone 0xFF byte and the bytes of U+FFFD are
      stored as the same string. */
  lemma CoerceMerges()
    ensures ['\U{FF}'] != Replacement
    ensures Coerce(['\U{FF}']) == Coerce(Replacement) == Replacement
  {
    var ff: string := ['\U{FF}'];
    assert SequenceLength(ff) == 0;
    assert ff[1..] == [];
    assert Coerce(ff) == Replacement + Coerce([]);
    assert SequenceLength(Replacement) == 3 && Replacement[3..] == [];
    assert ValidUtf8(Replacement);
  }

  /** A device record as stored. */
  function StoredDevice(d: DeviceInfo): DeviceInfo {
    DeviceInfo(Coerce(d.name), Coerce(d.identifier))
  }

  /** A token as stored; its expiry is a number and is kept as it is. */
  function StoredToken(t: Token): Token {
    Token(Coerce(t.deviceId), Coerce(t.secret), t.expiredAt)
  }

  /** Every string of the device records is valid UTF-8: the records are as
      json.Unmarshal produces them. */
  predicate DevicesDecoded(devices: seq<DeviceInfo>) {
    forall d | d in devices :: ValidUtf8(d.name) && ValidUtf8(d.identifier)
  }

  /** Every string of the tokens is valid UTF-8. */
  predicate TokensDecoded(tokens: seq<Token>) {
    forall t | t in tokens :: ValidUtf8(t.deviceId) && ValidUtf8(t.secret)
  }

  /** The device list as writeJSONFile stores it. */
  function StoredDevices(devices: seq<DeviceInfo>): (r: seq<DeviceInfo>)
    ensures |r| == |devices|
    ensures forall i :: 0 <= i < |devices| ==> r[i] == StoredDevice(devices[i])
  {
    seq(|devices|, i requires 0 <= i < |devices| => StoredDevice(devices[i]))
  }

  /** The token list as writeJSONFile stores it. */
  function StoredTokens(tokens: seq<Token>): (r: seq<Token>)
    ensures |r| == |tokens|
    ensures forall i :: 0 <= i < |tokens| ==> r[i] == StoredToken(tokens[i])
  {
    seq(|tokens|, i requires 0 <= i < |tokens| => StoredToken(tokens[i]))
  }

  /** Storing yields decoded records, and decoded records are stored as they are. */
  lemma StoredDevicesDecoded(devices: seq<DeviceInfo>)
    ensures DevicesDecoded(StoredDevices(devices))
    ensures DevicesDecoded(devices) ==> StoredDevices(devices) == devices
  {
    var r := StoredDevices(devices);
    forall d | d in r
      ensures ValidUtf8(d.name) && ValidUtf8(d.identifier)
    {
      var i :| 0 <= i < |r| && r[i] == d;
    }
    if DevicesDecoded(devices) {
      forall i | 0 <= i < |devices|
        ensures r[i] == devices[i]
      {
        assert devices[i] in devices;
      }
    }
  }

  /** Storing yields decoded tokens, and decoded tokens are stored as they are. */
  lemma StoredTokensDecoded(tokens: seq<Token>)
    ensures TokensDecoded(StoredTokens(tokens))
    ensures TokensDecoded(tokens) ==> StoredTokens(tokens) == tokens
  {
    var r := StoredTokens(tokens);
    forall t | t in r
      ensures ValidUtf8(t.deviceId) && ValidUtf8(t.secret)
    {
      var i :| 0 <= i < |r| && r[i] == t;
    }
    if TokensDecoded(tokens) {
      forall i | 0 <= i < |tokens|
        ensures r[i] == tokens[i]
      {
        assert tokens[i] in tokens;
      }
    }
  }
}
