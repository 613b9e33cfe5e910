/** The session authenticator (cmd/auth.go): a JSON file of issued tokens,
    the parser of the `Authorization: Basic ...` header, and the single-use
    token check. */
module Auth {
  import opened Types
  import opened Strings
  import opened Json
  import Base64

  /** AUTH_SCHEMA: the header prefix, case-sensitive and with its trailing space. */
  const AuthSchema := "Basic "

  /** The identifier and secret a client presents. */
  datatype Credentials = Credentials(id: string, password: string)

  /** extractAuthHeader: the value of the Authorization header must start with
      "Basic ", the rest must be standard base64, and the decoded text must
      split on ':' into exactly two fields. */
  function ExtractAuthHeader(header: string): (r: Result<Credentials>)
    ensures !HasPrefix(header, AuthSchema) ==> r == Err(SchemeError)
    ensures HasPrefix(header, AuthSchema) && Base64.Decode(header[|AuthSchema|..]).None? ==> r == Err(EncodingError)
    ensures
      (HasPrefix(header, AuthSchema) && Base64.Decode(header[|AuthSchema|..]).Some? &&
       Count(Base64.Decode(header[|AuthSchema|..]).value, ':') != 1)
      ==> r == Err(IncompleteHeader)
    ensures r.Ok? <==>
      HasPrefix(header, AuthSchema) && Base64.Decode(header[|AuthSchema|..]).Some? &&
      Count(Base64.Decode(header[|AuthSchema|..]).value, ':') == 1
    ensures r.Ok? ==>
      HasPrefix(header, AuthSchema) &&
      Base64.Decode(header[|AuthSchema|..]) == Some(r.value.id + ":" + r.value.password) &&
      ':' !in r.value.id && ':' !in r.value.password
  {
    if !HasPrefix(header, AuthSchema) then Err(SchemeError)
    else
      match Base64.Decode(header[|AuthSchema|..])
      case None => Err(EncodingError)
      case Some(auth) =>
        var authArr := Split(auth, ':');
        if |authArr| != 2 then Err(IncompleteHeader)
        else
          SplitInTwo(auth, ':');
          Ok(Credentials(authArr[0], authArr[1]))
  }

  /** The header a client builds from its identifier and secret is parsed back
      into exactly that pair. */
  lemma BasicHeaderRoundTrip(id: string, password: string)
    requires ':' !in id && ':' !in password
    requires Base64.IsByteString(id) && Base64.IsByteString(password)
    ensures ExtractAuthHeader(AuthSchema + Base64.Encode(id + ":" + password)) == Ok(Credentials(id, password))
  {
    var payload := id + ":" + password;
    assert payload == id + [':'] + password;
    assert Base64.IsByteString(payload) by {
      forall i | 0 <= i < |payload|
        ensures payload[i] as int < 256
      {
        if i < |id| {
          assert payload[i] == id[i];
        } else if |id| < i {
          assert payload[i] == password[i - |id| - 1];
        }
      }
    }
    var header := AuthSchema + Base64.Encode(payload);
    assert header[..|AuthSchema|] == AuthSchema;
    assert header[|AuthSchema|..] == Base64.Encode(payload);
    Base64.DecodeEncode(payload);
    SplitPair(id, password, ':');
  }

  /** A stored token lets `id` in with `secret` at time `now`. */
  predicate Admits(t: Token, id: string, secret: string, now: Time) {
    t.deviceId == id && t.secret == secret && now < t.expiredAt
  }

  /** Some stored token lets `id` in with `secret` at time `now`. */
  predicate Authenticates(tokens: seq<Token>, id: string, secret: string, now: Time) {
    exists k :: 0 <= k < |tokens| && Admits(tokens[k], id, secret, now)
  }

  lemma AuthenticatesSnoc(tokens: seq<Token>, t: Token, id: string, secret: string, now: Time)
    ensures Authenticates(tokens + [t], id, secret, now) <==>
      Authenticates(tokens, id, secret, now) || Admits(t, id, secret, now)
  {
    var s := tokens + [t];
    assert s[|tokens|] == t;
    if Authenticates(tokens, id, secret, now) {
      var k :| 0 <= k < |tokens| && Admits(tokens[k], id, secret, now);
      assert s[k] == tokens[k];
    }
    if Authenticates(s, id, secret, now) && !Admits(t, id, secret, now) {
      var k :| 0 <= k < |s| && Admits(s[k], id, secret, now);
      assert s[k] == tokens[k];
    }
  }

  /** The tokens that verifyToken keeps after a successful check: unexpired ones
      that do not carry the presented secret, in their original order. */
  function Retained(tokens: seq<Token>, secret: string, now: Time): seq<Token> {
    if tokens == [] then []
    else
      var last := tokens[|tokens| - 1];
      Retained(tokens[..|tokens| - 1], secret, now) +
        (if now < last.expiredAt && last.secret != secret then [last] else [])
  }

  /** The header is well formed and a stored token admits the pair it carries. */
  predicate Matches(tokens: seq<Token>, header: string, now: Time) {
    && ExtractAuthHeader(header).Ok?
    && Authenticates(tokens, ExtractAuthHeader(header).value.id, ExtractAuthHeader(header).value.password, now)
  }

  /** The header matches and the token file can be read and rewritten:
      verifyToken returns (true, nil). */
  predicate Accepted(tokens: seq<Token>, header: string, now: Time, io: StoreIo) {
    Matches(tokens, header, now) && io.Succeeds()
  }

  /** The pass of verifyToken over the stored tokens: `ok` tells whether a
      token admits the pair, and `newTokens` collects the unexpired tokens
      with another secret, in order. */
  method ScanTokens(list: seq<Token>, id: string, secret: string, now: Time) returns (ok: bool, newTokens: seq<Token>)
    ensures ok == Authenticates(list, id, secret, now)
    ensures newTokens == Retained(list, secret, now)
  {
    newTokens := [];
    ok := false;
    for i := 0 to |list|
      invariant ok == Authenticates(list[..i], id, secret, now)
      invariant newTokens == Retained(list[..i], secret, now)
    {
      assert list[..i + 1][..i] == list[..i];
      assert list[..i + 1] == list[..i] + [list[i]];
      AuthenticatesSnoc(list[..i], list[i], id, secret, now);
      var token := list[i];
      if id == token.deviceId && secret == token.secret && now < token.expiredAt {
        ok := true;
      }
      if now < token.expiredAt && token.secret != secret {
        newTokens := newTokens + [token];
      }
    }
    assert list[..|list|] == list;
  }

  /** The tokens file. */
  class TokenStore {
    var tokens: seq<Token>

    constructor (tokens: seq<Token>)
      ensures this.tokens == tokens
    {
      this.tokens := tokens;
    }

    /** The field holds what reading the file gives: every string valid UTF-8. */
    predicate Decoded()
      reads this
    {
      TokensDecoded(tokens)
    }

    /** readTokens. */
    method ReadTokens(readOk: bool) returns (r: Result<seq<Token>>)
      ensures r == if readOk then Ok(tokens) else Err(StoreError)
    {
      r := if readOk then Ok(tokens) else Err(StoreError);
    }

    /** writeJSONFile of the tokens file: the list as stored, or, when the
        write fails, the file as it was. */
    method WriteTokens(list: seq<Token>, writeOk: bool) returns (r: Outcome)
      requires Decoded()
      modifies this
      ensures Decoded()
      ensures tokens == if writeOk then StoredTokens(list) else old(tokens)
      ensures r == if writeOk then Pass else Fail(StoreError)
    {
      if writeOk {
        StoredTokensDecoded(list);
        tokens := StoredTokens(list);
        r := Pass;
      } else {
        r := Fail(StoreError);
      }
    }

    /** saveToken: appends the token, as stored, with no uniqueness check. */
    method SaveToken(t: Token, io: StoreIo) returns (r: Outcome)
      requires Decoded()
      modifies this
      ensures Decoded()
      ensures tokens == if io.Succeeds() then old(tokens) + [StoredToken(t)] else old(tokens)
      ensures r == if io.Succeeds() then Pass else Fail(StoreError)
    {
      var list := ReadTokens(io.readOk);
      if list.Err? {
        return Fail(list.error);
      }
      StoredTokensAppend(list.value, t);
      r := WriteTokens(list.value + [t], io.writeOk);
    }

    /** verifyToken: one pass over the stored tokens sets the success flag and
        collects the tokens to keep; the file is rewritten only on success.
        A malformed header is reported before the file is read. */
    method VerifyToken(header: string, now: Time, io: StoreIo) returns (r: Result<bool>)
      requires Decoded()
      modifies this
      ensures Decoded()
      ensures r == Ok(true) <==> Accepted(old(tokens), header, now, io)
      ensures tokens == if Accepted(old(tokens), header, now, io)
                        then Retained(old(tokens), ExtractAuthHeader(header).value.password, now)
                        else old(tokens)
      ensures ExtractAuthHeader(header).Err? ==> r == Err(ExtractAuthHeader(header).error)
      ensures ExtractAuthHeader(header).Ok? && !io.readOk ==> r == Err(StoreError)
      ensures ExtractAuthHeader(header).Ok? && io.readOk && !Matches(old(tokens), header, now) ==> r == Ok(false)
      ensures Matches(old(tokens), header, now) && io.readOk && !io.writeOk ==> r == Err(StoreError)
    {
      var credentials := ExtractAuthHeader(header);
      if credentials.Err? {
        return Err(credentials.error);
      }
      var id, secret := credentials.value.id, credentials.value.password;
      var stored := ReadTokens(io.readOk);
      if stored.Err? {
        return Err(stored.error);
      }
      var ok, newTokens := ScanTokens(stored.value, id, secret, now);
      if !ok {
        return Ok(false);
      }
      RetainedDecoded(stored.value, secret, now);
      StoredTokensDecoded(newTokens);
      var written := WriteTokens(newTokens, io.writeOk);
      if written.Fail? {
        return Err(written.error);
      }
      return Ok(true);
    }
  }

  /** A token is kept exactly when it was stored, is unexpired and carries
      another secret: the used token, every expired token and every token of
      another device with the same secret are dropped. */
  lemma {:induction false} RetainedMembers(tokens: seq<Token>, secret: string, now: Time, t: Token)
    ensures t in Retained(tokens, secret, now) <==> t in tokens && now < t.expiredAt && t.secret != secret
  {
    if tokens != [] {
      var init := tokens[..|tokens| - 1];
      RetainedMembers(init, secret, now, t);
      assert tokens == init + [tokens[|tokens| - 1]];
    }
  }

  /** Appending to decoded tokens stores the new token and keeps the rest. */
  lemma StoredTokensAppend(tokens: seq<Token>, t: Token)
    requires TokensDecoded(tokens)
    ensures StoredTokens(tokens + [t]) == tokens + [StoredToken(t)]
  {
    StoredTokensDecoded(tokens);
    var r := StoredTokens(tokens + [t]);
    forall i | 0 <= i < |tokens|
      ensures r[i] == tokens[i]
    {
      assert (tokens + [t])[i] == tokens[i];
      assert tokens[i] in tokens;
    }
  }

  /** The kept tokens of decoded tokens are decoded. */
  lemma RetainedDecoded(tokens: seq<Token>, secret: string, now: Time)
    requires TokensDecoded(tokens)
    ensures TokensDecoded(Retained(tokens, secret, now))
  {
    forall t | t in Retained(tokens, secret, now)
      ensures ValidUtf8(t.deviceId) && ValidUtf8(t.secret)
    {
      RetainedMembers(tokens, secret, now, t);
    }
  }

  /** The kept tokens stay in their original order. */
  lemma {:induction false} RetainedConcat(a: seq<Token>, b: seq<Token>, secret: string, now: Time)
    ensures Retained(a + b, secret, now) == Retained(a, secret, now) + Retained(b, secret, now)
  {
    if b == [] {
      assert a + b == a;
    } else {
      var init := b[..|b| - 1];
      assert (a + b)[..|a + b| - 1] == a + init;
      assert (a + b)[|a + b| - 1] == b[|b| - 1];
      RetainedConcat(a, init, secret, now);
    }
  }

  /** Single use: once a header has been accepted, the same header is never
      accepted again, at any later (or earlier) time. */
  lemma SingleUse(tokens: seq<Token>, header: string, now: Time, io: StoreIo, later: Time, io': StoreIo)
    requires Accepted(tokens, header, now, io)
    ensures !Accepted(Retained(tokens, ExtractAuthHeader(header).value.password, now), header, later, io')
  {
    var c := ExtractAuthHeader(header).value;
    var kept := Retained(tokens, c.password, now);
    if Authenticates(kept, c.id, c.password, later) {
      var k :| 0 <= k < |kept| && Admits(kept[k], c.id, c.password, later);
      RetainedMembers(tokens, c.password, now, kept[k]);
    }
  }
}
