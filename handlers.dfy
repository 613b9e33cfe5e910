/** The request handlers (cmd/handlers.go) that drive the registry, the token
    store and the presence advertiser, and the whole-system registry
    invariant. A handler answers with a Response value, except `upload`,
    whose UploadOutcome is either the Response that ended the request or the
    url and text it selected. Request decoding, file access, randomness and
    the clock are parameters. */
module Handlers {
  import opened Types
  import opened Devices
  import opened Auth
  import opened Json
  import Base64
  import Presence

  const StatusOK := 200
  const StatusBadRequest := 400

  /** How long an issued token admits its device. */
  const TokenLifetime := 5 * Minute

  /** What a handler writes back: http.Error with a status (clientError), the
      500 of serverError with the error it logs, or a JSON object. */
  datatype Response = ClientError(status: int) | ServerError(error: Error) | Json(status: int, body: map<string, string>)

  function Message(status: int, text: string): Response {
    Json(status, map["message" := text])
  }

  const AlreadyConnected := "Already connected!"
  const AddedToPending := "Added your device to the pending list. Waiting for device verification..."
  const ReadyToConnect := "I'm ready, let's connect!"
  const InvalidToken := "Invalid token"
  const UpdatedLists := "Updated device lists successfully"
  const RefreshedOk := "Refreshed successfully"

  /** verifyPostForm and removeDeviceForm. */
  datatype VerifyForm = VerifyForm(id: string, allow: bool)
  datatype RemoveForm = RemoveForm(id: string)

  /** A request to one of the three handlers that change the device files,
      with the decoded form and the outcomes of the file accesses it makes. */
  datatype DeviceRequest =
    | AddDeviceRequest(form: Result<DeviceInfo>, savedReadOk: bool, pendingIo: StoreIo)
    | VerifyRequest(verify: Result<VerifyForm>, pendingIo: StoreIo, savedIo: StoreIo)
    | RemoveRequest(remove: Result<RemoveForm>, savedIo: StoreIo)

  /** The registry after one request. */
  function Next(reg: Registry, req: DeviceRequest): Registry {
    match req
    case AddDeviceRequest(form, savedReadOk, pendingIo) =>
      var client := GetClientInfo(form);
      if client.Ok? && savedReadOk && client.value.identifier !in Identifiers(reg.saved) && pendingIo.Succeeds()
      then Registry(reg.pending + [StoredDevice(client.value)], reg.saved)
      else reg
    case VerifyRequest(verify, pendingIo, savedIo) =>
      if verify.Err? || !pendingIo.Succeeds() then reg
      else
        var id := verify.value.id;
        Registry(Without(reg.pending, id),
                 if verify.value.allow && savedIo.Succeeds() then reg.saved + [LastMatch(reg.pending, id)] else reg.saved)
    case RemoveRequest(remove, savedIo) =>
      if remove.Err? || !savedIo.Succeeds() then reg
      else Registry(reg.pending, Without(reg.saved, remove.value.id))
  }

  /** The registry after a sequence of requests, in order. */
  function Run(reg: Registry, reqs: seq<DeviceRequest>): Registry {
    if reqs == [] then reg else Next(Run(reg, reqs[..|reqs| - 1]), reqs[|reqs| - 1])
  }

  lemma IdentifiersMember(devices: seq<DeviceInfo>, id: string)
    ensures id in Identifiers(devices) <==> exists i :: 0 <= i < |devices| && devices[i].identifier == id
  {
    if exists i :: 0 <= i < |devices| && devices[i].identifier == id {
      var i :| 0 <= i < |devices| && devices[i].identifier == id;
      assert devices[i].identifier in Identifiers(devices);
    }
  }

  /** The request's device identifier, if it carries one, is valid UTF-8, so
      the JSON file stores it as it is. */
  predicate WellEncoded(req: DeviceRequest) {
    req.AddDeviceRequest? && req.form.Ok? ==> ValidUtf8(req.form.value.identifier)
  }

  /** Every request keeps the files decoded. */
  lemma NextKeepsDecoded(reg: Registry, req: DeviceRequest)
    requires RegistryDecoded(reg)
    ensures RegistryDecoded(Next(reg, req))
  {
    match req
    case AddDeviceRequest(form, savedReadOk, pendingIo) =>
    case VerifyRequest(verify, pendingIo, savedIo) =>
      if verify.Ok? && pendingIo.Succeeds() {
        WithoutDecoded(reg.pending, verify.value.id);
        LastMatchDecoded(reg.pending, verify.value.id);
      }
    case RemoveRequest(remove, savedIo) =>
      if remove.Ok? && savedIo.Succeeds() {
        WithoutDecoded(reg.saved, remove.value.id);
      }
  }

  /** Starting from empty files, the files stay decoded, so the handler
      methods, which require that, apply at every step of a run. */
  lemma {:induction false} RunStaysDecoded(reqs: seq<DeviceRequest>)
    ensures RegistryDecoded(Run(Registry([], []), reqs))
  {
    if reqs != [] {
      RunStaysDecoded(reqs[..|reqs| - 1]);
      NextKeepsDecoded(Run(Registry([], []), reqs[..|reqs| - 1]), reqs[|reqs| - 1]);
    }
  }

  /** Every handler keeps the registry consistent, when the identifier it
      checks is the one the file will store. */
  lemma NextKeepsConsistent(reg: Registry, req: DeviceRequest)
    requires Consistent(reg)
    requires WellEncoded(req)
    ensures Consistent(Next(reg, req))
  {
    match req
    case AddDeviceRequest(form, savedReadOk, pendingIo) =>
      var client := GetClientInfo(form);
      if client.Ok? && savedReadOk && client.value.identifier !in Identifiers(reg.saved) && pendingIo.Succeeds() {
        IdentifiersAppend(reg.pending, StoredDevice(client.value));
      }
    case VerifyRequest(verify, pendingIo, savedIo) =>
      if verify.Ok? && pendingIo.Succeeds() {
        var id := verify.value.id;
        WithoutIdentifiers(reg.pending, id);
        if verify.value.allow && savedIo.Succeeds() {
          var moved := LastMatch(reg.pending, id);
          IdentifiersAppend(reg.saved, moved);
          LastMatchIsLast(reg.pending, id);
          assert moved.identifier == id || moved.identifier == "";
        }
      }
    case RemoveRequest(remove, savedIo) =>
      if remove.Ok? && savedIo.Succeeds() {
        WithoutIdentifiers(reg.saved, remove.value.id);
      }
  }

  /** Starting from empty device files, every sequence of add, verify and
      remove requests with valid UTF-8 identifiers leaves no identifier both
      pending and saved, and no empty identifier pending. */
  lemma {:induction false} RunKeepsConsistent(reqs: seq<DeviceRequest>)
    requires forall i :: 0 <= i < |reqs| ==> WellEncoded(reqs[i])
    ensures Consistent(Run(Registry([], []), reqs))
  {
    if reqs != [] {
      RunKeepsConsistent(reqs[..|reqs| - 1]);
      NextKeepsConsistent(Run(Registry([], []), reqs[..|reqs| - 1]), reqs[|reqs| - 1]);
    }
  }

  /** One more request is one more step. */
  lemma RunSnoc(reg: Registry, reqs: seq<DeviceRequest>, req: DeviceRequest)
    ensures Run(reg, reqs + [req]) == Next(Run(reg, reqs), req)
  {
    assert (reqs + [req])[..|reqs|] == reqs;
  }

  const AllOk := StoreIo(true, true)

  /** The three requests of the counterexample: "a" registers with the bytes
      of U+FFFD, it is approved, and "b" registers with the lone byte 0xFF. */
  const AddA := AddDeviceRequest(Ok(DeviceInfo("a", Replacement)), true, AllOk)
  const ApproveA := VerifyRequest(Ok(VerifyForm(Replacement, true)), AllOk, AllOk)
  const AddB := AddDeviceRequest(Ok(DeviceInfo("b", ['\U{FF}'])), true, AllOk)

  lemma AsciiValid(c: char)
    requires c as int < 0x80
    ensures ValidUtf8([c])
  {
    assert SequenceLength([c]) == 1 && [c][1..] == [];
  }

  lemma AddAStep()
    ensures Next(Registry([], []), AddA) == Registry([DeviceInfo("a", Replacement)], [])
  {
    CoerceMerges();
    AsciiValid('a');
  }

  lemma ApproveAStep()
    ensures Next(Registry([DeviceInfo("a", Replacement)], []), ApproveA) == Registry([], [DeviceInfo("a", Replacement)])
  {
    var pending := [DeviceInfo("a", Replacement)];
    assert pending[..0] == [];
    assert Without(pending, Replacement) == [];
    assert LastMatch(pending, Replacement) == DeviceInfo("a", Replacement);
  }

  lemma AddBStep()
    ensures Next(Registry([], [DeviceInfo("a", Replacement)]), AddB) ==
            Registry([DeviceInfo("b", Replacement)], [DeviceInfo("a", Replacement)])
  {
    var saved := [DeviceInfo("a", Replacement)];
    CoerceMerges();
    AsciiValid('b');
    assert Identifiers(saved) == {Replacement} by {
      assert saved[0].identifier == Replacement;
    }
  }

  /** The files after the three requests of the counterexample. */
  lemma CounterexampleRun()
    ensures Run(Registry([], []), [AddA, ApproveA, AddB]) ==
            Registry([DeviceInfo("b", Replacement)], [DeviceInfo("a", Replacement)])
  {
    var empty := Registry([], []);
    assert Run(empty, [AddA]) == Registry([DeviceInfo("a", Replacement)], []) by {
      RunSnoc(empty, [], AddA);
      assert [] + [AddA] == [AddA];
      AddAStep();
    }
    assert Run(empty, [AddA, ApproveA]) == Registry([], [DeviceInfo("a", Replacement)]) by {
      RunSnoc(empty, [AddA], ApproveA);
      assert [AddA] + [ApproveA] == [AddA, ApproveA];
      ApproveAStep();
    }
    RunSnoc(empty, [AddA, ApproveA], AddB);
    assert [AddA, ApproveA] + [AddB] == [AddA, ApproveA, AddB];
    AddBStep();
  }

  /** Without valid UTF-8 the invariant fails: addDevice compares the raw
      identifier 0xFF with the saved U+FFFD, finds no match, and the pending
      file then stores 0xFF as U+FFFD, the saved identifier. */
  lemma UnencodedIdentifierJoinsBothLists()
    ensures var after := Run(Registry([], []), [AddA, ApproveA, AddB]);
            && Replacement in Identifiers(after.pending) && Replacement in Identifiers(after.saved)
            && !Consistent(after)
  {
    CounterexampleRun();
    var after := Registry([DeviceInfo("b", Replacement)], [DeviceInfo("a", Replacement)]);
    assert after.pending[0].identifier == Replacement;
    assert after.saved[0].identifier == Replacement;
  }

  /** addDevice as evidently intended: the existence check compares the
      identifier as the pending file will store it. */
  function CheckedNext(reg: Registry, req: DeviceRequest): Registry {
    match req
    case AddDeviceRequest(form, savedReadOk, pendingIo) =>
      var client := GetClientInfo(form);
      if client.Ok? && savedReadOk && StoredDevice(client.value).identifier !in Identifiers(reg.saved) && pendingIo.Succeeds()
      then Registry(reg.pending + [StoredDevice(client.value)], reg.saved)
      else reg
    case _ => Next(reg, req)
  }

  function CheckedRun(reg: Registry, reqs: seq<DeviceRequest>): Registry {
    if reqs == [] then reg else CheckedNext(CheckedRun(reg, reqs[..|reqs| - 1]), reqs[|reqs| - 1])
  }

  /** For a valid UTF-8 identifier the checked step is the code's step. */
  lemma CheckedNextAgrees(reg: Registry, req: DeviceRequest)
    requires WellEncoded(req)
    ensures CheckedNext(reg, req) == Next(reg, req)
  {
  }

  /** The checked step keeps the registry consistent for every request. */
  lemma CheckedNextKeepsConsistent(reg: Registry, req: DeviceRequest)
    requires Consistent(reg)
    ensures Consistent(CheckedNext(reg, req))
  {
    if req.AddDeviceRequest? {
      var client := GetClientInfo(req.form);
      if client.Ok? && req.savedReadOk && StoredDevice(client.value).identifier !in Identifiers(reg.saved) && req.pendingIo.Succeeds() {
        IdentifiersAppend(reg.pending, StoredDevice(client.value));
      }
    } else {
      NextKeepsConsistent(reg, req);
    }
  }

  /** With the checked step, every sequence of requests from empty files keeps
      the registry invariant, whatever bytes the identifiers hold. */
  lemma {:induction false} CheckedRunKeepsConsistent(reqs: seq<DeviceRequest>)
    ensures Consistent(CheckedRun(Registry([], []), reqs))
  {
    if reqs != [] {
      CheckedRunKeepsConsistent(reqs[..|reqs| - 1]);
      CheckedNextKeepsConsistent(CheckedRun(Registry([], []), reqs[..|reqs| - 1]), reqs[|reqs| - 1]);
    }
  }

  /** Approving a pending device moves its identifier: it leaves the pending
      list and the last record appended to the saved list carries it. */
  lemma ApprovalMovesIdentifier(reg: Registry, id: string, pendingIo: StoreIo, savedIo: StoreIo)
    requires id in Identifiers(reg.pending)
    requires pendingIo.Succeeds() && savedIo.Succeeds()
    ensures var after := Next(reg, VerifyRequest(Ok(VerifyForm(id, true)), pendingIo, savedIo));
            && id !in Identifiers(after.pending)
            && |after.saved| == |reg.saved| + 1
            && after.saved[..|reg.saved|] == reg.saved
            && after.saved[|reg.saved|].identifier == id
  {
    WithoutIdentifiers(reg.pending, id);
    LastMatchIsLast(reg.pending, id);
  }

  /** Rejecting a device drops it from the pending list and leaves the saved
      list as it was. */
  lemma RejectionDropsIdentifier(reg: Registry, id: string, pendingIo: StoreIo, savedIo: StoreIo)
    requires pendingIo.Succeeds()
    ensures var after := Next(reg, VerifyRequest(Ok(VerifyForm(id, false)), pendingIo, savedIo));
            && id !in Identifiers(after.pending)
            && Identifiers(after.pending) == Identifiers(reg.pending) - {id}
            && after.saved == reg.saved
  {
    WithoutIdentifiers(reg.pending, id);
  }

  /** Rejecting an identifier that is not pending changes nothing. */
  lemma RejectingAbsentIsNoop(reg: Registry, id: string, pendingIo: StoreIo, savedIo: StoreIo)
    requires id !in Identifiers(reg.pending)
    ensures Next(reg, VerifyRequest(Ok(VerifyForm(id, false)), pendingIo, savedIo)) == reg
  {
    WithoutAbsent(reg.pending, id);
  }

  /** Removing the same device twice leaves the registry as removing it once. */
  lemma RemoveIdempotent(reg: Registry, req: DeviceRequest)
    requires req.RemoveRequest?
    ensures Next(Next(reg, req), req) == Next(reg, req)
  {
    if req.remove.Ok? && req.savedIo.Succeeds() {
      WithoutIdempotent(reg.saved, req.remove.value.id);
    }
  }

  /** addDevice: a rejected form or an unreadable saved file is a plain 400, an
      approved identifier is refused, and otherwise the device joins the
      pending list. */
  method AddDevice(store: DeviceStore, form: Result<DeviceInfo>, savedReadOk: bool, pendingIo: StoreIo)
    returns (resp: Response)
    requires store.Decoded()
    modifies store
    ensures store.Decoded()
    ensures store.State() == Next(old(store.State()), AddDeviceRequest(form, savedReadOk, pendingIo))
    ensures GetClientInfo(form).Err? || !savedReadOk ==> resp == ClientError(StatusBadRequest)
    ensures GetClientInfo(form).Ok? && savedReadOk && form.value.identifier in Identifiers(old(store.saved)) ==>
      resp == Message(StatusBadRequest, AlreadyConnected)
    ensures GetClientInfo(form).Ok? && savedReadOk && form.value.identifier !in Identifiers(old(store.saved)) ==>
      resp == if pendingIo.Succeeds() then Message(StatusOK, AddedToPending) else ServerError(StoreError)
  {
    var device := GetClientInfo(form);
    if device.Err? {
      return ClientError(StatusBadRequest);
    }
    var known := store.CheckDeviceExist(device.value, savedReadOk);
    IdentifiersMember(store.saved, device.value.identifier);
    if known.Err? {
      return ClientError(StatusBadRequest);
    }
    if known.value {
      return Message(StatusBadRequest, AlreadyConnected);
    }
    var saved := store.SavePendingDevice(device.value, pendingIo);
    if saved.Fail? {
      return ServerError(saved.error);
    }
    return Message(StatusOK, AddedToPending);
  }

  /** connect: only an approved device gets a token. `secret` is the fresh
      UUID text and `now` the clock reading. The response carries the secret
      in base64, and decoding it gives back the stored secret. */
  method Connect(devices: DeviceStore, tokens: TokenStore, form: Result<DeviceInfo>, savedReadOk: bool,
                 secret: string, now: Time, io: StoreIo)
    returns (resp: Response)
    requires Base64.IsByteString(secret) && ValidUtf8(secret)
    requires devices.Decoded() && tokens.Decoded()
    modifies tokens
    ensures tokens.Decoded()
    ensures !(GetClientInfo(form).Ok? && savedReadOk && form.value.identifier in Identifiers(devices.saved)) ==>
      resp == ClientError(StatusBadRequest) && tokens.tokens == old(tokens.tokens)
    ensures GetClientInfo(form).Ok? && savedReadOk && form.value.identifier in Identifiers(devices.saved) ==>
      && tokens.tokens == (if io.Succeeds() then old(tokens.tokens) + [Token(form.value.identifier, secret, now + TokenLifetime)]
                           else old(tokens.tokens))
      && resp == (if io.Succeeds() then Json(StatusOK, map["message" := ReadyToConnect, "s" := Base64.Encode(secret)])
                  else ServerError(StoreError))
    ensures resp.Json? ==> "s" in resp.body && Base64.Decode(resp.body["s"]) == Some(tokens.tokens[|tokens.tokens| - 1].secret)
  {
    var device := GetClientInfo(form);
    if device.Err? {
      return ClientError(StatusBadRequest);
    }
    var known := devices.CheckDeviceExist(device.value, savedReadOk);
    IdentifiersMember(devices.saved, device.value.identifier);
    if known.Err? || !known.value {
      return ClientError(StatusBadRequest);
    }
    IdentifierDecoded(devices.saved, device.value.identifier);
    var token := Token(device.value.identifier, secret, now + TokenLifetime);
    var saved := tokens.SaveToken(token, io);
    if saved.Fail? {
      return ServerError(saved.error);
    }
    Base64.DecodeEncode(secret);
    return Json(StatusOK, map["message" := ReadyToConnect, "s" := Base64.Encode(secret)]);
  }

  /** The last non-empty value of a form field, "" when every value is empty. */
  function LastNonEmpty(vals: seq<string>): string {
    if vals == [] then ""
    else if vals[|vals| - 1] != "" then vals[|vals| - 1]
    else LastNonEmpty(vals[..|vals| - 1])
  }

  /** The value upload takes for a form key: the last non-empty one, if any. */
  function Selected(values: map<string, seq<string>>, key: string): string {
    if key in values then LastNonEmpty(values[key]) else ""
  }

  lemma {:induction false} LastNonEmptyEmpty(vals: seq<string>)
    ensures LastNonEmpty(vals) == "" <==> forall i :: 0 <= i < |vals| ==> vals[i] == ""
  {
    if vals != [] {
      var n := |vals| - 1;
      var init := vals[..n];
      LastNonEmptyEmpty(init);
      assert forall i :: 0 <= i < n ==> init[i] == vals[i];
    }
  }

  lemma {:induction false} LastNonEmptyPosition(vals: seq<string>)
    requires LastNonEmpty(vals) != ""
    ensures exists k :: 0 <= k < |vals| && vals[k] == LastNonEmpty(vals) &&
                        forall j :: k < j < |vals| ==> vals[j] == ""
  {
    var n := |vals| - 1;
    if vals[n] == "" {
      var init := vals[..n];
      assert LastNonEmpty(vals) == LastNonEmpty(init);
      LastNonEmptyPosition(init);
      var k :| 0 <= k < |init| && init[k] == LastNonEmpty(init) && forall j :: k < j < |init| ==> init[j] == "";
      assert vals[k] == init[k];
      assert forall j :: k < j < n ==> vals[j] == init[j];
    }
  }

  /** LastNonEmpty is "" exactly when every value is empty, and otherwise the
      value at the last non-empty position. */
  lemma LastNonEmptyIsLast(vals: seq<string>)
    ensures LastNonEmpty(vals) == "" <==> forall i :: 0 <= i < |vals| ==> vals[i] == ""
    ensures LastNonEmpty(vals) != "" ==>
      exists k :: 0 <= k < |vals| && vals[k] == LastNonEmpty(vals) &&
        forall j :: k < j < |vals| ==> vals[j] == ""
  {
    LastNonEmptyEmpty(vals);
    if LastNonEmpty(vals) != "" {
      LastNonEmptyPosition(vals);
    }
  }

  /** The url/text loop of upload. The keys are visited in any order, as Go's
      map iteration is unordered; the result does not depend on that order. */
  method SelectContent(values: map<string, seq<string>>) returns (url: string, text: string)
    ensures url == Selected(values, "url") && text == Selected(values, "text")
  {
    url, text := "", "";
    var remaining := values.Keys;
    while remaining != {}
      invariant remaining <= values.Keys
      invariant url == if "url" in values && "url" !in remaining then LastNonEmpty(values["url"]) else ""
      invariant text == if "text" in values && "text" !in remaining then LastNonEmpty(values["text"]) else ""
      decreases remaining
    {
      var key :| key in remaining;
      var vals := values[key];
      ghost var url0, text0 := url, text;
      for j := 0 to |vals|
        invariant url == if key == "url" then LastNonEmpty(vals[..j]) else url0
        invariant text == if key == "text" then LastNonEmpty(vals[..j]) else text0
      {
        assert vals[..j + 1][..j] == vals[..j];
        var val := vals[j];
        if key == "url" && val != "" {
          url := val;
        } else if key == "text" && val != "" {
          text := val;
        }
      }
      assert vals[..|vals|] == vals;
      remaining := remaining - {key};
    }
  }

  /** What upload goes on to do after its gate: either the response that ended
      it, or the url and text it selected. */
  datatype UploadOutcome = Rejected(response: Response) | Admitted(url: string, text: string)

  /** The authentication gate and the url/text selection of upload. `form` is
      the outcome of ParseMultipartForm: its value fields, or its error. */
  method Upload(tokens: TokenStore, header: string, now: Time, io: StoreIo, form: Result<map<string, seq<string>>>)
    returns (r: UploadOutcome)
    requires tokens.Decoded()
    modifies tokens
    ensures tokens.Decoded()
    ensures tokens.tokens == if Accepted(old(tokens.tokens), header, now, io)
                             then Retained(old(tokens.tokens), ExtractAuthHeader(header).value.password, now)
                             else old(tokens.tokens)
    ensures ExtractAuthHeader(header).Err? || !io.readOk ==> r == Rejected(ClientError(StatusBadRequest))
    ensures ExtractAuthHeader(header).Ok? && io.readOk && !Matches(old(tokens.tokens), header, now) ==>
      r == Rejected(Message(StatusBadRequest, InvalidToken))
    ensures Matches(old(tokens.tokens), header, now) && io.readOk && !io.writeOk ==> r == Rejected(ClientError(StatusBadRequest))
    ensures Accepted(old(tokens.tokens), header, now, io) ==>
      r == if form.Err? then Rejected(ClientError(StatusBadRequest))
           else Admitted(Selected(form.value, "url"), Selected(form.value, "text"))
  {
    var found := tokens.VerifyToken(header, now, io);
    if found.Err? {
      return Rejected(ClientError(StatusBadRequest));
    }
    if !found.value {
      return Rejected(Message(StatusBadRequest, InvalidToken));
    }
    if form.Err? {
      return Rejected(ClientError(StatusBadRequest));
    }
    var url, text := SelectContent(form.value);
    return Admitted(url, text);
  }

  /** verifyDevicePost: decodes the decision and applies saveDevice. */
  method VerifyDevicePost(store: DeviceStore, form: Result<VerifyForm>, pendingIo: StoreIo, savedIo: StoreIo)
    returns (resp: Response)
    requires store.Decoded()
    modifies store
    ensures store.Decoded()
    ensures store.State() == Next(old(store.State()), VerifyRequest(form, pendingIo, savedIo))
    ensures form.Err? ==> resp == ClientError(StatusBadRequest)
    ensures form.Ok? ==>
      resp == if pendingIo.Succeeds() && (form.value.allow ==> savedIo.Succeeds())
              then Message(StatusOK, UpdatedLists) else ServerError(StoreError)
  {
    if form.Err? {
      return ClientError(StatusBadRequest);
    }
    var saved := store.SaveDevice(form.value.id, form.value.allow, pendingIo, savedIo);
    if saved.Fail? {
      return ServerError(saved.error);
    }
    return Message(StatusOK, UpdatedLists);
  }

  /** The removeDevice handler: decodes the identifier and applies removeDevice. */
  method RemoveDevice(store: DeviceStore, form: Result<RemoveForm>, savedIo: StoreIo) returns (resp: Response)
    requires store.Decoded()
    modifies store
    ensures store.Decoded()
    ensures store.State() == Next(old(store.State()), RemoveRequest(form, savedIo))
    ensures form.Err? ==> resp == ClientError(StatusBadRequest)
    ensures form.Ok? ==> resp == if savedIo.Succeeds() then Message(StatusOK, UpdatedLists) else ServerError(StoreError)
  {
    if form.Err? {
      return ClientError(StatusBadRequest);
    }
    var removed := store.RemoveDevice(form.value.id, savedIo);
    if removed.Fail? {
      return ServerError(removed.error);
    }
    return Message(StatusOK, UpdatedLists);
  }

  /** refresh: restarts the announcement; any failure is a 500. A nil handle
      panics in refreshMDNSService, and the panic is answered with a 500 too. */
  method Refresh(app: Presence.Application, env: Presence.NetEnv, registerOk: bool) returns (resp: Response)
    modifies app, app.mDNSSvc
    ensures Presence.HostInfoOf(env).Err? ==> resp == ServerError(Presence.HostInfoOf(env).error)
    ensures Presence.HostInfoOf(env).Ok? && old(app.mDNSSvc) == null ==> resp == ServerError(NilServerPanic)
    ensures Presence.HostInfoOf(env).Ok? && old(app.mDNSSvc) != null ==>
      resp == if registerOk then Message(StatusOK, RefreshedOk) else ServerError(RegisterError)
    ensures resp.Json? ==> app.mDNSSvc != null && app.mDNSSvc.running && Presence.Announces(app.mDNSSvc, app.hostInfo)
    ensures Presence.HostInfoOf(env).Err? ==>
      && app.hostInfo == old(app.hostInfo) && app.mDNSSvc == old(app.mDNSSvc)
      && (app.mDNSSvc != null ==> app.mDNSSvc.running == old(app.mDNSSvc.running))
    ensures Presence.HostInfoOf(env).Ok? ==>
      app.hostInfo == if old(app.hostInfo).ipAddr != Presence.HostInfoOf(env).value.ipAddr
                      then Presence.HostInfoOf(env).value else old(app.hostInfo)
    ensures Presence.HostInfoOf(env).Ok? && old(app.mDNSSvc) == null ==> app.mDNSSvc == null
    ensures Presence.HostInfoOf(env).Ok? && old(app.mDNSSvc) != null ==> !old(app.mDNSSvc).running
    ensures Presence.HostInfoOf(env).Ok? && old(app.mDNSSvc) != null && !registerOk ==> app.mDNSSvc == old(app.mDNSSvc)
    ensures Presence.HostInfoOf(env).Ok? && old(app.mDNSSvc) != null && registerOk ==>
      app.mDNSSvc != null && fresh(app.mDNSSvc) && app.mDNSSvc.running
  {
    var refreshed := app.RefreshMDNSService(env, registerOk);
    if refreshed.Fail? {
      return ServerError(refreshed.error);
    }
    return Message(StatusOK, RefreshedOk);
  }

  /** The token life cycle of connect followed by upload: the header a device
      builds from its identifier and the issued secret is accepted while the
      token lives, not after it expires (unless an older token still admits
      the pair), and never a second time. */
  lemma IssuedTokenAdmitsOnce(tokens: seq<Token>, id: string, secret: string, issuedAt: Time, usedAt: Time, io: StoreIo)
    requires ':' !in id && ':' !in secret
    requires Base64.IsByteString(id) && Base64.IsByteString(secret)
    requires io.Succeeds()
    ensures var header := AuthSchema + Base64.Encode(id + ":" + secret);
            var issued := tokens + [Token(id, secret, issuedAt + TokenLifetime)];
            && (usedAt < issuedAt + TokenLifetime ==> Accepted(issued, header, usedAt, io))
            && (usedAt >= issuedAt + TokenLifetime && !Authenticates(tokens, id, secret, usedAt) ==>
                  !Accepted(issued, header, usedAt, io))
            && forall later: Time, io': StoreIo ::
                 Accepted(issued, header, usedAt, io) ==> !Accepted(Retained(issued, secret, usedAt), header, later, io')
  {
    var header := AuthSchema + Base64.Encode(id + ":" + secret);
    var issued := tokens + [Token(id, secret, issuedAt + TokenLifetime)];
    BasicHeaderRoundTrip(id, secret);
    assert issued[|tokens|] == Token(id, secret, issuedAt + TokenLifetime);
    if usedAt >= issuedAt + TokenLifetime && !Authenticates(tokens, id, secret, usedAt) {
      forall k | 0 <= k < |issued|
        ensures !Admits(issued[k], id, secret, usedAt)
      {
        if k < |tokens| {
          assert issued[k] == tokens[k];
        }
      }
    }
    forall later: Time, io': StoreIo | Accepted(issued, header, usedAt, io)
      ensures !Accepted(Retained(issued, secret, usedAt), header, later, io')
    {
      SingleUse(issued, header, usedAt, io, later, io');
    }
  }
}
