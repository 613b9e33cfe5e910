# iwin pairing, session and presence core in Dafny

iwin is a desktop companion server. iOS devices find it over mDNS, ask to
pair, and once the operator has approved them they push URLs, text and files
to it. This project models the sequential logic behind its HTTP handlers.
It covers three parts.

- **Device registry** (`cmd/devices.go`). There are two JSON files: the
  *pending* devices that asked to pair and the *saved* (approved) devices.
  `Devices.DeviceStore` holds them as two `seq<DeviceInfo>` fields. Each
  operation reads a file, changes the list and writes the list back.
- **JSON storage of strings** (`cmd/helpers.go:356-383`, module `Json`).
  `json.MarshalIndent` replaces each byte that does not begin a valid UTF-8
  sequence with the bytes of U+FFFD, and `json.Unmarshal` does the same on
  the way back. `Json.Coerce` is that replacement. Every write stores
  `StoredDevices(list)` or `StoredTokens(list)`, so two different
  identifiers can be stored as the same one (`Json.CoerceMerges`).
- **Session tokens** (`cmd/auth.go`). `Auth.TokenStore` holds the token file
  as a `seq<Token>`.
  - `Auth.ExtractAuthHeader` parses the `Authorization: Basic ...` header. It
    runs over a full model of standard base64 (`Base64`, section 4 of RFC
    4648, with the decoding rules of Go's `StdEncoding`), Go's
    `strings.Split` and `strings.Join` (`Strings`).
  - `VerifyToken` is the single-use check, with lazy clean-up of expired
    tokens.
- **Handlers** (`cmd/handlers.go`). `addDevice`, `connect`, the
  authentication gate and url/text selection of `upload`,
  `verifyDevicePost`, `removeDevice` and `refresh` are methods over the
  stores. Each answers with a `Response` value, except `Upload`: its
  `UploadOutcome` is either the `Response` that ended the request or the
  url and text it selected.
  - `Next` and `Run` give the effect of a request, and of a sequence of
    requests, on the registry.
  - `RunKeepsConsistent` proves the invariant for every such sequence whose
    identifiers are valid UTF-8: no identifier is both pending and saved, and
    no pending identifier is empty. With other bytes the invariant fails (see
    "## Findings").
- **Presence advertiser** (`cmd/helpers.go`):
  - the interface search of `getHostInfo`;
  - the derivation of the mDNS instance name;
  - the conditional host-record update;
  - the restart state machine of `refreshMDNSService`, over a
    `Presence.Application` that holds `hostInfo` and the `mDNSSvc` handle.

## Environment outcomes are parameters

Each read-then-write of a JSON file takes a `StoreIo(readOk, writeOk)`: the
outcome of the read and of the write that follows it. A read that is not
followed by a write takes a plain `readOk: bool` (the `savedReadOk`
parameters of `Handlers.AddDevice` and `Handlers.Connect`, and the `readOk`
of `DeviceStore.CheckDeviceExist`). A failed read or write is the error
`StoreError`, and a failed write leaves the file as it was.

A store's fields are what reading its file gives. Because `json.Unmarshal`
replaces invalid UTF-8, every string read from a file is valid UTF-8
whatever the file itself contains. That is the predicate `Decoded()` of
`Devices.DeviceStore` and `Auth.TokenStore`. The store methods and the
handlers that use them require it and keep it, and `Handlers.RunStaysDecoded`
shows it holds after every sequence of requests from empty files.

The network answers are one `Presence.NetEnv` value:
- `os.Hostname`;
- the outbound address found by `net.Dial`;
- `net.Interfaces`;
- each interface's `Addrs`.

The other outside inputs:
- The result of `zeroconf.Register` is a `registerOk` flag.
- `uuid.NewString()` is the `secret` parameter of `Handlers.Connect`.
- `time.Now()` is a `now: Time` parameter, in integer nanoseconds;
  `now.Before(t)` is `now < t`.
- The decoded form of a request is a `Result` parameter. Its `Err` stands for
  a failed `decodePostFormUrlEncoded` or `ParseMultipartForm` and carries the
  error the decoder reports; likewise a failed resolver call in `NetEnv`
  carries the error it reports. The model does not give those errors names
  of their own.

## Strings are byte strings

A Go string is a sequence of bytes. The model writes it as a Dafny `string`
whose characters are all below 256 (`Base64.IsByteString`). `DeviceInfo` and
`Token` fields are plain `string`s and could hold wider characters, which no
Go string has. Base64 encodes bytes, so the members that encode a secret
require a byte string: `Handlers.Connect` requires `IsByteString(secret)`,
and `Handlers.IssuedTokenAdmitsOnce` and `Auth.BasicHeaderRoundTrip` require
it of the identifier and the secret. The JSON coercion treats a character of
256 or more like a byte that begins no valid sequence.

## Behaviour of the code worth knowing

- `verifyToken` rewrites the token file only when authentication succeeds
  (cmd/auth.go:76-81). A failed attempt leaves expired tokens in place.
- `saveDevice` removes *every* pending record with the identifier. With
  `allow` it appends the *last* removed record to the saved list
  (cmd/devices.go:70-78, 93). When the identifier was not pending, it appends
  the zero record `DeviceInfo{"", ""}`. It is not a no-op.
  - `Devices.LastMatch` returns `ZeroDevice` in that case, and
    `Devices.DeviceStore.SaveDevice` states it.
  - The registry invariant still holds, because a pending identifier is never
    empty.
- A missing JSON file is a read error (`readJSONFile` opens it and fails), not
  an empty list.
- In `refreshMDNSService`, a nil `mDNSSvc` makes `Shutdown` dereference nil,
  which is a Go panic. The model returns `Fail(NilServerPanic)`. The request
  handler answers it with a 500, as the panic-recovery middleware does.
- The instance name replaces '.' by "--" and joins with "__". It is unique
  only because an IP's text contains neither '-' nor '_'.
  `Presence.InstanceNameInjective` proves uniqueness under that condition.

## Model

| member | source | states |
|---|---|---|
| Devices.GetClientInfo | cmd/devices.go:8-20 | a decode error is passed through; an empty identifier or name gives ErrInvalidFormBody; otherwise the form fields are returned unchanged (both directions) |
| Devices.DeviceStore.CheckDeviceExist | cmd/devices.go:23-40 | a read error gives the error; otherwise true exactly when some saved record has the client's identifier |
| Devices.DeviceStore.SavePendingDevice | cmd/devices.go:43-58 | on success the pending list is the old list with the record, as the JSON file stores it, appended (no duplicate check); on a read or write error it is unchanged |
| Devices.DeviceStore.SaveDevice | cmd/devices.go:61-102 | pending becomes the old list without every record carrying `id`, once its read and write succeed; only with isAllowed, and only after pending was written, is the saved list read and the last matching record (or the zero record) appended; without isAllowed the saved file's outcome plays no part |
| Devices.DeviceStore.RemoveDevice | cmd/devices.go:105-128 | on success the saved list is the old one without the records carrying `id`, in order; on error it is unchanged |
| Devices.DeviceStore.ReadPending | cmd/helpers.go:356-369 | a read either fails with StoreError or answers the current file contents |
| Devices.DeviceStore.WritePending | cmd/helpers.go:371-383 | a write replaces the whole list by the list as json.MarshalIndent stores it (invalid UTF-8 replaced), or fails and leaves it unchanged |
| Devices.DeviceStore.ReadSaved | cmd/helpers.go:356-369 | a read of the saved-devices file either fails with StoreError or answers the current saved list |
| Devices.DeviceStore.WriteSaved | cmd/helpers.go:371-383 | a write of the saved-devices file replaces the whole list by the list as stored (invalid UTF-8 replaced), or fails with StoreError and leaves it unchanged |
| Devices.WithoutMembers | cmd/devices.go:72-78 | a record survives the filter exactly when it was present and carries another identifier |
| Devices.WithoutIdentifiers | cmd/devices.go:114-119 | filtering removes exactly `id` from the set of identifiers |
| Devices.WithoutConcat | cmd/devices.go:114-119 | filtering keeps the relative order of the surviving records (it distributes over concatenation) |
| Devices.WithoutIdempotent | cmd/devices.go:105-128 | removing an identifier twice gives the same list as removing it once |
| Devices.WithoutAbsent | cmd/devices.go:114-119 | removing an absent identifier leaves the list unchanged |
| Devices.LastMatchIsLast | cmd/devices.go:70-78 | the record moved by saveDevice is the last pending record with `id`, or the zero record when there is none |
| Auth.ExtractAuthHeader | cmd/auth.go:93-114 | fails with `SchemeError` unless the header starts with exactly "Basic "; fails with `EncodingError` when the rest is not standard base64; fails with `IncompleteHeader` when the decoded text does not have exactly one ':'; succeeds exactly when the decoded text has one ':' and then returns the two pieces around it |
| Auth.BasicHeaderRoundTrip | cmd/auth.go:96-113 | for an id and secret without ':', "Basic " + base64(id:secret) parses back to (id, secret) |
| Auth.TokenStore.ReadTokens | cmd/auth.go:14-23 | the read fails with StoreError or answers the stored tokens |
| Auth.TokenStore.WriteTokens | cmd/helpers.go:371-383 | a write of the tokens file replaces the whole token list by the list as stored (invalid UTF-8 in ids and secrets replaced), or fails with StoreError and leaves it unchanged |
| Auth.TokenStore.SaveToken | cmd/auth.go:26-41 | on success the token, as stored, is appended after the existing tokens, with no uniqueness check; on error the file is unchanged |
| Auth.TokenStore.VerifyToken | cmd/auth.go:44-87 | (true, nil) exactly when the header parses, the file can be read and rewritten and some token has that device id and secret and is unexpired; a header error is returned before the file is read; no match gives (false, nil) without rewriting; on success the file holds the unexpired tokens with another secret, in order |
| Auth.ScanTokens | cmd/auth.go:57-75 | the single pass sets the flag exactly when some token has the device id and secret and is unexpired, and collects exactly the unexpired tokens with another secret, in order |
| Auth.RetainedMembers | cmd/auth.go:71-73 | a token is kept exactly when it was stored, is unexpired and carries another secret (so the used token, expired tokens and other devices' tokens with the same secret go) |
| Auth.RetainedConcat | cmd/auth.go:63-75 | the kept tokens stay in their original order |
| Auth.SingleUse | cmd/auth.go:67-81 | after a header has been accepted, the same header is refused against the rewritten file at any later time |
| Json.Coerce | cmd/helpers.go:371-383 | the stored string is valid UTF-8, never shorter, and a valid string is stored as it is |
| Json.CoerceMerges | cmd/helpers.go:372 | the lone byte 0xFF and the bytes of U+FFFD are different strings stored as the same one |
| Json.StoredDevicesDecoded | cmd/helpers.go:356-383 | a stored device list reads back as valid UTF-8, and one that reads back valid is stored unchanged |
| Json.StoredTokensDecoded | cmd/helpers.go:356-383 | a stored token list reads back as valid UTF-8, and one that reads back valid is stored unchanged |
| Base64.Encode | cmd/handlers.go:92 | the padded encoding has length 4 * ceil(n / 3) |
| Base64.EncodeInAlphabet | cmd/handlers.go:92 | the encoding uses only the 64 alphabet characters and '=' |
| Base64.Decode | cmd/auth.go:101-104 | every decoded result is a byte string; it is defined as StdEncoding decodes (CR/LF skipped, four-character groups, padding only in the last group), and Base64.DecodeEncode ties it to Encode |
| Base64.DecodeEncode | cmd/auth.go:101 | decoding the standard encoding of any byte string gives it back |
| Strings.HasPrefix | cmd/auth.go:96 | strings.HasPrefix holds exactly when the text is the prefix followed by the rest of the text |
| Strings.Join | cmd/helpers.go:96 | strings.Join's result is as long as the parts together plus one separator per gap |
| Strings.SplitJoin | cmd/helpers.go:96 | strings.Split undoes strings.Join for a non-empty list of separator-free parts |
| Strings.Split | cmd/auth.go:108-109 | strings.Split gives one field more than there are separators, and no field contains the separator |
| Strings.SplitPair | cmd/auth.go:108-113 | two separator-free pieces joined by the separator split back into exactly those two |
| Strings.SplitInTwo | cmd/auth.go:108-113 | a two-field split rejoined with the separator is the original text |
| Strings.JoinSplit | cmd/helpers.go:96 | strings.Join(strings.Split(s, c), r) replaces every c by r |
| Presence.GetHostInfo | cmd/helpers.go:294-353 | the nested loops return exactly the host record HostInfoOf describes: the hostname, dial and Interfaces errors in order, then the scan, then ErrHardwareAddrNotFound |
| Presence.ScanPicksLastOwner | cmd/helpers.go:320-341 | with every Addrs call succeeding, the chosen interface is the last one in enumeration order that owns the outbound IP, and none is chosen exactly when no interface owns it (the break leaves only the inner loop) |
| Presence.ScanStopsAtFirstError | cmd/helpers.go:320-324 | the error of the first failing Addrs call is the result, whatever follows |
| Presence.ScanWithoutErrorsIsOk | cmd/helpers.go:320-341 | without Addrs errors the scan always yields a choice or none |
| Presence.AddressLabel | cmd/helpers.go:96 | the address part replaces each '.' of the IP text by "--", keeps every other character, and so contains no '.' |
| Presence.InstanceName | cmd/helpers.go:96-97 | the instance name of a host name without '.' contains no '.', so it is a single DNS label |
| Presence.AddressLabelRoundTrip | cmd/helpers.go:96 | for IP text without '-', replacing each "--" by '.' recovers the IP text |
| Presence.InstanceNameInjective | cmd/helpers.go:96-97 | for IP text without '-' or '_', different (host name, IP) pairs give different instance names |
| Presence.Server.Register | cmd/helpers.go:100-107 | a registered announcement holds the given name, service, domain, port and interfaces and is running |
| Presence.Server.Shutdown | cmd/helpers.go:124 | the announcement is withdrawn |
| Presence.Application.UpdateHostInfo | cmd/helpers.go:192-203 | a resolution error is returned and hostInfo stays; otherwise hostInfo is replaced wholesale only when the IP differs |
| Presence.Application.AdvertiseMDNSService | cmd/helpers.go:93-113 | a failed registration is an error; otherwise a fresh running server named HostName + "__" + address label, for "_iw._tcp" in "local." on port 9876 and the host's interface |
| Presence.Application.RefreshMDNSService | cmd/helpers.go:116-140 | a resolution error is returned before Shutdown, leaving the handle and its state untouched; a nil handle panics; a failed re-registration leaves the old, shut-down handle in place; success swaps in a fresh running server named from the updated hostInfo |
| Handlers.NextKeepsDecoded | cmd/handlers.go:14-246 | every add, decide and remove request leaves both files holding valid UTF-8 |
| Handlers.RunStaysDecoded | cmd/handlers.go:14-246 | from empty files, after every sequence of requests both files hold valid UTF-8, so the handler methods apply at every step |
| Handlers.NextKeepsConsistent | cmd/handlers.go:14-246 | each of addDevice (lines 14-53), verifyDevicePost (206-224) and removeDevice (227-246), given a valid UTF-8 identifier to add, keeps pending and saved identifiers disjoint and no empty pending identifier |
| Handlers.RunKeepsConsistent | cmd/handlers.go:14-246 | from empty files, every sequence of add, decide and remove requests whose added identifiers are valid UTF-8 keeps the registry invariant |
| Handlers.UnencodedIdentifierJoinsBothLists | cmd/devices.go:34 | adding "a" with the bytes of U+FFFD, approving it, then adding "b" with the byte 0xFF leaves U+FFFD both pending and saved |
| Handlers.CheckedNextAgrees | cmd/devices.go:34 | comparing the stored form of the identifier changes nothing for a valid UTF-8 identifier |
| Handlers.CheckedNextKeepsConsistent | cmd/devices.go:34 | with the comparison on the stored identifier, every request keeps the registry invariant |
| Handlers.CheckedRunKeepsConsistent | cmd/devices.go:34 | with the comparison on the stored identifier, every sequence of requests from empty files keeps the registry invariant, whatever bytes the identifiers hold |
| Handlers.ApprovalMovesIdentifier | cmd/devices.go:70-95 | approving a pending device removes its identifier from pending and appends exactly one saved record carrying it |
| Handlers.RejectionDropsIdentifier | cmd/devices.go:70-87 | rejecting removes the identifier from pending and leaves the saved list alone |
| Handlers.RejectingAbsentIsNoop | cmd/devices.go:70-87 | rejecting an identifier that is not pending changes nothing |
| Handlers.RemoveIdempotent | cmd/handlers.go:227-246 | a repeated removal request leaves the registry as the first one did |
| Handlers.AddDevice | cmd/handlers.go:14-53 | a form or saved-read error is a plain 400 with the files untouched; an approved identifier gets 400 "Already connected!" with pending unchanged; otherwise the device is appended to pending with a 200, or a 500 on a store error |
| Handlers.Connect | cmd/handlers.go:56-96 | a device that is not approved gets a 400 and no token; an approved one gets exactly one new token with its identifier and expiry now + 5 minutes, and the "s" field is the base64 of the stored secret, decoding back to it |
| Handlers.Upload | cmd/handlers.go:99-131 | a header or store error is a plain 400; no match is 400 "Invalid token"; only an accepted check goes on, to a 400 for a bad form or to the selected url and text; the token file changes only on acceptance |
| Handlers.SelectContent | cmd/handlers.go:120-131 | whatever the key order, url is the last non-empty "url" value and text the last non-empty "text" value ("" when none) |
| Handlers.LastNonEmptyIsLast | cmd/handlers.go:124-130 | the selected value is "" exactly when every value is empty, and otherwise the last non-empty one |
| Handlers.VerifyDevicePost | cmd/handlers.go:206-224 | a form error is a 400; otherwise saveDevice's effect on the registry, and a 200 on success or a 500 on a store error |
| Handlers.RemoveDevice | cmd/handlers.go:227-246 | a form error is a 400; otherwise removeDevice's effect on the registry, and a 200 or a 500 |
| Handlers.Refresh | cmd/handlers.go:307-315 | any refresh failure (resolution, nil handle, registration) is a 500; a 200 means a running announcement for the current host record; a resolution error keeps hostInfo and the handle, otherwise hostInfo is replaced when the IP differs, the old handle is shut down, and it stays in place on a failed registration |
| Handlers.IssuedTokenAdmitsOnce | cmd/handlers.go:78-93 | the header built from an issued token's id and secret is accepted while the token lives, refused after it expires unless an older token still admits the pair, and refused a second time |

## Left out

- HTTP plumbing. This covers routing, middleware (security headers, logging,
  panic recovery beyond the 500 it produces), response writing and template
  rendering. `thisPCOnly` is only a membership check on the remote host
  string.
- `getDevices`, `settings` and `settingsPost`, and the upload steps after
  url/text selection. These are reading the settings file, `openURL`,
  `copyToClipboard`, `saveFiles` and `openFolder`. They are rendering or
  foreign calls.
- Multipart parsing and its 50 MB limit. Only its success or failure is a
  parameter.
- `main.go`. This covers the goroutines, the error channel, signal handling
  and the ten-minute re-advertise timer. `Presence.Application.RefreshMDNSService`
  is a single refresh step. Concurrent requests and lost updates are out of
  scope, because the model is sequential.
- JSON encoding and file I/O. Each file is a class field, and each access
  takes a success flag. Of the encoding only the replacement of invalid UTF-8
  is modelled. The escapes of '<', '>', '&', U+2028 and U+2029 are undone by
  json.Unmarshal, and an expiry time round-trips through its RFC 3339 text.
- A failed write leaving the file as it was is the model's choice.
  `os.WriteFile` truncates before it writes (cmd/helpers.go:377), so a write
  that fails part-way leaves an empty or partial file. Every later read of such
  a file fails to parse, which the model can express with `readOk = false` on
  every later access. The proved properties hold under that reading too.
- The copies of `getClientInfo` and `checkDevice` in cmd/helpers.go:155-187.
  They duplicate cmd/devices.go:8-40 and read a different path variable;
  only the copy in cmd/devices.go is modelled.
- Presence.Application.RefreshMDNSService: the two-second wait between shutdown and
  re-registration is not modelled, because time does not pass in the model.
- Presence.GetHostInfo: the bytes of a `net.IP` are not modelled. An IP is
  its `String()` text, and `ipAddr.Equal(ip)` (cmd/helpers.go:335) is
  equality of those texts. This agrees with Go, because `String()` prints an
  IPv4 address and its IPv4-in-IPv6 form as the same dotted quad, and an
  IPv6 address in one canonical form.
- Presence.GetHostInfo: a nil hardware address is `None`. An empty but
  non-nil one counts as present, as in Go.
- Handlers.Connect: the secret is a parameter that must be a byte string and
  valid UTF-8, as the UUID text is. Its randomness and uniqueness are not
  modelled.
- Handlers.NextKeepsConsistent: proved only for a request whose added
  identifier is valid UTF-8. The code compares the raw identifier with the
  stored ones and then stores its coerced form, so otherwise an identifier
  can end up both pending and saved (see "## Findings").
- Handlers.RunKeepsConsistent: proved only for sequences whose added
  identifiers are valid UTF-8, for the same reason.
  `Handlers.UnencodedIdentifierJoinsBothLists` is a sequence that breaks the
  invariant.
- Logging (`infoLog`/`errorLog`) and the `openURL` call that follows a
  registration are not modelled.

## Findings

| source | as written | input that shows it | evidently intended | confidence | as-written member | corrected member |
|---|---|---|---|---|---|---|
| cmd/devices.go:34 | `checkDeviceExist` compares the raw form identifier with the saved ones, but `savePendingDevice` stores it through `json.MarshalIndent`, which replaces invalid UTF-8 by U+FFFD | three requests with every file access succeeding: addDevice `a` with identifier `%EF%BF%BD`; verify that identifier with allow; addDevice `b` with identifier `%FF` | no identifier is both pending and saved | not executed | Handlers.UnencodedIdentifierJoinsBothLists | Handlers.CheckedRunKeepsConsistent |

`Handlers.CheckedNext` is `Handlers.Next` with addDevice's check made on the
identifier as the file will store it. `Handlers.CheckedNextAgrees` shows that
this changes nothing for valid UTF-8 identifiers. The handler methods still
model the code as written.
