/** The device registry (cmd/devices.go): a pending list of devices that asked
    to pair and a saved list of approved devices, each kept in a JSON file and
    replaced as a whole on every change. A write stores the strings as
    json.MarshalIndent does (Json.StoredDevices). */
module Devices {
  import opened Types
  import opened Json

  /** The identifiers occurring in a device list. */
  function Identifiers(devices: seq<DeviceInfo>): set<string> {
    set i | 0 <= i < |devices| :: devices[i].identifier
  }

  /** The records of `devices` whose identifier is not `id`, in their original
      order: what the filtering loops of saveDevice and removeDevice build. */
  function Without(devices: seq<DeviceInfo>, id: string): seq<DeviceInfo> {
    if devices == [] then []
    else
      var last := devices[|devices| - 1];
      Without(devices[..|devices| - 1], id) + (if last.identifier == id then [] else [last])
  }

  /** The record saveDevice moves to the saved list: the last record with
      identifier `id`, or the zero DeviceInfo when there is none. */
  function LastMatch(devices: seq<DeviceInfo>, id: string): DeviceInfo {
    if devices == [] then ZeroDevice
    else if devices[|devices| - 1].identifier == id then devices[|devices| - 1]
    else LastMatch(devices[..|devices| - 1], id)
  }

  /** getClientInfo: the decoded registration form, rejected with
      InvalidFormBody when its identifier or its name is empty. */
  function GetClientInfo(form: Result<DeviceInfo>): (r: Result<DeviceInfo>)
    ensures form.Err? ==> r == form
    ensures form.Ok? && (form.value.identifier == "" || form.value.name == "") ==> r == Err(InvalidFormBody)
    ensures r.Ok? <==> form.Ok? && form.value.identifier != "" && form.value.name != ""
    ensures r.Ok? ==> r.value == form.value
  {
    match form
    case Err(e) => Err(e)
    case Ok(client) =>
      if client.identifier == "" || client.name == "" then Err(InvalidFormBody) else Ok(client)
  }

  /** The contents of both device files. */
  datatype Registry = Registry(pending: seq<DeviceInfo>, saved: seq<DeviceInfo>)

  /** Both files hold records as json.Unmarshal produces them. */
  predicate RegistryDecoded(reg: Registry) {
    DevicesDecoded(reg.pending) && DevicesDecoded(reg.saved)
  }

  /** The registry invariant: no identifier is both pending and saved, and no
      pending record has an empty identifier. */
  predicate Consistent(reg: Registry) {
    Identifiers(reg.pending) !! Identifiers(reg.saved) && "" !in Identifiers(reg.pending)
  }

  /** The pending-devices file and the saved-devices file. */
  class DeviceStore {
    var pending: seq<DeviceInfo>
    var saved: seq<DeviceInfo>

    constructor (pending: seq<DeviceInfo>, saved: seq<DeviceInfo>)
      ensures this.pending == pending && this.saved == saved
    {
      this.pending := pending;
      this.saved := saved;
    }

    function State(): Registry
      reads this
    {
      Registry(pending, saved)
    }

    /** The fields hold what reading the files gives: json.Unmarshal replaces
        invalid UTF-8, so whatever the files contain, every string read from
        them is valid UTF-8. */
    predicate Decoded()
      reads this
    {
      RegistryDecoded(State())
    }

    /** readJSONFile of the pending-devices file. */
    method ReadPending(readOk: bool) returns (r: Result<seq<DeviceInfo>>)
      ensures r == if readOk then Ok(pending) else Err(StoreError)
    {
      r := if readOk then Ok(pending) else Err(StoreError);
    }

    /** writeJSONFile of the pending-devices file: the list as stored, or, when
        the write fails, the file as it was. */
    method WritePending(list: seq<DeviceInfo>, writeOk: bool) returns (r: Outcome)
      requires Decoded()
      modifies this`pending
      ensures Decoded()
      ensures pending == if writeOk then StoredDevices(list) else old(pending)
      ensures r == if writeOk then Pass else Fail(StoreError)
    {
      if writeOk {
        StoredDevicesDecoded(list);
        pending := StoredDevices(list);
        r := Pass;
      } else {
        r := Fail(StoreError);
      }
    }

    /** readJSONFile of the saved-devices file. */
    method ReadSaved(readOk: bool) returns (r: Result<seq<DeviceInfo>>)
      ensures r == if readOk then Ok(saved) else Err(StoreError)
    {
      r := if readOk then Ok(saved) else Err(StoreError);
    }

    /** writeJSONFile of the saved-devices file: the list as stored, or, when
        the write fails, the file as it was. */
    method WriteSaved(list: seq<DeviceInfo>, writeOk: bool) returns (r: Outcome)
      requires Decoded()
      modifies this`saved
      ensures Decoded()
      ensures saved == if writeOk then StoredDevices(list) else old(saved)
      ensures r == if writeOk then Pass else Fail(StoreError)
    {
      if writeOk {
        StoredDevicesDecoded(list);
        saved := StoredDevices(list);
        r := Pass;
      } else {
        r := Fail(StoreError);
      }
    }

    /** checkDeviceExist: whether some saved record carries the client's identifier. */
    method CheckDeviceExist(client: DeviceInfo, readOk: bool) returns (r: Result<bool>)
      ensures !readOk ==> r == Err(StoreError)
      ensures readOk ==> r == Ok(exists i :: 0 <= i < |saved| && saved[i].identifier == client.identifier)
    {
      var devices := ReadSaved(readOk);
      if devices.Err? {
        return Err(devices.error);
      }
      var list := devices.value;
      for i := 0 to |list|
        invariant forall k :: 0 <= k < i ==> list[k].identifier != client.identifier
      {
        if list[i].identifier == client.identifier {
          return Ok(true);
        }
      }
      return Ok(false);
    }

    /** savePendingDevice: appends the record, as stored, to the pending list,
        with no duplicate check. */
    method SavePendingDevice(client: DeviceInfo, io: StoreIo) returns (r: Outcome)
      requires Decoded()
      modifies this`pending
      ensures Decoded()
      ensures pending == if io.Succeeds() then old(pending) + [StoredDevice(client)] else old(pending)
      ensures r == if io.Succeeds() then Pass else Fail(StoreError)
    {
      var pdDevices := ReadPending(io.readOk);
      if pdDevices.Err? {
        return Fail(pdDevices.error);
      }
      StoredAppend(pdDevices.value, client);
      r := WritePending(pdDevices.value + [client], io.writeOk);
    }

    /** saveDevice: removes every pending record with identifier `id`, writes
        the pending file, and only then, when `isAllowed`, reads the saved file
        and appends the last removed record (the zero DeviceInfo when `id` was
        not pending). With `isAllowed` false the saved file is never touched. */
    method SaveDevice(id: string, isAllowed: bool, pendingIo: StoreIo, savedIo: StoreIo) returns (r: Outcome)
      requires Decoded()
      modifies this
      ensures Decoded()
      ensures pending == if pendingIo.Succeeds() then Without(old(pending), id) else old(pending)
      ensures saved == if pendingIo.Succeeds() && isAllowed && savedIo.Succeeds()
                       then old(saved) + [LastMatch(old(pending), id)]
                       else old(saved)
      ensures r == if pendingIo.Succeeds() && (isAllowed ==> savedIo.Succeeds()) then Pass else Fail(StoreError)
    {
      var pdDeviceList := ReadPending(pendingIo.readOk);
      if pdDeviceList.Err? {
        return Fail(pdDeviceList.error);
      }
      var list := pdDeviceList.value;
      var device := ZeroDevice;
      var newList: seq<DeviceInfo> := [];
      for i := 0 to |list|
        invariant newList == Without(list[..i], id)
        invariant device == LastMatch(list[..i], id)
      {
        assert list[..i + 1][..i] == list[..i];
        if list[i].identifier == id {
          device := list[i];
          continue;
        }
        newList := newList + [list[i]];
      }
      assert list[..|list|] == list;
      WithoutDecoded(list, id);
      StoredDevicesDecoded(newList);
      r := WritePending(newList, pendingIo.writeOk);
      if r.Fail? {
        return;
      }
      if isAllowed {
        var deviceList := ReadSaved(savedIo.readOk);
        if deviceList.Err? {
          return Fail(deviceList.error);
        }
        LastMatchDecoded(list, id);
        StoredAppend(deviceList.value, device);
        r := WriteSaved(deviceList.value + [device], savedIo.writeOk);
      }
    }

    /** removeDevice: removes every saved record with identifier `id`. */
    method RemoveDevice(id: string, io: StoreIo) returns (r: Outcome)
      requires Decoded()
      modifies this`saved
      ensures Decoded()
      ensures saved == if io.Succeeds() then Without(old(saved), id) else old(saved)
      ensures r == if io.Succeeds() then Pass else Fail(StoreError)
    {
      var list := ReadSaved(io.readOk);
      if list.Err? {
        return Fail(list.error);
      }
      var devices := list.value;
      var newList: seq<DeviceInfo> := [];
      for i := 0 to |devices|
        invariant newList == Without(devices[..i], id)
      {
        assert devices[..i + 1][..i] == devices[..i];
        if devices[i].identifier != id {
          newList := newList + [devices[i]];
        }
      }
      assert devices[..|devices|] == devices;
      WithoutDecoded(devices, id);
      StoredDevicesDecoded(newList);
      r := WriteSaved(newList, io.writeOk);
    }
  }

  lemma IdentifiersAppend(devices: seq<DeviceInfo>, d: DeviceInfo)
    ensures Identifiers(devices + [d]) == Identifiers(devices) + {d.identifier}
  {
    var s := devices + [d];
    assert s[|devices|] == d;
    forall x | x in Identifiers(devices)
      ensures x in Identifiers(s)
    {
      var i :| 0 <= i < |devices| && devices[i].identifier == x;
      assert s[i] == devices[i];
    }
  }

  /** A record survives the filter exactly when it was present and carries
      another identifier. */
  lemma {:induction false} WithoutMembers(devices: seq<DeviceInfo>, id: string, d: DeviceInfo)
    ensures d in Without(devices, id) <==> d in devices && d.identifier != id
  {
    if devices != [] {
      var init := devices[..|devices| - 1];
      WithoutMembers(init, id, d);
      assert devices == init + [devices[|devices| - 1]];
    }
  }

  /** Filtering removes `id` from the identifier set and nothing else. */
  lemma {:induction false} WithoutIdentifiers(devices: seq<DeviceInfo>, id: string)
    ensures Identifiers(Without(devices, id)) == Identifiers(devices) - {id}
  {
    if devices != [] {
      var init := devices[..|devices| - 1];
      var last := devices[|devices| - 1];
      WithoutIdentifiers(init, id);
      assert devices == init + [last];
      assert Without(devices, id) == Without(init, id) + (if last.identifier == id then [] else [last]);
      IdentifiersAppend(init, last);
      if last.identifier != id {
        IdentifiersAppend(Without(init, id), last);
      } else {
        assert Without(devices, id) == Without(init, id);
        assert Identifiers(devices) - {id} == Identifiers(init) - {id};
      }
    }
  }

  /** Filtering keeps the order of the remaining records: it distributes over
      concatenation. */
  lemma {:induction false} WithoutConcat(a: seq<DeviceInfo>, b: seq<DeviceInfo>, id: string)
    ensures Without(a + b, id) == Without(a, id) + Without(b, id)
  {
    if b == [] {
      assert a + b == a;
    } else {
      var init := b[..|b| - 1];
      var last := b[|b| - 1];
      assert (a + b)[..|a + b| - 1] == a + init;
      assert (a + b)[|a + b| - 1] == last;
      WithoutConcat(a, init, id);
    }
  }

  /** Filtering twice is filtering once: removeDevice is idempotent. */
  lemma {:induction false} WithoutIdempotent(devices: seq<DeviceInfo>, id: string)
    ensures Without(Without(devices, id), id) == Without(devices, id)
  {
    if devices != [] {
      var init := devices[..|devices| - 1];
      var last := devices[|devices| - 1];
      WithoutIdempotent(init, id);
      assert Without(devices, id) == Without(init, id) + (if last.identifier == id then [] else [last]);
      if last.identifier != id {
        WithoutConcat(Without(init, id), [last], id);
        assert [last][..0] == [];
        assert Without([last], id) == [last];
      } else {
        assert Without(devices, id) == Without(init, id);
      }
    }
  }

  /** Filtering out an identifier that does not occur changes nothing. */
  lemma {:induction false} WithoutAbsent(devices: seq<DeviceInfo>, id: string)
    requires id !in Identifiers(devices)
    ensures Without(devices, id) == devices
  {
    if devices != [] {
      var init := devices[..|devices| - 1];
      var last := devices[|devices| - 1];
      assert devices == init + [last];
      IdentifiersAppend(init, last);
      WithoutAbsent(init, id);
    }
  }

  /** LastMatch picks the last record carrying `id`, and the zero DeviceInfo
      when no record does. */
  lemma {:induction false} LastMatchIsLast(devices: seq<DeviceInfo>, id: string)
    ensures id !in Identifiers(devices) ==> LastMatch(devices, id) == ZeroDevice
    ensures id in Identifiers(devices) ==>
      exists k :: 0 <= k < |devices| && devices[k] == LastMatch(devices, id) && devices[k].identifier == id &&
        forall j :: k < j < |devices| ==> devices[j].identifier != id
  {
    if devices != [] {
      var n := |devices| - 1;
      var init := devices[..n];
      var last := devices[n];
      assert devices == init + [last];
      IdentifiersAppend(init, last);
      LastMatchIsLast(init, id);
      if last.identifier != id && id in Identifiers(init) {
        var k :| 0 <= k < |init| && init[k] == LastMatch(init, id) && init[k].identifier == id &&
          forall j :: k < j < |init| ==> init[j].identifier != id;
        assert devices[k] == init[k];
      }
    }
  }

  /** An identifier found in decoded records is valid UTF-8. */
  lemma IdentifierDecoded(devices: seq<DeviceInfo>, id: string)
    requires DevicesDecoded(devices) && id in Identifiers(devices)
    ensures ValidUtf8(id)
  {
    var i :| 0 <= i < |devices| && devices[i].identifier == id;
    assert devices[i] in devices;
  }

  /** Appending to decoded records stores the new record and keeps the rest. */
  lemma StoredAppend(devices: seq<DeviceInfo>, d: DeviceInfo)
    requires DevicesDecoded(devices)
    ensures StoredDevices(devices + [d]) == devices + [StoredDevice(d)]
  {
    StoredDevicesDecoded(devices);
    var r := StoredDevices(devices + [d]);
    forall i | 0 <= i < |devices|
      ensures r[i] == devices[i]
    {
      assert (devices + [d])[i] == devices[i];
      assert devices[i] in devices;
    }
  }

  /** Filtering decoded records leaves decoded records. */
  lemma WithoutDecoded(devices: seq<DeviceInfo>, id: string)
    requires DevicesDecoded(devices)
    ensures DevicesDecoded(Without(devices, id))
  {
    forall d | d in Without(devices, id)
      ensures ValidUtf8(d.name) && ValidUtf8(d.identifier)
    {
      WithoutMembers(devices, id, d);
    }
  }

  /** The record saveDevice moves is decoded, whether a match or the zero record. */
  lemma LastMatchDecoded(devices: seq<DeviceInfo>, id: string)
    requires DevicesDecoded(devices)
    ensures ValidUtf8(LastMatch(devices, id).name) && ValidUtf8(LastMatch(devices, id).identifier)
  {
    LastMatchIsLast(devices, id);
    if id in Identifiers(devices) {
      var k :| 0 <= k < |devices| && devices[k] == LastMatch(devices, id) && devices[k].identifier == id &&
        forall j :: k < j < |devices| ==> devices[j].identifier != id;
      assert devices[k] in devices;
    } else {
      assert ValidUtf8("");
    }
  }
}
