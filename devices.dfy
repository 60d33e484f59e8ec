/** Finding and opening the bridge: OpenDevice's enumeration and its choice of
    interface, and I2CInit's staged bring-up of the I2C master.  The enumeration
    and the bring-up calls are library code; their outcomes are given. */
module Devices {
  import opened Ft4222

  datatype Option<T> = None | Some(value: T)

  /** FT_DEVICE, as far as OpenDevice tells the types apart. */
  datatype DeviceType = Mode0 | Mode12 | Mode3 | OtherType

  /** FT_DEVICE_LIST_INFO_NODE: the fields the selection looks at. */
  datatype DeviceInfo = DeviceInfo(devType: DeviceType, description: string, locId: nat)

  /** The description names interface A: its last character is 'A'. */
  predicate InterfaceA(description: string)
  {
    |description| > 0 && description[|description| - 1] == 'A'
  }

  /** A device that may serve as I2C master: interface A of a mode-0 chip, or the
      single interface of a mode-3 chip.  Mode 1/2 interfaces and mode-0 interface B
      are skipped. */
  predicate Usable(d: DeviceInfo)
  {
    (d.devType == Mode0 && InterfaceA(d.description)) || d.devType == Mode3
  }

  /** The index of the first usable device of the list, if there is one. */
  function FirstUsable(devices: seq<DeviceInfo>): (r: Option<nat>)
    ensures r.Some? ==> r.value < |devices| && Usable(devices[r.value])
    ensures r.Some? ==> forall j :: 0 <= j < r.value ==> !Usable(devices[j])
    ensures r.None? <==> forall j :: 0 <= j < |devices| ==> !Usable(devices[j])
  {
    if devices == [] then None
    else if Usable(devices[0]) then Some(0)
    else
      match FirstUsable(devices[1..])
      case None => None
      case Some(i) => Some(i + 1)
  }

  /** The replies of the enumeration: whether FT_CreateDeviceInfoList succeeded and
      the count it gave, whether calloc found storage, whether FT_GetDeviceInfoList
      succeeded, and the list it filled in. */
  datatype Enumeration = Enumeration(created: bool, count: nat, stored: bool, listed: bool, devices: seq<DeviceInfo>)

  /** OpenDevice's return value. */
  function OpenCode(en: Enumeration): (rc: int)
    ensures rc == 0 || rc == -10 || rc == -20 || rc == -30 || rc == -40 || rc == -50
    ensures rc == -10 <==> !en.created
    ensures rc == -20 <==> en.created && en.count == 0
    ensures rc == -30 <==> en.created && en.count != 0 && !en.stored
    ensures rc == -40 <==> en.created && en.count != 0 && en.stored && !en.listed
    ensures rc == 0 <==>
      && en.created && en.count != 0 && en.stored && en.listed
      && exists i :: 0 <= i < |en.devices| && Usable(en.devices[i])
  {
    if !en.created then -10
    else if en.count == 0 then -20
    else if !en.stored then -30
    else if !en.listed then -40
    else if FirstUsable(en.devices).Some? then 0
    else -50
  }

  /** OpenDevice(&loc_id): the location of the first usable device is passed back. */
  method OpenDevice(en: Enumeration) returns (rc: int, locId: nat)
    ensures rc == OpenCode(en)
    ensures rc == 0 ==> FirstUsable(en.devices).Some? && locId == en.devices[FirstUsable(en.devices).value].locId
  {
    if !en.created {
      return -10, 0;
    }
    if en.count == 0 {
      return -20, 0;
    }
    if !en.stored {
      return -30, 0;
    }
    if !en.listed {
      return -40, 0;
    }
    var devices := en.devices;
    for i := 0 to |devices|
      invariant forall j :: 0 <= j < i ==> !Usable(devices[j])
    {
      var d := devices[i];
      if d.devType == Mode0 {
        if |d.description| > 0 && d.description[|d.description| - 1] == 'A' {
          return 0, d.locId;
        }
        // "Skipping interface B of mode-0 FT4222H."
      }
      if d.devType == Mode12 {
        // "Skipping interface <c> of mode-1/2 FT4222H."
      }
      if d.devType == Mode3 {
        return 0, d.locId;
      }
    }
    // "No FT4222 found."
    return -50, 0;
  }

  /** The bring-up steps of I2CInit, in order: FT_OpenEx, FT4222_GetVersion,
      FT4222_I2CMaster_Init and FT4222_I2CMaster_Reset, each succeeding or not. */
  datatype InitReplies = InitReplies(openEx: bool, getVersion: bool, masterInit: bool, masterReset: bool)

  function Stages(r: InitReplies): (s: seq<bool>)
    ensures |s| == 4
  {
    [r.openEx, r.getVersion, r.masterInit, r.masterReset]
  }

  /** The number of steps that succeeded before the first failure (all of them if
      none failed). */
  function FirstFailed(s: seq<bool>): (k: nat)
    ensures k <= |s|
    ensures forall j :: 0 <= j < k ==> s[j]
    ensures k < |s| ==> !s[k]
  {
    if s == [] || !s[0] then 0 else 1 + FirstFailed(s[1..])
  }

  /** I2CInit's return value: 0 when every step succeeds, otherwise -10 times the
      number of the first step that failed. */
  function InitCode(r: InitReplies): (rc: int)
    ensures rc == 0 || rc == -10 || rc == -20 || rc == -30 || rc == -40
    ensures rc == 0 <==> forall k :: 0 <= k < 4 ==> Stages(r)[k]
  {
    var k := FirstFailed(Stages(r));
    if k == 4 then 0 else -10 * (k + 1)
  }

  /** The code of the first failed step is the one I2CInit's chain of checks returns. */
  lemma InitCodeChain(r: InitReplies)
    ensures InitCode(r) ==
      if !r.openEx then -10
      else if !r.getVersion then -20
      else if !r.masterInit then -30
      else if !r.masterReset then -40
      else 0
  {
    var s := Stages(r);
    assert s[1..] == [r.getVersion, r.masterInit, r.masterReset];
    assert s[1..][1..] == [r.masterInit, r.masterReset];
    assert s[1..][1..][1..] == [r.masterReset];
    assert s[1..][1..][1..][1..] == [];
    var k3 := FirstFailed(s[1..][1..][1..]);
    var k2 := FirstFailed(s[1..][1..]);
    var k1 := FirstFailed(s[1..]);
    assert k2 == if r.masterInit then 1 + k3 else 0;
    assert k1 == if r.getVersion then 1 + k2 else 0;
  }

  /** I2CInit(locationId, kbps, &handle): a handle that failed a step after being
      opened is closed again (CloseHandle) before the error is returned. */
  method I2CInit(v: Vendor, r: InitReplies) returns (rc: int, bus: Handle?)
    ensures rc == InitCode(r)
    ensures bus == null <==> !r.openEx
    ensures bus != null ==> fresh(bus) && bus.vendor == v && bus.log == (if rc == 0 then [] else [Closed])
  {
    InitCodeChain(r);
    if !r.openEx {
      return -10, null;
    }
    bus := new Handle(v);
    if !r.getVersion {
      bus.Close();
      return -20, bus;
    }
    if !r.masterInit {
      bus.Close();
      return -30, bus;
    }
    if !r.masterReset {
      bus.Close();
      return -40, bus;
    }
    return 0, bus;
  }
}
