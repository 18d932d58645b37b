/**
 * wrapper.py: `json2yaml` applies one NetBox change notification (a webhook
 * payload) to the psc_netconfig document in place.
 *
 * `Apply` is the specification: the document the call leaves behind, or the
 * exception it raises. `NetConfig.Json2Yaml` is the in-place procedure, proved
 * to agree with `Apply`; the lemmas state what each of the nine branches does.
 */
module Wrapper {
  import opened Base
  import opened Records

  /** The fields json2yaml reads from `snapshots.prechange` or `snapshots.postchange`. */
  datatype Snapshot = Snapshot(name: string, macAddress: Field)

  /**
   * A decoded payload: `event`, `model`, `data.device.name`,
   * `data.virtual_machine.name` and the two snapshots.
   */
  datatype Event = Event(
    event: string,
    model: string,
    deviceName: string,
    vmName: string,
    prechange: Snapshot,
    postchange: Snapshot)

  /** The exceptions json2yaml can raise on a decoded payload. */
  datatype Error =
    | KeyError(key: string)           // a dict lookup on a missing key
    | UnboundLocal(variable: string)  // the search loop never bound its variable

  predicate IsEntityModel(model: string)
  {
    model == "device" || model == "virtualmachine"
  }

  predicate IsInterfaceModel(model: string)
  {
    model == "interface" || model == "vminterface"
  }

  /** The entity whose interface list an interface event refers to. */
  function Owner(ev: Event): string
  {
    if ev.model == "interface" then ev.deviceName else ev.vmName
  }

  /** The record appended for a created interface: only the MAC is known. */
  function NewInterface(mac: Field): Iface
  {
    map["hwaddr" := mac, "ipaddr" := None, "net" := None, "netdev" := None]
  }

  // ---------------------------------------------------------------------
  // Specification, branch by branch

  /** Updated interface: the first record carrying `macOld` gets `macNew`. */
  function SetMac(d: Entities, owner: string, macOld: Field, macNew: Field, variable: string): Result<Entities, Error>
  {
    if owner !in d then Err(KeyError(owner))
    else match ScanFor(d[owner], "hwaddr", macOld)
      case KeyMissing(_) => Err(KeyError("hwaddr"))
      case NoMatch => Err(UnboundLocal(variable))
      case Found(k) => Ok(d[owner := d[owner][k := d[owner][k]["hwaddr" := macNew]]])
  }

  /** Updated device or virtual machine: copy the entry to the new name, then delete the old name. */
  function Rename(d: Entities, nameOld: string, nameNew: string): Result<Entities, Error>
  {
    if nameOld !in d then Err(KeyError(nameOld))
    else Ok(d[nameNew := d[nameOld]] - {nameOld})
  }

  /** Created interface: append a fresh record to the owner's list. */
  function AddInterface(d: Entities, owner: string, mac: Field): Result<Entities, Error>
  {
    if owner !in d then Err(KeyError(owner))
    else Ok(d[owner := d[owner] + [NewInterface(mac)]])
  }

  /** Deleted interface: drop the first record carrying `mac`; nothing happens when none does. */
  function DropInterface(d: Entities, owner: string, mac: Field): Result<Entities, Error>
  {
    if owner !in d then Err(KeyError(owner))
    else match ScanFor(d[owner], "hwaddr", mac)
      case KeyMissing(_) => Err(KeyError("hwaddr"))
      case NoMatch => Ok(d)
      case Found(k) => Ok(d[owner := d[owner][..k] + d[owner][k + 1..]])
  }

  /** What json2yaml leaves in psc_netconfig, or the exception it raises. */
  function Apply(d: Entities, ev: Event): Result<Entities, Error>
  {
    if ev.event == "updated" then
      if IsInterfaceModel(ev.model) then
        SetMac(d, Owner(ev), ev.prechange.macAddress, ev.postchange.macAddress, ev.model)
      else if IsEntityModel(ev.model) then
        Rename(d, ev.prechange.name, ev.postchange.name)
      else Ok(d)
    else if ev.event == "created" then
      if IsInterfaceModel(ev.model) then
        AddInterface(d, Owner(ev), ev.postchange.macAddress)
      else if IsEntityModel(ev.model) then
        Ok(d[ev.postchange.name := []])
      else Ok(d)
    else if ev.event == "deleted" then
      if IsInterfaceModel(ev.model) then
        DropInterface(d, Owner(ev), ev.prechange.macAddress)
      else if IsEntityModel(ev.model) then
        Ok(d - {ev.prechange.name})
      else Ok(d)
    else Ok(d)
  }

  /** `after` and `failure` are what the specification `spec` prescribes, starting from `before`. */
  predicate Reflects(spec: Result<Entities, Error>, failure: Option<Error>, before: Entities, after: Entities)
  {
    match spec
    case Ok(d) => failure == None && after == d
    case Err(e) => failure == Some(e) && after == before
  }

  // ---------------------------------------------------------------------
  // The in-place procedure

  /** The document object json2yaml receives, reduced to its psc_netconfig mapping. */
  class NetConfig {
    var entities: Entities

    constructor (entities: Entities)
      ensures this.entities == entities
    {
      this.entities := entities;
    }

    /** json2yaml: dispatch on event and model; returns this same document, or the exception. */
    method Json2Yaml(ev: Event) returns (r: Result<NetConfig, Error>)
      modifies this
      ensures Apply(old(entities), ev).Ok? ==> r == Ok(this) && entities == Apply(old(entities), ev).value
      ensures Apply(old(entities), ev).Err? ==> r == Err(Apply(old(entities), ev).error) && entities == old(entities)
    {
      var failure: Option<Error> := None;
      if ev.event == "updated" {
        if ev.model == "interface" {
          failure := SetInterfaceMac(ev.deviceName, ev.prechange.macAddress, ev.postchange.macAddress, "interface");
        } else if ev.model == "vminterface" {
          failure := SetInterfaceMac(ev.vmName, ev.prechange.macAddress, ev.postchange.macAddress, "vminterface");
        } else if ev.model == "device" || ev.model == "virtualmachine" {
          failure := RenameEntity(ev.prechange.name, ev.postchange.name);
        }
      } else if ev.event == "created" {
        if ev.model == "interface" {
          failure := AppendInterface(ev.deviceName, ev.postchange.macAddress);
        } else if ev.model == "vminterface" {
          failure := AppendInterface(ev.vmName, ev.postchange.macAddress);
        } else if ev.model == "device" || ev.model == "virtualmachine" {
          entities := entities[ev.postchange.name := []];
        }
      } else if ev.event == "deleted" {
        if ev.model == "interface" {
          failure := DeleteInterface(ev.deviceName, ev.prechange.macAddress);
        } else if ev.model == "vminterface" {
          failure := DeleteInterface(ev.vmName, ev.prechange.macAddress);
        } else if ev.model == "device" || ev.model == "virtualmachine" {
          PopEntity(ev.prechange.name);
        }
      }
      r := if failure.Some? then Err(failure.value) else Ok(this);
    }

    /** The `updated` interface branch: search by the old MAC, then assign `hwaddr` in place. */
    method SetInterfaceMac(owner: string, macOld: Field, macNew: Field, variable: string) returns (failure: Option<Error>)
      modifies this
      ensures Reflects(SetMac(old(entities), owner, macOld, macNew, variable), failure, old(entities), entities)
    {
      if owner !in entities {
        return Some(KeyError(owner));
      }
      var ifaces := entities[owner];
      var found := FindFirst(ifaces, "hwaddr", macOld);
      match found
      case KeyMissing(_) =>
        return Some(KeyError("hwaddr"));
      case NoMatch =>
        return Some(UnboundLocal(variable));
      case Found(k) =>
        entities := entities[owner := ifaces[k := ifaces[k]["hwaddr" := macNew]]];
        return None;
    }

    /** The `updated` device/VM branch: `d[new] = d[old]` followed by `del d[old]`. */
    method RenameEntity(nameOld: string, nameNew: string) returns (failure: Option<Error>)
      modifies this
      ensures Reflects(Rename(old(entities), nameOld, nameNew), failure, old(entities), entities)
    {
      if nameOld !in entities {
        return Some(KeyError(nameOld));
      }
      entities := entities[nameNew := entities[nameOld]];
      entities := entities - {nameOld};
      return None;
    }

    /** The `created` interface branch: `list.append` of a record with only the MAC set. */
    method AppendInterface(owner: string, mac: Field) returns (failure: Option<Error>)
      modifies this
      ensures Reflects(AddInterface(old(entities), owner, mac), failure, old(entities), entities)
    {
      if owner !in entities {
        return Some(KeyError(owner));
      }
      entities := entities[owner := entities[owner] + [NewInterface(mac)]];
      return None;
    }

    /** The `deleted` interface branch: `clear()` the matching record, then `list.remove({})`. */
    method DeleteInterface(owner: string, mac: Field) returns (failure: Option<Error>)
      modifies this
      ensures Reflects(DropInterface(old(entities), owner, mac), failure, old(entities), entities)
    {
      if owner !in entities {
        return Some(KeyError(owner));
      }
      var ifaces := entities[owner];
      var found := FindFirst(ifaces, "hwaddr", mac);
      match found
      case KeyMissing(_) =>
        return Some(KeyError("hwaddr"));
      case NoMatch =>
        return None;
      case Found(k) =>
        var cleared := ifaces[k := map[]];
        ClearThenRemoveDropsMatch(ifaces, mac, k);
        entities := entities[owner := ListRemove(cleared, map[]).value];
        return None;
    }

    /** The `deleted` device/VM branch: scan the keys and `pop` the one equal to `name`. */
    method PopEntity(name: string)
      modifies this
      ensures entities == old(entities) - {name}
    {
      var pending := entities.Keys;
      while pending != {}
        invariant entities == old(entities)
        invariant pending <= entities.Keys
        invariant name in entities ==> name in pending
        decreases pending
      {
        var k :| k in pending;
        if k == name {
          entities := entities - {k};
          break;
        }
        pending := pending - {k};
      }
      if name !in old(entities) {
        assert entities == old(entities) - {name};
      }
    }
  }

  // ---------------------------------------------------------------------
  // Properties

  /**
   * Clearing the matched record and then removing the first empty record
   * removes the matched record itself: every record the search stepped over
   * carries `hwaddr`, so none of them is empty.
   */
  lemma ClearThenRemoveDropsMatch(ifaces: seq<Iface>, mac: Field, k: nat)
    requires ScanFor(ifaces, "hwaddr", mac) == Found(k)
    ensures ListRemove(ifaces[k := map[]], map[]) == Some(ifaces[..k] + ifaces[k + 1..])
  {
    var cleared := ifaces[k := map[]];
    forall j | 0 <= j < k
      ensures cleared[j] != map[]
    {
      assert Passes(ifaces[j], "hwaddr", mac);
      assert "hwaddr" in cleared[j];
    }
    ListRemoveAt(cleared, map[], k);
    assert cleared[..k] == ifaces[..k];
    assert cleared[k + 1..] == ifaces[k + 1..];
  }

  /** Every entity other than `name` keeps its interface list. */
  ghost predicate OthersUnchanged(d: Entities, r: Entities, name: string)
  {
    forall n :: n in d && n != name ==> n in r && r[n] == d[n]
  }

  /** `rec` is the record json2yaml builds for a created interface with MAC `mac`. */
  ghost predicate IsFreshRecord(rec: Iface, mac: Field)
  {
    rec.Keys == {"hwaddr", "ipaddr", "net", "netdev"} &&
    rec["hwaddr"] == mac && rec["ipaddr"] == None && rec["net"] == None && rec["netdev"] == None
  }

  /**
   * Created device or virtual machine: `postchange.name` maps to an empty
   * interface list, replacing whatever was there; every other entry stays.
   */
  lemma CreatedEntity(d: Entities, ev: Event)
    requires ev.event == "created" && IsEntityModel(ev.model)
    ensures Apply(d, ev).Ok?
    ensures var r := Apply(d, ev).value;
      r.Keys == d.Keys + {ev.postchange.name} && r[ev.postchange.name] == [] &&
      OthersUnchanged(d, r, ev.postchange.name)
  {
  }

  /**
   * Created interface or VM interface: the owner is `data.device.name` for an
   * interface and `data.virtual_machine.name` for a VM interface; a missing
   * owner raises KeyError; otherwise exactly one fresh record is appended.
   */
  lemma CreatedInterface(d: Entities, ev: Event)
    requires ev.event == "created" && IsInterfaceModel(ev.model)
    ensures var owner := if ev.model == "interface" then ev.deviceName else ev.vmName;
      && (owner !in d ==> Apply(d, ev) == Err(KeyError(owner)))
      && (owner in d ==>
            && Apply(d, ev).Ok?
            && var r := Apply(d, ev).value;
            && r.Keys == d.Keys
            && OthersUnchanged(d, r, owner)
            && |r[owner]| == |d[owner]| + 1
            && r[owner][..|d[owner]|] == d[owner]
            && IsFreshRecord(r[owner][|d[owner]|], ev.postchange.macAddress))
  {
  }

  /**
   * Updated interface: when record `k` is the first carrying the old MAC (and
   * every record before it carries some other MAC), record `k` gets the new
   * MAC; its other fields, every other record and every other entity stay.
   */
  lemma UpdatedInterface(d: Entities, ev: Event, k: nat)
    requires ev.event == "updated" && IsInterfaceModel(ev.model)
    requires Owner(ev) in d && k < |d[Owner(ev)]|
    requires "hwaddr" in d[Owner(ev)][k] && d[Owner(ev)][k]["hwaddr"] == ev.prechange.macAddress
    requires forall j :: 0 <= j < k ==> Passes(d[Owner(ev)][j], "hwaddr", ev.prechange.macAddress)
    ensures Apply(d, ev).Ok?
    ensures var r, owner := Apply(d, ev).value, Owner(ev);
      && r.Keys == d.Keys
      && OthersUnchanged(d, r, owner)
      && |r[owner]| == |d[owner]|
      && (forall j :: 0 <= j < |d[owner]| && j != k ==> r[owner][j] == d[owner][j])
      && r[owner][k].Keys == d[owner][k].Keys
      && r[owner][k]["hwaddr"] == ev.postchange.macAddress
      && (forall f :: f in d[owner][k] && f != "hwaddr" ==> r[owner][k][f] == d[owner][k][f])
  {
  }

  /**
   * Updated interface whose old MAC no record carries: the loop variable is
   * never bound, so the assignment after the loop raises; a missing owner
   * raises KeyError first.
   */
  lemma UpdatedInterfaceUnmatched(d: Entities, ev: Event)
    requires ev.event == "updated" && IsInterfaceModel(ev.model)
    ensures Owner(ev) !in d ==> Apply(d, ev) == Err(KeyError(Owner(ev)))
    ensures Owner(ev) in d && (forall j :: 0 <= j < |d[Owner(ev)]| ==> Passes(d[Owner(ev)][j], "hwaddr", ev.prechange.macAddress))
      ==> Apply(d, ev) == Err(UnboundLocal(ev.model))
  {
  }

  /**
   * Updated device or virtual machine: the new name maps to the old entry's
   * interface list and the old name is gone; any entry already under the new
   * name is overwritten. Renaming to the same name deletes the entry, and an
   * unknown old name raises KeyError.
   */
  lemma UpdatedEntity(d: Entities, ev: Event)
    requires ev.event == "updated" && IsEntityModel(ev.model)
    ensures var pre, post := ev.prechange.name, ev.postchange.name;
      && (pre !in d ==> Apply(d, ev) == Err(KeyError(pre)))
      && (pre in d && pre != post ==>
            && Apply(d, ev).Ok?
            && var r := Apply(d, ev).value;
            && r.Keys == d.Keys - {pre} + {post}
            && r[post] == d[pre]
            && (forall n :: n in d && n != pre && n != post ==> r[n] == d[n]))
      && (pre in d && pre == post ==> Apply(d, ev) == Ok(d - {pre}))
  {
    var pre := ev.prechange.name;
    if pre in d {
      assert d[pre := d[pre]] == d;
    }
  }

  /** Deleted device or virtual machine: exactly that name is removed; an absent name leaves the document as it was. */
  lemma DeletedEntity(d: Entities, ev: Event)
    requires ev.event == "deleted" && IsEntityModel(ev.model)
    ensures Apply(d, ev).Ok?
    ensures Apply(d, ev).value.Keys == d.Keys - {ev.prechange.name}
    ensures OthersUnchanged(d, Apply(d, ev).value, ev.prechange.name)
    ensures ev.prechange.name !in d ==> Apply(d, ev) == Ok(d)
  {
    if ev.prechange.name !in d {
      assert d - {ev.prechange.name} == d;
    }
  }

  /**
   * Deleted interface: when record `k` is the first carrying the MAC, exactly
   * that record is removed and the rest keep their order; every other entity stays.
   */
  lemma DeletedInterface(d: Entities, ev: Event, k: nat)
    requires ev.event == "deleted" && IsInterfaceModel(ev.model)
    requires Owner(ev) in d && k < |d[Owner(ev)]|
    requires "hwaddr" in d[Owner(ev)][k] && d[Owner(ev)][k]["hwaddr"] == ev.prechange.macAddress
    requires forall j :: 0 <= j < k ==> Passes(d[Owner(ev)][j], "hwaddr", ev.prechange.macAddress)
    ensures Apply(d, ev).Ok?
    ensures var r, owner := Apply(d, ev).value, Owner(ev);
      && r.Keys == d.Keys
      && OthersUnchanged(d, r, owner)
      && r[owner] == d[owner][..k] + d[owner][k + 1..]
  {
  }

  /** Deleted interface that no record carries: the document is unchanged; a missing owner raises KeyError. */
  lemma DeletedInterfaceUnmatched(d: Entities, ev: Event)
    requires ev.event == "deleted" && IsInterfaceModel(ev.model)
    ensures Owner(ev) !in d ==> Apply(d, ev) == Err(KeyError(Owner(ev)))
    ensures Owner(ev) in d && (forall j :: 0 <= j < |d[Owner(ev)]| ==> Passes(d[Owner(ev)][j], "hwaddr", ev.prechange.macAddress))
      ==> Apply(d, ev) == Ok(d)
  {
  }

  /** An event or model outside the recognised values leaves the document unchanged. */
  lemma UnrecognisedIsNoOp(d: Entities, ev: Event)
    requires (ev.event != "created" && ev.event != "updated" && ev.event != "deleted")
          || (!IsEntityModel(ev.model) && !IsInterfaceModel(ev.model))
    ensures Apply(d, ev) == Ok(d)
  {
  }

  /** Creating a device under a fresh name and then deleting it gives back the original document. */
  lemma CreateThenDelete(d: Entities, create: Event, delete: Event)
    requires create.event == "created" && IsEntityModel(create.model)
    requires delete.event == "deleted" && IsEntityModel(delete.model)
    requires create.postchange.name == delete.prechange.name && create.postchange.name !in d
    ensures Apply(d, create).Ok? && Apply(Apply(d, create).value, delete) == Ok(d)
  {
    var name := create.postchange.name;
    assert d[name := []] - {name} == d;
  }

  /** No two records of one entity share a `hwaddr`: the identity the MAC-keyed branches rely on. */
  ghost predicate UniqueMacs(ifaces: seq<Iface>)
  {
    forall i, j :: 0 <= i < j < |ifaces| && "hwaddr" in ifaces[i] && "hwaddr" in ifaces[j] ==>
      ifaces[i]["hwaddr"] != ifaces[j]["hwaddr"]
  }

  ghost predicate AllUniqueMacs(d: Entities)
  {
    forall n :: n in d ==> UniqueMacs(d[n])
  }

  /** No record of the list carries `mac`. */
  ghost predicate MacUnused(ifaces: seq<Iface>, mac: Field)
  {
    forall j :: 0 <= j < |ifaces| && "hwaddr" in ifaces[j] ==> ifaces[j]["hwaddr"] != mac
  }

  /** Every record of the list has a `hwaddr` field. */
  ghost predicate AllHaveMac(ifaces: seq<Iface>)
  {
    forall j :: 0 <= j < |ifaces| ==> "hwaddr" in ifaces[j]
  }

  /** Dropping one record keeps the MACs of the rest distinct. */
  lemma DropKeepsUniqueMacs(s: seq<Iface>, k: nat)
    requires k < |s| && UniqueMacs(s)
    ensures UniqueMacs(s[..k] + s[k + 1..])
  {
  }

  /**
   * Applying an event keeps the MACs of every entity distinct, provided a
   * created or updated interface brings a MAC its owner does not carry yet.
   */
  lemma ApplyKeepsMacsUnique(d: Entities, ev: Event)
    requires AllUniqueMacs(d) && Apply(d, ev).Ok?
    requires ev.event == "created" && IsInterfaceModel(ev.model) && Owner(ev) in d
      ==> MacUnused(d[Owner(ev)], ev.postchange.macAddress)
    requires ev.event == "updated" && IsInterfaceModel(ev.model) && Owner(ev) in d
      ==> ev.postchange.macAddress == ev.prechange.macAddress || MacUnused(d[Owner(ev)], ev.postchange.macAddress)
    ensures AllUniqueMacs(Apply(d, ev).value)
  {
    if ev.event == "updated" && IsInterfaceModel(ev.model) && ev.postchange.macAddress == ev.prechange.macAddress {
      // Writing back the MAC the matched record already carries leaves the document as it was.
      var owner, s := Owner(ev), d[Owner(ev)];
      var k := ScanFor(s, "hwaddr", ev.prechange.macAddress).index;
      assert s[k]["hwaddr" := ev.postchange.macAddress] == s[k];
      assert s[k := s[k]] == s;
      assert d[owner := s] == d;
    }
  }

  /**
   * After an updated interface event, on a list whose records all carry
   * distinct MACs and where the new MAC was unused, the changed record is
   * found under the new MAC, and no record is found under the old one.
   */
  lemma UpdatedInterfaceResolvesByNewMac(d: Entities, ev: Event, k: nat)
    requires ev.event == "updated" && IsInterfaceModel(ev.model) && Owner(ev) in d
    requires ScanFor(d[Owner(ev)], "hwaddr", ev.prechange.macAddress) == Found(k)
    requires AllHaveMac(d[Owner(ev)]) && UniqueMacs(d[Owner(ev)])
    requires MacUnused(d[Owner(ev)], ev.postchange.macAddress)
    ensures Apply(d, ev).Ok?
    ensures ScanFor(Apply(d, ev).value[Owner(ev)], "hwaddr", ev.postchange.macAddress) == Found(k)
    ensures ScanFor(Apply(d, ev).value[Owner(ev)], "hwaddr", ev.prechange.macAddress) == NoMatch
  {
    var s, pre, post := d[Owner(ev)], ev.prechange.macAddress, ev.postchange.macAddress;
    var t := Apply(d, ev).value[Owner(ev)];
    assert t == s[k := s[k]["hwaddr" := post]];
    forall j | 0 <= j < |t|
      ensures Passes(t[j], "hwaddr", pre)
    {
      if j != k {
        assert "hwaddr" in s[j] && "hwaddr" in s[k];
        assert s[j]["hwaddr"] != s[k]["hwaddr"];
      }
    }
    forall j | 0 <= j < k
      ensures Passes(t[j], "hwaddr", post)
    {
      assert "hwaddr" in s[j];
    }
    assert "hwaddr" in t[k] && t[k]["hwaddr"] == post;
  }

  /** The rename scenario: host1 with one record, renamed to host2, keeps that record under host2 only. */
  lemma RenameScenario(ev: Event)
    requires ev.event == "updated" && ev.model == "device"
    requires ev.prechange.name == "host1" && ev.postchange.name == "host2"
    ensures var rec := map["hwaddr" := Some("aa:bb:cc:dd:ee:01"), "ipaddr" := None, "net" := None, "netdev" := None];
      Apply(map["host1" := [rec]], ev) == Ok(map["host2" := [rec]])
  {
    var rec := map["hwaddr" := Some("aa:bb:cc:dd:ee:01"), "ipaddr" := None, "net" := None, "netdev" := None];
    var d := map["host1" := [rec]];
    assert d["host2" := [rec]] - {"host1"} == map["host2" := [rec]];
  }
}
