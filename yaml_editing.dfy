/**
 * yaml-editing.py: the single-field editor. `YamlEditor.Replace` checks the
 * user's device, netdev, key and value against the psc_netconfig document and
 * overwrites one field of one interface record in place.
 *
 * The IP address check (Python's `ipaddress.ip_address`) is a parameter
 * `ipValid`; its failure prints the error and calls `sys.exit`.
 */
module YamlEditing {
  import opened Base
  import opened Records

  /** What the editor raises: NetboxInputError, the SystemExit of the IP check, or a KeyError. */
  datatype EditError =
    | NetboxInputError(message: string)
    | Exited(printed: string)
    | KeyError(key: string)

  /** check_inputs: succeeds exactly when `value` is one of `keys`, otherwise raises with `errorMessage`. */
  function CheckInputs<T(==)>(errorMessage: string, keys: set<T>, value: T): (r: Result<bool, EditError>)
    ensures r.Ok? <==> value in keys
    ensures r.Ok? ==> r.value
    ensures r.Err? ==> r.error == NetboxInputError(errorMessage)
  {
    if value in keys then Ok(true) else Err(NetboxInputError(errorMessage))
  }

  // ---------------------------------------------------------------------
  // The MAC regular expression, piece by piece

  /** `[0-9A-Fa-f]`; under IGNORECASE no other character folds into it. */
  predicate IsHexDigit(c: char)
  {
    '0' <= c <= '9' || 'a' <= c <= 'f' || 'A' <= c <= 'F'
  }

  /** `[:-]` */
  predicate IsSeparator(c: char)
  {
    c == ':' || c == '-'
  }

  /** `([0-9A-Fa-f]{2}[:-]){n}` matched at the start of `s`. */
  predicate SeparatedPairs(s: string, n: nat)
    decreases n
  {
    n == 0 || (3 <= |s| && IsHexDigit(s[0]) && IsHexDigit(s[1]) && IsSeparator(s[2]) && SeparatedPairs(s[3..], n - 1))
  }

  /** `[0-9A-Fa-f]{n}` matched at the start of `s`. */
  predicate HexRun(s: string, n: nat)
  {
    n <= |s| && forall i :: 0 <= i < n ==> IsHexDigit(s[i])
  }

  /** Python's `$` without MULTILINE at position `i`: the end of the string, or just before a final newline. */
  predicate EndAnchor(s: string, i: nat)
  {
    i == |s| || (i + 1 == |s| && s[i] == '\n')
  }

  /** First alternative, `^([0-9A-Fa-f]{2}[:-]){5}([0-9A-Fa-f]{2})`: it carries no `$`. */
  predicate MatchesSeparatedForm(s: string)
  {
    15 <= |s| && SeparatedPairs(s, 5) && HexRun(s[15..], 2)
  }

  /** Second alternative, `([0-9a-fA-F]{4}\.[0-9a-fA-F]{4}\.[0-9a-fA-F]{4})$`, tried at the start by `re.match`. */
  predicate MatchesDottedForm(s: string)
  {
    14 <= |s| && HexRun(s, 4) && s[4] == '.' && HexRun(s[5..], 4) && s[9] == '.' && HexRun(s[10..], 4) && EndAnchor(s, 14)
  }

  /** Six hex pairs, each of the first five followed by `:` or `-`, at the start of `s`; anything may follow. */
  ghost predicate SeparatedShape(s: string)
  {
    17 <= |s| && forall i :: 0 <= i < 17 ==> if i % 3 == 2 then IsSeparator(s[i]) else IsHexDigit(s[i])
  }

  /** Three groups of four hex digits joined by dots, and nothing after them but at most one final newline. */
  ghost predicate DottedShape(s: string)
  {
    (|s| == 14 || (|s| == 15 && s[14] == '\n')) &&
    forall i :: 0 <= i < 14 ==> if i % 5 == 4 then s[i] == '.' else IsHexDigit(s[i])
  }

  lemma {:induction false} SeparatedPairsPositions(s: string, n: nat)
    ensures SeparatedPairs(s, n) <==>
      3 * n <= |s| && forall i :: 0 <= i < 3 * n ==> if i % 3 == 2 then IsSeparator(s[i]) else IsHexDigit(s[i])
    decreases n
  {
    if n > 0 && 3 <= |s| {
      var t := s[3..];
      SeparatedPairsPositions(t, n - 1);
      forall i | 3 <= i < |s|
        ensures s[i] == t[i - 3] && (i - 3) % 3 == i % 3
      {
      }
    }
  }

  lemma SeparatedFormIsShape(s: string)
    ensures MatchesSeparatedForm(s) <==> SeparatedShape(s)
  {
  }

  lemma DottedFormIsShape(s: string)
    ensures MatchesDottedForm(s) <==> DottedShape(s)
  {
  }

  /** validate_mac_address: accepts the colon/hyphen form as a prefix, or the dotted form as the whole string. */
  function ValidateMacAddress(errorMessage: string, address: string): (r: Result<bool, EditError>)
    ensures r.Ok? <==> SeparatedShape(address) || DottedShape(address)
    ensures r.Ok? ==> r.value
    ensures r.Err? ==> r.error == NetboxInputError(errorMessage)
  {
    SeparatedFormIsShape(address);
    DottedFormIsShape(address);
    if MatchesSeparatedForm(address) || MatchesDottedForm(address) then Ok(true)
    else Err(NetboxInputError(errorMessage))
  }

  /** Colon/hyphen addresses are accepted in either case and with mixed separators. */
  lemma SeparatedExamplesAccepted(m: string)
    ensures ValidateMacAddress(m, "aa:bb:cc:dd:ee:ff").Ok?
    ensures ValidateMacAddress(m, "AA-BB-CC-DD-EE-FF").Ok?
    ensures ValidateMacAddress(m, "aa:bb-cc:dd-ee:ff").Ok?
  {
    assert MatchesSeparatedForm("aa:bb:cc:dd:ee:ff");
    assert MatchesSeparatedForm("AA-BB-CC-DD-EE-FF");
    assert MatchesSeparatedForm("aa:bb-cc:dd-ee:ff");
  }

  /** The dotted (Cisco) form is accepted. */
  lemma DottedExampleAccepted(m: string)
    ensures ValidateMacAddress(m, "aabb.ccdd.eeff").Ok?
    ensures ValidateMacAddress(m, "AABB.ccdd.EEFF").Ok?
  {
  }

  /** Refused addresses raise NetboxInputError with the caller's message. */
  lemma MacExamplesRefused(m: string)
    ensures ValidateMacAddress(m, "not-a-mac") == Err(NetboxInputError(m))
    ensures ValidateMacAddress(m, "aa:bb:cc:dd:ee") == Err(NetboxInputError(m))
  {
  }

  /** The first alternative has no end anchor: anything may follow a well-formed colon/hyphen address. */
  lemma SeparatedFormAcceptsTrailingText(s: string, t: string, m: string)
    requires |s| == 17 && SeparatedShape(s)
    ensures ValidateMacAddress(m, s + t).Ok?
  {
  }

  /** The dotted form must span the whole string: any suffix other than one final newline is refused. */
  lemma DottedFormRefusesTrailingText(s: string, t: string, m: string)
    requires |s| == 14 && DottedShape(s)
    requires t != [] && t != "\n"
    ensures ValidateMacAddress(m, s + t) == Err(NetboxInputError(m))
  {
  }

  /** Python's `$` also matches before a final newline, so a dotted address followed by one newline is accepted. */
  lemma DottedFormAcceptsFinalNewline(s: string, m: string)
    requires |s| == 14 && DottedShape(s)
    ensures ValidateMacAddress(m, s + "\n").Ok?
  {
  }

  // ---------------------------------------------------------------------
  // replace

  /** A successful edit: the new document and the changed interface record, which is returned. */
  datatype Edited = Edited(data: Entities, iface: Iface)

  /** What `replace` leaves in psc_netconfig and returns, or what it raises. */
  function Edit(data: Entities, device: string, netdev: string, ifaceKey: string, value: string, ipValid: string -> bool): Result<Edited, EditError>
  {
    var known := CheckInputs("Device Name " + device + " isn't valid", data.Keys, device);
    if known.Err? then Err(known.error)
    else match ScanFor(data[device], "netdev", Some(netdev))
      case KeyMissing(_) => Err(KeyError("netdev"))
      case NoMatch => Err(NetboxInputError("NetDev Name " + netdev + " is not valid"))
      case Found(k) => EditRecord(data, device, k, ifaceKey, value, ipValid)
  }

  /** The part of `replace` after the interface record `k` has been selected. */
  function EditRecord(data: Entities, device: string, k: nat, ifaceKey: string, value: string, ipValid: string -> bool): Result<Edited, EditError>
    requires device in data && k < |data[device]|
  {
    var iface := data[device][k];
    var keyKnown := CheckInputs("Interface Key Name " + ifaceKey + " is not valid", iface.Keys, ifaceKey);
    var macCheck := ValidateMacAddress("MAC address " + value + " is not valid", value);
    if keyKnown.Err? then Err(keyKnown.error)
    else if ifaceKey == "ipaddr" && !ipValid(value) then Err(Exited("IP address " + value + " is not valid"))
    else if ifaceKey == "hwaddr" && macCheck.Err? then Err(macCheck.error)
    else
      var updated := iface[ifaceKey := Some(value)];
      Ok(Edited(data[device := data[device][k := updated]], updated))
  }

  /** The editor object: the loaded document and the four user inputs. */
  class YamlEditor {
    var data: Entities
    var device: string
    var netdev: string
    var ifaceKey: string
    var value: string

    constructor (data: Entities, device: string, netdev: string, ifaceKey: string, value: string)
      ensures this.data == data && this.device == device && this.netdev == netdev
      ensures this.ifaceKey == ifaceKey && this.value == value
    {
      this.data := data;
      this.device := device;
      this.netdev := netdev;
      this.ifaceKey := ifaceKey;
      this.value := value;
    }

    /** replace: validate the inputs, then overwrite one field of the selected record in place and return that record. */
    method Replace(ipValid: string -> bool) returns (r: Result<Iface, EditError>)
      modifies this`data
      ensures match Edit(old(data), device, netdev, ifaceKey, value, ipValid)
        case Ok(e) => r == Ok(e.iface) && data == e.data
        case Err(x) => r == Err(x) && data == old(data)
    {
      var known := CheckInputs("Device Name " + device + " isn't valid", data.Keys, device);
      if known.Err? {
        return Err(known.error);
      }
      var ifaces := data[device];
      var found := FindFirst(ifaces, "netdev", Some(netdev));
      if found.KeyMissing? {
        return Err(KeyError("netdev"));
      }
      if found.NoMatch? {
        return Err(NetboxInputError("NetDev Name " + netdev + " is not valid"));
      }
      var k := found.index;
      var iface := ifaces[k];
      var keyKnown := CheckInputs("Interface Key Name " + ifaceKey + " is not valid", iface.Keys, ifaceKey);
      if keyKnown.Err? {
        return Err(keyKnown.error);
      }
      if ifaceKey == "ipaddr" {
        if !ipValid(value) {
          return Err(Exited("IP address " + value + " is not valid"));
        }
      } else if ifaceKey == "hwaddr" {
        var macCheck := ValidateMacAddress("MAC address " + value + " is not valid", value);
        if macCheck.Err? {
          return Err(macCheck.error);
        }
      }
      iface := iface[ifaceKey := Some(value)];
      data := data[device := ifaces[k := iface]];
      return Ok(iface);
    }
  }

  // ---------------------------------------------------------------------
  // Properties of replace

  /** An unknown device, or a device none of whose records has the netdev, is refused. */
  lemma EditLookupFailures(data: Entities, device: string, netdev: string, ifaceKey: string, value: string, ipValid: string -> bool)
    ensures device !in data ==>
      Edit(data, device, netdev, ifaceKey, value, ipValid) == Err(NetboxInputError("Device Name " + device + " isn't valid"))
    ensures device in data && (forall j :: 0 <= j < |data[device]| ==> Passes(data[device][j], "netdev", Some(netdev))) ==>
      Edit(data, device, netdev, ifaceKey, value, ipValid) == Err(NetboxInputError("NetDev Name " + netdev + " is not valid"))
  {
  }

  /** `updated` equals `before` except that field `key` holds `value`; no field is added. */
  ghost predicate OneFieldSet(before: Iface, updated: Iface, key: string, value: string)
  {
    && updated.Keys == before.Keys
    && key in updated && updated[key] == Some(value)
    && forall f :: f in before && f != key ==> updated[f] == before[f]
  }

  /**
   * With record `k` the first whose netdev is the requested one, replace
   * refuses a key the record lacks, an invalid IP address for `ipaddr` and an
   * invalid MAC for `hwaddr`; otherwise it changes exactly that one field of
   * record `k`, nothing else in the document, and returns the changed record.
   */
  lemma EditAtFirstNetdev(data: Entities, device: string, netdev: string, ifaceKey: string, value: string, ipValid: string -> bool, k: nat)
    requires device in data && k < |data[device]|
    requires "netdev" in data[device][k] && data[device][k]["netdev"] == Some(netdev)
    requires forall j :: 0 <= j < k ==> Passes(data[device][j], "netdev", Some(netdev))
    ensures var rec, e := data[device][k], Edit(data, device, netdev, ifaceKey, value, ipValid);
      && (ifaceKey !in rec ==> e == Err(NetboxInputError("Interface Key Name " + ifaceKey + " is not valid")))
      && (ifaceKey in rec && ifaceKey == "ipaddr" && !ipValid(value) ==>
            e == Err(Exited("IP address " + value + " is not valid")))
      && (ifaceKey in rec && ifaceKey == "hwaddr" && !SeparatedShape(value) && !DottedShape(value) ==>
            e == Err(NetboxInputError("MAC address " + value + " is not valid")))
      && (ifaceKey in rec && (ifaceKey == "ipaddr" ==> ipValid(value))
          && (ifaceKey == "hwaddr" ==> SeparatedShape(value) || DottedShape(value)) ==>
            && e.Ok?
            && e.value.data.Keys == data.Keys
            && (forall n :: n in data && n != device ==> e.value.data[n] == data[n])
            && |e.value.data[device]| == |data[device]|
            && (forall j :: 0 <= j < |data[device]| && j != k ==> e.value.data[device][j] == data[device][j])
            && e.value.data[device][k] == e.value.iface
            && OneFieldSet(rec, e.value.iface, ifaceKey, value))
  {
  }

  /** Every device keeps its number of records and every record its set of fields. */
  ghost predicate SameShape(before: Entities, after: Entities)
  {
    && after.Keys == before.Keys
    && forall n :: n in before ==>
         |after[n]| == |before[n]| &&
         forall j :: 0 <= j < |before[n]| ==> after[n][j].Keys == before[n][j].Keys
  }

  /** replace never adds a device, a record or a field. */
  lemma EditKeepsShape(data: Entities, device: string, netdev: string, ifaceKey: string, value: string, ipValid: string -> bool)
    requires Edit(data, device, netdev, ifaceKey, value, ipValid).Ok?
    ensures SameShape(data, Edit(data, device, netdev, ifaceKey, value, ipValid).value.data)
  {
  }

  /** Repeating an edit of any field but `netdev` finds the same record and leaves the document as the first edit did. */
  lemma EditTwiceIsEditOnce(data: Entities, device: string, netdev: string, ifaceKey: string, value: string, ipValid: string -> bool)
    requires Edit(data, device, netdev, ifaceKey, value, ipValid).Ok?
    requires ifaceKey != "netdev"
    ensures var once := Edit(data, device, netdev, ifaceKey, value, ipValid).value;
      Edit(once.data, device, netdev, ifaceKey, value, ipValid) == Ok(once)
  {
    var s := data[device];
    var k := ScanFor(s, "netdev", Some(netdev)).index;
    var once := Edit(data, device, netdev, ifaceKey, value, ipValid).value;
    var t := once.data[device];
    assert t == s[k := s[k][ifaceKey := Some(value)]];
    assert "netdev" in t[k] && t[k]["netdev"] == Some(netdev);
    assert ScanFor(t, "netdev", Some(netdev)) == Found(k);
    assert t[k][ifaceKey := Some(value)] == t[k];
    assert t[k := t[k]] == t;
    assert once.data[device := t] == once.data;
  }
}
