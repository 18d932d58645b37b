# psc_netconfig reconciliation and single-field editing

This project models the two scripts of the NetBox integration that edit the
`psc_netconfig` document. That document maps each device or virtual-machine
name to its list of interface records. Each record maps field names
(`hwaddr`, `ipaddr`, `net`, `netdev`) to a string or null.

- `wrapper.py`, `json2yaml`: applies one NetBox change notification to the
  document in place. The notification is `created`, `updated` or `deleted`, for
  a `device`, `virtualmachine`, `interface` or `vminterface`.
- `yaml-editing.py`, `YamlEditor`: checks a user's device, netdev, field name
  and value against the document, then overwrites that one field.

Files:

- `base.dfy`: `Option` (YAML null) and `Result` (a value or a raised exception).
- `records.dfy`: the document types and two list operations.
  - The `for i in list: if i[key] == v: ...; break` search, which both scripts use. It is `ScanFrom`/`ScanFor` as a function and `FindFirst` as a loop.
  - Python's `list.remove`, as `ListRemove`. Only wrapper.py calls it.
- `wrapper.dfy`: `Apply` specifies `json2yaml` one branch at a time.
  - The class `NetConfig` holds the document. Its method `Json2Yaml` mutates it and is proved to agree with `Apply`.
  - The lemmas state what each branch changes and what it leaves alone.
- `yaml_editing.dfy`: `CheckInputs`, the MAC regular expression and `Edit`, which specifies `replace`.
  - The class `YamlEditor` has the source's fields. Its method `Replace` changes `data` in place and is proved to agree with `Edit`.

Behaviour of the source that the model keeps as written:

- A created device or virtual machine replaces any entry already under that name.
- A rename onto an existing name overwrites that entry. A rename to the same name deletes the entry.
- Deleting an absent device is a no-op.
- Deleting an interface whose MAC no record carries is a no-op, provided every record of the owner has a `hwaddr` field.
- Updating an interface whose old MAC no record carries raises `UnboundLocalError`, because the loop variable is never bound. This also assumes every record of the owner has a `hwaddr` field.
- In both cases, if the search reaches a record without `hwaddr` before any match, the lookup `i["hwaddr"]` raises KeyError first.
- Every exception `json2yaml` can raise happens before its first mutation. So a failed call leaves the document as it was. `Json2Yaml`'s postcondition says so.
- Deleting an interface empties the matched record (`clear()`) and then removes the first empty record (`remove({})`). `ClearThenRemoveDropsMatch` shows this removes the matched record itself. The reason: the search raised KeyError at any earlier record without `hwaddr`, so no earlier record is empty.
- The MAC pattern's first alternative (colon or hyphen pairs, separators mixable) has no `$`. So any text may follow a valid colon/hyphen address. The dotted alternative ends in `$`. In Python, without MULTILINE, `$` also matches just before a final newline. So `aabb.ccdd.eeff\n` is accepted.

A stricter contract would make the reconciler reject duplicates on create and rename, and report misses on update and delete as not-found errors. The code does neither, and the model follows the code.

## Model

| member | source | states |
|---|---|---|
| Records.ScanFrom | wrapper.py:19-22 | the search stops at the first record whose field equals the value, or raises at the first record lacking the field; every record before the stop point has the field with another value, and running off the end means every record does |
| Records.FindFirst | yaml-editing.py:99-103 | the for/break loop over an interface list returns exactly the outcome `ScanFor` specifies |
| Records.ListRemove | wrapper.py:73 | `list.remove(x)` fails exactly when `x` is absent; otherwise the list loses one element, and that element equals `x` (as multisets) |
| Records.ListRemoveAt | wrapper.py:85 | when position `k` holds the first `x`, `list.remove(x)` leaves the elements before and after `k` in order |
| Wrapper.NetConfig.Json2Yaml | wrapper.py:11-97 | on success the document is `Apply`'s result and the same document object is returned; on an exception the exception is `Apply`'s and the document is unchanged |
| Wrapper.NetConfig.SetInterfaceMac | wrapper.py:14-23 | the in-place MAC update (owner lookup, search by old MAC, assignment) agrees with the `SetMac` branch, including its KeyError and unbound-variable failures |
| Wrapper.NetConfig.RenameEntity | wrapper.py:34-39 | copy-then-delete of the entry agrees with the `Rename` branch; an unknown old name raises KeyError before any change |
| Wrapper.NetConfig.AppendInterface | wrapper.py:42-48 | appending the MAC-only record agrees with the `AddInterface` branch; a missing owner raises KeyError |
| Wrapper.NetConfig.DeleteInterface | wrapper.py:63-74 | clear-then-`remove({})` agrees with the `DropInterface` branch: the matched record is gone, a miss changes nothing |
| Wrapper.NetConfig.PopEntity | wrapper.py:87-95 | the key scan with `pop` removes exactly the given name, and nothing when it is absent |
| Wrapper.ClearThenRemoveDropsMatch | wrapper.py:68-74 | emptying the first record with the MAC and then removing the first empty record removes exactly that record |
| Wrapper.CreatedEntity | wrapper.py:56-60 | a created device/VM name maps to an empty interface list, replacing any existing entry; every other entry is unchanged |
| Wrapper.CreatedInterface | wrapper.py:42-55 | the owner is `data.device.name` for interfaces and `data.virtual_machine.name` for VM interfaces; a missing owner raises KeyError; otherwise exactly one record {hwaddr: new MAC, ipaddr/net/netdev: null} is appended, earlier records and other entities untouched |
| Wrapper.UpdatedInterface | wrapper.py:14-33 | the first record carrying the old MAC gets the new MAC; its other fields, every other record and every other entity are unchanged |
| Wrapper.UpdatedInterfaceUnmatched | wrapper.py:19-33 | a missing owner raises KeyError; when every record has `hwaddr` and none carries the old MAC, the call raises the unbound-loop-variable error |
| Wrapper.UpdatedEntity | wrapper.py:34-39 | a rename moves the interface list to the new name and removes the old one, overwriting any entry under the new name; renaming to the same name deletes the entry; an unknown old name raises KeyError |
| Wrapper.DeletedEntity | wrapper.py:87-95 | deleting a device/VM removes exactly that name; when it is absent the document is unchanged |
| Wrapper.DeletedInterface | wrapper.py:63-86 | exactly the first record carrying the MAC is removed, the rest keep their order, other entities unchanged |
| Wrapper.DeletedInterfaceUnmatched | wrapper.py:63-86 | a missing owner raises KeyError; when every record has `hwaddr` and none carries the MAC, the document is unchanged |
| Wrapper.UnrecognisedIsNoOp | wrapper.py:11-97 | an event or model outside the recognised values leaves the document unchanged |
| Wrapper.CreateThenDelete | wrapper.py:56-95 | creating a device under a fresh name and then deleting it gives back the original document |
| Wrapper.DropKeepsUniqueMacs | wrapper.py:68-74 | removing one record keeps the remaining MACs pairwise distinct |
| Wrapper.ApplyKeepsMacsUnique | wrapper.py:11-97 | every branch preserves "no two records of an entity share a MAC", given that a created interface brings an unused MAC and an updated interface keeps its MAC or brings an unused one |
| Wrapper.UpdatedInterfaceResolvesByNewMac | wrapper.py:14-23 | after a MAC update on a well-formed list, the changed record is found by the new MAC and no record is found by the old one |
| Wrapper.RenameScenario | wrapper.py:34-39 | renaming host1 (one record) to host2 yields host2 with the same record and no host1 |
| YamlEditing.CheckInputs | yaml-editing.py:58-64 | returns True exactly when the value is among the keys, otherwise raises NetboxInputError with the given message |
| YamlEditing.SeparatedPairsPositions | yaml-editing.py:79-80 | the repeated group `([0-9A-Fa-f]{2}[:-]){n}` matches exactly when the first 3n characters alternate two hex digits and a separator |
| YamlEditing.SeparatedFormIsShape | yaml-editing.py:78-80 | the first alternative matches exactly the strings whose first 17 characters are six hex pairs joined by `:` or `-` |
| YamlEditing.DottedFormIsShape | yaml-editing.py:81-83 | the second alternative matches exactly three dot-joined groups of four hex digits that end the string or precede a final newline |
| YamlEditing.ValidateMacAddress | yaml-editing.py:75-90 | accepts exactly the colon/hyphen form as a prefix or the dotted form as the whole string, and raises NetboxInputError with the given message otherwise |
| YamlEditing.SeparatedExamplesAccepted | yaml-editing.py:78-86 | lower case, upper case and mixed-separator colon/hyphen addresses are accepted |
| YamlEditing.DottedExampleAccepted | yaml-editing.py:81-86 | the dotted form is accepted in either case |
| YamlEditing.MacExamplesRefused | yaml-editing.py:87-90 | "not-a-mac" and a five-group address raise NetboxInputError |
| YamlEditing.SeparatedFormAcceptsTrailingText | yaml-editing.py:78-80 | any text after a valid colon/hyphen address is accepted, since that alternative has no end anchor |
| YamlEditing.DottedFormRefusesTrailingText | yaml-editing.py:81-83 | a dotted address followed by anything other than one newline is refused |
| YamlEditing.DottedFormAcceptsFinalNewline | yaml-editing.py:81-83 | a dotted address followed by a single newline is accepted |
| YamlEditing.YamlEditor.constructor | yaml-editing.py:42-45 | the editor holds the document and the four user inputs |
| YamlEditing.YamlEditor.Replace | yaml-editing.py:92-123 | on success `data` becomes `Edit`'s document and the changed record is returned; on any error `data` is unchanged and the error is `Edit`'s |
| YamlEditing.EditLookupFailures | yaml-editing.py:95-105 | an unknown device raises NetboxInputError; a device none of whose records has the netdev raises NetboxInputError |
| YamlEditing.EditAtFirstNetdev | yaml-editing.py:99-123 | the first record with the netdev is the target; a key the record lacks, an invalid IP for ipaddr or an invalid MAC for hwaddr is refused; otherwise only that field changes, to the value, and the changed record is returned |
| YamlEditing.EditKeepsShape | yaml-editing.py:106-122 | a successful replace adds no device, record or field |
| YamlEditing.EditTwiceIsEditOnce | yaml-editing.py:92-123 | repeating a successful edit of any field except netdev leaves the document as the first edit did |

## Left out

- File, environment and console I/O: the `__main__` blocks of both scripts, reading the file in `YamlEditor.__init__` (the `filename` field), `get_user_input`, `generate_output` and `main`.
- YAML and JSON parsing and serialisation. The payload is taken as an already decoded `Event`, so KeyErrors from missing payload fields are not modelled. The document is taken as its `psc_netconfig` mapping, so other top-level keys and a missing `psc_netconfig` are not modelled.
- Entity records are modelled as their interface list. Extra keys on an entity record, a missing `interfaces` key and a null entity are not modelled.
- Device and VM names are strings: a null name in a payload is not modelled.
- Key order: the model's maps carry no order. Nothing is lost by this, because `yaml.safe_dump` sorts keys by default (wrapper.py:126), so dict insertion order never reaches the output.
- Aliasing: a record object shared between two list positions (a YAML anchor) would be emptied at both by `clear()`. The model treats records as values.
- `validate_ip_address`: it wraps Python's `ipaddress.ip_address`. It is the parameter `ipValid`, and its failure, which prints and calls `sys.exit`, is the error `Exited`.
- netbox_vm.py is not part of this model. It is a client of the NetBox HTTP API.
- xml-parser.py is not part of this model. It only pretty-prints an XML file.
