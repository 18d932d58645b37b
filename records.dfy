/**
 * The psc_netconfig document shared by wrapper.py and yaml-editing.py, the
 * `for ... if ...: break` search for the first interface record whose field
 * equals a value (used by both scripts), and Python's `list.remove` (used by
 * wrapper.py).
 */
module Records {
  import opened Base

  /** A scalar of an interface record: a string, or YAML null. */
  type Field = Option<string>

  /** An interface record: field name (hwaddr, ipaddr, net, netdev) to value. */
  type Iface = map<string, Field>

  /** The psc_netconfig mapping: device or virtual-machine name to its interface list. */
  type Entities = map<string, seq<Iface>>

  /**
   * How a search `for i in ifaces: if i[key] == v: ...; break` ends: it stops at a
   * matching record, it raises KeyError at a record without `key`, or it runs
   * off the end.
   */
  datatype Scan = Found(index: nat) | KeyMissing(index: nat) | NoMatch

  /** The search steps over `rec`: the lookup `rec[key]` succeeds and differs from `v`. */
  predicate Passes(rec: Iface, key: string, v: Field)
  {
    key in rec && rec[key] != v
  }

  /** The search started at position `from`. */
  function ScanFrom(ifaces: seq<Iface>, key: string, v: Field, from: nat): (r: Scan)
    requires from <= |ifaces|
    ensures r.Found? ==> from <= r.index < |ifaces| && key in ifaces[r.index] && ifaces[r.index][key] == v
    ensures r.KeyMissing? ==> from <= r.index < |ifaces| && key !in ifaces[r.index]
    ensures !r.NoMatch? ==> forall j :: from <= j < r.index ==> Passes(ifaces[j], key, v)
    ensures r.NoMatch? ==> forall j :: from <= j < |ifaces| ==> Passes(ifaces[j], key, v)
    decreases |ifaces| - from
  {
    if from == |ifaces| then NoMatch
    else if key !in ifaces[from] then KeyMissing(from)
    else if ifaces[from][key] == v then Found(from)
    else ScanFrom(ifaces, key, v, from + 1)
  }

  /** The search over the whole list. */
  function ScanFor(ifaces: seq<Iface>, key: string, v: Field): Scan
  {
    ScanFrom(ifaces, key, v, 0)
  }

  /** The search loop itself: walks the list and stops at the first match or the first record lacking `key`. */
  method FindFirst(ifaces: seq<Iface>, key: string, v: Field) returns (r: Scan)
    ensures r == ScanFor(ifaces, key, v)
  {
    var i := 0;
    while i < |ifaces|
      invariant i <= |ifaces|
      invariant forall j :: 0 <= j < i ==> Passes(ifaces[j], key, v)
    {
      if key !in ifaces[i] {
        return KeyMissing(i);
      }
      if ifaces[i][key] == v {
        return Found(i);
      }
      i := i + 1;
    }
    return NoMatch;
  }

  /** The position of the first element equal to `x`, or `|s|` when there is none. */
  function IndexOf<T(==)>(s: seq<T>, x: T): (i: nat)
    ensures i <= |s|
    ensures i < |s| ==> s[i] == x
    ensures forall j :: 0 <= j < i ==> s[j] != x
    decreases |s|
  {
    if s == [] || s[0] == x then 0 else 1 + IndexOf(s[1..], x)
  }

  /** Python's `list.remove(x)`: drops the first element equal to `x`; `None` stands for the ValueError it raises when there is none. */
  function ListRemove<T(==)>(s: seq<T>, x: T): (r: Option<seq<T>>)
    ensures r.None? <==> x !in s
    ensures r.Some? ==> |r.value| + 1 == |s| && multiset(r.value) + multiset{x} == multiset(s)
  {
    var i := IndexOf(s, x);
    if i == |s| then None
    else
      assert s == s[..i] + [x] + s[i + 1..];
      Some(s[..i] + s[i + 1..])
  }

  /** Removing the first element equal to `x` leaves the elements before and after it, in order. */
  lemma ListRemoveAt<T>(s: seq<T>, x: T, k: nat)
    requires k < |s| && s[k] == x
    requires forall j :: 0 <= j < k ==> s[j] != x
    ensures ListRemove(s, x) == Some(s[..k] + s[k + 1..])
  {
  }
}
