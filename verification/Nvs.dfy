/** The non-volatile-storage backend (kvdb/nvs.c): two name-keyed config devices, with the
    "persist." label stripped from the names of one of them. */
module Nvs {
  import opened ByteStrings
  import opened Store

  const ENOENT := 2

  /** What the two config devices hold. A device is a map with set, get, delete and a walk. */
  datatype Devices = Devices(persist: map<CString, Bytes>, mem: map<CString, Bytes>) {
    function At(i: int): map<CString, Bytes> {
      if i == PERSIST then persist else mem
    }

    function With(i: int, m: map<CString, Bytes>): Devices {
      if i == PERSIST then this.(persist := m) else this.(mem := m)
    }
  }

  datatype NvsOutcome = NvsOutcome(devices: Devices, code: int)

  /** `kvdb_skip_prefix`. */
  function SkipPrefix(key: CString, index: int): CString
    requires index == PERSIST ==> IsPersistent(key)
  {
    if index == PERSIST then key[|PERSIST_LABEL|..] else key
  }

  /** The key has a device and its stripped name fits the name field. */
  predicate Accepts(temporary: bool, nameSize: nat, key: CString) {
    Index(temporary, key) >= 0 && |SkipPrefix(key, Index(temporary, key))| < nameSize
  }

  /** Where a key is kept. */
  function Place(temporary: bool, key: CString): (int, CString) {
    var i := Index(temporary, key);
    (i, SkipPrefix(key, i))
  }

  function RefusalCode(temporary: bool, key: CString): int {
    if Index(temporary, key) < 0 then Index(temporary, key) else -EINVAL
  }

  function NvsSet(temporary: bool, nameSize: nat, d: Devices, key: CString, value: Bytes): NvsOutcome {
    if !Accepts(temporary, nameSize, key) then NvsOutcome(d, RefusalCode(temporary, key))
    else
      var (i, name) := Place(temporary, key);
      NvsOutcome(d.With(i, d.At(i)[name := value]), 0)
  }

  function NvsGet(temporary: bool, nameSize: nat, d: Devices, key: CString, room: nat): Fetched {
    if !Accepts(temporary, nameSize, key) then Fetched(RefusalCode(temporary, key), [])
    else
      var (i, name) := Place(temporary, key);
      if name !in d.At(i) then Fetched(-ENOENT, [])
      else
        var data := d.At(i)[name][..Min(room, |d.At(i)[name]|)];
        Fetched(|data|, data)
  }

  function NvsDelete(temporary: bool, nameSize: nat, d: Devices, key: CString): NvsOutcome {
    if !Accepts(temporary, nameSize, key) then NvsOutcome(d, RefusalCode(temporary, key))
    else
      var (i, name) := Place(temporary, key);
      if name !in d.At(i) then NvsOutcome(d, -ENOENT)
      else NvsOutcome(d.With(i, d.At(i) - {name}), 0)
  }

  /** The key whose place is a device and a name. */
  function FullKey(index: int, name: CString): CString {
    if index == PERSIST then PERSIST_LABEL + name else name
  }

  /** `kvdb_add_prefix` into a buffer of `outlen` bytes, terminator included. */
  function AddPrefix(index: int, name: CString, outlen: nat): CString
    requires outlen > 0
  {
    var full := FullKey(index, name);
    full[..Min(|full|, outlen - 1)]
  }

  /** The size of the key buffer in `kvdb_list`. */
  function KeyBuffer(nameMax: nat): nat {
    nameMax + |PERSIST_LABEL|
  }

  /** A value as the callback sees it, read into a buffer of VALUE_MAX bytes. */
  function Listed(value: Bytes): Bytes {
    value[..Min(VALUE_MAX, |value|)]
  }

  function ListOne(index: int, name: CString, value: Bytes, nameMax: nat): Entry {
    (AddPrefix(index, name, KeyBuffer(nameMax)), Listed(value))
  }

  ghost predicate Walks(order: seq<CString>, m: map<CString, Bytes>) {
    && (forall i :: 0 <= i < |order| ==> order[i] in m)
    && (forall n :: n in m ==> n in order)
    && (forall i, j :: 0 <= i < j < |order| ==> order[i] != order[j])
  }

  ghost function WalkEntries(index: int, m: map<CString, Bytes>, order: seq<CString>, nameMax: nat): (es: seq<Entry>)
    requires forall i :: 0 <= i < |order| ==> order[i] in m
    ensures |es| == |order|
    ensures forall i :: 0 <= i < |order| ==> es[i] == ListOne(index, order[i], m[order[i]], nameMax)
  {
    if order == [] then []
    else [ListOne(index, order[0], m[order[0]], nameMax)] + WalkEntries(index, m, order[1..], nameMax)
  }

  /** The orders in which the devices are walked. */
  datatype Orders = Orders(persist: seq<CString>, mem: seq<CString>) {
    function At(i: int): seq<CString> {
      if i == PERSIST then persist else mem
    }
  }

  ghost predicate OrdersOf(d: Devices, orders: Orders) {
    Walks(orders.persist, d.persist) && Walks(orders.mem, d.mem)
  }

  /** What `kvdb_list` hands to its callback, in order. */
  ghost function NvsList(temporary: bool, d: Devices, orders: Orders, nameMax: nat): seq<Entry>
    requires OrdersOf(d, orders)
  {
    WalkEntries(PERSIST, d.persist, orders.persist, nameMax)
    + if temporary then WalkEntries(MEM, d.mem, orders.mem, nameMax) else []
  }

  class NvsKvdb {
    const temporary: bool
    const nameSize: nat
    const nameMax: nat
    var devices: Devices

    constructor (temporary: bool, nameSize: nat, nameMax: nat, devices: Devices)
      ensures this.temporary == temporary && this.nameSize == nameSize && this.nameMax == nameMax
      ensures this.devices == devices
    {
      this.temporary := temporary;
      this.nameSize := nameSize;
      this.nameMax := nameMax;
      this.devices := devices;
    }

    method Set(key: CString, keyLen: nat, value: Bytes) returns (code: int)
      modifies this
      ensures NvsOutcome(devices, code)
           == if keyLen == 0 then NvsOutcome(old(devices), -EINVAL)
              else NvsSet(temporary, nameSize, old(devices), key, value)
    {
      if keyLen == 0 {
        return -EINVAL;
      }
      var i := Index(temporary, key);
      if i < 0 {
        return i;
      }
      var name := SkipPrefix(key, i);
      if |name| >= nameSize {
        return -EINVAL;
      }
      devices := devices.With(i, devices.At(i)[name := value]);
      return 0;
    }

    method Get(key: CString, keyLen: nat, room: nat) returns (code: int, data: Bytes)
      ensures Fetched(code, data)
           == if keyLen == 0 then Fetched(-EINVAL, []) else NvsGet(temporary, nameSize, devices, key, room)
    {
      if keyLen == 0 {
        return -EINVAL, [];
      }
      var i := Index(temporary, key);
      if i < 0 {
        return i, [];
      }
      var name := SkipPrefix(key, i);
      if |name| >= nameSize {
        return -EINVAL, [];
      }
      if name !in devices.At(i) {
        return -ENOENT, [];
      }
      data := devices.At(i)[name][..Min(room, |devices.At(i)[name]|)];
      code := |data|;
    }

    method Delete(key: CString, keyLen: nat) returns (code: int)
      modifies this
      ensures NvsOutcome(devices, code)
           == if keyLen == 0 then NvsOutcome(old(devices), -EINVAL)
              else NvsDelete(temporary, nameSize, old(devices), key)
    {
      if keyLen == 0 {
        return -EINVAL;
      }
      var i := Index(temporary, key);
      if i < 0 {
        return i;
      }
      var name := SkipPrefix(key, i);
      if |name| >= nameSize {
        return -EINVAL;
      }
      if name !in devices.At(i) {
        return -ENOENT;
      }
      devices := devices.With(i, devices.At(i) - {name});
      return 0;
    }

    /** One device's first/next walk, rebuilding each key into the reused buffer. */
    method Walk(i: int, order: seq<CString>) returns (entries: seq<Entry>)
      requires forall p :: 0 <= p < |order| ==> order[p] in devices.At(i)
      ensures entries == WalkEntries(i, devices.At(i), order, nameMax)
    {
      entries := [];
      var p := 0;
      while p < |order|
        invariant 0 <= p <= |order|
        invariant |entries| == p
        invariant forall q :: 0 <= q < p ==> entries[q] == ListOne(i, order[q], devices.At(i)[order[q]], nameMax)
      {
        var key := AddPrefix(i, order[p], KeyBuffer(nameMax));
        var value := devices.At(i)[order[p]];
        entries := entries + [(key, Listed(value))];
        p := p + 1;
      }
    }

    /** `kvdb_list`: each device in turn. */
    method List(orders: Orders) returns (entries: seq<Entry>)
      requires OrdersOf(devices, orders)
      ensures entries == NvsList(temporary, devices, orders, nameMax)
    {
      entries := [];
      var i := 0;
      while i < Count(temporary)
        invariant 0 <= i <= Count(temporary)
        invariant i == 0 ==> entries == []
        invariant i == 1 ==> entries == WalkEntries(PERSIST, devices.persist, orders.persist, nameMax)
        invariant i == 2 ==> entries == NvsList(true, devices, orders, nameMax)
      {
        var more := Walk(i, orders.At(i));
        entries := entries + more;
        i := i + 1;
      }
      assert !temporary ==> entries == entries + [];
    }
  }

  // ---------------------------------------------------------------------------------------------
  // One flat map on full keys

  /** Names on the temporary device are never persistent keys, and without temporary storage there
      is none. */
  ghost predicate DevicesOk(temporary: bool, d: Devices) {
    (forall n :: n in d.mem ==> !IsPersistent(n)) && (temporary || d.mem == map[])
  }

  function FullKeys(d: Devices): set<CString> {
    (set n | n in d.persist :: FullKey(PERSIST, n)) + d.mem.Keys
  }

  lemma StripLabel(n: CString)
    ensures IsPersistent(PERSIST_LABEL + n) && SkipPrefix(PERSIST_LABEL + n, PERSIST) == n
  {
  }

  lemma AddLabel(key: CString)
    requires IsPersistent(key)
    ensures key == PERSIST_LABEL + SkipPrefix(key, PERSIST)
  {
  }

  function FlatLookup(temporary: bool, d: Devices, key: CString): Option<Bytes> {
    if Index(temporary, key) < 0 then None
    else
      var (i, name) := Place(temporary, key);
      if name in d.At(i) then Some(d.At(i)[name]) else None
  }

  /** The full keys are exactly those that look up to something. */
  lemma FullKeysAreFlat(temporary: bool, d: Devices, key: CString)
    requires DevicesOk(temporary, d)
    ensures key in FullKeys(d) <==> FlatLookup(temporary, d, key).Some?
  {
    if IsPersistent(key) {
      AddLabel(key);
      var name := SkipPrefix(key, PERSIST);
      if key in FullKeys(d) {
        var n :| n in d.persist && PERSIST_LABEL + n == key;
        StripLabel(n);
      }
    } else if key in FullKeys(d) {
      assert key in d.mem by {
        if n: CString :| n in d.persist && PERSIST_LABEL + n == key {
          StripLabel(n);
        }
      }
    }
  }

  /** Choosing a device and stripping the label loses nothing. */
  lemma PlaceInjective(temporary: bool, a: CString, b: CString)
    requires Index(temporary, a) >= 0 && Index(temporary, b) >= 0 && Place(temporary, a) == Place(temporary, b)
    ensures a == b
  {
    if IsPersistent(a) {
      AddLabel(a);
      AddLabel(b);
    }
  }

  /** An accepted set changes exactly its own key of the flat map, a refused one nothing. */
  lemma NvsSetIsFlat(temporary: bool, nameSize: nat, d: Devices, key: CString, value: Bytes, k: CString)
    requires DevicesOk(temporary, d)
    ensures var o := NvsSet(temporary, nameSize, d, key, value);
            && DevicesOk(temporary, o.devices)
            && (o.code >= 0 <==> Accepts(temporary, nameSize, key))
            && (o.code < 0 ==> o.devices == d)
            && (o.code >= 0 ==>
                  FlatLookup(temporary, o.devices, k) == if k == key then Some(value) else FlatLookup(temporary, d, k))
  {
    if Index(temporary, key) >= 0 && Index(temporary, k) >= 0 && Place(temporary, k) == Place(temporary, key) {
      PlaceInjective(temporary, k, key);
    }
  }

  /** A delete removes exactly its own key, and succeeds exactly when the key is accepted and there. */
  lemma NvsDeleteIsFlat(temporary: bool, nameSize: nat, d: Devices, key: CString, k: CString)
    requires DevicesOk(temporary, d)
    ensures var o := NvsDelete(temporary, nameSize, d, key);
            && DevicesOk(temporary, o.devices)
            && (o.code >= 0 <==> Accepts(temporary, nameSize, key) && FlatLookup(temporary, d, key).Some?)
            && (o.code < 0 ==> o.devices == d)
            && (o.code >= 0 ==>
                  FlatLookup(temporary, o.devices, k) == if k == key then None else FlatLookup(temporary, d, k))
  {
    if Index(temporary, key) >= 0 && Index(temporary, k) >= 0 && Place(temporary, k) == Place(temporary, key) {
      PlaceInjective(temporary, k, key);
    }
  }

  /** A get succeeds exactly when the key is accepted and in the flat map, and then returns its value
      cut to the room. */
  lemma NvsGetIsFlat(temporary: bool, nameSize: nat, d: Devices, key: CString, room: nat)
    ensures var f := NvsGet(temporary, nameSize, d, key, room);
            var found := FlatLookup(temporary, d, key);
            && (f.code >= 0 <==> Accepts(temporary, nameSize, key) && found.Some?)
            && (f.code >= 0 ==> f.code == |f.data| == Min(room, |found.value|) && f.data <= found.value)
            && (f.code < 0 ==> f.data == [])
  {
  }

  /** Unlike the other backend this one has no write-once keys: a set gives a present "ro." key any other
      value, and a delete takes it away, exactly when the key is accepted. */
  lemma ReadOnlyKeysChange(temporary: bool, nameSize: nat, d: Devices, key: CString, value: Bytes)
    requires DevicesOk(temporary, d) && IsReadOnly(key)
    requires FlatLookup(temporary, d, key).Some? && FlatLookup(temporary, d, key).value != value
    ensures FlatLookup(temporary, NvsSet(temporary, nameSize, d, key, value).devices, key) == Some(value)
       <==> Accepts(temporary, nameSize, key)
    ensures FlatLookup(temporary, NvsDelete(temporary, nameSize, d, key).devices, key) == None
       <==> Accepts(temporary, nameSize, key)
  {
    NvsSetIsFlat(temporary, nameSize, d, key, value, key);
    NvsDeleteIsFlat(temporary, nameSize, d, key, key);
  }

  /** Names on the devices fit the name field. */
  ghost predicate NamesFit(nameSize: nat, d: Devices) {
    (forall n :: n in d.persist ==> |n| < nameSize) && (forall n :: n in d.mem ==> |n| < nameSize)
  }

  /** A key is accepted exactly when it starts with "persist." and what follows is shorter than the name
      field, or there is temporary storage and the whole key is. */
  lemma AcceptsExactly(temporary: bool, nameSize: nat, key: CString)
    ensures Accepts(temporary, nameSize, key) <==>
              if [112, 101, 114, 115, 105, 115, 116, 46] <= key then |key| < nameSize + 8
              else temporary && |key| < nameSize
  {
  }

  /** The codes: EINVAL for a key that is not accepted, ENOENT for one that is not there. */
  lemma NvsCodes(temporary: bool, nameSize: nat, d: Devices, key: CString, value: Bytes, room: nat)
    ensures var accepted := Accepts(temporary, nameSize, key);
            var there := FlatLookup(temporary, d, key).Some?;
            && NvsSet(temporary, nameSize, d, key, value).code == (if accepted then 0 else -22)
            && NvsDelete(temporary, nameSize, d, key).code == (if !accepted then -22 else if there then 0 else -2)
            && (NvsGet(temporary, nameSize, d, key, room).code < 0 ==>
                  NvsGet(temporary, nameSize, d, key, room).code == if !accepted then -22 else -2)
  {
  }

  /** Every set and delete leaves names that fit, so a listing of what they stored is whole. */
  lemma NamesStayFitting(temporary: bool, nameSize: nat, d: Devices, key: CString, value: Bytes)
    requires NamesFit(nameSize, d)
    ensures NamesFit(nameSize, NvsSet(temporary, nameSize, d, key, value).devices)
    ensures NamesFit(nameSize, NvsDelete(temporary, nameSize, d, key).devices)
  {
  }

  /** Listing rebuilds every full key untruncated, for all names the backend accepts, exactly when
      the name field is no larger than CONFIG_NAME_MAX. */
  lemma KeysListedWhole(nameSize: nat, nameMax: nat)
    requires nameSize > 0
    ensures (forall name: CString | |name| < nameSize ::
               AddPrefix(PERSIST, name, KeyBuffer(nameMax)) == PERSIST_LABEL + name)
       <==> nameSize <= nameMax
  {
    if nameSize > nameMax {
      var name: CString := seq(nameMax, i => 97);
      assert |PERSIST_LABEL + name| > |AddPrefix(PERSIST, name, KeyBuffer(nameMax))|;
      assert AddPrefix(PERSIST, name, KeyBuffer(nameMax)) != PERSIST_LABEL + name;
    } else {
      forall name: CString | |name| < nameSize
        ensures AddPrefix(PERSIST, name, KeyBuffer(nameMax)) == PERSIST_LABEL + name
      {
        var full := PERSIST_LABEL + name;
        assert full[..|full|] == full;
      }
    }
  }

  /** In any case it is the full key as far as the buffer and its terminator go. */
  lemma KeyListed(index: int, name: CString, nameMax: nat)
    ensures var key, listed := (if index == 0 then [112, 101, 114, 115, 105, 115, 116, 46] + name else name),
                               AddPrefix(index, name, KeyBuffer(nameMax));
            listed <= key && (listed == key || |listed| == nameMax + 7)
  {
  }

  lemma ListedWhole(index: int, name: CString, nameMax: nat)
    requires |name| < nameMax
    ensures AddPrefix(index, name, KeyBuffer(nameMax)) == FullKey(index, name)
  {
    var full := FullKey(index, name);
    assert full[..|full|] == full;
  }

  lemma PlaceOfFullKey(temporary: bool, index: int, name: CString)
    requires index == PERSIST || (temporary && index == MEM && !IsPersistent(name))
    ensures Index(temporary, FullKey(index, name)) == index
    ensures Place(temporary, FullKey(index, name)) == (index, name)
  {
    if index == PERSIST {
      StripLabel(name);
    }
  }

  /** The entry holds the value of its key in the flat map: the whole of it up to 255 bytes, and otherwise
      its first 255. */
  predicate ListedAt(temporary: bool, d: Devices, e: Entry)
    requires NulFree(e.0)
  {
    var found := FlatLookup(temporary, d, e.0);
    found.Some? && e.1 == if |found.value| <= 255 then found.value else found.value[..255]
  }

  lemma ListedValue(v: Bytes)
    ensures Listed(v) == if |v| <= 255 then v else v[..255]
  {
  }

  /** Then each listed entry of a device is a full key of the flat map with its value. */
  lemma WalkIsFlat(temporary: bool, nameMax: nat, d: Devices, index: int, order: seq<CString>, p: nat)
    requires DevicesOk(temporary, d) && (index == PERSIST || (temporary && index == MEM))
    requires Walks(order, d.At(index)) && p < |order|
    requires |order[p]| < nameMax
    ensures var e := WalkEntries(index, d.At(index), order, nameMax)[p];
            && e.0 == FullKey(index, order[p])
            && NulFree(e.0) && ListedAt(temporary, d, e)
            && Place(temporary, FullKey(index, order[p])) == (index, order[p])
  {
    var name := order[p];
    ListedValue(d.At(index)[name]);
    ListedWhole(index, name, nameMax);
    PlaceOfFullKey(temporary, index, name);
  }

  lemma WalkNeedsNames(order: seq<CString>, m: map<CString, Bytes>)
    requires Walks(order, m)
    ensures order != [] ==> m != map[]
  {
    if order != [] {
      assert order[0] in m;
    }
  }

  /** Where entry `i` of a listing comes from. */
  function Source(orders: Orders, i: nat): (int, CString)
    requires i < |orders.persist| + |orders.mem|
  {
    if i < |orders.persist| then (PERSIST, orders.persist[i]) else (MEM, orders.mem[i - |orders.persist|])
  }

  lemma EntryOf(temporary: bool, nameSize: nat, nameMax: nat, d: Devices, orders: Orders, i: nat)
    requires DevicesOk(temporary, d) && NamesFit(nameSize, d) && 0 < nameSize <= nameMax
    requires OrdersOf(d, orders) && i < |orders.persist| + |orders.mem|
    ensures |NvsList(temporary, d, orders, nameMax)| == |orders.persist| + |orders.mem|
    ensures var e := NvsList(temporary, d, orders, nameMax)[i];
            var (index, name) := Source(orders, i);
            && e.0 == FullKey(index, name)
            && NulFree(e.0) && ListedAt(temporary, d, e)
            && Place(temporary, FullKey(index, name)) == (index, name)
  {
    if !temporary {
      WalkNeedsNames(orders.mem, d.mem);
    }
    var n := |orders.persist|;
    if i < n {
      WalkIsFlat(temporary, nameMax, d, PERSIST, orders.persist, i);
    } else {
      WalkIsFlat(temporary, nameMax, d, MEM, orders.mem, i - n);
    }
  }

  /** Listing visits every key of the flat map exactly once, whole and with its value, cut where the
      source's buffer ends. */
  lemma ListIsFlat(temporary: bool, nameSize: nat, nameMax: nat, d: Devices, orders: Orders)
    requires DevicesOk(temporary, d) && NamesFit(nameSize, d) && 0 < nameSize <= nameMax
    requires OrdersOf(d, orders)
    ensures var es := NvsList(temporary, d, orders, nameMax);
            && (forall i :: 0 <= i < |es| ==> NulFree(es[i].0) && ListedAt(temporary, d, es[i]))
            && (forall i, j :: 0 <= i < j < |es| ==> es[i].0 != es[j].0)
            && (forall k :: FlatLookup(temporary, d, k).Some? ==> exists i :: 0 <= i < |es| && es[i].0 == k)
  {
    var es := NvsList(temporary, d, orders, nameMax);
    var n := |orders.persist|;
    if !temporary {
      WalkNeedsNames(orders.mem, d.mem);
    }
    assert |es| == n + |orders.mem|;
    forall i | 0 <= i < |es|
      ensures NulFree(es[i].0) && ListedAt(temporary, d, es[i])
    {
      EntryOf(temporary, nameSize, nameMax, d, orders, i);
    }
    forall i, j | 0 <= i < j < |es|
      ensures es[i].0 != es[j].0
    {
      EntryOf(temporary, nameSize, nameMax, d, orders, i);
      EntryOf(temporary, nameSize, nameMax, d, orders, j);
      assert Source(orders, i) != Source(orders, j);
    }
    forall k | FlatLookup(temporary, d, k).Some?
      ensures exists i :: 0 <= i < |es| && es[i].0 == k
    {
      FullKeysAreFlat(temporary, d, k);
      var i := PositionOf(d, orders, k);
      EntryOf(temporary, nameSize, nameMax, d, orders, i);
      assert es[i].0 == k;
    }
  }

  lemma PositionOf(d: Devices, orders: Orders, k: CString) returns (i: nat)
    requires OrdersOf(d, orders) && k in FullKeys(d)
    ensures i < |orders.persist| + |orders.mem| && FullKey(Source(orders, i).0, Source(orders, i).1) == k
  {
    if k in d.mem {
      var p :| 0 <= p < |orders.mem| && orders.mem[p] == k;
      i := |orders.persist| + p;
    } else {
      var name :| name in d.persist && FullKey(PERSIST, name) == k;
      i :| 0 <= i < |orders.persist| && orders.persist[i] == name;
    }
  }
}
