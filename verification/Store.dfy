/** The two UnQLite databases behind one handle (kvdb/unqlite.c). UnQLite itself is a map with a
    committed copy: changes are made to `cur` and reach `saved` only through a commit. */
module Store {
  import opened ByteStrings

  datatype Db = Db(cur: map<Bytes, Bytes>, saved: map<Bytes, Bytes>)

  const PERSIST := 0
  const MEM := 1

  datatype Stores = Stores(persist: Db, mem: Db) {
    function At(i: int): Db {
      if i == PERSIST then persist else mem
    }

    function With(i: int, db: Db): Stores {
      if i == PERSIST then this.(persist := db) else this.(mem := db)
    }

    /** Both databases read as one map from stored key (with its NUL) to value. */
    function View(): map<Bytes, Bytes> {
      persist.cur + mem.cur
    }
  }

  /** The code each database's commit returns; negative is a failure. */
  datatype CommitCodes = CommitCodes(persist: int, mem: int) {
    function At(i: int): int {
      if i == PERSIST then persist else mem
    }
  }

  /** The order in which the cursor of each database visits its keys. */
  datatype Cursors = Cursors(persist: seq<Bytes>, mem: seq<Bytes>) {
    function At(i: int): seq<Bytes> {
      if i == PERSIST then persist else mem
    }
  }

  datatype Outcome = Outcome(stores: Stores, code: int)
  datatype Fetched = Fetched(code: int, data: Bytes)
  type Entry = (Bytes, Bytes)

  /** The number of databases (KVDB_COUNT). */
  function Count(temporary: bool): nat {
    if temporary then 2 else 1
  }

  predicate IsPersistent(key: Bytes) {
    PERSIST_LABEL <= key
  }

  predicate IsReadOnly(key: Bytes) {
    READ_ONLY_LABEL <= key
  }

  /** `kvdb_get_index`; negative when the key has no database. */
  function Index(temporary: bool, key: Bytes): int {
    if IsPersistent(key) then PERSIST else if temporary then MEM else -EINVAL
  }

  /** `--key_len >= PROP_NAME_MAX`: an unsigned length, so zero wraps to the largest one. */
  predicate KeyTooLong(key: Bytes) {
    |key| == 0 || |key| - 1 >= NAME_MAX
  }

  /** A key the store can hold: terminated, and short enough with its NUL. */
  predicate StorableKey(key: Bytes) {
    !KeyTooLong(key) && key[|key| - 1] == 0
  }

  function KvSet(temporary: bool, st: Stores, key: Bytes, value: Bytes, force: bool): Outcome {
    if KeyTooLong(key) then Outcome(st, -E2BIG)
    else if key[|key| - 1] != 0 then Outcome(st, -EINVAL)
    else if |value| >= VALUE_MAX then Outcome(st, -E2BIG)
    else
      var i := Index(temporary, key);
      if i < 0 then Outcome(st, i)
      else
        var db := st.At(i);
        if !force && IsReadOnly(key) && key in db.cur then Outcome(st, -EPERM)
        else Outcome(st.With(i, db.(cur := db.cur[key := value])), 0)
  }

  /** `room` is the size of the caller's buffer, or None for a null buffer. */
  function KvGet(temporary: bool, st: Stores, key: Bytes, room: Option<nat>): Fetched {
    if KeyTooLong(key) then Fetched(-E2BIG, [])
    else if key[|key| - 1] != 0 then Fetched(-EINVAL, [])
    else
      var i := Index(temporary, key);
      if i < 0 then Fetched(i, [])
      else if key !in st.At(i).cur then Fetched(NOT_FOUND, [])
      else
        var value := st.At(i).cur[key];
        var size := if room.None? then |value| else Min(room.value, |value|);
        if size <= 0 then Fetched(-EINVAL, [])
        else Fetched(size, if room.None? then [] else value[..size])
  }

  function KvDelete(temporary: bool, st: Stores, key: Bytes): Outcome {
    if KeyTooLong(key) then Outcome(st, -E2BIG)
    else if key[|key| - 1] != 0 then Outcome(st, -EINVAL)
    else if IsReadOnly(key) then Outcome(st, -EPERM)
    else
      var i := Index(temporary, key);
      if i < 0 then Outcome(st, i)
      else
        var db := st.At(i);
        if key !in db.cur then Outcome(st, NOT_FOUND)
        else Outcome(st.With(i, db.(cur := db.cur - {key})), 0)
  }

  function CommitDb(db: Db, code: int): Db {
    if code < 0 then db else db.(saved := db.cur)
  }

  /** Every database is tried; the first failure is reported. */
  function KvCommit(temporary: bool, st: Stores, codes: CommitCodes): Outcome {
    Outcome(Stores(CommitDb(st.persist, codes.persist),
                   if temporary then CommitDb(st.mem, codes.mem) else st.mem),
            if codes.persist < 0 then codes.persist
            else if temporary && codes.mem < 0 then codes.mem
            else 0)
  }

  ghost predicate Enumerates(order: seq<Bytes>, m: map<Bytes, Bytes>) {
    && (forall i :: 0 <= i < |order| ==> order[i] in m)
    && (forall k :: k in m ==> k in order)
    && (forall i, j :: 0 <= i < j < |order| ==> order[i] != order[j])
  }

  ghost predicate CursorsOf(st: Stores, cursors: Cursors) {
    Enumerates(cursors.persist, st.persist.cur) && Enumerates(cursors.mem, st.mem.cur)
  }

  ghost function DbEntries(m: map<Bytes, Bytes>, order: seq<Bytes>): (es: seq<Entry>)
    requires forall i :: 0 <= i < |order| ==> order[i] in m
    ensures |es| == |order|
    ensures forall i :: 0 <= i < |order| ==> es[i] == (order[i], m[order[i]])
  {
    if order == [] then [] else [(order[0], m[order[0]])] + DbEntries(m, order[1..])
  }

  /** What `kvdb_list` hands to its callback, in order. */
  ghost function KvList(temporary: bool, st: Stores, cursors: Cursors): seq<Entry>
    requires CursorsOf(st, cursors)
  {
    DbEntries(st.persist.cur, cursors.persist)
    + if temporary then DbEntries(st.mem.cur, cursors.mem) else []
  }

  /** The handle. The source opens one UnQLite file per database. */
  class Kvdb {
    const temporary: bool
    var stores: Stores

    constructor (temporary: bool, stores: Stores)
      ensures this.temporary == temporary && this.stores == stores
    {
      this.temporary := temporary;
      this.stores := stores;
    }

    method Set(key: Bytes, value: Bytes, force: bool) returns (code: int)
      modifies this
      ensures Outcome(stores, code) == KvSet(temporary, old(stores), key, value, force)
    {
      if KeyTooLong(key) {
        return -E2BIG;
      }
      if key[|key| - 1] != 0 {
        return -EINVAL;
      }
      if |value| >= VALUE_MAX {
        return -E2BIG;
      }
      var i := Index(temporary, key);
      if i < 0 {
        return i;
      }
      var db := stores.At(i);
      if !force && IsReadOnly(key) && key in db.cur {
        return -EPERM;
      }
      stores := stores.With(i, db.(cur := db.cur[key := value]));
      return 0;
    }

    method Get(key: Bytes, room: Option<nat>) returns (code: int, data: Bytes)
      ensures Fetched(code, data) == KvGet(temporary, stores, key, room)
    {
      if KeyTooLong(key) {
        return -E2BIG, [];
      }
      if key[|key| - 1] != 0 {
        return -EINVAL, [];
      }
      var i := Index(temporary, key);
      if i < 0 {
        return i, [];
      }
      if key !in stores.At(i).cur {
        return NOT_FOUND, [];
      }
      var value := stores.At(i).cur[key];
      var size := if room.None? then |value| else Min(room.value, |value|);
      if size <= 0 {
        return -EINVAL, [];
      }
      return size, if room.None? then [] else value[..size];
    }

    method Delete(key: Bytes) returns (code: int)
      modifies this
      ensures Outcome(stores, code) == KvDelete(temporary, old(stores), key)
    {
      if KeyTooLong(key) {
        return -E2BIG;
      }
      if key[|key| - 1] != 0 {
        return -EINVAL;
      }
      if IsReadOnly(key) {
        return -EPERM;
      }
      var i := Index(temporary, key);
      if i < 0 {
        return i;
      }
      var db := stores.At(i);
      if key !in db.cur {
        return NOT_FOUND;
      }
      stores := stores.With(i, db.(cur := db.cur - {key}));
      return 0;
    }

    method Commit(codes: CommitCodes) returns (ret: int)
      modifies this
      ensures Outcome(stores, ret) == KvCommit(temporary, old(stores), codes)
    {
      ret := 0;
      var i := 0;
      while i < Count(temporary)
        invariant 0 <= i <= Count(temporary)
        invariant stores.persist == if i >= 1 then CommitDb(old(stores.persist), codes.persist) else old(stores.persist)
        invariant stores.mem == if i >= 2 then CommitDb(old(stores.mem), codes.mem) else old(stores.mem)
        invariant ret == if i >= 1 && codes.persist < 0 then codes.persist
                         else if i >= 2 && codes.mem < 0 then codes.mem else 0
      {
        var r := codes.At(i);
        stores := stores.With(i, CommitDb(stores.At(i), r));
        if r < 0 {
          if ret == 0 {
            ret := r;
          }
        }
        i := i + 1;
      }
    }

    /** One database's cursor walk; `entries` are the calls made to the consumer. */
    method Walk(i: int, order: seq<Bytes>) returns (entries: seq<Entry>)
      requires forall p :: 0 <= p < |order| ==> order[p] in stores.At(i).cur
      ensures entries == DbEntries(stores.At(i).cur, order)
    {
      entries := [];
      var p := 0;
      while p < |order|
        invariant 0 <= p <= |order|
        invariant |entries| == p
        invariant forall q :: 0 <= q < p ==> entries[q] == (order[q], stores.At(i).cur[order[q]])
      {
        entries := entries + [(order[p], stores.At(i).cur[order[p]])];
        p := p + 1;
      }
    }

    /** `kvdb_list`: each database in turn. */
    method List(cursors: Cursors) returns (entries: seq<Entry>)
      requires CursorsOf(stores, cursors)
      ensures entries == KvList(temporary, stores, cursors)
    {
      entries := [];
      var i := 0;
      while i < Count(temporary)
        invariant 0 <= i <= Count(temporary)
        invariant i == 0 ==> entries == []
        invariant i == 1 ==> entries == DbEntries(stores.persist.cur, cursors.persist)
        invariant i == 2 ==> entries == KvList(true, stores, cursors)
      {
        var more := Walk(i, cursors.At(i));
        entries := entries + more;
        i := i + 1;
      }
      assert !temporary ==> entries == entries + [];
    }
  }

  // ---------------------------------------------------------------------------------------------
  // What every operation keeps

  /** A map holds only storable keys of one database and values that fit. */
  ghost predicate WellFormedMap(m: map<Bytes, Bytes>, persistent: bool) {
    forall k :: k in m ==> StorableKey(k) && IsPersistent(k) == persistent && |m[k]| < VALUE_MAX
  }

  ghost predicate WellFormedDb(db: Db, persistent: bool) {
    WellFormedMap(db.cur, persistent) && WellFormedMap(db.saved, persistent)
  }

  /** Persistent keys live in one database, all others in the other one. */
  ghost predicate WellFormed(st: Stores) {
    WellFormedDb(st.persist, true) && WellFormedDb(st.mem, false)
  }

  lemma SetKeepsWellFormed(temporary: bool, st: Stores, key: Bytes, value: Bytes, force: bool)
    requires WellFormed(st)
    ensures WellFormed(KvSet(temporary, st, key, value, force).stores)
  {
  }

  lemma DeleteKeepsWellFormed(temporary: bool, st: Stores, key: Bytes)
    requires WellFormed(st)
    ensures WellFormed(KvDelete(temporary, st, key).stores)
  {
  }

  lemma CommitKeepsWellFormed(temporary: bool, st: Stores, codes: CommitCodes)
    requires WellFormed(st)
    ensures WellFormed(KvCommit(temporary, st, codes).stores)
  {
  }

  /** In a well-formed store a key is in the flat view exactly when its own database holds it. */
  lemma ViewAt(temporary: bool, st: Stores, key: Bytes)
    requires WellFormed(st) && Index(temporary, key) >= 0
    ensures key in st.View() <==> key in st.At(Index(temporary, key)).cur
    ensures key in st.View() ==> st.View()[key] == st.At(Index(temporary, key)).cur[key]
  {
  }

  // ---------------------------------------------------------------------------------------------
  // The store as one flat map

  /** Whether a set is refused, as a caller sees it, and with which code. */
  function SetCode(temporary: bool, view: map<Bytes, Bytes>, key: Bytes, value: Bytes, force: bool): int {
    if KeyTooLong(key) then -E2BIG
    else if !StorableKey(key) then -EINVAL
    else if |value| >= VALUE_MAX then -E2BIG
    else if !temporary && !IsPersistent(key) then -EINVAL
    else if !force && IsReadOnly(key) && key in view then -EPERM
    else 0
  }

  function DeleteCode(temporary: bool, view: map<Bytes, Bytes>, key: Bytes): int {
    if KeyTooLong(key) then -E2BIG
    else if !StorableKey(key) then -EINVAL
    else if IsReadOnly(key) then -EPERM
    else if !temporary && !IsPersistent(key) then -EINVAL
    else if key !in view then NOT_FOUND
    else 0
  }

  lemma PutOnView(temporary: bool, st: Stores, key: Bytes, value: Bytes)
    requires WellFormed(st) && Index(temporary, key) >= 0
    ensures var i := Index(temporary, key);
            st.With(i, st.At(i).(cur := st.At(i).cur[key := value])).View() == st.View()[key := value]
  {
  }

  lemma DropOnView(temporary: bool, st: Stores, key: Bytes)
    requires WellFormed(st) && Index(temporary, key) >= 0
    ensures var i := Index(temporary, key);
            st.With(i, st.At(i).(cur := st.At(i).cur - {key})).View() == st.View() - {key}
  {
  }

  /** The two databases behave as one map: an accepted set changes one key and nothing else. */
  lemma SetOnView(temporary: bool, st: Stores, key: Bytes, value: Bytes, force: bool)
    requires WellFormed(st)
    ensures var o := KvSet(temporary, st, key, value, force);
            && o.code == SetCode(temporary, st.View(), key, value, force)
            && (o.code < 0 ==> o.stores == st)
            && (o.code >= 0 ==> o.stores.View() == st.View()[key := value])
            && o.stores.persist.saved == st.persist.saved && o.stores.mem.saved == st.mem.saved
  {
    if Index(temporary, key) >= 0 {
      ViewAt(temporary, st, key);
      PutOnView(temporary, st, key, value);
    }
  }

  lemma DeleteOnView(temporary: bool, st: Stores, key: Bytes)
    requires WellFormed(st)
    ensures var o := KvDelete(temporary, st, key);
            && o.code == DeleteCode(temporary, st.View(), key)
            && (o.code < 0 ==> o.stores == st)
            && (o.code >= 0 ==> o.stores.View() == st.View() - {key})
            && o.stores.persist.saved == st.persist.saved && o.stores.mem.saved == st.mem.saved
  {
    if Index(temporary, key) >= 0 {
      ViewAt(temporary, st, key);
      DropOnView(temporary, st, key);
    }
  }

  /** A get with room for any value returns exactly what the flat map holds; without temporary
      storage the other database is empty. */
  lemma GetOnView(temporary: bool, st: Stores, key: Bytes, room: nat)
    requires WellFormed(st) && StorableKey(key)
    requires temporary || st.mem.cur == map[]
    ensures var f := KvGet(temporary, st, key, Some(room));
            f.code > 0 <==> key in st.View() && st.View()[key] != [] && room > 0
    ensures var f := KvGet(temporary, st, key, Some(room));
            f.code > 0 ==> f.data == st.View()[key][..Min(room, |st.View()[key]|)] && f.code == |f.data|
  {
    if Index(temporary, key) >= 0 {
      ViewAt(temporary, st, key);
    }
  }

  // ---------------------------------------------------------------------------------------------
  // When each operation succeeds, in bytes and numbers

  /** A set, for all inputs: keys are 1 to 127 bytes with their NUL, values at most 254; "persist." keys
      go to the one database, others to the other one if there is one; and only a present "ro." key is
      write-once. */
  lemma SetExactly(temporary: bool, st: Stores, key: Bytes, value: Bytes, force: bool)
    ensures var o := KvSet(temporary, st, key, value, force);
            var persistent := [112, 101, 114, 115, 105, 115, 116, 46] <= key;
            var present := key in (if persistent then st.persist.cur else st.mem.cur);
            && o.code == (if key == [] || |key| > 127 then -7
                          else if key[|key| - 1] != 0 then -22
                          else if |value| > 254 then -7
                          else if !persistent && !temporary then -22
                          else if !force && present && [114, 111, 46] <= key then -1
                          else 0)
            && o.stores.persist.cur == (if o.code == 0 && persistent then st.persist.cur[key := value] else st.persist.cur)
            && o.stores.mem.cur == (if o.code == 0 && !persistent then st.mem.cur[key := value] else st.mem.cur)
            && o.stores.persist.saved == st.persist.saved && o.stores.mem.saved == st.mem.saved
  {
  }

  lemma DeleteExactly(temporary: bool, st: Stores, key: Bytes)
    ensures var o := KvDelete(temporary, st, key);
            var persistent := [112, 101, 114, 115, 105, 115, 116, 46] <= key;
            var present := key in (if persistent then st.persist.cur else st.mem.cur);
            && o.code == (if key == [] || |key| > 127 then -7
                          else if key[|key| - 1] != 0 then -22
                          else if [114, 111, 46] <= key then -1
                          else if !persistent && !temporary then -22
                          else if !present then -6
                          else 0)
            && o.stores.persist.cur == (if o.code == 0 && persistent then st.persist.cur - {key} else st.persist.cur)
            && o.stores.mem.cur == (if o.code == 0 && !persistent then st.mem.cur - {key} else st.mem.cur)
            && o.stores.persist.saved == st.persist.saved && o.stores.mem.saved == st.mem.saved
  {
  }

  /** A get never writes; an empty value or no room is an error, and a null buffer asks for the length. */
  lemma GetExactly(temporary: bool, st: Stores, key: Bytes, room: Option<nat>)
    ensures var f := KvGet(temporary, st, key, room);
            var persistent := [112, 101, 114, 115, 105, 115, 116, 46] <= key;
            var db := if persistent then st.persist.cur else st.mem.cur;
            if key == [] || |key| > 127 then f == Fetched(-7, [])
            else if key[|key| - 1] != 0 || (!persistent && !temporary) then f == Fetched(-22, [])
            else if key !in db then f == Fetched(-6, [])
            else if db[key] == [] || room == Some(0) then f == Fetched(-22, [])
            else if room == None then f == Fetched(|db[key]|, [])
            else f.code == |f.data| && f.data <= db[key] && (|f.data| == room.value < |db[key]| || f.data == db[key])
  {
  }

  /** A commit saves each database whose commit succeeds, and reports the first that fails. */
  lemma CommitExactly(temporary: bool, st: Stores, codes: CommitCodes)
    ensures var o := KvCommit(temporary, st, codes);
            && o.stores.persist.cur == st.persist.cur && o.stores.mem.cur == st.mem.cur
            && o.stores.persist.saved == (if codes.persist >= 0 then st.persist.cur else st.persist.saved)
            && o.stores.mem.saved == (if temporary && codes.mem >= 0 then st.mem.cur else st.mem.saved)
            && (o.code == 0 <==> codes.persist >= 0 && (temporary ==> codes.mem >= 0))
            && (o.code != 0 ==> o.code == if codes.persist < 0 then codes.persist else codes.mem)
  {
  }
}
