/** Loading default values from property files (`kvdb_load`, kvdb/server.c). */
module Loader {
  import opened ByteStrings
  import opened Store

  const EQUALS: Byte := 61
  const NEWLINE: Byte := 10
  const SEMICOLON: Byte := 59
  const HASH: Byte := 35
  const PATH_MAX := 256

  /** A platform file system: readable paths and their contents. */
  type Files = map<Bytes, Bytes>

  predicate IsBlank(c: Byte) {
    c == 32 || c == 9 || c == 13 || c == 10
  }

  /** `strspn` over blanks. */
  function BlankSpan(s: Bytes): (n: nat)
    ensures n <= |s|
    ensures forall i :: 0 <= i < n ==> IsBlank(s[i])
    ensures n < |s| ==> !IsBlank(s[n])
  {
    if s == [] || !IsBlank(s[0]) then 0 else 1 + BlankSpan(s[1..])
  }

  /** The first position of a byte, or the length. */
  function IndexOf(s: Bytes, c: Byte): (n: nat)
    ensures n <= |s|
    ensures c !in s[..n]
    ensures n < |s| ==> s[n] == c
  {
    if s == [] || s[0] == c then 0 else 1 + IndexOf(s[1..], c)
  }

  /** The number of leading occurrences of a byte. */
  function Leading(s: Bytes, c: Byte): (n: nat)
    ensures n <= |s|
    ensures forall i :: 0 <= i < n ==> s[i] == c
    ensures n < |s| ==> s[n] != c
  {
    if s == [] || s[0] != c then 0 else 1 + Leading(s[1..], c)
  }

  predicate IsComment(line: CString) {
    var i := BlankSpan(line);
    i == |line| || line[i] == HASH
  }

  datatype Token = Token(word: Option<CString>, rest: CString)

  /** `strtok_r` with a single delimiter: leading delimiters are skipped, a token is never empty. */
  function Strtok(s: CString, delimiter: Byte): Token {
    var start := Leading(s, delimiter);
    if start == |s| then Token(None, [])
    else
      var t := s[start..];
      var n := IndexOf(t, delimiter);
      Token(Some(t[..n]), if n < |t| then t[n + 1..] else [])
  }

  /** The definition held in one line as read into the buffer, key and value with their NULs. */
  function ParseLine(line: Bytes): (d: Option<Entry>)
    ensures d.Some? ==> |d.value.0| >= 2 && |d.value.1| >= 2
    ensures d.Some? ==> NulFree(d.value.0[..|d.value.0| - 1]) && d.value.0[|d.value.0| - 1] == 0
  {
    var s := CStr(line);
    if IsComment(s) then None
    else
      var key := Strtok(s, EQUALS);
      var value := Strtok(key.rest, NEWLINE);
      if key.word.None? || value.word.None? then None
      else Some((key.word.value + [0], value.word.value + [0]))
  }

  /** How much one `fgets` into the message buffer takes: to the newline, at most MSG_MAX - 1. */
  function FgetsLength(data: Bytes): (n: nat)
    requires data != []
    ensures 0 < n <= |data| && n < MSG_MAX
  {
    Min(MSG_MAX - 1, Min(IndexOf(data, NEWLINE) + 1, |data|))
  }

  function LineDefs(line: Bytes): seq<Entry> {
    match ParseLine(line)
    case None => []
    case Some(d) => [d]
  }

  /** Every definition of a file, in reading order. */
  function FileDefs(data: Bytes): seq<Entry>
    decreases |data|
  {
    if data == [] then []
    else
      var n := FgetsLength(data);
      LineDefs(data[..n]) + FileDefs(data[n..])
  }

  /** The paths named by the ';'-separated source setting. */
  function Paths(source: Bytes): seq<Bytes>
    decreases |source|
  {
    if source == [] then []
    else
      var n := IndexOf(source, SEMICOLON);
      if n == |source| then [source]
      else [source[..Min(PATH_MAX - 1, n)]] + Paths(source[n + 1..])
  }

  /** Every definition of every readable file; an unreadable one is skipped. */
  function AllDefs(paths: seq<Bytes>, files: Files): seq<Entry> {
    if paths == [] then []
    else (if paths[0] in files then FileDefs(files[paths[0]]) else []) + AllDefs(paths[1..], files)
  }

  function ApplyDef(temporary: bool, st: Stores, d: Entry, force: bool): Stores {
    if !force && KvGet(temporary, st, d.0, None).code >= 0 then st
    else KvSet(temporary, st, d.0, d.1, true).stores
  }

  function ApplyDefs(temporary: bool, st: Stores, defs: seq<Entry>, force: bool): Stores
    decreases |defs|
  {
    if defs == [] then st
    else ApplyDefs(temporary, ApplyDef(temporary, st, defs[0], force), defs[1..], force)
  }

  /** `kvdb_load`: apply every definition, then commit. */
  function Load(temporary: bool, st: Stores, source: Bytes, files: Files, force: bool,
                codes: CommitCodes): Stores {
    KvCommit(temporary, ApplyDefs(temporary, st, AllDefs(Paths(source), files), force), codes).stores
  }

  lemma {:induction false} ApplyAppend(temporary: bool, st: Stores, xs: seq<Entry>, ys: seq<Entry>, force: bool)
    ensures ApplyDefs(temporary, st, xs + ys, force)
         == ApplyDefs(temporary, ApplyDefs(temporary, st, xs, force), ys, force)
    decreases |xs|
  {
    if xs == [] {
      assert xs + ys == ys;
    } else {
      assert (xs + ys)[1..] == xs[1..] + ys;
      ApplyAppend(temporary, ApplyDef(temporary, st, xs[0], force), xs[1..], ys, force);
    }
  }

  /** The read loop over one open file. */
  method LoadFile(kvdb: Kvdb, content: Bytes, force: bool)
    modifies kvdb
    ensures kvdb.stores == ApplyDefs(kvdb.temporary, old(kvdb.stores), FileDefs(content), force)
  {
    var data := content;
    while data != []
      invariant ApplyDefs(kvdb.temporary, kvdb.stores, FileDefs(data), force)
             == ApplyDefs(kvdb.temporary, old(kvdb.stores), FileDefs(content), force)
      decreases |data|
    {
      var n := FgetsLength(data);
      var line := data[..n];
      ApplyAppend(kvdb.temporary, kvdb.stores, LineDefs(line), FileDefs(data[n..]), force);
      data := data[n..];
      var buf := CStr(line);
      if IsComment(buf) {
        continue;
      }
      var key := Strtok(buf, EQUALS);
      var value := Strtok(key.rest, NEWLINE);
      if key.word.None? || value.word.None? {
        continue;
      }
      var d := (key.word.value + [0], value.word.value + [0]);
      assert LineDefs(line) == [d];
      assert ApplyDefs(kvdb.temporary, kvdb.stores, [d], force) == ApplyDef(kvdb.temporary, kvdb.stores, d, force);
      if !force {
        var code, _ := kvdb.Get(d.0, None);
        if code >= 0 {
          continue;
        }
      }
      var _ := kvdb.Set(d.0, d.1, true);
    }
  }

  /** `kvdb_load`: each path of the source list in turn, then a commit. */
  method LoadAll(kvdb: Kvdb, source: Bytes, files: Files, force: bool, codes: CommitCodes)
    modifies kvdb
    ensures kvdb.stores == Load(kvdb.temporary, old(kvdb.stores), source, files, force, codes)
  {
    var src := source;
    while src != []
      invariant ApplyDefs(kvdb.temporary, kvdb.stores, AllDefs(Paths(src), files), force)
             == ApplyDefs(kvdb.temporary, old(kvdb.stores), AllDefs(Paths(source), files), force)
      decreases |src|
    {
      ghost var paths := Paths(src);
      var n := IndexOf(src, SEMICOLON);
      var path;
      if n < |src| {
        path := src[..Min(PATH_MAX - 1, n)];
        src := src[n + 1..];
      } else {
        path := src;
        src := [];
      }
      assert paths == [path] + Paths(src);
      ghost var here := if path in files then FileDefs(files[path]) else [];
      assert AllDefs(paths, files) == here + AllDefs(Paths(src), files);
      ApplyAppend(kvdb.temporary, kvdb.stores, here, AllDefs(Paths(src), files), force);
      if path !in files {
        continue;
      }
      LoadFile(kvdb, files[path], force);
    }
    var _ := kvdb.Commit(codes);
  }

  // ---------------------------------------------------------------------------------------------
  // What loading means

  function Lookup(st: Stores, k: Bytes): Option<Bytes> {
    if k in st.View() then Some(st.View()[k]) else None
  }

  /** A definition that a forced set accepts. */
  predicate ValidDef(temporary: bool, d: Entry) {
    StorableKey(d.0) && |d.1| < VALUE_MAX && (temporary || IsPersistent(d.0))
  }

  function FirstDef(temporary: bool, defs: seq<Entry>, k: Bytes): Option<Bytes> {
    if defs == [] then None
    else if defs[0].0 == k && ValidDef(temporary, defs[0]) then Some(defs[0].1)
    else FirstDef(temporary, defs[1..], k)
  }

  function LastDef(temporary: bool, defs: seq<Entry>, k: Bytes): Option<Bytes> {
    if defs == [] then None
    else
      var later := LastDef(temporary, defs[1..], k);
      if later.Some? then later
      else if defs[0].0 == k && ValidDef(temporary, defs[0]) then Some(defs[0].1)
      else None
  }

  ghost predicate NonEmptyValues(defs: seq<Entry>) {
    forall d :: d in defs ==> d.1 != []
  }

  /** The key reads as present to the loader: stored with a non-empty value. */
  predicate Present(st: Stores, k: Bytes) {
    Lookup(st, k).Some? && Lookup(st, k).value != []
  }

  lemma ApplyDefLookup(temporary: bool, st: Stores, d: Entry, force: bool, k: Bytes)
    requires WellFormed(st)
    ensures WellFormed(ApplyDef(temporary, st, d, force))
    ensures Lookup(ApplyDef(temporary, st, d, force), k)
         == if d.0 == k && ValidDef(temporary, d) && (force || !Present(st, k)) then Some(d.1) else Lookup(st, k)
  {
    SetKeepsWellFormed(temporary, st, d.0, d.1, true);
    SetOnView(temporary, st, d.0, d.1, true);
    if Index(temporary, d.0) >= 0 {
      ViewAt(temporary, st, d.0);
    }
  }

  lemma {:induction false} ApplyKeepsWellFormed(temporary: bool, st: Stores, defs: seq<Entry>, force: bool)
    requires WellFormed(st)
    ensures WellFormed(ApplyDefs(temporary, st, defs, force))
    decreases |defs|
  {
    if defs != [] {
      ApplyDefLookup(temporary, st, defs[0], force, []);
      ApplyKeepsWellFormed(temporary, ApplyDef(temporary, st, defs[0], force), defs[1..], force);
    }
  }

  /** Boot: an existing value is kept, a missing key takes its first valid definition. */
  lemma {:induction false} BootLoadMeaning(temporary: bool, st: Stores, defs: seq<Entry>, k: Bytes)
    requires WellFormed(st) && NonEmptyValues(defs)
    ensures Lookup(ApplyDefs(temporary, st, defs, false), k)
         == if Present(st, k) || FirstDef(temporary, defs, k).None? then Lookup(st, k)
            else FirstDef(temporary, defs, k)
    decreases |defs|
  {
    if defs != [] {
      ApplyDefLookup(temporary, st, defs[0], false, k);
      BootLoadMeaning(temporary, ApplyDef(temporary, st, defs[0], false), defs[1..], k);
    }
  }

  /** Reload: the last valid definition wins, whatever was stored and even for "ro." keys. */
  lemma {:induction false} ReloadMeaning(temporary: bool, st: Stores, defs: seq<Entry>, k: Bytes)
    requires WellFormed(st)
    ensures Lookup(ApplyDefs(temporary, st, defs, true), k)
         == if LastDef(temporary, defs, k).Some? then LastDef(temporary, defs, k) else Lookup(st, k)
    decreases |defs|
  {
    if defs != [] {
      ApplyDefLookup(temporary, st, defs[0], true, k);
      ReloadMeaning(temporary, ApplyDef(temporary, st, defs[0], true), defs[1..], k);
    }
  }

  lemma {:induction false} ApplyLeavesSaved(temporary: bool, st: Stores, defs: seq<Entry>, force: bool)
    ensures var r := ApplyDefs(temporary, st, defs, force);
            r.persist.saved == st.persist.saved && r.mem.saved == st.mem.saved
    decreases |defs|
  {
    if defs != [] {
      ApplyLeavesSaved(temporary, ApplyDef(temporary, st, defs[0], force), defs[1..], force);
    }
  }

  /** A well-formed store is determined by its flat view and its saved copies. */
  lemma ViewDetermines(a: Stores, b: Stores)
    requires WellFormed(a) && WellFormed(b)
    requires forall k :: Lookup(a, k) == Lookup(b, k)
    ensures a.persist.cur == b.persist.cur && a.mem.cur == b.mem.cur
  {
    forall k
      ensures k in a.persist.cur <==> k in b.persist.cur
      ensures k in a.persist.cur ==> a.persist.cur[k] == b.persist.cur[k]
      ensures k in a.mem.cur <==> k in b.mem.cur
      ensures k in a.mem.cur ==> a.mem.cur[k] == b.mem.cur[k]
    {
      assert Lookup(a, k) == Lookup(b, k);
    }
  }

  lemma {:induction false} FirstDefNonEmpty(temporary: bool, defs: seq<Entry>, k: Bytes)
    requires NonEmptyValues(defs) && FirstDef(temporary, defs, k).Some?
    ensures FirstDef(temporary, defs, k).value != []
  {
    if !(defs[0].0 == k && ValidDef(temporary, defs[0])) {
      FirstDefNonEmpty(temporary, defs[1..], k);
    }
  }

  /** Applying the same definitions twice changes nothing more, at boot and at reload. */
  lemma LoadIdempotent(temporary: bool, st: Stores, defs: seq<Entry>, force: bool)
    requires WellFormed(st) && NonEmptyValues(defs)
    ensures var once := ApplyDefs(temporary, st, defs, force);
            ApplyDefs(temporary, once, defs, force) == once
  {
    var once := ApplyDefs(temporary, st, defs, force);
    var twice := ApplyDefs(temporary, once, defs, force);
    ApplyKeepsWellFormed(temporary, st, defs, force);
    ApplyKeepsWellFormed(temporary, once, defs, force);
    forall k
      ensures Lookup(twice, k) == Lookup(once, k)
    {
      if force {
        ReloadMeaning(temporary, st, defs, k);
        ReloadMeaning(temporary, once, defs, k);
      } else {
        BootLoadMeaning(temporary, st, defs, k);
        BootLoadMeaning(temporary, once, defs, k);
        if FirstDef(temporary, defs, k).Some? {
          FirstDefNonEmpty(temporary, defs, k);
        }
      }
    }
    ViewDetermines(twice, once);
    ApplyLeavesSaved(temporary, once, defs, force);
  }

  /** A load whose commits succeed leaves nothing unsaved. */
  lemma LoadCommits(temporary: bool, st: Stores, source: Bytes, files: Files, force: bool, codes: CommitCodes)
    requires codes.persist >= 0 && codes.mem >= 0
    ensures var r := Load(temporary, st, source, files, force, codes);
            r.persist.saved == r.persist.cur && (temporary ==> r.mem.saved == r.mem.cur)
  {
  }

  /** Every definition read from files names a terminated NUL-free key and a non-empty value. */
  ghost predicate CleanDefs(defs: seq<Entry>) {
    forall d :: d in defs ==>
      |d.0| >= 2 && NulFree(d.0[..|d.0| - 1]) && d.0[|d.0| - 1] == 0 && d.1 != []
  }

  lemma {:induction false} FileDefsClean(data: Bytes)
    ensures CleanDefs(FileDefs(data))
    decreases |data|
  {
    if data != [] {
      FileDefsClean(data[FgetsLength(data)..]);
    }
  }

  lemma {:induction false} AllDefsClean(paths: seq<Bytes>, files: Files)
    ensures CleanDefs(AllDefs(paths, files))
  {
    if paths != [] {
      AllDefsClean(paths[1..], files);
      if paths[0] in files {
        FileDefsClean(files[paths[0]]);
      }
    }
  }

  /** Load, stated over the settings: boot keeps or fills, reload overrides; both then commit. */
  lemma LoadMeaning(temporary: bool, st: Stores, source: Bytes, files: Files, force: bool, codes: CommitCodes, k: Bytes)
    requires WellFormed(st)
    ensures var defs := AllDefs(Paths(source), files);
            var r := Load(temporary, st, source, files, force, codes);
            && WellFormed(r)
            && Lookup(r, k) == (if force
                                then if LastDef(temporary, defs, k).Some? then LastDef(temporary, defs, k) else Lookup(st, k)
                                else if Present(st, k) || FirstDef(temporary, defs, k).None? then Lookup(st, k)
                                else FirstDef(temporary, defs, k))
  {
    var defs := AllDefs(Paths(source), files);
    AllDefsClean(Paths(source), files);
    var applied := ApplyDefs(temporary, st, defs, force);
    ApplyKeepsWellFormed(temporary, st, defs, force);
    CommitKeepsWellFormed(temporary, applied, codes);
    assert KvCommit(temporary, applied, codes).stores.View() == applied.View();
    if force {
      ReloadMeaning(temporary, st, defs, k);
    } else {
      BootLoadMeaning(temporary, st, defs, k);
    }
  }

  // ---------------------------------------------------------------------------------------------
  // A printed pair parses back

  function PrintDef(key: CString, value: CString): CString {
    key + [EQUALS] + value + [NEWLINE]
  }

  /** The key's first non-blank character starts a comment. */
  predicate CommentKey(key: CString) {
    var i := BlankSpan(key);
    i < |key| && key[i] == HASH
  }

  lemma SpanBeforeEquals(key: CString, rest: CString)
    ensures BlankSpan(key + [EQUALS] + rest) == BlankSpan(key)
  {
    var s := key + [EQUALS] + rest;
    var n := BlankSpan(key);
    assert s[n] == if n < |key| then key[n] else EQUALS;
  }

  lemma IndexOfPrefix(head: Bytes, c: Byte, rest: Bytes)
    requires c !in head
    ensures IndexOf(head + [c] + rest, c) == |head|
  {
    var s := head + [c] + rest;
    var n := IndexOf(s, c);
    assert s[|head|] == c;
    assert forall i :: 0 <= i < n ==> s[..n][i] == s[i];
  }

  /** A token that is followed by its delimiter and does not start with it. */
  lemma StrtokOfJoined(word: CString, delimiter: Byte, rest: CString)
    requires word != [] && delimiter !in word && delimiter != 0
    ensures Strtok(word + [delimiter] + rest, delimiter) == Token(Some(word), rest)
  {
    var s: CString := word + [delimiter] + rest;
    assert s[0] == word[0] && Leading(s, delimiter) == 0 && s[0..] == s;
    IndexOfPrefix(word, delimiter, rest);
    assert s[..|word|] == word && s[|word| + 1..] == rest;
  }

  /** A printed pair without newlines of its own is one `fgets` read. */
  lemma PrintedIsOneRead(key: CString, value: CString)
    requires |key| < NAME_MAX && |value| + 1 < VALUE_MAX
    requires NEWLINE !in key && NEWLINE !in value
    ensures FileDefs(PrintDef(key, value)) == LineDefs(PrintDef(key, value))
    ensures CStr(PrintDef(key, value)) == PrintDef(key, value)
  {
    var line := PrintDef(key, value);
    assert line == (key + [EQUALS] + value) + [NEWLINE] + [];
    IndexOfPrefix(key + [EQUALS] + value, NEWLINE, []);
    assert FgetsLength(line) == |line|;
    assert line[..|line|] == line && line[|line|..] == [];
  }

  lemma PrintedCommentIffKey(key: CString, value: CString)
    ensures IsComment(PrintDef(key, value)) <==> CommentKey(key)
  {
    var line := PrintDef(key, value);
    SpanBeforeEquals(key, value + [NEWLINE]);
    assert line == key + [EQUALS] + (value + [NEWLINE]);
    assert BlankSpan(line) == BlankSpan(key) <= |key|;
    assert line[BlankSpan(key)] == if BlankSpan(key) < |key| then key[BlankSpan(key)] else EQUALS;
  }

  /** What the parser can never produce. */
  predicate DefShape(d: Entry) {
    && |d.0| >= 2 && EQUALS !in d.0 && NEWLINE !in d.0
    && |d.1| >= 2 && NEWLINE !in d.1
  }

  /** A token is a non-empty piece of its string without the delimiter; the token before another one
      is followed by the delimiter. */
  lemma StrtokShape(s: CString, delimiter: Byte)
    ensures var t := Strtok(s, delimiter);
            t.word.Some? ==>
              var start, word := Leading(s, delimiter), t.word.value;
              && word != [] && delimiter !in word
              && start + |word| <= |s| && word == s[start..start + |word|]
              && (t.rest != [] ==> start + |word| < |s| - 1)
  {
    var start := Leading(s, delimiter);
    if start < |s| {
      var t := s[start..];
      assert t[0] == s[start] != delimiter;
    }
  }

  lemma ShapeOfWords(key: CString, value: CString)
    requires key != [] && EQUALS !in key && NEWLINE !in key && value != [] && NEWLINE !in value
    ensures DefShape((key + [0], value + [0]))
  {
  }

  /** Only the last byte of a read can be a newline, and a token followed by more ends before it. */
  lemma KeyWithoutNewline(line: Bytes, s: CString, start: nat, word: CString)
    requires forall i :: 0 <= i < |line| - 1 ==> line[i] != NEWLINE
    requires s <= line && start + |word| < |s| && word == s[start..start + |word|]
    ensures NEWLINE !in word
  {
    forall i | 0 <= i < |word|
      ensures word[i] != NEWLINE
    {
      assert word[i] == s[start + i] == line[start + i];
    }
  }

  lemma KeyOfLine(line: Bytes, s: CString)
    requires forall i :: 0 <= i < |line| - 1 ==> line[i] != NEWLINE
    requires s <= line && Strtok(s, EQUALS).word.Some? && Strtok(s, EQUALS).rest != []
    ensures var key := Strtok(s, EQUALS).word.value; key != [] && EQUALS !in key && NEWLINE !in key
  {
    StrtokShape(s, EQUALS);
    KeyWithoutNewline(line, s, Leading(s, EQUALS), Strtok(s, EQUALS).word.value);
  }

  lemma ValueOfRest(rest: CString)
    requires Strtok(rest, NEWLINE).word.Some?
    ensures var value := Strtok(rest, NEWLINE).word.value; rest != [] && value != [] && NEWLINE !in value
  {
    StrtokShape(rest, NEWLINE);
  }

  lemma LineDefsShape(line: Bytes)
    requires forall i :: 0 <= i < |line| - 1 ==> line[i] != NEWLINE
    ensures forall d :: d in LineDefs(line) ==> DefShape(d)
  {
    if ParseLine(line).Some? {
      var key := Strtok(CStr(line), EQUALS);
      var value := Strtok(key.rest, NEWLINE);
      ValueOfRest(key.rest);
      KeyOfLine(line, CStr(line));
      ShapeOfWords(key.word.value, value.word.value);
    }
  }

  lemma {:induction false} FileDefsShape(data: Bytes)
    ensures forall d :: d in FileDefs(data) ==> DefShape(d)
    decreases |data|
  {
    if data != [] {
      var n := FgetsLength(data);
      forall i | 0 <= i < n - 1
        ensures data[..n][i] != NEWLINE
      {
        assert data[..IndexOf(data, NEWLINE)][i] == data[i];
      }
      LineDefsShape(data[..n]);
      FileDefsShape(data[n..]);
    }
  }

  /** A key and value with which a printed line can be read back. */
  predicate Printable(key: CString, value: CString) {
    && key != [] && EQUALS !in key && NEWLINE !in key && !CommentKey(key)
    && value != [] && NEWLINE !in value
  }

  lemma PrintedLineParses(key: CString, value: CString)
    requires Printable(key, value)
    requires CStr(PrintDef(key, value)) == PrintDef(key, value)
    ensures LineDefs(PrintDef(key, value)) == [(key + [0], value + [0])]
  {
    PrintedCommentIffKey(key, value);
    var rest: CString := value + [NEWLINE];
    assert PrintDef(key, value) == key + [EQUALS] + rest;
    StrtokOfJoined(key, EQUALS, rest);
    assert rest == value + [NEWLINE] + [];
    StrtokOfJoined(value, NEWLINE, []);
  }

  lemma OnlyPrintableParses(key: CString, value: CString, defs: seq<Entry>)
    requires |key| < NAME_MAX && |value| + 1 < VALUE_MAX
    requires defs == FileDefs(PrintDef(key, value)) && defs == [(key + [0], value + [0])]
    ensures Printable(key, value)
  {
    var d: Entry := (key + [0], value + [0]);
    FileDefsShape(PrintDef(key, value));
    assert d in defs;
    assert key == d.0[..|key|] && value == d.1[..|value|];
    PrintedIsOneRead(key, value);
    PrintedCommentIffKey(key, value);
  }

  /** For every pair that can be stored, a defaults file holding the line "key=value" defines that
      pair and nothing else, exactly when the key is non-empty, free of '=' and newline and does not
      read as a comment, and the value is non-empty and free of newline. '=' in the value is fine. */
  lemma ParseUndoesPrint(key: CString, value: CString)
    requires |key| < NAME_MAX && |value| + 1 < VALUE_MAX
    ensures FileDefs(PrintDef(key, value)) == [(key + [0], value + [0])] <==> Printable(key, value)
  {
    var defs := FileDefs(PrintDef(key, value));
    if Printable(key, value) {
      PrintedIsOneRead(key, value);
      PrintedLineParses(key, value);
    } else if defs == [(key + [0], value + [0])] {
      OnlyPrintableParses(key, value, defs);
    }
  }

  /** A file of printed pairs. */
  function PrintAll(pairs: seq<(CString, CString)>): CString {
    if pairs == [] then [] else PrintDef(pairs[0].0, pairs[0].1) + PrintAll(pairs[1..])
  }

  function StoredPairs(pairs: seq<(CString, CString)>): seq<Entry> {
    if pairs == [] then [] else [(pairs[0].0 + [0], pairs[0].1 + [0])] + StoredPairs(pairs[1..])
  }

  lemma FirstPrintedLine(key: CString, value: CString, rest: CString)
    requires |key| < NAME_MAX && |value| + 1 < VALUE_MAX && Printable(key, value)
    ensures FileDefs(PrintDef(key, value) + rest) == [(key + [0], value + [0])] + FileDefs(rest)
  {
    var line := PrintDef(key, value);
    var data := line + rest;
    assert data == (key + [EQUALS] + value) + [NEWLINE] + rest;
    IndexOfPrefix(key + [EQUALS] + value, NEWLINE, rest);
    assert FgetsLength(data) == |line|;
    assert data[..|line|] == line && data[|line|..] == rest;
    PrintedIsOneRead(key, value);
    PrintedLineParses(key, value);
  }

  /** A whole defaults file of printable pairs defines exactly those pairs, in order. */
  lemma {:induction false} FileParseUndoesPrint(pairs: seq<(CString, CString)>)
    requires forall p :: p in pairs ==> |p.0| < NAME_MAX && |p.1| + 1 < VALUE_MAX && Printable(p.0, p.1)
    ensures FileDefs(PrintAll(pairs)) == StoredPairs(pairs)
    decreases |pairs|
  {
    if pairs != [] {
      assert pairs[0] in pairs;
      FirstPrintedLine(pairs[0].0, pairs[0].1, PrintAll(pairs[1..]));
      FileParseUndoesPrint(pairs[1..]);
    }
  }

  // ---------------------------------------------------------------------------------------------
  // What any line means

  predicate BlankUpTo(text: Bytes, i: int) {
    0 <= i <= |text| && forall j :: 0 <= j < i ==> text[j] in {32, 9, 13, 10}
  }

  /** Nothing but spaces, tabs and line ends, or '#' after them. */
  ghost predicate CommentLine(text: Bytes) {
    exists i :: BlankUpTo(text, i) && (i == |text| || text[i] == 35)
  }

  lemma {:induction false} SpanIs(text: Bytes, i: nat)
    requires BlankUpTo(text, i) && (i < |text| ==> !IsBlank(text[i]))
    ensures BlankSpan(text) == i
  {
    if i > 0 {
      assert text[0] in {32, 9, 13, 10};
      assert forall j :: 0 <= j < |text| - 1 ==> text[1..][j] == text[j + 1];
      SpanIs(text[1..], i - 1);
    }
  }

  lemma CommentExactly(text: CString)
    ensures IsComment(text) <==> CommentLine(text)
  {
    var n := BlankSpan(text);
    assert BlankUpTo(text, n);
    if CommentLine(text) {
      var i :| BlankUpTo(text, i) && (i == |text| || text[i] == 35);
      SpanIs(text, i);
    }
  }

  lemma CommentWithNewline(text: CString)
    ensures CommentLine(text + [10]) <==> CommentLine(text)
  {
    var line: CString := text + [10];
    if CommentLine(line) {
      var i :| BlankUpTo(line, i) && (i == |line| || line[i] == 35);
      var k := if i <= |text| then i else |text|;
      assert forall j :: 0 <= j < |text| ==> text[j] == line[j];
      assert BlankUpTo(text, k) && (k == |text| || text[k] == 35);
    }
    if CommentLine(text) {
      var i :| BlankUpTo(text, i) && (i == |text| || text[i] == 35);
      var k := if i < |text| then i else |line|;
      assert BlankUpTo(line, k) && (k == |line| || line[k] == 35);
    }
  }

  /** Any number of '='. */
  function Equals(n: nat): (s: CString) {
    seq(n, i => 61)
  }

  /** The text is key=value, after any number of '='. */
  ghost predicate Reads(text: Bytes, key: CString, value: CString) {
    key != [] && 61 !in key && value != [] && exists n: nat :: text == Equals(n) + key + [61] + value
  }

  lemma LeadingEquals(n: nat, rest: CString)
    requires rest != [] && rest[0] != 61
    ensures Leading(Equals(n) + rest, 61) == n
  {
    var s := Equals(n) + rest;
    var k := Leading(s, 61);
    assert s[n] == rest[0];
    assert forall i :: 0 <= i < n ==> s[i] == 61;
  }

  /** The rest of a line behind its first '=' is its value, unless there is nothing before the newline. */
  lemma ValueToken(value: CString)
    requires 10 !in value
    ensures Strtok(value + [10], 10).word == if value == [] then None else Some(value)
  {
    if value == [] {
      assert Leading([10], 10) == 1;
    } else {
      assert value + [10] + [] == value + [10];
      StrtokOfJoined(value, 10, []);
    }
  }

  lemma KeyToken(text: CString, key: CString, value: CString)
    requires 10 !in text && Reads(text, key, value)
    ensures Strtok(text + [10], 61) == Token(Some(key), value + [10])
  {
    var n: nat :| text == Equals(n) + key + [61] + value;
    var rest: CString := key + [61] + (value + [10]);
    var s := text + [10];
    assert s == Equals(n) + rest && rest[0] == key[0];
    LeadingEquals(n, rest);
    assert s[n..] == rest;
    StrtokOfJoined(key, 61, value + [10]);
    assert Leading(rest, 61) == 0 && rest[0..] == rest;
  }

  lemma TakenApart(text: CString, n: nat, m: nat)
    requires n + m < |text| && text[n + m] == 61 && forall i :: 0 <= i < n ==> text[i] == 61
    ensures text == Equals(n) + text[n..n + m] + [61] + text[n + m + 1..]
  {
    assert text[..n] == Equals(n);
    assert text == text[..n] + text[n..n + m] + [text[n + m]] + text[n + m + 1..];
  }

  lemma Piece(s: CString, i: nat, j: nat)
    requires i <= j <= |s|
    ensures NulFree(s[i..j])
  {
    assert forall k :: 0 <= k < j - i ==> s[i..j][k] == s[i + k] && s[i + k] in s;
  }

  /** Where a token that is followed by its delimiter stands. */
  lemma TokenSpan(s: CString, token: Token) returns (n: nat, m: nat)
    requires token == Strtok(s, 61) && token.word.Some? && token.rest != []
    ensures n + m < |s| && s[n + m] == 61 && forall i :: 0 <= i < n ==> s[i] == 61
    ensures token.word.value == s[n..n + m] && 61 !in token.word.value && m > 0
    ensures token.rest == s[n + m + 1..]
  {
    n := Leading(s, 61);
    m := IndexOf(s[n..], 61);
    assert s[n..][0] == s[n] != 61;
    assert s[n..][m] == s[n + m];
  }

  /** What `strtok_r` finds in a line with something behind its key: a key and a value. */
  lemma TokensRead(text: CString, key: Token) returns (value: CString)
    requires 10 !in text && key == Strtok(text + [10], 61) && key.word.Some? && key.rest !in {[], [10]}
    ensures key.rest == value + [10] && Reads(text, key.word.value, value)
  {
    var n, m := TokenSpan(text + [10], key);
    value := ValueOfSpan(text, n, m);
    TakenApart(text, n, m);
    assert (text + [10])[n..n + m] == text[n..n + m];
  }

  lemma ValueOfSpan(text: CString, n: nat, m: nat) returns (value: CString)
    requires n + m < |text + [10]| && (text + [10])[n + m] == 61 && (forall i :: 0 <= i < n ==> (text + [10])[i] == 61)
    requires (text + [10])[n + m + 1..] != [10]
    ensures n + m < |text| && text[n + m] == 61 && forall i :: 0 <= i < n ==> text[i] == 61
    ensures value == text[n + m + 1..] != [] && (text + [10])[n + m + 1..] == value + [10]
  {
    var s: CString := text + [10];
    assert s[|text|] == 10 && s[n + m] == 61;
    assert forall i :: 0 <= i < |text| ==> text[i] == s[i];
    Piece(text, n + m + 1, |text|);
    value := text[n + m + 1..];
    assert s[n + m + 1..] == value + [10];
  }

  lemma LineTokens(text: CString)
    requires 10 !in text
    ensures var key := Strtok(text + [10], 61);
            var value := Strtok(key.rest, 10);
            LineDefs(text + [10])
            == if CommentLine(text) || key.word.None? || value.word.None? then []
               else [(key.word.value + [0], value.word.value + [0])]
  {
    var s: CString := text + [10];
    assert CStr(s) == s by {
      assert forall i :: 0 <= i < |s| ==> s[i] in s;
    }
    CommentExactly(s);
    CommentWithNewline(text);
  }

  lemma Unterminated(a: Bytes, b: Bytes)
    requires a + [0] == b + [0]
    ensures a == b
  {
    assert a == (a + [0])[..|a|] && b == (b + [0])[..|b|];
  }

  lemma PartsOfLine(text: CString, key: CString, value: CString)
    requires 10 !in text && Reads(text, key, value)
    ensures 10 !in value
  {
    var n: nat :| text == Equals(n) + key + [61] + value;
    assert forall c :: c in value ==> c in text;
  }

  lemma LineDefinesRead(text: CString, key: CString, value: CString)
    requires 10 !in text && !CommentLine(text) && Reads(text, key, value)
    ensures LineDefs(text + [10]) == [(key + [0], value + [0])]
  {
    LineTokens(text);
    PartsOfLine(text, key, value);
    KeyToken(text, key, value);
    ValueToken(value);
  }

  lemma NoValueInNewline(rest: CString)
    ensures rest in {[], [10]} ==> Strtok(rest, 10).word == None
  {
    ValueToken([]);
    assert [] + [10] == [10];
  }

  lemma TokensOfPair(text: CString, token: Token)
    requires 10 !in text && token == Strtok(text + [10], 61)
    requires token.word.Some? && Strtok(token.rest, 10).word.Some?
    ensures var value := Strtok(token.rest, 10).word.value;
            10 !in value && Reads(text, token.word.value, value)
  {
    NoValueInNewline(token.rest);
    assert token.rest !in {[], [10]};
    var value := TokensRead(text, token);
    PartsOfLine(text, token.word.value, value);
    ValueToken(value);
  }

  lemma SameEntry(k: Bytes, v: Bytes, key: Bytes, value: Bytes)
    requires (k + [0], v + [0]) == (key + [0], value + [0])
    ensures k == key && v == value
  {
    Unterminated(k, key);
    Unterminated(v, value);
  }

  /** What a line defines, for every line: a comment nothing; any other one the key and the value around
      its first '=' behind the leading ones, if neither is empty. */
  lemma LineMeaning(text: CString, key: CString, value: CString)
    requires 10 !in text
    ensures LineDefs(text + [10]) == [(key + [0], value + [0])] <==> !CommentLine(text) && Reads(text, key, value)
  {
    if LineDefs(text + [10]) == [(key + [0], value + [0])] {
      var token := Strtok(text + [10], 61);
      LineTokens(text);
      TokensOfPair(text, token);
      SameEntry(token.word.value, Strtok(token.rest, 10).word.value, key, value);
    } else if !CommentLine(text) && Reads(text, key, value) {
      LineDefinesRead(text, key, value);
    }
  }

  /** A comment, or a line without '='. */
  lemma OtherLine(text: CString)
    requires 10 !in text && (CommentLine(text) || 61 !in text)
    ensures LineDefs(text + [10]) == []
  {
    LineTokens(text);
    if 61 !in text {
      var s: CString := text + [10];
      assert s[0] != 61 by { assert s[0] in s; }
      assert Leading(s, 61) == 0 && s[0..] == s;
      assert IndexOf(s, 61) == |s|;
    }
  }

  /** One line is one read, whatever follows it. */
  lemma LineFirst(text: CString, rest: Bytes)
    requires 10 !in text && |text| <= 383
    ensures FileDefs(text + [10] + rest) == LineDefs(text + [10]) + FileDefs(rest)
  {
    var data := text + [10] + rest;
    IndexOfPrefix(text, 10, rest);
    assert FgetsLength(data) == |text| + 1;
    assert data[..|text| + 1] == text + [10] && data[|text| + 1..] == rest;
  }

  /** A line of a defaults file: a pair, or a line that defines nothing. */
  datatype Line = Pair(key: CString, value: CString) | Other(text: CString)

  function LineText(l: Line): CString {
    match l
    case Pair(key, value) => key + [61] + value
    case Other(text) => text
  }

  ghost predicate LineOk(l: Line) {
    && 10 !in LineText(l) && |LineText(l)| <= 383
    && match l
       case Pair(key, value) => key != [] && 61 !in key && value != [] && !CommentLine(LineText(l))
       case Other(text) => CommentLine(text) || 61 !in text
  }

  function PrintLines(lines: seq<Line>): Bytes {
    if lines == [] then [] else LineText(lines[0]) + [10] + PrintLines(lines[1..])
  }

  function PairsOf(lines: seq<Line>): seq<Entry> {
    if lines == [] then []
    else (if lines[0].Pair? then [(lines[0].key + [0], lines[0].value + [0])] else []) + PairsOf(lines[1..])
  }

  lemma LineDefines(l: Line)
    requires LineOk(l)
    ensures LineDefs(LineText(l) + [10]) == if l.Pair? then [(l.key + [0], l.value + [0])] else []
  {
    match l
    case Pair(key, value) =>
      assert LineText(l) == Equals(0) + key + [61] + value;
      assert Reads(LineText(l), key, value);
      LineMeaning(LineText(l), key, value);
    case Other(text) =>
      OtherLine(text);
  }

  /** A file of pairs mixed with comments, blank lines and lines without '=' defines exactly its pairs, in
      order. */
  lemma {:induction false} MixedFile(lines: seq<Line>)
    requires forall l :: l in lines ==> LineOk(l)
    ensures FileDefs(PrintLines(lines)) == PairsOf(lines)
    decreases |lines|
  {
    if lines != [] {
      assert lines[0] in lines;
      LineFirst(LineText(lines[0]), PrintLines(lines[1..]));
      LineDefines(lines[0]);
      MixedFile(lines[1..]);
    }
  }

  // ---------------------------------------------------------------------------------------------
  // Paths

  lemma {:induction false} AllDefsAppend(xs: seq<Bytes>, ys: seq<Bytes>, files: Files)
    ensures AllDefs(xs + ys, files) == AllDefs(xs, files) + AllDefs(ys, files)
    decreases |xs|
  {
    if xs == [] {
      assert xs + ys == ys;
    } else {
      assert (xs + ys)[1..] == xs[1..] + ys;
      AllDefsAppend(xs[1..], ys, files);
    }
  }

  lemma FirstPath(path: Bytes, behind: seq<Bytes>, files: Files)
    ensures AllDefs([path] + behind, files)
         == (if path in files then FileDefs(files[path]) else []) + AllDefs(behind, files)
  {
    assert ([path] + behind)[0] == path && ([path] + behind)[1..] == behind;
  }

  /** A path without a file is skipped, and the definitions of a readable one stand between those of the
      paths before it and those behind it. */
  lemma PathInOrder(before: seq<Bytes>, path: Bytes, behind: seq<Bytes>, files: Files)
    ensures AllDefs(before + ([path] + behind), files)
         == if path in files then AllDefs(before, files) + FileDefs(files[path]) + AllDefs(behind, files)
            else AllDefs(before, files) + AllDefs(behind, files)
  {
    FirstPath(path, behind, files);
    AllDefsAppend(before, [path] + behind, files);
    if path in files {
      Grouped(AllDefs(before, files), FileDefs(files[path]), AllDefs(behind, files));
    } else {
      Grouped([], [], AllDefs(behind, files));
    }
  }

  lemma Grouped(a: seq<Entry>, b: seq<Entry>, c: seq<Entry>)
    ensures a + (b + c) == a + b + c
  {
  }

  function JoinPaths(paths: seq<Bytes>): Bytes
    requires paths != []
  {
    if |paths| == 1 then paths[0] else paths[0] + [59] + JoinPaths(paths[1..])
  }

  predicate PathOk(p: Bytes) {
    59 !in p && |p| <= 255
  }

  lemma PathsOfOne(p: Bytes)
    requires p != [] && PathOk(p)
    ensures Paths(p) == [p]
  {
    assert IndexOf(p, SEMICOLON) == |p|;
  }

  lemma PathsOfFirst(p: Bytes, rest: Bytes)
    requires PathOk(p)
    ensures Paths(p + [59] + rest) == [p] + Paths(rest)
  {
    var source := p + [59] + rest;
    IndexOfPrefix(p, SEMICOLON, rest);
    assert source[..|p|] == p && source[|p| + 1..] == rest;
  }

  /** A path that does not fit the buffer is cut, unless it is the last one. */
  lemma LongPath(p: Bytes, rest: Bytes)
    requires 59 !in p && |p| > 255
    ensures Paths(p + [59] + rest) == [p[..255]] + Paths(rest)
    ensures Paths(p) == [p]
  {
    var source := p + [59] + rest;
    IndexOfPrefix(p, 59, rest);
    assert source[..255] == p[..255] && source[|p| + 1..] == rest;
    assert IndexOf(p, 59) == |p|;
  }

  /** Paths joined with ';' are found again, provided the last is not empty and they fit the path
      buffer. */
  lemma {:induction false} PathsOfJoined(paths: seq<Bytes>)
    requires paths != [] && paths[|paths| - 1] != []
    requires forall i :: 0 <= i < |paths| ==> PathOk(paths[i])
    ensures Paths(JoinPaths(paths)) == paths
    decreases |paths|
  {
    var p, rest := paths[0], paths[1..];
    assert paths == [p] + rest;
    if |paths| == 1 {
      PathsOfOne(p);
    } else {
      PathsOfJoined(rest);
      PathsOfFirst(p, JoinPaths(rest));
    }
  }
}
