/** Server mode and direct mode behave alike, and both as an environment laid over one map. */
module Refinement {
  import opened ByteStrings
  import opened Store
  import opened Protocol
  import opened ServerModel
  import opened StoreRuns
  import opened Api
  import Descriptors
  import Loader

  datatype Call = Call(op: Op, net: Net)

  type View = map<Bytes, Bytes>

  /** What a sequence of calls leaves behind, the answer of each call and the map after it. */
  datatype MapRun = MapRun(env: Env, view: View, answers: seq<Answer>, views: seq<View>)
  datatype DirectRun = DirectRun(env: Env, disk: Disk, answers: seq<Answer>, views: seq<View>)
  datatype RemoteRun = RemoteRun(env: Env, state: State, answers: seq<Answer>, views: seq<View>)

  function RunMap(temporary: bool, env: Env, view: View, ops: seq<Op>): MapRun
    decreases |ops|
  {
    if ops == [] then MapRun(env, view, [], [])
    else
      var m := MapOp(temporary, env, view, ops[0]);
      var rest := RunMap(temporary, m.env, m.view, ops[1..]);
      rest.(answers := [m.answer] + rest.answers, views := [m.view] + rest.views)
  }

  function RunDirect(temporary: bool, memoryOnly: bool, env: Env, disk: Disk, ops: seq<Op>): DirectRun
    decreases |ops|
  {
    if ops == [] then DirectRun(env, disk, [], [])
    else
      var d := DirectOp(temporary, memoryOnly, env, disk, ops[0]);
      var rest := RunDirect(temporary, memoryOnly, d.env, d.disk, ops[1..]);
      rest.(answers := [d.answer] + rest.answers, views := [Open(d.disk).View()] + rest.views)
  }

  /** Every call finds a free descriptor and a clock that moves forward. */
  ghost predicate CallsOk(cfg: Config, env: Env, s: State, calls: seq<Call>)
    decreases |calls|
  {
    calls == [] || (
      && NetOk(s, calls[0].net)
      && var r := RemoteOp(cfg, env, s, calls[0].net, calls[0].op);
         CallsOk(cfg, r.env, r.state, calls[1..]))
  }

  ghost function RunRemote(cfg: Config, env: Env, s: State, calls: seq<Call>): RemoteRun
    requires CallsOk(cfg, env, s, calls)
    decreases |calls|
  {
    if calls == [] then RemoteRun(env, s, [], [])
    else
      var r := RemoteOp(cfg, env, s, calls[0].net, calls[0].op);
      var rest := RunRemote(cfg, r.env, r.state, calls[1..]);
      rest.(answers := [r.answer] + rest.answers, views := [r.state.stores.View()] + rest.views)
  }

  function Ops(calls: seq<Call>): (ops: seq<Op>)
    ensures |ops| == |calls|
  {
    if calls == [] then [] else [calls[0].op] + Ops(calls[1..])
  }

  lemma {:induction false} DirectRunsAsMap(temporary: bool, env: Env, disk: Disk, ops: seq<Op>)
    requires DiskOk(temporary, disk)
    ensures var d := RunDirect(temporary, false, env, disk, ops);
            var m := RunMap(temporary, env, Open(disk).View(), ops);
            && DiskOk(temporary, d.disk)
            && d.env == m.env && Open(d.disk).View() == m.view
            && d.answers == m.answers && d.views == m.views
    decreases |ops|
  {
    if ops != [] {
      DirectIsMap(temporary, env, disk, ops[0]);
      var d := DirectOp(temporary, false, env, disk, ops[0]);
      DirectRunsAsMap(temporary, d.env, d.disk, ops[1..]);
    }
  }

  lemma RemoteKeepsOwned(cfg: Config, env: Env, s: State, net: Net, op: Op)
    requires Owned(cfg, s) && NetOk(s, net)
    ensures Owned(cfg, RemoteOp(cfg, env, s, net, op).state)
  {
    if Asks(env, op) {
      var request := Encoded(op);
      EventIsValid(cfg, s, net, request);
      Descriptors.StepOwnership(cfg, s, EventFor(net, request));
    }
  }

  /** Every request has the effect that was meant, as long as all before it had. */
  predicate RequestsArrive(temporary: bool, env: Env, view: View, calls: seq<Call>)
    decreases |calls|
  {
    calls == [] || (
      && RequestArrives(temporary, env, view, calls[0].net, calls[0].op)
      && var m := MapOp(temporary, env, view, calls[0].op);
         RequestsArrive(temporary, m.env, m.view, calls[1..]))
  }

  /** Every answer is the one that was meant. */
  predicate AnswersArrive(temporary: bool, env: Env, view: View, calls: seq<Call>)
    decreases |calls|
  {
    calls == [] || (
      && AnswerArrives(temporary, env, view, calls[0].net, calls[0].op)
      && var m := MapOp(temporary, env, view, calls[0].op);
         AnswersArrive(temporary, m.env, m.view, calls[1..]))
  }

  /** A run through the server against the reference. */
  ghost predicate RunServes(cfg: Config, r: RemoteRun, m: MapRun, requests: bool, answers: bool) {
    && StoreInvariant(cfg, r.state.stores) && r.env == m.env
    && (r.views == m.views <==> requests)
    && (requests ==> r.state.stores.View() == m.view && (r.answers == m.answers <==> answers))
  }

  lemma ConsEqual<T>(x: T, xs: seq<T>, y: T, ys: seq<T>)
    ensures [x] + xs == [y] + ys <==> x == y && xs == ys
  {
    var a, b := [x] + xs, [y] + ys;
    assert a[0] == x && b[0] == y && a[1..] == xs && b[1..] == ys;
  }

  /** One more call before a run whose first request arrived. */
  lemma RunServesCons(cfg: Config, a: Answer, b: Answer, view: View, r: RemoteRun, m: MapRun,
                      requests: bool, answers: bool)
    requires RunServes(cfg, r, m, requests, answers)
    ensures RunServes(cfg, r.(answers := [a] + r.answers, views := [view] + r.views),
                      m.(answers := [b] + m.answers, views := [view] + m.views), requests, a == b && answers)
  {
    ConsEqual(a, r.answers, b, m.answers);
    ConsEqual(view, r.views, view, m.views);
  }

  /** One more call before a run, if its request did not arrive. */
  lemma RunDiverges(cfg: Config, a: Answer, b: Answer, view: View, meant: View, r: RemoteRun, m: MapRun, answers: bool)
    requires StoreInvariant(cfg, r.state.stores) && r.env == m.env && view != meant
    ensures RunServes(cfg, r.(answers := [a] + r.answers, views := [view] + r.views),
                      m.(answers := [b] + m.answers, views := [meant] + m.views), false, answers)
  {
    ConsEqual(view, r.views, meant, m.views);
  }

  /** The environment does not depend on the map. */
  lemma {:induction false} EnvAlone(temporary: bool, env: Env, a: View, b: View, ops: seq<Op>)
    ensures RunMap(temporary, env, a, ops).env == RunMap(temporary, env, b, ops).env
    decreases |ops|
  {
    if ops != [] {
      var x, y := MapOp(temporary, env, a, ops[0]), MapOp(temporary, env, b, ops[0]);
      EnvAlone(temporary, x.env, x.view, y.view, ops[1..]);
    }
  }

  /** One call, as plain values. */
  lemma RemoteCall(cfg: Config, env: Env, s: State, net: Net, op: Op) returns (r: RemoteResult)
    requires Owned(cfg, s) && StoreInvariant(cfg, s.stores) && NetOk(s, net)
    ensures r == RemoteOp(cfg, env, s, net, op)
    ensures Owned(cfg, r.state) && StoreInvariant(cfg, r.state.stores)
    ensures var view := s.stores.View();
            var m := MapOp(cfg.temporary, env, view, op);
            && r.env == m.env
            && (r.state.stores.View() == m.view <==> RequestArrives(cfg.temporary, env, view, net, op))
            && (r.answer == m.answer <==> AnswerArrives(cfg.temporary, env, view, net, op))
  {
    r := RemoteOp(cfg, env, s, net, op);
    RemoteIsMap(cfg, env, s, net, op);
    RemoteKeepsOwned(cfg, env, s, net, op);
  }

  lemma {:induction false} RemoteRunsAsMap(cfg: Config, env: Env, s: State, calls: seq<Call>)
    requires Owned(cfg, s) && StoreInvariant(cfg, s.stores) && CallsOk(cfg, env, s, calls)
    ensures RunServes(cfg, RunRemote(cfg, env, s, calls), RunMap(cfg.temporary, env, s.stores.View(), Ops(calls)),
                      RequestsArrive(cfg.temporary, env, s.stores.View(), calls),
                      AnswersArrive(cfg.temporary, env, s.stores.View(), calls))
    decreases |calls|
  {
    if calls != [] {
      var r := RemoteCall(cfg, env, s, calls[0].net, calls[0].op);
      var m := MapOp(cfg.temporary, env, s.stores.View(), calls[0].op);
      var view := r.state.stores.View();
      var rest, meant := RunRemote(cfg, r.env, r.state, calls[1..]), RunMap(cfg.temporary, m.env, m.view, Ops(calls[1..]));
      RemoteRunsAsMap(cfg, r.env, r.state, calls[1..]);
      assert Ops(calls)[1..] == Ops(calls[1..]);
      if view == m.view {
        RunServesCons(cfg, r.answer, m.answer, view, rest, meant,
                      RequestsArrive(cfg.temporary, m.env, m.view, calls[1..]),
                      AnswersArrive(cfg.temporary, m.env, m.view, calls[1..]));
      } else {
        EnvAlone(cfg.temporary, m.env, view, m.view, Ops(calls[1..]));
        RunDiverges(cfg, r.answer, m.answer, view, m.view, rest, meant, AnswersArrive(cfg.temporary, env, s.stores.View(), calls));
      }
    }
  }

  /** Equal environments; equal databases after every call, and at the end, exactly when the requests
      arrive; and then equal answers exactly when the answers arrive. */
  predicate Agree(r: RemoteRun, d: DirectRun, requests: bool, answers: bool) {
    && r.env == d.env
    && (r.views == d.views <==> requests)
    && (requests ==> d.disk == Disk(r.state.stores.persist.cur, r.state.stores.mem.cur))
    && (requests ==> (r.answers == d.answers <==> answers))
  }

  lemma RunsAgree(cfg: Config, r: RemoteRun, d: DirectRun, m: MapRun, requests: bool, answers: bool)
    requires RunServes(cfg, r, m, requests, answers) && DiskOk(cfg.temporary, d.disk)
    requires d.env == m.env && Open(d.disk).View() == m.view && d.answers == m.answers && d.views == m.views
    ensures Agree(r, d, requests, answers)
  {
    if requests {
      SameViewSameDatabases(Open(d.disk), r.state.stores);
    }
  }

  /** Server mode refines direct mode: from equal databases and environments, any sequence of sets,
      gets and deletes leaves equal databases after every call exactly when the requests arrive, in
      whatever pieces, whatever the monitors notified and the commits made on the way; it then gives
      equal answers exactly when the answers arrive. The environments are equal in any case. */
  lemma ServerRefinesDirect(cfg: Config, env: Env, s: State, disk: Disk, calls: seq<Call>)
    requires Owned(cfg, s) && StoreInvariant(cfg, s.stores) && CallsOk(cfg, env, s, calls)
    requires disk == Disk(s.stores.persist.cur, s.stores.mem.cur)
    ensures Agree(RunRemote(cfg, env, s, calls), RunDirect(cfg.temporary, false, env, disk, Ops(calls)),
                  RequestsArrive(cfg.temporary, env, s.stores.View(), calls),
                  AnswersArrive(cfg.temporary, env, s.stores.View(), calls))
  {
    RemoteRunsAsMap(cfg, env, s, calls);
    DirectRunsAsMap(cfg.temporary, env, disk, Ops(calls));
    var view := s.stores.View();
    assert Open(disk).View() == view;
    RunsAgree(cfg, RunRemote(cfg, env, s, calls), RunDirect(cfg.temporary, false, env, disk, Ops(calls)),
              RunMap(cfg.temporary, env, view, Ops(calls)), RequestsArrive(cfg.temporary, env, view, calls),
              AnswersArrive(cfg.temporary, env, view, calls));
  }

  lemma SameViewSameDatabases(a: Stores, b: Stores)
    requires WellFormed(a) && WellFormed(b) && a.View() == b.View()
    ensures a.persist.cur == b.persist.cur && a.mem.cur == b.mem.cur
  {
    Loader.ViewDetermines(a, b);
  }

  // ---------------------------------------------------------------------------------------------
  // A temporary database without a file

  /** Direct mode answers as the reference does, for all inputs. */
  ghost predicate DirectAgrees(temporary: bool, memoryOnly: bool) {
    forall env: Env, disk: Disk, ops: seq<Op> | DiskOk(temporary, disk) && (memoryOnly ==> disk.mem == map[]) ::
      RunDirect(temporary, memoryOnly, env, disk, ops).answers == RunMap(temporary, env, Open(disk).View(), ops).answers
  }

  /** "a" */
  const KEY_A: CString := [97]
  const FORGOTTEN: seq<Op> := [SetOp(KEY_A, [49]), GetOp(KEY_A, None)]

  /** With the temporary database kept in memory, a direct set is lost when the call closes it. */
  lemma DirectForgets()
    ensures RunDirect(true, true, map[], Disk(map[], map[]), FORGOTTEN).answers
         != RunMap(true, map[], map[], FORGOTTEN).answers
  {
    var empty := Disk(map[], map[]);
    var k := Stored(KEY_A);
    assert k == [97, 0] && !IsPersistent(k) && !IsReadOnly(k);
    var ops: seq<Op> := FORGOTTEN;
    assert ops[1..] == [GetOp(KEY_A, None)] && ops[1..][1..] == [];
    var d := DirectOp(true, true, map[], empty, ops[0]);
    assert d.disk == empty && d.env == map[];
    assert RunDirect(true, true, map[], empty, ops[1..]).answers[0] == Answer(-EINVAL, None);
    assert RunDirect(true, true, map[], empty, ops).answers[1] == Answer(-EINVAL, None);
    var m := MapOp(true, map[], map[], ops[0]);
    assert [49] + [0] == [49, 0];
    assert m.view == map[k := [49] + [0]];
    assert Text(m.view, KEY_A).Some?;
    assert RunMap(true, m.env, m.view, ops[1..]).answers[0] != Answer(-EINVAL, None);
    assert RunMap(true, map[], map[], ops).answers[1] != Answer(-EINVAL, None);
  }

  lemma {:induction false} UnusedTemporary(env: Env, disk: Disk, ops: seq<Op>, memoryOnly: bool)
    requires DiskOk(false, disk)
    ensures RunDirect(false, memoryOnly, env, disk, ops) == RunDirect(false, false, env, disk, ops)
    decreases |ops|
  {
    if ops != [] {
      DirectIsMap(false, env, disk, ops[0]);
      var d := DirectOp(false, false, env, disk, ops[0]);
      assert DirectOp(false, memoryOnly, env, disk, ops[0]) == d;
      UnusedTemporary(d.env, d.disk, ops[1..], memoryOnly);
    }
  }

  /** Direct mode is the reference map, and so agrees with server mode, exactly when the temporary
      database is absent or has a file. */
  lemma DirectAgreesIff(temporary: bool, memoryOnly: bool)
    ensures DirectAgrees(temporary, memoryOnly) <==> !(temporary && memoryOnly)
  {
    if temporary && memoryOnly {
      DirectForgets();
      var env: Env, disk, ops := map[], Disk(map[], map[]), FORGOTTEN;
      assert DiskOk(true, disk) && Open(disk).View() == map[];
      assert RunDirect(true, true, env, disk, ops).answers != RunMap(true, env, Open(disk).View(), ops).answers;
    } else {
      forall env: Env, disk: Disk, ops: seq<Op> | DiskOk(temporary, disk)
        ensures RunDirect(temporary, memoryOnly, env, disk, ops).answers
             == RunMap(temporary, env, Open(disk).View(), ops).answers
      {
        DirectRunsAsMap(temporary, env, disk, ops);
        if !temporary {
          UnusedTemporary(env, disk, ops, memoryOnly);
        }
      }
    }
  }

  // ---------------------------------------------------------------------------------------------
  // The environment shadows the databases

  /** What a reader sees under a key: the environment entry if there is one, else the stored string. */
  function Visible(env: Env, view: map<Bytes, Bytes>, key: CString): Option<CString> {
    if key in env then Some(env[key]) else Text(view, key)
  }

  lemma StoredInjective(a: CString, b: CString)
    requires Stored(a) == Stored(b)
    ensures a == b
  {
    assert a == Stored(a)[..|a|] && b == Stored(b)[..|b|];
  }

  /** The code of a set, for all names and values: what the environment holds can always be set; a name
      has at most 126 bytes and a value at most 253; a name outside "persist." needs a temporary
      database; and only a stored "ro." name is refused. */
  lemma SetCodeExactly(temporary: bool, env: Env, view: map<Bytes, Bytes>, key: CString, value: CString)
    ensures MapOp(temporary, env, view, SetOp(key, value)).answer.code
         == (if key in env then 0
             else if |key| > 126 || |value| > 253 then -7
             else if !temporary && !([112, 101, 114, 115, 105, 115, 116, 46] <= key) then -22
             else if [114, 111, 46] <= key && key + [0] in view then -1
             else 0)
  {
    PrefixOfStored([112, 101, 114, 115, 105, 115, 116, 46], key);
    PrefixOfStored([114, 111, 46], key);
  }

  /** What a get answers: from the environment a text of at most 254 bytes; from the store the text, which
      is shorter, for a name of at most 126 bytes; and otherwise the default, or -EINVAL without one. */
  lemma GetAnswerExactly(temporary: bool, env: Env, view: map<Bytes, Bytes>, key: CString, fallback: Option<CString>)
    ensures MapOp(temporary, env, view, GetOp(key, fallback)).answer
         == (var text := if key in env then Some(env[key])
                         else if |key| <= 126 && key + [0] in view && view[key + [0]] != [] then
                           Some(CStr(view[key + [0]] + [0]))
                         else None;
             if text.Some? && |text.value| <= 254 then Answer(|text.value|, text)
             else if text.Some? then Answer(-7, None)
             else if fallback.Some? then Answer(|fallback.value|, fallback)
             else Answer(-22, None))
  {
  }

  lemma DeleteCodeExactly(temporary: bool, env: Env, view: map<Bytes, Bytes>, key: CString)
    ensures MapOp(temporary, env, view, DeleteOp(key)).answer.code
         == (if |key| > 126 then -7
             else if key in env then 0
             else if [114, 111, 46] <= key then -1
             else if !temporary && !([112, 101, 114, 115, 105, 115, 116, 46] <= key) then -22
             else if key + [0] !in view then -6
             else 0)
  {
    PrefixOfStored([112, 101, 114, 115, 105, 115, 116, 46], key);
    PrefixOfStored([114, 111, 46], key);
  }

  /** A label without NUL starts a stored key exactly when it starts the name. */
  lemma PrefixOfStored(start: CString, key: CString)
    ensures start <= key + [0] <==> start <= key
  {
    assert |start| > |key| ==> start[|key|] in start && (key + [0])[|key|] == 0;
  }

  /** A successful set makes exactly its key read as the value; a failed one changes nothing. */
  lemma SetIsVisible(temporary: bool, env: Env, view: map<Bytes, Bytes>, key: CString, value: CString, k: CString)
    ensures var m := MapOp(temporary, env, view, SetOp(key, value));
            && (m.answer.code == 0 ==> Visible(m.env, m.view, k) == if k == key then Some(value) else Visible(env, view, k))
            && (m.answer.code != 0 ==> m.env == env && m.view == view)
  {
    if Stored(k) == Stored(key) {
      StoredInjective(k, key);
    }
    CStrOfTerminated(value, [0]);
  }

  /** A successful delete of a shadowing entry uncovers the stored value, any other one removes the
      stored value; other keys never change. */
  lemma DeleteUncovers(temporary: bool, env: Env, view: map<Bytes, Bytes>, key: CString, k: CString)
    ensures var m := MapOp(temporary, env, view, DeleteOp(key));
            && (m.answer.code == 0 ==>
                  Visible(m.env, m.view, k)
                  == if k != key then Visible(env, view, k) else if key in env then Text(view, key) else None)
            && (m.answer.code != 0 ==> m.env == env && m.view == view)
  {
    if Stored(k) == Stored(key) {
      StoredInjective(k, key);
    }
  }

  /** A get answers with what is visible, provided the name fits; a text too long for the buffer is
      refused, and the default stands in for a key that is not visible. It changes nothing. */
  lemma GetReadsVisible(temporary: bool, env: Env, view: map<Bytes, Bytes>, key: CString, fallback: Option<CString>)
    requires !LongName(key)
    ensures var m := MapOp(temporary, env, view, GetOp(key, fallback));
            var seen := Visible(env, view, key);
            && m.env == env && m.view == view
            && m.answer == (if seen.Some? && |seen.value| < VALUE_MAX then Answer(|seen.value|, seen)
                            else if seen.Some? then Answer(-E2BIG, None)
                            else if fallback.Some? then Answer(|fallback.value|, fallback)
                            else Answer(-EINVAL, None))
  {
  }

  /** A set that succeeds is read back, in both modes, until a later set or delete of the same key. */
  lemma {:induction false} SetThenGet(temporary: bool, env: Env, view: map<Bytes, Bytes>, key: CString, value: CString,
                                      between: seq<Op>)
    requires !LongName(key) && |value| < VALUE_MAX
    requires forall op :: op in between ==> op.GetOp? || op.key != key
    requires Visible(env, view, key) == Some(value)
    ensures var m := RunMap(temporary, env, view, between);
            MapOp(temporary, m.env, m.view, GetOp(key, None)).answer == Answer(|value|, Some(value))
    decreases |between|
  {
    if between == [] {
      GetReadsVisible(temporary, env, view, key, None);
    } else {
      var op := between[0];
      assert op in between;
      match op {
        case SetOp(k, v) => SetIsVisible(temporary, env, view, k, v, key);
        case DeleteOp(k) => DeleteUncovers(temporary, env, view, k, key);
        case GetOp(_, _) =>
      }
      var m := MapOp(temporary, env, view, op);
      SetThenGet(temporary, m.env, m.view, key, value, between[1..]);
    }
  }

  /** A set that is allowed is read back whole: the name is in the environment, or is short enough, has a
      database and is not a stored "ro." name. */
  lemma WriteThenRead(temporary: bool, env: Env, view: map<Bytes, Bytes>, key: CString, value: CString, between: seq<Op>)
    requires |key| <= 126 && |value| <= 253
    requires temporary || key in env || [112, 101, 114, 115, 105, 115, 116, 46] <= key
    requires key in env || !([114, 111, 46] <= key) || key + [0] !in view
    requires forall op :: op in between ==> op.GetOp? || op.key != key
    ensures var m := RunMap(temporary, env, view, [SetOp(key, value)] + between);
            && m.answers[0] == Answer(0, None)
            && MapOp(temporary, m.env, m.view, GetOp(key, None)).answer == Answer(|value|, Some(value))
  {
    SetCodeExactly(temporary, env, view, key, value);
    SetIsVisible(temporary, env, view, key, value, key);
    var m := MapOp(temporary, env, view, SetOp(key, value));
    SetThenGet(temporary, m.env, m.view, key, value, between);
    assert ([SetOp(key, value)] + between)[1..] == between;
  }
}
