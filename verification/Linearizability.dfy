/** Any number of clients, any interleaving: each completed call takes effect at one point between
    its invocation and its return. */
module Linearizability {
  import opened ByteStrings
  import opened Store
  import opened Loader
  import opened Protocol
  import opened ServerModel
  import opened StoreRuns
  import opened Api
  import Refinement
  import Descriptors

  /** A client that is not in the table is between calls. */
  datatype Phase = Waiting(op: Op) | Answered(op: Op, answer: Answer)

  datatype System = System(server: State, phases: map<int, Phase>)

  /** A client calls, the server serves its request, the client returns; and the server's loop takes
      any other turn: commits, reloads, lists, monitors, hang-ups, and ill-formed requests. */
  datatype Act =
    | Invoke(client: int, op: Op)
    | Serve(client: int, net: Net)
    | Return(client: int, answer: Answer)
    | Other(e: Event)

  ghost predicate ValidAct(cfg: Config, y: System, a: Act) {
    match a
    case Invoke(c, _) => c !in y.phases
    case Serve(c, net) => c in y.phases && y.phases[c].Waiting? && NetOk(y.server, net)
    case Return(c, answer) => c in y.phases && y.phases[c].Answered? && y.phases[c].answer == answer
    case Other(e) => !e.Reboot? && ValidEvent(cfg, y.server, e)
  }

  ghost function Act1(cfg: Config, y: System, a: Act): System
    requires ValidAct(cfg, y, a)
  {
    match a
    case Invoke(c, op) => y.(phases := y.phases[c := Waiting(op)])
    case Serve(c, net) =>
      var op := y.phases[c].op;
      var r := RemoteOp(cfg, map[], y.server, net, op);
      System(r.state, y.phases[c := Answered(op, r.answer)])
    case Return(c, _) => y.(phases := y.phases - {c})
    case Other(e) => y.(server := Step(cfg, y.server, e))
  }

  ghost predicate ValidActs(cfg: Config, s: State, acts: seq<Act>)
    decreases |acts|, 0
  {
    acts == [] || (
      var n := |acts| - 1;
      ValidActs(cfg, s, acts[..n]) && ValidAct(cfg, After(cfg, s, acts[..n]), acts[n]))
  }

  /** The system after a sequence of acts, from a server without pending calls. */
  ghost function After(cfg: Config, s: State, acts: seq<Act>): System
    requires ValidActs(cfg, s, acts)
    decreases |acts|, 1
  {
    if acts == [] then System(s, map[])
    else
      var n := |acts| - 1;
      Act1(cfg, After(cfg, s, acts[..n]), acts[n])
  }

  /** One step of the sequential object: a client's call, with the request that was served for it and the
      answer it got, or another request. */
  datatype Item = Did(op: Op, served: Request, answer: Answer) | Elsewhere(req: Request, files: Files)

  /** The request served for a call; none if the client's own checks refuse it. */
  function ServedFor(net: Net, op: Op): Request {
    if Asks(map[], op) then RequestFor(net, op) else Ignored
  }

  /** What an act adds to the history. */
  ghost function HistoryOf(cfg: Config, y: System, a: Act): seq<Item>
    requires ValidAct(cfg, y, a)
  {
    match a
    case Serve(c, net) =>
      var op := y.phases[c].op;
      [Did(op, ServedFor(net, op), RemoteOp(cfg, map[], y.server, net, op).answer)]
    case Other(e) => [Elsewhere(RequestOf(e), WorldOf(e).files)]
    case _ => []
  }

  /** The requests in the order they were served, each call with the answer given. */
  ghost function History(cfg: Config, s: State, acts: seq<Act>): seq<Item>
    requires ValidActs(cfg, s, acts)
    decreases |acts|
  {
    if acts == [] then []
    else
      var n := |acts| - 1;
      History(cfg, s, acts[..n]) + HistoryOf(cfg, After(cfg, s, acts[..n]), acts[n])
  }

  // ---------------------------------------------------------------------------------------------
  // The sequential object: one map

  /** A forced load as seen by one map: each valid definition overrides. */
  function ReloadView(temporary: bool, view: map<Bytes, Bytes>, defs: seq<Entry>): map<Bytes, Bytes>
    decreases |defs|
  {
    if defs == [] then view
    else ReloadView(temporary, if ValidDef(temporary, defs[0]) then view[defs[0].0 := defs[0].1] else view, defs[1..])
  }

  function ItemView(cfg: Config, view: map<Bytes, Bytes>, item: Item): map<Bytes, Bytes> {
    match item
    case Did(_, served, _) => RequestView(cfg.temporary, view, served)
    case Elsewhere(req, files) =>
      if req.Reload? then ReloadView(cfg.temporary, view, AllDefs(Paths(cfg.source), files))
      else RequestView(cfg.temporary, view, req)
  }

  function ViewAfter(cfg: Config, view: map<Bytes, Bytes>, h: seq<Item>): map<Bytes, Bytes> {
    if h == [] then view else ItemView(cfg, ViewAfter(cfg, view, h[..|h| - 1]), h[|h| - 1])
  }

  /** The call does to the map and answers what the reference would. */
  predicate Fulfilled(temporary: bool, now: map<Bytes, Bytes>, op: Op, after: map<Bytes, Bytes>, answer: Answer) {
    var m := MapOp(temporary, map[], now, op);
    after == m.view && answer == m.answer
  }

  /** Every call is fulfilled, items taken one after the other on one map. */
  predicate Legal(cfg: Config, view: map<Bytes, Bytes>, h: seq<Item>) {
    h == [] || (
      var n := |h| - 1;
      var now := ViewAfter(cfg, view, h[..n]);
      && Legal(cfg, view, h[..n])
      && (h[n].Did? ==> Fulfilled(cfg.temporary, now, h[n].op, ItemView(cfg, now, h[n]), h[n].answer)))
  }

  predicate AddsItem(a: Act) {
    a.Serve? || a.Other?
  }

  /** How many items precede act `k`: the position in the history of the call served at `k`. */
  function ServedBefore(acts: seq<Act>, k: nat): nat
    requires k <= |acts|
  {
    if k == 0 then 0 else ServedBefore(acts, k - 1) + if AddsItem(acts[k - 1]) then 1 else 0
  }

  lemma {:induction false} ServedBeforeMonotone(acts: seq<Act>, a: nat, b: nat)
    requires a <= b <= |acts|
    ensures ServedBefore(acts, a) <= ServedBefore(acts, b)
    ensures a < b && AddsItem(acts[a]) ==> ServedBefore(acts, a) < ServedBefore(acts, b)
    decreases b - a
  {
    if a < b {
      ServedBeforeMonotone(acts, a, b - 1);
    }
  }

  lemma {:induction false} ServedBeforePrefix(acts: seq<Act>, n: nat, k: nat)
    requires k <= n <= |acts|
    ensures ServedBefore(acts[..n], k) == ServedBefore(acts, k)
  {
    if k > 0 {
      ServedBeforePrefix(acts, n, k - 1);
    }
  }

  // ---------------------------------------------------------------------------------------------
  // The server side: the store is the map of the history

  lemma {:induction false} ReloadOnView(temporary: bool, st: Stores, defs: seq<Entry>)
    requires WellFormed(st)
    ensures ApplyDefs(temporary, st, defs, true).View() == ReloadView(temporary, st.View(), defs)
    decreases |defs|
  {
    if defs != [] {
      SetOnView(temporary, st, defs[0].0, defs[0].1, true);
      SetKeepsWellFormed(temporary, st, defs[0].0, defs[0].1, true);
      ReloadOnView(temporary, ApplyDef(temporary, st, defs[0], true), defs[1..]);
    }
  }

  lemma CommitOnView(temporary: bool, st: Stores, codes: CommitCodes)
    ensures KvCommit(temporary, st, codes).stores.View() == st.View()
  {
  }

  lemma LoadOnView(cfg: Config, st: Stores, files: Files, codes: CommitCodes)
    requires StoreInvariant(cfg, st)
    ensures Load(cfg.temporary, st, cfg.source, files, true, codes).View()
         == ReloadView(cfg.temporary, st.View(), AllDefs(Paths(cfg.source), files))
  {
    var defs := AllDefs(Paths(cfg.source), files);
    ReloadOnView(cfg.temporary, st, defs);
    CommitOnView(cfg.temporary, ApplyDefs(cfg.temporary, st, defs, true), codes);
  }

  lemma RequestOnView(cfg: Config, st: Stores, req: Request, w: World)
    requires StoreInvariant(cfg, st)
    ensures StoresAfter(cfg, st, req, w).View() == ItemView(cfg, st.View(), Elsewhere(req, w.files))
  {
    match req
    case Set(_, _) => ServedOnView(cfg, st, req, w);
    case Delete(_) => ServedOnView(cfg, st, req, w);
    case Commit => CommitOnView(cfg.temporary, st, w.codes);
    case Reload => LoadOnView(cfg, st, w.files, w.codes);
    case _ =>
  }

  lemma OtherOnView(cfg: Config, s: State, e: Event)
    requires ValidEvent(cfg, s, e) && !e.Reboot? && StoreInvariant(cfg, s.stores)
    ensures Step(cfg, s, e).stores.View() == ItemView(cfg, s.stores.View(), Elsewhere(RequestOf(e), WorldOf(e).files))
  {
    StepStores(cfg, s, e);
    TopStores(cfg, s, e);
    TopKeepsInvariant(cfg, s, e);
    RequestOnView(cfg, AtTop(cfg, s, e).stores, RequestOf(e), WorldOf(e));
  }

  ghost predicate ServerInv(cfg: Config, s: State, view: map<Bytes, Bytes>) {
    Owned(cfg, s) && StoreInvariant(cfg, s.stores) && s.stores.View() == view
  }

  /** Request and answer arrive. */
  predicate CallArrives(cfg: Config, view: map<Bytes, Bytes>, net: Net, op: Op) {
    RequestArrives(cfg.temporary, map[], view, net, op) && AnswerArrives(cfg.temporary, map[], view, net, op)
  }

  lemma ServeFollows(cfg: Config, y: System, c: int, net: Net, view: map<Bytes, Bytes>)
    requires ValidAct(cfg, y, Serve(c, net)) && ServerInv(cfg, y.server, view)
    ensures var op := y.phases[c].op;
            var item := HistoryOf(cfg, y, Serve(c, net))[0];
            && item.Did? && item.op == op
            && ServerInv(cfg, Act1(cfg, y, Serve(c, net)).server, ItemView(cfg, view, item))
            && (Fulfilled(cfg.temporary, view, op, ItemView(cfg, view, item), item.answer)
                <==> CallArrives(cfg, view, net, op))
  {
    RemoteOnView(cfg, map[], y.server, net, y.phases[c].op);
    var _ := Refinement.RemoteCall(cfg, map[], y.server, net, y.phases[c].op);
  }

  lemma OtherFollows(cfg: Config, s: State, e: Event, view: map<Bytes, Bytes>)
    requires ValidEvent(cfg, s, e) && !e.Reboot? && ServerInv(cfg, s, view)
    ensures ServerInv(cfg, Step(cfg, s, e), ItemView(cfg, view, Elsewhere(RequestOf(e), WorldOf(e).files)))
  {
    OtherOnView(cfg, s, e);
    StepKeepsInvariant(cfg, s, e);
    Descriptors.StepOwnership(cfg, s, e);
  }

  lemma LegalSnoc(cfg: Config, view: map<Bytes, Bytes>, h: seq<Item>, item: Item, now: map<Bytes, Bytes>)
    requires now == ViewAfter(cfg, view, h)
    ensures Legal(cfg, view, h + [item])
       <==> Legal(cfg, view, h)
            && (item.Did? ==> Fulfilled(cfg.temporary, now, item.op, ItemView(cfg, now, item), item.answer))
    ensures ViewAfter(cfg, view, h + [item]) == ItemView(cfg, now, item)
  {
    var h1 := h + [item];
    var n := |h1| - 1;
    assert h1[..n] == h && h1[n] == item;
  }

  /** The call served by an act is fulfilled as far as the pieces of its messages go. */
  ghost predicate ActArrives(cfg: Config, y: System, a: Act)
    requires ValidAct(cfg, y, a)
  {
    a.Serve? ==> CallArrives(cfg, y.server.stores.View(), a.net, y.phases[a.client].op)
  }

  ghost predicate ActsArrive(cfg: Config, s: State, acts: seq<Act>)
    requires ValidActs(cfg, s, acts)
    decreases |acts|
  {
    acts == [] || (
      var n := |acts| - 1;
      ActsArrive(cfg, s, acts[..n]) && ActArrives(cfg, After(cfg, s, acts[..n]), acts[n]))
  }

  /** The server holds the map of the history, and the history is legal exactly when every request and
      every answer arrived. */
  ghost predicate Follows(cfg: Config, view: map<Bytes, Bytes>, server: State, h: seq<Item>, arrive: bool) {
    (Legal(cfg, view, h) <==> arrive) && ServerInv(cfg, server, ViewAfter(cfg, view, h))
  }

  lemma ActFollows(cfg: Config, view: map<Bytes, Bytes>, y: System, a: Act, h: seq<Item>, arrive: bool)
    requires ValidAct(cfg, y, a) && Follows(cfg, view, y.server, h, arrive)
    ensures Follows(cfg, view, Act1(cfg, y, a).server, h + HistoryOf(cfg, y, a), arrive && ActArrives(cfg, y, a))
  {
    var now := ViewAfter(cfg, view, h);
    match a
    case Serve(c, net) =>
      ServeFollows(cfg, y, c, net, now);
      LegalSnoc(cfg, view, h, HistoryOf(cfg, y, a)[0], now);
    case Other(e) =>
      OtherFollows(cfg, y.server, e, now);
      LegalSnoc(cfg, view, h, HistoryOf(cfg, y, a)[0], now);
    case _ =>
      assert h + [] == h;
  }

  lemma {:induction false} StoreFollowsHistory(cfg: Config, s: State, acts: seq<Act>)
    requires Owned(cfg, s) && StoreInvariant(cfg, s.stores) && ValidActs(cfg, s, acts)
    ensures Follows(cfg, s.stores.View(), After(cfg, s, acts).server, History(cfg, s, acts), ActsArrive(cfg, s, acts))
    decreases |acts|
  {
    if acts != [] {
      var n := |acts| - 1;
      StoreFollowsHistory(cfg, s, acts[..n]);
      ActFollows(cfg, s.stores.View(), After(cfg, s, acts[..n]), acts[n], History(cfg, s, acts[..n]),
                 ActsArrive(cfg, s, acts[..n]));
    }
  }

  /** The position of a served call is its place in the history. */
  lemma {:induction false} HistoryLength(cfg: Config, s: State, acts: seq<Act>)
    requires ValidActs(cfg, s, acts)
    ensures |History(cfg, s, acts)| == ServedBefore(acts, |acts|)
    decreases |acts|
  {
    if acts != [] {
      var n := |acts| - 1;
      HistoryLength(cfg, s, acts[..n]);
      ServedBeforePrefix(acts, n, n);
    }
  }

  // ---------------------------------------------------------------------------------------------
  // The client side: where each call was invoked and served

  predicate Of(a: Act, c: int) {
    !a.Other? && a.client == c
  }

  predicate QuietBetween(acts: seq<Act>, c: int, from: int, to: int)
    requires 0 <= from && to <= |acts|
  {
    forall j :: from < j < to ==> !Of(acts[j], c)
  }

  predicate IsCall(item: Item, op: Op, answer: Answer) {
    item.Did? && item.op == op && item.answer == answer
  }

  /** The call was invoked at `i`, served at `k`, and the client did nothing else since up to `j`; the
      history `h` holds it with this answer. */
  ghost predicate ServedCall(acts: seq<Act>, h: seq<Item>, c: int, op: Op, answer: Answer, i: int, k: int, j: int) {
    && 0 <= i < k < j <= |acts|
    && acts[i] == Invoke(c, op) && acts[k].Serve? && acts[k].client == c
    && QuietBetween(acts, c, i, k) && QuietBetween(acts, c, k, j)
    && ServedBefore(acts, k) < |h| && IsCall(h[ServedBefore(acts, k)], op, answer)
  }

  ghost predicate PhaseExplained(acts: seq<Act>, h: seq<Item>, c: int, p: Phase) {
    match p
    case Waiting(op) => exists i :: 0 <= i < |acts| && acts[i] == Invoke(c, op) && QuietBetween(acts, c, i, |acts|)
    case Answered(op, answer) => exists i, k :: ServedCall(acts, h, c, op, answer, i, k, |acts|)
  }

  /** What was served in a prefix is served in the whole. */
  lemma ServedCallExtends(acts: seq<Act>, h0: seq<Item>, h: seq<Item>, c: int, op: Op, answer: Answer,
                          i: int, k: int, j: int)
    requires acts != [] && h0 <= h && ServedCall(acts[..|acts| - 1], h0, c, op, answer, i, k, j)
    ensures ServedCall(acts, h, c, op, answer, i, k, j)
  {
    var n := |acts| - 1;
    assert forall x :: 0 <= x < n ==> acts[..n][x] == acts[x];
    ServedBeforePrefix(acts, n, k);
  }

  lemma QuietExtends(acts: seq<Act>, c: int, from: int)
    requires acts != [] && 0 <= from < |acts| && !Of(acts[|acts| - 1], c)
    requires QuietBetween(acts[..|acts| - 1], c, from, |acts| - 1)
    ensures QuietBetween(acts, c, from, |acts|)
  {
    var pre := acts[..|acts| - 1];
    assert forall x :: 0 <= x < |pre| ==> pre[x] == acts[x];
  }

  /** An act of someone else leaves a client's phase explained. */
  lemma OthersActs(acts: seq<Act>, h0: seq<Item>, h: seq<Item>, c: int, p: Phase)
    requires acts != [] && h0 <= h && !Of(acts[|acts| - 1], c)
    requires PhaseExplained(acts[..|acts| - 1], h0, c, p)
    ensures PhaseExplained(acts, h, c, p)
  {
    var n := |acts| - 1;
    var pre := acts[..n];
    match p
    case Waiting(op) =>
      var i :| 0 <= i < n && pre[i] == Invoke(c, op) && QuietBetween(pre, c, i, n);
      QuietExtends(acts, c, i);
      assert acts[i] == Invoke(c, op);
    case Answered(op, answer) =>
      var i, k :| ServedCall(pre, h0, c, op, answer, i, k, n);
      ServedCallExtends(acts, h0, h, c, op, answer, i, k, n);
      QuietExtends(acts, c, k);
      assert ServedCall(acts, h, c, op, answer, i, k, |acts|);
  }

  lemma ServeExplains(acts: seq<Act>, h0: seq<Item>, h: seq<Item>, c: int, op: Op, answer: Answer)
    requires acts != [] && acts[|acts| - 1].Serve? && acts[|acts| - 1].client == c
    requires |h| == |h0| + 1 && h[..|h0|] == h0 && IsCall(h[|h0|], op, answer) && |h0| == ServedBefore(acts, |acts| - 1)
    requires PhaseExplained(acts[..|acts| - 1], h0, c, Waiting(op))
    ensures PhaseExplained(acts, h, c, Answered(op, answer))
  {
    var n := |acts| - 1;
    var pre := acts[..n];
    var i :| 0 <= i < n && pre[i] == Invoke(c, op) && QuietBetween(pre, c, i, n);
    assert forall x :: i < x < n ==> pre[x] == acts[x];
    assert ServedCall(acts, h, c, op, answer, i, n, |acts|);
  }

  lemma {:induction false} PhasesExplained(cfg: Config, s: State, acts: seq<Act>, c: int)
    requires ValidActs(cfg, s, acts) && c in After(cfg, s, acts).phases
    ensures PhaseExplained(acts, History(cfg, s, acts), c, After(cfg, s, acts).phases[c])
    decreases |acts|
  {
    var n := |acts| - 1;
    var a := acts[n];
    var y := After(cfg, s, acts[..n]);
    var h0, h := History(cfg, s, acts[..n]), History(cfg, s, acts);
    if !Of(a, c) {
      PhasesExplained(cfg, s, acts[..n], c);
      OthersActs(acts, h0, h, c, y.phases[c]);
    } else if a.Invoke? {
      assert acts[n] == Invoke(c, a.op) && QuietBetween(acts, c, n, |acts|);
    } else {
      PhasesExplained(cfg, s, acts[..n], c);
      HistoryLength(cfg, s, acts[..n]);
      ServedBeforePrefix(acts, n, n);
      ServeExplains(acts, h0, h, c, y.phases[c].op, After(cfg, s, acts).phases[c].answer);
    }
  }

  /** The call that returns at `j` was invoked before, served between, and got its answer there. */
  ghost predicate Completed(acts: seq<Act>, h: seq<Item>, j: int)
    requires 0 <= j < |acts| && acts[j].Return?
  {
    exists op, i, k :: ServedCall(acts, h, acts[j].client, op, acts[j].answer, i, k, j)
  }

  lemma CompletedExtends(acts: seq<Act>, h0: seq<Item>, h: seq<Item>, j: nat)
    requires j < |acts| - 1 && acts[j].Return? && h0 <= h && Completed(acts[..|acts| - 1], h0, j)
    ensures Completed(acts, h, j)
  {
    var c, answer := acts[j].client, acts[j].answer;
    var op, i, k :| ServedCall(acts[..|acts| - 1], h0, c, op, answer, i, k, j);
    ServedCallExtends(acts, h0, h, c, op, answer, i, k, j);
  }

  lemma ReturnCompletes(acts: seq<Act>, h0: seq<Item>, h: seq<Item>, op: Op)
    requires acts != [] && acts[|acts| - 1].Return? && h0 <= h
    requires var a := acts[|acts| - 1]; PhaseExplained(acts[..|acts| - 1], h0, a.client, Answered(op, a.answer))
    ensures Completed(acts, h, |acts| - 1)
  {
    var n := |acts| - 1;
    var c, answer := acts[n].client, acts[n].answer;
    var i, k :| ServedCall(acts[..n], h0, c, op, answer, i, k, n);
    ServedCallExtends(acts, h0, h, c, op, answer, i, k, n);
  }

  lemma {:induction false} ReturnsAreCompleted(cfg: Config, s: State, acts: seq<Act>, j: nat)
    requires ValidActs(cfg, s, acts) && j < |acts| && acts[j].Return?
    ensures Completed(acts, History(cfg, s, acts), j)
    decreases |acts|
  {
    var n := |acts| - 1;
    var pre := acts[..n];
    if j < n {
      ReturnsAreCompleted(cfg, s, pre, j);
      CompletedExtends(acts, History(cfg, s, pre), History(cfg, s, acts), j);
    } else {
      var c := acts[n].client;
      PhasesExplained(cfg, s, pre, c);
      ReturnCompletes(acts, History(cfg, s, pre), History(cfg, s, acts), After(cfg, s, pre).phases[c].op);
    }
  }

  /** Linearizability: for every interleaving of any number of clients, and whatever else the server
      serves in between, the requests in service order are a legal history of one map, exactly when
      every request and every answer arrived; every call that returned got its answer from a point of that history
      between its invocation and its return; and a call served earlier comes earlier in it, so one
      that returned before another was invoked does. */
  lemma Linearizable(cfg: Config, s: State, acts: seq<Act>)
    requires Owned(cfg, s) && StoreInvariant(cfg, s.stores) && ValidActs(cfg, s, acts)
    ensures Legal(cfg, s.stores.View(), History(cfg, s, acts)) <==> ActsArrive(cfg, s, acts)
    ensures forall j :: 0 <= j < |acts| && acts[j].Return? ==> Completed(acts, History(cfg, s, acts), j)
    ensures forall k1, k2 :: 0 <= k1 < k2 < |acts| && acts[k1].Serve? ==> ServedBefore(acts, k1) < ServedBefore(acts, k2)
  {
    StoreFollowsHistory(cfg, s, acts);
    forall j | 0 <= j < |acts| && acts[j].Return?
      ensures Completed(acts, History(cfg, s, acts), j)
    {
      ReturnsAreCompleted(cfg, s, acts, j);
    }
    forall k1, k2 | 0 <= k1 < k2 < |acts| && acts[k1].Serve?
      ensures ServedBefore(acts, k1) < ServedBefore(acts, k2)
    {
      ServedBeforeMonotone(acts, k1, k2);
    }
  }
}
