/** Start-up establishes what the run theorems ask of their first state. */
module Startup {
  import opened ByteStrings
  import opened Store
  import opened Loader
  import opened ServerModel
  import opened StoreRuns
  import opened Durability
  import Descriptors

  /** After `main` has opened a well-formed persistent database: no monitors, no stray descriptors,
      well-formed stores, clean ones if the saved map was clean, and, if the commits succeed, nothing
      unsaved and no deadline. */
  lemma BootEstablishes(cfg: Config, saved: map<Bytes, Bytes>, now: int, files: Files, codes: CommitCodes)
    requires WellFormedMap(saved, true) && now >= 0
    ensures var s := Boot(cfg, saved, now, files, codes);
            && Owned(cfg, s) && Descriptors.Stray(cfg, s) == {} && Fds(s.watchers) == {}
            && StoreInvariant(cfg, s.stores)
            && (CleanMap(saved) ==> Clean(s.stores))
            && (CodesOk(codes) ==> s.stores.persist.saved == s.stores.persist.cur && Scheduled(cfg, s, None))
  {
    var st := Stores(Db(saved, saved), Db(map[], map[]));
    assert cfg.listeners - cfg.listeners == {};
    LoadKeepsInvariant(cfg, st, files, false, codes);
    if CleanMap(saved) {
      LoadKeepsClean(cfg, st, files, false, codes);
    }
    if CodesOk(codes) {
      LoadCommits(cfg.temporary, st, cfg.source, files, false, codes);
    }
  }
}
