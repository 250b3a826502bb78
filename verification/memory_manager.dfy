/**
 src/app/memory/memory_manager.py: `process_memory`, the confidence gate and
 the write to the two memory stores.  The stores are threaded through as
 `Option<string>` state; the summary dictionary is a datatype; the writer
 calls made are recorded in order, so "no write" and "written twice" can be
 stated.  The threshold is a parameter (0.7 by default in the configuration).

 The gate as written skips when `confidence < threshold`; for a NaN confidence
 that comparison is false, so a NaN passes although it is not at least the
 threshold.  `ProcessMemoryAsWritten` keeps that gate; `ProcessMemory` skips
 unless the confidence is at least the threshold, and the two agree on every
 other confidence.
 */
module MemoryManager {
  import opened Common
  import opened Text
  import opened MemoryWriter
  import opened MemoryExtractor

  /** The two memory files. */
  datatype Stores = Stores(user: Option<string>, company: Option<string>)

  /** Which file a writer call went to. */
  datatype Store = UserStore | CompanyStore

  /** The dictionary `process_memory` returns. */
  datatype Summary = Summary(memorySaved: bool, userWritten: nat, companyWritten: nat, confidence: Float)

  /** The summary, the stores afterwards, and the writer calls made. */
  datatype Run = Run(summary: Summary, stores: Stores, calls: seq<Store>)

  /** The gate as the source writes it: skip when nothing is to be saved or
      `confidence < threshold`. */
  predicate SkipsAsWritten(d: Decision, threshold: real) {
    !d.shouldSave || d.confidence.Less(threshold)
  }

  /** The gate as documented: save only when the confidence is at least the
      threshold. */
  predicate Skips(d: Decision, threshold: real) {
    !d.shouldSave || !d.confidence.AtLeast(threshold)
  }

  /** Steps 3 and 4: each non-empty list is appended to its own store with
      the default header. */
  function WriteBoth(d: Decision, stores: Stores, now: string): (r: Run)
    ensures r.summary.confidence == d.confidence
    ensures r.summary.memorySaved <==> r.summary.userWritten > 0 || r.summary.companyWritten > 0
    ensures r.summary.userWritten <= |d.userFacts| && r.summary.companyWritten <= |d.companyFacts|
    ensures UserStore in r.calls <==> |d.userFacts| > 0
    ensures CompanyStore in r.calls <==> |d.companyFacts| > 0
    ensures |r.calls| <= 2
  {
    var user := if |d.userFacts| > 0 then AppendFacts(stores.user, d.userFacts, "", now) else Outcome(0, stores.user);
    var company := if |d.companyFacts| > 0 then AppendFacts(stores.company, d.companyFacts, "", now) else Outcome(0, stores.company);
    var calls := (if |d.userFacts| > 0 then [UserStore] else []) + (if |d.companyFacts| > 0 then [CompanyStore] else []);
    Run(Summary(user.written > 0 || company.written > 0, user.written, company.written, d.confidence),
        Stores(user.file, company.file), calls)
  }

  /** The result of a skipped turn: nothing saved, nothing written. */
  function Skipped(d: Decision, stores: Stores): (r: Run)
    ensures r.stores == stores && r.calls == [] && !r.summary.memorySaved
    ensures r.summary.userWritten == 0 && r.summary.companyWritten == 0
    ensures r.summary.confidence == d.confidence
  {
    Run(Summary(false, 0, 0, d.confidence), stores, [])
  }

  /** `process_memory` after the extraction, with the gate as written. */
  function ProcessMemoryAsWritten(d: Decision, threshold: real, stores: Stores, now: string): (r: Run)
    ensures SkipsAsWritten(d, threshold) ==> r.stores == stores && r.calls == [] && !r.summary.memorySaved
    ensures SkipsAsWritten(d, threshold) ==> r.summary.userWritten == 0 && r.summary.companyWritten == 0
    ensures r.calls != [] ==> d.shouldSave && !d.confidence.Less(threshold)
    ensures r.summary.confidence == d.confidence
    ensures r.summary.memorySaved <==> r.summary.userWritten > 0 || r.summary.companyWritten > 0
    ensures r.summary.userWritten <= |d.userFacts| && r.summary.companyWritten <= |d.companyFacts|
  {
    if SkipsAsWritten(d, threshold) then Skipped(d, stores) else WriteBoth(d, stores, now)
  }

  /** `process_memory` after the extraction, with the documented gate. */
  function ProcessMemory(d: Decision, threshold: real, stores: Stores, now: string): (r: Run)
    ensures Skips(d, threshold) ==> r.stores == stores && r.calls == [] && !r.summary.memorySaved
    ensures Skips(d, threshold) ==> r.summary.userWritten == 0 && r.summary.companyWritten == 0
    ensures r.calls != [] ==> d.shouldSave && d.confidence.AtLeast(threshold)
    ensures r.summary.confidence == d.confidence
    ensures r.summary.memorySaved <==> r.summary.userWritten > 0 || r.summary.companyWritten > 0
    ensures r.summary.userWritten <= |d.userFacts| && r.summary.companyWritten <= |d.companyFacts|
  {
    if Skips(d, threshold) then Skipped(d, stores) else WriteBoth(d, stores, now)
  }

  /** The whole turn: extraction, then the gate as written and the writes. */
  function ProcessTurn(reply: Option<string>, decode: string -> Parsed, threshold: real, stores: Stores, now: string): (r: Run)
    ensures reply.None? ==> r == Run(Summary(false, 0, 0, Finite(0.0)), stores, [])
  {
    ProcessMemoryAsWritten(ExtractMemory(reply, decode), threshold, stores, now)
  }

  /** The whole turn with the documented gate. */
  function ProcessTurnCorrected(reply: Option<string>, decode: string -> Parsed, threshold: real, stores: Stores, now: string): (r: Run)
    ensures reply.None? ==> r == Run(Summary(false, 0, 0, Finite(0.0)), stores, [])
  {
    ProcessMemory(ExtractMemory(reply, decode), threshold, stores, now)
  }

  /** What each turn's gate lets through: a write under either gate means
      the curator asked to save, under the documented gate also that the
      confidence is at least the threshold, and both report the extracted
      confidence. */
  lemma TurnGates(reply: Option<string>, decode: string -> Parsed, t: real, stores: Stores, now: string)
    ensures var d := ExtractMemory(reply, decode);
      var r := ProcessTurn(reply, decode, t, stores, now);
      r.calls != [] ==> d.shouldSave && !d.confidence.Less(t)
    ensures var d := ExtractMemory(reply, decode);
      var r := ProcessTurnCorrected(reply, decode, t, stores, now);
      r.calls != [] ==> d.shouldSave && d.confidence.AtLeast(t)
  {
  }

  /** The two turns differ only when the extracted confidence is NaN. */
  lemma TurnsAgree(reply: Option<string>, decode: string -> Parsed, t: real, stores: Stores, now: string)
    requires !ExtractMemory(reply, decode).confidence.NaN?
    ensures ProcessTurn(reply, decode, t, stores, now) == ProcessTurnCorrected(reply, decode, t, stores, now)
  {
    ProcessMemoryAgrees(ExtractMemory(reply, decode), t, stores, now);
  }

  // ---------------------------------------------------------------------------
  // Properties
  // ---------------------------------------------------------------------------

  /** The gate's boundary: with one new user fact, a confidence equal to the
      threshold writes it, and any confidence below the threshold writes
      nothing. */
  lemma GateBoundary(f: string, t: real, e: real, stores: Stores, now: string)
    requires Keep(f, ReadMemory(stores.user)) && e > 0.0
    ensures ProcessMemory(Decision(true, [f], [], Finite(t)), t, stores, now).summary == Summary(true, 1, 0, Finite(t))
    ensures ProcessMemoryAsWritten(Decision(true, [f], [], Finite(t)), t, stores, now).summary == Summary(true, 1, 0, Finite(t))
    ensures ProcessMemory(Decision(true, [f], [], Finite(t - e)), t, stores, now).summary == Summary(false, 0, 0, Finite(t - e))
  {
    AppendOne(stores.user, f, "", now);
  }

  /** One new fact with confidence 0.9 over an empty user store: one fact
      written and the turn reported as saved. */
  lemma OneFactSaved(now: string)
    ensures ProcessMemory(Decision(true, ["likes tea"], [], Finite(0.9)), 0.7, Stores(None, None), now).summary
      == Summary(true, 1, 0, Finite(0.9))
  {
    assert Keep("likes tea", "") by {
      assert "likes tea"[0] != ' ';
      NonBlankFact("likes tea");
    }
    AppendOne(None, "likes tea", "", now);
  }

  /** When the gate passes, each store receives exactly what the writer
      makes of its own list, and the counts are the writer's return values. */
  lemma PassedWrites(d: Decision, t: real, stores: Stores, now: string)
    requires !Skips(d, t)
    ensures var r := ProcessMemory(d, t, stores, now);
      var u := AppendFacts(stores.user, d.userFacts, "", now);
      var c := AppendFacts(stores.company, d.companyFacts, "", now);
      && r.stores == Stores(u.file, c.file)
      && r.summary.userWritten == u.written && r.summary.companyWritten == c.written
  {
    AppendNothing(stores.user, "", now);
    AppendNothing(stores.company, "", now);
  }

  /** Store isolation: the user store and its count depend only on the user
      facts and the user store, and likewise for the company store. */
  lemma StoresIsolated(d: Decision, d': Decision, t: real, stores: Stores, stores': Stores, now: string)
    requires d.shouldSave == d'.shouldSave && d.confidence == d'.confidence
    ensures var r := ProcessMemory(d, t, stores, now);
      var r' := ProcessMemory(d', t, stores', now);
      && (d.userFacts == d'.userFacts && stores.user == stores'.user ==>
            r.stores.user == r'.stores.user && r.summary.userWritten == r'.summary.userWritten)
      && (d.companyFacts == d'.companyFacts && stores.company == stores'.company ==>
            r.stores.company == r'.stores.company && r.summary.companyWritten == r'.summary.companyWritten)
  {
    if !Skips(d, t) {
      PassedWrites(d, t, stores, now);
      PassedWrites(d', t, stores', now);
    }
  }

  /** An empty list makes no writer call and leaves its store and count
      alone. */
  lemma EmptyListUntouched(d: Decision, t: real, stores: Stores, now: string)
    ensures var r := ProcessMemory(d, t, stores, now);
      && (d.userFacts == [] ==> UserStore !in r.calls && r.stores.user == stores.user && r.summary.userWritten == 0)
      && (d.companyFacts == [] ==> CompanyStore !in r.calls && r.stores.company == stores.company && r.summary.companyWritten == 0)
  {
    AppendNothing(stores.user, "", now);
    AppendNothing(stores.company, "", now);
  }

  /** Both lists non-empty and the gate passed: the writer is called twice,
      first for the user store. */
  lemma WriterCalledTwice(d: Decision, t: real, stores: Stores, now: string)
    requires !Skips(d, t) && |d.userFacts| > 0 && |d.companyFacts| > 0
    ensures ProcessMemory(d, t, stores, now).calls == [UserStore, CompanyStore]
  {
  }

  /** A failed extraction writes nothing and reports confidence 0.0. */
  lemma FailedTurnWritesNothing(reply: Option<string>, decode: string -> Parsed, t: real, stores: Stores, now: string)
    requires reply.Some? ==> !decode(Unfence(Strip(reply.value))).Object?
    ensures var r := ProcessTurn(reply, decode, t, stores, now);
      r.stores == stores && r.calls == [] && r.summary == Summary(false, 0, 0, Finite(0.0))
  {
    var d := ExtractMemory(reply, decode);
    assert !d.shouldSave;
  }

  /** Running the same turn twice writes nothing the second time, when no
      fact holds a carriage return (one that does is read back as a line
      feed and written again; see `CarriageReturnWrittenAgain`). */
  lemma SecondRunWritesNothing(d: Decision, t: real, stores: Stores, now: string, now': string)
    requires forall i :: 0 <= i < |d.userFacts| ==> NoCarriageReturn(d.userFacts[i])
    requires forall i :: 0 <= i < |d.companyFacts| ==> NoCarriageReturn(d.companyFacts[i])
    ensures var once := ProcessMemory(d, t, stores, now);
      var twice := ProcessMemory(d, t, once.stores, now');
      twice.stores == once.stores && !twice.summary.memorySaved
  {
    var once := ProcessMemory(d, t, stores, now);
    if !Skips(d, t) {
      PassedWrites(d, t, stores, now);
      PassedWrites(d, t, once.stores, now');
      AppendTwice(stores.user, d.userFacts, "", now, "", now');
      AppendTwice(stores.company, d.companyFacts, "", now, "", now');
    }
  }

  // ---------------------------------------------------------------------------
  // The NaN gate
  // ---------------------------------------------------------------------------

  /** The two gates agree on every confidence but NaN. */
  lemma GatesAgree(d: Decision, t: real)
    requires !d.confidence.NaN?
    ensures Skips(d, t) <==> SkipsAsWritten(d, t)
  {
  }

  /** So the corrected pipeline is the source's on every confidence but NaN. */
  lemma ProcessMemoryAgrees(d: Decision, t: real, stores: Stores, now: string)
    requires !d.confidence.NaN?
    ensures ProcessMemory(d, t, stores, now) == ProcessMemoryAsWritten(d, t, stores, now)
  {
    GatesAgree(d, t);
  }

  /** A decision to save one user fact with confidence NaN: the gate as
      written lets it through and the fact is written, although NaN is not
      at least any threshold; the corrected gate writes nothing. */
  lemma NaNConfidenceWrites(t: real)
    ensures var d := Decision(true, ["likes tea"], [], NaN);
      && ProcessMemoryAsWritten(d, t, Stores(None, None), "2024-01-01 00:00").summary.userWritten == 1
      && ProcessMemoryAsWritten(d, t, Stores(None, None), "2024-01-01 00:00").calls == [UserStore]
      && ProcessMemory(d, t, Stores(None, None), "2024-01-01 00:00").calls == []
  {
    var d := Decision(true, ["likes tea"], [], NaN);
    var now := "2024-01-01 00:00";
    assert Keep("likes tea", "") by {
      assert "likes tea"[0] != ' ';
      NonBlankFact("likes tea");
    }
    assert ["likes tea"][..0] == [];
    assert NewFacts(["likes tea"], ReadMemory(None)) == ["likes tea"];
    assert AppendFacts(None, d.userFacts, "", now).written == 1;
    assert !SkipsAsWritten(d, t) && Skips(d, t);
    assert WriteBoth(d, Stores(None, None), now).summary.userWritten == 1;
  }

  /** A fact with a non-space character is kept by an empty file. */
  lemma NonBlankFact(f: string)
    requires |f| > 0 && !IsSpace(f[0])
    ensures Keep(f, "")
  {
    StripEmptyIffAllSpace(f);
    assert |Lower(Strip(f))| > 0;
  }
}
