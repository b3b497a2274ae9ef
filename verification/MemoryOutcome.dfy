/** How the commit of an accepted batch ends: exactly when it is refused. A commit that is refused raises
    after the batch has left the queue, so these are the batches whose requests are lost. */
module MemoryOutcome {
  import opened Sequences
  import opened MemoryTable
  import opened MemoryValidator
  import opened MemoryEdits
  import opened MemoryAgreement
  import opened MemoryCompression
  import opened MemoryRefusal
  import opened MemoryCommit
  import opened MemoryNotes

  // ---------------------------------------------------------------- what the validator's adds meet

  lemma StepIds(rows: seq<Row>, document: seq<Entry>)
    requires InStep(rows, document)
    ensures TableIds(rows) == EntryIds(document)
  {
  }

  /** The inserts of a validated batch meet no key, whatever table the commit starts from. */
  lemma ProposalCanInsert(s: Memory, b: Batch, ids: seq<Id>, now: int, today: string)
    requires IdsKnown(s.document, b) && FreshIds(s.document, b, ids)
    ensures CanInsert(Synced(s.rows, s.document, now), Proposal(s.document, b, ids, today).mutation.adds)
  {
    var rows := Synced(s.rows, s.document, now);
    SyncedInStep(s.rows, s.document, now);
    StepIds(rows, s.document);
    ProposedMutation(s.document, b, ids, today);
    NoClash(rows, Proposal(s.document, b, ids, today).mutation.adds);
  }

  // ---------------------------------------------------------------- when a commit is refused

  /** Compression is triggered and its first pass meets a row it must not compress. */
  ghost predicate CompressionRefuses(rows: seq<Row>, settings: Settings) {
    && DocumentLength(Render(rows)) > TriggerLength(settings.budget)
    && MeetsRefusal(Candidates(rows), TotalLength(Render(rows)), TargetLength(settings.budget), settings.limits)
  }

  lemma FinishIsRefused(rows: seq<Row>, document: seq<Entry>, notes: set<string>, settings: Settings)
    ensures Finish(rows, document, notes, settings).Refused?
            <==> !DocumentOk(Render(rows), settings.limits) || CompressionRefuses(rows, settings)
  {
    if DocumentOk(Render(rows), settings.limits) {
      RunIsRefused(rows, settings.budget, settings.limits);
    }
  }

  /** The commit of an accepted batch is refused if and only if the mutated table renders as a document
      the validator does not accept, or compression refuses it. */
  lemma CommitIsRefused(s: Memory, b: Batch, ids: seq<Id>, now: int, today: string, checks: Checks, settings: Settings)
    requires FreshIds(s.document, b, ids)
    requires Accepts(s.document, b, ids, today, checks, settings.limits, s.notes)
    ensures var v := Proposal(s.document, b, ids, today);
            var rows := MutatedTable(s, v, now, today);
            Commit(s, v, now, today, settings).Refused?
            <==> !DocumentOk(Render(rows), settings.limits) || CompressionRefuses(rows, settings)
  {
    var v := Proposal(s.document, b, ids, today);
    ProposalCanInsert(s, b, ids, now, today);
    if !Structured(v.mutation) {
      UnstructuredChangesNothing(s.document, b, ids, today);
    }
    FinishIsRefused(MutatedTable(s, v, now, today), s.document, s.notes + b.upserts, settings);
  }

  // ---------------------------------------------------------------- from a snapshot the table agrees with

  ghost predicate NoneDiscrepant(b: Batch, p: Validated) {
    forall i :: 0 <= i < |p.document| ==> !Discrepant(b, p.mutation.adds, p.document[i])
  }

  lemma AgreeingTable(rows: seq<Row>, doc: seq<Entry>, b: Batch, adds: seq<Add>)
    requires AllAgree(rows, doc, b, adds)
    ensures Render(rows) == doc <==> forall i :: 0 <= i < |doc| ==> !Discrepant(b, adds, doc[i])
  {
    assert forall i :: 0 <= i < |rows| ==> RowAgrees(rows[i], doc[i], b, adds) && Render(rows)[i] == Rendered(rows[i]);
  }

  /** From a synced snapshot, the mutated table of a batch with changes renders as the validated document
      if and only if no entry is discrepant. */
  lemma MutatedIsValidated(s: Memory, b: Batch, ids: seq<Id>, now: int, today: string)
    requires IdsKnown(s.document, b) && FreshIds(s.document, b, ids)
    requires Render(Synced(s.rows, s.document, now)) == s.document
    requires Structured(Proposal(s.document, b, ids, today).mutation)
    ensures var v := Proposal(s.document, b, ids, today);
            Render(MutatedTable(s, v, now, today)) == v.document <==> NoneDiscrepant(b, v)
  {
    var v := Proposal(s.document, b, ids, today);
    var rows := Synced(s.rows, s.document, now);
    SameIds(rows);
    TableAgreesWithDocument(rows, b, ids, now, today);
    AgreeingTable(MutatedTable(s, v, now, today), v.document, b, v.mutation.adds);
  }

  /** From a synced snapshot, an accepted batch without a discrepant entry is refused by compression or
      not at all. */
  lemma OnlyCompressionRefuses(
    s: Memory, b: Batch, ids: seq<Id>, now: int, today: string, checks: Checks, settings: Settings)
    requires FreshIds(s.document, b, ids) && Render(Synced(s.rows, s.document, now)) == s.document
    requires Accepts(s.document, b, ids, today, checks, settings.limits, s.notes)
    requires NoneDiscrepant(b, Proposal(s.document, b, ids, today))
    ensures var v := Proposal(s.document, b, ids, today);
            var rows := MutatedTable(s, v, now, today);
            Render(rows) == v.document
            && (Commit(s, v, now, today, settings).Refused? <==> CompressionRefuses(rows, settings))
  {
    CommitIsRefused(s, b, ids, now, today, checks, settings);
    if Structured(Proposal(s.document, b, ids, today).mutation) {
      MutatedIsValidated(s, b, ids, now, today);
    } else {
      UnstructuredChangesNothing(s.document, b, ids, today);
    }
  }
}
