/** Sealing of one persistence batch over the segment redactor. */
module Persistence {
  import opened Bytes
  import opened Matching
  import opened Redactor

  const MAX_CREDENTIAL_PERSISTENCE_RECORDS: nat := 16
  const MAX_CREDENTIAL_PERSISTENCE_TOTAL_BYTES: nat := MAX_REDACTION_OUTPUT_BYTES

  datatype PersistenceError = RecordLimitExceeded | TotalBytesExceeded | RedactionFailed

  /** A record handed over for storage; the surface is metadata the operation only carries along. */
  datatype Draft<Surface> = Draft(surface: Surface, bytes: Bytes)

  datatype Batch<Surface> = Batch(records: seq<Draft<Surface>>, totalBytes: nat)

  function RecordBytes<Surface>(drafts: seq<Draft<Surface>>): (r: seq<Bytes>)
    ensures |r| == |drafts|
    ensures forall i :: 0 <= i < |drafts| ==> r[i] == drafts[i].bytes
  {
    seq(|drafts|, i requires 0 <= i < |drafts| => drafts[i].bytes)
  }

  /** The stored records joined end to end. */
  function Joined<Surface>(drafts: seq<Draft<Surface>>): Bytes {
    Flatten(RecordBytes(drafts))
  }

  lemma {:induction false} JoinedPrefix<Surface>(drafts: seq<Draft<Surface>>, i: nat)
    requires i < |drafts|
    ensures |Joined(drafts[..i + 1])| == |Joined(drafts[..i])| + |drafts[i].bytes| <= |Joined(drafts)|
  {
    FlattenPrefix(RecordBytes(drafts), i);
    FlattenPrefix(RecordBytes(drafts), i + 1);
    assert RecordBytes(drafts[..i]) == RecordBytes(drafts)[..i];
    assert RecordBytes(drafts[..i + 1]) == RecordBytes(drafts)[..i + 1];
  }

  /** Some record alone is above the input limit of the redactor. */
  ghost predicate HasOversizedRecord<Surface>(drafts: seq<Draft<Surface>>) {
    exists i :: 0 <= i < |drafts| && |drafts[i].bytes| > MAX_REDACTION_INPUT_BYTES
  }

  method CheckDrafts<Surface>(drafts: seq<Draft<Surface>>) returns (r: Result<(), PersistenceError>)
    ensures r.Ok? <==>
      && |drafts| <= MAX_CREDENTIAL_PERSISTENCE_RECORDS
      && !HasOversizedRecord(drafts)
      && |Joined(drafts)| <= MAX_CREDENTIAL_PERSISTENCE_TOTAL_BYTES
    ensures r == Err(RecordLimitExceeded) <==> |drafts| > MAX_CREDENTIAL_PERSISTENCE_RECORDS
    ensures r == Err(RedactionFailed) ==> HasOversizedRecord(drafts)
    ensures r == Err(TotalBytesExceeded) ==> |Joined(drafts)| > MAX_CREDENTIAL_PERSISTENCE_TOTAL_BYTES
  {
    if |drafts| > MAX_CREDENTIAL_PERSISTENCE_RECORDS {
      return Err(RecordLimitExceeded);
    }
    var inputTotalBytes := 0;
    for i := 0 to |drafts|
      invariant inputTotalBytes == |Joined(drafts[..i])| <= MAX_CREDENTIAL_PERSISTENCE_TOTAL_BYTES
      invariant forall k :: 0 <= k < i ==> |drafts[k].bytes| <= MAX_REDACTION_INPUT_BYTES
    {
      JoinedPrefix(drafts, i);
      if |drafts[i].bytes| > MAX_REDACTION_INPUT_BYTES {
        return Err(RedactionFailed);
      }
      inputTotalBytes := inputTotalBytes + |drafts[i].bytes|;
      if inputTotalBytes > MAX_CREDENTIAL_PERSISTENCE_TOTAL_BYTES {
        return Err(TotalBytesExceeded);
      }
    }
    assert drafts[..|drafts|] == drafts;
    r := Ok(());
  }

  /**
   Stores every draft under its own surface, in order and at its own length, with no pattern anywhere
   in the joined records. Nothing is stored unless every check and the redaction succeed.
   */
  method SealCredentialPersistence<Surface>(redactor: Redactor, drafts: seq<Draft<Surface>>)
    returns (r: Result<Batch<Surface>, PersistenceError>)
    requires redactor.Valid()
    ensures r.Ok? ==>
      var records := r.value.records;
      && |records| == |drafts| <= MAX_CREDENTIAL_PERSISTENCE_RECORDS
      && (forall i :: 0 <= i < |drafts| ==>
            records[i].surface == drafts[i].surface && |records[i].bytes| == |drafts[i].bytes|)
      && Joined(records) == Keep(redactor.PatternSet(), redactor.replacement, Joined(drafts))
      && FreeOf(redactor.PatternSet(), Joined(records))
      && r.value.totalBytes == |Joined(drafts)| <= MAX_CREDENTIAL_PERSISTENCE_TOTAL_BYTES
    ensures r == Err(RecordLimitExceeded) <==> |drafts| > MAX_CREDENTIAL_PERSISTENCE_RECORDS
    ensures r == Err(TotalBytesExceeded) ==> |Joined(drafts)| > MAX_CREDENTIAL_PERSISTENCE_TOTAL_BYTES
    ensures r == Err(RedactionFailed) ==>
      || HasOversizedRecord(drafts)
      || |Joined(drafts)| * TotalBytes(redactor.patterns) > MAX_REDACTION_COMPARISON_BYTES
    ensures r.Ok? ==> !HasOversizedRecord(drafts)
  {
    hide Redactor.Valid, FreeOf, Keep;
    var checked := CheckDrafts(drafts);
    if checked.Err? {
      return Err(checked.error);
    }
    var redacted := RedactSegments(redactor, RecordBytes(drafts));
    if redacted.Err? {
      return Err(RedactionFailed);
    }
    var outputs := redacted.value;
    var records: seq<Draft<Surface>>, redactedTotalBytes := [], 0;
    for i := 0 to |drafts|
      invariant |records| == i && redactedTotalBytes == |Joined(drafts[..i])|
      invariant forall k :: 0 <= k < i ==> records[k] == Draft(drafts[k].surface, outputs[k])
    {
      JoinedPrefix(drafts, i);
      redactedTotalBytes := redactedTotalBytes + |outputs[i]|;
      if redactedTotalBytes > MAX_CREDENTIAL_PERSISTENCE_TOTAL_BYTES {
        return Err(TotalBytesExceeded);
      }
      records := records + [Draft(drafts[i].surface, outputs[i])];
    }
    assert drafts[..|drafts|] == drafts;
    assert RecordBytes(records) == outputs;
    r := Ok(Batch(records, redactedTotalBytes));
  }
}
