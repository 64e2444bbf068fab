/**
  The batch processor of k1_processor.py: the record array it keeps (`k1_array`, an
  append-only cache keyed by path) and the steps of a run, each proved against the
  specification functions of the modules it imports.
*/
module K1Processor {
  import opened Wrappers
  import opened Sequences
  import opened Text
  import opened MatchingKeys
  import opened Discovery
  import opened Extraction
  import opened Reconciliation
  import opened Sending

  /** A record with its matching key. */
  function KeyedRecord(r: K1Record): K1Record {
    r.(matchingKey := Some(MatchingKey(r.investmentName, r.issuingEntity, r.receivingEntity)))
  }

  /** The record array after `_create_matching_keys`. */
  function WithKeys(records: seq<K1Record>): (result: seq<K1Record>)
    ensures |result| == |records|
  {
    seq(|records|, i requires 0 <= i < |records| => KeyedRecord(records[i]))
  }

  /** Making keys touches nothing but the key, every key is clean, and doing it again gives the
      same keys. */
  lemma WithKeysSpec(records: seq<K1Record>)
    ensures forall i :: 0 <= i < |records| ==>
      WithKeys(records)[i] == records[i].(matchingKey := WithKeys(records)[i].matchingKey)
    ensures forall i :: 0 <= i < |records| ==> WithKeys(records)[i].matchingKey.Some?
    ensures forall i, c :: 0 <= i < |records| && 0 <= c < |WithKeys(records)[i].matchingKey.value| ==>
      WithKeys(records)[i].matchingKey.value[c] !in KEY_STOP_CHARS
    ensures WithKeys(WithKeys(records)) == WithKeys(records)
  {
    forall i | 0 <= i < |records| ensures forall c :: 0 <= c < |WithKeys(records)[i].matchingKey.value| ==>
      WithKeys(records)[i].matchingKey.value[c] !in KEY_STOP_CHARS
    {
      KeyIsClean(records[i].investmentName, records[i].issuingEntity, records[i].receivingEntity);
    }
  }

  /** Gathering leaves the existing records, their order and their paths unique. */
  lemma GatherSpec(existing: seq<K1Record>, listing: seq<DirEntry>)
    ensures (existing + NewRecords(existing, listing))[..|existing|] == existing
    ensures NewRecords(existing + NewRecords(existing, listing), listing) == []
    ensures PathsUnique(existing) && WellFormedListing(listing) ==> PathsUnique(existing + NewRecords(existing, listing))
  {
    GatherIdempotent(existing, listing);
    if PathsUnique(existing) && WellFormedListing(listing) {
      GatherKeepsPathsUnique(existing, listing);
    }
  }

  /** The array the constructor starts from: the cached one unless the cache is skipped or absent. */
  function LoadedCache(skipCacheLoad: bool, cache: Option<seq<K1Record>>): seq<K1Record> {
    if !skipCacheLoad && cache.Some? then cache.value else []
  }

  class K1BatchProcessor {
    const sender: string
    const internalRecipients: seq<InternalRecipient>
    const taxYear: string
    const testMode: bool
    const emailLimit: Option<int>
    var k1Array: seq<K1Record>

    /** `__init__`: the settings, the cache (`None` when its file does not exist) and a first scan. */
    constructor (sender: string, internalRecipients: seq<InternalRecipient>, taxYear: string, testMode: bool,
                 emailLimit: Option<int>, skipCacheLoad: bool, cache: Option<seq<K1Record>>, listing: seq<DirEntry>)
      ensures this.sender == sender && this.internalRecipients == internalRecipients && this.taxYear == taxYear
      ensures this.testMode == testMode && this.emailLimit == emailLimit
      ensures k1Array == LoadedCache(skipCacheLoad, cache) + NewRecords(LoadedCache(skipCacheLoad, cache), listing)
    {
      this.sender := sender;
      this.internalRecipients := internalRecipients;
      this.taxYear := taxYear;
      this.testMode := testMode;
      this.emailLimit := emailLimit;
      k1Array := [];
      new;
      if !skipCacheLoad && cache.Some? {
        k1Array := cache.value;
      }
      GatherFiles(listing);
    }

    /** `_gather_files`: append a record for each new K-1 PDF of the listing. */
    method GatherFiles(listing: seq<DirEntry>)
      modifies this
      ensures k1Array == old(k1Array) + NewRecords(old(k1Array), listing)
    {
      var found: seq<K1Record> := [];
      var d := 0;
      while d < |listing|
        invariant 0 <= d <= |listing|
        invariant k1Array == old(k1Array)
        invariant found == NewRecords(k1Array, listing[..d])
      {
        var entry := listing[d];
        assert listing[..d + 1][..d] == listing[..d] && listing[..d + 1][d] == entry;
        if entry.isDirectory {
          var f := 0;
          while f < |entry.files|
            invariant 0 <= f <= |entry.files|
            invariant found == NewRecords(k1Array, listing[..d]) + FolderRecords(k1Array, entry.name, entry.files[..f])
          {
            var file := entry.files[f];
            assert entry.files[..f + 1][..f] == entry.files[..f] && entry.files[..f + 1][f] == file;
            if EndsWith(Lower(file), PDF_SUFFIX) && !Contains(Lower(file), EXCLUDED_WORD) {
              var path := FilePath(entry.name, file);
              if !HasPath(k1Array, path) {
                found := found + [NewRecord(entry.name, file)];
              }
            }
            f := f + 1;
          }
          assert entry.files[..f] == entry.files;
        }
        d := d + 1;
      }
      assert listing[..d] == listing;
      k1Array := k1Array + found;
    }

    /** `extract_entities`: every record without entities takes those its document yields. */
    method ExtractEntities(documents: string -> Document)
      requires AllExtractable(k1Array, documents)
      modifies this
      ensures k1Array == ExtractAll(old(k1Array), documents)
    {
      ghost var original := k1Array;
      ghost var target := ExtractAll(original, documents);
      var i := 0;
      while i < |k1Array|
        invariant 0 <= i <= |k1Array| == |original| == |target|
        invariant forall j :: 0 <= j < i ==> k1Array[j] == target[j]
        invariant forall j :: i <= j < |k1Array| ==> k1Array[j] == original[j]
      {
        var record := k1Array[i];
        ExtractAllAt(original, documents, i);
        if record.issuingEntity.None? && record.receivingEntity.None? {
          var found := ScanPages(documents(record.path));
          var extracted := record.(issuingEntity := found.issuing, receivingEntity := found.receiving);
          UpdateExtendsPrefix(k1Array, target, original, i, extracted);
          k1Array := k1Array[i := extracted];
        } else {
          UpdateExtendsPrefix(k1Array, target, original, i, record);
          k1Array := k1Array[i := record];
        }
        i := i + 1;
      }
      assert k1Array == target;
    }

    /** `_create_matching_keys`: write each record's key into it. */
    method CreateMatchingKeys()
      modifies this
      ensures k1Array == WithKeys(old(k1Array))
    {
      var i := 0;
      while i < |k1Array|
        invariant 0 <= i <= |k1Array| == |old(k1Array)|
        invariant forall j :: 0 <= j < i ==> k1Array[j] == KeyedRecord(old(k1Array)[j])
        invariant forall j :: i <= j < |k1Array| ==> k1Array[j] == old(k1Array)[j]
      {
        var r := k1Array[i];
        var key := MatchingKey(r.investmentName, r.issuingEntity, r.receivingEntity);
        k1Array := k1Array[i := r.(matchingKey := Some(key))];
        i := i + 1;
      }
    }

    /** `match_files_and_keys`: make the keys, then join the table onto the records and report
        the records no investor claims. With no records the frame built from them has no
        columns to sort by, so the run raises after making the keys and returns nothing. */
    method MatchFilesAndKeys(table: seq<InvestorRow>) returns (result: Option<(seq<InvestorRow>, seq<K1Record>)>)
      modifies this
      ensures k1Array == WithKeys(old(k1Array))
      ensures result.None? <==> old(k1Array) == []
      ensures result.Some? ==> result.value == (Reconcile(table, k1Array), Unmatched(k1Array, table))
    {
      CreateMatchingKeys();
      if k1Array == [] {
        result := None;
      } else {
        result := Some((Reconcile(table, k1Array), Unmatched(k1Array, table)));
      }
    }

    /** The recipient lists of one message: the row's four slots, then the internal recipients. */
    method PlanMessage(row: InvestorRow) returns (message: Message)
      requires row.matchedK1Filename.Some?
      ensures message == MessageFor(row, internalRecipients, sender, testMode)
    {
      var to, cc, bcc := RouteSlots(row);
      cc, bcc := RouteInternals(cc, bcc);
      message := Message(to, if cc == [] then None else Some(cc), if bcc == [] then None else Some(bcc),
                         row.matchedK1Filename.value);
    }

    /** The loop over the four address slots: a filled slot goes to the list its type names,
        and to cc when the type is none of them. */
    method RouteSlots(row: InvestorRow) returns (to: seq<string>, cc: seq<string>, bcc: seq<string>)
      ensures to == SlotAddresses(row.slots, ToField, sender, testMode)
      ensures cc == SlotAddresses(row.slots, CcField, sender, testMode)
      ensures bcc == SlotAddresses(row.slots, BccField, sender, testMode)
    {
      to, cc, bcc := [], [], [];
      var s := 0;
      while s < SLOT_COUNT
        invariant 0 <= s <= SLOT_COUNT
        invariant to == SlotAddresses(row.slots[..s], ToField, sender, testMode)
        invariant cc == SlotAddresses(row.slots[..s], CcField, sender, testMode)
        invariant bcc == SlotAddresses(row.slots[..s], BccField, sender, testMode)
      {
        var slot := row.slots[s];
        SlotAddressesStep(row.slots, s, ToField, sender, testMode);
        SlotAddressesStep(row.slots, s, CcField, sender, testMode);
        SlotAddressesStep(row.slots, s, BccField, sender, testMode);
        if slot.address != NAN {
          var address := if testMode then sender else slot.address;
          var kind := Lower(slot.kind);
          if kind == "to" {
            to := to + [address];
          } else if kind == "cc" {
            cc := cc + [address];
          } else if kind == "bcc" {
            bcc := bcc + [address];
          } else {
            cc := cc + [address];
          }
        }
        s := s + 1;
      }
      assert row.slots[..s] == row.slots;
    }

    /** The loop over the internal recipients: each goes to cc or bcc by its type. */
    method RouteInternals(cc0: seq<string>, bcc0: seq<string>) returns (cc: seq<string>, bcc: seq<string>)
      ensures cc == cc0 + InternalAddresses(internalRecipients, CcField, sender, testMode)
      ensures bcc == bcc0 + InternalAddresses(internalRecipients, BccField, sender, testMode)
    {
      cc, bcc := cc0, bcc0;
      var k := 0;
      while k < |internalRecipients|
        invariant 0 <= k <= |internalRecipients|
        invariant cc == cc0 + InternalAddresses(internalRecipients[..k], CcField, sender, testMode)
        invariant bcc == bcc0 + InternalAddresses(internalRecipients[..k], BccField, sender, testMode)
      {
        var r := internalRecipients[k];
        InternalAddressesStep(internalRecipients, k, CcField, sender, testMode);
        InternalAddressesStep(internalRecipients, k, BccField, sender, testMode);
        var address := if testMode then sender else r.address;
        var kind := Lower(r.kind);
        if kind == "cc" {
          AppendAssoc(cc0, InternalAddresses(internalRecipients[..k], CcField, sender, testMode), [address]);
          cc := cc + [address];
        } else if kind == "bcc" {
          AppendAssoc(bcc0, InternalAddresses(internalRecipients[..k], BccField, sender, testMode), [address]);
          bcc := bcc + [address];
        }
        k := k + 1;
      }
      assert internalRecipients[..k] == internalRecipients;
    }

    /** `send_emails`: attempt the eligible rows and return the table written back (`None` when
        the run attempted nothing and so raised before writing) and the messages posted. */
    method SendEmails(table: seq<InvestorRow>, respond: nat -> Response, timestamp: string)
      returns (written: Option<seq<InvestorRow>>, messages: seq<Message>)
      ensures written == WrittenBack(table, emailLimit, respond, timestamp)
      ensures messages == PlansUpTo(table, emailLimit, internalRecipients, sender, testMode, |table|)
    {
      var updated;
      updated, messages := AttemptRows(table, respond, timestamp);
      WrittenBackOfRun(table, emailLimit, internalRecipients, sender, testMode, respond, timestamp, updated, messages);
      written := if messages == [] then None else Some(updated);
    }

    /** The loop of `send_emails`: attempt the eligible rows in table order up to the limit, the
        k-th attempt answered by `respond(k)`; return the updated table and the messages posted. */
    method AttemptRows(table: seq<InvestorRow>, respond: nat -> Response, timestamp: string)
      returns (updated: seq<InvestorRow>, messages: seq<Message>)
      ensures updated == SendOutcome(table, emailLimit, respond, timestamp)
      ensures messages == PlansUpTo(table, emailLimit, internalRecipients, sender, testMode, |table|)
    {
      ghost var outcome := SendOutcome(table, emailLimit, respond, timestamp);
      ghost var flagged := seq(|table|, j requires 0 <= j < |table| => WithFlags(table[j]));
      updated := seq(|table|, j requires 0 <= j < |table| => WithFlags(table[j]));
      assert updated == outcome[..0] + flagged[0..];
      messages := [];
      var index := 0;
      var i := 0;
      while i < |table|
        invariant 0 <= i <= |table| == |updated| == |outcome| == |flagged|
        invariant index == CountEligible(table[..i])
        invariant updated == outcome[..i] + flagged[i..]
        invariant messages == PlansUpTo(table, emailLimit, internalRecipients, sender, testMode, i)
      {
        CountEligibleStep(table, i);
        PlansStep(table, emailLimit, internalRecipients, sender, testMode, i);
        assert updated[i] == flagged[i] == WithFlags(table[i]);
        if Eligible(updated[i]) {
          if emailLimit.Some? && index >= emailLimit.value {
            LimitReached(table, emailLimit, internalRecipients, sender, testMode, respond, timestamp, i);
            SpliceDone(outcome, flagged, i);
            break;
          }
          assert Attempted(table, emailLimit, i);
          MessageIgnoresFlags(table[i], internalRecipients, sender, testMode);
          var message := PlanMessage(updated[i]);
          messages := messages + [message];
          var after := RowAfterSend(updated[i], respond(index), timestamp);
          assert after == outcome[i];
          SpliceStep(outcome, flagged, i);
          updated := updated[i := after];
          index := index + 1;
        } else {
          assert !Attempted(table, emailLimit, i);
          assert flagged[i] == outcome[i];
          SpliceKeep(outcome, flagged, i);
        }
        i := i + 1;
      }
      if i == |table| {
        SpliceDone(outcome, flagged, i);
      }
    }
  }

  /** Once the limit is reached no later row is attempted and no further message is sent. */
  lemma LimitReached(table: seq<InvestorRow>, limit: Option<int>, internals: seq<InternalRecipient>, sender: string,
                     testMode: bool, respond: nat -> Response, timestamp: string, i: int)
    requires 0 <= i <= |table|
    requires limit.Some? && CountEligible(table[..i]) >= limit.value
    ensures forall j :: i <= j < |table| ==> SendOutcome(table, limit, respond, timestamp)[j] == WithFlags(table[j])
    ensures PlansUpTo(table, limit, internals, sender, testMode, |table|) == PlansUpTo(table, limit, internals, sender, testMode, i)
  {
    forall j | i <= j < |table| ensures !Attempted(table, limit, j) {
      CountEligiblePrefix(table, i, j);
    }
    PlansStable(table, limit, internals, sender, testMode, i, |table|);
  }

  lemma {:induction false} PlansStable(table: seq<InvestorRow>, limit: Option<int>, internals: seq<InternalRecipient>,
                                       sender: string, testMode: bool, i: int, n: int)
    requires 0 <= i <= n <= |table|
    requires forall j :: i <= j < |table| ==> !Attempted(table, limit, j)
    ensures PlansUpTo(table, limit, internals, sender, testMode, n) == PlansUpTo(table, limit, internals, sender, testMode, i)
    decreases n
  {
    if n > i {
      PlansStable(table, limit, internals, sender, testMode, i, n - 1);
    }
  }
}
