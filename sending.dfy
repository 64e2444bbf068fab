/**
  What `send_emails` of k1_processor.py decides, apart from the HTTP call itself: which rows are
  attempted, who each message goes to, and what each attempted row's status becomes given the
  response. The response of the k-th attempt is an input, `respond(k)`.
*/
module Sending {
  import opened Wrappers
  import opened Text
  import opened Reconciliation

  const SENT := "sent"
  /** The Graph API's "Accepted" status for `sendMail`. */
  const ACCEPTED := 202
  /** What `str()` makes of an empty cell. */
  const NAN := "nan"

  // ---------------------------------------------------------------- eligibility and the limit

  /** The `conditions` mask of lines 209-214. */
  predicate Eligible(row: InvestorRow) {
    row.matchedK1Filename.Some? && Truthy(row.active) && !Truthy(row.doNotSendOverride)
    && row.emailStatus != Some(SENT)
  }

  /** Lines 206-207: both flag columns rewritten as booleans, which is how the whole table is
      written back. */
  function WithFlags(row: InvestorRow): (r: InvestorRow)
    ensures r.active == Flag(Truthy(row.active)) && r.doNotSendOverride == Flag(Truthy(row.doNotSendOverride))
    ensures r == row.(active := r.active, doNotSendOverride := r.doNotSendOverride)
    ensures Eligible(r) == Eligible(row)
  {
    row.(active := Flag(Truthy(row.active)), doNotSendOverride := Flag(Truthy(row.doNotSendOverride)))
  }

  function CountEligible(rows: seq<InvestorRow>): (n: nat)
    ensures n <= |rows|
  {
    if rows == [] then 0
    else CountEligible(rows[..|rows| - 1]) + (if Eligible(rows[|rows| - 1]) then 1 else 0)
  }

  /** `email_limit is None or index < email_limit`, for the `index` of `enumerate`. */
  predicate WithinLimit(limit: Option<int>, index: nat) {
    limit.None? || index < limit.value
  }

  /** Row `i` is attempted: eligible, and among the first `email_limit` eligible rows. */
  predicate Attempted(table: seq<InvestorRow>, limit: Option<int>, i: int)
    requires 0 <= i < |table|
  {
    Eligible(table[i]) && WithinLimit(limit, CountEligible(table[..i]))
  }

  /** How many rows a limit lets through out of `n` eligible ones. */
  function AttemptCount(limit: Option<int>, n: nat): nat {
    match limit
    case None => n
    case Some(l) => if l <= 0 then 0 else if l < n then l else n
  }

  // ---------------------------------------------------------------- responses

  datatype Response = Reply(code: int, text: string) | Raised(message: string)

  predicate Delivered(response: Response) {
    response.Reply? && response.code == ACCEPTED
  }

  /** The status an attempted row is given, lines 317-331. */
  function StatusAfter(response: Response): string {
    match response
    case Reply(code, text) => if code == ACCEPTED then SENT else "fail " + IntToString(code) + ": " + text
    case Raised(e) => "error " + e
  }

  /** A row is marked "sent" exactly when the API accepted its message. */
  lemma StatusSentIff(response: Response)
    ensures StatusAfter(response) == SENT <==> Delivered(response)
  {
    if !Delivered(response) {
      var s := StatusAfter(response);
      assert s[0] == (if response.Reply? then 'f' else 'e');
      assert SENT[0] == 's';
    }
  }

  /** A failure status names the code, which reads back from the text. */
  lemma FailStatusNamesCode(code: nat, text: string)
    requires code != ACCEPTED
    ensures var s := StatusAfter(Reply(code, text));
      && s == "fail " + NatToString(code) + ": " + text
      && DigitsValue(s[5..5 + |NatToString(code)|]) == code
  {
    var s := StatusAfter(Reply(code, text));
    var digits := NatToString(code);
    assert s == "fail " + digits + ": " + text;
    assert s[5..5 + |digits|] == digits;
    NatToStringRoundTrip(code);
  }

  /** The row after its attempt. `update` skips the `None` written on failure, so the
      timestamp changes only on delivery. Every attempted row comes out with a status; it is
      "sent", and so never attempted again, exactly when the message was accepted. */
  function RowAfterSend(row: InvestorRow, response: Response, timestamp: string): (r: InvestorRow)
    ensures r.emailStatus == Some(StatusAfter(response))
    ensures r.emailStatus == Some(SENT) <==> Delivered(response)
    ensures Delivered(response) ==> r.emailBatchTimestamp == Some(timestamp) && !Eligible(r)
    ensures !Delivered(response) ==> r.emailBatchTimestamp == row.emailBatchTimestamp
    ensures r == row.(emailStatus := r.emailStatus, emailBatchTimestamp := r.emailBatchTimestamp)
  {
    StatusSentIff(response);
    row.(emailStatus := Some(StatusAfter(response)),
         emailBatchTimestamp := if Delivered(response) then Some(timestamp) else row.emailBatchTimestamp)
  }

  /** The table `send_emails` writes back. */
  function SendOutcome(table: seq<InvestorRow>, limit: Option<int>, respond: nat -> Response, timestamp: string): (result: seq<InvestorRow>)
    ensures |result| == |table|
  {
    seq(|table|, i requires 0 <= i < |table| =>
      if Attempted(table, limit, i) then RowAfterSend(WithFlags(table[i]), respond(CountEligible(table[..i])), timestamp)
      else WithFlags(table[i]))
  }

  /** What lines 339-344 write back. The attempts are logged as a frame whose "Index" column is
      dropped; a run that attempted nothing has no such column, raises there, and leaves the
      table unwritten. */
  function WrittenBack(table: seq<InvestorRow>, limit: Option<int>, respond: nat -> Response, timestamp: string): (w: Option<seq<InvestorRow>>)
    ensures w.None? <==> forall i :: 0 <= i < |table| ==> !Attempted(table, limit, i)
    ensures w.Some? ==> w.value == SendOutcome(table, limit, respond, timestamp)
  {
    NoAttemptIff(table, limit);
    if AttemptCount(limit, CountEligible(table)) == 0 then None else Some(SendOutcome(table, limit, respond, timestamp))
  }

  /** A run writes back its outcome exactly when it posted a message. */
  lemma WrittenBackOfRun(table: seq<InvestorRow>, limit: Option<int>, internals: seq<InternalRecipient>, sender: string,
                         testMode: bool, respond: nat -> Response, timestamp: string,
                         updated: seq<InvestorRow>, messages: seq<Message>)
    requires updated == SendOutcome(table, limit, respond, timestamp)
    requires messages == PlansUpTo(table, limit, internals, sender, testMode, |table|)
    ensures WrittenBack(table, limit, respond, timestamp) == if messages == [] then None else Some(updated)
  {
    PlansEmpty(table, limit, internals, sender, testMode, |table|);
  }

  /** No row is attempted exactly when the limit lets no eligible row through. */
  lemma NoAttemptIff(table: seq<InvestorRow>, limit: Option<int>)
    ensures AttemptCount(limit, CountEligible(table)) == 0 <==> forall i :: 0 <= i < |table| ==> !Attempted(table, limit, i)
  {
    PlansCount(table, limit, [], "", false, |table|);
    PlansEmpty(table, limit, [], "", false, |table|);
    assert table[..|table|] == table;
  }

  /** Rows that are not attempted (among them every row already "sent") keep their status and
      timestamp; attempted rows take the status their response gives. */
  lemma SendOutcomeSpec(table: seq<InvestorRow>, limit: Option<int>, respond: nat -> Response, timestamp: string)
    ensures forall i :: 0 <= i < |table| && table[i].emailStatus == Some(SENT)
              ==> SendOutcome(table, limit, respond, timestamp)[i] == WithFlags(table[i])
    ensures forall i :: 0 <= i < |table| && !Attempted(table, limit, i)
              ==> SendOutcome(table, limit, respond, timestamp)[i] == WithFlags(table[i])
    ensures forall i :: 0 <= i < |table| && Attempted(table, limit, i)
              ==> SendOutcome(table, limit, respond, timestamp)[i].emailStatus == Some(StatusAfter(respond(CountEligible(table[..i]))))
  {
    var out := SendOutcome(table, limit, respond, timestamp);
    forall i | 0 <= i < |table| && table[i].emailStatus == Some(SENT) ensures out[i] == WithFlags(table[i]) {
      assert !Eligible(table[i]);
      assert !Attempted(table, limit, i);
    }
  }

  /** A "sent" row is final: a second run with any responses leaves it as it is. */
  lemma SentIsFinal(table: seq<InvestorRow>, limit: Option<int>, respond: nat -> Response, timestamp: string,
                    respond2: nat -> Response, timestamp2: string, i: int)
    requires 0 <= i < |table|
    requires SendOutcome(table, limit, respond, timestamp)[i].emailStatus == Some(SENT)
    ensures var once := SendOutcome(table, limit, respond, timestamp);
      SendOutcome(once, limit, respond2, timestamp2)[i] == once[i]
  {
    var once := SendOutcome(table, limit, respond, timestamp);
    var r := once[i];
    if Attempted(table, limit, i) {
      assert r == RowAfterSend(WithFlags(table[i]), respond(CountEligible(table[..i])), timestamp);
    } else {
      assert r == WithFlags(table[i]);
    }
    assert WithFlags(r) == r;
    assert !Attempted(once, limit, i);
  }

  lemma {:induction false} CountEligiblePrefix(rows: seq<InvestorRow>, i: int, j: int)
    requires 0 <= i <= j <= |rows|
    ensures CountEligible(rows[..i]) <= CountEligible(rows[..j])
    decreases j - i
  {
    if i < j {
      CountEligiblePrefix(rows, i, j - 1);
      assert rows[..j][..j - 1] == rows[..j - 1];
    }
  }

  lemma CountEligibleStep(rows: seq<InvestorRow>, i: int)
    requires 0 <= i < |rows|
    ensures CountEligible(rows[..i + 1]) == CountEligible(rows[..i]) + (if Eligible(rows[i]) then 1 else 0)
  {
    assert rows[..i + 1][..i] == rows[..i];
  }

  // ---------------------------------------------------------------- recipients

  datatype Field = ToField | CcField | BccField

  /** Where a row's address goes by its `email_type`: "to", "cc", "bcc", anything else cc. */
  function SlotField(kind: string): Field {
    var k := Lower(kind);
    if k == "to" then ToField else if k == "cc" then CcField else if k == "bcc" then BccField else CcField
  }

  /** An entry of `internal_recipients`. */
  datatype InternalRecipient = InternalRecipient(address: string, kind: string)

  /** Where an internal recipient goes: cc or bcc by type, nowhere otherwise. */
  function InternalField(kind: string): Option<Field> {
    var k := Lower(kind);
    if k == "cc" then Some(CcField) else if k == "bcc" then Some(BccField) else None
  }

  /** The address written into the message: the sender's own in test mode. */
  function Addressee(address: string, sender: string, testMode: bool): string {
    if testMode then sender else address
  }

  /** The row's addresses for one field, in slot order, skipping the empty ("nan") ones. */
  function SlotAddresses(slots: seq<EmailSlot>, field: Field, sender: string, testMode: bool): seq<string> {
    if slots == [] then []
    else
      var s := slots[|slots| - 1];
      SlotAddresses(slots[..|slots| - 1], field, sender, testMode)
        + (if s.address != NAN && SlotField(s.kind) == field then [Addressee(s.address, sender, testMode)] else [])
  }

  function InternalAddresses(internals: seq<InternalRecipient>, field: Field, sender: string, testMode: bool): seq<string> {
    if internals == [] then []
    else
      var r := internals[|internals| - 1];
      InternalAddresses(internals[..|internals| - 1], field, sender, testMode)
        + (if InternalField(r.kind) == Some(field) then [Addressee(r.address, sender, testMode)] else [])
  }

  /** One more slot extends each list by its address when it is filled and of that list's type. */
  lemma SlotAddressesStep(slots: seq<EmailSlot>, s: int, field: Field, sender: string, testMode: bool)
    requires 0 <= s < |slots|
    ensures SlotAddresses(slots[..s + 1], field, sender, testMode)
         == SlotAddresses(slots[..s], field, sender, testMode)
            + (if slots[s].address != NAN && SlotField(slots[s].kind) == field then [Addressee(slots[s].address, sender, testMode)] else [])
  {
    assert slots[..s + 1][..s] == slots[..s];
  }

  /** One more internal recipient extends the list of its type by its address. */
  lemma InternalAddressesStep(internals: seq<InternalRecipient>, k: int, field: Field, sender: string, testMode: bool)
    requires 0 <= k < |internals|
    ensures InternalAddresses(internals[..k + 1], field, sender, testMode)
         == InternalAddresses(internals[..k], field, sender, testMode)
            + (if InternalField(internals[k].kind) == Some(field) then [Addressee(internals[k].address, sender, testMode)] else [])
  {
    assert internals[..k + 1][..k] == internals[..k];
  }

  /** The recipient lists and attachment of one message. `ccRecipients` and `bccRecipients` are
      present only when non-empty. */
  datatype Message = Message(to: seq<string>, cc: Option<seq<string>>, bcc: Option<seq<string>>, attachment: string)

  function Present(addresses: seq<string>): Option<seq<string>> {
    if addresses == [] then None else Some(addresses)
  }

  function MessageFor(row: InvestorRow, internals: seq<InternalRecipient>, sender: string, testMode: bool): Message
    requires row.matchedK1Filename.Some?
  {
    Message(
      SlotAddresses(row.slots, ToField, sender, testMode),
      Present(SlotAddresses(row.slots, CcField, sender, testMode) + InternalAddresses(internals, CcField, sender, testMode)),
      Present(SlotAddresses(row.slots, BccField, sender, testMode) + InternalAddresses(internals, BccField, sender, testMode)),
      row.matchedK1Filename.value)
  }

  /** Normalising the flags does not change the message a row gets. */
  lemma MessageIgnoresFlags(row: InvestorRow, internals: seq<InternalRecipient>, sender: string, testMode: bool)
    requires row.matchedK1Filename.Some?
    ensures WithFlags(row).matchedK1Filename.Some?
    ensures MessageFor(WithFlags(row), internals, sender, testMode) == MessageFor(row, internals, sender, testMode)
  {
  }

  /** Every address of every list, flattened. */
  function AllAddresses(m: Message): seq<string> {
    m.to + (match m.cc case None => [] case Some(c) => c) + (match m.bcc case None => [] case Some(b) => b)
  }

  lemma {:induction false} SlotAddressesTest(slots: seq<EmailSlot>, field: Field, sender: string)
    ensures forall a :: a in SlotAddresses(slots, field, sender, true) ==> a == sender
  {
    if slots != [] {
      SlotAddressesTest(slots[..|slots| - 1], field, sender);
    }
  }

  lemma {:induction false} InternalAddressesTest(internals: seq<InternalRecipient>, field: Field, sender: string)
    ensures forall a :: a in InternalAddresses(internals, field, sender, true) ==> a == sender
  {
    if internals != [] {
      InternalAddressesTest(internals[..|internals| - 1], field, sender);
    }
  }

  /** In test mode no message reaches anybody but the sender. */
  lemma TestModeOnlySender(row: InvestorRow, internals: seq<InternalRecipient>, sender: string)
    requires row.matchedK1Filename.Some?
    ensures forall a :: a in AllAddresses(MessageFor(row, internals, sender, true)) ==> a == sender
  {
    SlotAddressesTest(row.slots, ToField, sender);
    SlotAddressesTest(row.slots, CcField, sender);
    SlotAddressesTest(row.slots, BccField, sender);
    InternalAddressesTest(internals, CcField, sender);
    InternalAddressesTest(internals, BccField, sender);
  }

  function FilledSlots(slots: seq<EmailSlot>): nat {
    if slots == [] then 0
    else FilledSlots(slots[..|slots| - 1]) + (if slots[|slots| - 1].address != NAN then 1 else 0)
  }

  function RoutedInternals(internals: seq<InternalRecipient>): nat {
    if internals == [] then 0
    else RoutedInternals(internals[..|internals| - 1]) + (if InternalField(internals[|internals| - 1].kind).Some? then 1 else 0)
  }

  /** Each filled slot lands in exactly one of the three lists. */
  lemma {:induction false} SlotsPartition(slots: seq<EmailSlot>, sender: string, testMode: bool)
    ensures |SlotAddresses(slots, ToField, sender, testMode)| + |SlotAddresses(slots, CcField, sender, testMode)|
            + |SlotAddresses(slots, BccField, sender, testMode)| == FilledSlots(slots)
  {
    if slots != [] {
      SlotsPartition(slots[..|slots| - 1], sender, testMode);
    }
  }

  /** Each internal recipient typed cc or bcc lands in that list, the others nowhere. */
  lemma {:induction false} InternalsPartition(internals: seq<InternalRecipient>, sender: string, testMode: bool)
    ensures InternalAddresses(internals, ToField, sender, testMode) == []
    ensures |InternalAddresses(internals, CcField, sender, testMode)| + |InternalAddresses(internals, BccField, sender, testMode)|
            == RoutedInternals(internals)
  {
    if internals != [] {
      InternalsPartition(internals[..|internals| - 1], sender, testMode);
    }
  }

  /** A message has one address per filled slot and per routed internal recipient. */
  lemma MessageRecipientCount(row: InvestorRow, internals: seq<InternalRecipient>, sender: string, testMode: bool)
    requires row.matchedK1Filename.Some?
    ensures |AllAddresses(MessageFor(row, internals, sender, testMode))| == FilledSlots(row.slots) + RoutedInternals(internals)
    ensures MessageFor(row, internals, sender, testMode).cc != Some([])
    ensures MessageFor(row, internals, sender, testMode).bcc != Some([])
  {
    SlotsPartition(row.slots, sender, testMode);
    InternalsPartition(internals, sender, testMode);
  }

  /** Outside test mode the row's list for a field holds exactly its filled slots of that type. */
  lemma {:induction false} SlotAddressesMembership(slots: seq<EmailSlot>, field: Field, sender: string, a: string)
    ensures a in SlotAddresses(slots, field, sender, false)
        <==> exists k :: 0 <= k < |slots| && slots[k].address == a && a != NAN && SlotField(slots[k].kind) == field
  {
    if slots != [] {
      var init := slots[..|slots| - 1];
      SlotAddressesMembership(init, field, sender, a);
      if exists k :: 0 <= k < |slots| && slots[k].address == a && a != NAN && SlotField(slots[k].kind) == field {
        var k :| 0 <= k < |slots| && slots[k].address == a && a != NAN && SlotField(slots[k].kind) == field;
        if k < |init| {
          assert init[k] == slots[k];
        }
      }
      if exists k :: 0 <= k < |init| && init[k].address == a && a != NAN && SlotField(init[k].kind) == field {
        var k :| 0 <= k < |init| && init[k].address == a && a != NAN && SlotField(init[k].kind) == field;
        assert slots[k] == init[k];
      }
    }
  }

  /** A filled slot with an unrecognised or empty type is copied, never dropped. */
  lemma UnknownTypeIsCc(slots: seq<EmailSlot>, k: int, sender: string)
    requires 0 <= k < |slots| && slots[k].address != NAN
    requires Lower(slots[k].kind) != "to" && Lower(slots[k].kind) != "bcc"
    ensures slots[k].address in SlotAddresses(slots, CcField, sender, false)
  {
    assert SlotField(slots[k].kind) == CcField;
    SlotAddressesMembership(slots, CcField, sender, slots[k].address);
  }

  // ---------------------------------------------------------------- the messages of a run

  /** The messages of the first `n` rows, in table order. */
  function PlansUpTo(table: seq<InvestorRow>, limit: Option<int>, internals: seq<InternalRecipient>,
                     sender: string, testMode: bool, n: nat): seq<Message>
    requires n <= |table|
  {
    if n == 0 then []
    else
      PlansUpTo(table, limit, internals, sender, testMode, n - 1)
        + (if Attempted(table, limit, n - 1) then [MessageFor(table[n - 1], internals, sender, testMode)] else [])
  }

  /** One more row adds its message exactly when it is attempted. */
  lemma PlansStep(table: seq<InvestorRow>, limit: Option<int>, internals: seq<InternalRecipient>,
                  sender: string, testMode: bool, i: nat)
    requires i < |table|
    ensures PlansUpTo(table, limit, internals, sender, testMode, i + 1)
         == PlansUpTo(table, limit, internals, sender, testMode, i)
            + (if Attempted(table, limit, i) then [MessageFor(table[i], internals, sender, testMode)] else [])
  {
  }

  /** The run sends one message per eligible row, up to the limit. */
  lemma {:induction false} PlansCount(table: seq<InvestorRow>, limit: Option<int>, internals: seq<InternalRecipient>,
                                      sender: string, testMode: bool, n: nat)
    requires n <= |table|
    ensures |PlansUpTo(table, limit, internals, sender, testMode, n)| == AttemptCount(limit, CountEligible(table[..n]))
  {
    if n > 0 {
      PlansCount(table, limit, internals, sender, testMode, n - 1);
      CountEligibleStep(table, n - 1);
    }
  }

  /** No message is sent exactly when no row is attempted. */
  lemma {:induction false} PlansEmpty(table: seq<InvestorRow>, limit: Option<int>, internals: seq<InternalRecipient>,
                                      sender: string, testMode: bool, n: nat)
    requires n <= |table|
    ensures PlansUpTo(table, limit, internals, sender, testMode, n) == [] <==> forall i :: 0 <= i < n ==> !Attempted(table, limit, i)
  {
    if n > 0 {
      PlansEmpty(table, limit, internals, sender, testMode, n - 1);
    }
  }

  /** In particular never more than `email_limit` when one is set. */
  lemma PlansWithinLimit(table: seq<InvestorRow>, limit: int, internals: seq<InternalRecipient>, sender: string, testMode: bool)
    ensures |PlansUpTo(table, Some(limit), internals, sender, testMode, |table|)| <= if limit < 0 then 0 else limit
    ensures |PlansUpTo(table, None, internals, sender, testMode, |table|)| == CountEligible(table)
  {
    PlansCount(table, Some(limit), internals, sender, testMode, |table|);
    PlansCount(table, None, internals, sender, testMode, |table|);
    assert table[..|table|] == table;
  }
}
