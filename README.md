# K-1 tax communications: a verified model

The tax-communications tool mails each investor of a real-estate partnership the Schedule K-1
(Form 1065) that concerns them. It runs as a batch:

1. It gathers the K-1 PDFs, one sub-folder per investment.
2. It reads the issuing and the receiving entity off each PDF's text.
3. It turns folder and entities into a matching key.
4. It left-joins the investors spreadsheet onto the documents by that key and writes back a
   "file_found" status.
5. It mails each eligible investor their document through an HTTP mail API, up to a run limit,
   and records "sent", "fail …" or "error …".

An older, file-name-based processor (`email_k1.py`) builds the same kind of key from the file
name alone.

This project models that logic in Dafny and proves what it promises. The model follows the
source's own shape:

- `K1Processor.K1BatchProcessor` is a class whose `k1Array` field the methods update, as the
  Python object updates `self.k1_array`.
- Its methods are loops proved against specification functions. The functions are defined in
  `Discovery` (gathering), `Extraction` (entities), `MatchingKeys` (the key), `Reconciliation`
  (join, status, unmatched documents) and `Sending` (eligibility, recipients, outcome).
- `EmailK1.K1BatchProcessor` models the older processor's two lists and its loops.
- `Text` holds Python's string operations over ASCII: `lower`, `strip`, `in`, `endswith`,
  `isdigit`, `split`, `join`, the regex `\b` and `str.translate` deletion.

Behaviours the proofs bring out:

- **No deduplication on re-runs.** The join does not deduplicate. Re-running reconciliation
  on a table it already wrote back multiplies the rows of an investor with two or more equal-key
  documents (`Reconciliation.DuplicateMatchesMultiply`). With unique keys it rounds back exactly
  (`Reconciliation.ReconcileIdempotent`).
- **Stale number index in the older processor.** A file name with no number token reuses the
  previous file's `number_index`, because the local outlives the loop iteration
  (`EmailK1.StaleNumberIndex`). Only when it is the first such file does the run stop
  (`EmailK1.FirstWithoutNumberFails`).
- **The two normalisations differ.** They agree exactly on strings without an apostrophe
  (`EmailK1.NormalisationsAgreeIff`), so keys from the two processors differ for a name like
  "O'BRIEN".
- **"cid" removal is a single pass.** Removing ` (cid:ddd)X` can leave a new occurrence behind,
  as `re.sub` does (`Extraction.RemoveCidSinglePass`).
- **Send rewrites two flag columns.** The `active` and `do_not_send_override` columns are
  rewritten as booleans for every row, attempted or not (`Sending.SendOutcomeSpec`), in a run
  that attempts at least one row.
- **A run that sends nothing writes nothing.** With no row attempted (nothing eligible, or a
  limit of zero or less) the log of attempts has no "Index" column to drop, so the run raises
  before the table is written back; the messages already posted stay posted
  (`Sending.WrittenBack`, `K1Processor.K1BatchProcessor.SendEmails`).
- **Matching needs at least one document.** With an empty record array the frame of records has
  no columns to sort by, so matching raises right after making the keys
  (`K1Processor.K1BatchProcessor.MatchFilesAndKeys`).

## Model

| member | source | states |
|---|---|---|
| Discovery.FolderRecordsMembership | k1_processor.py:104-115 | a record is appended for a folder exactly when it is the fresh record of a `.pdf` file (any case) without "managers" whose path the array lacks |
| Discovery.NewRecordsMembership | k1_processor.py:101-115 | over the whole listing: a record is appended exactly when it is the fresh record (both entities None) of such a file in a directory entry |
| Discovery.NothingNewWhenAllPresent | k1_processor.py:109 | when every candidate path is already in the array, nothing is appended |
| Discovery.GatherIdempotent | k1_processor.py:96-117 | gathering the same listing again appends nothing |
| Discovery.FilePathInjective | k1_processor.py:108 | with '/'-free folder names, `folder/file` determines both folder and file |
| Discovery.SlashAfterFolder | k1_processor.py:108 | the first '/' of a path sits right after its folder name |
| Discovery.FilePathInFolder | k1_processor.py:108 | within one folder, equal paths mean equal file names |
| Discovery.UniqueConcat | k1_processor.py:117 | extending a path-unique array with path-unique records that share no path with it keeps paths unique |
| Discovery.FolderRecordsUnique | k1_processor.py:104-115 | distinct file names of one folder give records with distinct paths |
| Discovery.PathsDifferAcrossFolders | k1_processor.py:101-115 | records from different folders never share a path |
| Discovery.NewRecordsUnique | k1_processor.py:99-115 | the new records of a well-formed listing have pairwise distinct paths |
| Discovery.GatherKeepsPathsUnique | k1_processor.py:96-117 | gathering keeps the paths of the array unique |
| K1Processor.GatherSpec | k1_processor.py:96-117 | gathering keeps the existing records and their order as a prefix, is idempotent and preserves path uniqueness |
| K1Processor.K1BatchProcessor.GatherFiles | k1_processor.py:96-117 | the nested loops leave `k1Array` as the old array extended with exactly `NewRecords` of the listing |
| K1Processor.K1BatchProcessor.constructor | k1_processor.py:53-57 | the array starts as the loaded cache (empty when skipped or absent) followed by the new records of the listing |
| Extraction.CidShift | k1_processor.py:138 | the 11-character pattern ` (cid:ddd)X` at `i` of a tail is the pattern at `i + 1` of the whole |
| Extraction.RemoveCidShrinks | k1_processor.py:138 | removal never lengthens, and strictly shortens a string holding the pattern |
| Extraction.RemoveCidNoCid | k1_processor.py:138 | a string without the pattern is left alone |
| Extraction.RemoveCidUnchangedIff | k1_processor.py:138 | removal changes the string exactly when the pattern occurs |
| Extraction.RemoveCidSplitAtSpace | k1_processor.py:138 | removal distributes over a split before a space |
| Extraction.RemoveCidSinglePass | k1_processor.py:138 | one left-to-right pass: removing one occurrence can expose a new one, which stays |
| Extraction.IssuingPlain | k1_processor.py:133-139 | without spill or pattern the issuing entity is the stripped line three below the anchor |
| Extraction.SpillTailHasNoCid | k1_processor.py:135-138 | a line reading "investors llc" holds no pattern, not even behind the joining space |
| Extraction.IssuingSpill | k1_processor.py:135-138 | when that line lowercases to "investors llc", the stripped line above it and one space are prepended, and only that part can lose "cid" text |
| Extraction.IssuingCidExample | k1_processor.py:138 | "SMITH (cid:039)X FUND" becomes "SMITH FUND" |
| Extraction.ReceivingChoice | k1_processor.py:140-146 | the receiving entity is one of the two candidate lines; it is the upper one exactly when the expected line has a whole word "st" or "street" (any case), so a line without an "s" is always kept |
| Extraction.StartsWithS | k1_processor.py:143 | a whole word beginning with "s" in the lower-cased line means the line holds an "s" or "S" |
| Extraction.StreetExample | k1_processor.py:143-144 | when the expected line strips to "123 Main St", the partner is the stripped line above it |
| Extraction.NoStreetExample | k1_processor.py:143-144 | when it strips to "Stone Creek LLC" (whose "st" sits inside a word), that line is the partner |
| Extraction.LastAnchor | k1_processor.py:132-146 | the line the loop reads an entity from last is the last anchor line, and there is none exactly when no line holds the anchor |
| Extraction.ResolveLinesFound | k1_processor.py:132-146 | an entity is set exactly when its anchor occurs, and it is read at the last anchor occurrence |
| Extraction.FirstFormPage | k1_processor.py:128-130 | the chosen page is the first page holding "Schedule K-1 (Form 1065)", and there is none exactly when no page holds it |
| Extraction.NoFormNoEntities | k1_processor.py:130 | a document with no form page leaves both entities None |
| Extraction.LaterPagesIgnored | k1_processor.py:147 | pages after the first form page change nothing |
| Extraction.EarlierPagesIgnored | k1_processor.py:128-130 | pages without the form before it change nothing |
| Extraction.FirstFormPageIs | k1_processor.py:128-130 | a form page preceded only by pages without the form is the chosen one |
| Extraction.ScanPages | k1_processor.py:128-147 | the page loop with its `break` yields the entities of the first form page |
| Extraction.ScanLines | k1_processor.py:132-146 | the line loop yields `ResolveLines` of the page |
| Extraction.ExtractAll | k1_processor.py:122-146 | one record out per record in |
| Extraction.ExtractKeepsOthers | k1_processor.py:122 | records with either entity set are untouched; the others change only in their entities |
| Extraction.ExtractIdempotent | k1_processor.py:122-146 | extracting again changes nothing |
| K1Processor.K1BatchProcessor.ExtractEntities | k1_processor.py:120-147 | the record loop leaves `k1Array` as `ExtractAll` of the old array |
| MatchingKeys.NormaliseIsClean | k1_processor.py:159-168 | a normalised string holds no space, '.', ',', '’', ''' and no capital |
| MatchingKeys.NormaliseConcat | k1_processor.py:168 | normalisation distributes over concatenation |
| MatchingKeys.NormaliseIdempotent | k1_processor.py:168 | normalising twice equals normalising once |
| MatchingKeys.NormaliseHash | k1_processor.py:168 | the '#' separators survive normalisation |
| MatchingKeys.NormaliseTriple | k1_processor.py:168 | the key of a triple is the triple of normalised parts |
| MatchingKeys.MatchingKey | k1_processor.py:168 | the key is the three normalised parts joined by '#', a None entity rendered "None" |
| MatchingKeys.NormaliseIgnoresStopChar | k1_processor.py:159-165 | inserting a stop character does not change the normalised string |
| MatchingKeys.NormaliseIgnoresCase | k1_processor.py:168 | lower-casing first does not change it |
| MatchingKeys.KeyIsClean | k1_processor.py:159-168 | a key holds no stop character and no capital |
| MatchingKeys.KeyIgnoresStopCharsAndCase | k1_processor.py:159-168 | investment names differing in stop characters or case give the same key |
| MatchingKeys.MissingEntityKey | k1_processor.py:168 | a missing issuing entity contributes "none" to the key |
| MatchingKeys.KeyExample | k1_processor.py:168 | ("ACME FUND", "ACME FOREST LLC", "JOHN Q. PUBLIC") gives "acmefund#acmeforestllc#johnqpublic" |
| K1Processor.WithKeysSpec | k1_processor.py:167-168 | every record gets the key of its own fields and nothing else changes; keys are clean; keying twice equals keying once |
| K1Processor.K1BatchProcessor.CreateMatchingKeys | k1_processor.py:157-168 | the loop leaves `k1Array` as `WithKeys` of the old array |
| Reconciliation.MatchesFor | k1_processor.py:182 | every document a row matches is one of the documents and carries the row's key, and there are no more matches than documents |
| Reconciliation.MatchesForMembership | k1_processor.py:182 | a document matches a row exactly when it is among the documents and has the row's key |
| Reconciliation.NoMatchesEmpty | k1_processor.py:182 | with no equal-key document there are no matches |
| Reconciliation.JoinRowMembership | k1_processor.py:182-183 | one row joins to a copy per matching document carrying its path, or to itself unmatched when none matches |
| Reconciliation.LeftJoinMembership | k1_processor.py:182-183 | a joined row is exactly such a copy of some investor row |
| Reconciliation.EveryInvestorKept | k1_processor.py:182-183 | every investor row is in the join: with each equal-key document's path, or unmatched when there is none (membership; the count is `LeftJoinLength`) |
| Reconciliation.LeftJoinLength | k1_processor.py:182 | the join has one row per match, and never fewer rows than the table |
| Reconciliation.WithStatus | k1_processor.py:193-196 | a row that has a status is left alone; afterwards a row has a status exactly when it had one or is matched, and it is "file_found" exactly when it was or the row is matched with none; only the status changes |
| Reconciliation.WriteBackStatusSpec | k1_processor.py:193-196 | an existing status (such as "sent") is kept, and a row has a status afterwards exactly when it had one or is matched |
| Reconciliation.WriteBackStatusIdempotent | k1_processor.py:193-196 | writing the status back twice equals once |
| Reconciliation.Unmatched | k1_processor.py:187 | every unmatched document is one of the documents and no investor row has its key, and there are no more of them than documents |
| Reconciliation.UnmatchedMembership | k1_processor.py:187 | a document is unmatched exactly when no investor row has its key |
| Reconciliation.UnmatchedAgreesWithJoin | k1_processor.py:182-187 | with unique paths, a document is unmatched exactly when no joined row carries its path |
| Reconciliation.SamePathSameDoc | k1_processor.py:183 | with unique paths, a path names one document |
| Reconciliation.AtMostOneMatch | k1_processor.py:182 | with unique document keys a row matches at most once |
| Reconciliation.JoinRowSingle | k1_processor.py:182-183 | so a row joins to exactly one row |
| Reconciliation.LeftJoinUniqueKeys | k1_processor.py:182-183 | with unique keys the join is row-for-row |
| Reconciliation.ReconcileIdempotent | k1_processor.py:172-198 | with unique keys, reconciling the written-back table again gives the same table |
| Reconciliation.MatchesForSameKey | k1_processor.py:182 | rows with equal keys match the same documents |
| Reconciliation.DuplicateMatchesMultiply | k1_processor.py:172-198 | a row with two equal-key documents becomes two rows, and four on a second run |
| K1Processor.K1BatchProcessor.MatchFilesAndKeys | k1_processor.py:172-198 | makes the keys; then fails (no result) exactly when the record array was empty, and otherwise returns the joined and written-back table and the unmatched documents |
| Sending.WithFlags | k1_processor.py:206-207 | both flags become booleans by pandas truthiness (empty and "nan" false); nothing else changes; eligibility is unaffected |
| Sending.CountEligible | k1_processor.py:209-216 | the eligible rows are at most all rows |
| Sending.StatusSentIff | k1_processor.py:317-331 | the status is "sent" exactly when the reply code is 202 |
| Sending.FailStatusNamesCode | k1_processor.py:326 | any other code gives "fail <code>: <text>" |
| Sending.RowAfterSend | k1_processor.py:317-331 | an attempted row always comes out with a status; it is "sent" exactly on a 202 reply, and then it has the run timestamp and is no longer eligible; otherwise its timestamp is kept; nothing else changes |
| Sending.SendOutcome | k1_processor.py:206-337 | the table as the send loop leaves it, one row per row; whether it is written back is `WrittenBack` |
| Sending.WrittenBack | k1_processor.py:339-344 | the table is written back exactly when some row was attempted, and then it is `SendOutcome` |
| Sending.NoAttemptIff | k1_processor.py:230-232 | no row is attempted exactly when the limit lets no eligible row through |
| Sending.WrittenBackOfRun | k1_processor.py:333-344 | given a run's outcome and messages, the table is written back exactly when a message was posted |
| Sending.SendOutcomeSpec | k1_processor.py:209-343 | "sent" rows keep their status; unattempted rows keep status and timestamp; attempted rows (matched, active, not overridden, not sent, within the limit in table order) get their response's status |
| Sending.SentIsFinal | k1_processor.py:209-343 | a row sent in one run is not attempted in the next, so it stays as it is |
| Sending.CountEligiblePrefix | k1_processor.py:230-231 | the eligible rows of a prefix never outnumber those of a longer prefix |
| Sending.CountEligibleStep | k1_processor.py:230-231 | one more row adds one eligible row exactly when it is eligible |
| Sending.SlotAddressesTest | k1_processor.py:265 | in test mode every slot address is the sender |
| Sending.InternalAddressesTest | k1_processor.py:282 | in test mode every internal address is the sender |
| Sending.TestModeOnlySender | k1_processor.py:258-288 | in test mode every address of a message is the sender |
| Sending.SlotsPartition | k1_processor.py:258-276 | each filled (not "nan") slot lands in exactly one of to, cc and bcc |
| Sending.InternalsPartition | k1_processor.py:279-288 | internals never go to "to"; each cc or bcc internal lands in exactly one list, and other types in none |
| Sending.MessageRecipientCount | k1_processor.py:254-312 | a message addresses every filled slot and routed internal exactly once, and lists cc and bcc only when non-empty |
| Sending.SlotAddressesMembership | k1_processor.py:258-276 | outside test mode, an address lands in a list exactly when some filled slot of that type holds it |
| Sending.UnknownTypeIsCc | k1_processor.py:274-275 | outside test mode, a filled slot whose type is neither to nor bcc (any case) has its address in the cc list |
| Sending.PlansCount | k1_processor.py:230-232 | a run builds one message per eligible row up to the limit |
| Sending.PlansEmpty | k1_processor.py:230-232 | no message is built exactly when no row is attempted |
| Sending.PlansWithinLimit | k1_processor.py:231 | at most `email_limit` messages, and every eligible row without a limit |
| K1Processor.K1BatchProcessor.PlanMessage | k1_processor.py:254-312 | the recipient loops build `MessageFor` the row |
| K1Processor.K1BatchProcessor.RouteSlots | k1_processor.py:258-276 | the slot loop puts each real address in its field, an unknown type in cc, the sender's address in test mode |
| K1Processor.K1BatchProcessor.RouteInternals | k1_processor.py:279-288 | the internal recipients are appended after the slot addresses, to cc or bcc by type, others dropped |
| K1Processor.K1BatchProcessor.AttemptRows | k1_processor.py:230-337 | the send loop with its early break returns `SendOutcome` and the messages of every attempted row, in order |
| K1Processor.K1BatchProcessor.SendEmails | k1_processor.py:203-344 | returns `WrittenBack` (nothing when no row was attempted) and the messages of every attempted row, in order |
| K1Processor.LimitReached | k1_processor.py:231-232 | once the limit is reached no later row is attempted and no further message is built |
| K1Processor.PlansStable | k1_processor.py:230-232 | rows that are not attempted add no message |
| EmailK1.LegacyNormaliseIsClean | email_k1.py:38-65 | the older key holds no space, '.', ',' or capital, and normalising again changes nothing |
| EmailK1.FolderPathsMembership | email_k1.py:33-35 | a path is taken from a folder exactly when it names one of its `.pdf` files (any case) |
| EmailK1.LegacyPathsMembership | email_k1.py:30-35 | a path is gathered exactly when it names a `.pdf` of a directory entry, "managers" files included |
| EmailK1.LegacyGathersMore | email_k1.py:30-35 | every path the newer processor appends is gathered by the older one too |
| EmailK1.K1BatchProcessor.GatherFiles | email_k1.py:26-35 | the loops append exactly `LegacyPaths` of the listing |
| EmailK1.PathSplit | email_k1.py:47-49 | a gathered path splits on '/' into its folder and its file name |
| EmailK1.RothIdIgnored | email_k1.py:52-54 | the first token (the Roth ID) never reaches the entities |
| EmailK1.FirstNumberToken | email_k1.py:57-60 | the split point is an all-digit token with no all-digit token before it |
| EmailK1.FirstNumberTokenUnique | email_k1.py:57-60 | that index is the only one with both properties |
| EmailK1.K1BatchProcessor.FindNumberIndex | email_k1.py:57-60 | the loop with its `break` finds the first all-digit token, and otherwise leaves `number_index` as it was |
| EmailK1.DropExtension | email_k1.py:63 | `[:-4]` drops the last four characters, leaving nothing from a shorter string |
| EmailK1.ParseFilenameLayout | email_k1.py:52-63 | a name laid out as ID, issuing words, number, receiving words parses into the two runs of words joined without spaces, the receiving run less its extension |
| EmailK1.GotaExample | email_k1.py:51-63 | "23P_3189 GOTA FOREST PLACE LLC 1 GOTA LLC.pdf" gives "GOTAFORESTPLACELLC" and "GOTALLC" |
| EmailK1.LegacyKeyOfFilePath | email_k1.py:46-65 | a gathered path's key is built from its folder and its parsed file name |
| EmailK1.SliceTo | email_k1.py:62 | `s[:n]` is the first n elements, or all of them when there are fewer |
| EmailK1.SliceFrom | email_k1.py:63 | `s[n:]` is what follows index n, or nothing past the end |
| EmailK1.KeysFrom | email_k1.py:46-66 | exactly one key per path |
| EmailK1.KeyAtFirstNumber | email_k1.py:57-65 | with a number token the clamped slices are the plain ones |
| EmailK1.KeysOfParsablePaths | email_k1.py:46-66 | when every file name has a number token the run completes and each key depends on its own path only |
| EmailK1.StaleNumberIndex | email_k1.py:57-63 | a file name without a number token is parsed at the previous file's index |
| EmailK1.FirstWithoutNumberFails | email_k1.py:57-62 | a first file name without a number token leaves `number_index` unbound |
| EmailK1.NormalisationsAgreeIff | email_k1.py:39-43 | the older and newer normalisations agree exactly on strings without an apostrophe |
| EmailK1.K1BatchProcessor.PathKey | email_k1.py:47-65 | the loop body yields the `number_index` after the search and the key built at it |
| EmailK1.K1BatchProcessor.CreateMatchingKeys | email_k1.py:37-66 | the loop appends `KeysFrom` of the paths, in path order, carrying `number_index` from path to path |
| EmailK1.K1BatchProcessor.constructor | email_k1.py:19-23 | both lists start empty, then hold the gathered paths and their keys |

## Left out

- PDF text extraction (pdfplumber) and `splitlines`: a document is given as pages of lines.
- Extraction.IssuingAt: an anchor too close to the end of the page raises IndexError and ends the
  run. The model makes in-bounds anchors on the first form page a precondition (`AnchorsInBounds`).
- Spreadsheet and CSV reading and writing, and the `sort_values` and `value_counts` displays:
  tables are sequences of rows. The join keeps investor order, then document order, in place of
  pandas' sorted output.
- A NaN matching key on either side of the join is not modelled: keys are strings.
- The pickle cache file: the constructor takes the loaded array, or none, as a parameter.
- Directory creation, the spreadsheet snapshot and `_reset_status`: file-system side effects.
- The match-success percentage: a floating-point display. Only the unmatched documents are modelled.
- HTTP POST, base64 encoding, the subject, body and attachment-name templates, and the access
  token: each reply is an abstract response (a code and text, or a raised error) drawn from
  `respond`, indexed by attempt.
- Opening the PDF attachment, which happens outside the `try` and would end the run on failure,
  is not modelled.
- The write of "cc" into an unknown `email_type` column: it is not among the columns written
  back, so it never reaches the spreadsheet.
- The `sent_statuses` log file and all printing; of the log only the failure to build it when
  nothing was attempted is modelled (`Sending.WrittenBack`).
- InternalRecipient: the entries are records with an address and an `email_type`, as the body
  of `send_emails` reads them. The entry point passes plain address strings instead, so indexing
  `email_type` would raise a TypeError outside the `try` and end the run; that caller is not
  part of this model.
- K1Processor.K1BatchProcessor.MatchFilesAndKeys: the investors sheet is assumed to carry its
  own `investment_name`, `issuing_entity` and `receiving_entity` columns. Only then does the
  merge suffix the record columns with `_from_pdf`, so that the drop at k1_processor.py:192
  finds them; without them the drop raises KeyError after the unmatched documents are written
  and before the table is written back.
- The match-success division by the number of records: it can only fail on an empty array, which
  already fails at the sort before it (`K1Processor.K1BatchProcessor.MatchFilesAndKeys`).
- Credential fetching, the network test script, the logger, the configuration module and its
  interactive confirmation, and the import-time instantiation of the older processor: outside
  the modelled logic.
- Unicode: `lower`, `isdigit`, `strip`, `\b` and the regex `\d` of the "cid" pattern are
  modelled over ASCII; other characters are left as they are, and a non-ASCII decimal digit is
  not taken as a digit.
- Investor columns the logic does not read (names, city, state) are not modelled.
