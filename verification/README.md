# QNX network services: a verified model

The repository holds small network services: a table server, a traffic billing filter with
its logger, a DNS forwarder and a mail server.  This project models the parts of them that
carry state and proves what they are for.

| file | models |
|---|---|
| `FlatTable.dfy` | what a table means to its clients: one sequence of rows |
| `Pager.dfy` | the paged store of Qbase on values: resident pages, dirty flags, eviction, the data file |
| `Layout.dfy` | the octets of a row, its fields, and update rules |
| `Arithmetic.dfy` | what the actions of an update make of numbers |
| `Requests.dfy` | the requests of all connections and whole runs of them, on the paged store and on the flat table |
| `ClientView.dfy` | what clients get from the requests, in terms of their rules, rows and values |
| `LostUpdate.dfy` | a run of requests in which the code loses an update |
| `QbaseHeap.dfy`, `QbaseServer.dfy` | the same server with linked pages, as classes and methods |
| `PacketLog.dfy` | the packet log as a protocol of interleaved threads |
| `LogBuffers.dfy` | its two routines on the module's own buffers, pointers and counters |
| `RuleTree.dfy` | the rule lists of the filter and their swap |
| `Sessions.dfy` | folding a packet log into sessions |
| `Generations.dfy` | the logger's double-buffered lists and its cycle with the filter |
| `FilledLists.dfy` | what those lists hold, row by row of the database |
| `Accounts.dfy`, `Pricing.dfy` | balances and the log table; pricing and debit of a batch |
| `Charges.dfy` | what a session is charged, in terms of the rows of the database |
| `Consistency.dfy`, `EndOfDay.dfy` | the repair run and the daily charges |
| `DnsQueue.dfy`, `DnsLists.dfy` | the forwarder's buffers and pending queries: as a protocol, and pointer by pointer |
| `Names.dfy`, `MasterNames.dfy` | domain names: encoders, decoder, matching, compression |
| `SmtpData.dfy` | the receive loop of SMTP DATA |
| `Base64.dfy` | the Base64 codec |
| `Common.dfy` | stock types, 32-bit words and their conjunction, and a search for the first place |

Where the source changes things step by step, a method with loops does here, and is tied to a
function of the state before it; what the source promises is proved about those functions.
The two concurrent protocols are state machines whose steps are the stretches of code between
two lock operations (for the packet log, single lines), and their theorems hold for every run.

## Where the code departs from what it says

- **Replaced pages.** A comment (QX-base/qbase_iofunc.c:1262-1266) says a dirty page is
  written before it is replaced.  `LockTablePage` does so only when it recycles the first page
  (153-172), not when it overwrites the page after the one wanted (203-209).
  `Pager.Store.syncReplaced` chooses: `false` is the code, `true` the comment.
  `Pager.LockPageKeepsTable` gives the exact condition, `LostUpdate.RunLosesAnUpdate` twelve
  requests to a new table that end with other rows than they should, and the theorems on runs
  hold for the intended store always (`Requests.IntendedRunsAreCalm`) and for the code while the
  table fits in memory or under a condition on requests (`Requests.SafeRunsAreCalm`).
- **An update writes 4, 2 or 8 octets into a number** whatever length the descriptor gives it
  (1084-1233), and TBLCREATE does not compare the two.  `Layout.FieldwiseIffSized` says that
  updates keep to their fields exactly if each has room for its kind; `Layout.SetMetrics`
  establishes that, and `Layout.NarrowKeySpills` is a descriptor for which it fails.
- **SEEK** accepts the key one past the last row (1290-1296), and an UPDCUR that then finds no
  row answers with the code that was there before.  A SEEK that fails leaves the cursor on the
  first row, and the billing loops update without looking at its answer
  (QX-billing/qxl_main.c:1143-1148): `Pricing.BillingKeepsWorth` has the exact effect.
- **The repair run** credits the present account of the row's card rather than the account
  the row names (QX-billing/qxl_consistency.c:317-329), and a SEEK that fails between debit and
  credit leaves the debit.  `Consistency.RepairDrifts` states what that adds up to.
- **The filter swaps its log and its rules one after the other**
  (QX-billing/qxc_rm.c:68-72).  A packet that comes in between is logged into the new period
  under old rules.  `Generations.SessionsHaveCards`: every session of a run finds its card if
  and only if each such packet had one in the bank about to come into force;
  `AtomicSwapsSuffice`: were the swaps one, none would miss it; `EarlyPacketMisses`: one does.
  Matching a packet and storing it are one step here; in the code they are two locked ones
  (QX-billing/qxc_main.c:348, 359), so that a packet matched before both swaps can be stored
  after them too.  Accounts and cards with a foreign key of 0 keep a NULL pointer; the theorems
  on pointers ask for nonzero keys.
- **DNS query numbers** have 16 bits, and a response goes to the first query of its number.
  `DnsQueue.WhoseAnswer` says when a client is given the answer to its own query, and
  `DnsQueue.WindowSuffices` that pending queries within 65536 of each other are enough.
- **A retried DNS query** goes to the tail of the queue with its old `next`
  (QX-dns/main.c:202-209, 310-318).  `DnsLists.Forwarder.Requeue` gives the exact condition under
  which the queue survives; the protocol of `DnsQueue` takes `next` as cleared.
- **The expiry sweep** does not move on after a resend (893-932), so an expired query goes to
  all servers left and is dropped at once (`DnsQueue.SweepBurns`).
- **An octet 0xC0 inside a stored label** is taken for the mark of the zone
  (QX-dns/master.c:71).  `MasterNames.MatchIffSame` says what is found for any stored labels:
  the name itself, or one that the query leaves at such an octet and whose rest is the zone.
  `MasterNames.MarkInsideLabel` is a family of names found that way.
- **A printed name can leave its packet.**  Both calls of `rprt_name` (324-326, 407-409) put it
  12 octets behind `datalen` and allow it 502 - `datalen`, in a buffer of 512.
  `MasterNames.InsideIffShort`: it stays inside exactly if it has at most 500 - `datalen` octets;
  `PrintRecordName`: otherwise the last octet written is one to three places behind the buffer;
  `FourLabelsOverrun` is such a name.
- **SMTP DATA** takes a mail exactly if some read shows its end, and cuts it at the first that
  does (`SmtpData.FeedStops`).  So it drops a client once the buffer is full with its last CR in
  the first three places or at the very end (`ChunkIndependent`, `FullBufferDrops`), never sees
  the end of a mail that is only a dot line (`EmptyMailNeverEnds`), and loses one whose
  terminator arrives together with later lines (`PipelinedCommandHidesEnd`).

## Model

| member | source | states |
|---|---|---|
| FlatTable.SweepIsMap | QX-base/qbase_iofunc.c:1044-1279 | UPDATE and DELETE on a flat table are one pass of a per-row map over the rows before the first strict failure, and touch no other row |
| FlatTable.FetchIsSelected | QX-base/qbase_iofunc.c:283-344 | one fetch gives the next selected row and leaves the cursor where the remaining selection starts, or LASTROW if nothing is left |
| FlatTable.FetchIsComplete | QX-base/qbase_iofunc.c:283-344 | any number of fetches in a row give exactly the rows that pass all filters, in order and once each, up to the first strict failure, and LASTROW for ever after |
| Pager.LockPage | QX-base/qbase_iofunc.c:132-218 | page lookup keeps the store valid (sorted pool, at most LockPages pages, last page last), answers null exactly for pages past the last, and else the page asked for |
| Pager.LockPageBlock | QX-base/qbase_iofunc.c:132-218 | block by block, lookup and eviction change nothing but the rows of a page replaced in place without a sync, which fall back to the file's |
| Pager.LockPageKeepsTable | QX-base/qbase_iofunc.c:151-209 | lookup keeps the whole table if and only if it does not drop an unsynced page whose rows differ from the file's |
| Pager.CodeLosesAnUpdate | QX-base/qbase_iofunc.c:203-209 | a lookup in a store of five pages that loses the update of another page |
| Pager.GapBeforeValid | QX-base/qbase_iofunc.c:203-209 | the store of that lookup satisfies every invariant of a running server |
| LostUpdate.RunLosesAnUpdate | QX-base/qbase_iofunc.c:203-209 | from a new table: five inserts, flush, fetch row 1, SEEK 3 and UPDCUR, SEEK 2 and fetch; if the update changes the third row at all, the server ends with other rows than a flat table |
| LostUpdate.SuchATable | QX-base/qbase_iofunc.c:1084-1233 | a table and an update to which that applies |
| Pager.LockPageQuiet | QX-base/qbase_iofunc.c:132-218 | while all pages of the table fit in memory, or those after the one looked up are clean (or the documented sync is done), lookup keeps the table and the condition |
| Pager.FullPool | QX-base/qbase_iofunc.c:151-209 | a page is replaced in place only in a table of more pages than the pool |
| Pager.LockPageClean | QX-base/qbase_iofunc.c:203-205 | lookup dirties no page |
| Pager.SetRowContents | QX-base/qbase_iofunc.c:1081-1239 | rewriting a row in its resident page rewrites exactly that row of the table |
| Pager.FetchPagesIsFetch | QX-base/qbase_iofunc.c:276-344 | the nested page and row loop, through the cache, gives the reply and the cursor of a fetch from the flat table and leaves the table alone; it terminates and never fails to find a page |
| Pager.SweepPagesIsSweep | QX-base/qbase_iofunc.c:1044-1279 | the UPDATE/DELETE loop over pages is one sweep of the flat table |
| Pager.UpdateCurrentIsUpdateOne | QX-base/qbase_iofunc.c:1036-1041 | UPDCUR changes at most the cursor's row, and finds no page exactly if the cursor is beyond a nonempty table |
| Pager.AppendedIsAppend | QX-base/qbase_iofunc.c:393-449 | write appends exactly one row, also when it turns the last page over, and leaves no page unsaved that was saved |
| Pager.TurnedContents | QX-base/qbase_iofunc.c:398-414 | syncing the full last page and bumping its index keeps the table |
| Pager.PlacedContents | QX-base/qbase_iofunc.c:418-443 | storing the row after the last one appends it |
| Pager.TableSyncedContents | QX-base/qbase_filefunc.c:39-63 | a flush keeps the table |
| Pager.TableSyncedValid | QX-base/qbase_filefunc.c:39-63 | a flush keeps every invariant and leaves no page unsaved |
| Pager.FileHasRow | QX-base/qbase_filefunc.c:39-63 | after a flush the data file alone holds every row at its place |
| Pager.FlushThenOpen | QX-base/qbase_iofunc.c:659-684 | flush or release followed by select restores the table and every invariant, including the full last page reloaded as the next, empty one |
| Pager.CreatedValid | QX-base/qbase_iofunc.c:769-850 | a created table, with the three pages the server insists on, satisfies every invariant and is empty |
| Layout.FixTable | QX-base/qbase_client.c:44-55 | lays fields out one after another: each offset is the sum of the lengths before it and the row length the sum of all |
| Layout.TilesRow | QX-base/qbase_client.c:44-55 | every octet of a row belongs to exactly one field |
| Layout.SetMetrics | QX-base/qbase_client.c:152-190 | sets kind and length of one field and lays the table out again: the field has room for its kind, the others keep theirs, and a table whose fields all have room stays one |
| Layout.NewDescriptor | QX-base/qbase_client.c:120-150 | a new descriptor: the key and the columns, all unsigned numbers of four octets with room for them |
| Layout.ApplyIsFieldwise | QX-base/qbase_iofunc.c:1084-1233 | where every field has room for its kind, an update makes of each field what its own action says of the octets of its kind, and touches no other |
| Layout.FieldwiseIffSized | QX-base/qbase_iofunc.c:1106-1226 | updates leave the fields without an action alone, for every row and update, if and only if every field has room for its kind |
| Layout.Spills | QX-base/qbase_iofunc.c:1106-1226 | a field that a number of its kind does not fit in: some update of it alone changes another field |
| Layout.NarrowKeySpills | QX-base/qbase_iofunc.c:1106-1110 | a descriptor with a four-octet number in a field of two: setting it overwrites the next field |
| Layout.PatchElsewhere | QX-base/qbase_iofunc.c:1084-1233 | writing within one field leaves every other field as it was |
| Layout.WordOfBytes | QX-base/qbase_iofunc.c:1108-1226 | octets of a number read back as the number, if it fits the field |
| Layout.BytesOfWord | QX-base/qbase_iofunc.c:1108-1226 | a field's octets are those of the number they are read as |
| Layout.WordConcat | QX-base/qbase_iofunc.c:1108-1226 | the first octets of a number are the low ones |
| Arithmetic.NumberComputed | QX-base/qbase_iofunc.c:1101-1197 | for the four integer kinds, in terms of the numbers before: after action 2, 3 or 4 the field is their sum, difference or product modulo its word; after 5 and a value other than 0 the quotient, of INT and INT16 towards zero on the two's complement values; after 1 the value; after any other action it is as it was |
| Arithmetic.UpdatePerforms | QX-base/qbase_iofunc.c:1084-1233 | each field of an updated row holds what its own action makes of its own octets and the request's, in as many octets as its kind has (4, 2, 8, or its length), and keeps those behind them |
| Requests.StepRefines | QX-base/qbase_iofunc.c:533-1306 | every request has on the paged store the effect, the answer and the connection state it has on a flat sequence of rows |
| Requests.RunRefines | QX-base/qbase_iofunc.c:533-1306 | whole runs of requests from any connections get the same answers from the paged store as from the flat table and leave the same rows |
| ClientView.FilterDecides | QX-base/qbase_iofunc.c:91-117 | a row passes if and only if it is not deleted and meets every rule; if it is there, the first rule it fails stops the scan exactly if it is strict and passes the row over otherwise; a deleted row is passed over |
| ClientView.ReadThrough | QX-base/qbase_iofunc.c:276-344 | FETCHRST, a new rule or the deletion of all, and then n FETCH requests in a calm run: the rows that are there and meet all the connection's rules, in order, up to the first there whose first failing rule is strict, and then LASTROW |
| ClientView.MoreRulesShowLess | QX-base/qbase_iofunc.c:929-1002 | without rules every row that is there is shown; with a rule added, those of them that meet it too, and a row that fails it bars those behind it exactly if it is strict |
| ClientView.PopUndoesPush | QX-base/qbase_iofunc.c:946-1002 | FLTRDEFINE and then FLTRPOP leave the rules as they were, with the cursor on the first row |
| ClientView.SweepChangesReached | QX-base/qbase_iofunc.c:1044-1279 | UPDATE and DELETE change exactly the rows that are there, meet all rules and have none before them that bars them |
| ClientView.DeleteClearsKeys | QX-base/qbase_iofunc.c:1081-1083 | after DELETE those rows have key 0 and otherwise the octets they had |
| ClientView.UpdateComputes | QX-base/qbase_iofunc.c:1084-1233 | after UPDATE each field of those rows is what its action makes of it, by its kind and in terms of numbers |
| ClientView.SeekThenCompute | QX-base/qbase_iofunc.c:1283-1304 | the same for SEEK and UPDCUR and the row of the key alone |
| ClientView.InsertAppends | QX-base/qbase_iofunc.c:386-443 | a row is appended under the next key with its other octets as sent, and the cursor put on it; one too short is refused |
| ClientView.SeekAnswers | QX-base/qbase_iofunc.c:1283-1304 | SEEK accepts the keys of the table and one more; otherwise it answers so and puts the cursor on the first row |
| ClientView.MalformedIsRefused | QX-base/qbase_iofunc.c:1025-1034 | UPDATE and UPDCUR of the wrong size change nothing and are refused |
| ClientView.RemembersAnswer | QX-base/qbase_iofunc.c:283-344 | the code a request is answered with is the one kept for later, but for a row written, which leaves the one before |
| Requests.IntendedRunsAreCalm | QX-base/qbase_iofunc.c:1262-1266 | if replaced pages are synced first, as the comment says, no run can lose anything |
| Requests.SafeRunsAreCalm | QX-base/qbase_iofunc.c:203-209 | a condition on requests alone (the rows fit in the locked pages, or the lookups start no earlier than the page before the first possibly unsaved one) under which the code as written loses nothing in any run |
| Requests.PeriodsRefine | QX-base/qbase_iofunc.c:659-700 | however often all connections let the table go and it is selected again, safe periods answer like one flat table and leave its rows |
| Requests.PeriodsFromCreation | QX-base/qbase_iofunc.c:769-850 | the same from the table's creation on |
| Requests.MarkKept | QX-base/qbase_iofunc.c:203-209 | how far that first possibly unsaved page moves with each request |
| Requests.KeysKept | QX-base/qbase_iofunc.c:434-435 | row i carries key i+1, or 0 once deleted, through every request that leaves the key field alone |
| Requests.KeysKeptInRun | QX-base/qbase_iofunc.c:434-435 | the same over whole runs |
| Requests.SeekThenUpdate | QX-base/qbase_iofunc.c:1283-1304 | SEEK to a key and then UPDCUR update the row with that key, if it is there and passes, and no other row |
| Requests.SeekOnePast | QX-base/qbase_iofunc.c:1290-1296 | the bound of SEEK lets the key one past the last through, and the UPDCUR after it answers OK and changes nothing |
| Requests.KeyWritten | QX-base/qbase_iofunc.c:434-435 | the key written into a row is the key read from it |
| Requests.KeyUntouched | QX-base/qbase_iofunc.c:1084-1233 | an update whose rule leaves field 0 alone keeps the key |
| QbaseHeap.Table.Create | QX-base/qbase_iofunc.c:710-850 | a new table is the created state |
| QbaseHeap.Table.Open | QX-base/qbase_iofunc.c:659-684 | a selected table is the state determined by its two files |
| QbaseHeap.Table.PageSync | QX-base/qbase_filefunc.c:11-25 | writes a dirty page to its place in the file and clears the flag, and does nothing to a clean one |
| QbaseHeap.Table.LinkBefore | QX-base/qbase_iofunc.c:190-198 | the doubly linked list with a node spliced in before the given one |
| QbaseHeap.Table.UnlinkFirst | QX-base/qbase_iofunc.c:156-161 | the list without its first page, still well linked |
| QbaseHeap.Table.RecyclePage | QX-base/qbase_iofunc.c:153-172 | the first page is synced and becomes the new page before the last |
| QbaseHeap.Table.GrowPage | QX-base/qbase_iofunc.c:173-200 | a page is added to the list in order |
| QbaseHeap.Table.ReplacePage | QX-base/qbase_iofunc.c:203-209 | a page is overwritten where it stands, synced first only if the documented sync is done |
| QbaseHeap.Table.LockTablePage | QX-base/qbase_iofunc.c:132-218 | the pointer code computes page lookup: list, flags, buffers and file end in the state it says, and the page returned is the one it names |
| QbaseHeap.Table.FindPage | QX-base/qbase_iofunc.c:139-144 | stops at the first page with an index of at least the one wanted |
| QbaseHeap.Table.ScanPage | QX-base/qbase_iofunc.c:300-332 | the row loop of a read |
| QbaseHeap.Table.Read | QX-base/qbase_iofunc.c:276-344 | the read handler computes the fetch of the paged state |
| QbaseHeap.Table.SweepPage | QX-base/qbase_iofunc.c:1073-1258 | the row loop of an update |
| QbaseHeap.Table.SweepTable | QX-base/qbase_iofunc.c:1044-1279 | the UPDATE/UPDCUR/DELETE handler computes the sweep of the paged state |
| QbaseHeap.Table.TurnLast | QX-base/qbase_iofunc.c:398-414 | the full last page is synced with the header and turned over |
| QbaseHeap.Table.Write | QX-base/qbase_iofunc.c:393-449 | the write handler computes the append of the paged state |
| QbaseHeap.Table.TableSync | QX-base/qbase_filefunc.c:39-63 | the walk over the page list saves header and pages, and clears the flags |
| QbaseServer.Handle | QX-base/qbase_iofunc.c:533-1306 | one request carried out on the linked pages is one step of the paged server |
| QbaseServer.Serve | QX-base/qbase_iofunc.c:533-1306 | a run of the server over linked pages answers like a flat table in every calm run, and holds its rows at the end |
| PacketLog.StepKeeps | QX-billing/qxc_logging.c:211-253 | every line of every thread, in any interleaving, keeps the invariant on counter, slots, buffers and history |
| PacketLog.CountAndSlots | QX-billing/qxc_logging.c:240-248 | in every reachable state the counter exceeds the limit by no more than the threads yet to clamp it, and no two threads own a slot |
| PacketLog.CountBounded | QX-billing/qxc_logging.c:240-248 | the counter never wraps, so the atomic addition gives a fresh slot |
| PacketLog.AloneIsExact | QX-billing/qxc_logging.c:215-219 | when the write lock is granted the counter is within the limit and the slots below it hold exactly the packets accepted since the last swap |
| PacketLog.ReturnsFilledRegion | QX-billing/qxc_logging.c:221-227 | the region number returned is that of the buffer filled since the swap before, with all of that period's packets |
| PacketLog.ExactlyOnce | QX-billing/qxc_logging.c:211-253 | over every run: what was read, what is being read and what is in the active buffer are together exactly the packets accepted, and each batch is exactly its period's packets |
| PacketLog.RefusedOnlyWhenFull | QX-billing/qxc_logging.c:243-252 | when a packet is refused, the packets accepted in this period and the slots of threads about to store are together the limit |
| PacketLog.InitialInv | QX-billing/qxc_logging.c:195-200 | the state after initialisation satisfies the invariant |
| PacketLog.RunTotal | QX-billing/qxc_logging.c:211-253 | accepted packets are conserved by runs from any state |
| LogBuffers.Log.constructor | QX-billing/qxc_logging.c:195-200 | two distinct buffers, empty counters |
| LogBuffers.Log.StorePkt | QX-billing/qxc_logging.c:234-253 | the routine is a run of the protocol's actions; it says yes exactly if a slot was left, and then the packet is recorded |
| LogBuffers.Log.SwapLog | QX-billing/qxc_logging.c:211-228 | the routine is a run of the protocol's actions; region and count returned hold exactly the packets of the period, and the other buffer is active and empty |
| SmtpData.Receive | QX-mail/smtp.c:302-338 | the loop on its buffer, for every splitting into recv chunks, ends as the loop on byte strings does |
| SmtpData.Turn | QX-mail/smtp.c:317-336 | one round in place: what goes to the file, what stays in front of the buffer, and whether the end was seen |
| SmtpData.AbsorbSees | QX-mail/smtp.c:318-331 | looking at the buffer alone, the loop sees the end exactly when all bytes received so far show it, and cuts only where it can be resumed |
| SmtpData.FeedStops | QX-mail/smtp.c:302-338 | for every stream and every splitting: the mail is taken if and only if some read shows CRLF and a dot before the last CR, at the first read that does, and is cut there; otherwise the client is lost |
| SmtpData.ReadsToTheEnd | QX-mail/smtp.c:305-323 | reads that bring something, and enough of them, bring everything if and only if none leaves the buffer full with its last CR before place 3 or at the end |
| SmtpData.ChunkIndependent | QX-mail/smtp.c:302-338 | a proper mail, however split, is spooled without its terminator and the loop stops on its last byte, if and only if that byte is read: for a client that keeps sending, if and only if no read leaves the buffer stuck |
| SmtpData.SpooledRestores | QX-mail/spooler.c:616-623 | the terminator sent after the spooled bytes restores the client's stream |
| SmtpData.FullBufferDrops | QX-mail/smtp.c:308-323 | a first read that fills the buffer and ends in a CR loses the client, whatever CRs stand before it |
| SmtpData.EmptyMailNeverEnds | QX-mail/smtp.c:321-324 | a mail that is only a dot line is dropped, however it is split |
| SmtpData.PipelinedCommandHidesEnd | QX-mail/smtp.c:318-331 | a mail read together with lines behind its terminator is dropped, unless a dot line stands before their last CR, and then cut there |
| RuleTree.SearchIsMembership | QX-billing/qxc_rules.c:143-159 | tree search finds an address pair if and only if some rule of the list has it, duplicate MACs included |
| RuleTree.InsertedSearchable | QX-billing/qxc_rules.c:226-243 | insertion keeps every rule on the way of a search for its own address |
| RuleTree.InsertedShape | QX-billing/qxc_rules.c:216-243 | insertion adds exactly the rule and keeps links pointing onward |
| RuleTree.RuleSet.constructor | QX-billing/qxc_rules.c:172-190 | empty active and pending lists of the given sizes |
| RuleTree.RuleSet.MatchClient | QX-billing/qxc_rules.c:134-163 | 1 if and only if some rule in force has that MAC and IP |
| RuleTree.RuleSet.MatchExempt | QX-billing/qxc_rules.c:72-119 | the verdict of the first matching rule in force, 0 if none matches |
| RuleTree.FirstMatchIs | QX-billing/qxc_rules.c:78-119 | the verdict is that of the first rule that matches, and 0 if none does |
| RuleTree.MatchesIs | QX-billing/qxc_rules.c:84-108 | a rule matches packets of its own link protocol only; of IPv4 those to its network, of its protocol if it names one, and then with TCP and UDP to its range of ports |
| Common.AndIsBitwise | QX-billing/qxc_rules.c:90 | a masked address has exactly the bits that address and mask share |
| RuleTree.RuleSet.AddExempt | QX-billing/qxc_rules.c:196-204 | adds to the pending list if there is room; no rule in force changes |
| RuleTree.RuleSet.AddNic | QX-billing/qxc_rules.c:210-247 | adds to the pending tree if there is room; no match result in force changes |
| RuleTree.RuleSet.Swap | QX-billing/qxc_rules.c:253-277 | what was pending is in force and nothing is pending |
| Sessions.Fold | QX-billing/qxl_main.c:971-999 | the two loops compute the fold of the packets read |
| Sessions.FoldConserves | QX-billing/qxl_main.c:971-999 | one session for each key that occurs, keys pairwise distinct, each holding the sum of its packets' bytes modulo 2^32 |
| Sessions.FoldExact | QX-billing/qxl_main.c:989-990 | the sums are exact if packet count times the largest frame is below 2^32 |
| Sessions.SessionsByFields | QX-billing/qxl_main.c:975-996 | there is one session for the packets that agree in MAC, link protocol, both addresses, protocol and host port, and no other |
| Sessions.Folded | QX-billing/qxl_main.c:971-999 | there are never more sessions than packets |
| Generations.FillTaxes | QX-billing/qxl_main.c:695-719 | the loop fills the tax list as far as it goes |
| Generations.FillDetails | QX-billing/qxl_main.c:756-811 | details get the rates of the hour and are chained to their taxes; one without a tax leaves its place to the next |
| Generations.FillAccounts | QX-billing/qxl_main.c:817-859 | accounts in credit, or allowed to be in debt, linked to their taxes |
| Generations.FillCards | QX-billing/qxl_main.c:865-905 | cards linked to their accounts, and the clients pushed to the filter |
| FilledLists.TaxesAre | QX-billing/qxl_main.c:695-719 | the tax list is the first rows of the table, as many as it has room for, each with its own rates |
| FilledLists.DetailsAre | QX-billing/qxl_main.c:756-811 | the detail list is the rows of taxes in the list or of none, in order up to its limit, each with the rates of the first times row it names if there is one, and else its own |
| FilledLists.AccountsAre | QX-billing/qxl_main.c:817-859 | the account list is the rows in credit or allowed to be in debt whose tax is in the list or 0, in order up to its limit, each linked to the first tax of its number |
| FilledLists.CardsAre | QX-billing/qxl_main.c:865-905 | the card list is the rows whose account is in the list or 0, likewise, each linked to the first account of its number |
| FilledLists.PushedAre | QX-billing/qxl_main.c:865-905 | the clients pushed to the filter are those of the cards in the list, in order |
| Generations.FillingSound | QX-billing/qxl_main.c:756-905 | with nonzero foreign keys every pointer of a filled bank leads into the same bank, and every pushed client has a card there |
| Generations.StepKeeps | QX-billing/qxl_main.c:925-954 | packets, filling, both swaps of the filter and the swap of the banks keep the invariant |
| Generations.CycleSwaps | QX-billing/qxl_main.c:925-954 | after a cycle the log kept before it is handed over, the rules in force are the accepted ones pushed from the database, and the lists filled from it are current |
| Generations.SessionsHaveCards | QX-billing/qxl_main.c:1087-1101 | over every run of cycles: all sessions of all batches find their cards (and those of the open logs will), if and only if each packet taken between the filter's two swaps has a card in the shadow bank at that moment |
| Generations.AtomicSwapsSuffice | QX-billing/qxl_main.c:1087-1101 | in a run without such a packet no session is without its card, so the branch for one is never taken |
| Generations.OpenStep | QX-billing/qxl_main.c:925-1101 | step by step: what a packet's card is when it is taken is what its session finds when the batch is read |
| Generations.OneGeneration | QX-billing/qxl_main.c:1105-1108 | a card's account, its tax and the tax's details all lie in the card's own bank, over all cycles |
| Generations.EarlyPacketMisses | QX-billing/qxc_rm.c:68-72 | three cycles in which a packet between the log swap and the rule swap ends as a session without a card |
| Generations.InitialInv | QX-billing/qxl_main.c:925-954 | the state before the first cycle satisfies the invariant |
| Accounts.PostChanges | QX-base/qbase_iofunc.c:1283-1304 | SEEK and UPDCUR change one balance, that of the account meant or, after a failed SEEK, of the first row, and nothing else |
| Accounts.ReachesIs | QX-base/qbase_iofunc.c:1290-1296 | a SEEK is accepted for the keys of the table and one more, and puts the cursor there; any other leaves it on the first row |
| Accounts.Books.Seek | QX-base/qbase_iofunc.c:1288-1296 | cursor and verdict of a SEEK, including the failing one |
| Accounts.Books.Update | QX-billing/qxl_main.c:1146-1148 | one balance changes if the row under the cursor is there |
| Accounts.Books.Debit | QX-billing/qxl_main.c:1143-1148 | the pair as the billing loops call it, whatever the SEEK said |
| Pricing.Bill | QX-billing/qxl_main.c:1061-1150 | the loop over a batch: the log grows by one row for each session that has a card, and exactly those rows are debited |
| Pricing.LogSession | QX-billing/qxl_main.c:1105-1135 | the log row of a session: card and account, and charges that times the unit are the rates by the bytes, of the first detail of the chain that covers it or else of the tax |
| Pricing.FindDetail | QX-billing/qxl_main.c:1110-1122 | the first detail of the chain that covers the session |
| Pricing.NewestDetailPrices | QX-billing/qxl_main.c:756-806 | across filling and pricing: a session is priced by the newest detail row of its tax that covers it, if any does |
| Pricing.ChainIsOwn | QX-billing/qxl_main.c:788-800 | a tax's chain holds exactly the detail rows that name it, newest first |
| Charges.RatesAre | QX-billing/qxl_main.c:1107-1135 | the rates a session meets in a filled bank are those of the newest detail row of its tax that is about its host, protocol and port, at this hour, or else the tax row's |
| Charges.SessionPriced | QX-billing/qxl_main.c:1087-1135 | the log row of a session names the first card in the list with its MAC and IP, and that card's account; times the unit, its two charges are the rate to the client by the bytes to it and the rate from the client by the bytes to the host |
| Charges.BatchPriced | QX-billing/qxl_main.c:1061-1150 | a batch has one log row for each session whose client has a card in the list, in order, numbered on from the log, each so priced |
| Pricing.BillingKeepsWorth | QX-billing/qxl_main.c:1061-1150 | for every account: balance plus booked charges is unchanged, except that account 1 also loses the charges whose SEEK fails |
| Pricing.BatchKeepsWorth | QX-billing/qxl_main.c:1061-1150 | if the bank's accounts have places in the table, a batch keeps balance plus booked charges of every account |
| Consistency.Repair | QX-billing/qxl_consistency.c:256-344 | the loop computes the repair of the log from its first row on |
| Consistency.CheckRow | QX-billing/qxl_consistency.c:258-343 | one row: kept, skipped, moved, or the run ends |
| Consistency.RepairedIsConsistent | QX-billing/qxl_consistency.c:256-344 | after a complete run every row whose MAC and IP some card has names a card with exactly those; rows that did before, and rows no card fits, are as they were; the rest name the first card that fits and its account; as many rows changed cards as are reported; and when a run is complete |
| Consistency.FateIs | QX-billing/qxl_consistency.c:258-325 | what becomes of one row, by the first card of its number, the first with its MAC and IP, and whether their accounts can be reached |
| Consistency.Transfer | QX-billing/qxl_consistency.c:301-340 | debit, credit and log row of one move, and where it stops if a SEEK fails |
| Consistency.RepairDrifts | QX-billing/qxl_consistency.c:301-340 | an account's balance plus booked charges changes by exactly the drift read off the log before the run |
| Consistency.RepairConserves | QX-billing/qxl_consistency.c:256-344 | a run keeps it for every account if each row's account is that of its logged card and every SEEK succeeds |
| Consistency.OneRowConserves | QX-billing/qxl_consistency.c:317-329 | for one moved row it is kept if and only if the row's account is the present account of its logged card, or the row costs nothing, or neither account is there |
| Consistency.SecondRunFixesNothing | QX-billing/qxl_consistency.c:256-344 | a second run fixes nothing, leaves the log alone, and touches no account unless the first stopped halfway |
| Consistency.SecondRun | QX-billing/qxl_consistency.c:306-325 | and if it did, the second run makes the same debit once more |
| EndOfDay.ChargeDay | QX-billing/qxl_eod.c:215-257 | the nested fetch loops compute the day's charges |
| EndOfDay.ChargeTax | QX-billing/qxl_eod.c:229-253 | one pass over the accounts for one tax |
| EndOfDay.DayBalances | QX-billing/qxl_eod.c:215-257 | every balance goes down by exactly the payments recorded for its account, which are the daily fees of its own tax; nothing else changes |
| EndOfDay.ChargedAtMostOnce | QX-billing/qxl_eod.c:215-257 | each account is charged once, a day's share of its tax, if the tax has a fee, and otherwise not at all |
| EndOfDay.MonthOfShares | QX-billing/qxl_eod.c:64 | as many daily shares as the month has days are the monthly tax; February has 28 |
| DnsQueue.StepPlaces | QX-dns/main.c:128-320 | every step of every thread leaves every buffer in exactly one of free list, ready list, queue or one thread's hands; only an empty free list makes a new one |
| DnsQueue.StepKeeps | QX-dns/main.c:120-320 | every step keeps the invariant on pending queries, sends and answers |
| DnsQueue.EveryRun | QX-dns/main.c:120-320 | after every run: buffers in one place each; every query sent to the first so many servers, in order and once each; nobody answered twice, and every answer to its own client under its own number |
| DnsQueue.ResponseOutcome | QX-dns/main.c:163-245 | a response with code 0, 1 or 3, or from the last server, gives exactly one answer, to the asker of the first query of its number, which is then done; with code 2 or above 3 and a server left there is none, and that query goes to the next server and stays pending; a number not in the queue changes nothing |
| DnsQueue.QueryOutcome | QX-dns/main.c:258-290 | a message with one question and no known answer, if there are servers, is numbered, sent to the first and pending; any other is not forwarded |
| DnsQueue.ArrivalRecorded | QX-dns/main.c:843-878 | what arrives is put in front of the ready list with its sender, contents and time; a short packet's buffer is free again |
| DnsQueue.FindsOwn | QX-dns/main.c:164-182 | a response finds its own query if and only if none before it in the queue was forwarded a multiple of 65536 queries earlier or later |
| DnsQueue.WhoseAnswer | QX-dns/main.c:164-296 | in every run whose responses carry the number of the query they are meant for: an answer given is that of the client's own query up to a multiple of 65536, and its own exactly if the two are less than that apart; all are their clients' own if and only if the meant query, whenever a response is given, was in the queue before any other of its number |
| DnsQueue.WindowSuffices | QX-dns/main.c:164-182 | while all queries in the queue are within 65536 of the meant one, it is found if it is there and no other is answered |
| DnsQueue.ReplyStep | QX-dns/main.c:164-296 | each step gives one answer at most, to the first query of the response's number: the meant one exactly if that is the first |
| DnsQueue.SweepKeepsUnexpired | QX-dns/main.c:890-933 | the sweep leaves exactly the queries that have not expired, in order; it ends by (queue nodes left, servers left) |
| DnsQueue.SweepBurns | QX-dns/main.c:893-926 | an expired query is sent to every remaining server and dropped in the same sweep |
| DnsQueue.InitialInv | QX-dns/main.c:34-46 | the empty server satisfies the invariant |
| DnsLists.Forwarder.PopReady | QX-dns/main.c:129-133 | takes the first buffer of the ready list |
| DnsLists.Forwarder.PushFree | QX-dns/main.c:298-307 | puts a buffer on top of the free list |
| DnsLists.Forwarder.PushReady | QX-dns/main.c:874-878 | puts a buffer on top of the ready list |
| DnsLists.Forwarder.PopFree | QX-dns/main.c:844-847 | takes the first free buffer, if any |
| DnsLists.Forwarder.Number | QX-dns/main.c:269-271 | the 16-bit query number, wrapping |
| DnsLists.Forwarder.Unlink | QX-dns/main.c:167-177 | the doubly linked queue without the buffer, whose own links stay as they were |
| DnsLists.Forwarder.Append | QX-dns/main.c:310-319 | the queue is well formed after a put at the tail if and only if the buffer's old next was NULL, or is cleared |
| DnsLists.Forwarder.Requeue | QX-dns/main.c:202-209 | a retry leaves a well-formed queue if and only if the query was the tail (or next is cleared); otherwise a search for an absent number never ends |
| DnsLists.StaleLink | QX-dns/main.c:310-319 | the ring a stale next makes of the queue |
| DnsLists.Forwarder.TakeQuery | QX-dns/main.c:163-183 | the search and the removal compute the lookup by reference number |
| DnsLists.Forwarder.Expire | QX-dns/main.c:888-935 | the pointer walk computes the sweep, and ends |
| Names.CopyName | QX-dns/master.c:28-47 | the left-to-right encoder: lengths in place of dots, the zone mark for an empty last label, a zero at the end |
| Names.EncodeInPlace | QX-mail/spooler.c:318-334 | the right-to-left encoder, in place behind the at sign, and nothing else in the packet changed |
| Names.EncodersAgree | QX-dns/master.c:28-47 | the two encoders give the same bytes if and only if the name is not empty and does not end in a dot |
| Names.CodedIsWire | QX-mail/spooler.c:318-334 | an encoded name is its labels, each behind its length, and a zero |
| Names.MarkedIsRelative | QX-dns/master.c:42-46 | a name that ends in a dot is its labels and the zone mark |
| Names.DecodeName | QX-mail/spooler.c:400-417 | the decoder computes the labels, pointers followed, joined by dots |
| Names.DecodeInverts | QX-mail/spooler.c:400-417 | decoding undoes both encoders for every name of labels of 1 to 63 octets, wherever it stands in the packet |
| Names.ReadLabels | QX-mail/spooler.c:400-417 | labels in the packet are read as themselves, whatever follows them |
| MasterNames.CompareNames | QX-dns/master.c:60-88 | the comparison on the packet computes the comparison of octet strings |
| MasterNames.UpperFoldsCase | QX-dns/master.c:69 | two octets are taken for the same if and only if they are, or are one ASCII letter in its two cases |
| MasterNames.CompareExact | QX-dns/master.c:60-88 | for any query, stored name and zone without a mark: it succeeds if and only if the octets are the same but for case, or they agree as far as a mark that the query does not have and the query's rest is the zone; with the place |
| MasterNames.MatchIffSame | QX-dns/master.c:60-88 | for any stored labels: it succeeds if and only if the query equals the stored name expanded by its zone, ignoring case, or leaves it at an octet 0xC0 of a label with the zone as its rest; with the zone's message offset, or 0 |
| MasterNames.GoodNeverStrays | QX-dns/master.c:69-75 | the second does not happen to stored labels without that octet |
| MasterNames.MarkInsideLabel | QX-dns/master.c:69-75 | for every label of up to 62 octets, a query, a stored name with an octet 0xC0 and a zone for which it happens: a name that differs is found |
| MasterNames.PrintName | QX-dns/master.c:98-124 | prints the name, its zone or a pointer to it; says so if it fits the room given, and otherwise has filled the room; which octets are written, and nothing else |
| MasterNames.PrintRecordName | QX-dns/master.c:322-330 | the call as the program makes it, behind a record header: what stays in the packet's buffer, and by one to three octets what does not |
| MasterNames.InsideIffShort | QX-dns/master.c:322-330 | the print stays in the buffer if and only if the name has at most 500 - datalen octets |
| MasterNames.FourLabelsOverrun | QX-dns/master.c:322-330 | a name of 245 octets behind 300 that does not |
| MasterNames.PrintedReads | QX-dns/master.c:98-124 | the printed name decompresses to its labels and those of the zone, or those pointed to |
| MasterNames.ZoneInQuestion | QX-dns/master.c:71-75 | the zone pointer of a match leads to the zone's labels in the question, but for case |
| MasterNames.AnswerIsCanonical | QX-dns/master.c:286-340 | an alias found and the canonical name printed behind the record header with its zone pointer, inside the buffer: read back, the name is the canonical name expanded by its zone, but for case |
| MasterNames.AddCname | QX-dns/master.c:312-340 | the call that prints it: if the name is finished inside the buffer, the packet has the canonical name in it |
| MasterNames.MatchHost | QX-dns/master.c:283-296 | a host is found exactly if its canonical name or an alias matches, and which, and with what pointer |
| MasterNames.Lookup | QX-dns/master.c:277-306 | the first host, in the order of the zones, with a name that matches; none if none has |
| Base64.Encode | QX-mail/general.c:253-297 | length 4*ceil(n/3), refusal of too small a buffer, and the encoding of the input |
| Base64.Decode | QX-mail/general.c:299-349 | into another buffer or the same: the octets, the zero behind them, or failure, as the input before the call determines |
| Base64.RoundTrip | QX-mail/general.c:253-349 | decoding undoes encoding for every octet string but the empty one, which is refused |
| Base64.QuadIsDigits | QX-mail/general.c:273-276 | a group is the four base-64 digits of its 24-bit number |
| Base64.SymbolIsAlphabet | QX-mail/general.c:236-237 | the digits' characters are the alphabet of RFC 4648, section 4, in order |
| Base64.DigitIsPlace | QX-mail/general.c:239-248 | a character has no digit if and only if it is none of them |
| Base64.EncodeThenDecode | QX-mail/general.c:253-349 | encode into a line, decode into another buffer or back into the line: the octets are back |
| Base64.Encoded | QX-mail/general.c:263-290 | the output is exactly 4*ceil(n/3) characters |

## Left out

- Sockets, message passing, shared memory, file descriptors, thread pools, configuration, logging and screen output; files are maps from page numbers to rows, messages are values, and clocks are parameters.
- Failed allocations, a failed `resmgr_msgread` in a write (QX-base/qbase_iofunc.c:428-432), and locking inside Qbase: each request is one atomic step, with the table selected and present.
- Comparators of filter rules: the typed comparisons of qbase_filterfunc.c are an arbitrary predicate for each rule.
- 32-bit overflow of row counts, page indexes and file offsets in Qbase; field values and byte totals do wrap as in the source.
- Layout.ApplyIsFieldwise: what the actions compute, which Arithmetic.UpdatePerforms has.
- Arithmetic.UpdatePerforms: arithmetic on doubles is an arbitrary function of the action and the two fields' octets, and an integer division by zero, which traps, leaves the field; so would the one quotient that overflows, which is taken modulo the word.
- Layout.FixTable: `Qbase_field_set` is not part of this model; a time stamp has 8 octets.
- Layout.Apply: descriptors with a last field so narrow that a write leaves the row; what then becomes of the next row is not modelled.
- Requests.StepRefines: one table, already selected; the refusals of a request with no table, of a filter for a missing field and of buffers too short for a filter or a reply are not among the requests.
- Requests.RunRefines: selecting, letting go and creating the table are in PeriodsRefine and PeriodsFromCreation only, where all connections come anew.
- QbaseServer.Handle: the same requests as Requests.StepRefines.
- QbaseServer.Serve: the same requests, on one table that stays selected.
- Requests.SafeRunsAreCalm: a sufficient condition; the exact one is that of Pager.LockPageKeepsTable at each lookup.
- QbaseHeap.Table.Create: the row count in the client's descriptor, which is copied (762), is 0, as Qbase_new_tbldesc leaves it.
- Pager.CreatedValid: the same.
- PacketLog.StepKeeps: assumes that limit and thread count together stay below 2^32, and that a batch is read before the next swap, as the logger does.
- LogBuffers.Log.StorePkt: runs without interruption; interleaving is what PacketLog is about.
- LogBuffers.Log.SwapLog: is called with no packet thread inside; PacketLog has those it waits for.
- Generations.FillTaxes: starts on the taxes list with room for at least one row, as the configuration demands; tax times are a list given here, with the rates of the current hour.
- Generations.SessionsHaveCards: matching and storing a packet are one step.
- Generations.StepKeeps: exempt destinations are not part of the cycle; rules the filter refuses for lack of room are covered by the number it accepts.
- Money is exact: sums and prices are real numbers, not doubles.
- Accounts.PostChanges: tables of fewer than 2^32 - 1 rows, whose rows carry their own number as key, and no other program changing them meanwhile.
- Charges.BatchPriced: databases in which a detail, an account or a card leaves its foreign key at 0, whose links are NULL.
- Consistency.RepairedIsConsistent: card tables in which two rows have one number, which primary keys exclude.
- Pricing.Bill: the log's date, protocol and port columns and the choice of the day's table.
- Consistency.Repair: the buffer for cards is taken as large enough; rows come in table order.
- EndOfDay.ChargeDay: dates and texts of payments; part II of the day's work, which the source leaves empty.
- DnsQueue.StepKeeps: message contents beyond number, response code and question count; the cache; a loop over sockets that stays on one after a short packet (869); the time of the last arrival that the sweep is measured from is its parameter.
- DnsLists.Forwarder.Expire: sends and the history of queries, which DnsQueue has.
- Names.EncodeInPlace: names of 256 characters or more, whose one-octet counters wrap.
- Names.DecodeName: only names whose pointers end, of at most 255 characters of text.
- MasterNames.CompareNames: a zone whose name begins with the mark, for which the comparison does not end.
- MasterNames.MatchIffSame: zones with an octet 0xC0 in a label.
- MasterNames.MatchHost: the same zones.
- MasterNames.AnswerIsCanonical: the record header in front of the name; canonical names and zones with an octet 0xC0.
- MasterNames.PrintRecordName: a packet of more than 512 octets before the record; labels with an octet 0xC0, at which the loop would stop.
- MasterNames.PrintName: the value left in the zone pointer after a full print, which nothing reads.
- MasterNames.Lookup: zones with an octet 0xC0 in a label; the answer's other fields; PTR, NS and MX lookups run the same comparison over other name lists.
- The spooler's grouping of recipients by domain, its SMTP dialogue and its choice of mail exchangers; decoding malformed messages whose pointers loop.
- MD5, the POP3 server, the DNS cache and the table resizer: no comparable state, or one easier than what is here.
- nfm-ntc, the older edition of the filter, the unfinished VPN, the virus scanner's wrapper, the web server, drivers and example programs.
