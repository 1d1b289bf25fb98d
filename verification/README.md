# IP-Scout: a verified model of its core

IP-Scout tails nginx access logs over SSH, keeps one row per IP address it sees, and enriches
those rows: WHOIS lookups, and a classification as Iranian or not by CIDR blocks, with a history of
every period an address was classified as Iranian. This project models that core in Dafny and
proves what the code promises of it. `dafny verify dfyconfig.toml` checks everything.

The modules follow the program:

| module | models |
|---|---|
| `LogTail`, `LogReader` | incremental log tailing: what one poll reads and saves, what any run of polls with short reads, rotations and crashes delivers, and the reader that writes the rows |
| `LogFormat` | compiling an nginx `log_format` into a pattern, matching with backtracking, reading the groups |
| `Sightings` | recording batches of sightings, as a method and as interleaved database statements of any number of workers |
| `Prefixes`, `Summaries` | CIDR blocks (RFC 4632 section 3.1) and the greedy summary of an address range |
| `DelegatedStats`, `Inetnum` | the RIPE delegated-stats parser; the block noted for a WHOIS `inetnum` |
| `CountryNetworks`, `CountryHistory`, `CidrValidation` | longest match (RFC 4632 section 5.1), `classify` with its history table, and the periodic validation run |
| `WhoisText` | the generic WHOIS parser and its alias table |
| `Enrichment` | process, look up, classify: the task queue of one address, and the retry rule |
| `Locks` | `redis_lock` on a shared cache |
| `Retention` | the purges next to everything else that writes their tables |
| `Common`, `Splitting`, `Text` | shared value types; Python's `split`, `strip` and `splitlines` |

Operations that change rows in the program are methods of classes here (`LogReader.NginxLogReader`,
`Sightings.IpTable`, `CountryHistory.CountryDb`, `Enrichment.EnrichmentDb`, `Locks.SharedCache`,
`Retention.MaintenanceDb`); each is proved against a function of the old state, and the lemmas about
runs use that function. The outside world comes in as parameters: the file an SSH poll finds, clock
readings, WHOIS replies, and the text readers (`ip_address`, `ip_network`, `int`, `float`, `strptime`,
UTF-8 decoding), which are arbitrary functions.

## Where the code and its documentation differ

The model follows the code; each point is a lemma below.

- `record_sightings_bulk` documents that a new address is queued "exactly once". With interleaved
  batches it is queued once per batch whose first query missed it, so at least once, and exactly once
  if and only if one batch's query missed it (`Sightings.DispatchedExactlyOnceIff`).
- Validation against the static provider is documented as a self-consistency pass. Its fetch includes
  disabled rows, so a run enables every disabled manual row while it reports nothing created, nothing
  disabled, and scans nothing (`CidrValidation.StaticRunEnablesAll`).
- A run skips the scan because "unchanged CIDRs can't have altered any IP's classification", but a
  re-enabled row is not counted as a change (`CidrValidation.ReenablingIsNotCounted`,
  `CidrValidation.StaleAfterSkip`).
- The purge's exclusion of addresses with events is documented as trivially true. With no older event
  coming in between, it is redundant exactly when the two purges are no further apart than the difference
  of the retention times (`Retention.RedundantForDelayIff`); with an older one it is needed at every
  distance (`Retention.LateBatchNeedsExclusion`).
- Touching history rows can say the same, exactly when at one instant an Iranian verdict is left and
  returned to (`CountryHistory.EqualRowsTouchIff`, `CountryHistory.EqualRowsCanTouch`).
- A lookup is documented to classify the address again so that its country is not lost. It is lost in
  three ways: a later reply has no country, the worker dies between saving the row and queueing the
  classification, or the queued classification is dropped at the lock that a dead worker left
  (`Enrichment.EnrichmentIsConfluent`, `Enrichment.UnansweredFlip`). The third way can also leave an
  address inside an enabled network unclassified (`Enrichment.LockLosesClassification`).
- Tasks are acknowledged late so that a dead worker's task runs again. The lock's timeout outlives the
  worker, and a task given back within it is dropped for good (`Enrichment.SkipFollowsDeath`).
- The lock is documented as mutual exclusion. It is exclusive exactly in runs whose holders leave or
  crash before their timeout (`Locks.TimelyIffExclusive`).
- `_inetnum_to_cidr` is best effort and returns None for what it cannot read, but a range from an
  IPv4 to an IPv6 address raises a TypeError that it does not catch (`Inetnum.RangeOutcome`).
- A file rewritten under its inode loses every line that starts before the clamped offset
  (`LogTail.RewrittenIff`), and a rotated one those past the last offset (`LogTail.DeliveredInFullIff`).

## Model

| member | source | states |
|---|---|---|
| `LogTail.LinesOfWritten` | apps/logs/services.py:51-54 | Splitting and dropping the leftover yields exactly the nonempty lines a file was written as, and keeps back its unfinished rest |
| `LogTail.LinesConcat` | apps/logs/services.py:48-54 | Reading two pieces cut at a line boundary yields the lines of one read of both |
| `LogTail.PollOnce` | apps/servers/services.py:131-148 | One poll of a grown file, however short its read, emits exactly the lines between its resume point and the new offset, which is the resume point or just past a newline |
| `LogTail.ExactTail` | apps/logs/services.py:36-54 | Any run of saved polls of a file that only grows records exactly the parseable lines between the first resume point and the final offset, each once, in order |
| `LogTail.CaughtUp` | apps/servers/services.py:138-146 | A poll whose read is not cut short leaves no complete line below the reported size unread |
| `LogTail.Baseline` | apps/servers/services.py:116-120 | The first saved poll of a new source records nothing and sets the offset to the size it found |
| `LogTail.ExactFromBaseline` | apps/servers/services.py:131-136 | From a source never polled, the recorded lines are exactly those between the baseline and the final offset |
| `LogTail.ExactAcrossRotations` | apps/servers/services.py:134-136 | Over any number of rotations each new file is read exactly from its beginning to the offset its polls reached |
| `LogTail.DeliveredInFullIff` | apps/servers/services.py:134-136 | A rotated file is delivered in full if and only if none of its parseable complete lines starts at or after the offset its last poll reached |
| `LogTail.CrashSafety` | apps/logs/services.py:97-118 | With workers dying before or between the commits, every parseable complete line below the saved offset has an event, and no line has more than one plus the number of deaths |
| `LogTail.CrashSafetyFromBaseline` | apps/logs/services.py:97-118 | The same from a source never polled, for lines at or after the baseline |
| `LogTail.StaleRow` | apps/logs/tasks.py:18-27 | Two tasks that loaded the row before locking record no line twice if and only if the shorter of the two ranges they read holds no nonempty terminated line |
| `LogTail.StaleSave` | apps/logs/tasks.py:18-27 | The second save decides the offset, even backwards: the next poll records again exactly those lines of the first that start between that offset and its own end |
| `LogTail.RewrittenIff` | apps/servers/services.py:136-136 | A file rewritten under its inode is emitted in full if and only if none of its lines starts before the clamped offset |
| `LogReader.PollLog` | apps/servers/services.py:109-148 | The branches of the range read: missing file, baseline, rotation, clamp, and the bytes handed over |
| `LogReader.EventsAreParsedLines` | apps/logs/services.py:59-71 | The rows a poll creates are its parseable lines, one for one and in order |
| `LogReader.RenderedEvent` | apps/logs/services.py:79-96 | For every format of one reading, a line rendered from a record becomes an event whose every column says what the record says, cut to the column widths, with defaults for what the format lacks |
| `LogReader.NginxLogReader.RecordChunk` | apps/logs/services.py:51-98 | Consumed bytes, parsed lines and error count of a chunk; sightings recorded for exactly the parsed lines; every address of a parsed line that had no row queued once, and nothing else; their events appended; the source untouched |
| `LogReader.NginxLogReader.SaveState` | apps/logs/services.py:99-118 | The new inode and offset, the latest event time of the parsed lines, the error note |
| `LogReader.NginxLogReader.Poll` | apps/logs/services.py:35-125 | One poll is LogTail's step with its events, and queues once every address that had no row, and nothing else; lines read are events created plus parse errors; a missing file changes only the error note and read time |
| `LogReader.EventsHaveRows` | apps/logs/services.py:76-96 | Every event's address has a row, last seen no earlier than the event |
| `LogFormat.TokenizeKeepsText` | apps/logs/parsers.py:82-90 | Tokenising any format loses none of its text |
| `LogFormat.TokenizeWritten` | apps/logs/parsers.py:82-90 | A format written from alternating literals and variables tokenises into exactly those |
| `LogFormat.CompileFormat` | apps/logs/parsers.py:77-91 | Compiles exactly the formats whose variables are all supported and whose groups are distinct; otherwise names the first unsupported variable or reports the duplicate |
| `LogFormat.VariablePatterns` | apps/logs/parsers.py:20-33 | Which variables are supported and exactly which texts each of them matches |
| `LogFormat.MatchSound` | apps/logs/parsers.py:91-91 | What the backtracking match returns is a match |
| `LogFormat.MatchComplete` | apps/logs/parsers.py:91-91 | It finds a match whenever there is one |
| `LogFormat.UniqueMatch` | apps/logs/parsers.py:20-31 | When each open-ended variable is followed by the end or by a character its class excludes, a line has at most one match |
| `LogFormat.SomeRecordIsRenderable` | apps/logs/parsers.py:20-31 | Every format that compiles can render some record, so the round trips are never vacuous |
| `LogFormat.RenderedMatches` | apps/logs/parsers.py:77-91 | Such a format matches a rendered record with the record's own segments |
| `LogFormat.RenderedGroups` | apps/logs/parsers.py:117-122 | The groups of a rendered record are the record's values of the captured variables |
| `LogFormat.ParseRendered` | apps/logs/parsers.py:117-167 | Parsing a rendered record with any line end reads the record's own groups |
| `LogFormat.SplitWellFormed` | apps/logs/parsers.py:100-107 | A well-formed request line is split into its verb and URI |
| `LogFormat.SplitMalformed` | apps/logs/parsers.py:100-107 | Only such a line is; any other comes back whole with an empty verb |
| `LogFormat.PresetSources` | apps/logs/parsers.py:37-53 | The parts of the three presets spell the three format strings |
| `LogFormat.PresetFormatsCompile` | apps/logs/parsers.py:37-53 | The three format strings tokenise into those parts |
| `LogFormat.PresetsCompile` | apps/logs/parsers.py:37-53 | All three presets compile, have distinct groups and at most one match per line |
| `LogFormat.PresetEndsOpen` | apps/logs/parsers.py:37-53 | A rendered preset record never ends in a line end of its own, so stripping line ends is lossless |
| `LogFormat.FormatRoundTrip` | apps/logs/parsers.py:117-167 | For every format of one reading with distinct groups, a rendered record is parsed back field by field, with defaults for what the format lacks, if its address, time and status are there and readable, and is refused for the first that is not |
| `LogFormat.PresetRoundTrip` | apps/logs/parsers.py:117-167 | The three presets are such formats and have the seven variables they share, so a rendered record is parsed exactly when its address, time and status are readable, and comes back as it was |
| `Sightings.Monotone` | apps/ips/services.py:105-112 | In any interleaving of batches at statement level, rows are never removed, first_seen_at is fixed and at most last_seen_at, last_seen_at never decreases, and no worker fails |
| `Sightings.LastSeenIsMaximum` | apps/ips/services.py:84-112 | When all batches have finished there is one row per address seen, and last_seen_at is the maximum of all its sightings and its old value |
| `Sightings.AloneIsRecorded` | apps/ips/services.py:57-124 | A batch running alone has the effect of the one-step specification, in which a new row's first_seen_at is the latest sighting of its batch |
| `Sightings.RunsAreShort` | apps/ips/services.py:57-124 | No interleaving goes on for ever: a batch of n addresses takes at most 2n + 4 statements |
| `Sightings.EveryBatchCanFinish` | apps/ips/services.py:57-124 | Wherever an interleaving has got to, it can be continued until every batch is through |
| `Sightings.DispatchedExactlyOnceIff` | apps/ips/services.py:114-122 | A created address is queued as often as batches' first queries missed it: at least once, and exactly once if and only if one did |
| `Sightings.QueuedDespiteDeaths` | apps/ips/services.py:114-122 | When workers may die anywhere, an address is queued as often as first queries missed it, less the workers that died before they queued it; a created address is never queued exactly when all of them did |
| `Sightings.QueriedTwiceIsQueuedTwice` | apps/ips/services.py:67-68 | Two batches that both query before either inserts queue the address twice |
| `Sightings.SerialBatchesDispatchOnce` | apps/ips/services.py:67-68 | Batches that run one after another queue a created address exactly once |
| `Sightings.LatestOfIsLatest` | apps/ips/services.py:78-82 | The dictionary holds, for exactly the addresses sighted, a sighting than which none is later |
| `Sightings.IpTable.RecordSightingsBulk` | apps/ips/services.py:57-124 | An invalid address changes nothing; otherwise rows, returned rows and queued addresses are those of the specification |
| `Prefixes.NestedOrDisjoint` | apps/common/fields.py:70-76 | Canonical blocks are nested or disjoint |
| `Prefixes.SameLengthSameBlock` | apps/iran/models.py:41-51 | Two canonical blocks of one length that hold the same address are equal |
| `Prefixes.NetworkIsCanonical` | apps/common/fields.py:70-76 | Clearing the host bits gives a canonical block that holds the address |
| `Prefixes.CanonicalIff` | apps/common/fields.py:70-76 | The canonical blocks are exactly the networks of valid addresses |
| `Summaries.HostBitsLargest` | apps/iran/providers.py:130-131 | The greedy step takes the largest aligned block that starts the range and fits it |
| `Summaries.SummarizeTiles` | apps/iran/providers.py:127-131 | The summary terminates and its blocks are canonical and adjoin one another from the first to the last address |
| `Summaries.TilesPartition` | apps/iran/providers.py:127-131 | Every address of the range lies in exactly one block, and no other address in any |
| `Summaries.GreedyIsMinimal` | apps/iran/providers.py:86-91 | No set of blocks that covers the range without leaving it is smaller, overlapping ones included |
| `Summaries.AtMost62` | apps/iran/providers.py:86-91 | At most 62 blocks for IPv4 and 254 for IPv6 |
| `Summaries.MinimalTiling` | apps/iran/providers.py:86-91 | The promise of minimal covering blocks: tiling, minimality and the bound together |
| `Summaries.SummarizeAddressRange` | apps/iran/providers.py:127-131 | The library's loop returns the greedy blocks, and fails exactly for mixed versions and reversed ranges |
| `Summaries.FirstIsWhole` | apps/whois/tasks.py:175-180 | The first block is the largest that starts the range, and the whole range exactly when the range is one block |
| `DelegatedStats.Parse` | apps/iran/providers.py:103-137 | The loop is total and collects, in order, what each line contributes; an address is in the result exactly when some line delegates it |
| `DelegatedStats.RangeLine` | apps/iran/providers.py:108-130 | A line with at least seven fields, not a comment, of country IR and status allocated or assigned, of type ipv4 with a readable start and a positive count that fits, contributes the blocks that tile its range, the fewest there are |
| `DelegatedStats.PrefixLine` | apps/iran/providers.py:108-134 | Such a line of type ipv6 with a readable start and a length up to 128 contributes one canonical block of that length around its address |
| `DelegatedStats.OtherLine` | apps/iran/providers.py:108-137 | Any other line contributes nothing: blank, comment, short, another country, type or status, or an unreadable value |
| `DelegatedStats.BlocksAreDelegation` | apps/iran/providers.py:122-134 | The blocks of an accepted line are canonical and hold exactly the addresses it delegates |
| `DelegatedStats.ParseConcat` | apps/iran/providers.py:104-137 | Parsing two bodies joined by a newline is the concatenation of their results, wherever the first one ends |
| `DelegatedStats.EntriesAreDelegations` | apps/iran/providers.py:104-137 | An address is in the parsed blocks exactly when the fields of some line delegate it, as a range or by a prefix; every block is canonical |
| `Inetnum.RangeGivesFirstBlock` | apps/whois/tasks.py:175-180 | A same-version range gives its largest leading block, which is the whole range exactly when the range is one aligned block |
| `Inetnum.RangeOutcome` | apps/whois/tasks.py:165-183 | Exactly which range texts give a block, which give None, and which raise an uncaught TypeError |
| `Inetnum.NetworkOutcome` | apps/whois/tasks.py:171-183 | A value with a slash gives the network's canonical block around its address, or None when it is no network; one with neither slash nor dash gives None |
| `CountryNetworks.LongestIsUnique` | apps/iran/services.py:23-29 | A longest match exists exactly when some enabled block holds the address, and there is only one |
| `CountryNetworks.QueryHasOneAnswer` | apps/iran/services.py:23-29 | The ordered query has exactly one answer, whatever order equal prefix lengths come in |
| `CountryNetworks.FindMatchingCidr` | apps/iran/services.py:19-29 | Visiting the rows in any order finds that answer |
| `CountryNetworks.DisablingOne` | apps/iran/services.py:23-29 | Disabling a row changes the answer for exactly the addresses whose answer it was; theirs becomes a wider block around it, or none |
| `CountryNetworks.LongestAfter` | apps/iran/services.py:23-29 | When blocks are added, the answer stays exactly when no added block is longer around the address |
| `CountryHistory.CountryDb.Classify` | apps/iran/services.py:32-87 | Verdict, CIDR and check time on the row, its other columns as they were, and the history closed and opened as the specification says, for any loaded row |
| `CountryHistory.HistoryIsLossless` | apps/iran/services.py:48-86 | Over any run with a clock that does not go back, reading the half-open periods at any time gives the last verdict at or before it; at most one row per address is open, exactly while it is Iranian, with its CIDR |
| `CountryHistory.EqualRowsTouchIff` | apps/iran/services.py:67-82 | Two rows of an address that touch at an instant have the same CIDR if and only if, of the verdict before the instant and those given at it, that Iranian verdict was left and returned to |
| `CountryHistory.EqualRowsCanTouch` | apps/iran/services.py:67-82 | A run in which that happens between two different rows |
| `CountryHistory.HistoryOnlyGrows` | apps/iran/services.py:69-82 | No row is removed, no closed row changes, and of an open row only its end |
| `CountryHistory.OpenedSaysWhy` | apps/iran/services.py:51-65 | The row a verdict opens is an open period of IR from now on with the verdict's CIDR; its source and confidence are the matched network's at 1.0, or WHOIS at 0.5 when no network matches |
| `CountryHistory.SourceIsNotTracked` | apps/iran/services.py:67-67 | Only verdict and CIDR are compared: a changed source leaves the history as it is |
| `CountryHistory.StaleRowIff` | apps/iran/tasks.py:28-36 | After a classification of a row loaded before another changed it, open row and classification agree exactly unless the verdict is the loaded but no longer the stored one |
| `CidrValidation.Run` | apps/iran/services.py:100-151 | The table after a run row by row, the exact created and disabled counts for entry lists with duplicates, and a reclassification of exactly the Iranian addresses if either is positive |
| `CidrValidation.RowsAfterRun` | apps/iran/services.py:112-136 | Every row after a run: a fetched one has the description of its last entry, the source, enabled, verified at the time of the run; one of the source that no entry names is disabled and verified at that time; every other is as it was |
| `CidrValidation.SourceRowsAreFetched` | apps/iran/services.py:112-136 | The source's enabled Iranian rows are exactly the fetched ones and those another country's entry for the same block protects; rows of other sources outside the fetch are unchanged |
| `CidrValidation.EnabledAfter` | apps/iran/services.py:112-136 | The enabled Iranian blocks after a run: the old ones without the dropped ones, and the fetched ones |
| `CidrValidation.StaleAfterScan` | apps/iran/services.py:138-147 | After a scan exactly the addresses outside Iran that lie in a fetched block are outdated |
| `CidrValidation.StaleAfterSkip` | apps/iran/services.py:138-147 | Without one, exactly the addresses whose longest match a re-enabled block replaces |
| `CidrValidation.IncrementalEqualsFull` | apps/iran/services.py:101-147 | If all was current and nothing was re-enabled, the outdated addresses are exactly those outside Iran in a newly created block, so there are none if nothing was created |
| `CidrValidation.ReenablingIsNotCounted` | apps/iran/services.py:126-127 | A run that counts nothing, scans nothing and leaves an Iranian address outdated |
| `CidrValidation.StaticRunEnablesAll` | apps/iran/providers.py:58-74 | A static run creates and disables nothing and enables every manual Iranian row; the enabled networks stay the same exactly when none was disabled |
| `CidrValidation.RunKeepsHistory` | apps/iran/services.py:145-147 | A run is a sequence of fresh classifications and keeps everything proved of the history |
| `WhoisText.NormalizeKeyIdempotent` | apps/whois/parsers.py:40-41 | Normalising a key twice is normalising it once |
| `WhoisText.FieldOfIff` | apps/whois/parsers.py:53-63 | What every line contributes: with a key, a colon and a nonempty value, however indented, aligned or padded, the key in lower case with underscores and the value without the padding; every other line and every comment nothing |
| `WhoisText.ParseGeneric` | apps/whois/parsers.py:44-64 | The dictionary holds for each key the in-order list of the values its lines contribute, and no other key |
| `WhoisText.RoundTrip` | apps/whois/parsers.py:44-64 | Printing the dictionary as "key: value" lines in any key order and parsing again gives the same dictionary |
| `WhoisText.ExtractKnownFields` | apps/whois/parsers.py:67-78 | Each canonical field is the first value of its first alias present, and absent when none is |
| `WhoisText.KnownFields` | apps/whois/parsers.py:27-37 | Which keys of the registries give which of the nine fields, in which order of preference, and that there are no other fields |
| `WhoisText.AliasesAreDistinct` | apps/whois/parsers.py:27-37 | No alias stands for two canonical fields |
| `Enrichment.EnrichmentDb.ProcessNewIp` | apps/ips/tasks.py:24-51 | A new address queues a lookup if its check is due, and a classification and geo enrichment; a process task that finds its lock taken queues nothing and leaves the lock as it was |
| `Enrichment.EnrichmentDb.PerformWhoisLookup` | apps/whois/tasks.py:36-51 | A fresh row is skipped before the lock is tried; a taken lock skips the lookup and stays as it was; otherwise everything a lookup stores, saves and queues happens and the lock ends free |
| `Enrichment.EnrichmentDb.RunLookup` | apps/whois/tasks.py:54-131 | The outcomes of an answered lookup: retry, give up, save every column and classify again, or break off with the reply stored and nothing else |
| `Enrichment.MixedRangesBreakOff` | apps/whois/tasks.py:104-106 | Of `inetnum` ranges exactly those between addresses of different versions break a lookup off |
| `Enrichment.EnrichmentIsConfluent` | apps/ips/tasks.py:33-51 | At any point of any run, in any order with any retries, deaths, redeliveries and tasks dropped at a dead worker's lock, the stored classification is the verdict on networks and WHOIS country if and only if saved answers turned that verdict around an even number of times since the last saved classification and an address inside an enabled network has ever been classified; after an odd number it is the opposite |
| `Enrichment.UnclassifiedWasSkipped` | apps/iran/tasks.py:32-36 | A run that drains without ever saving a classification dropped a process or a classify task at its lock |
| `Enrichment.UnansweredFlip` | apps/whois/tasks.py:108-131 | In a run that drains, a saved answer that turned the verdict around and was never followed by a classification had no country, or its worker died before queueing the classification, or a classification was dropped at its lock later on |
| `Enrichment.AnnouncedRunsAreCurrent` | apps/whois/tasks.py:123-131 | When every such answer queues a classification and no process or classify task is dropped at its lock, the drained queue always leaves the current one |
| `Enrichment.SkipFollowsDeath` | apps/common/locks.py:26-33 | A task is dropped at a lock only within 300 seconds (process), the WHOIS timeout and 30 (lookup) or 60 (classify, geo) of the start of an earlier execution of that kind whose worker died inside the lock |
| `Enrichment.DeathHoldsLock` | apps/common/locks.py:26-33 | After a worker died inside a lock, a task of that kind that is delivered next is dropped if and only if it starts within that time |
| `Enrichment.DeathLosesClassification` | apps/whois/tasks.py:108-131 | Every new address that no network holds and WHOIS reports as "IR" can end as not Iranian: the worker dies after saving the row, and the redelivered lookup finds it fresh |
| `Enrichment.LockLosesClassification` | apps/iran/tasks.py:32-36 | Every new address inside an enabled network can end unclassified: the classification's worker dies inside the lock, and the redelivered task is dropped |
| `Enrichment.LockLosesAnnounced` | apps/iran/tasks.py:32-36 | Every new address that no network holds and WHOIS reports as "IR" can end as not Iranian although the lookup queued its classification: both classifications are dropped at the lock of a dead worker |
| `Enrichment.BlankingKeepsIranian` | apps/whois/tasks.py:96-131 | And can stay Iranian after a later reply without a country |
| `Enrichment.QueueDrains` | apps/whois/tasks.py:54-131 | When no worker dies every queue drains; one new address takes at most eight tasks, one lookup at most five |
| `Enrichment.FourLookups` | apps/whois/tasks.py:58-61 | In any run of one dispatched lookup in which no worker dies, at most four executions get past the freshness check, and k retries wait 30 * (2^k - 1) seconds, at most 210 |
| `Enrichment.RowSaysLastAnswer` | apps/whois/tasks.py:63-98 | After any run the WHOIS columns are those of the last lookup that saved its answer; skipped, retried and broken-off ones change none of them |
| `Enrichment.DetailsAreKept` | apps/whois/tasks.py:100-106 | Over any run the ASN is read from the last saved answer that had an origin, and the CIDR from the last that had an `inetnum`; answers without one change neither |
| `Enrichment.EveryAnswerIsStored` | apps/whois/tasks.py:83-90 | The stored replies are exactly the answers in order, also those of lookups that then broke off or whose workers died before saving the row |
| `Enrichment.FinishedLookupsAreSpaced` | apps/whois/tasks.py:43-45 | An unforced lookup finishes at least the cache time after every lookup that finished before it |
| `Enrichment.PendingQueryIsNextLookups` | apps/ips/services.py:31-47 | The pending query is exactly the set of addresses for which an unforced lookup that starts now, with its lock free, changes the row, stores a reply or queues a task |
| `Locks.Entered` | apps/common/locks.py:28-29 | From an attempt to enter on, at any time: the key is taken while the timeout runs if the attempt succeeded, or as it was; other keys are as they were |
| `Locks.Left` | apps/common/locks.py:32-33 | After leaving, at any time: the key is free, whoever had taken it; other keys are as they were |
| `Locks.MutualExclusion` | apps/common/locks.py:26-33 | In every interleaving in which holders leave or crash before their timeout, no two are inside one key, and no exit deletes another worker's entry |
| `Locks.TimelyIffExclusive` | apps/common/locks.py:26-33 | Holders of a run leave or crash before their timeout if and only if at none of its points anybody's attempt to enter could put two workers inside one key |
| `Locks.EntersIff` | apps/common/locks.py:4-5 | A worker gets in exactly when nobody is inside and no crashed holder's timeout is still running |
| `Locks.OverstayingBreaksIt` | apps/common/locks.py:32-33 | On any key with any timeout: an overstaying holder's exit can let a third worker in beside the second, which is within its own timeout |
| `Retention.MaintenanceDb.PurgeOldRequestEvents` | apps/incidents/tasks.py:17-28 | Keeps exactly the events at or after the cutoff, each as often as it was there, and counts the deleted ones |
| `Retention.FilterCounts` | apps/incidents/tasks.py:19-23 | A purge keeps every copy of a row within retention and drops every copy of one that is not |
| `Retention.MaintenanceDb.PurgeOldWhoisRecords` | apps/whois/tasks.py:147-162 | Keeps exactly the WHOIS replies at or after the cutoff, each as often as it was there, and counts the deleted ones |
| `Retention.MaintenanceDb.PurgeStaleIps` | apps/ips/tasks.py:79-85 | Deletes exactly the eligible addresses and, through the cascade, exactly their WHOIS replies; no event and no history row |
| `Retention.MaintenanceDb.PurgeOldData` | apps/ips/tasks.py:89-104 | Keeps exactly the events and WHOIS replies at or after their cutoffs, then deletes the addresses eligible with what is left, with their replies |
| `Retention.EligibleIff` | apps/ips/tasks.py:71-75 | An address is eligible exactly when it was last seen before the cutoff, is not Iranian, and no event and no history row refers to it |
| `Retention.EligibleAreUnreferred` | apps/ips/tasks.py:71-75 | No event and no history row refers to an eligible address, so the cascade deletes none |
| `Retention.RowsAfterStep` | apps/ips/tasks.py:79-85 | How often each event and each WHOIS reply is there after any one statement of reader, classification and maintenance |
| `Retention.AddressesAfterStep` | apps/ips/tasks.py:79-85 | Which addresses there are after any one statement, what their rows say, and the history |
| `Retention.NextKeeps` | apps/ips/tasks.py:54-85 | Every statement of reader, classification and maintenance keeps all references, deletes no history row and changes no closed one |
| `Retention.ReferencesStay` | apps/ips/tasks.py:54-85 | The same over any run of such statements |
| `Retention.SightedCanBeCreated` | apps/logs/services.py:76-97 | Once a sighting is recorded, the events up to it can be created, whatever statements run in between |
| `Retention.ReferentialIntegrity` | apps/logs/services.py:76-97 | Over any run from empty tables every event, history row and WHOIS reply refers to an existing address, and no event is later than its address was last seen |
| `Retention.RecentEventsStay` | apps/incidents/tasks.py:17-28 | Over any run an event that is within retention at the end was never deleted, by its own purge or by the cascade of another |
| `Retention.RedundantForDelayIff` | apps/ips/tasks.py:58-60 | Over all runs from empty tables with only recent events created between the purges, the exclusion of addresses with events is redundant if and only if the address purge comes no later after the event purge than the difference of the two retention times |
| `Retention.LateBatchNeedsExclusion` | apps/ips/tasks.py:58-60 | From any consistent state without history rows, for any retention times and any delay between the purges: when a batch of lines of a new address older than its cutoff comes in between, the exclusion is not redundant |

## Left out

- LogFormat.CompileFormat: literals are matched as text and only the character classes of the token table are modelled; a regular expression engine's other features cannot occur.
- LogFormat.MatchSound: `\d` is ASCII digits, while Python's also takes other decimal digits, which an nginx status never has.
- LogFormat.PresetRoundTrip: `strptime`, `int`, `float` and `ip_address` are arbitrary readers, so nothing is said of what texts they accept; request times are reals.
- LogReader.NginxLogReader.Poll: UTF-8 decoding is an arbitrary function, the error note does not spell out the count, and database errors such as an out-of-range byte count or a NUL character are not modelled.
- LogReader.EventsHaveRows: an address text stands for its row's primary key; that a purge between the two statements can take the row away is in Retention.
- LogTail.ExactTail: polls start from the state the previous one saved; what happens with a row loaded before the lock is LogTail.StaleRow and LogTail.StaleSave.
- LogTail.PollOnce: the `stat` and the `open` of one poll (apps/servers/services.py:125-144) are one look at the file; a rotation between them reads the new file under the old inode, and the next poll, finding the new inode, reads and records those lines again.
- LogTail.ExactAcrossRotations: two rotations between consecutive polls are one, and a new file that gets the inode of the one before it is taken for its continuation, as in the code.
- Sightings.Monotone: no statement here deletes addresses, which is Retention's subject; the order in which a set of new addresses is queued is any order.
- Prefixes.NetworkIsCanonical: the text forms of addresses and networks are not modelled.
- DelegatedStats.Parse: the HTTP fetch and the decoding are not part of this model, and entries are blocks rather than their texts.
- Inetnum.RangeOutcome: IPv6 scope identifiers are not modelled.
- CountryHistory.HistoryIsLossless: each classification is one step on a freshly loaded row; CountryHistory.StaleRowIff says what a stale one does.
- CidrValidation.Run: nothing else runs meanwhile, although the code takes no lock around its classifications; the task's guard against an empty Iranian table is left out.
- CidrValidation.SourceRowsAreFetched: a provider's block is taken in canonical form, as CIDRField stores and compares it.
- WhoisText.NormalizeKeyIdempotent: `lower` is modelled for the ASCII letters that a key can contain.
- Enrichment.EnrichmentIsConfluent: tasks run one at a time, each taking its lock at the time it starts, and the networks are fixed; a lock is left either by its task or by the worker's death, so a holder that outlives its timeout is Locks.OverstayingBreaksIt; geo enrichment changes no column that is modelled, and of a stored reply only time and text are.
- Enrichment.RowSaysLastAnswer: the ASN and CIDR columns are Enrichment.DetailsAreKept; how the known fields and the AS number are read from the text is a parameter here.
- Enrichment.FourLookups: the countdown is a sum of seconds, not a schedule.
- Locks.MutualExclusion: the hypothesis that holders leave or crash before their timeout is not something the code enforces; Locks.OverstayingBreaksIt shows why it is needed.
- Retention.MaintenanceDb.PurgeStaleIps: query, count and delete are one step.
- Retention.PurgesInTime: that no event older than the purge's cutoff is created between the purges is a hypothesis; the code does not check it.
- SSH sessions, SFTP, subprocesses, the GeoIP database, Django views, serializers, search, exports, settings, migrations and encryption: input, output or plumbing.
- Dashboard charts and map clustering: they group and count rows for display and change none.
- `discover_logs`: it lists the files of a server's log directories for an operator to choose from; polling starts from the chosen paths.
