# VantaDNS: a verified model

VantaDNS is a small filtering DNS resolver. A query is parsed, its name is judged by a
block list that an allow list overrides, an answer cache is consulted, and what is left goes
to a list of upstream resolvers. This project models those four parts and proves what they
do for every message, every rule list, every run and every interleaving of requests.

`dafny verify dfyconfig.toml` checks the whole project.

## How it is laid out

| part | specification and code | proofs |
|---|---|---|
| octets, UTF-8, string methods | `Bytes`, `Utf8`, `Strings` | in the same files, `Numbers` and `Characters`, and `Letters` for the examples |
| wire codec (RFC 1035, sections 4.1.1 to 4.1.4 and 3.3.14) | `Wire`, `Names`, `Headers`, `Records`, `Sections`, `Packets` | `NameWalks`, `NameRoundTrip`, `RecordRoundTrip`, `PacketRoundTrip`, `RecordOctets`, `LongNames`, `RepeatedRecord` |
| answer cache | `Lru`, `Cache` | `CacheTtl`, `CacheRuns` |
| filter and its rule files | `Trie`, `Engine`, `Chunks` | `FilterLaws`, `RuleSyntax`, `RuleLines`, `Chunks`, `LoneReturns` |
| streams, upstreams, handlers | `Framing`, `Forwarder`, `Service` | `ReplySizes`, `ReplyOctets`, `ServiceLaws`, `Interleaving`, `SecondQuestion` |

Code that works by changing things is a class with methods (a cursor over a message, a
growing buffer, the bounded map, the cache, the rule sets, a byte stream, the service); each
method is proved equal to a function of its inputs and of the old state, and the results
below are about those functions.

A Rust `String` is the sequence of its UTF-8 octets. Time is a number of nanosecond ticks,
and every clock reading is an argument. The network is an argument too: what asking each
upstream would give. A task that panics is modelled: parsing returns `Abort`/`Panicked`
when the cursor is asked for octets that it does not have.

## What the main results say

* **What the octets mean.** The numbers, codes, types, casts, UTF-8 and rule lines that the
  other results speak of are characterised on octets (`Numbers`, `Characters`, `Headers`,
  `RecordOctets`, `ReplyOctets`, `RuleLines`).
* **Reading names.** The loop with its cursor and its jump counter succeeds exactly when a
  walk of in-bounds labels and pointers reaches a zero octet with at most 50 pointers, and
  returns the labels of that walk (`NameWalks.ReadNameExact`, `NameWalks.SpelledNameIsRead`).
  A walk that comes back to where it has been always ends in the loop error.
* **Writing names, questions, records and packets.** For each of them there is a checkable
  predicate (`GoodName`, `GoodQuestion`, `GoodRecord`, `GoodPacket`), and in each single message,
  at each offset, what was written is read back if and only if the predicate holds. A packet
  that came out of the parser, compressed or not, is stable exactly when it is clean.
* **Aborts.** A message aborts the parser exactly when, of the records that it announces, the
  first that cannot be read is a TXT record, all in the message, one of whose character-strings
  is not (`PacketRoundTrip.MessageAbortsExactly`).
* **Cache.** Every run of lookups, inserts and clears is compared with an unbounded map of
  the latest inserts; the recency order is proved to be the order of last use, which gives
  both which key is displaced and how long a key is sure to stay.
* **Filter.** The parent-domain scan is the suffix relation on labels; six rule syntaxes have
  one effect; the filter depends only on the set of lines it was given, so the pieces of a list
  load like the list read in text mode.
* **Service.** An inductive invariant over all interleavings of the handlers' steps, with the
  cache lock among them. The cache of every interleaving is the cache of a run with a monotone
  clock, so that the results on such runs hold of it, and a request whose steps are not
  interrupted does what its handler does. `ServiceLaws.DatagramAnswer` says which answer each
  query gets. The two handlers agree over every list of queries
  until one aborts. A connection's client receives the replies in the order of its queries,
  all of them exactly when no query meets what makes its reply unfit for a frame
  (`ServiceLaws.ClientReceives`, `ServiceLaws.Misfit`).

## Where the code is not what one might expect

* After a pointer the cursor stays where the pointer led, so only the text of a compressed
  name is specified; the writer emits no pointers, and for what it emits the end is exact.
* The string loop of a TXT record trusts the inner lengths. `RecordRoundTrip.TextsAbortExactly`
  says when it aborts and `RecordRoundTrip.TextsEndExactly` when it ends where RDLENGTH says.
  `PacketRoundTrip.MessageCanAbort` gives two messages that abort; the one of 14 octets, in which
  a pointer leads back into the header, is as short as can be (`PacketRoundTrip.ShortestAbort`).
* RDLENGTH is not looked at for CNAME data, and for MX only whether it is below 3. A CNAME
  over 65535 octets is therefore still read back, although its RDLENGTH is cut
  (`RecordRoundTrip.RecordFraming`, and `LongNames.RdlengthCanBeCut` for such a record).
* Because the cursor stays where a pointer led, a record can be announced and read over and
  over: `RepeatedRecord.QUERY` has 32 octets and is parsed to 65535 answers. Written again, as a
  blocked reply or as SERVFAIL, it has more than 700000 octets; the connection handler then
  writes a cut length and the client loses the stream (`ServiceLaws.ReplyCanBeTooLong`). In
  address mode the blocked reply has 65536 answers, whose count is cut to zero
  (`RepeatedRecord.BlockedReplyIsLost`).
* `normalize` is applied twice by `evaluate`; `FilterLaws.NormalizeTwice` says for which names
  that differs from once and `FilterLaws.NormalizeTwiceDiffers` gives one.
* The `evictions` counter also counts replacements in a full cache (`CacheRuns.Conservation`).
* The cast of the remaining TTL to 32 bits is harmless exactly for lives under 2^32 seconds
  (`CacheTtl.CastIsExact`), and a hit can raise a TTL exactly when some stored TTL is below
  the configured minimum and is not the greatest there is (`CacheTtl.NeverRaisesExactly`).
* An upstream reply that aborts the parser silences the datagram handler, while the
  connection handler has already passed it on (`ServiceLaws.HandlersAgree`).
* The filter judges the first question of a query, and the whole query is sent upstream. A
  query that was sent asks for a blocked name exactly when a later question of it does
  (`Interleaving.ForwardedBlockedExactly`), and there is such a query
  (`SecondQuestion.BlockedNameIsForwarded`).
* A decoded name does not show where its labels end if one of them holds a dot: the label `a.b`
  and the labels `a` and `b` are the same name to the filter and to the cache, so that the reply
  for the one is served for the other (`NameRoundTrip.DotInLabelIsLost`). For labels without
  dots this cannot happen (`NameRoundTrip.SameNameExactly`).
* A hit carries the id of the upstream reply that filled the entry, not that of the query it
  answers (`Interleaving.CachedReplyId`), and it is served to queries of any class
  (`ServiceLaws.OtherClassIsServed`).
* The connection handler writes a hit to its client while it holds the cache lock, so that a
  client which does not take its reply holds up the lookups and inserts of all other requests
  (`Interleaving.WaitsExactlyForWriter`, `Interleaving.WriterHoldsUpOthers`).
* The list splitter reads in text mode, which ends a line at a lone carriage return; the rule
  loader does not. `LoneReturns.LoneReturnChangesFilter` is a list whose pieces load another
  filter, and `LoneReturns.ChunksLoadTheListExactly` says for which lists that happens.
* The repository's README speaks of a radix trie and looks in the cache before the filter; the
  code uses two hash sets with a scan, and filters first. The model follows the code.
* `block_mode` is validated without regard to case but compared with it: an accepted mode does
  what it says unless it spells nxdomain with a capital letter
  (`ServiceLaws.ModeHonouredExactly`, `ServiceLaws.CapitalModeIsIgnored`).

## Model

| member | source | states |
|---|---|---|
| Utf8.LossyKeepsExactlyValid | dns-core/src/protocol/rr.rs:70-82 | the replacement decoding of TXT strings leaves a string alone exactly when it is valid UTF-8 |
| Utf8.LossyIsValid | dns-core/src/protocol/rr.rs:78-79 | whatever the octets, the decoded text is a valid string |
| Characters.ValidExactly | dns-core/src/protocol/question.rs:146-147 | a string is valid iff it is the encodings of some list of Unicode scalar values, one after another |
| Characters.InvalidPieceIsMaximal | dns-core/src/protocol/rr.rs:78-79 | one replacement stands for the longest front of the rest that begins a character, or for one octet |
| Characters.ReplacementIs | dns-core/src/protocol/rr.rs:78-79 | the replacement is U+FFFD |
| Numbers.Cut8IsRemainder | dns-core/src/protocol/question.rs:168 | the cast to eight bits keeps the remainder |
| Numbers.Cut16IsRemainder | dns-core/src/protocol/mod.rs:70-73 | the cast to sixteen bits keeps the remainder |
| Numbers.SixteenBits | dns-core/src/protocol/header.rs:73-87 | numbers of two octets have the high octet first, read and written |
| Numbers.ThirtyTwoBits | dns-core/src/protocol/rr.rs:38 | so have numbers of four |
| Numbers.LowersTheAlphabet | dns-core/src/protocol/question.rs:152 | each capital letter becomes the small one of its place in the alphabet, and no other octet changes |
| Names.ReadDomainName | dns-core/src/protocol/question.rs:105-156 | the cursor loop computes the name function: value, final cursor, and each error |
| Names.WriteDomainName | dns-core/src/protocol/question.rs:159-172 | the buffer gets the old octets and the encoding of the name |
| NameWalks.ReadNameExact | dns-core/src/protocol/question.rs:105-156 | reading succeeds iff some walk of labels and at most 50 pointers ends on a zero octet; the loop error comes iff 51 pointers can be followed |
| NameWalks.SpelledNameIsRead | dns-core/src/protocol/question.rs:105-156 | for any such walk the result is its labels, lower-cased and joined by dots, with the cursor after the zero octet |
| NameWalks.RevisitIsLoopError | dns-core/src/protocol/question.rs:110-114 | a walk that returns to a place it has been always ends in the pointer-loop error |
| NameWalks.NameLength | dns-core/src/protocol/question.rs:106-153 | an accepted name has at most 51 times as many octets as the message |
| NameWalks.DeadEndIsError | dns-core/src/protocol/question.rs:115-147 | a walk of at most 50 pointers that can neither go on nor end gives the error of the place where it stands |
| Letters.FarPointerIsFollowed | dns-core/src/protocol/question.rs:127-136 | a pointer to offset 268 is followed to the name there |
| NameRoundTrip.ReadsBackExactly | dns-core/src/protocol/question.rs:105-172 | in each message and at each offset, what was written for a name is read back, trimmed and lower-cased, iff its labels have 1 to 191 octets and are valid, and the cursor is then right behind it |
| NameRoundTrip.GoodNameIsRead | dns-core/src/protocol/question.rs:105-172 | good names delimit themselves, whatever stands around them |
| NameRoundTrip.OtherNameIsMisread | dns-core/src/protocol/question.rs:127-171 | in no message does a name that is not good yield itself or anything that begins with it |
| NameRoundTrip.PrefixFree | dns-core/src/protocol/question.rs:159-172 | no encoding of a good name is a proper prefix of another |
| NameRoundTrip.DecodedName | dns-core/src/protocol/question.rs:105-156 | a decoded name is lower-case and valid, and is written and read back as itself iff it shows no empty label |
| NameRoundTrip.SameNameExactly | dns-core/src/protocol/question.rs:105-156 | two names without dots in their labels are decoded to the same text iff their lower-cased labels are the same |
| NameRoundTrip.DotInLabelIsLost | dns-core/src/protocol/question.rs:142-149 | with a dot in a label two different names are |
| Headers.Parse | dns-core/src/protocol/header.rs:68-103 | the cursor version computes the header function |
| Headers.WriteTo | dns-core/src/protocol/header.rs:105-132 | the buffer gets the twelve octets of the header |
| Headers.AtHeader | dns-core/src/protocol/header.rs:105-132 | the layout: which field stands at which of the offsets 0, 2, 4, 6, 8, 10 |
| Headers.FlagsUnpack | dns-core/src/protocol/header.rs:73-82 | each flag and code of a written flag word is recovered by its own mask |
| Headers.HeaderIsRead | dns-core/src/protocol/header.rs:68-132 | every header value is read back wherever it was written |
| Headers.HeaderReEncodes | dns-core/src/protocol/header.rs:68-132 | parsing and writing keeps the twelve octets iff the reserved bits are clear and both codes are named ones |
| Headers.CodesAreRead | dns-core/src/protocol/header.rs:12-42 | response codes 0 to 5 and opcodes 0 to 2 by number; others become ServFail and Reserved; the response flag is the highest bit |
| Headers.CodesAreWritten | dns-core/src/protocol/header.rs:105-132 | the written octets hold those numbers |
| Records.ParseQuestionAt | dns-core/src/protocol/question.rs:80-95 | the cursor version computes the question function |
| Records.WriteQuestion | dns-core/src/protocol/question.rs:97-101 | the buffer gets the encoding of the question |
| Records.ParseRdataAt | dns-core/src/protocol/rr.rs:47-88 | the typed data branches and the TXT loop compute the data function, aborts included |
| Records.ParseRecordAt | dns-core/src/protocol/rr.rs:28-97 | the cursor version computes the record function |
| Records.WriteRdata | dns-core/src/protocol/rr.rs:105-144 | the temporary buffer gets the encoding of the data |
| Records.WriteRecord | dns-core/src/protocol/rr.rs:99-145 | the buffer gets name, fixed part, cut length and data |
| RecordRoundTrip.AtQuestion | dns-core/src/protocol/question.rs:97-101 | the layout: type and class stand at offsets 0 and 2 after the name |
| RecordRoundTrip.AtFixed | dns-core/src/protocol/rr.rs:99-145 | the layout: type, class, TTL, RDLENGTH and data stand at offsets 0, 2, 4, 8 and 10 after the name |
| RecordRoundTrip.QuestionSurvivesExactly | dns-core/src/protocol/question.rs:80-101 | in each message, a written question is read back, by value or with the cursor right behind it, iff it is good |
| RecordRoundTrip.RecordSurvivesExactly | dns-core/src/protocol/rr.rs:28-145 | in each message, a written record is read back, by value or with the cursor right behind it, iff its names are exact, its codes canonical and its data fits its type |
| RecordRoundTrip.RecordFraming | dns-core/src/protocol/rr.rs:99-145 | the written RDLENGTH counts the octets up to the record's last one iff the data has at most 65535 |
| LongNames.RdlengthCanBeCut | dns-core/src/protocol/rr.rs:99-145 | an alias of 65537 octets is written with RDLENGTH 1 and read back in every message |
| RecordRoundTrip.WrittenTextsTile | dns-core/src/protocol/rr.rs:130-138 | written character-strings fill the data exactly |
| RecordRoundTrip.TextsEndExactly | dns-core/src/protocol/rr.rs:70-82 | the string loop ends at RDLENGTH iff the strings tile the data |
| RecordRoundTrip.TextsAbortExactly | dns-core/src/protocol/rr.rs:70-82 | the string loop aborts iff the chain of length octets reaches a string that starts in the data and ends outside the message |
| RecordRoundTrip.RecordAbortsExactly | dns-core/src/protocol/rr.rs:28-97 | nothing but the string loop of a complete TXT record can abort the reading of a record |
| RecordRoundTrip.ParsedRecord | dns-core/src/protocol/rr.rs:28-97 | what the parser returns has canonical codes and data that agrees with its type, so it is good iff it is clean |
| RecordOctets.TypesAreRead | dns-core/src/protocol/question.rs:18-72 | the types and the class by number |
| RecordOctets.TypesAreWritten | dns-core/src/protocol/question.rs:18-72 | they are written with those numbers |
| RecordOctets.QuestionByOctets | dns-core/src/protocol/question.rs:80-95 | a question is a name and two numbers behind it, or one of two errors |
| RecordOctets.RecordByOctets | dns-core/src/protocol/rr.rs:28-97 | what each type number and length make of the data, where the cursor is left, each error and the abort |
| RecordOctets.NameOctets | dns-core/src/protocol/question.rs:159-172 | every name, good or not, is written label by label behind lengths in eight bits, with a zero octet at the end |
| RecordOctets.DataOctets | dns-core/src/protocol/rr.rs:105-141 | the octets of every data variant |
| Sections.EntryIsRead | dns-core/src/protocol/mod.rs:37-58 | entry k of a section is what is read where the entries before it end |
| Packets.Parse | dns-core/src/protocol/mod.rs:33-64 | the four counting loops compute the packet function |
| Packets.ToBytes | dns-core/src/protocol/mod.rs:66-91 | the result is the header with the section lengths as counts, then the four sections |
| Packets.BuildBlockedResponse | dns-core/src/protocol/mod.rs:94-117 | the clone changed field by field is the blocked response |
| PacketRoundTrip.PacketSurvivesExactly | dns-core/src/protocol/mod.rs:33-91 | what was written for a packet, with anything behind it, is read back with its counts set iff the packet is good, and reading then stops at its end |
| PacketRoundTrip.PacketRoundTrip | dns-core/src/protocol/mod.rs:33-91 | parsing what was written gives the packet with its counts iff the packet is good |
| PacketRoundTrip.OversizeIsLost | dns-core/src/protocol/mod.rs:70-73 | a packet with a section over 65535 entries is never read back |
| PacketRoundTrip.ParsedPacket | dns-core/src/protocol/mod.rs:33-64 | a parsed packet is good iff it is clean |
| PacketRoundTrip.DecodeEncodeDecode | dns-core/src/protocol/mod.rs:33-91 | a parsed packet, from compressed input too, is written and read back as the very same packet iff it is clean |
| PacketRoundTrip.MessageAbortsExactly | dns-core/src/protocol/mod.rs:33-64 | a message aborts the parser iff header and questions can be read and one of the announced records is reached and is a TXT record with a cut-off character-string |
| PacketRoundTrip.MessageCanAbort | dns-core/src/protocol/rr.rs:70-82 | two messages that do, the second by a pointer into its own header |
| PacketRoundTrip.ShortestAbort | dns-core/src/protocol/rr.rs:70-82 | no message under 14 octets does |
| PacketRoundTrip.BlockedReplyIsRead | dns-core/src/protocol/mod.rs:94-117 | the blocked reply to a parsed query is read back iff the query is clean and, if an answer is added, has fewer than 65535; the client then finds its own id, question and records, the response flag, the code, and in address mode the 0.0.0.0 answer |
| ReplyOctets.BlockedOctets | dns-core/src/protocol/mod.rs:94-105 | the id, the response flag and code 3 or 0 stand in the octets of a blocked reply |
| ReplyOctets.AddedAnswer | dns-core/src/protocol/mod.rs:104-113 | the octets of the answer that address mode adds: type 1, class 1, ten seconds, 0.0.0.0 |
| ReplyOctets.ServFailOctets | dns-core/src/main.rs:493-496 | the id, the response flag and code 2 stand in the octets of a SERVFAIL |
| ReplyOctets.ServFailIsRead | dns-core/src/main.rs:493-496 | a SERVFAIL is read back iff the query was clean, with nothing changed but the flag and the code |
| ReplyOctets.DecodedCodes | dns-core/src/protocol/header.rs:68-103 | the codes of a parsed message are the numbers in its third and fourth octets |
| ReplyOctets.ShortMessage | dns-core/src/protocol/header.rs:69-71 | a message under twelve octets is refused for that |
| RepeatedRecord.QueryIsRead | dns-core/src/protocol/question.rs:127-136 | 32 octets that are parsed to 65535 answers |
| RepeatedRecord.BlockedReplyIsLost | dns-core/src/protocol/mod.rs:94-117 | the blocked reply to them in address mode is written with the count 0 and not read back |
| Lru.LruCache.Get | dns-core/src/cache/lru_cache.rs:58 | a present key is returned and moved to the front; nothing else changes |
| Lru.LruCache.Put | dns-core/src/cache/lru_cache.rs:106 | a present key is replaced, a new one displaces the last when there is no room; both go to the front |
| Cache.DnsCache.constructor | dns-core/src/cache/lru_cache.rs:45-53 | an empty cache, with capacity 1024 in the place of 0 |
| Cache.DnsCache.Lookup | dns-core/src/cache/lru_cache.rs:55-80 | hit, miss and expiry with their counters, in terms of the old cache |
| Cache.DnsCache.Store | dns-core/src/cache/lru_cache.rs:82-107 | the entry with its effective TTL, and the eviction counter |
| Cache.DnsCache.Empty | dns-core/src/cache/lru_cache.rs:121-123 | clearing empties the map and keeps the counters |
| Cache.AgeAnswers | dns-core/src/cache/lru_cache.rs:67-73 | every answer, and nothing else, gets the remaining TTL |
| CacheTtl.EffectiveTtlBounds | dns-core/src/cache/lru_cache.rs:86-93 | the effective TTL lies between the bounds and is the smallest answer TTL when that does |
| CacheTtl.EffectiveTtlIsNearest | dns-core/src/cache/lru_cache.rs:93 | of all lives within the bounds it is the one nearest to what the answers ask for |
| CacheTtl.EffectiveTtlIsMonotone | dns-core/src/cache/lru_cache.rs:93 | it grows with what is asked for and with both bounds |
| CacheTtl.AskedTtl | dns-core/src/cache/lru_cache.rs:86-91 | asked for is the smallest answer TTL, or five minutes without answers |
| CacheTtl.AliveExactly | dns-core/src/cache/lru_cache.rs:14-17 | an entry is alive until its life has passed since it was created |
| CacheTtl.Cut32IsRemainder | dns-core/src/cache/lru_cache.rs:24 | the cast to 32 bits keeps the remainder |
| CacheTtl.MinTtlIsLeast | dns-core/src/cache/lru_cache.rs:86-91 | the raw TTL is one of the answers' and no answer has a smaller one |
| CacheTtl.ServedTtlEndsInTime | dns-core/src/cache/lru_cache.rs:14-27 | the expiry check plus the served TTL never passes creation plus effective TTL |
| CacheTtl.CastIsExact | dns-core/src/cache/lru_cache.rs:24 | the 32-bit cast is the number of whole seconds left, at every moment, iff the life is under 2^32 seconds |
| CacheTtl.ServedTtlFalls | dns-core/src/cache/lru_cache.rs:19-27 | a hit d ticks later serves a TTL smaller by the whole seconds of d, or zero |
| CacheTtl.NeverRaisesExactly | dns-core/src/cache/lru_cache.rs:66-93 | no hit ever raises an answer's TTL iff each stored answer has a TTL of at least the minimum or the greatest TTL there is |
| CacheRuns.HitIsLatest | dns-core/src/cache/lru_cache.rs:55-107 | over every run the size is bounded, and a hit returns the packet inserted last for the lower-cased name and the type, unexpired, changed only in its answers' TTLs |
| CacheRuns.HitInFull | dns-core/src/cache/lru_cache.rs:55-80 | over every run a lookup hits iff its key is cached and the entry inserted last has life left, and the reply is its packet, field by field, with the remaining TTL in every answer |
| CacheRuns.ConfigMeans | dns-core/src/cache/lru_cache.rs:45-53 | capacity 1024 in the place of 0, bounds in seconds, an empty start |
| CacheRuns.CacheIsSubmap | dns-core/src/cache/lru_cache.rs:55-107 | after every run the cache is part of the unbounded map of latest inserts |
| CacheRuns.OrderIsRanked | dns-core/src/cache/lru_cache.rs:58-106 | the recency order is the order of last use |
| CacheRuns.DisplacedIsLeastRecent | dns-core/src/cache/lru_cache.rs:102-106 | what is displaced was used before every other cached key |
| CacheRuns.RecencyGuarantee | dns-core/src/cache/lru_cache.rs:44-106 | an unexpired key stays while fewer than capacity other keys have been used since it was |
| CacheRuns.GuaranteedHit | dns-core/src/cache/lru_cache.rs:55-80 | then a lookup hits with the packet inserted last |
| CacheRuns.Conservation | dns-core/src/cache/lru_cache.rs:55-123 | the counters are the numbers of lookups that hit, missed and found an entry expired; keys that came in are present, displaced, expired or cleared; evictions are displacements plus replacements when full |
| Trie.DomainTrie.InsertRule | dns-core/src/filter/trie.rs:26-60 | both sets gain the name of the rule, or nothing changes |
| Trie.DomainTrie.IsMatch | dns-core/src/filter/trie.rs:63-79 | the shrinking loop decides the parent scan |
| Trie.MatchesExactly | dns-core/src/filter/trie.rs:63-79 | a name matches iff some rule equals its normal form or is what follows one of its dots |
| Trie.RulesAreTargets | dns-core/src/filter/trie.rs:26-60 | after every sequence of insertions both sets hold exactly the names of the rules |
| Trie.MatchesIsMonotone | dns-core/src/filter/trie.rs:63-79 | more rules match more names |
| Engine.FilterEngine.LoadBlocklistContent | dns-core/src/filter/engine.rs:33-46 | lines, exceptions, comments and the returned count |
| Engine.FilterEngine.LoadAllowlistContent | dns-core/src/filter/engine.rs:67-77 | lines, comments and the returned count |
| Engine.FilterEngine.Decide | dns-core/src/filter/engine.rs:52-64 | the verdict function of the two lists |
| Engine.LoadRules | dns-core/src/main.rs:180-199 | block files, then allow files, unreadable ones skipped |
| FilterLaws.LoadedIs | dns-core/src/filter/engine.rs:24-77 | the loaded lists are the unions of what the lines block, except and allow |
| FilterLaws.LoadingIsOrderFree | dns-core/src/main.rs:180-199 | the filter depends only on the set of block lines and the set of allow lines |
| FilterLaws.CountsAddUp | dns-core/src/filter/engine.rs:33-77 | the reported numbers add up over files |
| FilterLaws.NormalizeTwice | dns-core/src/filter/trie.rs:18-20 | normalising is idempotent on a name iff no white space stands in front of its trailing dots |
| FilterLaws.NormalizeTwiceDiffers | dns-core/src/filter/trie.rs:18-20 | a name on which it is not |
| FilterLaws.EvaluateExactly | dns-core/src/filter/engine.rs:52-64 | allow rules win over block rules, on the twice normalised name; the verdict shows the once normalised one |
| FilterLaws.MatchesBelow | dns-core/src/filter/trie.rs:69-76 | every name below a matching normalised name matches |
| RuleSyntax.SyntaxesAgree | dns-core/src/filter/trie.rs:32-47 | six ways of writing a clean host all block exactly its normal form |
| RuleLines.WhiteSpace | dns-core/src/filter/trie.rs:18-20 | the six octets that are white space |
| RuleLines.NormalizeExactly | dns-core/src/filter/trie.rs:18-20 | the normal form of white space, a text, dots and white space is the text in lower case |
| RuleLines.SurroundingsGo | dns-core/src/filter/trie.rs:27 | white space around a rule does not matter |
| RuleLines.TargetIsHostOfBody | dns-core/src/filter/trie.rs:26-60 | a comment names nothing; any other rule names the normal form of its body unless that is empty, starts with a slash, or holds a space or an equals sign |
| RuleLines.PlainRule | dns-core/src/filter/trie.rs:48-50 | a rule in no other syntax names itself |
| RuleLines.BarsRuleNames | dns-core/src/filter/trie.rs:32-40 | bars, a host, carets, options: the rule names the host, for every host |
| RuleLines.HostsRuleNames | dns-core/src/filter/trie.rs:41-42 | an address, white space, a word and whatever white space parts from it: the rule names the word |
| RuleLines.WildcardRuleNames | dns-core/src/filter/trie.rs:43-45 | stars with dots and a host: the rule names the host |
| RuleLines.LineTargets | dns-core/src/filter/engine.rs:33-77 | behind any number of exception marks a line blocks, excepts or allows what its rule names, by the kind of list |
| RuleLines.CountsExactly | dns-core/src/filter/engine.rs:33-77 | each line that is not empty and no comment is counted, but for exceptions in block lists |
| RuleLines.AllowLineWins | dns-core/src/filter/engine.rs:24-27 | a host in an allow file, in any syntax and with any number of exception marks, decides for itself and all names below, whatever else is loaded, and is counted |
| RuleSyntax.ExceptionWins | dns-core/src/filter/engine.rs:37-38 | an exception line in any block file, in any syntax, decides for its host and all names below, whatever else is loaded |
| Chunks.SplitIntoChunks | phone/update-blocklists.sh:70-78 | the loop yields the greedy split: all lines in order, each chunk closed by the line that fills it |
| Chunks.GreedyIsUnique | phone/update-blocklists.sh:70-78 | there is only one greedy split |
| Chunks.PartNamesDiffer | phone/update-blocklists.sh:79-80 | different chunks get different file names |
| Chunks.PartNamesAre | phone/update-blocklists.sh:79-80 | .parta to .partz, then .partab to .partzb, and so on |
| Chunks.TranslateExactly | phone/update-blocklists.sh:68-69 | text mode keeps the lines iff no carriage return stands alone |
| LoneReturns.LineEndings | dns-core/src/filter/engine.rs:35 | lines end with octet 10, before which one octet 13 is dropped by the loader and kept by the splitter; the last may have no ending |
| LoneReturns.TextMode | phone/update-blocklists.sh:68-69 | text mode makes octet 10 of 13, and of 13 with 10, and keeps all others |
| Chunks.ChunksLoadTheList | phone/update-blocklists.sh:65-84 | the pieces of any list, in any order and repetition, load the filter of the list read in text mode, which is that of the list if no carriage return stands alone |
| LoneReturns.ChunksLoadTheListExactly | phone/update-blocklists.sh:65-84 | they load the filter of the list, whatever allow files there are, iff no line that holds a carriage return names a host that the text does not, and no piece of such a line one that the list does not |
| LoneReturns.CutLinesArePieces | phone/update-blocklists.sh:68-69 | the lines of the text are, but for empty ones, the pieces that its carriage returns cut the lines of the list into |
| LoneReturns.LoneReturnChangesFilter | phone/update-blocklists.sh:68-69 | a list of three octets for which it does |
| Framing.ReceivedExactly | dns-core/src/main.rs:403-443 | framed messages are received as sent iff all have 1 to 65535 octets |
| Framing.UnframeFrames | dns-core/src/main.rs:429-443 | whatever follows them on the stream |
| Framing.EndsExactly | dns-core/src/main.rs:429-443 | behind whole frames reading ends with less than a length, with a length of zero, or within a message |
| Forwarder.ForwardRaw | dns-core/src/resolver/forwarder.rs:57-80 | the loop computes the first success |
| Forwarder.ForwardExactly | dns-core/src/resolver/forwarder.rs:57-80 | failure iff every upstream fails, with the last one's error; else the first reply there is |
| Forwarder.ResultExactly | dns-core/src/resolver/forwarder.rs:97-156 | what one upstream gives: a datagram up to 65535 octets as it is, the message behind a length, or an error |
| Forwarder.NoUpstream | dns-core/src/resolver/forwarder.rs:58-62 | without upstreams there is an error of its own |
| Forwarder.ForwardFitsExactly | dns-core/src/resolver/forwarder.rs:57-100 | the reply that is passed on has 1 to 65535 octets iff the first upstream that does not fail does not send an empty datagram |
| Forwarder.TcpRequestIsRead | dns-core/src/resolver/forwarder.rs:120-134 | what is sent to a TCP upstream is received there as the query iff it has 1 to 65535 octets |
| Forwarder.TcpReplyIsRead | dns-core/src/resolver/forwarder.rs:120-156 | a framed upstream reply is read back iff it has 1 to 65535 octets |
| Service.DnsService.ResolveDnsQuery | dns-core/src/main.rs:350-400 | the datagram handler: reply and cache as a function of query, cache, clock and upstreams |
| Service.DnsService.ServeMessage | dns-core/src/main.rs:445-502 | the connection handler for one message: what is written, the cache, and whether the connection goes on |
| Service.DnsService.ServeTcpDns | dns-core/src/main.rs:422-503 | the read loop over the stream serves exactly the framed messages |
| Service.ReadQuery | dns-core/src/main.rs:432-443 | one length and one message are taken off the stream, if both are there |
| ServiceLaws.DatagramAnswer | dns-core/src/main.rs:350-400 | which queries are dropped, blocked, answered from the cache or with the first upstream reply, and the cache after each |
| ServiceLaws.ConnectionAnswer | dns-core/src/main.rs:445-502 | the same for a connection: SERVFAIL when all upstreams fail, and the reply that aborts the task |
| ServiceLaws.SilentExactly | dns-core/src/main.rs:350-400 | no datagram iff the query is no message with a question, or reaches upstreams that all fail or reply with a cut-off character-string |
| ServiceLaws.HandlersAgree | dns-core/src/main.rs:349-503 | same cache always; same reply iff the upstreams neither all fail nor reply with a cut-off character-string; SERVFAIL against silence iff they all fail; the connection goes on iff neither query nor reply has one |
| ServiceLaws.RunsAgree | dns-core/src/main.rs:349-503 | over every list of queries: the connection lives iff nothing aborts, and then caches and replies agree |
| ServiceLaws.AgreeUntilAbort | dns-core/src/main.rs:349-503 | otherwise it dies over the first query that aborts: up to there replies and caches agree, and with that query the caches still do |
| ServiceLaws.MisfitExactly | dns-core/src/main.rs:445-502 | the reply to a query does not fit a frame iff the query or its blocked reply, or the entry that is hit, has over 65535 octets when written, or the first upstream that answers sends an empty datagram |
| ServiceLaws.ClientReceives | dns-core/src/main.rs:403-503 | at most one reply for each query, in order; the client receives exactly the replies iff no query meets that, and in any case those before the first that does not fit |
| ServiceLaws.ReplyCanBeTooLong | dns-core/src/main.rs:490-499 | a query of 32 octets whose reply has more than 700000 and is not received |
| ServiceLaws.OtherClassIsServed | dns-core/src/cache/lru_cache.rs:56 | while an entry lives, a query for its name and type in any class is answered with it |
| ServiceLaws.ModesAre | dns-core/src/config.rs:168-169 | the two modes, letter by letter |
| ServiceLaws.ModeHonouredExactly | dns-core/src/config.rs:168-174 | an accepted block mode does what it says unless it spells nxdomain with a capital letter |
| ServiceLaws.CapitalModeIsIgnored | dns-core/src/main.rs:366 | such a mode |
| Interleaving.SafeInAllInterleavings | dns-core/src/main.rs:349-400 | no query whose first question is for a blocked name is forwarded, no blocked name is cached, every cached packet is an upstream reply for its own name and type, and every reply is one of the four justified kinds: the blocked response, the first success of the asked upstreams, SERVFAIL after each of them failed, an aged copy from the cache |
| Interleaving.ForwardedBlockedExactly | dns-core/src/main.rs:357-388 | in any interleaving, a forwarded query asks for a blocked name iff a question after its first does |
| SecondQuestion.BlockedNameIsForwarded | dns-core/src/main.rs:357-388 | a query of two questions and a run in which it is forwarded although the second is for a blocked name |
| Interleaving.AdmittedIsForwarded | dns-core/src/main.rs:357-388 | each query that the filter admits is forwarded in some run |
| Interleaving.StepKeeps | dns-core/src/main.rs:421-503 | each step of each handler keeps the invariant |
| Interleaving.RunGrows | dns-core/src/main.rs:349-503 | a request gets at most one reply, and nothing that came or was sent is replaced |
| Interleaving.CachedRepliesEndInTime | dns-core/src/cache/lru_cache.rs:55-80 | in any interleaving a reply from the cache carries a TTL that ends no later than the entry |
| Interleaving.CachedReplyId | dns-core/src/cache/lru_cache.rs:58-75 | in any interleaving a reply from the cache has the id of the upstream reply that filled the entry, so it has the asker's iff that one did |
| Interleaving.EveryInterleavingIsACacheRun | dns-core/src/main.rs:377-393 | in any interleaving the shared cache is that of a run of its lookups and inserts, with a monotone clock |
| Interleaving.GuaranteedHit | dns-core/src/main.rs:377-385 | in any interleaving a request is answered from the cache while its key has not expired and fewer than capacity other keys have been used since it was |
| Interleaving.AloneIsTheHandler | dns-core/src/main.rs:349-503 | a request that finds the lock free and is not interrupted ends, in at most eight steps, with the cache and the reply of its handler |
| Interleaving.WaitsExactlyForWriter | dns-core/src/main.rs:469-479 | the next step of a request can be taken iff it does not need the lock or the lock is free; the holder is a connection writing a hit, which can always go on |
| Interleaving.WriterHoldsUpOthers | dns-core/src/main.rs:469-479 | from a hit on a connection until it is written, nobody looks in the cache or stores in it |
| Interleaving.StepsAreBounded | dns-core/src/main.rs:349-503 | each step of a request leaves it fewer, of at most seven |

## Left out

- Bytes.Lower: lower-cases ASCII letters only; the lower-casing of other characters, which may change their length, is not modelled. UTF-8 validity and replacement decoding are. What is said of lower-cased names is therefore about text without capital letters outside ASCII: `NameWalks.SpelledNameIsRead` and `NameLength`; all rows of `NameRoundTrip`; `RecordRoundTrip.QuestionSurvivesExactly`, `RecordSurvivesExactly` and `ParsedRecord`; `PacketRoundTrip.PacketSurvivesExactly`, `PacketRoundTrip`, `ParsedPacket`, `DecodeEncodeDecode` and `BlockedReplyIsRead`; the keys of `CacheRuns`; and what normalises names in `Trie`, `FilterLaws` and `RuleSyntax`.
- Strings.Trim: only ASCII white space is white space.
- CacheRuns.Conservation: counters are unbounded; their wrap-around at 2^64 is not modelled.
- Interleaving.WaitsExactlyForWriter: which of several waiting requests gets the lock next is left open, and so is whether a client or an upstream ever answers.
- Chunks.ChunksLoadTheList: the list is valid UTF-8 text; the replacement of invalid octets by the splitter is not modelled.
- Service.DnsService.ResolveDnsQuery: says which octets are handed to the socket; that a datagram cannot carry all of a long reply is not modelled.
- Chunks.PartNamesDiffer: names are code points; whether a file system takes them is not modelled.
- The hash set and the `lru` crate are modelled by their contracts, a set and a map with a recency order.
- Sockets, timeouts, the runtime and TLS: what an upstream attempt or a connection gives is an argument.
- The queries of one connection are unordered requests in `Interleaving`, which allows more than the code does; their order is the subject of `Service` and `ServiceLaws`.
- Configuration files and environment variables: only their validation matters here, as the assumption that the minimum TTL is at most the maximum.
- Command line, benchmark, health states, shell scripts other than the list splitter, and the Python forwarder have no property of this kind.
