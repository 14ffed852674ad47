# acme-champion, verified

A Dafny model of the parts of acme-champion that compute something: the clock text, the rate
limiter, the challenge store, and the DNS resolver from a message's bytes to the reply's bytes. Each
part has the source's own shape (a class with the same fields, a loop where the source has one)
proved against functions on values; the theorems are about those functions and about whole runs.

| file | models |
|---|---|
| `rust_int.dfy`, `text.dfy` | truncating division, narrowing casts, byte strings, ASCII case |
| `calendar.dfy` | the Gregorian calendar by the leap rule, counted year by year and month by month |
| `utc_time.dfy`, `timestamp.dfy` | `Time::from` and its `Display` text |
| `rate_limiter.dfy` | the table of address states: `increment`, `cleanup` |
| `rate_limiter_runs.dfy`, `rate_limiter_edge.dfy` | what holds over runs of requests from many addresses |
| `challenge_store.dfy` | the bounded list of challenges, and runs of it |
| `wire.dfy`, `dns_header.dfy`, `dns_query.dfy` | parsing and printing questions |
| `dns_response.dfy` | building and printing responses |
| `rfc1035.dfy`, `response_reads_back.dfy` | an independent reader of DNS messages, and what it makes of the responses |
| `dotted_names.dfy` | what the dotted form of a name, the store's key, says about its labels |
| `compression.dfy`, `long_labels.dfy` | the names the program reads against section 4.1.4 of RFC 1035, and the labels that pointers copy |
| `resolver.dfy`, `resolver_theorems.dfy`, `end_to_end.dfy` | `response_for_message`, `handle_request`, and what clients can rely on |
| `messages.dfy` | which messages are processed, refused or left without an answer, by their octets |
| `cut_queries.dfy` | queries that are cut off: on which the program stops, and what it answers to the others |
| `witnesses.dfy` | messages and values at which the conditions of the theorems fail |

The clock is a parameter. Strings are the bytes that hold them. Where the program would index past
the end of a message, the model has the outcome `Overrun` (`DnsQuery.LabelsAt`), and the parser
requires exactly that this does not happen (`QuestionFits`, `MessageFits`). A registered value
arrives in one read of a 4096-byte buffer (src/main.rs:95, src/http_handler.rs:25), so the bound of
65534 bytes on values in some theorems always holds.

Where the code differs from what its surroundings suggest, the model follows the code:

- `month` keeps the zero-based month of the C code it comes from, and `Display` prints it as it is;
  no printed time is its own instant under RFC 3339, while the month plus one would be, exactly in
  the years 0000 to 9999 (`Timestamp.MonthIsOneShort`, `Timestamp.MonthPlusOneWouldRead`).
- The repository's README promises every registered value in a TXT answer. The length octet wraps,
  so the answer reads back if and only if no matching value is longer than 255 bytes
  (`ResolverTheorems.TxtReply`; `Witnesses.OneByteTooMany` is the boundary).
- A window or block that ends in second `e` still counts in second `e` for `increment` but not for
  `cleanup`. The table and an address's own automaton go in step, states and answers, if and only if
  no admitted request of the address finds its entry removed in that very second
  (`RateLimiterRuns.InStepIffNeverPurgedOnEdge`), and going in step implies the same answers
  (`RateLimiterRuns.InStepGivesAnswers`). The answer to such a request itself differs if and only if
  the automaton is blocked or has answered 99 requests in its window
  (`RateLimiterRuns.StepAnswersDifferIff`, `RateLimiterEdge.PurgingOnTheEdgeShows`).
- A compression pointer contributes one label and parsing goes on behind the pointer
  (`DnsQuery.PointerCopiesOneLabel`). By section 4.1.4 of RFC 1035 a pointer ends the name, so the
  two agree if and only if there is no pointer or the first one leads to a zero octet
  (`Compression.ReadsAsCompressedIff`, `Compression.OrdinaryPointerIsMisread`).
- The store is looked up by the dotted form of the name, which cannot tell a dot within a label from
  one between labels (`DottedNames.DotInLabelCollides`); without such labels it tells all names apart
  (`DottedNames.DottedSplitsIff`, `DottedNames.DottedAgreeIff`).
- A copied label may have more than 63 octets, though never more than 132. A reply that repeats such
  a name cannot be read, and all others can (`ResolverTheorems.ReplyReadsBack` for processed queries,
  `ResolverTheorems.EarlyReply` for the others, `LongLabels.ReplyNameReadsIff` with compression,
  `Witnesses.LongLabelReplyIsUnreadable`).

## Model

| member | source | states |
|---|---|---|
| RustInt.FixUpIsFloor | src/time.rs:62-84 | Rust's truncating `/` and `%` followed by the sign fix-up are floor division and its remainder |
| RustInt.DivTruncates | src/time.rs:62-84 | `/` and `%` truncate: the remainder is smaller than the divisor and has the dividend's sign |
| RustInt.CastWraps | src/dns/response.rs:51 | the casts keep a number modulo their range: a number in range plus any multiple of it gives that number |
| UtcTime.FloorSplit | src/time.rs:62-84 | the fix-up blocks: `n` is `whole * size + rest` with `0 <= rest < size`, for negative `n` too |
| UtcTime.ClampsAreForLeapDays | src/time.rs:86-114 | the century clamp fires on day 146096 only, the four-year clamp never, the year clamp on day 1460 only |
| UtcTime.SplitCycles | src/time.rs:74-116 | at most 3 centuries, 24 four-year and 3 single years; the rest counts days from the calendar's 1 March of that year, and reaches 365 only if the next February has 29 days |
| UtcTime.FindMonth | src/time.rs:118-125 | the month loop leaves by its break: the month's first day plus the rest is the day of the year, and the rest lies inside the month |
| UtcTime.MarchDate | src/time.rs:127-135 | January and February move to the next year: the result is a valid date with the right day count |
| UtcTime.CountDate | src/time.rs:74-135 | for every day count, before or after 2000, a valid Gregorian date that the leap-year rule counts to exactly that day |
| UtcTime.From | src/time.rs:40-141 | valid fields (the u8 casts lose nothing) that count back, by calendar and clock, to exactly the signed nanoseconds of the instant, before and after 1970 |
| UtcTime.FieldsAreDetermined | src/time.rs:61-140 | two valid times with the same nanosecond count are equal, so the contract of `From` fixes every field |
| UtcTime.FieldsOrderInstants | src/time.rs:48-140 | a later instant has lexicographically larger fields, and conversely |
| UtcTime.OneDayLater | src/time.rs:61-140 | `b` is 86400 seconds after `a` if and only if it is the same time of the calendar's next day |
| UtcTime.FourHundredYearsLater | src/time.rs:74-84 | `b` is 146097 days after `a` if and only if only the year differs, by 400 |
| Timestamp.PaddedIsFixed | src/time.rs:25-34 | `{:0w}` of a number below 10^w is its last w decimal digits |
| Timestamp.PaddedMeans | src/time.rs:25-34 | `{:0w}` of any number: a minus if negative, digits that stand for the absolute value, at least w characters, no leading zero beyond that |
| Timestamp.TextOrdersInstants | src/time.rs:23-37 | in the years 0000 to 9999 the text has 27 characters, and texts compare as the instants do in microseconds |
| Timestamp.TextReadsBack | src/time.rs:23-37 | a reader of 0000-00-00T00:00:00.000000Z, with its own separators, gets a printed time's fields back if its year is in 0000 to 9999, and nothing otherwise |
| Timestamp.TextIsPunctuated | src/time.rs:27 | in those years the text has 27 characters with '-' at 4 and 7, 'T' at 10, ':' at 13 and 16, '.' at 19 and 'Z' at 26 |
| Timestamp.MonthIsOneShort | src/time.rs:24-36 | no printed time, of any year, denotes its own instant under RFC 3339 |
| Timestamp.MonthPlusOneWouldRead | src/time.rs:127-134 | printing month plus one would denote it, if and only if the year is in 0000 to 9999 |
| RateLimiter.RateLimiter.constructor | src/rate_limiter.rs:15-19 | an empty, bounded table |
| RateLimiter.RateLimiter.Cleanup | src/rate_limiter.rs:74-79 | keeps exactly the entries whose window or block ends after `now` |
| RateLimiter.RateLimiter.Increment | src/rate_limiter.rs:21-72 | table and answer are those of one step of the table automaton; the bound holds and the u8 count does not overflow |
| RateLimiter.ServeKeepsBounded | src/rate_limiter.rs:24-59 | one request keeps at most 100 entries and every count between 1 and 99 |
| RateLimiterRuns.FullTableRefuses | src/rate_limiter.rs:24-35 | a request is turned away at capacity if and only if the table has 100 entries and none has expired, whether its own address is among them or not; it gets `Block` and the table stays as it is |
| RateLimiterRuns.OthersAreLeftAlone | src/rate_limiter.rs:25-35 | every other address keeps its entry, except that a full table loses the expired ones |
| RateLimiterRuns.RefusedIff | src/rate_limiter.rs:24-71 | a request is refused if and only if it is turned away at capacity, falls within a block, or is the hundredth of a window |
| RateLimiterRuns.EntryAfterwards | src/rate_limiter.rs:38-71 | an admitted request opens a window with count 1, adds one to the open one, leaves a block as it is, or, as the hundredth, starts a block of 600 s from now |
| RateLimiterRuns.RunKeepsBounded | src/rate_limiter.rs:21-79 | so does every run, even if the clock jumps |
| RateLimiterRuns.RunKeepsInvariant | src/rate_limiter.rs:21-79 | with an ordered clock every window start is at most the last reading and every block end at most 600 s after it |
| RateLimiterRuns.Quota | src/rate_limiter.rs:21-79 | in any stretch of seconds of any run one address gets at most 98 `Ok`s plus 99 for each started minute |
| RateLimiterRuns.QuotaPerMinutes | src/rate_limiter.rs:21-79 | fewer than 99 * (k + 1) `Ok`s in any 60 * k consecutive seconds |
| RateLimiterRuns.KeepingTheLimitIsServed | src/rate_limiter.rs:21-79 | an address that never sends 100 requests within 61 seconds is never refused for its rate, whatever others do and whenever the table is purged |
| RateLimiterRuns.NinetyNinePerWindow | src/rate_limiter.rs:42-60 | an address alone: the first 99 requests of the 61 seconds of a window are answered, all later ones refused |
| RateLimiterRuns.RefusedToTheEnd | src/rate_limiter.rs:61-69 | a block refuses through its last second |
| RateLimiterRuns.ServedAfterTheEnd | src/rate_limiter.rs:61-65 | the first request after it opens a new window |
| RateLimiterRuns.BlockPersists | src/rate_limiter.rs:61-79 | a blocked address stays blocked while readings are before its end, in any order, whatever others do and however often the table is purged |
| RateLimiterRuns.PassingTheLimitBlocks | src/rate_limiter.rs:51-56 | after passing the limit at `b`, every request with readings below `b + 600` is refused |
| RateLimiterRuns.AtCapacityChangesNothing | src/rate_limiter.rs:24-30 | a request turned away at capacity leaves the table as it was, and nothing in it has expired |
| RateLimiterRuns.CapacityStretch | src/rate_limiter.rs:24-35 | a stretch of such requests changes nothing and lasts under 600 s, under 60 s if any entry is not a block |
| RateLimiterRuns.CapacityRecovers | src/rate_limiter.rs:24-47 | 600 s after the last reading a full table is emptied and the caller let in |
| RateLimiterRuns.StepAgreesIffOffEdge | src/rate_limiter.rs:43-79 | one admitted request has the same effect on the shared table as on the address's own unpurged automaton, unless its entry was purged in the second it expired |
| RateLimiterRuns.StepAnswersDifferIff | src/rate_limiter.rs:43-79 | the answers of one such request differ if and only if the entry was purged in the second it expired and the automaton is blocked or has count 99 |
| RateLimiterRuns.TableRefinesAutomata | src/rate_limiter.rs:24-79 | over any run, an address that never sends in such a second gets, for its admitted requests, the answers of its own automaton |
| RateLimiterRuns.EachAddressIsOnItsOwn | src/rate_limiter.rs:21-79 | the same from the empty table |
| RateLimiterRuns.InStepIffNeverPurgedOnEdge | src/rate_limiter.rs:43-79 | table and automaton go in step for the whole run if and only if no admitted request finds its entry purged in the second it expired |
| RateLimiterRuns.InStepGivesAnswers | src/rate_limiter.rs:21-79 | a run in step gives the address the answers of its own automaton |
| RateLimiterEdge.PurgingOnTheEdgeShows | src/rate_limiter.rs:61-79 | an ordered run of 200 requests from the addresses 10.0.0.1 to 10.0.0.100, with a purge on the edge, in which the answers differ: the first is let in on the last second of its block |
| Text.LowerForgetsCaseOnly | src/challenges.rs:10-14 | two bytes match ignoring ASCII case exactly if they are equal or one letter in its two cases |
| Text.EqIgnoreCaseMeans | src/challenges.rs:10-14 | two texts match if and only if they have the same length and match octet by octet, up to the case of letters |
| Text.EqIgnoreCaseIsEquivalence | src/challenges.rs:10-14 | matching is reflexive, symmetric and transitive, and keeps the length |
| Text.EqIgnoreCaseSplits | src/challenges.rs:10-14 | matching splits over concatenation |
| ChallengeStore.Challenges.constructor | src/challenges.rs:22-24 | an empty store |
| ChallengeStore.Challenges.Any | src/challenges.rs:26-33 | true exactly if some stored challenge has the name, ignoring ASCII case |
| ChallengeStore.Challenges.Set | src/challenges.rs:42-47 | appends, and drops the oldest beyond 100 |
| ChallengeStore.Challenges.Cleanup | src/challenges.rs:49-51 | removes every equal challenge and keeps the order of the others |
| ChallengeStore.ValuesOfHolds | src/challenges.rs:35-40 | a value is listed for a name exactly if a stored challenge with that name carries it |
| ChallengeStore.NoValuesIffNoMatch | src/challenges.rs:26-40 | `named` is empty exactly if `any` is false |
| ChallengeStore.FoundIffRegistered | src/challenges.rs:10-40 | there are values if and only if a stored challenge has that name: same length, same octets up to the case of letters |
| ChallengeStore.ValuesOfConcat | src/challenges.rs:35-40 | values are listed in registration order |
| ChallengeStore.WithoutConcat | src/challenges.rs:49-51 | removal keeps the order of what remains, part by part |
| ChallengeStore.WithoutDropsOnly | src/challenges.rs:49-51 | removal drops the given challenge and nothing else |
| ChallengeStore.StoreIsSuffix | src/challenges.rs:42-51 | after any run the store is a suffix, of at most 100, of what an unbounded store would hold |
| ChallengeStore.StoreIsUnboundedWhileItFits | src/challenges.rs:42-51 | and equal to it if that never holds more than 100 |
| ChallengeStore.RegisteredIsKept | src/challenges.rs:42-51 | a registered challenge is kept until it is removed or 100 more have been registered |
| ChallengeStore.RegistrationsPushOut | src/challenges.rs:42-47 | registrations alone leave exactly the newest 100, so the limit of the previous row is sharp |
| ChallengeStore.RemovedIsGone | src/challenges.rs:42-51 | a removed challenge stays away until it is registered again |
| DnsQuery.AcmeLabelIsSpelled | src/dns/mod.rs:10 | the label's bytes spell `_acme-challenge` |
| DnsQuery.LabelAt | src/dns/query.rs:124-142 | the slice behind the length octet, or `TooShort` |
| DnsQuery.ReadLabel | src/dns/query.rs:103-122 | the label at the cursor or at the end of one pointer; every success moves the cursor forward within the message |
| DnsQuery.ReadLabels | src/dns/query.rs:31-39 | the labels up to the first empty one; ends on every message |
| DnsQuery.AppendLabels | src/dns/query.rs:55-74 | wire form and dotted form of the labels, or the error of the first label that is not ASCII or does not fit |
| DnsQuery.FromBytes | src/dns/query.rs:27-86 | the question at the cursor, or the error with its position |
| DnsQuery.LabelsEndInEmpty | src/dns/query.rs:32-39 | the labels of a name are non-empty up to the last, which is empty |
| DnsQuery.JoinedName | src/dns/query.rs:57-74 | a name is accepted exactly if it is ASCII and at most 255 bytes on the wire, and then becomes its wire form and its labels joined by dots |
| DnsQuery.ParsedName | src/dns/query.rs:27-86 | for every question, with or without pointers: accepted exactly then; the wire form ends in zero and the dotted form is two shorter (both empty of labels for the root) |
| DottedNames.DottedSplitsIff | src/dns/query.rs:57-74 | the dotted form split at its dots gives the labels back if and only if none of them holds a dot |
| DottedNames.DottedAgreeIff | src/challenges.rs:10-14 | for names without such labels, dotted forms match ignoring case if and only if the labels do one by one |
| DottedNames.DotInLabelCollides | src/dns/query.rs:61-66 | two names, one with a dot within a label, with the same dotted form |
| DnsQuery.LabelsStandInTheMessage | src/dns/query.rs:103-142 | every label, copied or not, stands in the message behind its length octet |
| DnsQuery.PointerCopiesOneLabel | src/dns/query.rs:110-117 | a pointer contributes exactly the one label it leads to, and the name goes on behind it; if that label is empty, the name ends there |
| Compression.ReadsAsCompressedIff | src/dns/query.rs:103-122 | a name that is read has the labels and the end that section 4.1.4 of RFC 1035 gives it, if and only if it has no pointer or its first pointer leads to a zero octet |
| Compression.OrdinaryPointerIsMisread | src/dns/query.rs:110-117 | eight bytes with a pointer to a non-empty label, read with another end than section 4.1.4 gives |
| DnsQuery.PrintAfterParse | src/dns/query.rs:27-100 | printing a parsed pointer-free question gives back the bytes it was read from |
| DnsQuery.ParseAfterPrint | src/dns/query.rs:27-142 | an encoded question, wherever it stands, parses to its name, type, class and end; it is refused exactly if not ASCII or longer than 255 |
| DnsQuery.Query.ToBytes | src/dns/query.rs:92-100 | name, type and class in big-endian order; the size hint is the exact length |
| DnsResponse.Response.constructor | src/dns/response.rs:16-24 | id and RD bit of the query, no error, nothing else |
| DnsResponse.Response.SetRcodeNoError | src/dns/response.rs:26-28 | changes the code only |
| DnsResponse.Response.SetRcodeNXDomain | src/dns/response.rs:30-32 | changes the code only |
| DnsResponse.Response.AddAAnswer | src/dns/response.rs:34-40 | appends one A answer |
| DnsResponse.Response.AddAaaaAnswer | src/dns/response.rs:42-48 | appends one AAAA answer |
| DnsResponse.Response.AddTxtAnswer | src/dns/response.rs:50-61 | appends one TXT answer with the length octet in front of the value |
| DnsResponse.Response.AddNsAnswer | src/dns/response.rs:63-71 | appends one NS answer with the name's tail behind its first label |
| DnsResponse.Response.AddSoaAnswer | src/dns/response.rs:73-87 | appends one SOA answer |
| DnsResponse.Answer.ToBytes | src/dns/response.rs:151-162 | the record's fields in wire order; the size hint is the exact length |
| DnsResponse.Response.ToBytes | src/dns/response.rs:89-118 | the encoding that the theorems below read back |
| DnsResponse.ContentLength | src/dns/response.rs:90-96 | a printed response has exactly 12 bytes plus the size hints |
| ResponseReadsBack.HeaderReadsBack | src/dns/response.rs:98-107 | id, flags, code and counts read back by section 4.1.1 of RFC 1035 |
| ResponseReadsBack.RecordReadsBack | src/dns/response.rs:151-162 | a record reads back by section 4.1.3, whatever follows |
| ResponseReadsBack.ContentReadsBack | src/dns/response.rs:89-118 | any response with well-formed names and u16-sized values and counts reads back to its header, question and answers, with nothing left over |
| ResponseReadsBack.LongLabelsAreUnreadable | src/dns/response.rs:109-111 | a question with a label over 63 octets makes the response unreadable without compression |
| LongLabels.ReadLabelsAreBounded | src/dns/query.rs:57-142 | a label of a question that is read has at most 132 octets, so a copied label's length octet never looks like a pointer |
| LongLabels.ReplyNameReadsIff | src/dns/response.rs:109-111 | a reader that follows pointers reads the repeated name as its labels if none is over 63 octets, and stops otherwise |
| Resolver.ResponseForMessage | src/dns/mod.rs:42-142 | the reading of the message, with a response object of its own |
| Resolver.ProcessedNameHasFirstLabel | src/dns/response.rs:63-65 | the NS answer's slice is in bounds for every query that is processed |
| Resolver.AddTxtAnswers | src/dns_handler.rs:93-100 | one TXT answer per value, in order |
| Resolver.AddAnswers | src/dns_handler.rs:91-125 | the answers for each query type and nothing else changed |
| Resolver.HandleRequest | src/dns_handler.rs:72-143 | the printed reply, or none |
| ResolverTheorems.ProcessedQuery | src/dns/mod.rs:101-141 | what is processed: an ASCII name of at most 255 bytes whose first label is `_acme-challenge` in any case, with the message's id and RD bit |
| ResolverTheorems.ProcessedType | src/dns/mod.rs:101-118 | the type of a processed query is A, NS, SOA, TXT or AAAA for the numbers 1, 2, 6, 16 and 28 in its question |
| ResolverTheorems.PointerFreeIsShort | src/dns/query.rs:103-109 | names without pointers have labels of at most 63 octets |
| ResolverTheorems.ReplyReadsBack | src/dns_handler.rs:72-143 | the reply to a processed query reads back as an authoritative answer with id, RD bit and question echoed, if and only if no label asked for is longer than 63 octets |
| ResolverTheorems.TxtValueReadsBack | src/dns/response.rs:50-61 | the TXT data is the value behind its length modulo 256; it reads back, all strings of the record joined, if and only if the value has at most 255 bytes |
| ResolverTheorems.TxtReply | src/dns_handler.rs:92-131 | the TXT reply has one record per value registered under the name, NXDOMAIN for none, and reads back as exactly those values in registration order if and only if none exceeds 255 bytes |
| ResolverTheorems.NsAnswerNamesTheParent | src/dns/response.rs:63-71 | the NS data is the well-formed wire name of the labels without the first |
| ResolverTheorems.NsAndSoaFollowTxt | src/dns_handler.rs:91-114 | NS and SOA are answered, once, exactly when TXT on the same name has an answer |
| ResolverTheorems.NsReply | src/dns_handler.rs:110-114 | the NS reply reads back as a delegation to the parent name, or no answer |
| ResolverTheorems.SoaAnswerReadsBack | src/dns/response.rs:73-87 | the SOA data reads back as the name twice and 1, 10800, 3600, 604800, 30 |
| ResolverTheorems.SoaReply | src/dns_handler.rs:105-109 | the reply to a query of type 6 reads back with exactly one record of type 6, class IN, 30 s under the name asked for, whose data is the known one, or as NXDOMAIN without records |
| ResolverTheorems.AddressAnswersReadBack | src/dns_handler.rs:115-124 | A and AAAA give the server's own addresses in 4 and 16 bytes, independent of the store |
| ResolverTheorems.Ipv4Reply | src/dns_handler.rs:115-119 | the reply to a query of type 1 reads back with exactly one record of type 1 and the server's IPv4 address in four octets, or as NXDOMAIN if it has none |
| ResolverTheorems.Ipv6Reply | src/dns_handler.rs:120-124 | the same for type 28 and the IPv6 address in sixteen octets |
| ResolverTheorems.ReplySize | src/dns/response.rs:89-118 | with values of at most 255 bytes every reply has at most 52371 bytes |
| ResolverTheorems.EarlyReply | src/dns/mod.rs:59-127 | the reply to a query that is not processed cannot be read if it repeats a label over 63 octets; every other one reads back with id and RD bit, no answers, FORMERR for opcode 0 without one readable question by the octets of the header, REFUSED otherwise, and the question once read |
| ResolverTheorems.SilenceIff | src/dns/mod.rs:43-57 | no reply exactly for messages shorter than a header and for replies |
| ResolverTheorems.ResponsesAreIgnored | src/dns/mod.rs:54-57 | every printed response, sent back, gets no reply |
| Messages.ProcessedIff | src/dns/mod.rs:42-142 | a message is processed if and only if its octets make it a standard query with question count 1 for an ASCII name of at most 255 bytes whose first label spells "_acme-challenge" in any case, of type 1, 2, 6, 16 or 28 |
| Messages.OtherCountsAreRefused | src/dns/mod.rs:69-77 | a standard query with any other question count is answered with FORMERR, its id and RD bit, no question and no answers |
| Messages.UnreadableLabelIsRefused | src/dns/query.rs:103-142 | a reserved length octet, a label over the end, or a pointer that does not point back or leads to such a label, anywhere in the name, gives its error and FORMERR without a question |
| Messages.BadNameIsRefused | src/dns/query.rs:57-70 | the first label that is not ASCII or does not fit decides the error, given with the position behind the question |
| Messages.TxtIsAnsweredIff | src/dns_handler.rs:92-131 | a TXT query has answers if and only if a challenge is registered under its name, NXDOMAIN otherwise, as when no stored name has its length |
| EndToEnd.QueryIsProcessedIff | src/dns/mod.rs:79-141 | a standard one-question query is processed if and only if its name is ASCII, at most 255 bytes and below `_acme-challenge` |
| EndToEnd.TxtQueryIsAnswered | src/dns_handler.rs:72-143 | after any run of the store, a TXT query is answered with the values stored under its name |
| EndToEnd.RegisteredChallengeIsAnswered | src/challenges.rs:35-51 | a registered challenge is in the answer to a TXT query for its name, in any case, until it is removed or 100 more have been registered |
| CutQueries.CutQueryFitsIff | src/dns/query.rs:32-51 | on the first n bytes of a query the program stops with an index out of bounds if and only if they end in front of a length octet of the name, or behind the name but before the end of the question |
| CutQueries.CutLabelIsRefused | src/dns/query.rs:124-135 | cut within a label, a query is answered with FORMERR, its id and its RD bit |
| Witnesses.BareHeaderDoesNotFit | src/dns/query.rs:32-47 | a header with question count 1 and nothing behind it does not fit |
| Witnesses.OneByteTooMany | src/dns/response.rs:50-61 | one registered value of n bytes comes back from its TXT query if and only if n <= 255 |
| Witnesses.LongLabelReplyIsUnreadable | src/dns/query.rs:110-117 | a 76-byte query with a copied label of 64 octets is processed, and its reply can be read neither with compression nor without |

## Left out

- `handle_dns`, `bind_udp_socket` and `valid_return_address` (src/dns_handler.rs), src/main.rs: sockets, the poll loop and the send retry; only `handle_request` is modelled.
- src/http_handler.rs: HTTP over streams and `httparse`; its effect on the store is the model's `Register` and `Remove`.
- src/config.rs, src/logger.rs, src/user.rs, certbot-dns-champ/champ.py: arguments, log formatting, foreign calls and the Certbot plugin.
- Logging calls and capacity hints, except that the hints equal the printed lengths.
- The internals of `HashMap` and `LinkedList`: a map field and a sequence field stand for them.
- Messages whose question does not fit, on which the program stops with an index out of bounds: outside `MessageFits` (`CutQueries.CutQueryFitsIff`, `Witnesses.BareHeaderDoesNotFit`).
- `Time::from` is split into methods at its blocks (`FloorSplit`, `SplitCycles`, `FindMonth`, `CountDate`), `from_bytes` at its two loops (`ReadLabels`, `AppendLabels`), and `handle_request` at its match (`AddAnswers`); the order of steps is the source's.
- Bit masks are written as quotients and remainders by powers of two (`octet & 0b11000000 == 0` is `octet < 64`).
- UtcTime.From: requires that no i64 step overflows, which is the range the source assumes of its clock.
- RateLimiter.RateLimiter.Increment: the i64 sums of clock readings and durations are unbounded, since a reading is far below 2^63.
