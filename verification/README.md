# mDNS packet address rewriter — Dafny model

`packet-rewrite.h` rewrites an mDNS datagram in place so that every address record
advertises a new address. The datagram is a DNS message (section 4.1 of RFC 1035).
The rewrite reads the four section counts from the 12-byte header, then passes over
the sections in order. It steps over each question entry. For each resource record
it decodes the owner name, reads TYPE and RDLENGTH, and overwrites the RDATA of
A records (TYPE 1) with the new IPv4 address and of AAAA records (TYPE 28) with the
new IPv6 address. One cursor is threaded through all four passes.

The model has these parts:

- `Wire` holds bytes, big-endian 16-bit fields, the header size, record types and
  an in-place copy.
- `Names` holds the name decoder of `read_dns_name`. `DecodeFrom` is a pure,
  hop-bounded definition that keeps labels, length bytes and compression pointers
  (section 4.1.4 of RFC 1035) and the 1024-byte text buffer. `ReadName` is the
  decoder loop over the datagram array, proved equal to it.
- `NameProperties` holds an independent name encoder and its round trips,
  pointer cycles, and the set of bytes a decoding reads.
- `Sections`, `Questions` and `Records` hold the section passes. `QuestionsFrom`
  and `RecordsFrom` are the specifications. `ScanQuestions` and
  `ScanAndReplaceRecords` are the loops over the array, proved equal to them; the
  record pass writes into the array.
- `Writes` and `RecordProperties` describe a pass as a list of writes: where they
  land, their order, what they hold, what they leave alone, and which bytes a
  pass depends on.
- `RecordLayout` holds an independent record encoder: the pass steps over exactly
  one record, and A and AAAA records end up holding the new address. A whole
  section of encoded records is rewritten into the encoding of the rewritten
  records.
- `MessageLayout` holds an independent message encoder (header, questions, then
  the three record sections). Rewriting an encoded message gives the encoding of
  the rewritten message, and all four passes end Complete at their section ends.
- `Rewriter` and `RewriteProperties` hold the whole rewrite (`Rewrite`, and the
  in-place `RewritePacket` proved equal to it). The lemmas cover:
  - where all writes land, and what the datagram holds afterwards;
  - the header is kept;
  - no replacement means no change;
  - dependence only on the bytes read;
  - idempotence.
- `Findings` holds the source's behaviour where it departs from the intended
  behaviour, each case shown on an input.

The model follows the code, except at the departures listed under "## Left out"
and "## Findings". For example, a length byte from 0x40 to 0xBF is treated as a
label length, as the code does. At the departures, the model follows the
documentation or fails closed:
- the IPv6 replacement is used whenever it is given, as the documentation says;
- RDATA is overwritten only when it is exactly one address wide;
- a name that does not decode stops its pass as Malformed;
- the name decoder fails instead of reading past the datagram, following a
  pointer loop forever, or accepting a name the end of the datagram cuts off.

## Model

| member | source | states |
|---|---|---|
| `Wire.Be16` | packet-rewrite.h:131-134 | a 16-bit field read big-endian, high byte first, is below 65536 |
| `Wire.Overwrite` | packet-rewrite.h:100-104 | overwriting at an offset keeps the length, puts the new bytes at that offset and keeps every other byte |
| `Wire.CopyInto` | packet-rewrite.h:100-104 | the in-place copy into the datagram array leaves exactly `Overwrite` of the old contents |
| `Names.PointerTarget` | packet-rewrite.h:35-37 | a pointer's target is the six low bits of its first byte and the second byte, below 0x4000 |
| `Names.DecodeFrom` | packet-rewrite.h:29-48 | the decoder from a position with labels already gathered: a decoding succeeds only from a position inside the datagram and never loses a gathered label; where it ends is stated by `DecodeFromEnd`, the text bound by `DecodeFromFits`, the kept labels by `DecodeFromExtends` |
| `Names.DecodeFromExtends` | packet-rewrite.h:42-47 | a decoding keeps the labels gathered before it, in order, at the front of its result |
| `Names.DecodeFromEnd` | packet-rewrite.h:32-54 | a decoded name ends inside the datagram: just after the first pointer followed when there is one (two bytes past a pointer met first), otherwise after its start |
| `Names.DecodeFromFits` | packet-rewrite.h:43 | a decoded name's text, with one separator per label, fits the 1024-byte buffer |
| `Names.DecodeName` | packet-rewrite.h:23-56 | no name decodes at or past the end; a decoded name ends after its offset and inside the datagram; a zero byte is the empty name ending one byte later; a name starting with a pointer ends two bytes later |
| `Names.ReadName` | packet-rewrite.h:23-56 | the decoder loop over the datagram array returns exactly `DecodeName` |
| `NameProperties.DecodeEncodedName` | packet-rewrite.h:29-47 | round trip: an encoded uncompressed name decodes to its own labels and ends after its terminator |
| `NameProperties.DecodeCompressedName` | packet-rewrite.h:35-40 | labels then a pointer to an encoded suffix decode to the labels followed by the suffix, ending two bytes after the pointer |
| `NameProperties.PointerCycleFails` | packet-rewrite.h:35-40 | a name that enters a cycle of pointers does not decode |
| `NameProperties.SelfPointerFails` | packet-rewrite.h:35-40 | a pointer to itself does not decode |
| `NameProperties.DecodeNameAgrees` | packet-rewrite.h:29-48 | two datagrams of the same length that agree on the bytes the decoder reads decode the same name |
| `Questions.QuestionsFrom` | packet-rewrite.h:66-75 | the question pass rewrites and skips nothing; its cursor, count and status are stated by `QuestionsFromReport`, its path over stored questions by `QuestionsThroughLayout`, and its loop by `ScanQuestions` |
| `Questions.QuestionsSection` | packet-rewrite.h:66-75 | a question section rewrites and skips nothing; bounds in `QuestionsSectionReport`, a laid-out section in `QuestionsSectionLayout` |
| `Questions.ScanQuestions` | packet-rewrite.h:66-75 | the question loop over the array returns exactly `QuestionsSection` of its contents |
| `QuestionProperties.QuestionsFromReport` | packet-rewrite.h:66-75 | the question pass never moves the cursor back and rewrites nothing; Complete exactly when every entry was read inside the datagram; Malformed only at a name that does not decode; Truncated only at or past the end |
| `QuestionProperties.QuestionsSectionReport` | packet-rewrite.h:66-75 | a question section examines at most its count, rewrites nothing, and ends at or after where it started |
| `QuestionProperties.StoredQuestion` | packet-rewrite.h:70-71 | a stored question's name decodes and ends four bytes before the entry's end |
| `QuestionProperties.QuestionStep` | packet-rewrite.h:67-71 | the pass steps over one stored question to the byte after its QTYPE and QCLASS |
| `QuestionProperties.QuestionsThroughLayout` | packet-rewrite.h:67-74 | the pass steps over any run of stored questions to the byte after the last |
| `QuestionProperties.QuestionsSectionLayout` | packet-rewrite.h:66-75 | a section of stored questions ends Complete exactly after them, having examined all of them |
| `QuestionProperties.FirstQuestionStep` | packet-rewrite.h:67-71 | the pass steps over the first of a run of stored questions to where the rest of the run is stored |
| `QuestionProperties.QuestionsAgree` | packet-rewrite.h:66-75 | the question pass depends only on the bytes its decodings read |
| `Records.ParseRecord` | packet-rewrite.h:91-97 | a record parses when its name decodes and its ten fixed bytes fit; TYPE and RDLENGTH are 16-bit; RDATA starts ten bytes after the name, inside the datagram |
| `Records.EffectOf` | packet-rewrite.h:98-105 | an A record with an IPv4 address, or an AAAA record with an IPv6 address, is replaced exactly when its RDATA is one address wide and fits, and then with that address; other records of those types are skipped; all other records are untouched |
| `Records.NextRecord` | packet-rewrite.h:88-108 | one turn of the record loop uses up one record and moves the cursor past the fixed fields |
| `Records.RecordsFrom` | packet-rewrite.h:87-110 | the record pass keeps the datagram's length; its cursor, tally and status are stated by `RecordsFromReport`, its writes by `PassBuffer` and `WritesInside`, its path over stored records by `RecordsThroughLayout`, and its loop by `ScanAndReplaceRecords` |
| `Records.RecordsSection` | packet-rewrite.h:87-110 | a record section keeps the datagram's length; a laid-out section is stated by `RecordsSectionLayout` |
| `Records.MalformedStop` | packet-rewrite.h:91-96 | a pass stops Malformed at a record that does not parse, leaving the datagram and cursor there |
| `Records.RecordAdvance` | packet-rewrite.h:92-108 | after a parsed record the pass continues from the byte after its RDATA, with its effect applied |
| `Records.ReadRecordHeader` | packet-rewrite.h:91-97 | the array reads of TYPE and RDLENGTH return exactly `ParseRecord` |
| `Records.ScanAndReplaceRecords` | packet-rewrite.h:87-110 | the record loop leaves the array and returns the report of `RecordsSection` on the old contents |
| `Writes.ApplyWritesConcat` | packet-rewrite.h:152-155 | applying two lists of writes in turn is applying their concatenation |
| `Writes.ApplyWritesTwice` | packet-rewrite.h:100-104 | applying ordered, non-overlapping writes a second time changes nothing |
| `Writes.WritesKeep` | packet-rewrite.h:100-104 | writes that cover none of a set of positions leave those positions alone |
| `RecordProperties.RecordsFromReport` | packet-rewrite.h:88-109 | the record pass never moves the cursor back; rewritten plus skipped records never exceed the records examined, at most the count; Complete, Malformed and Truncated mean what they say |
| `RecordProperties.WritesInside` | packet-rewrite.h:98-106 | every write of a pass lies inside the datagram, after the cursor it started from and before the cursor it stopped at |
| `RecordProperties.WritesOrdered` | packet-rewrite.h:106 | the writes of a pass come in increasing, non-overlapping order |
| `RecordProperties.WritesAreReplacements` | packet-rewrite.h:98-105 | every write of a pass is one of the given addresses |
| `RecordProperties.WritesCounted` | packet-rewrite.h:98-105 | a pass makes exactly as many writes as it counts rewritten records |
| `RecordProperties.PassBuffer` | packet-rewrite.h:87-110 | the datagram after a pass is the old one with the pass's writes applied |
| `RecordProperties.PassKeepsUncovered` | packet-rewrite.h:87-110 | a byte that no write of the pass covers keeps its value |
| `RecordProperties.PassHoldsWrite` | packet-rewrite.h:98-105 | a byte that a write covers holds that write's byte afterwards |
| `RecordProperties.NoReplacementsPass` | packet-rewrite.h:98-105 | with neither address given, a pass makes no write, changes no byte, and rewrites and skips nothing |
| `RecordProperties.ParseAgrees` | packet-rewrite.h:91-96 | parsing a record depends only on its name's bytes, TYPE and RDLENGTH |
| `RecordProperties.RecordsFromAgrees` | packet-rewrite.h:87-110 | a pass over a datagram that agrees on the bytes the pass reads makes the same writes and the same report |
| `RecordLayout.StoredRecord` | packet-rewrite.h:91-97 | a stored record parses to its own TYPE and RDLENGTH, with RDATA ending where the record ends |
| `RecordLayout.RecordStep` | packet-rewrite.h:92-108 | the pass steps over exactly one stored record (name, ten fixed bytes, RDLENGTH bytes), applying the effect its TYPE and RDLENGTH call for |
| `RecordLayout.ARecordReplaced` | packet-rewrite.h:98-101 | a stored A record with four bytes of RDATA holds the IPv4 address afterwards, everything around it is kept, and it is counted as rewritten |
| `RecordLayout.AaaaRecordReplaced` | packet-rewrite.h:102-105 | a stored AAAA record with sixteen bytes of RDATA holds the IPv6 address afterwards, everything around it is kept, and it is counted as rewritten |
| `RecordLayout.MisfitRecordSkipped` | packet-rewrite.h:98-105 | a stored A or AAAA record whose RDATA is not one address wide is left unchanged and counted as skipped |
| `RecordLayout.RewriteRecord` | packet-rewrite.h:98-105 | a rewritten record keeps its name, TYPE, CLASS, TTL and RDATA length; a record that does not fit is unchanged; a fitting A record holds the IPv4 address and a fitting AAAA record the IPv6 address |
| `RecordLayout.RewrittenAt` | packet-rewrite.h:98-105 | each record of a rewritten section is the rewrite of the record in the same position |
| `RecordLayout.RewriteRecordsSize` | packet-rewrite.h:98-105 | a rewritten run of records is still well formed and encodes to as many bytes as before |
| `RecordLayout.ApplyIsRewrite` | packet-rewrite.h:98-105 | the effect the pass applies to a stored record replaces exactly when the record fits and skips exactly when it misfits, and leaves the datagram holding the rewritten record's encoding in its place |
| `RecordLayout.RecordRewritten` | packet-rewrite.h:88-108 | one turn of the record loop over a stored record steps past its encoding, leaves the rewritten record in its place, and counts it as examined, rewritten if it fits and skipped if it misfits |
| `RecordLayout.RecordsThroughLayout` | packet-rewrite.h:87-110 | a pass over a run of stored records, no more than the count still left, rewrites the run in place, examines every record in it, counts the fitting ones as rewritten and the misfits as skipped, and then goes on from right after the last record with that many fewer left |
| `RecordLayout.RecordsSectionLayout` | packet-rewrite.h:87-110 | a record section laid out in full ends Complete after its last record, holding the rewritten records, with every record examined and exactly the fitting ones rewritten |
| `MessageLayout.CountsRead` | packet-rewrite.h:131-134 | the header of an encoded message yields its four section counts |
| `MessageLayout.QuestionsPass` | packet-rewrite.h:152 | in an encoded message the question pass reads every question and stops Complete at the end of the question section |
| `MessageLayout.AnswersPass` | packet-rewrite.h:153 | in an encoded message the answer pass rewrites the answers in place and stops Complete at the end of their section |
| `MessageLayout.AuthoritiesPass` | packet-rewrite.h:154 | in an encoded message the authority pass rewrites the authority records in place and stops Complete at the end of their section |
| `MessageLayout.AdditionalPass` | packet-rewrite.h:155 | in an encoded message the additional pass rewrites the additional records in place and stops Complete at the end of the message |
| `MessageLayout.MessageReport` | packet-rewrite.h:152-155 | the report of a whole message: four Complete passes whose cursors follow one another and end at the end of the message |
| `MessageLayout.RewriteEncodedMessage` | packet-rewrite.h:121-155 | rewriting an encoded message gives the encoding of the same message with every fitting A and AAAA record's address replaced in all three record sections, and every pass Complete at the end of its section |
| `Rewriter.HeaderCounts` | packet-rewrite.h:131-134 | the four section counts read from header offsets 4, 6, 8 and 10 are 16-bit |
| `Rewriter.Rewrite` | packet-rewrite.h:121-155 | the rewrite keeps the datagram's length; it reports TooShort exactly when the datagram is shorter than the header, and then changes nothing |
| `Rewriter.ReadCounts` | packet-rewrite.h:131-134 | the array reads of the counts return exactly `HeaderCounts` |
| `Rewriter.RewritePacket` | packet-rewrite.h:121-159 | the in-place rewrite of the array leaves exactly `Rewrite`'s datagram and returns its report |
| `RewriteProperties.RewriteLayout` | packet-rewrite.h:152-155 | all writes of the rewrite lie after the header, inside the datagram, in increasing non-overlapping order, each one a given address, and the rewritten datagram is the old one with those writes applied |
| `RewriteProperties.RewriteCounted` | packet-rewrite.h:153-155 | the rewrite makes exactly as many writes as the three record passes count rewritten records |
| `RewriteProperties.RewriteKeepsUncovered` | packet-rewrite.h:152-155 | every byte that no write covers keeps its value |
| `RewriteProperties.RewriteHoldsWrite` | packet-rewrite.h:98-105 | every byte a write covers holds that write's byte |
| `RewriteProperties.HeaderKept` | packet-rewrite.h:127-135 | the twelve header bytes are never changed |
| `RewriteProperties.NoReplacementsUnchanged` | packet-rewrite.h:138-149 | with neither address given, the datagram is unchanged |
| `RewriteProperties.CountsAgree` | packet-rewrite.h:131-134 | the counts depend only on header bytes 4 to 11 |
| `RewriteProperties.RewriteAgrees` | packet-rewrite.h:121-155 | a datagram that agrees on every byte the rewrite reads gets the same writes and the same report |
| `RewriteProperties.RewriteIdempotent` | packet-rewrite.h:121-159 | when no byte the rewrite reads is one it overwrites, rewriting the rewritten datagram changes nothing and reports the same |
| `Findings.SourceNameTurn` | packet-rewrite.h:29-48 | one turn of `read_dns_name`'s loop as written: a pointer turn marks the state as jumped and writes no text; a label turn writes text and stays below the buffer size. `SourceNameTurns` iterates these turns as the loop does, and `SelfPointerNeverExits` states what it gives on a self-pointer |
| `Findings.SelfPointerNeverExits` | packet-rewrite.h:35-40 | as written, a name that is a pointer to itself keeps the loop running in the same state after any number of turns |
| `Findings.LongNameFails` | packet-rewrite.h:43 | a stored name whose text needs 1024 bytes or more does not decode |
| `Findings.LongNameRewinds` | packet-rewrite.h:69-71 | as written, a question whose name is too long sends the cursor back to offset 4, inside the header |
| `Findings.LongNameStops` | packet-rewrite.h:66-75 | in the model the same question stops the pass as Malformed at the question |
| `Findings.WideARecordOverreads` | packet-rewrite.h:100 | as written, an A record with more than four bytes of RDATA copies past the end of the four-byte address; the model skips it |
| `Findings.Ipv6OnlyIgnored` | packet-rewrite.h:146-149 | as written, with only an IPv6 address, an AAAA record keeps its old address; the model writes the new one |

## Left out

- The decoded name's dotted text, the trailing-dot removal and the NUL terminator (`read_dns_name` lines 44-53) are not modelled. The decoder keeps the labels and counts the text bytes, which is what decides the 1024-byte limit.
- The `printf` on a short datagram, and the `malloc`/`free` of the IPv4 copy, are not modelled.
- The conversion of `struct in_addr`/`struct in6_addr` into bytes is not modelled, including the host byte order of `s_addr`. The addresses are given as 4 and 16 bytes in wire order.
- Names.DecodeName: fails closed (None) wherever the code reads past the datagram: a pointer's second byte, or a label running past the end.
- Names.DecodeName: fails closed where the loop guard ends a name at or past the end of the datagram without a terminator. There, the code returns success with the cursor at that position, or two bytes past the first pointer if one was followed (line 54).
- Names.DecodeName: fails closed after as many pointer hops as the datagram has bytes. The code has no hop limit: a cycle made only of pointers loops forever (see Findings), and a cycle through a label ends at the capacity check of line 43 with -1.
- Records.ParseRecord: a record whose ten fixed bytes do not fit inside the datagram is reported Malformed. The code reads TYPE and RDLENGTH past the end.
- Records.EffectOf: writes an address only when RDLENGTH is exactly the address width and the RDATA fits. The code copies RDLENGTH bytes whatever their number (see Findings); such records are counted as skipped.
- Questions.QuestionsFrom: a name that does not decode stops the pass as Malformed at that name. The code ignores the decoder's result and continues from offset 4 (see Findings).
- Records.RecordsFrom: a name that does not decode stops the pass as Malformed at that record. The code continues from offset 0.
- Records.RecordsFrom: a pass whose cursor is already at or past the end of the datagram stops before reading an entry. The same holds for Questions.QuestionsFrom. The code checks the cursor only after each entry, so such a pass still reads one entry at or past the end.
- Rewriter.Rewrite: the IPv6 replacement is independent of the IPv4 one. The code takes it only when an IPv4 address is given, and then takes the address array of the IPv6 argument even if it is absent, which the C standard leaves undefined (in practice it gives NULL, so no IPv6 address is used; see Findings).
- RewriteProperties.RewriteIdempotent: holds under the hypothesis that no byte the rewrite reads is one it overwrites. If an overwritten RDATA is later read through a compression pointer, a second rewrite can parse differently.
- MessageLayout.RewriteEncodedMessage: covers messages whose names are all stored uncompressed. Compressed names are covered name by name (`NameProperties.DecodeCompressedName`) and by the pass-level lemmas, not by an end-to-end message encoder.
- The section reports (status and tally) are what the model adds to make the passes' outcomes visible. The code returns nothing and keeps only the cursor.

## Findings

| source | as written | input that shows it | evidently intended | confidence | as-written member | corrected member |
|---|---|---|---|---|---|---|
| packet-rewrite.h:35-40 | a compression pointer is followed with no hop limit and no check that it points backwards | a name at offset 12 made of the two bytes 0xC0 0x0C, a pointer to itself | decoding gives up on a pointer cycle | not executed | `Findings.SelfPointerNeverExits` | `NameProperties.SelfPointerFails` |
| packet-rewrite.h:69-71 | the decoder's failure is ignored, and `end` keeps its initial 0, so the cursor becomes 4 | a question whose name has 17 labels of 63 bytes (1088 bytes of text) | the pass stops at the question it cannot read | not executed | `Findings.LongNameRewinds` | `Findings.LongNameStops` |
| packet-rewrite.h:100 | RDLENGTH bytes are copied from the 4-byte IPv4 address (likewise from the 16-byte IPv6 one at line 104) | an A record with RDLENGTH 16 while an IPv4 address is given | only RDATA exactly one address wide is overwritten | not executed | `Findings.WideARecordOverreads` | `RecordLayout.MisfitRecordSkipped` |
| packet-rewrite.h:147 | the IPv6 address is taken only when the IPv4 argument is non-NULL | an IPv6 address with no IPv4 address, and an AAAA record with 16 bytes of RDATA | the IPv6 address is used whenever it is given | not executed | `Findings.Ipv6OnlyIgnored` | `RecordLayout.AaaaRecordReplaced` |
