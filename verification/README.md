# Models of the ser_ims core, with proofs

Dafny models of the hardest parts of the SIP Express Router with IMS extensions
(`ser_ims/trunk`), and proofs about them. The code is modelled in its own form: lists,
buffers, counters and handles that the program changes step by step are classes, arrays
and loops; each is proved against a specification function, and what the program is for
is proved about that function.

| part | files |
|---|---|
| Editing a message by queued deletions and insertions | `LumpTypes`, `LumpSpec`, `LumpCrossing`, `LumpCalls`, `LumpEngine` |
| Content-Length, building requests and messages | `SipBuild`, `Decimal` |
| Building replies | `ReplyBuild`, `ReplyLaws` |
| DNS cache: reference counts over all interleavings | `DnsLifetime` |
| DNS cache: table, lookup, eviction, circular lists | `CaseHash`, `DnsBasics`, `DnsTable`, `DnsState`, `DnsAnswers`, `Clist`, `DnsLists`, `DnsCache`, `DnsRace` |
| DNS cache: record packing | `RecordPack` |
| DNS failover over SRV, A and AAAA records | `DnsFailover`, `DnsChoices` |
| MD5 streaming | `Md5` |
| The routing-script interpreter | `Script`, `ScriptLaws`, `Interpreter` |
| Regular expression substitution | `SubstParser`, `Subst`, `SubstLaws` |
| Addresses, networks, checksums | `IpAddress`, `IpText`, `Ip6Text`, `Cidr`, `Crc`, `ReverseHex` |
| Shared | `Options`, `SeqFacts`, `Buffers`, `SipText` |

`dafny verify dfyconfig.toml` checks everything.

## What the proofs found

Each of these is a fact about the code as it is; the model keeps the code and the lemma
named says exactly when the code does what it promises.

- A header deletion that crosses into the body makes the writing pass ignore body lumps that
  the length pass has counted. The message is right if and only if nothing is lost this way
  (`LumpCrossing.BuiltMeaningIff`; `LumpCalls.BuiltAfterRunIff` in terms of the calls that
  were made), the length is off by exactly the ignored lumps (`LumpCrossing.BuiltLength`).
  Text can be announced and never written (`CrossingDeletionLosesText`); a body deletion
  inside the header deletion errs the other way, and more is written than was allocated,
  though the message is right (`CrossingDeletionOverflows`). The writing stays inside its
  buffer if and only if the ignored lumps would not, together, have shortened the message
  (`LumpCrossing.WritesFitIff`); that is what the building methods require.
- The comments of the insert-before calls say the text goes immediately before the lump. The
  code puts each new text in front of the earlier ones, farthest from the lump; the model
  follows the code (`LumpEngine.LumpList.InsertBefore`).
- Content-Length need not count the body: `SipBuild.ContentLengthCountsBody` gives the exact
  difference for any edits. Where header edits stay in front of the body and body edits in
  it, the difference is a free text that leads the body list, which is written before the
  body begins (`SipBuild.OvercountIsLeadingText`; `SipBuild.LeadingTextMiscounts` is the
  smallest case). Only `append_new_lump` and `insert_new_lump` put such a text there, and
  nothing in the tree calls them: the case is reachable through the interface alone.
- The block loop of MD5Update compares `i + 63` in 32 bits. It is right if and only if
  buffered and new bytes together stay below 2^32 (`Md5.GuardNeverWrapsIff`;
  `Md5.GuardWraps` is the smallest case).
- A `return` inside an action block of a condition leaves its flag set while the rest of the
  condition is evaluated, so a later block stops after its first action. For every script
  the interpreter does what the structured meaning says if and only if no list is cut short
  in this way (`Script.ScriptExact`). Scripts in which no block that could tell follows one
  that may return are safe (`Script.SafeNotCut`); for a block of calls behind any other
  block the condition is in terms of what is called (`Script.LeakyIff`), and
  `Script.SmallestLeak` is a case.
- The copying loop for NAPTR records does not go on to the place of the next record: of
  several records only the last one is in the entry (`RecordPack.AllKeptIff`).
- `dns_entry_get_rr` does not advance its record number over marked records. Records come
  exactly once if and only if no unmarked record follows a marked one
  (`DnsFailover.EachOnceIff`, `DnsFailover.MarkedRepeats`).
- When SRV records exist but none of their targets has an address, `dns_sip_resolve` goes on
  with the addresses of the name itself, at the port of the last SRV record tried
  (`DnsFailover.SrvAnswers` says so, `SrvHandle.ResolveAll` proves it).
- Times to live are turned into ticks in 32 bits, and the default maximum is 2^32 - 1
  seconds. An entry lives as long as its longest-lived record if and only if that is at most
  half a turn of the counter, 2^27 seconds (`RecordPack.EntryLivesIff`);
  `RecordPack.LongLifeExpiresAtOnce` is an entry that is expired when it is made.
- `dns_cache_add` counts its entry and looks at the memory in use without the lock. The
  counts are exact all the same (`DnsLifetime.CountsAreExact`), but what it links is not
  checked again: `dns_cache_add_unsafe`, which is, stays below the maximum itself, and
  others can pass it meanwhile (`DnsCache.Cache.Add`, `DnsCache.Cache.AddLate`). In every
  interleaving of n processes the memory in use stays below the maximum and n - 1 entries of
  the largest size, and reaches that bound (`DnsRace.EveryRunBounded`,
  `DnsRace.BoundReached`).
- The loop of a substitution with flag `g` ends if and only if no match, other than the
  first, ends where its search began (`Subst.LoopEndsIff`); the empty expression never ends
  (`Subst.EmptyMatchNeverEnds`).
- A reply uses the tag of the first To header for every To header. It is written, and as
  long as counted, if and only if no new tag is given, or the first To header has no tag, or
  it has one that is not empty and is the only To header (`ReplyBuild.PassesAgreeIff`). A
  second To header makes a copy of negative length (`ReplyBuild.SecondToUnwritable`); an
  empty tag whose pointer is set makes the length five too long
  (`ReplyBuild.EmptyTagMiscounts`).
- `str2ip6` refuses `::` next to seven groups, which section 2.2 of RFC 4291 allows
  (`Ip6Text.GapExpands`), and accepts a single colon at the beginning or the end
  (`Ip6Text.EightFields`).
- The comments on `expired_only` of `dns_cache_clean` and `dns_cache_free_mem` have it the
  wrong way round; the model follows the code: a non-zero value spares unexpired entries.

## What is assumed

- Memory allocation succeeds, and the parser's fields of a message are given and fixed:
  headers stand in the message in order, each with its line end, and a tag stands in its
  header behind the name.
- Offsets and lengths of messages are unbounded naturals: no message is so long that an
  offset plus a length leaves 32 bits. Counters the code cuts on purpose (Content-Length,
  MD5, record numbers, ticks, address digits) are cut in the model.
- A char is signed, as where the default build runs.
- The build is that of the default makefile definitions: no SigComp, TCP, TLS and IPv6 on,
  the list of last used DNS entries on.
- Conditions of lumps have the same value in both passes. `COND_IF_RAND` is one coin per
  message here; the code draws again in each pass.
- The memory counter of the DNS cache starts at 0; it is not set after its allocation. The
  tick counter wraps, and a difference is read as signed.
- An entry has at most 255 DNS records, and what a name resolves to does not change while
  one handle is used up.
- In the lifetime model, taking and giving the lock, and adding to or subtracting from a
  count, are atomic steps.
- The Content-Length a message comes with counts its body; what build_all leaves as it is then
  counts it too.
- The compression function of MD5, the regular expression matcher and compiler, the name
  server, module functions and the builders of single headers are parameters.

## Model

| member | source | states |
|---|---|---|
| LumpTypes.SubstLenIsTextLength | ser_ims/trunk/msg_translator.c:569-720 | For every substitution kind and every address, port and protocol, the length the first pass adds is the length of the text the second pass writes. |
| LumpTypes.PieceInserted | ser_ims/trunk/data_lump.c:110-260 | A piece put anywhere into a before or after chain is written once, at its place; only a condition in front of it, or that it is itself, cuts text off. |
| LumpTypes.SameSocketNoDifference | ser_ims/trunk/msg_translator.c:459-501 | Without a socket to send from every comparison of sockets reads as different; a message that goes out by the socket it came in by differs in nothing. |
| LumpTypes.RealmsDifferIff | ser_ims/trunk/msg_translator.c:480-490 | The realms differ if and only if address, port or protocol do; a difference of the family is one of the address. |
| LumpTypes.OneDifference | ser_ims/trunk/msg_translator.c:480-510 | Two sockets that differ in one part satisfy exactly the condition of that part, and that on the realms. |
| LumpTypes.OwnPartOnly | ser_ims/trunk/msg_translator.c:491-510 | The conditions on port, protocol, address and family look at their own part of the two sockets and at nothing else. |
| LumpTypes.UnboundAsReceived | ser_ims/trunk/msg_translator.c:465-473 | Without a socket it came in by, a message is compared by the address, port and protocol it was received with. |
| LumpTypes.ConstantConditions | ser_ims/trunk/msg_translator.c:475-479 | The constant conditions hold always and never, and the random one as the coin falls. |
| LumpTypes.BehindRealms | ser_ims/trunk/msg_translator.c:480-490 | A chain goes on behind a condition on the realms if and only if the two sockets differ in address, port or protocol. |
| LumpTypes.SidesApart | ser_ims/trunk/msg_translator.c:569-720 | The kinds of the receiving side depend on the socket a message came in by alone, those of the sending side on the other one and the global address and port. |
| LumpTypes.SidesAlike | ser_ims/trunk/msg_translator.c:569-720 | Both sides read alike when they are the same socket, shown by its own address. |
| LumpTypes.AllIsItsParts | ser_ims/trunk/msg_translator.c:901-1134 | The kind for everything is the address, the port unless it is 5060, and the transport unless it is the default. |
| LumpTypes.PartsOfSide | ser_ims/trunk/msg_translator.c:901-1134 | Brackets go around an IPv6 address of the socket, not around a global address; each protocol has its name. |
| LumpTypes.AroundLump | ser_ims/trunk/msg_translator.c:1156-1309 | A lump is written between the text before it and the text after it; a condition in its place that does not hold takes both away. |
| LumpSpec.FixDisjoint | ser_ims/trunk/msg_translator.c:776-795 | The in-place overlap fix leaves the ranges sorted, disjoint and inside the message, for every list. |
| LumpSpec.FixIdempotent | ser_ims/trunk/msg_translator.c:776-795 | A second length pass over a fixed list changes nothing. |
| LumpSpec.FixKeepsDeletedUnion | ser_ims/trunk/msg_translator.c:776-795 | The union of the fixed ranges is the union of the requested ones, character by character. |
| LumpSpec.RenderedMeaning | ser_ims/trunk/msg_translator.c:833-1312 | Length pass, writing pass and final copy give the reference meaning of a sorted list: original minus deletions plus insertions. |
| LumpSpec.MeaningKeepsAndAdds | ser_ims/trunk/msg_translator.c:1156-1309 | The meaning keeps exactly the characters outside all deleted ranges, in order and once each, and adds exactly the enabled texts, once each. |
| LumpSpec.SurvivorsExactly | ser_ims/trunk/msg_translator.c:1156-1309 | A character survives if and only if no requested range covers it. |
| LumpSpec.WrittenLength | ser_ims/trunk/msg_translator.c:520-826 | For every list and start: bytes written are the rest of the message plus the announced delta, less what the writing pass ignores. |
| LumpCrossing.BuiltMeaningIff | ser_ims/trunk/msg_translator.c:2310-2353 | The built message means what both lists ask for if and only if no body lump with text or a surviving range lies behind the end of the header edits. |
| LumpCrossing.BuiltLength | ser_ims/trunk/msg_translator.c:2310-2353 | Exact account of the two passes over both lists: written equals announced less the net length of ignored body lumps. |
| LumpCrossing.NothingLostNothingUncounted | ser_ims/trunk/msg_translator.c:1236-1242 | When nothing is lost, the uncounted length is never positive, and zero unless an ignored lump deletes. |
| LumpCrossing.CrossingDeletionLosesText | ser_ims/trunk/msg_translator.c:1236-1242 | A concrete header deletion that crosses into the body: text is announced and never written. |
| LumpCrossing.WritesFitIff | ser_ims/trunk/msg_translator.c:2310-2353 | The writing stays inside the buffer that the measuring had allocated if and only if the ignored body lumps would not, together, have shortened the message. |
| LumpCrossing.CrossingDeletionOverflows | ser_ims/trunk/msg_translator.c:1236-1242 | A concrete body deletion inside a header deletion: nothing is lost, one character is announced and two are written. |
| LumpCalls.EveryRun | ser_ims/trunk/data_lump.c:59-369 | After any sequence of del, anchor and insert calls both lists are sorted and in range, cover exactly the ranges asked for, and hold every inserted piece once. |
| LumpCalls.BuiltAfterRunIff | ser_ims/trunk/msg_translator.c:2299-2354 | Whatever was called, in whatever order, measuring included: the message built keeps exactly the characters no call asked to delete, in order and once each, and adds exactly the enabled texts, if and only if nothing is lost behind the header edits. |
| LumpCalls.HeaderStaysNothingLost | ser_ims/trunk/data_lump.c:265-369 | If deletions queued on the header stay in the header, nothing is lost and nothing is left uncounted. |
| LumpEngine.ChainLen | ser_ims/trunk/msg_translator.c:744-763 | The before and after loops of the length pass count exactly the text of the chain, which a false condition cuts off. |
| LumpEngine.MeasureLump | ser_ims/trunk/msg_translator.c:740-822 | One round of the length pass: the net length of the lump, its fixed range and the next source offset. |
| LumpEngine.CopySubst | ser_ims/trunk/msg_translator.c:901-1134 | The substitution cases of the writing pass write exactly the text of the kind. |
| LumpEngine.CopyChain | ser_ims/trunk/msg_translator.c:1168-1190 | The before and after loops of the writing pass write exactly the text of the chain. |
| LumpEngine.ProcessLump | ser_ims/trunk/msg_translator.c:1156-1309 | One round of the writing pass: kept characters, then the texts of the lump, at the running offsets. |
| LumpEngine.ProcessLumps | ser_ims/trunk/msg_translator.c:833-1312 | The writing pass writes the rendering of the list and leaves the source offset at its end. |
| LumpEngine.LumpList.InsertOrdered | ser_ims/trunk/data_lump.c:303-311 | The sorted insertion of del_lump and anchor_lump: at the place that keeps the list sorted, everything else unchanged. |
| LumpEngine.LumpList.AppendNew | ser_ims/trunk/data_lump.c:59-80 | append_new_lump: whatever the list is written from, the new text comes behind all it writes, and nothing else changes. |
| LumpEngine.LumpList.InsertNew | ser_ims/trunk/data_lump.c:86-104 | insert_new_lump: whatever the list is written from, the new text comes in front of all it writes, and nothing else changes. |
| LumpEngine.LumpList.InsertAfter | ser_ims/trunk/data_lump.c:110-130 | insert_*_lump_after: the text written behind the lump has the piece at its place, subject to the conditions of the chain; what is written before the lump and for itself stays. |
| LumpEngine.LumpList.InsertBefore | ser_ims/trunk/data_lump.c:135-155 | insert_*_lump_before: the text written before the lump has the piece at its place, at depth 0 in front of what was inserted earlier; the rest stays. |
| LumpEngine.LumpList.LumpsLen | ser_ims/trunk/msg_translator.c:520-826 | lumps_len rewrites the list in place to its fixed form and returns the delta of that form. |
| SipBuild.ContentLengthCountsBody | ser_ims/trunk/msg_translator.c:400-445 | For any header and body edits: body length plus delta differs from the number of characters written from where the body begins by exactly Overcount: early body lumps, what edits in front have taken of the body, and what is ignored. |
| SipBuild.OvercountIsLeadingText | ser_ims/trunk/msg_translator.c:400-445 | Where header edits end in front of the body and body edits begin in it, that difference is the free text that leads the body list. |
| SipBuild.LeadingTextMiscounts | ser_ims/trunk/msg_translator.c:400-445 | A free text at the head of the body list: four characters are announced, three follow the header. |
| SipBuild.ClenTextReadsBack | ser_ims/trunk/msg_translator.c:400-445 | The Content-Length text spells a decimal number that reads back as the number announced. |
| SipBuild.BuiltContentLength | ser_ims/trunk/msg_translator.c:1318-1412 | Whatever adjust_clen announces, for any edits: cut to 32 bits, it is the count of the characters of the body in the message built, and Overcount. |
| SipBuild.UnsignedIsCongruent | ser_ims/trunk/msg_translator.c:408-420 | The announced number is cut to 32 bits: it differs from the true count by whole multiples. |
| SipBuild.AnnouncedAndWritten | ser_ims/trunk/msg_translator.c:1573-1617 | For two measured lists written from any offset: written is announced less the net length of what is ignored. |
| SipBuild.FencedIsExact | ser_ims/trunk/msg_translator.c:2310-2353 | Where header edits end in front of the body edits, the bytes announced are the bytes written. |
| SipBuild.SipMsg.DelLump | ser_ims/trunk/data_lump.c:265-312 | del_lump: aborts exactly on ranges outside the message, chooses the list by the end of the header, inserts sorted; an empty range is accepted. |
| SipBuild.SipMsg.AnchorLump | ser_ims/trunk/data_lump.c:321-369 | anchor_lump: refuses exactly anchors outside the message, chooses the list, inserts sorted. |
| SipBuild.NeededWhen | ser_ims/trunk/msg_translator.c:1335-1395 | No edit is needed if and only if the body keeps its length and the header is there, or, without a header, over neither TCP nor TLS where the body keeps its length or the protocol is UDP. |
| SipBuild.SipMsg.AnchorClen | ser_ims/trunk/msg_translator.c:1318-1395 | The same of the method: where it queues nothing, and else that it deletes the number or anchors a new header. |
| SipBuild.SipMsg.AdjustClen | ser_ims/trunk/msg_translator.c:1318-1412 | The three outcomes and the exact edits each leaves queued: untouched only if the body keeps its length, or there is no header over UDP; a number takes the place of the old one, all of which is deleted, or is a header of its own. |
| SipBuild.SipMsg.BuildLumps | ser_ims/trunk/msg_translator.c:2310-2353 | Exactly where the ignored lumps leave room for it (WritesFitIff): both lists are measured and written without leaving the buffer; the message is the joint output, closed by a zero, and its length is returned. |
| SipBuild.SipMsg.BuildAll | ser_ims/trunk/msg_translator.c:2299-2354 | build_all under the same condition on the adjusted lists: adjusted, measured and written; a Content-Length the built message carries, rewritten or as it came, counts the body up to Overcount. |
| SipBuild.HeaderDeletionGone | ser_ims/trunk/msg_translator.c:2310-2353 | What a sorted header list deletes, such as the old number, is not in the built message, whatever the body list is. |
| SipBuild.SipMsg.BuildRequest | ser_ims/trunk/msg_translator.c:1573-1617 | The tail of build_req_buf_from_sip_req, with or without a new URI, under the same condition; the length returned is the one announced. |
| Decimal.DigitsReadBack | ser_ims/trunk/ut.h:250-267 | Decimal digits read back as the number. |
| Decimal.Int2Str | ser_ims/trunk/ut.h:250-267 | int2str fills its buffer from the back with the decimal digits of a 32-bit number, never past its front. |
| Md5.PadLenFits | ser_ims/trunk/md5.c:180-187 | The padding is 1 to 64 bytes, leads to 56 modulo 64, and with the length field to whole blocks. |
| Md5.PaddedIsWholeBlocks | ser_ims/trunk/md5.c:170-195 | The padded message of sections 3.1 and 3.2 of RFC 1321 is whole blocks and begins with the message. |
| Md5.PadIsRfc | ser_ims/trunk/md5.c:170-195 | Sections 3.1 and 3.2 of RFC 1321: behind the message 0x80, then zeros, and in the last eight bytes, the low-order one first, the length in bits modulo 2^64. |
| Md5.InitBytes | ser_ims/trunk/md5.c:115-120 | Section 3.3: the bytes of the four words the chaining starts at. |
| Md5.FoldSteps | ser_ims/trunk/md5.c:148-155 | Section 3.4: the folding is one state after the other, block by block. |
| Md5.DigestIsRfc | ser_ims/trunk/md5.c:189-190 | Section 3.5: the digest is the four words of the last state, each low-order byte first. |
| Md5.WordsReadBack | ser_ims/trunk/md5.c:292-320 | Decode undoes Encode on every sequence of words. |
| Md5.PadInjective | ser_ims/trunk/md5.c:170-195 | Messages below 2^61 bytes are told apart by their padded forms. |
| Md5.GuardNeverWrapsIff | ser_ims/trunk/md5.c:153-154 | The 32-bit guard of the block loop agrees with the unbounded one if and only if buffered plus new bytes stay below 2^32. |
| Md5.GuardWraps | ser_ims/trunk/md5.c:153-154 | One byte buffered and 2^32 - 1 new ones: at the last byte the guard holds and a block is taken from behind the input. |
| Md5.CountAdds | ser_ims/trunk/md5.c:135-142 | The two-word counter stays 8 times the byte total modulo 2^64, carry and shifted-out bits included. |
| Md5.FoldConcat | ser_ims/trunk/md5.c:148-155 | Folding the compression function over two block sequences is folding over their concatenation. |
| Md5.Encode | ser_ims/trunk/md5.c:292-305 | Encode writes the words low byte first. |
| Md5.Decode | ser_ims/trunk/md5.c:310-320 | Decode reads the words low byte first. |
| Md5.Context.AddCount | ser_ims/trunk/md5.c:135-142 | The counter update of MD5Update. |
| Md5.Context.Update | ser_ims/trunk/md5.c:127-165 | MD5Update: buffer, counter and state stand for the message so far followed by the chunk. |
| Md5.Context.Final | ser_ims/trunk/md5.c:170-195 | MD5Final: the digest of the message so far, and a context that is zeroed. |
| Md5.DigestOfChunks | ser_ims/trunk/md5.c:127-195 | For every way of splitting a message into chunks the digest is that of the joined message. |
| Script.RunExact | ser_ims/trunk/action.c:887-946 | For every list, configuration, level and state, flags pending or not: the interpreter performs the actions of the structured meaning if and only if no list is cut short by a stale return flag, and then the outcome, the effects and the last return code are the same. |
| Script.ScriptExact | ser_ims/trunk/action.c:887-946 | The same for whole scripts: performed alike if and only if nothing is cut short, and then same result, same effects, same last return code. |
| Script.SafeNotCut | ser_ims/trunk/route.c:1149-1183 | A safe script is cut short nowhere, whatever the functions called answer: behind a block that may return, only a block that cannot tell may stand: an empty one, a single action, or one that begins with drop, or with an if or a route whose own first block cannot tell. |
| Script.ScriptRefines | ser_ims/trunk/action.c:887-946 | So every safe script has its structured meaning. |
| Script.RunDoesNotReturn | ser_ims/trunk/action.c:124-130 | A list with no reachable return never ends by return. |
| Script.RunSeqConcat | ser_ims/trunk/action.c:915-931 | A list stops at the first action that returns or exits, and nothing behind it runs. |
| Script.LeakIff | ser_ims/trunk/action.c:919-927 | A condition that joins any safe block, by and or by or, to a block that begins with a call: meaning kept if and only if no return of the first is pending at the second, or the call ends the script, or nothing follows it, or what follows would have changed nothing. |
| Script.LeakyIff | ser_ims/trunk/route.c:1049-1053 | With calls only in the second block: meaning kept if and only if no return is pending, or there is at most one call, or the first call answers 0. |
| Script.SmallestLeak | ser_ims/trunk/action.c:919-927 | A block that returns 1, joined by and to a block that calls f and g, with f answering 1: g is never called. |
| ScriptLaws.OneOrder | ser_ims/trunk/route.c:586-597 | Exactly one of less, equal and greater holds, and the other comparisons are made of them. |
| ScriptLaws.OrderOfNumbers | ser_ims/trunk/route.c:586-597 | Equal is the same number, less is to the left of it, and an unknown operator is an error. |
| ScriptLaws.IfTakes | ser_ims/trunk/action.c:649-678 | What stands in an if runs if the condition is true, what stands in its else if it is false. |
| ScriptLaws.IfNot | ser_ims/trunk/route.c:1169-1173 | Turning a condition round swaps the two. |
| ScriptLaws.NumbersAreTruths | ser_ims/trunk/route.c:1045-1047 | A number in a condition is false if it is 0 and else true. |
| ScriptLaws.ListAsCondition | ser_ims/trunk/route.c:1049-1053 | An action list in a condition is true if it returns a positive number. |
| ScriptLaws.Deciding | ser_ims/trunk/route.c:1157-1168 | The second part of a condition counts, and is looked at, only if the first has not decided. |
| ScriptLaws.DeMorgan | ser_ims/trunk/route.c:1149-1183 | Not, and, or obey De Morgan, effects included. |
| ScriptLaws.RouteReturns | ser_ims/trunk/action.c:425-439 | A route that returns a number goes on behind the call, with that number as the last return code. |
| ScriptLaws.ReturnsLast | ser_ims/trunk/action.c:124-130 | A return or an exit without a number gives the last return code. |
| ScriptLaws.ExitEnds | ser_ims/trunk/action.c:915-931 | An exit ends the script whatever stands behind it, at every level, with its number. |
| ScriptLaws.CallOnce | ser_ims/trunk/action.c:679-690 | A function is called once, where it stands; the script goes on behind it unless it answers 0. |
| ScriptLaws.FailuresGoOn | ser_ims/trunk/action.c:887-902 | Calling a block that does not exist, or nesting too deep, is an error that does not end the script. |
| ScriptLaws.WholeScript | ser_ims/trunk/action.c:903-946 | A script begins with the last return code 0, and the handlers for the end run exactly if its result is 0. |
| Interpreter.Runner.RunNested | ser_ims/trunk/action.c:887-902 | A nested run_actions: recursion limit, empty list, level restored unless control jumps out. |
| Interpreter.Runner.RunLoop | ser_ims/trunk/action.c:903-946 | The action loop: stops on the return flag or by jump, and otherwise after the last action. |
| Interpreter.Runner.DoAction | ser_ims/trunk/action.c:425-690 | drop/return/exit, route, if and module call: result, flags, last return code and effects. |
| Interpreter.Runner.EvalExpr | ser_ims/trunk/route.c:1149-1183 | and, or, not and elements, with action blocks run in place. |
| Interpreter.Runner.RunActions | ser_ims/trunk/action.c:887-946 | The outermost run: terminates, leaves the level at 0, and computes the meaning of every safe script. |
| DnsLifetime.StepKeepsInv | ser_ims/trunk/dns_cache.c:158-164 | Every enabled step of any process keeps the counting invariant. |
| DnsLifetime.RunKeepsInv | ser_ims/trunk/dns_cache.c:596-677 | The invariant holds in every state of every interleaving, those included in which dns_cache_add counts before it has the lock. |
| DnsLifetime.CountsAreExact | ser_ims/trunk/dns_cache.c:350-370 | In every reachable state the count of a live entry is one if it is linked plus the references outstanding; a freed entry is neither linked nor held. |
| DnsLifetime.NoUseAfterFree | ser_ims/trunk/dns_cache.c:596-608 | No step of any run touches an entry that was freed. |
| DnsLifetime.FreedOnlyWhenUnreferenced | ser_ims/trunk/dns_cache.c:158-164 | An entry is freed only when the table has let go of it and no process holds it. |
| DnsLifetime.FreedAtMostOnce | ser_ims/trunk/dns_cache.c:158-164 | No run frees an entry twice; it was freed once exactly if it is dead. |
| DnsLifetime.QuietMeansNoLeak | ser_ims/trunk/dns_cache.h:159-195 | When every process has put what it held, the live entries are exactly those linked, counted once; all others were freed once. |
| DnsLifetime.OfferCanLink | ser_ims/trunk/dns_cache.c:630-641 | A process that has counted its entry without the lock can take the lock as soon as it is free, and link the entry. |
| DnsLifetime.NoDeadEnds | ser_ims/trunk/dns_cache.c:596-677 | From every state of every interleaving all processes can finish what they have begun, put what they hold and give back the lock. |
| CaseHash.HashIgnoresCase | ser_ims/trunk/hashes.h:58-71 | Names equal up to ASCII case have the same hash. |
| CaseHash.FoldsIff | ser_ims/trunk/dns_cache.c:404-405 | Two names are the same, as strncasecmp compares, if and only if each byte is, or is the same letter in the other case. |
| CaseHash.DnsHashNo | ser_ims/trunk/dns_cache.c:306-307 | The bucket of a name is the specified hash, below the size of the table. |
| CaseHash.HashCaseRaw | ser_ims/trunk/hashes.h:197-207 | The two loops and the final mixing compute the hash function, for every word operations. |
| Clist.PathSplit | ser_ims/trunk/clist.h:39-121 | A path through a link is a path to it and a path from it, forth and back. |
| Clist.Ring.InsertSublist | ser_ims/trunk/clist.h:54-60 | Inserting a chain behind the head relinks four pointers and leaves a well-formed circle: chain, then the old links. |
| Clist.Ring.AppendSublist | ser_ims/trunk/clist.h:70-76 | Appending a chain: the old links, then the chain. |
| Clist.Ring.RmSublist | ser_ims/trunk/clist.h:87-91 | Removing a chain anywhere leaves the rest a well-formed circle in order, and the chain linked to itself. |
| Clist.Ring.Rm | ser_ims/trunk/clist.h:108-109 | clist_rm: the link is gone, the others keep their order, and what came behind it has its place. |
| Clist.Ring.NextAt | ser_ims/trunk/clist.h:119-121 | Stepping along the circle goes from place to place and from the last back to the head. |
| DnsTable.SerHashIsGood | ser_ims/trunk/dns_cache.c:306-307 | The hash of the source meets what the table needs of a hash. |
| DnsBasics.ExpiredIsSignedDifference | ser_ims/trunk/dns_cache.c:403-404 | The expiry test is the sign of the wrapping 32-bit difference. |
| DnsBasics.LivesItsLifeIff | ser_ims/trunk/dns_cache.c:403-404 | Something stays unexpired for all of its life if and only if that is at most half a turn of the tick counter. |
| DnsTable.BucketSearch | ser_ims/trunk/dns_cache.c:396-402 | Searching the bucket of a name finds what searching every entry finds. |
| DnsAnswers.FirstMatchIsFirst | ser_ims/trunk/dns_cache.c:403-410 | The match found is the first entry that is unexpired, for the name, case ignored, and of the type or a CNAME; none is found only if there is none. |
| DnsAnswers.LookupServesIff | ser_ims/trunk/dns_cache.c:382-452 | An answer is that of the lookup if and only if each entry used is the first unexpired one for the name that led to it, case ignored, all but the last CNAMEs, and the chain ends as the answer says: hit, nothing for the last CNAME, nothing at all, or a twelfth CNAME. |
| DnsAnswers.MissIff | ser_ims/trunk/dns_cache.c:382-452 | There is no answer if and only if every entry has expired, is of neither the type nor a CNAME, or is for another name. |
| DnsAnswers.LookupFolds | ser_ims/trunk/dns_cache.c:404-405 | Names that differ in the case of letters only have the same answer. |
| DnsAnswers.LookedUpUnseen | ser_ims/trunk/dns_cache.c:403-430 | A lookup changes the answer for no name at that time. |
| DnsAnswers.EvictedUnseen | ser_ims/trunk/dns_cache.c:529-585 | Nor does a freeing of memory that spares unexpired entries. |
| DnsAnswers.CleanedUnseen | ser_ims/trunk/dns_cache.c:461-520 | Nor does a cleaning that spares them. |
| DnsTable.LookupMeaning | ser_ims/trunk/dns_cache.c:382-452 | A lookup follows the linked CNAMEs from the name: hit at the wanted type, last CNAME when the chain ends nowhere, error exactly at the twelfth CNAME. |
| DnsTable.GoneIsInvisible | ser_ims/trunk/dns_cache.c:403-404 | Removing any number of expired entries changes no search. |
| DnsTable.TouchedOrder | ser_ims/trunk/dns_cache.c:412-430 | After any touches: untouched entries in their old order, then the touched ones by last use. |
| DnsTable.EvictionMeaning | ser_ims/trunk/dns_cache.c:529-585 | Eviction takes entries, expired ones only if told so, each while memory in use was above the target, and stops only at the target or when none is left that it may take. |
| DnsTable.EvictedInOrder | ser_ims/trunk/dns_cache.c:529-585 | Evicted entries stand in the order of the list of last used. |
| DnsTable.CleanedExactly | ser_ims/trunk/dns_cache.c:461-520 | A cleaning takes out exactly the entries among the first it looks at that have expired, or all of these if it is not told to spare any. |
| DnsLists.Threads.UnlinkBucket | ser_ims/trunk/dns_cache.c:350-352 | clist_rm on the bucket: all circles stay well formed and apart, one entry leaves one bucket, a walk goes on behind it. |
| DnsLists.Threads.UnlinkLru | ser_ims/trunk/dns_cache.c:360 | clist_rm on the list of last used, with the same promise; the buckets keep their links. |
| DnsLists.Threads.AppendBucket | ser_ims/trunk/dns_cache.c:637 | clist_append to a bucket. |
| DnsLists.Threads.AppendLru | ser_ims/trunk/dns_cache.c:639 | clist_append to the list of last used. |
| DnsCache.Cache.constructor | ser_ims/trunk/dns_cache.c:240-268 | An empty table: every bucket and the list of last used are circles of a head alone. |
| DnsCache.Cache.OnBothCircles | ser_ims/trunk/dns_cache.c:350-450 | In every reachable table the buckets and the list of last used are well-formed circles over the same entries: each has exactly one link on a bucket, that of its name, and one on the list, and there is no other link. |
| DnsState.HoldingWithout | ser_ims/trunk/dns_cache.c:350-370 | Taking one entry out of table, buckets, list of last used and counters keeps them in step. |
| DnsState.FreedUnlessHeld | ser_ims/trunk/dns_cache.c:158-164 | Of the entries a walk takes out, those only the table counts are freed; one that is held stays in memory with one reference less; all others keep their count. |
| DnsState.HoldAndPut | ser_ims/trunk/dns_cache.c:158-164 | Taking a reference and putting it again leaves all counts as they were. |
| DnsCache.Cache.Remove | ser_ims/trunk/dns_cache.c:350-370 | _dns_hash_remove relinks both circles of the entry, counts down and puts the reference of the table; the table stays valid, and walks standing behind the entry go on there. |
| DnsCache.Cache.Touch | ser_ims/trunk/dns_cache.c:412-430 | A used entry is unlinked from the list of last used and appended to it. |
| DnsCache.Cache.Scan | ser_ims/trunk/dns_cache.c:402-444 | The pointer walk over a bucket, with the next link saved, returns the first match of the whole table and removes exactly the expired entries met before it. |
| DnsCache.Cache.Find | ser_ims/trunk/dns_cache.c:382-452 | _dns_hash_find gives the answer of the entries for the name in whatever case it is written (LookupServesIff); expired entries go, what it used is last in the list of last used, and the answer for no name changes. |
| DnsCache.Cache.Get | ser_ims/trunk/dns_cache.c:596-608 | dns_hash_get: the same answer, and one reference more on the entry that is given out. |
| DnsCache.Cache.Put | ser_ims/trunk/dns_cache.c:158-164 | dns_hash_put: one reference less, and the entry is freed with the last one; the table stays as it is. |
| DnsCache.Cache.FreeMem | ser_ims/trunk/dns_cache.c:529-585 | The pointer walk over the list of last used, which unlinks from two circles, evicts exactly the specified entries and returns their number; the counter drops by their size; told to spare unexpired entries it changes no answer. |
| DnsCache.Cache.Clean | ser_ims/trunk/dns_cache.c:461-520 | The same walk for a number of entries removes exactly the specified ones, and told to spare unexpired entries changes no answer. |
| DnsCache.Cache.Link | ser_ims/trunk/dns_cache.c:634-641 | The locked part of adding: new links at the end of the bucket and of the list of last used, counted. |
| DnsCache.Cache.Add | ser_ims/trunk/dns_cache.c:649-677 | dns_cache_add_unsafe, which gives up the lock around the freeing: whatever other processes do meanwhile, it adds only if less than the maximum is then in use; only what dns_cache_add of others links meanwhile can pass the maximum, by no more than its size; the exact new table when nobody acts. |
| DnsState.RoomMeaning | ser_ims/trunk/dns_cache.c:655-664 | The room made when nobody acts: nothing goes for an entry that fits; else expired entries go, each while more than fourteen sixteenths of what was used are in use. |
| DnsCache.Cache.AddLate | ser_ims/trunk/dns_cache.c:615-642 | dns_cache_add, whose look is made without the lock: behind its link the memory in use is below the maximum and the sizes of its own entry and of what others link between look and lock; below the maximum itself when nobody acts there. |
| DnsRace.EveryRunBounded | ser_ims/trunk/dns_cache.c:615-642 | dns_cache_add looks without the lock: in every interleaving of n processes the memory in use stays below the maximum and n - 1 entries of the largest size. |
| DnsRace.BoundReached | ser_ims/trunk/dns_cache.c:615-642 | And n processes that look at the same moment reach that bound. |
| DnsFailover.GetRr | ser_ims/trunk/dns_cache.c:1593-1614 | dns_entry_get_rr returns the first unmarked record at or behind the given number, and leaves the number where the search began. |
| DnsChoices.Only4 | ser_ims/trunk/dns_cache.c:2046-2057 | Under DNS_IPV4_ONLY zones with the same IPv4 addresses, A entries and SRV entries give the same answers for a name that is no address. |
| DnsChoices.Only6 | ser_ims/trunk/dns_cache.c:2046-2057 | Under DNS_IPV6_ONLY zones with the same IPv6 addresses, AAAA entries and SRV entries do. |
| DnsChoices.NoSourceIff | ser_ims/trunk/dns_cache.c:2046-2057 | A host has no source of addresses if and only if the families asked have none: both unless one alone is wanted. |
| DnsChoices.FirstFamily | ser_ims/trunk/dns_cache.c:2046-2052 | Without a word of IPv6 the records of an A entry are the addresses of a host that has one; with it those of an AAAA entry. |
| DnsChoices.SecondFamily | ser_ims/trunk/dns_cache.c:2053-2057 | The other family is taken if the first has neither an address nor an entry. |
| DnsChoices.SameAnswers | ser_ims/trunk/dns_cache.c:2152-2266 | Answers for a name that is no address depend on the addresses of hosts and on the SRV records of the protocol, and on nothing else. |
| DnsChoices.GivenPort | ser_ims/trunk/dns_cache.c:2242-2244 | With a port that is given the answers are the addresses of the name itself, each at that port. |
| DnsChoices.AddressItself | ser_ims/trunk/dns_cache.c:2188-2204 | Without one an address is its own answer, at 5060 or over TLS at 5061, unless it is of the family that is not wanted. |
| DnsChoices.AsksFor | ser_ims/trunk/dns_cache.c:2205-2240 | The SRV records asked for are those of _sip._udp, _sip._tcp or _sips._tcp in front of the name, and what their hosts have is the answer. |
| DnsChoices.WithoutSrv | ser_ims/trunk/dns_cache.c:2152-2266 | Without SRV records, or where none are asked for, the addresses of the name are the answers, at 5060 or over TLS at 5061. |
| DnsChoices.PortOfLast | ser_ims/trunk/dns_cache.c:2104-2138 | Where SRV records lead to no address the addresses of the name come at the port of the last of them. |
| DnsChoices.TooLongName | ser_ims/trunk/dns_cache.c:2256-2259 | A name of 256 characters or more has no answer. |
| DnsFailover.EachOnceIff | ser_ims/trunk/dns_cache.c:1602-1611 | Reading an entry record by record gives each unmarked record exactly once if and only if no unmarked record follows a marked one. |
| DnsFailover.MarkedRepeats | ser_ims/trunk/dns_cache.c:1602-1611 | A marked record followed by an unmarked one: the unmarked one comes twice. |
| DnsFailover.NothingAnywhere | ser_ims/trunk/dns_cache.c:2104-2138 | An SRV entry that yields no address from its start yields none from any record on. |
| DnsFailover.ExpandIsEachTarget | ser_ims/trunk/dns_cache.c:2104-2138 | With nothing marked or expired the answers are each SRV target's addresses in record order, once each, one target after the other, and no others. |
| DnsFailover.TargetsOfClean | ser_ims/trunk/dns_cache.c:2066-2094 | With nothing marked or expired the targets are the SRV records in order. |
| DnsFailover.SrvHandle.constructor | ser_ims/trunk/dns_cache.h:231-235 | A fresh handle holds nothing. |
| DnsFailover.SrvHandle.Put | ser_ims/trunk/dns_cache.h:159-171 | After put the handle holds no reference. |
| DnsFailover.SrvHandle.HandleNext | ser_ims/trunk/dns_cache.h:222-227 | Behind a call that gave the first of the pending answers the handle stands at the others, and "no" is said only when there are none. |
| DnsFailover.SrvHandle.FamilyResolve | ser_ims/trunk/dns_cache.c:1949-2028 | dns_a_resolve and dns_aaaa_resolve: literal, first record of a new entry, or next record of the one held. |
| DnsFailover.SrvHandle.IpResolve | ser_ims/trunk/dns_cache.c:2041-2059 | dns_ip_resolve: the second family is tried only when the first has no entry at all. |
| DnsFailover.SrvHandle.SrvResolve | ser_ims/trunk/dns_cache.c:2066-2094 | dns_srv_resolve: the next SRV record, or the reason there is none. |
| DnsFailover.SrvHandle.SrvResolveIp | ser_ims/trunk/dns_cache.c:2104-2138 | dns_srv_resolve_ip gives the first of the pending answers and leaves the others pending, or there are none. |
| DnsFailover.SrvHandle.SipResolve | ser_ims/trunk/dns_cache.c:2152-2266 | dns_sip_resolve gives the first answer for the name or the next one of the handle, and leaves the others pending. |
| DnsFailover.SrvHandle.ResolveAll | ser_ims/trunk/dns_cache.h:261-271 | The documented loop terminates, yields every answer exactly once in order, and leaves no references. |
| RecordPack.SizesReachEnd | ser_ims/trunk/dns_cache.c:828-929 | The size added up before allocating is exactly the end of the last record. |
| RecordPack.BlockAligned | ser_ims/trunk/dns_cache.c:943-1032 | Every record block begins at a pointer boundary behind the name; SRV data at a short boundary, NAPTR data at a pointer boundary. |
| RecordPack.BlocksApart | ser_ims/trunk/dns_cache.c:948-1032 | Record blocks are disjoint, in order, and inside the allocated block. |
| RecordPack.AllKeptIff | ser_ims/trunk/dns_cache.c:994-1021 | Every record is in the list of the entry if and only if it is not one of several NAPTR records; of those only the last one is, because the loop does not go on to the next place. |
| RecordPack.EntryOutlivesRecords | ser_ims/trunk/dns_cache.c:951-953 | With the 32-bit expiry: while a record is unexpired the entry is, if the longest life is at most half a turn of the tick counter. |
| RecordPack.EntryLivesIff | ser_ims/trunk/dns_cache.c:1043 | The entry lives as long as its longest-lived record is to live if and only if that is at most half a turn of the tick counter. |
| RecordPack.LongLifeExpiresAtOnce | ser_ims/trunk/dns_cache.c:87-88 | Times to live of 2^28 seconds and ten: the entry is expired when it is made, its second record is not. |
| RecordPack.Collect | ser_ims/trunk/dns_cache.c:822-912 | The matching records leave the list in order, the others stay in order, the sizes add up. |
| RecordPack.MatchingExactly | ser_ims/trunk/dns_cache.c:779-781 | The records taken are exactly those of the type for the name, its case ignored; the others stay. |
| RecordPack.ChosenIsFirst | ser_ims/trunk/dns_cache.c:809-818 | The type is that of the first record for the name, its case ignored, that has the wanted one or is a CNAME. |
| RecordPack.TtlInLimits | ser_ims/trunk/dns_cache.c:951-953 | A time to live is kept inside the limits, and as it is exactly if it lies in them. |
| RecordPack.HalfTurn | ser_ims/trunk/dns_cache.c:952 | Half a turn of the tick counter is 2^27 seconds. |
| RecordPack.PackRecord | ser_ims/trunk/dns_cache.c:949-1032 | One record is copied to its place without disturbing those packed before. |
| RecordPack.PackNaptr | ser_ims/trunk/dns_cache.c:994-1021 | The loop for NAPTR writes every record to the first place, inside the block, and leaves the last one; the longest time to live is that of all. |
| RecordPack.Pack | ser_ims/trunk/dns_cache.c:928-1046 | The block holds the name, closed by a zero, and the data of every record kept at its place; each record points to the next one, the last to none. |
| RecordPack.MkRdEntry | ser_ims/trunk/dns_cache.c:770-1047 | dns_cache_mk_rd_entry: the type is that of the first match; the list is partitioned stably; the packed entry reads back every record, of NAPTR records the last. |
| Subst.SplicedLength | ser_ims/trunk/re.c:272-310 | The length computed before writing is the length of the spliced text. |
| Subst.ReplaceLen | ser_ims/trunk/re.c:272-310 | replace_len: length of the replacement with every escape replaced by its meaning. |
| Subst.ReplaceBuild | ser_ims/trunk/re.c:318-385 | replace_build writes exactly that many characters, and they are the spliced replacement. |
| Subst.EscapesExpand | ser_ims/trunk/re.c:338-381 | Splicing by the recorded offsets is expanding the escapes from left to right. |
| Subst.ListIsSubstitution | ser_ims/trunk/re.c:394-460 | Whenever the loop ends: the list of matches is ordered, disjoint and in range, and splicing it in is the left-to-right substitution. |
| Subst.SubstRun | ser_ims/trunk/re.c:394-460 | subst_run, exactly where its loop ends (LoopEndsIff): the list of replacements and their number, or -1. |
| Subst.SubstStr | ser_ims/trunk/re.c:469-529 | subst_str under the same condition: nothing without a match, otherwise the substitution of the input. |
| Subst.WriteSpliced | ser_ims/trunk/re.c:505-518 | The writing loop fills the computed length exactly. |
| Subst.LoopEndsIff | ser_ims/trunk/re.c:420-451 | The loop that replaces all matches ends if and only if no match but the first ends where its search began; then within two matches more than the input is long. |
| Subst.NonEmptyNeverStuck | ser_ims/trunk/re.c:420-451 | So the loop ends for every matcher whose matches are not empty. |
| Subst.EmptyMatchNeverEnds | ser_ims/trunk/re.c:420-451 | The empty expression with flag g never ends, on any input. |
| SubstLaws.ExpandedConcat | ser_ims/trunk/re.c:318-385 | A replacement means what its parts mean, one behind the other. |
| SubstLaws.PlainExpands | ser_ims/trunk/re.c:318-385 | A replacement without a backslash is what it says. |
| SubstLaws.WhatEscapesMean | ser_ims/trunk/re.c:126-181 | The escapes stand for line ends and tabs, the URI the request goes to, the groups of the match, and any other character for itself. |
| SubstLaws.MatchByItself | ser_ims/trunk/re.c:394-460 | Replacing every match by itself changes nothing, whatever is matched. |
| SubstLaws.FirstReplaced | ser_ims/trunk/re.c:420-451 | The first match is replaced, and what is behind it only if all are to be, where the rest is no beginning of a line. |
| SubstParser.ParsesWritten | ser_ims/trunk/re.c:70-262 | Whatever is written as separator, expression, separator, replacement, separator, flags is parsed into these parts. |
| SubstLaws.FlagsMean | ser_ims/trunk/re.c:207-262 | What is written in the form is parsed exactly if all flags are known, the expression can be compiled and there are less than a hundred escapes: i ignores case, s lets a dot match line ends, g replaces all matches. |
| SubstParser.ParsedIsWritten | ser_ims/trunk/re.c:70-262 | Nothing else is accepted: every parsed text is of that form, with these parts and a valid replacement. |
| SubstParser.RefsInRange | ser_ims/trunk/re.c:171-176 | No group is referred to beyond the highest recorded. |
| SubstParser.ParseReplacement | ser_ims/trunk/re.c:122-202 | The replacement loop never leaves its array of one hundred and records exactly the escapes. |
| SubstParser.ParseFlags | ser_ims/trunk/re.c:207-222 | The flags loop accepts i, s and g only. |
| SubstParser.SubstParse | ser_ims/trunk/re.c:70-262 | subst_parser computes the specified parse. |
| ReplyBuild.ReplyLumps.Add | ser_ims/trunk/data_lump_rpl.c:46-107 | add_lump_rpl2: what it refuses, the new lump linked behind the last, and that at most one body is ever queued. |
| ReplyBuild.ReplyLumps.Unlink | ser_ims/trunk/data_lump_rpl.c:122-141 | unlink_lump_rpl finds the lump by its address and relinks its neighbours; the others stay linked in order. |
| ReplyBuild.WritableIff | ser_ims/trunk/msg_translator.c:1914-1925 | No copy around a To tag has a negative length if and only if no tag is replaced or there is a single To header. |
| ReplyBuild.CountedExactly | ser_ims/trunk/msg_translator.c:1753-1835 | There the length pass counts what is written, plus the tag token when a new tag takes the place of an empty one whose pointer is set. |
| ReplyBuild.PassesAgreeIff | ser_ims/trunk/msg_translator.c:1846-1990 | The reply is written and as long as counted if and only if no new tag is given, or the first To header has no tag, or it has one that is not empty and is the only To header. |
| ReplyBuild.SecondToUnwritable | ser_ims/trunk/msg_translator.c:1757-1762 | Two To headers, the first tagged, and a new tag: in the second one the copy up to the tag of the first has a negative length. |
| ReplyBuild.EmptyTagMiscounts | ser_ims/trunk/msg_translator.c:1757-1762 | An empty tag whose pointer is set: five characters are counted and never written. |
| ReplyBuild.MarkShowsTag | ser_ims/trunk/msg_translator.c:1914-1946 | The bookmark shows the new tag in the reply, or without one the tag the last To header has. |
| ReplyLaws.StatusLine | ser_ims/trunk/msg_translator.c:1846-1861 | A reply begins with the version, three digits that read back as the code, and the reason. |
| ReplyLaws.HeaderStands | ser_ims/trunk/msg_translator.c:1862-1960 | What is written of each header of the request stands behind what is written of those in front of it. |
| ReplyLaws.CopiedHeaders | ser_ims/trunk/msg_translator.c:1948-1960 | From, Call-ID and CSeq stand in the reply as in the request, and so does Record-Route in a reply from 180 to 299. |
| ReplyLaws.OmittedHeaders | ser_ims/trunk/msg_translator.c:1862-1960 | Nothing else of the request but Via and To is in the reply. |
| ReplyLaws.ViaIs | ser_ims/trunk/msg_translator.c:1865-1898 | The first Via has what was received and the new rport parameter in place of the old one; every other Via stands as it is. |
| ReplyLaws.ToIs | ser_ims/trunk/msg_translator.c:1905-1946 | A To header stands as it is if no tag is given; else with the new tag in place of the old one, or behind its body. |
| ReplyLaws.LumpsInOrder | ser_ims/trunk/msg_translator.c:1950-1956 | The header lumps are written in the order in which they were queued. |
| ReplyLaws.ReplyEnds | ser_ims/trunk/msg_translator.c:1957-1985 | Then come the server line, a Content-Length that reads back as the length of the body queued, the warning and, behind an empty line, that body. |
| ReplyBuild.MeasureHeaders | ser_ims/trunk/msg_translator.c:1753-1809 | The header loop of the length pass. |
| ReplyBuild.MeasureLumps | ser_ims/trunk/msg_translator.c:1811-1815 | The lump loop of the length pass, and the body it finds. |
| ReplyBuild.WriteHeader | ser_ims/trunk/msg_translator.c:1862-1960 | One header of the writing pass: Via with received and rport, To with the tag of the first To header and the bookmark, copies. |
| ReplyBuild.BuildReply | ser_ims/trunk/msg_translator.c:1711-2007 | Where no copy has a negative length, build_res_buf_from_sip_req writes the specified reply, sets the bookmark and never leaves its buffer. |
| IpText.Str2Ip | ser_ims/trunk/resolve.h:172-211 | str2ip accepts four dotted fields of digits, even empty ones, each cut to a byte. |
| IpText.PrintIp4 | ser_ims/trunk/ip_addr.h:494-533 | ip_addr2a writes the dotted text and its zero inside the buffer. |
| IpText.Ip4ReadsBack | ser_ims/trunk/ip_addr.h:494-533 | Parsing the printed form of any IPv4 address gives it back. |
| IpText.Print4Is | ser_ims/trunk/ip_addr.h:494-533 | The printed form is the four numbers in decimal, the first one first. |
| Ip6Text.Str2Ip6 | ser_ims/trunk/resolve.h:217-310 | str2ip6 computes the specified parse; every index stays in range. |
| Ip6Text.ScanText | ser_ims/trunk/resolve.h:249-270 | The scanning loop and its variables as a function of the text read. |
| Ip6Text.FinishedIsParsed | ser_ims/trunk/resolve.h:271-282 | What the variables stand for at the end: the groups before the gap, zeros, the groups after it, eight in all. |
| Ip6Text.PrintIp6 | ser_ims/trunk/ip_addr.h:436-492 | ip_addr2a writes eight groups; text and zero fit the buffer of forty. |
| Ip6Text.Ip6ReadsBack | ser_ims/trunk/ip_addr.h:436-492 | Parsing the printed form of any IPv6 address gives it back. |
| Ip6Text.Print6Is | ser_ims/trunk/ip_addr.h:436-492 | The printed form is the eight groups in their order. |
| Ip6Text.GroupIs | ser_ims/trunk/resolve.h:263-268 | A group reads with its highest digit first. |
| Ip6Text.DigitsOfHex | ser_ims/trunk/resolve.h:161-166 | The sixteen digits are read in either case, and nothing else is. |
| Ip6Text.GapExpands | ser_ims/trunk/resolve.h:245-290 | A text with `::` (section 2.2 of RFC 4291) is accepted exactly with at most seven colons, and `::` stands for the missing zero groups. |
| Ip6Text.EightFields | ser_ims/trunk/resolve.h:245-290 | Eight fields are accepted also when the first or the last is empty. |
| Crc.TabIsEight | ser_ims/trunk/crc.c:138-171 | Each of the 256 table entries is eight shifts of its index. |
| Crc.UpdcitIsEight | ser_ims/trunk/crc.c:38-40 | One table look-up is eight shifts of the register with polynomial 0x8408. |
| Crc.CrcChains | ser_ims/trunk/crc.c:208-215 | The CRC of a text continued from the CRC of another is the CRC of both together. |
| Crc.CheckValue | ser_ims/trunk/crc.c:208-220 | The CRC of the digits from 1 to 9 is 0x906E, the known answer for this polynomial. |
| Crc.CrcittStringEx | ser_ims/trunk/crc.c:208-215 | crcitt_string_ex is the bitwise CRC continued from the given one. |
| Crc.CrcittString | ser_ims/trunk/crc.c:217-220 | crcitt_string is the bitwise CRC from 0. |
| Crc.CrcTextReadsBack | ser_ims/trunk/crc.c:240-250 | The text of a CRC has four hexadecimal digits, the lowest first, and reads back as the CRC. |
| Crc.CrcittStringArray | ser_ims/trunk/crc.c:222-251 | crcitt_string_array writes the CRC of the concatenation as four digits, padded with zeros. |
| ReverseHex.HexReadsBack | ser_ims/trunk/ut.h:284-321 | What int2reverse_hex prints reads back as the number, with any number of zeros behind. |
| ReverseHex.HexFitsIff | ser_ims/trunk/ut.h:302-321 | A number has at most k digits if and only if it is below 16 to the k. |
| ReverseHex.Int2ReverseHex | ser_ims/trunk/ut.h:302-321 | int2reverse_hex writes the digits, the lowest first, or as many as there is room for, and fails exactly when a number other than 0 does not fit. |
| ReverseHex.ReverseHex2Int | ser_ims/trunk/ut.h:285-300 | reverse_hex2int accepts exactly hexadecimal digits and reads them in 32 bits. |
| Cidr.BuiltByteIsMask | ser_ims/trunk/ip_addr.c:95-96 | The last byte of the mask has exactly its first bits set. |
| Cidr.MkNet | ser_ims/trunk/ip_addr.c:46-80 | mk_net masks the address in place, and refuses another family. |
| Cidr.MkNetBitlen | ser_ims/trunk/ip_addr.c:84-102 | mk_net_bitlen builds the network of the first bits, and refuses too many. |
| Cidr.MatchNet | ser_ims/trunk/ip_addr.h:203-220 | matchnet: 1, 0, or -1 for another family. |
| Cidr.InNetIffSharesPrefix | ser_ims/trunk/ip_addr.h:203-220 | An address matches the network of the first b bits of another if and only if it shares these bits (section 3.1 of RFC 4632). |
| Cidr.MaskedNetIsFixed | ser_ims/trunk/ip_addr.c:66-69 | Building the network of already masked bits changes nothing. |

## Left out

- `COND_IF_RAND` drawn anew in each pass: the lengths then need not agree, as the source itself notes.
- Lumps of lumps: the code hangs plain pieces before and after a lump, and so does the model; deeper nesting is refused by both passes.
- LumpEngine.LumpList: the linked nodes are a sequence; sharing of nodes between duplicated lists is not captured.
- SipBuild.SipMsg.BuildLumps: where WritesFitIff fails the code writes past its buffer, and nothing is promised; on an announced length of 0 the code assigns the pointer and leaves the caller's length as it was, and the model returns 0.
- SipBuild.SipMsg.BuildAll: the same two reservations.
- SipBuild.SipMsg.BuildRequest: where WritesFitIff fails nothing is promised.
- DnsCache.Cache: `last_used` times, which nothing reads, and the debug lists.
- DnsLists.Threads.NewLinks: the links of an entry are made when it is linked, not when its memory is allocated.
- DnsLifetime: borrowed CNAME strings of an entry that was already put, which the code uses once, are outside the claim.
- RecordPack.Pack: the record structures are values beside the block; the block has room for them, and holds the name and the data. Pointers into the data of a NAPTR record are offsets, so that moving them with the data changes nothing.
- `dns_get_related`, negative entries and the resolver queries themselves: they would add oracles, not claims.
- DnsFailover.SrvHandle.SipResolve: a null port pointer writes nothing in the code; the model then still returns the port of the handle.
- Script: the structured meaning covers drop, return, exit, route, if, expressions and module calls; other actions are opaque calls.
- Subst.SubstRun: where LoopEndsIff says that the loop does not end nothing is promised; the input holds no zero character, and a match has its groups inside the text searched.
- SubstParser.SubstParse: the regular expression is compiled through a given predicate; the writing of a zero into the text around that call and its undoing are not modelled.
- IpText and Ip6Text: the numbers of an address are in host order; the parsers' static result buffers are not modelled.
- ReplyBuild.BuildReply: where WritableIff fails the code copies a negative length, and nothing is promised; the freeing of the builders' buffers is not modelled.
- ReverseHex.ReverseHex2Int: on a character that is no digit the code leaves the number read so far; the model returns none.
- NAPTR selection, blacklists, timers, sockets, forking, RPC, header and URI parsing, `select` and AVPs: no part of this model.
