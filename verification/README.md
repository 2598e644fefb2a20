# Squid 2.7 support libraries: a verified model

A Dafny model of the stateful core of Squid 2.7's support code, with proofs of what that code is for. `dafny verify dfyconfig.toml` checks everything.

- **Routing tree** (`Radix*.dfy`): the PATRICIA tree of `lib/radix.c`, with sorted duplicate-key chains and masks lifted to the highest legal ancestor. Every reachable tree answers lookups as a scan of the route table would, except for the all-ones key, where the sentinel leaf gets in the way; the exact condition is proved. The tree is a value that the table object replaces; the loops of the source run over the path from the top instead of parent pointers.
- **Allocator** (`Dl*.dfy`): `lib/dlmalloc.c` with boundary tags, segregated sorted bins, the last remainder, the block bitmap and coalescing. `Arena.Valid()` is the invariant its debug checkers describe: chunks tile the arena, tags agree with the chunks, no two free neighbours, every free chunk on exactly one list, bins sorted and marked. Memory is a map of words, so a tag written into live data would be noticed.
- **Regular expressions** (`Regex*.dfy`): the one-pass compiler of `lib/GNUregex.c` for literals, `.`, groups, `|`, `*`, `+`, `?`, and the fastmap built from its code. Byte code has a nondeterministic meaning (on_failure_jump is a choice); an independent parser and matching relation say what a pattern means. Alternatives may be empty.
- **SNMP codec** (`Snmp*.dfy`): BER building and parsing of `snmplib/asn1.c`, and messages with back-patched nested headers. Encoders write an array in place and are proved against byte sequences. Decoders are proved, on every packet and in both directions, against a relation saying how the packet reads; where a reading is tight, nothing left over, it is an independent grammar of the Basic Encoding Rules with any definite length. That grammar leaves open the tags of the version, the community and the integers of a PDU, which the source does not look at.
- **Splay tree, heap, hash table** (`Splay.dfy`, `KeyHeap.dfy`, `HashTable.dfy`): linked nodes relinked in place, an array of nodes with back-pointers, chains with a live iterator, each proved against a sequence, a multiset and a history of joins.
- **DES, MD5, DNS, byte ranges** (`Des.dfy`, `Md5.dfy`, `Dns.dfy`, `HttpRange.dfy`): decryption undoes encryption, streaming equals batch, messages round-trip and any input is unpacked safely, canonization preserves the requested bytes.

`Basics.dfy` holds what several of these share.

Where the code does less than one would expect, the model follows the code. For these the exact condition is proved:

- A lookup of the all-ones key ends at the sentinel leaf even when a shorter route covers it (`RadixTable.AllOnesMissed`).
- A deletion without a mask takes out the most specific route of the key, whatever its mask; a host route to the all-zeros or all-ones key is refused as a duplicate.
- A malloc request within 11 bytes of 2^31 or above is padded to the minimal size (`DlSteps.RequestHasRoom`).
- Under SNMP version 1 every exception value arrives as noSuchObject (`SnmpDecode.ArrivesUnchanged`).
- An object identifier comes back only if its second sub-identifier is below 40 and the byte it shares with the first is below 128 (`SnmpOid.OidReturns`).
- An SNMP packet can be accepted that spells no message, because bytes after it and lengths that disagree with what they enclose are not looked at; what is decoded is spelled exactly if the packet reads tightly (`SnmpBer.MessageTight`, with `SnmpDecode.LooseAccepted`).
- An ASN.1 integer without contents takes its sign from the byte after it.
- A host name of 255 bytes fills the name buffer before its end is seen, so the question built for it does not come back (`Dns.FullNameLost`).
- A list of several ranges can be in order beforehand and yet become complex for some length of the body, if one of them is a suffix or one before the last is open-ended (`HttpRange.NeverComplex`, with `HttpRange.TrailerFirst` and `HttpRange.SuffixLast`).

For these only a sufficient condition is proved:

- Jump distances are 16 bits, so compiled code is right below 2^15 bytes; the compiler itself accepts up to 2^16.
- When the last alternative of a pattern is empty, the fastmap search looks at the byte after the code, a parameter of the model; the map is right if that byte is not a failure-jump opcode.

Conventions: unbounded integers with widths written out; `long` and pointers of 32 bits in the allocator; error returns as options or flags; addresses, clocks, hash functions, comparison functions, key generators, the space granted by MORECORE, the MD5 transform and the S-boxes are parameters.

## Model

| member | source | states |
|---|---|---|
| RadixTable.RunMatchesTable | squid-2.7.STABLE9-new/lib/radix.c:284-381 | After any sequence of additions and deletions, a lookup gives the longest prefix of the resulting route table or "none", exactly when the key is not all ones, or is itself a host-length route, or is covered by nothing |
| RadixTable.AllOnesMissed | squid-2.7.STABLE9-new/lib/radix.c:966-974 | The exception is real: a table with one covering route whose lookup of the all-ones key ends at the sentinel leaf |
| RadixMatch.MatchIsLongestPrefix | squid-2.7.STABLE9-new/lib/radix.c:284-381 | On every well-formed tree the lookup agrees with a scan of all routes under the same exact condition, and a sentinel is reported only for the two sentinel keys |
| RadixMatch.ClimbScanSpec | squid-2.7.STABLE9-new/lib/radix.c:354-380 | Climbing from the leaf, the first annotation that fits is the most specific covering route of the subtree; if none fits, whatever covers the key is annotated further up |
| RadixMatch.OtherLeafLessSpecific | squid-2.7.STABLE9-new/lib/radix.c:337-353 | A covering route at another leaf is less specific than every mask of the leaf the key reaches |
| RadixMatch.ScanMaskListSpec | squid-2.7.STABLE9-new/lib/radix.c:365-377 | A sorted annotation list yields its largest index within the matched bits, or has none |
| RadixTree.LongestMatchUnique | squid-2.7.STABLE9-new/lib/radix.c:155-185 | The longest match of a table is unique, so the specification determines the answer |
| RadixTable.AddRouteCorrect | squid-2.7.STABLE9-new/lib/radix.c:587-736 | An addition is refused if and only if the route is there already or is a host route to a sentinel key; otherwise all tree invariants hold again and the routes grow by exactly that one |
| RadixTable.DeleteRouteCorrect | squid-2.7.STABLE9-new/lib/radix.c:739-916 | A deletion removes the named route (or the most specific one of the key when no mask is given), fails exactly when there is none, and restores all invariants |
| RadixTable.TreeStepCorrect | squid-2.7.STABLE9-new/lib/radix.c:587-916 | Each step of the tree simulates the step of the abstract route table |
| RadixTable.TreeRun | squid-2.7.STABLE9-new/lib/radix.c:587-916 | Every reachable tree is well formed and holds the routes of the abstract run |
| RadixTable.InitTreeWF | squid-2.7.STABLE9-new/lib/radix.c:955-982 | The initial tree with its two sentinels is well formed and has no routes |
| RadixInvariant.IndexUnique | squid-2.7.STABLE9-new/lib/radix.c:712-723 | No annotation of the new index is on the list where a route is lifted to: the "non-unique normal route" branch cannot be reached |
| RadixInvariant.InsertLeafWF | squid-2.7.STABLE9-new/lib/radix.c:413-476 | Inserting a leaf at the first differing bit, with promotion of annotations from below, keeps the invariants apart from the one annotation still due |
| RadixInvariant.PromoteWF | squid-2.7.STABLE9-new/lib/radix.c:680-696 | Promotion splits the annotations between the new node and its child so that each sits at its highest legal ancestor |
| RadixInvariant.InsertDupWF | squid-2.7.STABLE9-new/lib/radix.c:611-663 | A second mask for a key enters its chain in order and adds exactly that route |
| RadixInvariant.LiftWF | squid-2.7.STABLE9-new/lib/radix.c:697-735 | Lifting the annotation to the highest ancestor completes the invariants |
| RadixInvariant.UnliftWF | squid-2.7.STABLE9-new/lib/radix.c:784-802 | The annotation is found where the climb looks for it, and taking it off leaves only that one missing |
| RadixInvariant.RemoveEntryWF | squid-2.7.STABLE9-new/lib/radix.c:817-832 | Unlinking one entry of a chain removes exactly that route |
| RadixInvariant.RemoveLeafWF | squid-2.7.STABLE9-new/lib/radix.c:853-862 | Unlinking a leaf with its parent removes exactly its key and route and keeps the invariants |
| RadixInvariant.DemoteWF | squid-2.7.STABLE9-new/lib/radix.c:863-891 | The surviving child takes over the annotations of the node that goes, and none is orphaned |
| RadixHead.Descend | squid-2.7.STABLE9-new/lib/radix.c:188-200 | The walk down ends at the leaf of the key, along a path of tested bits |
| RadixHead.HighestHolder | squid-2.7.STABLE9-new/lib/radix.c:701-705 | The climb stops at the highest ancestor that tests at or past the index |
| RadixHead.InsertMask | squid-2.7.STABLE9-new/lib/radix.c:712-734 | The loop over an annotation list computes the sorted insertion |
| RadixHead.InsertInChain | squid-2.7.STABLE9-new/lib/radix.c:615-651 | The loop over a chain computes the sorted insertion, or finds the duplicate |
| RadixHead.FindMatch | squid-2.7.STABLE9-new/lib/radix.c:284-381 | The loops down, along the chain and up again compute the lookup |
| RadixHead.RadixHead.constructor | squid-2.7.STABLE9-new/lib/radix.c:955-982 | A new head has an empty table |
| RadixHead.RadixHead.Lookup | squid-2.7.STABLE9-new/lib/radix.c:284-381 | The object answers as a scan of its current table would, under the exact condition above |
| RadixHead.RadixHead.Add | squid-2.7.STABLE9-new/lib/radix.c:587-736 | The object keeps its invariants, and its table changes by exactly the new route or, when refused, not at all |
| RadixHead.RadixHead.Delete | squid-2.7.STABLE9-new/lib/radix.c:739-916 | The object keeps its invariants, and its table loses exactly the route returned, or there was none to delete |
| DlSteps.RequestHasRoom | squid-2.7.STABLE9-new/lib/dlmalloc.c:1219-1222 | The padded size has room for the request if and only if the padded sum stays below 2^31; past that the request is treated as minimal |
| DlBins.BinIndexMonotone | squid-2.7.STABLE9-new/lib/dlmalloc.c:1427-1434 | Larger chunks never go to a lower bin |
| DlBins.SmallBinExact | squid-2.7.STABLE9-new/lib/dlmalloc.c:1427-1444 | A small bin holds a single size |
| DlBins.FrontlinkBin | squid-2.7.STABLE9-new/lib/dlmalloc.c:1668-1695 | Linking at the place found keeps every bin sorted and every free chunk on exactly one list |
| DlBins.UnlinkBin | squid-2.7.STABLE9-new/lib/dlmalloc.c:1700-1706 | A free chunk is on the list its size says, and unlinking takes it off that one |
| DlLayout.CoveredOnce | squid-2.7.STABLE9-new/lib/dlmalloc.c:1526-1544 | The chunks cover every address of the arena exactly once |
| DlScan.FindInBin | squid-2.7.STABLE9-new/lib/dlmalloc.c:2177-2202 | Within a sorted bin the walk from the small end finds the smallest fit |
| DlScan.FirstIsBest | squid-2.7.STABLE9-new/lib/dlmalloc.c:2173-2206 | The first fit met in bin order is a best fit among the bins from the start index on |
| DlScan.GuardMeansMarked | squid-2.7.STABLE9-new/lib/dlmalloc.c:2149-2149 | Comparing the block bit with the bitmap as numbers of 32 bits, a bit shifted out caught, asks whether any block at or above is marked |
| DlScan.NextMarked | squid-2.7.STABLE9-new/lib/dlmalloc.c:2221-2230 | Skipping blocks stops at the next marked one |
| DlScan.ClearBlock | squid-2.7.STABLE9-new/lib/dlmalloc.c:2208-2219 | Clearing after a partial block keeps every non-empty bin marked |
| DlScan.Scan | squid-2.7.STABLE9-new/lib/dlmalloc.c:2149-2234 | The block-skipping scan ends with a smallest fitting binned chunk at or above its start, or none exists, and keeps the marks |
| DlSteps.TakeFreeStep | squid-2.7.STABLE9-new/lib/dlmalloc.c:2194-2200 | Handing out a whole free chunk keeps all heap invariants and all live data |
| DlSteps.SplitFreeStep | squid-2.7.STABLE9-new/lib/dlmalloc.c:2182-2192 | Handing out the front of a free chunk does too, with the rest a free chunk not yet listed |
| DlSteps.SplitTopStep | squid-2.7.STABLE9-new/lib/dlmalloc.c:2256-2261 | Handing out the front of the top chunk does too |
| DlSteps.ExtendStep | squid-2.7.STABLE9-new/lib/dlmalloc.c:1862-1966 | Contiguous growth of the top chunk keeps all invariants and live data |
| DlSteps.FreeStep | squid-2.7.STABLE9-new/lib/dlmalloc.c:2290-2380 | Consolidating with free neighbours leaves one free chunk between used ones, with head, foot and PREV_INUSE in agreement |
| DlSteps.FreeTopStep | squid-2.7.STABLE9-new/lib/dlmalloc.c:2290-2380 | Consolidating into the top chunk keeps all invariants |
| DlSteps.GatherTwo | squid-2.7.STABLE9-new/lib/dlmalloc.c:2597-2607 | Splitting a gathered region leaves a block of the right size and a second one to be freed, and all other live blocks intact |
| DlSteps.GatherTop | squid-2.7.STABLE9-new/lib/dlmalloc.c:2494-2546 | Growing a block into the top chunk does too |
| DlHeap.Arena.constructor | squid-2.7.STABLE9-new/lib/dlmalloc.c:1377-1414 | The arena before its first extension satisfies the heap invariant |
| DlHeap.Arena.Frontlink | squid-2.7.STABLE9-new/lib/dlmalloc.c:1668-1695 | The chunk is listed again, at its sorted place, with its block marked |
| DlHeap.Arena.ExactFit | squid-2.7.STABLE9-new/lib/dlmalloc.c:2054-2110 | A chunk found needs no splitting and is a best fit among the bins; otherwise no lower bin than the scan start can serve |
| DlHeap.Arena.UseRemainder | squid-2.7.STABLE9-new/lib/dlmalloc.c:2112-2142 | The last remainder is handed out when it fits, else it goes to its bin |
| DlHeap.Arena.ExtendTop | squid-2.7.STABLE9-new/lib/dlmalloc.c:1862-1966 | The top chunk afterwards satisfies the request if the space was granted, and nothing changes if not |
| DlHeap.Arena.Malloc | squid-2.7.STABLE9-new/lib/dlmalloc.c:2033-2263 | A new aligned block of at least the padded size, apart from every live block; no live data changes; best fit among the bins unless it is the last remainder; the top chunk is used only if nothing free fits; failure only if no more space is granted |
| DlHeap.Arena.Release | squid-2.7.STABLE9-new/lib/dlmalloc.c:2290-2380 | The block goes, every other live block keeps address, size and data, and the heap invariant holds |
| DlHeap.Arena.CopyData | squid-2.7.STABLE9-new/lib/dlmalloc.c:424-440 | An ascending copy to a lower address or to disjoint memory reproduces the words, overlapping or not |
| DlHeap.Arena.GrowForward | squid-2.7.STABLE9-new/lib/dlmalloc.c:2486-2513 | Grows in place if and only if the free chunk after the block makes up the size, or the top chunk does with some of it left; the data stays, or nothing changed |
| DlHeap.Arena.GrowBackward | squid-2.7.STABLE9-new/lib/dlmalloc.c:2520-2571 | Shifts down to the free chunk before if and only if that, alone or with what follows, makes up the size; the data is at the new address, or nothing changed |
| DlHeap.Arena.MoveToNew | squid-2.7.STABLE9-new/lib/dlmalloc.c:2573-2594 | A new block has the data of the old one, merged with it or copied; it fails only if no free chunk fits and no space is granted, and then the old block stays as it was |
| DlHeap.Arena.Split | squid-2.7.STABLE9-new/lib/dlmalloc.c:2597-2615 | The region becomes a block of the requested size, less than a minimal chunk more, with its data; the surplus is freed |
| DlHeap.Arena.Realloc | squid-2.7.STABLE9-new/lib/dlmalloc.c:2422-2616 | On every path the block has the requested size, less than a minimal chunk more, and the first min(old, new) words of data, all other live blocks are untouched, the heap invariant holds; it stays at its address if it fits or can grow there, else goes down to the chunk before if that makes up the size; it fails only if nothing free fits and no space is granted, and then nothing is lost |
| DlHeap.Arena.Store | squid-2.7.STABLE9-new/lib/dlmalloc.c:1526-1636 | A client writing inside its own block disturbs neither the invariant nor any other block |
| RegexCompile.Compiler.Compile | squid-2.7.STABLE9-new/lib/GNUregex.c:1040-1988 | For every pattern of the fragment: a group left open is the only syntax error; the buffer is the code of the expression the pattern writes; below 2^15 bytes it accepts exactly the strings that expression matches; the code never exceeds 2^16 bytes, and too big is reported only when the code of a proper prefix of the pattern comes within nine bytes of that |
| RegexMachine.CodeLanguage | squid-2.7.STABLE9-new/lib/GNUregex.c:1040-1988 | The code of an expression tree accepts exactly the language of the expression |
| RegexMachine.SoundCode | squid-2.7.STABLE9-new/lib/GNUregex.c:3370-3420 | Every accepting run through a piece of code consumes a string its expression matches and leaves at its end |
| RegexMachine.CompleteCode | squid-2.7.STABLE9-new/lib/GNUregex.c:3370-3420 | Every match of the expression gives an accepting run through the code |
| RegexSyntax.Collapse | squid-2.7.STABLE9-new/lib/GNUregex.c:1185-1226 | A run of repetition characters means the one repetition it is collapsed to |
| RegexSyntax.RepRep | squid-2.7.STABLE9-new/lib/GNUregex.c:1185-1226 | Two repetitions in a row are one |
| RegexSyntax.RepetitionLanguages | squid-2.7.STABLE9-new/lib/GNUregex.c:1180-1296 | A star is any number, a plus at least one, a question mark at most one, as sets of strings |
| RegexSyntax.DotLanguage | squid-2.7.STABLE9-new/lib/GNUregex.c:1299-1302 | A dot is any one character but the null byte |
| RegexSyntax.EitherLanguage | squid-2.7.STABLE9-new/lib/GNUregex.c:1631-1673 | A bar is either side |
| RegexSyntax.GroupLanguage | squid-2.7.STABLE9-new/lib/GNUregex.c:1525-1629 | A group is what is in it |
| RegexCode.NumberRoundTrip | squid-2.7.STABLE9-new/lib/GNUregex.c:379-405 | A stored jump distance comes back if and only if it fits 16 bits with sign |
| RegexCompile.Compiler.StoreJump | squid-2.7.STABLE9-new/lib/GNUregex.c:889-892 | Exactly three bytes are overwritten, with the jump to the target |
| RegexCompile.Compiler.InsertJump | squid-2.7.STABLE9-new/lib/GNUregex.c:2014-2024 | The shift moves all later code up unchanged and puts the jump in the gap |
| RegexCompile.Compiler.EmitLoop | squid-2.7.STABLE9-new/lib/GNUregex.c:1228-1296 | The three insertions around an item give the code of its repetition, all earlier jumps still right |
| RegexCompile.Compiler.Repetition | squid-2.7.STABLE9-new/lib/GNUregex.c:1180-1296 | Consumes all repetition characters, and what is compiled still means what has been read |
| RegexCompile.Compiler.NormalChar | squid-2.7.STABLE9-new/lib/GNUregex.c:1933-1969 | Appends a literal to the meaning, extending the pending run or starting one |
| RegexCompile.Compiler.AnyDot | squid-2.7.STABLE9-new/lib/GNUregex.c:1299-1302 | Appends any-character to the meaning |
| RegexCompile.Compiler.OpenGroup | squid-2.7.STABLE9-new/lib/GNUregex.c:1525-1564 | Opens a group in the meaning, the outer alternative suspended |
| RegexCompile.Compiler.Bar | squid-2.7.STABLE9-new/lib/GNUregex.c:1631-1673 | Ends an alternative, the previous slot pointing at the new one |
| RegexCompile.Compiler.CloseGroup | squid-2.7.STABLE9-new/lib/GNUregex.c:1567-1629 | Ends a group: the meaning becomes that of the group in the outer alternative |
| RegexCompile.Compiler.StrayClose | squid-2.7.STABLE9-new/lib/GNUregex.c:1567-1629 | With no group open the parenthesis is a literal |
| RegexCompile.AddAlt | squid-2.7.STABLE9-new/lib/GNUregex.c:1631-1673 | Each `\|` extends the chain of alternatives: the slot before jumps to the new slot |
| RegexCompile.CloseAlts | squid-2.7.STABLE9-new/lib/GNUregex.c:1577-1629 | Once the last slot jumps past the last alternative, the chain is the code of the whole choice |
| RegexCompile.SlotLast | squid-2.7.STABLE9-new/lib/GNUregex.c:1634-1673 | The open slot is the last three bytes and nothing before it depends on its contents |
| RegexCompile.Compiler.Finish | squid-2.7.STABLE9-new/lib/GNUregex.c:1971-1988 | Fixes the last slot; an error exactly when a group is open |
| RegexGraph.CodeGood | squid-2.7.STABLE9-new/lib/GNUregex.c:2477-2680 | Every jump of compiled code lands on an instruction, forwards or to the head of its own loop |
| RegexGraph.CodeEnters | squid-2.7.STABLE9-new/lib/GNUregex.c:2609-2627 | The body of a loop is entered from outside only at its first instruction, from its on_failure_jump |
| RegexGraph.CodeZero | squid-2.7.STABLE9-new/lib/GNUregex.c:2595-2627 | A jump of length zero past an empty alternative meets a dummy failure point, unless the empty alternative ends the code |
| RegexFastmap.Explore | squid-2.7.STABLE9-new/lib/GNUregex.c:2477-2680 | Visiting an instruction keeps the exploration invariant |
| RegexFastmap.ExploreBack | squid-2.7.STABLE9-new/lib/GNUregex.c:2595-2627 | Skipping the on_failure_jump at a loop head after a backward jump loses nothing |
| RegexFastmap.MapSound | squid-2.7.STABLE9-new/lib/GNUregex.c:2435-2697 | An exhausted exploration is right about every accepting run |
| RegexFastmap.Live | squid-2.7.STABLE9-new/lib/GNUregex.c:2435-2697 | From every instruction of compiled code some string leads to the end |
| RegexFastmap.StartsChars | squid-2.7.STABLE9-new/lib/GNUregex.c:2499-2503 | The first character of a literal reached without consuming anything starts an accepted string |
| RegexFastmap.CompileFastmap | squid-2.7.STABLE9-new/lib/GNUregex.c:2435-2697 | The search ends; can_be_null is set if and only if the empty string is accepted; if it is not, every accepted string starts with a byte of the map; and every byte of the map but null starts an accepted string |
| SnmpAsn.BuildLength | squid-2.7.STABLE9-new/snmplib/asn1.c:604-656 | Writes the shortest or the three-byte length and nothing else, or fails exactly when it does not fit |
| SnmpAsn.BuildInt | squid-2.7.STABLE9-new/snmplib/asn1.c:241-294 | Writes the minimal two's complement encoding in place, or fails exactly when it does not fit; bytes outside are untouched |
| SnmpAsn.BuildUnsigned | squid-2.7.STABLE9-new/snmplib/asn1.c:307-368 | Same for unsigned integers, with the extra null byte exactly when the top bit is set |
| SnmpAsn.BuildString | squid-2.7.STABLE9-new/snmplib/asn1.c:429-454 | Writes header and contents, or fails exactly when they do not fit |
| SnmpAsn.ParseInt | squid-2.7.STABLE9-new/snmplib/asn1.c:110-162 | Reads an integer if and only if an object with any definite length, at most four bytes and inside the packet is there, as two's complement; without contents, the sign of the byte after |
| SnmpAsn.ParseUnsigned | squid-2.7.STABLE9-new/snmplib/asn1.c:175-228 | The same modulo 2^32, and with a fifth byte if and only if the first is null |
| SnmpAsn.StringExact | squid-2.7.STABLE9-new/snmplib/asn1.c:383-421 | Reads a string if and only if an object that fits the buffer and the packet is there, with any definite length |
| SnmpAsn.LengthRoundTrip | squid-2.7.STABLE9-new/snmplib/asn1.c:572-656 | Every length up to 0xFFFF comes back in its shortest form |
| SnmpAsn.LengthExact | squid-2.7.STABLE9-new/snmplib/asn1.c:572-598 | A length is accepted if and only if it is the short form or the long form of one to four bytes, and means what those bytes say |
| SnmpAsn.IntReturns | squid-2.7.STABLE9-new/snmplib/asn1.c:110-294 | An integer that was built reads as itself |
| SnmpAsn.UnsignedReturns | squid-2.7.STABLE9-new/snmplib/asn1.c:175-368 | An unsigned integer that was built reads as itself |
| SnmpAsn.StringReturns | squid-2.7.STABLE9-new/snmplib/asn1.c:383-454 | A string that was built reads as itself |
| SnmpAsn.HeaderExact | squid-2.7.STABLE9-new/snmplib/asn1.c:467-494 | A header is accepted if and only if it has a tag of one byte and a definite length within what is left and 2^19 |
| SnmpOid.TopMask | squid-2.7.STABLE9-new/snmplib/asn1.c:757-824 | The mask search ends at the topmost group that has a bit set, at the truncated top mask too |
| SnmpOid.BuildSubid | squid-2.7.STABLE9-new/snmplib/asn1.c:757-824 | The groups of seven bits are emitted rightly for all 32-bit values, including those that need the mask repaired |
| SnmpOid.BuildOid | squid-2.7.STABLE9-new/snmplib/asn1.c:757-824 | Writes the encoding of the object identifier, or fails exactly when it does not fit |
| SnmpOid.ExpandExact | squid-2.7.STABLE9-new/snmplib/asn1.c:671-743 | The first byte splits back into its two sub-identifiers if and only if the second is below 40 |
| SnmpOid.ParseOid | squid-2.7.STABLE9-new/snmplib/asn1.c:671-743 | Reads an identifier if and only if an object is there whose contents, sub-identifier after sub-identifier, are used up or fill the buffer; stays inside the packet on any input |
| SnmpOid.TakeSubid | squid-2.7.STABLE9-new/snmplib/asn1.c:699-713 | A sub-identifier is read if and only if marked bytes and one unmarked byte are there, and is their groups of seven bits modulo 2^32 |
| SnmpOid.OidReturns | squid-2.7.STABLE9-new/snmplib/asn1.c:671-824 | Of everything that was built exactly the identifiers of at least two sub-identifiers come back, the second below 40 and the shared first byte below 128: a marked first byte swallows the next sub-identifier, or reads past its own contents |
| SnmpMsg.EncodeVar | squid-2.7.STABLE9-new/snmplib/snmp_vars.c:261-366 | One variable with its back-patched header holding the true length, or failure exactly when it does not fit or its type is unknown |
| SnmpMsg.EncodeVars | squid-2.7.STABLE9-new/snmplib/snmp_vars.c:261-366 | The whole list one after the other; the count kept for back-patching never runs out |
| SnmpMsg.EncodePdu | squid-2.7.STABLE9-new/snmplib/snmp_pdu.c:349-475 | The three integers of either kind of PDU |
| SnmpMsg.FixHeaders | squid-2.7.STABLE9-new/snmplib/snmp_msg.c:206-242 | Overwriting the three headers gives each the true length of what it encloses |
| SnmpMsg.EncodeMessage | squid-2.7.STABLE9-new/snmplib/snmp_msg.c:128-242 | Succeeds if and only if all types are supported and the message fits, and then the buffer holds exactly its nested encoding |
| SnmpDecode.DecodeVar | squid-2.7.STABLE9-new/snmplib/snmp_vars.c:373-574 | Gives a variable and what is left of the list if and only if the bytes read as that |
| SnmpDecode.DecodeVars | squid-2.7.STABLE9-new/snmplib/snmp_vars.c:373-574 | Gives the list of variables in order if and only if the bytes read as that list; ends on any input |
| SnmpDecode.DecodePdu | squid-2.7.STABLE9-new/snmplib/snmp_pdu.c:485-633 | Gives the PDU fields and variables if and only if the bytes read as those |
| SnmpDecode.DecodeMessage | squid-2.7.STABLE9-new/snmplib/snmp_msg.c:247-298 | On every packet: gives a message if and only if the packet reads as it; gives it tightly if and only if the packet spells it by the Basic Encoding Rules, every length in any definite form, and it fits the buffers; so a packet that was encoded gives back its message as it arrives |
| SnmpBer.MessageTight | squid-2.7.STABLE9-new/snmplib/snmp_msg.c:247-298 | A packet reads tightly as a message if and only if the grammar spells that message and it fits the buffers |
| SnmpBer.VarTight | squid-2.7.STABLE9-new/snmplib/snmp_vars.c:373-574 | The same for one variable and what it leaves of the list |
| SnmpBer.OidIsTight | squid-2.7.STABLE9-new/snmplib/asn1.c:671-743 | The same for an object identifier |
| SnmpDecode.EncodedSpelt | squid-2.7.STABLE9-new/snmplib/snmp_msg.c:128-298 | What the encoder writes spells the message, as its version lets it arrive |
| SnmpDecode.LooseAccepted | squid-2.7.STABLE9-new/snmplib/snmp_msg.c:247-298 | Accepted is not spelled: a message and any bytes after it are accepted, and spell something only if there are none |
| SnmpDecode.ArrivesUnchanged | squid-2.7.STABLE9-new/snmplib/snmp_vars.c:325-334 | A message arrives exactly as sent if and only if it is not version 1 or its exceptions are all noSuchObject |
| Splay.SplaySplay | squid-2.7.STABLE9-new/lib/splay.c:50-102 | On linked nodes in place: the same nodes in the same order, everything left of the new root below the key and everything right of it above, and the last result is the comparison with the new root; it ends |
| Splay.GoLeft | squid-2.7.STABLE9-new/lib/splay.c:65-78 | One turn to the left, with or without rotation, keeps the three-way split or stops where nothing is left to search, and shrinks what remains |
| Splay.GoRight | squid-2.7.STABLE9-new/lib/splay.c:79-92 | The same to the right |
| Splay.LinkNodesRight | squid-2.7.STABLE9-new/lib/splay.c:76-78 | After the link the right tree under construction has one more node and the rest is apart from it |
| Splay.AssembleNodes | squid-2.7.STABLE9-new/lib/splay.c:97-101 | The final relinking makes one tree of the two under construction and the top node, with all nodes in order |
| Splay.LinkRight | squid-2.7.STABLE9-new/lib/splay.c:76-78 | The linked node and its right subtree are above the key |
| Splay.Assemble | squid-2.7.STABLE9-new/lib/splay.c:97-101 | The order of the assembled tree is the order before, split at its root by the key |
| Splay.SplayInsert | squid-2.7.STABLE9-new/lib/splay.c:22-48 | A key not present gets a new root node between the smaller and the larger ones; a duplicate leaves the nodes as they are and is found at the root; search order is kept |
| Splay.SplayWalk | squid-2.7.STABLE9-new/lib/splay.c:117-125 | The walkee sees the data in search order |
| KeyHeap.RootLeast | squid-2.7.STABLE9-new/lib/heap.c:217-232 | In an ordered heap the root has a least key |
| KeyHeap.UpStep | squid-2.7.STABLE9-new/lib/heap.c:390-399 | A swap with the parent moves the only violation up |
| KeyHeap.DownStep | squid-2.7.STABLE9-new/lib/heap.c:356-383 | A swap with the smaller child moves the only violation down |
| KeyHeap.LastMoves | squid-2.7.STABLE9-new/lib/heap.c:170-193 | Filling a gap with the last node leaves one place to settle |
| KeyHeap.Heap.SwapElement | squid-2.7.STABLE9-new/lib/heap.c:407-414 | Two nodes change places and their back-pointers follow |
| KeyHeap.Heap.IfyUp | squid-2.7.STABLE9-new/lib/heap.c:390-399 | Restores order from a node that may be too small, nodes and entries unchanged as multisets |
| KeyHeap.Heap.IfyDown | squid-2.7.STABLE9-new/lib/heap.c:356-383 | Restores order from a node that may be too large, likewise |
| KeyHeap.Heap.Insert | squid-2.7.STABLE9-new/lib/heap.c:144-161 | Heap order and back-pointers hold, and exactly one entry is added |
| KeyHeap.Heap.Delete | squid-2.7.STABLE9-new/lib/heap.c:170-193 | Heap order and back-pointers hold, and exactly the entry of that node goes |
| KeyHeap.Heap.ExtractMin | squid-2.7.STABLE9-new/lib/heap.c:217-232 | An entry with a least key is removed, or the heap was empty |
| KeyHeap.Heap.Update | squid-2.7.STABLE9-new/lib/heap.c:259-272 | The effect on the entries is that of deleting and inserting, with the same node |
| KeyHeap.Heap.Drain | squid-2.7.STABLE9-new/lib/heap.c:217-232 | Extracting until the heap is empty returns all its entries, as a multiset, by ascending keys |
| KeyHeap.ExtractionsAscend | squid-2.7.STABLE9-new/lib/heap.c:217-232 | Extracting again and again yields ascending keys |
| HashTable.Table.constructor | squid-2.7.STABLE9-new/lib/hash.c:144-158 | A new table is empty |
| HashTable.Table.Join | squid-2.7.STABLE9-new/lib/hash.c:167-174 | The link is the most recent of the table, and count is the total chain length |
| HashTable.Table.Lookup | squid-2.7.STABLE9-new/lib/hash.c:182-197 | With a key on every link: a link of an equal key such that no more recent join has one, and none only if no link has one; with keyless links, the first equal key of the bucket before such a link |
| HashTable.FindLatest | squid-2.7.STABLE9-new/lib/hash.c:182-197 | What searching one bucket finds is what searching all links finds, given equal keys hash alike |
| HashTable.FoundAmongAll | squid-2.7.STABLE9-new/lib/hash.c:182-197 | Stopping at the first hit gives the most recent equal key, and stopping at none means there is none |
| HashTable.SearchChain | squid-2.7.STABLE9-new/lib/hash.c:185-195 | The loop stops at the first link without a key or with an equal one, and gives the latter |
| HashTable.Table.First | squid-2.7.STABLE9-new/lib/hash.c:211-218 | The iteration starts with every chain still to come |
| HashTable.Table.Next | squid-2.7.STABLE9-new/lib/hash.c:227-236 | Returns the first of what is to come and leaves the rest |
| HashTable.Table.Remove | squid-2.7.STABLE9-new/lib/hash.c:259-278 | At any time: the table and what the iterator has still to return lose exactly the link |
| HashTable.EveryLink | squid-2.7.STABLE9-new/lib/hash.c:211-218 | What is to come at the start is every link of the table, once |
| HashTable.Table.Traverse | squid-2.7.STABLE9-new/lib/hash.c:200-278 | Running the table through hash_first and any interleaving of hash_next and hash_remove_link: no link is returned twice, each one not removed is returned or still to come, and the table loses exactly what was removed |
| HashTable.EachOnce | squid-2.7.STABLE9-new/lib/hash.c:200-278 | For any interleaving of steps and removals no link is returned twice, and one not removed is returned or still to come |
| HashTable.NotReturned | squid-2.7.STABLE9-new/lib/hash.c:259-278 | A removed link is never returned afterwards |
| HashTable.AllReturned | squid-2.7.STABLE9-new/lib/hash.c:227-236 | An iteration that has ended returned every link that was not removed |
| Des.DecryptEncrypt | squid-2.7.STABLE9-new/lib/encrypt.c:193-215 | Decryption undoes encryption for every block and any key schedule, selection table and S-boxes |
| Des.RoundsUndo | squid-2.7.STABLE9-new/lib/encrypt.c:168-215 | Rounds with the keys reversed undo rounds, halves exchanged |
| Des.EpOfIp | squid-2.7.STABLE9-new/lib/encrypt.c:56-79 | The final permutation followed by the initial one is exactly the swap of halves |
| Des.FinalOfInitial | squid-2.7.STABLE9-new/lib/encrypt.c:56-79 | The final permutation after the swap undoes the initial one |
| Des.Perm | squid-2.7.STABLE9-new/lib/encrypt.c:158-165 | The loop permutes the whole block |
| Des.CryptMain | squid-2.7.STABLE9-new/lib/encrypt.c:168-190 | Bit by bit: each bit of one half is changed by the bit of the S-box outputs that the permutation picks for it, where each S-box is indexed by six selected bits changed by six key bits; the other half stays |
| Des.Substitute | squid-2.7.STABLE9-new/lib/encrypt.c:174-184 | Each output bit is the bit of its S-box value at the index formed from the selected bits and the key bits |
| Des.FlipIndex | squid-2.7.STABLE9-new/lib/encrypt.c:174-184 | A key bit moves the index of its own S-box by its place value and no other index |
| Des.FlipRound | squid-2.7.STABLE9-new/lib/encrypt.c:168-190 | A round notices a key bit if and only if its S-box differs at the moved index |
| Des.KeyBitMatters | squid-2.7.STABLE9-new/lib/encrypt.c:168-215 | For every block, schedule, round and key bit: the ciphertext changes with that bit if and only if the S-box it feeds differs, in that round, at the index moved by its place value |
| Des.Encrypt | squid-2.7.STABLE9-new/lib/encrypt.c:193-215 | In place, with the schedule forwards or backwards, sixteen such rounds between the permutations |
| Md5.Context.Update | squid-2.7.STABLE9-new/lib/md5.c:89-123 | The context stands for the longer message, however it was split |
| Md5.Context.Final | squid-2.7.STABLE9-new/lib/md5.c:130-159 | The digest is the fold of the transform over the message padded as in sections 3.1 and 3.2 of RFC 1321, with the bit length modulo 2^64 |
| Md5.Context.constructor | squid-2.7.STABLE9-new/lib/md5.c:73-82 | A new context stands for the empty message |
| Md5.Context.Absorb | squid-2.7.STABLE9-new/lib/md5.c:105-123 | Completing a block, whole blocks and the rest equal folding over tail and data at once |
| Md5.FoldTail | squid-2.7.STABLE9-new/lib/md5.c:89-123 | Only the incomplete last block matters for what follows |
| Md5.PaddedFold | squid-2.7.STABLE9-new/lib/md5.c:130-159 | The fold over the padded message from what the context keeps |
| Md5.PaddedBytes | squid-2.7.STABLE9-new/lib/md5.c:130-159 | Byte by byte the padding of sections 3.1 and 3.2 of RFC 1321: 0x80, null bytes, eight bytes of bit length low byte first, to a multiple of 64 and no more |
| Md5.CountUp | squid-2.7.STABLE9-new/lib/md5.c:94-98 | The two-word byte count with its carry is the length |
| Md5.BitLength | squid-2.7.STABLE9-new/lib/md5.c:151-154 | The two stored words are the bit length modulo 2^64 |
| Dns.MessageReturns | squid-2.7.STABLE9-new/lib/rfc1035.c:549-663 | Unpacking the message built for a host name gives back id, flags and an equal question if and only if the name has labels of at most 63 bytes between single dots and at most 254 bytes before trailing dots |
| Dns.FullNameLost | squid-2.7.STABLE9-new/lib/rfc1035.c:320-339 | At 255 bytes of valid labels the question does not come back: the name fills the buffer and the type is read too early |
| Dns.QueryReturns | squid-2.7.STABLE9-new/lib/rfc1035.c:475-504 | The same for the question section alone |
| Dns.NameReturns | squid-2.7.STABLE9-new/lib/rfc1035.c:159-181 | The labels packed spell what is kept of the host name if and only if it is canonical |
| Dns.CutType | squid-2.7.STABLE9-new/lib/rfc1035.c:331-339 | The two bytes read as type after a cut name are never the type that was sent |
| Dns.NameUnpack | squid-2.7.STABLE9-new/lib/rfc1035.c:283-339 | On any input it ends, stays inside message and name buffer, and succeeds exactly if the name can be read to its end or fills the buffer exactly, and yields the labels spelled at that place with compression pointers followed at most 65 deep |
| Dns.PackedSpells | squid-2.7.STABLE9-new/lib/rfc1035.c:159-181 | A packed name spells its labels, without compression |
| Dns.CompressedSpells | squid-2.7.STABLE9-new/lib/rfc1035.c:283-339 | As in section 4.1.4 of RFC 1035: labels and a pointer to a packed name spell the labels and that name, and end after the pointer |
| Dns.NamePack | squid-2.7.STABLE9-new/lib/rfc1035.c:159-181 | Packs the tokens between dots, each clipped to 63 bytes |
| Dns.TokensHost | squid-2.7.STABLE9-new/lib/rfc1035.c:168-178 | The tokens of a canonical name are its labels |
| Dns.HeaderRoundTrip | squid-2.7.STABLE9-new/lib/rfc1035.c:96-264 | A packed header unpacks to the same fields |
| Dns.HeaderLayout | squid-2.7.STABLE9-new/lib/rfc1035.c:215-264 | As in section 4.1.1 of RFC 1035: which bits of a received header each field is |
| Dns.BuildQuery | squid-2.7.STABLE9-new/lib/rfc1035.c:640-707 | Byte by byte the message with one question and only recursion desired, around the packed name; and the query kept for comparison |
| Dns.QueryUnpack | squid-2.7.STABLE9-new/lib/rfc1035.c:483-504 | Succeeds exactly if the name can be read and four bytes follow; name, type and class come from where it ends; what it reads after a cut name |
| Dns.QueryCompare | squid-2.7.STABLE9-new/lib/rfc1035.c:526-546 | Equal if and only if type and class agree and the names agree up to case and trailing dots |
| Dns.SameLetter | squid-2.7.STABLE9-new/lib/rfc1035.c:531-541 | Bytes agree up to case if and only if they are equal or one is the capital of the other |
| Dns.TrimEqual | squid-2.7.STABLE9-new/lib/rfc1035.c:531-541 | Not trimming names of equal length makes no difference |
| Dns.RRUnpack | squid-2.7.STABLE9-new/lib/rfc1035.c:351-422 | Succeeds exactly if the name can be read, fields and data are inside the message and the name in PTR data ends inside it; then the fields follow the name and the data is what the length field spans, or the name spelled there |
| Dns.MessageUnpack | squid-2.7.STABLE9-new/lib/rfc1035.c:559-627 | Each outcome with its condition: error 15, the reply code, zero, or the answers one after another up to the number announced, the end of the message or the first that is refused |
| Dns.RefusedReply | squid-2.7.STABLE9-new/lib/rfc1035.c:604-627 | With answers announced, error 15 exactly if there is no question or the first answer cannot be unpacked |
| HttpRange.SpecCanonize | squid-2.7.STABLE9-new/src/HttpHdrRange.c:152-168 | Valid if and only if the spec meets the body, and then the same bytes of it, non-empty and in bounds |
| HttpRange.MergeWith | squid-2.7.STABLE9-new/src/HttpHdrRange.c:173-205 | The union of two specs that touch, or no change; it refuses only specs that are apart |
| HttpRange.HdrRange.Canonize | squid-2.7.STABLE9-new/src/HttpHdrRange.c:306-356 | The requested bytes inside the body are preserved exactly, with merging or without; every spec is non-empty and in bounds; merged neighbours are apart; it ends |
| HttpRange.MergeAll | squid-2.7.STABLE9-new/src/HttpHdrRange.c:320-352 | The merge loop preserves the union of bytes |
| HttpRange.GoodsBytes | squid-2.7.STABLE9-new/src/HttpHdrRange.c:306-320 | Dropping the specs that miss the body loses no requested byte of it |
| HttpRange.IsComplex | squid-2.7.STABLE9-new/src/HttpHdrRange.c:374-387 | True exactly if some spec starts before the end of the one before |
| HttpRange.StrongDisjoint | squid-2.7.STABLE9-new/src/HttpHdrRange.c:374-387 | A list that is not complex is ascending and disjoint |
| HttpRange.WillBeComplex | squid-2.7.STABLE9-new/src/HttpHdrRange.c:394-412 | True if and only if, suffixes left out, some spec starts before the sure end of its predecessor, or the first one before the body |
| HttpRange.NeverComplex | squid-2.7.STABLE9-new/src/HttpHdrRange.c:374-412 | A parsed list is not complex after canonization without merging, whatever the length turns out to be, if and only if it has at most one spec, or consists of explicit ranges in order, the last perhaps open-ended |
| HttpRange.NotComplexAfterwards | squid-2.7.STABLE9-new/src/HttpHdrRange.c:394-412 | The half of it for longer lists: explicit ranges in order, the last perhaps open-ended, are not complex once canonized without merging |
| HttpRange.TrailerFirst | squid-2.7.STABLE9-new/src/HttpHdrRange.c:394-412 | Acceptance beforehand does not carry over with an open-ended range before the last: a concrete list |
| HttpRange.SuffixLast | squid-2.7.STABLE9-new/src/HttpHdrRange.c:394-412 | Nor with a suffix after a range: a concrete list |

## Left out

- Routing tree: non-contiguous masks with their lexical order and reference counts, the relocation of twin nodes on deletion, tree walks; masks are their index and keys are bit strings.
- Routing tree: update in place of child and parent pointers; the table object replaces a tree value along the path walked.
- DlHeap.Arena.ExtendTop: MORECORE grants the space right after the arena or nothing; foreign sbrk, fenceposts and page alignment of a first odd address are not modelled.
- Allocator: mmap and mremap chunks, memalign, calloc, trimming, statistics; the lists are sequences of chunk addresses, so the fd and bk words are written but not read back.
- Regular expressions: anchors, bracket expressions, intervals, backslash escapes, back-references, translate tables, memory failure, the rewriting of maybe_pop_jump, and which of several matches re_match_2 picks.
- RegexCompile.Compiler.Compile: nothing is claimed about the language of code of 2^15 bytes or more, where jump distances no longer fit.
- RegexFastmap.CompileFastmap: the byte after the code must not be a failure-jump opcode when the last alternative is empty, because the source reads it; whether the null byte is in the map more often than needed is not claimed.
- SNMP: the MIB parser, the session API, bit strings, 64-bit counters, trap PDUs (not compiled in), allocation failure; reads past the end of a packet are failures here.
- SnmpOid.BuildOid: the contents must fit the 128-byte buffer the source writes them to without a check.
- Splay tree: destroying and printing; the comparison function is a total order.
- KeyHeap.Heap.Insert: keys are real numbers; rounding and NaN are not modelled.
- HashTable.Table.First: no iteration may be running, as the source asserts; hash functions, prime sizes and freeing all items are left out.
- DES: setkey and crypt, and the contents of the S-boxes and of the selection table.
- MD5: the transform itself, its constants, and byte swapping on big-endian machines.
- Dns.NameUnpack: the source reads the two bytes of a pointer before it checks that both are there; here the check comes first.
- Dns.BuildQuery: the reversed address text of a PTR query is given by the caller; asserts on buffer sizes are the precondition.
- Byte ranges: parsing and packing of the header, the offset queries.
- Left out because they would only add easy members: base64, URL escaping, digest hex conversion, cache digests, arrays, stacks, random numbers, HTML quoting, date formatting.
