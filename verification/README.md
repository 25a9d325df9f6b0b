# A verified model of gvm-libs

gvm-libs holds the code that the components of the Greenbone Vulnerability Manager share:
collections of target hosts, port ranges, the knowledge base in Redis, vulnerability test records,
CVSS scores, and Boreas, the scanner that finds out which targets are alive. This project models
the parts of it whose correctness takes an argument, in Dafny 4.11, and proves what they promise.
`dafny verify dfyconfig.toml` checks everything.

## What is modelled

- **Alive detection** (`Boreas.dfy`, `BoreasScanner.dfy`, `BoreasReports.dfy`, `BoreasRuns.dfy`).
  The pinging thread, the sniffing thread and the consumer of the queue form a transition system
  whose steps are single accesses to shared data: adding a host to the alive table, counting it,
  queueing it and setting the flag are four steps, and so are the two readings of a batch report
  and its sending. An invariant is kept by every step, so the theorems hold for every
  interleaving. The scanner as a class refines the steps. The accounting loop takes what it reads
  from the shared state as a parameter; the readings of every run are proved to be of the kind the
  loop is right for, and for them it computes the counts that the run sends. What is read, sent
  and queued is also told from the steps of the run alone.
- **Addresses** (`Bytes.dfy`, `Bits.dfy`, `Address.dfy`). The loops over the bytes of an IPv6
  address, and 32-bit mask arithmetic, against the number that the address is.
- **Host collections** (`Dedup.dfy`, `HostList.dfy`, `HostText.dfy`, `HostBuild.dfy`,
  `HostWriting.dfy`, `HostFilter.dfy`, `HostResolve.dfy`). The growing array of hosts with its
  counters; compaction, deduplication, construction from a string, exclusion, allow and deny
  lists, and name resolution. Each pass is tied to a function on lists, and the laws are proved of
  that function. `HostWriting.dfy` goes the other way: it writes host definitions down and proves
  what the collection made from the text holds.
- **Port ranges** (`Ports.dfy`, `PortWriting.dfy`, `PortLists.dfy`). The validator, the parser,
  the membership test and the flattening into an array, which have to agree; and a grammar of all
  accepted strings, with what they denote.
- **Internet checksum** (`Checksum.dfy`). The accumulator against the one's complement sum of
  section 1 of RFC 1071, on machines of either byte order.
- **Knowledge base** (`KbLists.dfy`, `KbClaims.dfy`). Unique adds to lists over any run of adds,
  and over any interleaving of the two commands of which an add consists; and the claims of
  clients on the databases of a server, as a transition system whose steps are single Redis
  commands of any number of clients. FLUSHDB, HSETNX and HDEL act on whatever database the
  connection has selected, so a wrong SELECT would show.
- **Vulnerability tests** (`Refs.dfy`, `Prefs.dfy`, `Nvti.dfy`). References, preferences and tags,
  printed into separated lists and read back; and the round trip of a test through the knowledge
  base.
- **CVSS** (`Cvss.dfy`, `CvssVectors.dfy`). The v3 vector loop, the rounding and the score, over
  the reals; and the scores of written vectors.
- `Text.dfy` defines the C and GLib string functions the code calls, `Lists.dfy` what the modules
  share.

Some properties one might expect do not hold without a condition. The conditions are exact, and a
lemma gives an input on the failing side:

- A packet that is cut off when the sniffer is stopped, between the alive table and the queueing
  decision, is neither dead nor queued: `Boreas.DeadHostAccounting` says the totals agree if and
  only if that did not happen, and `Boreas.CutOffRun` is, for every scan of one target, a run in
  which it did.
- The prefix length of a block is validated as a whole but extracted with at most two or three
  digits: `HostText.PrefixLengthReadsAgree` says the two readings agree if and only if the digits
  fit, and `HostText.PrefixDigitsLost` reads "024" as 24 and as 2. A prefix that is then read as 0
  has no defined block: the shift by 32 bits is undefined for IPv4, and for IPv6 the code accesses
  the byte in front of the address. `HostText.UndefinedText` says which texts these are, and
  `HostText.ZeroBlocks` has some: any IPv4 address with the prefix 001, any IPv6 address with 0001.
- `roundup` gives the next tenth if and only if its trimmed argument is not a negative number
  between two tenths: `Cvss.RoundUpIsLeastTenth`, with -0.05 in `Cvss.RoundUpOfNegative`. Scores
  are never negative there.
- A unique add is two commands and no transaction: `KbLists.OverlappingAdds` says that a list stays
  duplicate-free if and only if no two adds of one value overlap, and `KbLists.AddsCanOverlap` is
  a run of two that do.
- A range whose last address is the last one of its family, 255.255.255.255 or all ones, has no
  end: the increment wraps. With a limit on the number of hosts such a range is rejected, however
  small it is. Without one the loop ends if and only if the range is not of that kind,
  `HostBuild.RangeLoopEnds`, and `HostBuild.NewWithMax` excludes it. The last IPv4 address alone,
  written as a range, is one: `HostBuild.LastAddressAlone`.
- References come back from the store if and only if the ids of CVE and BID references are not
  empty, have no comma and no white space around them, and the others have no colon in their type
  and, printed as type and id, no comma and no white space around them: `Refs.RefsRoundTrip`.
  `Refs.CommaLost` has an id with a comma.
- A single count of dead hosts is negative if and only if more hosts were found since the previous
  report than the batch has: `BoreasReports.CountSent`, with readings for it in
  `BoreasReports.NegativeCount`. The sum is right all the same.
- The fields of a preference come back if and only if none but the last ends with a bar and none
  has three bars in it: `Prefs.PrefRoundTrip`, with the name "a|" in `Prefs.BarLost`. Preferences
  come back in the opposite order.

## Model

| member | source | states |
|---|---|---|
| `Boreas.DeadHostAccounting` | boreas/alivedetection.c:113-298 | for every interleaving, the dead counts an ICMP scan sends sum up to targets minus min(alive, limit), and dead plus queued is the number of targets if and only if the sniffer was not cut off before a queueing decision |
| `Boreas.CutOffRun` | boreas/sniffer.c:173-181 | for every scan of one target, a run in which the target is neither reported dead nor queued |
| `Boreas.ReportsTelescope` | boreas/alivedetection.c:113-184 | at every moment of a run the counts sent are whole batches minus the hosts considered alive so far, which are at most the limit until the limit is handled |
| `Boreas.LimitStateMachine` | boreas/boreas_io.c:345-392 | at every moment the queued hosts are the first min(count, limit) distinct targets discovered, the flag is set exactly when the count has reached the limit, and the count is the size of the alive table, up to the host in hand |
| `Boreas.QueueProtocol` | boreas/boreas_io.c:141-209 | at every moment what was consumed followed by what is queued is what was pushed; the finish signal is pushed at most once and after every host; a consumer that sees it has received exactly the queued hosts in order of discovery |
| `Boreas.InvExec` | boreas/sniffer.c:173-181 | every run from a state with the invariant ends in one, for the sniffer, queue and accounting parts together |
| `Boreas.BatchReportBalance` | boreas/alivedetection.c:146-184 | a batch report changes the balance of sent and alive hosts by exactly one batch, also when it handles the limit |
| `Boreas.DeliveryAfterPush` | util/kb.c:870-916 | pushing left and popping right is first in, first out |
| `BoreasScanner.Scanner.constructor` | boreas/alivedetection.c:398-412 | the fields start as the transition system does |
| `BoreasScanner.Scanner.HandleScanRestrictions` | boreas/boreas_io.c:345-392 | counting, queueing and setting the flag refine the corresponding steps |
| `BoreasScanner.Scanner.GotPacket` | boreas/sniffer.c:173-181 | one packet is a run of the transition system: nothing for a known or foreign host, four steps for a new target |
| `BoreasScanner.Scanner.GetHostFromQueue` | boreas/boreas_io.c:141-209 | taking an entry refines the consumer's step: a host, the end with the number not scanned, nothing, or an entry that is no host and is dropped |
| `BoreasScanner.Scanner.PutFinishSignalOnQueue` | boreas/boreas_io.c:294-335 | the first call whose push works refines the finishing step; after it calls change nothing; a failed push or reset is reported and leaves a failed signal to be tried again |
| `BoreasReports.ReportsDueClosed` | boreas/alivedetection.c:113-184 | the number of reports after p pings, in closed form |
| `BoreasReports.AccountBalance` | boreas/alivedetection.c:113-184 | for any coherent readings of the shared values, the reports telescope |
| `BoreasReports.CountsSentSum` | boreas/alivedetection.c:258-285 | for any coherent readings, the counts of a whole scan sum up to targets minus min(alive, limit) |
| `BoreasReports.CountSent` | boreas/alivedetection.c:146-184 | a single count is its batch minus the hosts newly considered alive, and negative if and only if those are more than the batch has |
| `BoreasReports.NegativeCount` | boreas/alivedetection.c:146-184 | coherent readings of a scan of 4000 targets whose counts are 1000, -1000 and 2000 |
| `BoreasReports.RunReadings` | boreas/alivedetection.c:113-285 | what the pinging thread reads in any run is coherent; there is one reading per report due, and the counts the run sends are those computed from its readings |
| `BoreasReports.SendIcmpBatches` | boreas/alivedetection.c:113-184 | the ping loop computes the accounting of the readings and leaves more than one and at most two batches of 1000, or all targets if there are at most 1000 |
| `BoreasReports.ScanIcmp` | boreas/alivedetection.c:258-298 | the loop and the final report send the counts of the readings, which for coherent readings, so for those of every run, sum up to targets minus min(alive, limit) |
| `BoreasRuns.RunTold` | boreas/sniffer.c:173-181 | after every run the alive table holds exactly the targets of which the run has a packet, the hosts found are in the order of their first packets, and the counters of hosts, decisions, pings and reports are numbers of steps of the run |
| `BoreasRuns.ReadingsOfRun` | boreas/alivedetection.c:135-141 | the k-th size that the pinging thread uses is the number of targets that have answered before the k-th reading of the table, and the k-th flag says whether the limit was reached before the k-th reading of the flag |
| `BoreasRuns.CountOfRun` | boreas/alivedetection.c:146-184 | the k-th count an ICMP scan sends is its batch minus the targets that came to be considered alive, at most the limit, between the k-th reading and the one before it, told from the steps of the run |
| `BoreasRuns.TotalOfRun` | boreas/alivedetection.c:258-285 | the counts of a run, of any scan, sum up to targets minus min(targets that answered, limit) |
| `BoreasRuns.QueuedInRun` | boreas/boreas_io.c:345-392 | at every moment the hosts pushed are the first targets that answered, as many as passed the queueing decision but at most the limit |
| `BoreasRuns.DiscoveredOrder` | boreas/sniffer.c:173-181 | the order of discovery has every target that answered exactly once |
| `Bytes.Memcmp` | base/hosts.c:1224-1254 | the sign of the comparison of two byte strings is that of their values |
| `Bytes.Increment` | base/hosts.c:1224-1254 | the carry loop adds one, from all ones to zero |
| `Bytes.Decrement` | base/hosts.c:568-630 | the borrow loop subtracts one, from zero to all ones |
| `Address.ClearLow` | base/hosts.c:568-630 | the loop over whole bytes and the mask of the byte between clear exactly the low h bits of the value |
| `Address.FillLow` | base/hosts.c:568-630 | the loop over whole bytes and the mask of the byte between set exactly the low h bits of the value |
| `Address.Cidr6BlockIps` | base/hosts.c:568-630 | for every address of value V and every b up to 126, with s = 2^(128-b), the arrays returned have the values (V div s) * s + 1 and (V div s) * s + s - 2; for /127 they are both addresses of the pair, for /128 the address itself |
| `Address.Cidr6Functions` | base/hosts.c:568-630 | the bounds that a parsed block element has are these same values |
| `Address.Cidr6Bounds` | base/hosts.c:568-630 | these are in order and inside the address space; up to /126 there are 2^(128-b) - 2 of them and the last one is below all ones |
| `Address.BlockStartMeaning` | base/hosts.c:568-630 | the start of a block of 2^h addresses is (v div 2^h) * 2^h, and the block holds v |
| `Address.Cidr4BlockIps` | base/hosts.c:197-218 | in 32-bit arithmetic, the usable addresses of /1 to /30 are the 2^(32-b) - 2 addresses inside the block, and the last one is below all ones |
| `Address.ShortRange4Last` | base/hosts.c:352-386 | the last address of a short range differs from the first in the last byte only |
| `Address.ShortRange6Last` | base/hosts.c:764-799 | the last address of a short range is the start of the block of 65536 addresses plus the given end |
| `Address.MappedRoundTrip` | base/networking.c:242-252 | the IPv4-mapped form is recognised and undone, in both directions (section 2.5.5.2 of RFC 4291) |
| `Address.MappedValue` | base/networking.c:242-252 | the value of the mapped form is 0xffff * 2^32 plus the IPv4 address |
| `Address.Ipv4AsIpv6` | base/networking.c:242-252 | the loop fills the buffer with the mapped form |
| `Dedup.ValueStrInjective` | base/hosts.c:2267-2310 | hosts with equal printed values are equal |
| `Dedup.DeduplicatedKeys` | base/hosts.c:1039-1085 | the values after deduplication are those before, each exactly once, at its first occurrence |
| `Dedup.DeduplicatedOrder` | base/hosts.c:1039-1085 | the values after deduplication are the first occurrences of the values before, in their order |
| `Dedup.DeduplicatedVhostsAt` | base/hosts.c:1039-1085 | a remaining host has the virtual hosts of all hosts of its value, in order |
| `Dedup.DeduplicatedVhosts` | base/hosts.c:1039-1085 | deduplication conserves the multiset of virtual hosts |
| `Dedup.DeduplicatedDistinct` | base/hosts.c:1039-1085 | a list of distinct values is not changed |
| `HostList.Hosts.constructor` | base/hosts.c:983-993 | a new collection is valid and empty |
| `HostList.Hosts.Add` | base/hosts.c:961-974 | a host is appended and the collection stays valid, also when the array grows fourfold |
| `HostList.Hosts.FillGaps` | base/hosts.c:1001-1031 | any pattern of gaps is compacted: the hosts in their order, then empty slots |
| `HostList.Hosts.CloseGaps` | base/hosts.c:1001-1031 | after a removal of k hosts the collection is valid again, with the remaining hosts in order and a count lower by k |
| `HostList.Hosts.MergeSlot` | base/hosts.c:1039-1085 | a visited host whose value is in the table gives its virtual hosts to the slot the table names, otherwise it enters the table |
| `HostList.Hosts.MergeDuplicates` | base/hosts.c:1039-1085 | the pass leaves the deduplicated hosts and counts the removed ones |
| `HostList.Hosts.Deduplicate` | base/hosts.c:1039-1085 | the collection is valid, holds the deduplicated hosts, and count plus duplicated stays the same |
| `HostText.NumberIsDecimal` | base/hosts.c:90-146 | what the prefix length check accepts are the decimal numbers of at most the maximum |
| `HostText.PrefixLengthReadsAgree` | base/hosts.c:136-146 | strtol over all digits and sscanf over at most `width` digits read the same prefix length if and only if there are at most `width` digits |
| `HostText.PrefixDigitsLost` | base/hosts.c:136-146 | "024" is accepted as 24 and extracted as 2 |
| `HostText.UndefinedText` | base/hosts.c:197-218 | an element has no defined block if and only if its text is a block whose prefix has more digits than are read and only zeros among those |
| `HostText.ZeroBlocks` | base/hosts.c:136-146 | an IPv4 address with the prefix 001 and an IPv6 address with the prefix 0001 have no defined block |
| `HostBuild.AddRange4` | base/hosts.c:1181-1202 | the loop appends exactly the addresses of the range in ascending order, or fails when there are more than max hosts |
| `HostBuild.Successor` | base/hosts.c:1224-1254 | the carry loop on a copy of the bytes gives the next address, and zero behind all ones |
| `HostBuild.Turns4Value` | base/hosts.c:1181-1202 | k increments of an IPv4 address add k modulo 2^32 |
| `HostBuild.Turns6Value` | base/hosts.c:1224-1254 | k increments of an IPv6 address add k modulo 2^128 |
| `HostBuild.AddRange6` | base/hosts.c:1224-1254 | the loop appends exactly the addresses of the range in ascending order, or fails when there are more than max hosts, which it always does for a range that ends with all ones |
| `HostBuild.Bounds6` | base/hosts.c:568-630 | the bounds that are computed in place are those of the element that the text denotes |
| `HostBuild.AddElement` | base/hosts.c:1130-1262 | an element adds its expansion, and is accepted if and only if it is usable and the collection stays within max |
| `HostBuild.AddPieces` | base/hosts.c:1098-1283 | all pieces add the concatenated expansions, or fail; there are never more than max + 1 hosts |
| `HostBuild.NewWithMax` | base/hosts.c:1098-1283 | a collection is returned if and only if every non-blank element is recognised, no range ends with the last address of its family, and the total expansion is within max; it holds the deduplicated concatenation of the expansions, also when the deduplication is skipped, and count plus duplicated is the total |
| `HostBuild.RangeLoopEnds` | base/hosts.c:1181-1254 | without a limit, some number of increments of the first address of a range exceeds its last address, which ends the loop, if and only if that is not the last address of its family |
| `HostBuild.ExpandDistinct` | base/hosts.c:1264-1283 | the hosts of a single element are distinct, so skipping the deduplication is right |
| `HostBuild.FailsEarly` | base/hosts.c:1098-1283 | a string is rejected as soon as the elements read so far are unacceptable |
| `HostWriting.BlockRead` | base/hosts.c:90-146 | an address, a slash and digits are a block if and only if the number is from 1 to 30, or to 128 for IPv6, and are rejected otherwise |
| `HostWriting.Short4Read` | base/hosts.c:352-386 | an IPv4 address, a hyphen and digits are the range to that last byte if the number is at most 255, and otherwise a host name or nothing |
| `HostWriting.Short6Read` | base/hosts.c:764-799 | an IPv6 address, a hyphen and one to four hexadecimal digits are the range to that last 16-bit group |
| `HostWriting.LongRead` | base/hosts.c:264-293 | two addresses of one family with a hyphen between them are the range from the first to the second |
| `HostWriting.NameRead` | base/hosts.c:810-860 | a host name that is no other definition is the host with the name in lower case |
| `HostWriting.Denoted` | base/hosts.c:810-860 | every definition that is written from its parts, an address, block, short or long range of either family or a name, expands to exactly the hosts it denotes, in ascending order |
| `HostWriting.NewFromText` | base/hosts.c:1098-1283 | a string of written definitions and blank pieces, with white space around them and commas and newlines between them, is accepted if and only if no range goes to the last address of its family and the hosts denoted are within max, and then holds their deduplicated concatenation |
| `HostWriting.ListedInText` | base/hosts.c:1562-1624 | the table that exclusion and allow and deny lists make of such a string holds exactly the values of the hosts denoted |
| `HostWriting.HexRoundTrip` | base/hosts.c:764-799 | the hexadecimal digits of a number, of either case, are read as that number |
| `HostWriting.PrintedHost` | base/hosts.c:2267-2310 | the printed value of a host is read back as that host |
| `HostFilter.KeptMeaning` | base/hosts.c:1562-1736 | what a filter keeps is exactly what the rule permits, and what it rejects are the values of the others |
| `HostFilter.KeptConcat` | base/hosts.c:1562-1736 | filtering distributes over concatenation: the filter is stable |
| `HostFilter.RejectedConcat` | base/hosts.c:1638-1736 | the rejected values are listed in the opposite order |
| `HostFilter.ValueTable` | base/hosts.c:1562-1624 | the hash table holds exactly the values of a collection |
| `HostFilter.RejectSlots` | base/hosts.c:1638-1736 | the pass over the slots leaves the permitted hosts and counts the others |
| `HostFilter.Filter` | base/hosts.c:1638-1736 | the collection is valid, holds the permitted hosts in order, and count plus removed stays the same |
| `HostFilter.ExcludeWithMax` | base/hosts.c:1562-1624 | exclusion leaves the hosts whose values are not listed, or returns -1 for a string that is no list of hosts; the result is the number removed |
| `HostFilter.AllowedOnly` | base/hosts.c:1638-1736 | the hosts that are not denied and, if there is an allow list, allowed remain in order; the values of the others are returned |
| `HostFilter.ExcludedByIdentity` | base/hosts.c:1562-1624 | for hosts with proper names, having a listed value is being a listed host |
| `HostFilter.KeptByIdentity` | base/hosts.c:1638-1736 | for hosts with proper names, a host is kept if and only if it is not one of the denied hosts and, if there is an allow list, is one of the allowed hosts |
| `HostFilter.VhostsExclude` | base/hosts.c:1508-1549 | although the walk starts again after every removal, the result is the stable filter of the virtual hosts, with their number |
| `HostFilter.ExcludedNames` | base/hosts.c:1508-1549 | a written list of names with white space around them removes exactly the virtual hosts whose value equals one of them letter by letter, of either case |
| `HostResolve.FromAddressRoundTrip` | base/hosts.c:2344-2375 | the host made for an address has that address, mapped or not |
| `HostResolve.FoundAt` | base/hosts.c:1439-1497 | the i-th host found for a name has the i-th address, as IPv4 exactly if that is a mapped one, and the name as its only virtual host |
| `HostResolve.ResolvedMembers` | base/hosts.c:1439-1497 | the hosts found are exactly those of the addresses of the names in the collection |
| `HostResolve.UnresolvedMembers` | base/hosts.c:1439-1497 | the names returned are exactly those without an address |
| `HostResolve.UnnamedMembers` | base/hosts.c:1439-1497 | the hosts that stay are exactly those that are no names |
| `HostResolve.ResolvedConcat` | base/hosts.c:1439-1497 | the hosts found stand in the order of the names |
| `HostResolve.UnresolvedConcat` | base/hosts.c:1439-1497 | the names without an address are listed in the opposite order |
| `HostResolve.AddFound` | base/hosts.c:1439-1497 | one host with a virtual host is appended for every address of a name |
| `HostResolve.ResolveSlots` | base/hosts.c:1439-1497 | the loop over a growing bound terminates and leaves the other hosts followed by the hosts found, in order |
| `HostResolve.Resolve` | base/hosts.c:1439-1497 | afterwards there is no name, the names without an address are returned, and count + removed + duplicated grows by the number of addresses |
| `Ports.StrtolPrefix` | base/networking.c:600-716 | cutting a string behind its number does not change the number, so the parser reads what the validator checked |
| `Ports.FirstIsPositive` | base/networking.c:513-560 | no accepted interval starts with a negative number |
| `Ports.ValidBodyReading` | base/networking.c:600-716 | from every element the validator accepts, the parser reads an interval of ports, or nothing exactly if it is blank; behind a hyphen there is text, so the assertion holds |
| `Ports.ValidatePortRange` | base/networking.c:459-591 | the result says whether every element of the string passes the checks, and that the string is there and not blank |
| `Ports.PortRangeRanges` | base/networking.c:600-716 | there is a result if and only if the string is accepted, and it is the ranges of its elements |
| `Ports.FilledMeaning` | base/networking.c:600-716 | the ranges belong to the elements that are not blank, in order |
| `Ports.TokenRanges` | base/networking.c:600-716 | every range has 1 <= start <= end <= 65535 and the protocol of the latest type specifier at or before its element, TCP at first |
| `Ports.AcceptedRanges` | base/networking.c:600-716 | every accepted string has one range per element that is not blank, in order, with the bounds 1 <= start <= end <= 65535 that the element reads as and the protocol of the latest type specifier, TCP at first |
| `PortWriting.ElementGrammar` | base/networking.c:513-591 | an element passes the checks if and only if it is one of a grammar: an optional marker with blanks, then nothing, one number, or two with a hyphen of which the first is not above the second, from 1 to 65535, with white space, a plus sign or leading zeros where strtol takes them |
| `PortWriting.AcceptedIsWritten` | base/networking.c:600-716 | every accepted string is made of such elements, and its ranges are the decimal numbers written in them, with equal ends for a single number, and the latest marker written |
| `PortWriting.WrittenIsAccepted` | base/networking.c:600-716 | every string written from such elements, with white space around them and commas and newlines between them, is accepted if and only if it is not blank, and is parsed to the ranges the elements denote |
| `PortWriting.SinglePort` | base/networking.c:700-705 | digits alone are accepted if and only if their number is from 1 to 65535, and are then the one TCP range from that port to itself |
| `PortLists.PortInPortRanges` | base/networking.c:727-744 | a port is found if and only if it is in 0..65536 and a range of the protocol holds it |
| `PortLists.PortArray.Fill` | boreas/util.c:272-305 | the ports of a range are appended |
| `PortLists.PortArray.FillAll` | boreas/util.c:272-305 | the ports of all ranges are appended in order |
| `PortLists.CastUpToHolds` | boreas/util.c:272-305 | for ports, the 16-bit cast changes no value: position i holds start + i |
| `PortLists.PortsOfRange` | boreas/util.c:272-305 | a range contributes nothing if it is excluded, one port if its end is 0, and otherwise start + i at position i |
| `PortLists.FlattenedConcat` | boreas/util.c:272-305 | the ports of earlier ranges come first |
| `PortLists.ArrayAgreesWithRanges` | boreas/util.c:272-305 | for every accepted string, a port is in the array if and only if the membership test finds it for TCP or UDP, and the array is as long as the intervals together |
| `PortLists.WriteThenParse` | base/networking.c:600-716 | every non-empty list of port ranges is denoted by a string: writing it down is accepted and parsed back to the same ranges |
| `Checksum.OnesSumIsResidue` | boreas/util.c:38-69 | adding with end-around carries gives the residue of the plain sum |
| `Checksum.WordValue` | boreas/util.c:38-69 | a word is the number its two bytes denote, in the order of the machine |
| `Checksum.OddByte` | boreas/util.c:38-69 | an odd byte counts like the same byte with a zero byte behind it |
| `Checksum.ExampleOfRfc1071` | boreas/util.c:38-69 | the sum of the example in section 3 of RFC 1071 is 0xddf2 |
| `Checksum.SumBound` | boreas/util.c:38-69 | up to 65537 words the 32-bit accumulator does not overflow |
| `Checksum.SumBoundIsTight` | boreas/util.c:38-69 | 65538 words of all ones overflow it |
| `Checksum.TwoFoldsSuffice` | boreas/util.c:38-69 | two folds of a 32-bit sum give its residue |
| `Checksum.InCksum` | boreas/util.c:38-69 | up to 65537 words the loop returns the complement of the one's complement sum; beyond, what the wrapped accumulator gives |
| `Checksum.ChecksumVerifies` | boreas/util.c:38-69 | with the checksum in its zeroed field, the checksum of the whole is zero |
| `Checksum.ChecksumOfPermutation` | boreas/util.c:38-69 | the order of the words does not matter |
| `Checksum.ChecksumOfSwapped` | boreas/util.c:38-69 | swapping the bytes of every word swaps those of the checksum (section 2 of RFC 1071) |
| `Checksum.SameBytesOnEveryMachine` | boreas/util.c:38-69 | the stored bytes do not depend on the byte order of the machine, also for an odd number of bytes |
| `Checksum.PutChecksum` | boreas/ping.c:202-203 | filling in the field of a packet changes nothing else and makes the checksum zero |
| `KbLists.AddUniqueCount` | util/kb.c:1319-1365 | a unique add leaves every count as it was, but the added value occurs at least once |
| `KbLists.LremLeftmost` | util/kb.c:1319-1365 | the removal takes the leftmost occurrence and leaves the rest in order |
| `KbLists.RunKeepsDistinct` | util/kb.c:1319-1365 | after any run of unique adds a list is duplicate-free if and only if it was before |
| `KbLists.RightAddsKeepLastInsertion` | util/kb.c:1501-1531 | right adds leave the values at their last insertions, and the single-item read returns the newest |
| `KbLists.LastOccurrencesOrder` | util/kb.c:1501-1531 | the order is that of the last insertions |
| `KbLists.NewestIsRead` | util/kb.c:808-832 | the single-item read returns the value added last at the right end, whatever was added at the left end since, and nothing exactly while nothing was ever there |
| `KbLists.OverlappingAdds` | util/kb.c:1319-1365 | over any interleaving of the removals and pushes of any adds, at both ends, a duplicate-free list is duplicate-free again if and only if no two adds of one value overlapped |
| `KbLists.AddsCanOverlap` | util/kb.c:1319-1365 | two overlapping adds leave the value twice |
| `KbLists.ReallocFinishSignal` | boreas/boreas_io.c:267-282 | re-placing the finish signal keeps the hosts in order, and leaves exactly one signal, delivered last, if and only if at most one was present |
| `KbLists.Store.AddStrUnique` | util/kb.c:1319-1365 | removes the leftmost occurrence, pushes at the chosen end, and leaves other keys alone |
| `KbClaims.ClaimsAreExclusive` | util/kb.c:77-98 | over every interleaving no two handles own one database, owned indices are in 1..max-1, the claims are those of the beginning and of the owners, and 0 is never claimed |
| `KbClaims.HandlesAreIsolated` | util/kb.c:466-502 | over every interleaving a handle in use reads exactly what the run has written through it, the last value of every name; its database is empty before it is released; and the management database is not flushed or written |
| `KbClaims.DeletionReleases` | util/kb.c:215-247 | when no handle owns a database any more, the claims are those of the beginning |
| `KbClaims.NoWayBack` | util/kb.c:215-247 | a handle whose deletion has begun is never used again |
| `KbClaims.ReconnectKeepsDatabase` | util/kb.c:311-341 | until its deletion a handle keeps its database over any number of lost connections, whatever the others do |
| `KbClaims.Server.ClaimDatabase` | util/kb.c:163-206 | undisturbed, the loop claims the least free index, or fails if and only if there is none; it is a run of the transition system |
| `Refs.RefsString` | base/nvti.c:769-834 | the loop prints the references of the kind, or of no excluded kind, in order |
| `Refs.ListedText` | base/nvti.c:769-834 | the printed list is "id, id" or "type:id, type:id" |
| `Refs.WrittenExclusions` | base/nvti.c:769-834 | for a written list of excluded kinds with white space around them, a reference is listed if and only if its kind equals the wanted one and none of the excluded ones, letter by letter, of either case |
| `Refs.WrittenItem` | base/nvti.c:1971-2012 | a written item is a reference of the given kind with the given text, or without a kind what stands before and behind its first colon; blank items, and without a kind items without a colon, are nothing |
| `Refs.WrittenIds` | base/nvti.c:1971-2012 | a written list of ids is one reference for each of them, in order, with the given kind and text |
| `Refs.IdsRoundTrip` | base/nvti.c:1971-2012 | a printed list of ids is read back as references of the given kind if and only if no id is empty or has a comma or outer white space |
| `Refs.CommaLost` | base/nvti.c:1971-2012 | an id with a comma does not come back |
| `Refs.KindsRoundTrip` | base/nvti.c:1971-2012 | a printed list of types and ids is read back, without the texts, if and only if no type has a colon and no printed reference a comma or outer white space |
| `Refs.Partition` | util/kb.c:1603-1661 | the CVE, BID and other lists together hold every reference exactly once |
| `Refs.RefsRoundTrip` | util/kb.c:984-1023 | the three lists read back are the stable partition of the references, without texts, if and only if every reference is plain in the sense of its own list |
| `Refs.RestoredAt` | util/kb.c:984-1023 | position by position: where the i-th reference goes, behind all of the classes before its own and those before it in its own, and that its id remains, its kind up to the case of "cve" and "bid", and no text |
| `Refs.RestoredTwice` | util/kb.c:984-1023 | the restored references are a normal form of the round trip |
| `Nvti.TagRoundTrip` | base/nvti.c:986-1012 | for names without equals signs and bars and values without bars, looking up a name gives the value that was added first under it |
| `Nvti.TagFieldAppend` | base/nvti.c:1565-1618 | adding a tag to the field of a list of tags gives the field of the longer list, which is "name=value" with bars between the tags |
| `Nvti.Nvt.AddRefs` | base/nvti.c:1971-2012 | the references of the list are appended, blank items and items without a kind are skipped |
| `Nvti.Nvt.AddTag` | base/nvti.c:1565-1618 | the tag is appended, with time stamps printed as ints while the record keeps them whole, or ignored, or an error is returned |
| `Nvti.Nvt.GetTag` | base/nvti.c:986-1012 | the loop returns the value of the first entry of the name |
| `Nvti.AddNvt` | util/kb.c:1603-1661 | the fourteen fields are appended to the list of the test, its preferences replace the stored ones unless there are none, the file record is appended, and other keys are left alone |
| `Nvti.GetPrefs` | util/nvticache.c:500-526 | the loop reads the entries of the key from the last one on, and fails if and only if an entry has not four fields |
| `Prefs.PrefRoundTrip` | util/nvticache.c:500-526 | a preference comes back from its entry if and only if its name and type have no three bars and no bar at the end, and its default no three bars |
| `Prefs.EntryText` | util/nvticache.c:500-526 | an entry "id|||name|||type|||default" without other bars is read as these four fields |
| `Prefs.FindBarsMeaning` | util/nvticache.c:500-526 | the separator is found if and only if there are three bars in a row |
| `Prefs.PrefsRoundTrip` | util/nvticache.c:500-526 | preferences come back in the opposite order if and only if all of them are of that kind |
| `Nvti.GetNvtAll` | util/kb.c:984-1023 | a test is returned if and only if the list has fourteen fields, and it has the values of the first fourteen |
| `Nvti.FieldsRoundTrip` | util/kb.c:984-1023 | the fourteen fields of a test give back every scalar field, absent and empty identified, and the stable partition of the references without texts, if and only if the references are plain |
| `Nvti.StoreThenLoad` | util/kb.c:1603-1661 | a test stored under a fresh key and loaded has the OID, name, family and category it had, each of its seven optional fields if it was there and not empty and none otherwise, and its references, each at its place by class and without text, if and only if they are plain; its preferences, if any, come back reversed if and only if they are clean |
| `Nvti.ScalarsRoundTrip` | util/kb.c:984-1023 | field by field, what of the scalar fields comes back whatever the references are |
| `Nvti.GetNvt` | util/kb.c:952-974 | a position below 14 gives that field of the test, 14 and above the time and OID of a file |
| `Nvti.StoreThenGet` | util/kb.c:1603-1661 | every field of a stored test is found at its position, from 0 for the file name to 13 for the name, and the time and the OID of its file at 14 and 15 |
| `Nvti.RestoredInfoTwice` | util/kb.c:984-1023 | a second round trip changes nothing |
| `Nvti.StoreOverOld` | util/kb.c:1603-1661 | whatever the key held, the old fields and then the first fields of the new test are loaded: the old test if there were fourteen, otherwise a test whose name is another field of the new one |
| `Cvss.RoundUpIsLeastTenth` | base/cvss.c:420-438 | the result is the least tenth not below the score rounded to five decimals, if and only if that is no negative number between two tenths |
| `Cvss.TrimIsNearest` | base/cvss.c:420-438 | the trimmed score is the nearest whole number of hundred-thousandths |
| `Cvss.RoundUpOfNegative` | base/cvss.c:420-438 | -0.05 is rounded to 0.1, which is not the next tenth |
| `Cvss.RoundUpMonotone` | base/cvss.c:420-438 | rounding up is monotone on scores |
| `Cvss.RoundUpTwice` | base/cvss.c:420-438 | rounding up is idempotent on scores |
| `Cvss.ScoreFromBaseMetrics` | base/cvss.c:448-605 | the loop over the components and the equations compute the score of what the vector says of each metric |
| `Cvss.ScoreRange` | base/cvss.c:466-605 | every vector scores -1, exactly if a metric is missing, or k/10 with 0 <= k <= 100 |
| `Cvss.ScoreOfPermutation` | base/cvss.c:500-567 | permuting the components does not change the score if every metric is named at most once |
| `Cvss.ScoreZero` | base/cvss.c:576-590 | a complete vector scores 0 if and only if it has no impact |
| `Cvss.ScoreMonotone` | base/cvss.c:569-605 | a vector that is nowhere less severe, in its scope or any other metric, never scores lower, although the impact formula of a changed scope is not increasing |
| `Cvss.VectorMonotone` | base/cvss.c:466-605 | the same for the scores of two vector strings that name every metric |
| `CvssVectors.RepeatedParts` | base/cvss.c:500-567 | in a vector of written components, in any order and any number, a metric has the weight of the last component that names it with a known value, where an unknown impact or privilege takes the weight away and unknown values of the others are skipped |
| `CvssVectors.ReadFromParts` | base/cvss.c:500-567 | with every metric named at most once, a metric has the weight of its written value, and none if that is unknown or missing |
| `CvssVectors.FullVector` | base/cvss.c:466-605 | the score of a vector written in full is that of the weights of its eight letters |
| `CvssVectors.LetterWeights` | base/cvss.c:448-567 | the weight of every letter, as in section 7.4 of the CVSS v3.1 specification |
| `CvssVectors.EitherCase` | base/cvss.c:500-567 | letters of either case have the same weight |
| `CvssVectors.WorseWeighsMore` | base/cvss.c:500-567 | a more severe letter weighs more |
| `CvssVectors.KnownScores` | base/cvss.c:466-605 | the scores of fourteen vectors written in full, for both scopes |

## Left out

- Sockets, packet capture and construction, sleeping and throttling in Boreas; the shared values the pinging thread reads are parameters of `BoreasReports.ScanIcmp` and steps of `Boreas`.
- Failures in alive detection: a push of a host to the queue succeeds, and the threads end as the normal course has it. Whether the push of the finish signal works, and whether an entry is a host, are parameters.
- Combining the consider-alive method with probing methods, which counts hosts twice (boreas/alivedetection.c:222-232).
- inet_pton, inet_ntop, the host name test and the name service: a codec and a resolver are parameters. `Dedup.Injective` says what printed addresses have in common with real ones, `HostWriting.Standard` which characters addresses and host names can have, and `HostWriting.ReadsPrinted` that printed addresses are read back.
- HostBuild.NewWithMax: excludes two kinds of elements, where the elements before them do not already make the code give up: a range without an end when there is no limit, where the loop does not end (`HostBuild.RangeLoopEnds`), and a block whose prefix length is read as 0, for which C defines no result (`HostText.UndefinedText`). The original string is not kept.
- HostWriting.NewFromText: a block is written with a prefix length of at most two digits, three for IPv6, since more are not all read (`HostText.PrefixLengthReadsAgree`); and without a limit no range may go to the last address, as for `HostBuild.NewWithMax`.
- HostList.Hosts.Deduplicate: hosts are values in slots; that a host is an object shared with the hash table, and freeing, are not captured.
- HostFilter.AllowedOnly: requires a given list to list at least one host, since the code goes on using an empty list that it has freed (base/hosts.c:1659-1675).
- Address.ShortRange6Last: the last two bytes are replaced as on a little-endian machine, where the code exchanges them.
- Address.Cidr4BlockIps: the shift of 1 by 31 bits is taken as 2^31.
- Ordering, shuffling and moving hosts, reverse lookup of hosts, and accessors.
- KbClaims.ClaimsAreExclusive: handles from kb_find and kb_direct_conn, kb_flush, handles shared by a fork, and failed connections or commands in the middle of an operation are not steps; databases are claimed only by kb_new and by the clean-up of a failed kb_new.
- KbLists.Store.AddStrUnique: replies and retries of Redis, key expiry and integer items are not modelled.
- Nvti.AddNvt: the time of the file record is a parameter, and strings are not null.
- Nvti.GetPrefs: the key is not cut to 4095 characters.
- Nvti.Nvt.AddTag: the parser of time stamps is a parameter, and null strings are empty ones.
- Cvss.ScoreFromBaseMetrics: computes over the reals; rounding of doubles is not captured. The v2 score is not modelled.
- Counters are unbounded integers, except in the checksum, the 32-bit addresses, the casts to ports and ints, and strtol.
- The client protocols, file, process and authentication utilities of the repository, which are wrappers around other systems.
