# Verified models of qyutil's protocol and buffer code

This project models, in Dafny, the stateful core of the repository and proves what that code is
for. It covers five areas.

- **DNS messages** (`src/dnsquery/dnsquery.cpp`): writing the query for a host, reading names that
  may be compressed, walking the answer section, collecting the IPv4 addresses. The reference is
  `DnsName.Decode`, a label-wise decoder of names as section 4.1.4 of RFC 1035 describes them; the
  program's byte-by-byte loops are proved against it, and the codec is closed end to end: the
  response a server gives to the query for a host hands back exactly the addresses it carries.
- **Asio's buffers** (`common/asio/include/asio`): the iterator over a list of chunks is an index
  into the flat view; all scatter/gather copies meet one specification; `basic_streambuf` and the
  dynamic buffers refine one bounded byte queue over runs of calls in any order, and so agree; the socket stream
  buffer loses and repeats nothing as long as its flushes succeed.
- **The worker pool** (`include/qyutil.h`): a step system of any number of workers and submitters,
  with spurious wakeups; safety and progress over all interleavings.
- **The command line parser** (`common/cmdline.h`): a quoting tokenizer with its round trip, and
  the argument loop with the
  rewritings that preserve its outcome and the exact condition for success.
- **The Internet checksum** (`common/net_common/icmp_header.hpp`): 32-bit accumulation and two
  folds, with the exact condition under which the packet verifies (section 1 of RFC 1071).

Code that updates state is modelled by classes and by methods with loops, in the order of the
source's steps. Each such method is proved against a specification (a function or a predicate on
values), and the lemmas state what that specification means. Modules are named after the component:

| modules | component |
|---|---|
| `DnsName`, `DnsReader`, `DnsAnswers`, `DnsQuery`, `DnsResponse` | DNS names, reading them, answers, queries, a whole lookup |
| `BufferMemory`, `BufferCopy`, `BuffersIterator` | buffers as address ranges in one memory, copies, the iterator |
| `ByteQueue`, `StreamBuf`, `DynamicBuffer`, `BufferRuns` | the byte queue and its two implementations |
| `SocketStreambuf` | the put side of the socket stream buffer |
| `TaskQueue` | the worker pool |
| `Tokenizer`, `CommandLine`, `Clusters`, `GivenOptions`, `GivenValues` | the command line parser, clusters of short options, which options are given, what a parse leaves behind |
| `IcmpChecksum` | the ICMP header and its checksum |
| `Bytes` | bytes, 16-bit words, options |

## Where the code does not do what one would expect

Each of these keeps the code as it is and states exactly when the expectation is met.

- A flush of the socket stream buffer that fails half way keeps everything pending, so a retry
  sends the first part again. Bytes are conserved after a failed flush if and only if the network
  lets nothing through before it fails (`SocketStreambuf.SocketStreambuf.Overflow`, and
  `SocketStreambuf.Run` for whole runs); `SocketStreambuf.Retry` says what a retry sends, and
  `SocketStreambuf.RetryRepeats` is a script on which it sends a byte twice.
- `ReadName` sizes its block by the octets it counts, and does not count behind a pointer. It stays
  inside the block if and only if the name fits what was counted (`DnsReader.ReadName`); every name
  within the limits of RFC 1035 does (`DnsReader.BufferSuffices`), a longer one behind a lone
  pointer does not (`DnsReader.LonePointerFitsIff`, `DnsReader.LongName`).
- The checksum of a very long packet can be wrong, because the 32-bit sum wraps:
  `IcmpChecksum.StoredVerifiesIff` gives the condition, `IcmpChecksum.NeverWraps` the bound of
  131068 body bytes, `IcmpChecksum.BoundIsTight` a packet one byte longer that fails.
- The tokenizer drops a last argument that is empty, so its round trip holds if and only if there
  is none (`Tokenizer.RoundTripIff`).
- `--name=value` and `--name` `value` agree if and only if the option takes a value
  (`CommandLine.ValueFormsIff`); a cluster and its letters one by one agree if and only if no
  letter but the last takes a value (`Clusters.ClusterFormsIff`).
- `strlen(qname) + 1` is the size of the encoded name if and only if no label is empty or a
  multiple of 256 long (`DnsQuery.QnameLengthIff`); a server can decode the name if and only if its
  labels have 1 to 63 bytes (`DnsQuery.EncodedDecodesIff`).
- A second `commit` after one `prepare` finds the rest of the put area in a `basic_streambuf` and
  nothing in a dynamic buffer: the two agree if and only if it is of no bytes or there is no rest
  (`BufferRuns.SecondCommit`). Their equivalence (`BufferRuns.SameRuns`) asks for one `prepare` and
  filled bytes for each `commit`.
- A task's second function runs if and only if the task has both (`TaskQueue.FinishedIff`).

## Model

| member | source | states |
|---|---|---|
| DnsReader.ReadName | src/dnsquery/dnsquery.cpp:291-355 | For every decodable name of text labels, compressed or not: the loop ends and stays inside its growing block if and only if the name fits; then the result is the dotted join of the labels RFC 1035's decoder gives, and the count is the octets the name occupies in place |
| DnsReader.CopyOctets | src/dnsquery/dnsquery.cpp:309-339 | The reading loop leaves the length octets and labels of the whole name in the block, whatever the pointers, and counts up to the first pointer only; an octet falls outside the block if and only if the name does not fit |
| DnsReader.GrowIfFull | src/dnsquery/dnsquery.cpp:321-334 | The block grows by 64 exactly when the count has reached its size, and keeps its front |
| DnsReader.ToDotted | src/dnsquery/dnsquery.cpp:341-353 | The in-place conversion turns length-prefixed labels into the dotted join |
| DnsReader.ShiftLabel | src/dnsquery/dnsquery.cpp:343-350 | One label moves one place to the front, a dot ends it, and nothing else changes |
| DnsReader.BufferSuffices | src/dnsquery/dnsquery.cpp:294-334 | Every name within 255 octets (section 2.3.4 of RFC 1035), and every uncompressed name of any size, fits the block although counting stops at a pointer |
| DnsReader.LonePointerFitsIff | src/dnsquery/dnsquery.cpp:309-334 | Wherever a name stands in a message, a lone pointer to it behind that, with anything following, is read inside the block if and only if the name and its zero have at most 256 octets |
| DnsReader.LongName | src/dnsquery/dnsquery.cpp:309-334 | Behind any header there are longer names with labels within the limits, so the exact condition does fail |
| DnsReader.Step | src/dnsquery/dnsquery.cpp:309-319 | One iteration keeps the reader in step with the decoder: octets copied, octets unread and labels remaining spell the same name, and a pointer goes strictly backwards |
| DnsReader.BothFormsReadable | src/dnsquery/dnsquery.cpp:309-339 | In any message, a name within 255 octets and its form with a pointer to an earlier copy of a suffix are both read inside the block, have the same labels, and the second takes the octets of its own labels plus 2 |
| DnsReader.ReadBothForms | src/dnsquery/dnsquery.cpp:291-355 | Reading these two messages gives the same text, the one their labels join to, and these two counts |
| DnsName.CompressionPreservesMeaning | src/dnsquery/dnsquery.cpp:309-339 | Replacing a suffix by a pointer to an earlier copy, itself compressed or not, leaves the decoded labels alone and makes the size in place that of the front plus 2 |
| DnsName.DecodeExtends | src/dnsquery/dnsquery.cpp:309-319 | A decoded name does not depend on what follows it in the message |
| DnsName.PointerIs | src/dnsquery/dnsquery.cpp:310-312 | A pointer is two one bits and the offset in 14 bits, and the program's arithmetic on its two octets gives the offset back |
| DnsName.JoinConcat | src/dnsquery/dnsquery.cpp:341-353 | In the dotted text octet 46 stands between labels and nowhere else |
| DnsName.SplitJoin | src/dnsquery/dnsquery.cpp:358-376 | Splitting a joined host gives its labels back |
| DnsName.JoinSplit | src/dnsquery/dnsquery.cpp:358-376 | Joining the labels of any host gives the host back, and their wire size is one more than its length |
| DnsAnswers.ReadRecvAnswer | src/dnsquery/dnsquery.cpp:259-289 | On a well-formed section the cursor is at every record boundary given by RDLENGTH, ends behind the last of the first 20 records, and every entry holds its record; the other entries are untouched |
| DnsAnswers.ReadRecord | src/dnsquery/dnsquery.cpp:265-287 | One record: owner text, fixed part, RDATA copy or name, and the cursor at the next boundary |
| DnsAnswers.CopyRdata | src/dnsquery/dnsquery.cpp:272-282 | The copy of an address record's RDATA is these bytes and a zero |
| DnsAnswers.CollectAddresses | src/dnsquery/dnsquery.cpp:211-223 | The list is exactly the addresses of the A records, in order, whatever stands between them; each value is that of the four octets as a dotted quad, the first most significant |
| DnsAnswers.HandleResponse | src/dnsquery/dnsquery.cpp:206-231 | From message to list: the A addresses among the first 20 records; the call fails exactly when there is none |
| DnsQuery.ChangetoDnsNameFormat | src/dnsquery/dnsquery.cpp:358-376 | Writes the length-prefixed labels of any host, and a zero, in its place and changes nothing else |
| DnsQuery.EncodedIs | src/dnsquery/dnsquery.cpp:363-375 | What is written for a host, part by part: each part between dots has its length in front, and a zero ends it |
| DnsQuery.EncodedDecodesIff | src/dnsquery/dnsquery.cpp:358-376 | The encoded host decodes to its labels if and only if every label has 1 to 63 bytes |
| DnsQuery.QnameLengthIff | src/dnsquery/dnsquery.cpp:399-399 | The string length plus 1 by which question and answers are found is the size of the encoded name if and only if no label length is a multiple of 256 |
| DnsQuery.PrepareDnsQueryPacket | src/dnsquery/dnsquery.cpp:378-403 | The packet is the header, the name up to its first zero, and the question for an address of class IN |
| DnsQuery.QueryParses | src/dnsquery/dnsquery.cpp:378-403 | By section 4.1 of RFC 1035 the packet is a standard query with recursion desired and no other flag, holds one question and no records, for the labels of the host, type A, class IN, and ends there; the identifier stands low octet first |
| DnsQuery.HostRoundTrip | src/dnsquery/dnsquery.cpp:186-187 | In the packet of a query the name is readable, its labels join to the host it was written for, and its octets in place are the string length plus 1 the caller skips to find the answers |
| DnsQuery.ReadBack | src/dnsquery/dnsquery.cpp:378-403 | Preparing the packet in a buffer leaves exactly that packet there, and reading it at the name gives the host back |
| DnsResponse.ResponseAddresses | src/dnsquery/dnsquery.cpp:206-223 | A response that echoes the question and compresses every owner against it is a section the source can walk over, and the values from its records are those of the dotted quads put in, in order, the first 20 of a longer answer |
| DnsResponse.LookupRoundTrip | src/dnsquery/dnsquery.cpp:206-231 | Handling that response hands back the values of exactly these quads, first octet most significant, and succeeds unless there is none |
| DnsResponse.Boundaries | src/dnsquery/dnsquery.cpp:264-288 | In such a response record number i starts 16 octets per record behind the question, is an A record owned by the host, and carries address number i |
| BuffersIterator.BuffersIterator.Begin | common/asio/include/asio/buffers_iterator.hpp:167-184 | The first byte past any empty chunks, at flat index 0 |
| BuffersIterator.BuffersIterator.End | common/asio/include/asio/buffers_iterator.hpp:187-203 | The flat index of the end is the total size |
| BuffersIterator.BuffersIterator.DereferenceIsFlat | common/asio/include/asio/buffers_iterator.hpp:341-345 | The byte referred to is the concatenation of the chunks at the flat index |
| BuffersIterator.BuffersIterator.EqualIsSound | common/asio/include/asio/buffers_iterator.hpp:348-351 | Comparing flat indices is comparing chunk and offset: equal if and only if the coordinates are, and then the same byte |
| BuffersIterator.SpotIsLocate | common/asio/include/asio/buffers_iterator.hpp:354-404 | The flat index alone determines chunk and offset |
| BuffersIterator.LocateIsSpot | common/asio/include/asio/buffers_iterator.hpp:354-404 | Every flat index up to the end has a chunk and an offset |
| BuffersIterator.BuffersIterator.Increment | common/asio/include/asio/buffers_iterator.hpp:354-374 | One flat index on, across any number of empty chunks |
| BuffersIterator.BuffersIterator.Decrement | common/asio/include/asio/buffers_iterator.hpp:377-404 | One flat index back; the search backwards never runs out of chunks |
| BuffersIterator.BuffersIterator.Advance | common/asio/include/asio/buffers_iterator.hpp:407-485 | Ends for every in-bounds distance, at the coordinates of the flat index reached |
| BuffersIterator.BuffersIterator.AdvanceTo | common/asio/include/asio/buffers_iterator.hpp:488-491 | Advancing by the distance to another iterator over the same buffers makes the two equal in index, chunk, offset and byte |
| BuffersIterator.BuffersIterator.AdvanceForward | common/asio/include/asio/buffers_iterator.hpp:409-441 | The forward loop reaches the index exactly, never running past the last chunk with distance left |
| BuffersIterator.BuffersIterator.AdvanceBackward | common/asio/include/asio/buffers_iterator.hpp:442-484 | The backward loop reaches the index exactly and never starts a search at the first chunk |
| BuffersIterator.BuffersIterator.FindNonEmptyBefore | common/asio/include/asio/buffers_iterator.hpp:468-482 | The search backwards always finds a non-empty chunk, the one that ends where the current chunk starts |
| BuffersIterator.Run | common/asio/include/asio/buffers_iterator.hpp:354-485 | Any in-bounds run of the four moves lands where one move by the net distance lands, in index, chunk and offset |
| BufferMemory.Buffer.Plus | common/asio/include/asio/buffer.hpp:138-144 | The buffer holds exactly its addresses from offset n on, and ends where it did |
| BufferMemory.Buffer.UpTo | common/asio/include/asio/buffer.hpp:871-881 | The buffer holds exactly its first addresses up to the maximum |
| BufferMemory.FlattenWrite | common/asio/include/asio/buffer.hpp:1880-1890 | A write into one chunk replaces exactly those bytes of the concatenation of pairwise disjoint chunks |
| BufferCopy.BufferCopy1 | common/asio/include/asio/buffer.hpp:1880-1890 | Moves the smaller of the two sizes and changes nothing outside |
| BufferCopy.CopyStep | common/asio/include/asio/buffer.hpp:1968-1994 | One block move between the current chunks extends a copied prefix of the flat source by its size |
| BufferCopy.CopyChunk | common/asio/include/asio/buffer.hpp:2010-2042 | The loop body copies what the two chunks have in common, and both walks stay at the number of bytes copied |
| BufferCopy.CopyOneOne | common/asio/include/asio/buffer.hpp:1892-1908 | As CopyMultiMultiUpTo, one target and one source |
| BufferCopy.CopyOneMulti | common/asio/include/asio/buffer.hpp:1910-1931 | As CopyMultiMultiUpTo, one target and many sources |
| BufferCopy.CopyMultiOne | common/asio/include/asio/buffer.hpp:1933-1954 | As CopyMultiMultiUpTo, many targets and one source |
| BufferCopy.CopyMultiMulti | common/asio/include/asio/buffer.hpp:1956-1998 | Ends, returns the smaller total; the flat target is that prefix of the flat source and its old suffix; sources and all other memory keep their bytes |
| BufferCopy.CopyMultiMultiUpTo | common/asio/include/asio/buffer.hpp:2000-2046 | The same with a maximum, which the number of bytes never exceeds |
| ByteQueue.Conservation | common/asio/include/asio/basic_streambuf.hpp:214-254 | At any time of any run, calls in any order, what has left followed by what is there is what was there followed by what has been committed or put: in order, nothing lost, nothing twice |
| ByteQueue.WithinMax | common/asio/include/asio/basic_streambuf.hpp:137-140 | Contents and prepared bytes together never exceed the maximum, at any step of any run |
| ByteQueue.Instalments | common/asio/include/asio/basic_streambuf.hpp:233-254 | Prepared bytes committed in any number of instalments, with any bytes consumed in between, enter exactly once and in order |
| ByteQueue.RunsAgree | common/asio/include/asio/buffer.hpp:1592-1635 | A buffer that keeps uncommitted bytes and one that discards them show the same contents after every step, and refuse at the same step, on every script whose commits each have their own prepare and filled bytes |
| StreamBuf.StreamBuf.constructor | common/asio/include/asio/basic_streambuf.hpp:131-141 | Empty, with pointers in order and the put area within the maximum |
| StreamBuf.StreamBuf.Reserve | common/asio/include/asio/basic_streambuf.hpp:308-346 | Throws exactly when size plus n exceeds the maximum; else room for n and the same contents after any shift or growth; on a throw the pointers stay and the contents have been moved to the front |
| StreamBuf.StreamBuf.Prepare | common/asio/include/asio/basic_streambuf.hpp:214-219 | Throws exactly when size plus n exceeds the maximum; else a region of n bytes behind unchanged contents |
| StreamBuf.StreamBuf.Commit | common/asio/include/asio/basic_streambuf.hpp:233-238 | The front of the put area joins the contents, at most all of it |
| StreamBuf.StreamBuf.Consume | common/asio/include/asio/basic_streambuf.hpp:247-254 | The first n bytes leave, or all, even with a get area that lags behind |
| StreamBuf.StreamBuf.Underflow | common/asio/include/asio/basic_streambuf.hpp:263-274 | The front byte, end of file exactly when there is none |
| StreamBuf.StreamBuf.Overflow | common/asio/include/asio/basic_streambuf.hpp:283-306 | A character is appended; it throws exactly when the queue is full |
| BufferRuns.StreamRun | common/asio/include/asio/basic_streambuf.hpp:214-346 | Every run of prepare, filling, commit, consume, overflow and underflow, in any order, does at each step what the byte queue does and stops exactly where the queue refuses; the buffer ends in the last state shown |
| DynamicBuffer.DynamicBuffer.Prepare | common/asio/include/asio/buffer.hpp:1592-1603 | Throws exactly when size plus n exceeds the maximum, and then changes nothing |
| DynamicBuffer.DynamicBuffer.Commit | common/asio/include/asio/buffer.hpp:1617-1621 | The front of the prepared bytes joins the contents and the rest is discarded |
| DynamicBuffer.DynamicBuffer.Consume | common/asio/include/asio/buffer.hpp:1630-1635 | The first n bytes leave, or all |
| BufferRuns.DynamicRun | common/asio/include/asio/buffer.hpp:1743-1786 | Every run of prepare, filling, commit and consume on a dynamic buffer, in any order, is one of the byte queue with uncommitted bytes discarded, and stops exactly where the queue refuses; the buffer ends in the last state shown |
| BufferRuns.SameRuns | common/asio/include/asio/buffer.hpp:1592-1635 | From equal contents and maximum, both buffers driven by such a script go through runs of the queue with the same contents after every step, refuse at the same step, and end with the same contents |
| BufferRuns.SecondCommit | common/asio/include/asio/basic_streambuf.hpp:233-238 | From any equal contents, after one prepare, filled data and two commits, the two buffers have equal contents if and only if the second commit is of no bytes or the data fills the put area; how many bytes more the stream buffer has otherwise |
| BufferRuns.FreshSecondCommit | common/asio/include/asio/basic_streambuf.hpp:131-141 | On fresh buffers: if and only if the second commit is of no bytes or the data is as long as the larger of the prepared size and the initial put area |
| SocketStreambuf.SocketStreambuf.constructor | common/asio/include/asio/basic_socket_streambuf.hpp:582-592 | A new buffer is buffered and has nothing pending |
| SocketStreambuf.SocketStreambuf.Flush | common/asio/include/asio/basic_socket_streambuf.hpp:506-539 | Whatever the partial sends and blocked rounds, exactly as many bytes of the output are sent, in order, as the network would take up to its first round that does not proceed, so it succeeds if and only if that is at least all |
| SocketStreambuf.ReachIs | common/asio/include/asio/basic_socket_streambuf.hpp:506-539 | The bytes a flush gets through are the smaller of its output and the sum of what the sends up to the first round that does not proceed take |
| SocketStreambuf.RoundsEnd | common/asio/include/asio/basic_socket_streambuf.hpp:506-539 | A flush uses no more rounds of the network script than it needs, and none behind one that does not proceed |
| SocketStreambuf.SocketStreambuf.Overflow | common/asio/include/asio/basic_socket_streambuf.hpp:484-556 | It succeeds if and only if the network takes what is to be flushed. On success sent and pending bytes together have grown by exactly the character; on failure nothing pending is dropped, what the network took has been sent all the same, and bytes are conserved if and only if that is nothing |
| SocketStreambuf.NothingSentIff | common/asio/include/asio/basic_socket_streambuf.hpp:506-539 | A flush gets nothing through if and only if there is nothing to send or its first round that is not a wait is not a send |
| SocketStreambuf.SocketStreambuf.Sputc | common/asio/include/asio/basic_socket_streambuf.hpp:550-552 | With room in the put area the network is not involved; otherwise success and what is sent are decided by the network script, as for Overflow |
| SocketStreambuf.SocketStreambuf.Sync | common/asio/include/asio/basic_socket_streambuf.hpp:558-561 | On success nothing is pending and everything that was has been sent |
| SocketStreambuf.SocketStreambuf.SetBuf | common/asio/include/asio/basic_socket_streambuf.hpp:563-574 | Accepted exactly for no buffer with nothing pending, and then unbuffered; never touches a byte |
| SocketStreambuf.Run | common/asio/include/asio/basic_socket_streambuf.hpp:484-574 | A run makes its calls up to the first one that has more to flush than the network takes. Up to there bytes sent followed by bytes pending are the bytes written; the failed call has sent in addition exactly the pending bytes the network took, so bytes are conserved after it if and only if that is none |
| SocketStreambuf.FirstFailureUnique | common/asio/include/asio/basic_socket_streambuf.hpp:506-539 | The network script determines which call that is |
| SocketStreambuf.Retry | common/asio/include/asio/basic_socket_streambuf.hpp:506-539 | For any stream and script, a flush that fails and is retried with success has sent what the first attempt sent twice, and every byte once if and only if the first attempt sent nothing |
| SocketStreambuf.RetryRepeats | common/asio/include/asio/basic_socket_streambuf.hpp:506-539 | A script on which two pending bytes meet that case |
| TaskQueue.AskedIsSubmitted | include/qyutil.h:69-74 | Over any run the tasks taken in, with the one about to be pushed, are the tasks handed to put_task, in the order the calls got the mutex: none is forgotten and none counts twice |
| TaskQueue.Safety | include/qyutil.h:48-74 | In every reachable state of any number of workers: the mutex excludes; popped tasks, the queue and a call about to push make up the tasks put, in order; nobody sleeps beside a task unless its notification is due; a pop finds a task; each task runs at most once, its second function after its first and on the same worker |
| TaskQueue.NoLostWakeupKept | include/qyutil.h:53-59 | Every step, spurious wakeups included, keeps the no-lost-wakeup invariant |
| TaskQueue.LoggedKept | include/qyutil.h:58-66 | Every step keeps the log of executed functions equal to what the workers' positions say |
| TaskQueue.InvAlways | include/qyutil.h:48-74 | Every interleaving keeps the whole invariant |
| TaskQueue.NeverStranded | include/qyutil.h:48-74 | While the queue is not empty a thread at work can take a step, without a new submission or a spurious wakeup |
| TaskQueue.QuietIsDone | include/qyutil.h:48-74 | When no thread at work can step, the mutex is free, all workers sleep, the queue is empty and every task put has been run to its end |
| TaskQueue.FinishedIff | include/qyutil.h:58-66 | Then the first function of a task put has run if and only if it has one, its second if and only if it has both, on the worker that popped it and on no other |
| TaskQueue.WorkShrinks | include/qyutil.h:48-74 | Every step but a submission or a spurious wakeup lowers the work at hand |
| TaskQueue.WorkBoundsRun | include/qyutil.h:48-74 | So any run is no longer than the work at hand and the work that comes in: 5 steps for a spurious wakeup, 4 for each worker and 12 for a submission |
| TaskQueue.Drains | include/qyutil.h:48-74 | From any reachable state a run that goes on until no thread at work can step, with any submissions and spurious wakeups on the way, ends within that bound with every task put before or on the way run |
| TaskQueue.OneWorkerInOrder | include/qyutil.h:58-66 | With one worker the whole log is a prefix of running the tasks put one after the other, in the order their calls got the mutex |
| Tokenizer.Split | common/cmdline.h:372-406 | The loop computes the recursive scan |
| Tokenizer.PiecesAre | common/cmdline.h:378-401 | A text that splits gives its pieces: it is cut at the spaces that are neither escaped nor behind an odd number of quotes, quotes and backslashes that are not escaped are left out, everything else is kept, and an empty last piece is dropped |
| Tokenizer.JoinIsSplit | common/cmdline.h:372-406 | Any list of strings, each escaped or in quotes with quotes and backslashes escaped, joined by spaces, is undone by splitting, but for an empty last string |
| Tokenizer.RoundTripIff | common/cmdline.h:400-401 | The round trip is exact if and only if the last string is not empty |
| Tokenizer.ScanQuoted | common/cmdline.h:378-387 | Between quotes everything but a quote and a backslash is taken as it is, spaces included |
| Tokenizer.ScanQuotedPart | common/cmdline.h:378-394 | A part in quotes behind a part without them makes one token, escapes inside the quotes included |
| Tokenizer.FailsExactly | common/cmdline.h:389-398 | The split fails exactly on a text that ends in an odd run of backslashes, or else on an odd number of unescaped quotes |
| CommandLine.Parser.Parse | common/cmdline.h:424-523 | The whole parse on the parser's fields is the function Parsed of the options and the arguments, whatever the fields held before; the program name is set once |
| CommandLine.Parser.ParseText | common/cmdline.h:372-422 | The text that joins an argument list with a non-empty last one, each argument escaped or in quotes, parses as that list; a text that does not split adds one error and changes nothing else |
| CommandLine.Parser.BuildLookup | common/cmdline.h:435-448 | The table of short names, or the early return |
| CommandLine.LookupIs | common/cmdline.h:435-448 | The table is refused exactly when two options share a short name; otherwise it maps exactly the short names to their options, so no letter is ever ambiguous later |
| CommandLine.Parser.ParseLong | common/cmdline.h:451-478 | One long option, with the arguments it uses |
| CommandLine.Parser.ParseShort | common/cmdline.h:479-511 | One cluster, letter by letter, with the arguments it uses |
| CommandLine.Parser.ParseRounds | common/cmdline.h:450-515 | The argument loop is the fold of its rounds |
| GivenOptions.FlagGiven | common/cmdline.h:599-608 | A flag given by its name, or by any letter of a cluster, is set after the parse, whatever stands around it |
| GivenOptions.GivenIff | common/cmdline.h:599-619 | After a parse an option is set if and only if it was before or some argument gives it, by name or letter, with a value its reader accepts if it takes one |
| GivenOptions.LoopEffect | common/cmdline.h:450-515 | The loop changes an option only if an argument gives it, never takes back what was set, and reports nothing if and only if every round is clean |
| CommandLine.Parser.SetOptionTo | common/cmdline.h:610-619 | The new state of all options and errors when an option is given a value, accepted or rejected by its reader |
| CommandLine.Parser.ReportMissing | common/cmdline.h:517-520 | One error for each required option that was not given, in order |
| CommandLine.MissingIff | common/cmdline.h:517-520 | None is reported if and only if every required option was given |
| GivenValues.MissingConcat | common/cmdline.h:517-520 | The closing reports for a list of options are those for its parts, one after the other |
| GivenValues.MissingOne | common/cmdline.h:517-520 | An option has one such report if and only if it needs a value and has none |
| GivenOptions.ParseSucceedsIff | common/cmdline.h:424-523 | A parse succeeds if and only if there are arguments, no two options share a short name, every argument is an option that is defined, with an accepted value exactly where one is due, or no option, and every required option was set before or is given |
| CommandLine.RoundsSplit | common/cmdline.h:450-515 | Cut between two options, a list of arguments can be parsed in two parts |
| CommandLine.ValueFormsAgree | common/cmdline.h:451-478 | A value attached by an equals sign can be given as the next argument, between any other arguments: same options, rest, errors, result |
| CommandLine.ValueFormsIff | common/cmdline.h:451-478 | The two forms have the same outcome for every value if and only if the option is defined and takes a value |
| CommandLine.LongFormsDiffer | common/cmdline.h:451-478 | For every other name the attached empty value never reaches the rest, and the separate one always does |
| CommandLine.ClusterFormsAgree | common/cmdline.h:479-511 | A cluster can be given as single letters if only its last may take a value: same options, rest, errors, result |
| Clusters.ClusterIff | common/cmdline.h:479-511 | From any state of the loop, at the end of the arguments, a cluster and its letters do the same if and only if no letter but the last takes a value |
| Clusters.ClusterFormsIff | common/cmdline.h:479-511 | In a whole parse, behind any arguments, a cluster can be given as single letters whatever follows if and only if no letter but the last takes a value |
| GivenValues.RestIs | common/cmdline.h:512-514 | The rest is exactly the arguments without a dash in front that are no values, in order |
| GivenValues.LoneDash | common/cmdline.h:480-480 | A lone dash changes nothing |
| CommandLine.PlainArguments | common/cmdline.h:512-514 | Arguments without a dash are the rest, in order, and change nothing else |
| GivenOptions.LastValueIsRead | common/cmdline.h:610-619 | The last value given is what the option holds after the parse if its reader accepts it, whatever came before and whatever else follows; a rejected one is reported and leaves the option alone |
| GivenValues.LoopHolds | common/cmdline.h:450-515 | After the loop an option with a value holds what its reader makes of the last accepted value given, by any form, and what it held before if none was |
| GivenValues.ParseHolds | common/cmdline.h:424-523 | The same after a whole parse |
| GivenValues.ValueGiven | common/cmdline.h:451-511 | A value attached to the name, behind the name, or behind a cluster that ends in the option's letter, is what the option holds after the parse, whatever came before and whatever follows that gives no other |
| GivenValues.LongReports | common/cmdline.h:451-478 | The reports for a long option that is undefined, takes no value, lacks one or has it rejected, one each, after which parsing goes on |
| GivenValues.ShortReports | common/cmdline.h:495-511 | The reports for a short option that is undefined or lacks its value |
| GivenValues.EarlyReports | common/cmdline.h:428-448 | The reports for no arguments at all and for a shared short name, which is one that two options have |
| CommandLine.GivenValueIsRead | common/cmdline.h:610-619 | If only arguments without a dash follow, no other option changes and these arguments are added to the rest |
| IcmpChecksum.ComputeChecksum | common/net_common/icmp_header.hpp:75-93 | Only the checksum bytes change, and the packet then verifies if and only if its sum wrapped a multiple of 65535 times; always for up to 131068 body bytes of either parity |
| IcmpChecksum.Accumulate | common/net_common/icmp_header.hpp:82-88 | The wrapping loop computes the exact sum of the body's words modulo 2 to the 32, an odd last byte padded with zero |
| IcmpChecksum.FoldAndComplement | common/net_common/icmp_header.hpp:90-92 | Two folds and the complement store the complement of the one's complement sum of the 32-bit value |
| IcmpChecksum.TwoFoldsSuffice | common/net_common/icmp_header.hpp:90-91 | After two folds every 32-bit sum is its one's complement sum |
| IcmpChecksum.BodyWordsAre | common/net_common/icmp_header.hpp:82-88 | The words summed are pairs of octets, high octet first, an odd last octet padded with zero |
| IcmpChecksum.PacketWordsAre | common/net_common/icmp_header.hpp:79-88 | The words a receiver sums are those of the whole packet, header and body |
| IcmpChecksum.OnesSumIsReducedSum | common/net_common/icmp_header.hpp:82-91 | Adding words with end-around carry is reducing their exact sum |
| IcmpChecksum.StoredVerifiesIff | common/net_common/icmp_header.hpp:79-92 | The exact condition on the number of wraps under which the stored value verifies |
| IcmpChecksum.StoredChecksumVerifies | common/net_common/icmp_header.hpp:92-92 | The one's complement sum of the whole packet with the stored checksum is 0xFFFF under that condition |
| IcmpChecksum.NeverWraps | common/net_common/icmp_header.hpp:79-88 | Up to 131068 body bytes the 32-bit sum cannot wrap, whatever the header |
| IcmpChecksum.BoundIsTight | common/net_common/icmp_header.hpp:79-92 | A packet with one byte more wraps and does not verify |
| IcmpChecksum.IcmpHeader.Encode | common/net_common/icmp_header.hpp:67-71 | A field written is the field read back, and no other byte changes |
| IcmpChecksum.IcmpHeader.SetIdentifier | common/net_common/icmp_header.hpp:52-52 | The identifier written is read back, and no octet outside it changes |
| IcmpChecksum.IcmpHeader.SetSequenceNumber | common/net_common/icmp_header.hpp:53-53 | The sequence number written is read back, and no octet outside it changes |
| IcmpChecksum.IcmpHeader.LayoutOfFields | common/net_common/icmp_header.hpp:43-53 | The header's octets are type, code, checksum, identifier and sequence number in the order of RFC 792, high octet first |

## Left out

- DnsReader.ReadName: asks for a decodable name other than the root, with labels of bytes 1 to 191, since the source takes every byte from 192 on for a pointer and indexes before the block for the root; a pointer must target an octet before the start of the segment it ends, as "prior occurrence" in section 4.1.4 of RFC 1035 means it. Where the source would leave its block the model stops and says so. Failing `malloc` and `realloc` and releasing blocks are not modelled.
- DnsAnswers.ReadRecord: asks for names that fit the block.
- DnsAnswers.ReadRecvAnswer: asks that a record that is not an address has RDATA of exactly one name, since the source advances over it by a name and not by RDLENGTH.
- DnsAnswers.CollectAddresses: keeps an address as its 32-bit value; its dotted text comes from asio.
- DnsQuery.PrepareDnsQueryPacket: takes the process id as a parameter and writes it in little-endian host order.
- DnsResponse.LookupRoundTrip: sockets, `select`, time limits and retries are not part of this model; the response is the one a server that compresses owners against the question gives.
- BufferCopy.CopyMultiMulti: the regions are disjoint, as `memcpy` demands. Buffers are address ranges in one memory, sizes are unbounded, and the debugging checks of asio are not modelled.
- BuffersIterator.BuffersIterator.Advance: asks for a distance that stays in bounds, which the source asserts.
- StreamBuf.StreamBuf.Prepare: says nothing about the contents after a `length_error`; what remains then is stated by Reserve. The integer width of `pbump` and `gbump` is not modelled.
- DynamicBuffer.DynamicBuffer.Prepare: one class stands for the string and the vector buffer, and the caller's container is a sequence.
- SocketStreambuf.SocketStreambuf.Flush: the clock, the socket and `poll` are a finite script of rounds; a script that has run out is a failed round. The get side, connecting, closing and the destructor are left out.
- SocketStreambuf.SocketStreambuf.Sputc: is inherited from `std::streambuf`, whose source is not part of this model; the cited lines are the same store into the put area.
- TaskQueue.Drains: functions in a task are assumed to return and not to throw, and scheduling is not assumed to be fair beyond letting a thread that can step do so. Workers and submitters are steps of one system, not threads over shared objects; creating and detaching threads is left out.
- Clusters.ClusterFormsIff: letters are not dashes, since a lone dash letter would be another kind of argument, `--`.
- CommandLine.Parser.Parse: options are values in a map with its names in order, not shared objects; readers are partial functions; arguments hold no zero byte. Echoing the arguments, `usage`, `parse_check`, adding options and reading them back are left out.
- IcmpChecksum.ComputeChecksum: the body is a sequence of bytes; stream operators and `write` are left out.
- Ping and traceroute statistics, HTTP, JNI, logging and the rest of asio are left out; they would add easy members or depend on the outside world.
