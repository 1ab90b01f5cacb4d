# kobo DNS codec, modelled in Dafny

kobo is an `LD_PRELOAD` library. It overrides the C library's resolver entry
points so that a program's name lookups go to the DNS server named in the
`DNS` environment variable. `getnameinfo` and `gethostbyname` are refused.
`getaddrinfo` goes through the library's own DNS codec:

- `dns_builder` encodes a standard query for the hostname: header, one
  question, QTYPE A and QCLASS IN.
- `parse_dns_response` walks the reply with a cursor. It skips the question,
  including compression pointers, then scans ANCOUNT answer records. It takes
  the four RDATA octets of the first record of TYPE A, CLASS IN and
  RDLENGTH 4.
- `getaddrinfo` turns the exchange, the decoding and the caller's hint into
  a return code and one IPv4 result.

This project models that core in Dafny and proves its properties. It covers
the query layout and size, the round trip between encoder and decoder, the
first-match rule, locality and compression transparency of the decoder, and
the order of `getaddrinfo`'s decisions.

Modules, one file each:

- `Wrappers` (wrappers.dfy): `Option` and `Result`.
- `Wire` (wire.dfy): octets, big-endian 16-bit fields, the compression-pointer
  tag, and the constants of RFC 1035.
- `Query` (query.dfy): the encoder. `BuildQuery` is a function and
  `DnsBuilder` mirrors the C loop. It also holds the hostname split and the
  512-octet buffer bound.
- `Response` (response.dfy): the decoder as cursor-passing functions. There
  is one function per loop of `parse_dns_response`.
- `ResponseProperties` (response_properties.dfy): the first-match rule,
  locality, trailing octets, and compression transparency.
- `RoundTrip` (roundtrip.dfy): the encoder against the decoder's name walk
  and against a label reader.
- `Parser` (parser.dfy): `parse_dns_response` as written, with one mutable
  cursor. It is proved to compute what `Response.Decode` defines.
- `Intercept` (intercept.dfy): the decisions of `getaddrinfo`, `getnameinfo`
  and `gethostbyname`.
- `Scenarios` (scenarios.dfy): concrete messages, such as the 29-octet query
  for example.com and replies with CNAME and A records.

Octets are a `Byte` newtype over 0..255. The decoder's failures are tagged
`ShortHeader`, `Truncated` or `NoAddress`; the C function returns 0 in every
one of these cases.

## Model

| member | source | states |
|---|---|---|
| Wire.U16 | kobo_lib.c:83-87 | A field read from two octets is below 65536, and dividing it by 256 gives back the high octet and the remainder gives back the low one. |
| Wire.BE16 | kobo_lib.c:104-112 | Writing a 16-bit value in network order gives two octets that read back as that value. |
| Wire.MaskedPointerTag | kobo_lib.c:41 | Masking an octet with 0xC0 and comparing with 0xC0 is the same as the octet being at least 0xC0, the compression-pointer tag of section 4.1.4 of RFC 1035. |
| Response.AnswerCount | kobo_lib.c:33 | ANCOUNT is read big-endian from octets 6 and 7. It is below 65536, and written back in network order it gives those two octets. |
| Response.SkipName | kobo_lib.c:37-51 | The name walk only moves the cursor forward. When it starts inside the buffer it stops at most one octet past the end, which happens after a pointer in the last octet. It fails only from a cursor inside the buffer. |
| Response.SkipNameComplete | kobo_lib.c:37-51 | A well-formed name of n octets at the cursor is consumed exactly: the walk ends at cursor + n, whatever follows. |
| Response.SkipNameSound | kobo_lib.c:37-51 | When the walk stops inside the buffer, the octets it consumed form exactly one name. |
| Response.AnswerNameEnd | kobo_lib.c:59-78 | Taking a pointer-tagged first octet as a two-octet name at once, as the answer loop does, ends the name where the full walk would. |
| Response.AnswerNameSound | kobo_lib.c:59-78 | An answer name that ends inside the buffer is one well-formed name. |
| Response.ReadRecord | kobo_lib.c:59-88 | A record read leaves its RDATA cursor at least eleven octets past the start and inside the buffer. TYPE, CLASS and RDLENGTH are 16-bit values. |
| Response.ScanAnswers | kobo_lib.c:57-98 | The answer loop never reports a short header. |
| Response.ScanAnswersStep | kobo_lib.c:90-97 | A record that does not qualify, and whose RDATA fits, is stepped over: the loop continues after the RDATA with one record fewer to visit. |
| Response.QuestionEnd | kobo_lib.c:37-55 | The question ends inside the buffer, at least one name octet and QTYPE/QCLASS past the header. What comes before QTYPE is one well-formed name. |
| Response.QuestionEndAfterName | kobo_lib.c:53-55 | After a question name of n octets the question ends at 12 + n + 4 when those four octets fit. When they do not fit, there is no question end. |
| Response.Decode | kobo_lib.c:30-31 | A buffer shorter than the 12-octet header, and only such a buffer, is refused as ShortHeader before any octet is read. |
| ResponseProperties.SkipNameSuffix | kobo_lib.c:37-51 | The name walk depends only on the octets from the cursor on. Equal suffixes give walks that fail together or advance by the same amount. |
| ResponseProperties.ReadRecordSuffix | kobo_lib.c:59-88 | Reading a record depends only on the octets from the cursor on. |
| ResponseProperties.SameRecordVerdict | kobo_lib.c:90-97 | Two records with the same fields and the same octets from RDATA on agree on qualifying, on the address and on whether they can be stepped over. They are followed by the same octets. |
| ResponseProperties.ScanAnswersSameRead | kobo_lib.c:57-98 | The answer loop's verdict is decided by the first record read and the octets after its RDATA. |
| ResponseProperties.ScanAnswersSuffix | kobo_lib.c:57-98 | The answer loop's verdict depends only on the octets from the cursor on. |
| ResponseProperties.SkipNameExtend | kobo_lib.c:37-51 | A walk that stops inside the buffer stops at the same place in any longer buffer that starts with it. |
| ResponseProperties.ReadRecordExtend | kobo_lib.c:59-88 | A record read in full is read the same way in any longer buffer. |
| ResponseProperties.ScanAnswersExtend | kobo_lib.c:57-98 | Suppose a scan found an address, or passed all its records. Then it gives the same verdict in any longer buffer. |
| ResponseProperties.DecodeIgnoresTrailingOctets | kobo_lib.c:57-100 | Later records are never examined. Once a message yields an address, or passes all ANCOUNT records, appending octets does not change its decoding. |
| ResponseProperties.ReadRecordLayout | kobo_lib.c:80-88 | After a well-formed name of n octets, the record's fields come from the ten-octet prefix that follows, as section 4.1.3 of RFC 1035 lays it out. When the prefix does not fit, no record is read. |
| ResponseProperties.ReadRecordNameForm | kobo_lib.c:60-88 | A record with a spelled-out name and one with a pointer name are read alike when the same octets follow the two names. |
| ResponseProperties.CompressionTransparent | kobo_lib.c:60-77 | A pointer answer name and a spelled-out one give the same scan when the same octets follow. The pointer's target is never read. |
| ResponseProperties.DecodeSameAnswers | kobo_lib.c:33-57 | Two messages with equal ANCOUNT octets and equal octets after their questions decode the same way. |
| ResponseProperties.DecodeQuestionForm | kobo_lib.c:37-55 | Take two messages with the same ANCOUNT whose well-formed question names are followed by the same octets. They decode the same way. |
| ResponseProperties.QuestionNameFormIrrelevant | kobo_lib.c:41-45 | Any two well-formed question names, one a pointer and one spelled out say, give the same decoding after the same header and before the same octets. |
| ResponseProperties.DecodeAnswerForm | kobo_lib.c:57-88 | Take two messages that agree up to the end of the question and whose first answer names are followed by the same octets. They decode the same way. |
| ResponseProperties.AnswerNameFormIrrelevant | kobo_lib.c:60-71 | After the same header and question, a pointer answer name and a spelled-out one give the same decoding. |
| ResponseProperties.ChainedCons | kobo_lib.c:57-98 | A record read at i, put in front of a chain read from where it ends, gives a chain read from i. |
| ResponseProperties.AnswersChain | kobo_lib.c:57-98 | The records the loop passes form a chain: each is read where the previous one ends, and each spans at least eleven octets. When fewer than ANCOUNT were passed, the next one cannot be read or stepped over. |
| ResponseProperties.AnswersBounded | kobo_lib.c:57 | The loop passes at most ANCOUNT records, and no more than fit eleven octets each after the cursor, so an inflated ANCOUNT cannot stretch it. |
| ResponseProperties.FirstAddress | kobo_lib.c:90-94 | The position found holds the first qualifying record, and no record before it qualifies. |
| ResponseProperties.FirstMatchSkip | kobo_lib.c:90-97 | A non-qualifying record in front does not change the first-match verdict. |
| ResponseProperties.ScanSelectsFirstAddress | kobo_lib.c:57-100 | First-match rule: the loop yields the RDATA of the first qualifying record among those it passes. With none, it reports NoAddress when all records were passed and Truncated when it stopped early. |
| ResponseProperties.DecodeSelectsFirstAddress | kobo_lib.c:30-100 | The decoder is Truncated when the question cannot be skipped. Otherwise it applies the first-match rule to the records after the question. |
| Query.DotIndex | kobo_lib.c:116-117 | strchr with its fallback: the position of the first dot, or the length when there is none. No dot comes before it. |
| Query.LabelsDotFree | kobo_lib.c:115-124 | No label the split emits holds a dot. |
| Query.LabelsJoin | kobo_lib.c:115-124 | Joining the labels with dots gives the hostname back, less a trailing dot. There are no labels exactly for the empty hostname. |
| Query.LabelsCons | kobo_lib.c:115-124 | A dot-free label followed by a dot is split off as the first label, and the rest is split on its own. |
| Query.ThreeLabels | kobo_lib.c:115-124 | Three non-empty dot-free labels joined by dots split back into those three labels, with no trailing dot. |
| Query.QueryHeader | kobo_lib.c:104-112 | The header reads back as ID 0x1339, flags 0x0100, QDCOUNT 1, and zero ANCOUNT, NSCOUNT and ARCOUNT. |
| Query.QuestionTrailer | kobo_lib.c:128-130 | QTYPE and QCLASS read back as A and IN. |
| Query.BuildQuery | kobo_lib.c:103-132 | The query starts with that header, ends with that trailer, and has a zero octet right before the trailer. |
| Query.EncodeLabelsSize | kobo_lib.c:114-125 | The encoded name takes at most one octet more than the hostname. |
| Query.EncodeShortLabelsSize | kobo_lib.c:118-121 | Labels shorter than 256 octets cost their length plus one each. |
| Query.EncodeLabelsExactSize | kobo_lib.c:114-125 | With every label shorter than 256 octets, the name is one octet longer than the hostname less its trailing dot. |
| Query.QuerySize | kobo_lib.c:103-132 | The query is 12 octets, plus the encoded name, plus 1, plus 4. That is at most 18 more than the hostname, so a hostname of at most 494 octets fits 512. |
| Query.QueryOverflowsBuffer | kobo_lib.c:135-136 | A 602-octet hostname of three 200-octet labels gives a 620-octet query, more than the 512-octet buffer it is written into. |
| Query.QueryAcceptsShortHostnames | kobo_lib.c:135-136 | Every hostname of at most 494 octets has a query that fits the 512-octet buffer. That covers every name section 3.1 of RFC 1035 allows. |
| Query.LabelsFrom | kobo_lib.c:115-124 | From cursor p, the labels are the text up to the next dot, or the end, followed by the labels after it. |
| Query.EncodeFrom | kobo_lib.c:115-124 | From cursor p, the encoded labels are the next label's encoding followed by the encoding of the rest. |
| Query.BuilderStep | kobo_lib.c:115-124 | One turn of the label loop moves one label from the part still to encode to the buffer, and advances the cursor. |
| Query.WriteLabels | kobo_lib.c:114-125 | The label loop appends exactly the encoding of the hostname's labels, and offset is the buffer's length. |
| Query.DnsBuilder | kobo_lib.c:103-132 | The loop-based encoder builds exactly BuildQuery(hostname) and returns its length. |
| RoundTrip.EncodeLabelsCons | kobo_lib.c:118-121 | In an encoded name, the first octet is the first label's length and that many octets after it are the label. The rest is the encoding of the other labels. |
| RoundTrip.NameLabelsOfEncoding | kobo_lib.c:114-126 | Reading length-prefixed labels back from the encoding of labels of 1-255 octets gives exactly those labels. |
| RoundTrip.EncodingIsWireName | kobo_lib.c:37-51 | The encoding of labels of 1-191 octets is one name as the decoder's walk reads names. |
| RoundTrip.QuestionName | kobo_lib.c:126-130 | The question name of a message fills everything between the header and QTYPE/QCLASS. |
| RoundTrip.QuestionNameOfQuery | kobo_lib.c:114-126 | The question name of a built query is the encoded labels plus the zero octet. |
| RoundTrip.QueryRoundTrip | kobo_lib.c:114-126 | The labels read back from a query are the hostname's labels when each is 1-255 octets. Joining them with dots gives the hostname less a trailing dot. |
| RoundTrip.QueryAnswerCount | kobo_lib.c:112 | A built query announces no answers. |
| RoundTrip.QuestionFillsMessage | kobo_lib.c:37-55 | In a message whose question name is one well-formed name, the decoder's question walk ends at the last octet. |
| RoundTrip.QueryQuestionEnd | kobo_lib.c:37-55 | The decoder's question walk over a built query ends exactly at the query's length when every label is 1-191 octets. |
| RoundTrip.DecodeOwnQuery | kobo_lib.c:30-100 | Decoding a built query finds no address, because its question is consumed exactly and its ANCOUNT is zero. |
| Parser.WalkName | kobo_lib.c:37-51 | The C name-walk loop fails exactly when the walk function fails. Otherwise it stops at the same cursor. |
| Parser.ReadAnswer | kobo_lib.c:59-88 | One turn of the C answer loop up to RDATA succeeds exactly when a record can be read, and returns that record's fields. |
| Parser.ParseDnsResponse | kobo_lib.c:30-101 | The C function returns 1 exactly when Decode finds an address, and the octets it converts are that address. |
| Parser.QuestionTurn | kobo_lib.c:33-55 | A question name that cannot be walked, or QTYPE and QCLASS that do not fit, makes the decoding a failure. Otherwise the decoding is the answer loop's verdict from after QCLASS, with ANCOUNT from octets 6 and 7. |
| Parser.AnswerTurn | kobo_lib.c:59-97 | With records left, a record that cannot be read is a failure and a qualifying record yields its four RDATA octets. A record whose RDATA runs past the end is a failure. Any other record is stepped over with one record fewer to visit. |
| Parser.AnswerStep | kobo_lib.c:59-97 | One turn of the C answer loop either returns with the answer loop's verdict, 1 and the address exactly when it is a success, or moves the cursor to where the answer loop continues with one record fewer. |
| Intercept.GetNameInfo | kobo_lib.c:17-22 | Every reverse lookup is refused with EAI_FAIL, whatever the address and flags. |
| Intercept.GetHostByName | kobo_lib.c:25-28 | Every legacy lookup is refused with a null result. |
| Intercept.Reply | kobo_lib.c:168 | recv into the 512-octet buffer keeps exactly the first min(length, 512) octets of the datagram. A failed exchange leaves no octets. |
| Intercept.ReplyKeepsVerdict | kobo_lib.c:168 | Cutting a datagram to 512 octets never changes an address found, or a NoAddress verdict, compared with decoding the whole datagram. |
| Intercept.LookupSucceeds | kobo_lib.c:184-189 | The lookup fails exactly when the exchange failed or the received octets do not decode to an address. An empty reply counts as a failed lookup. |
| Intercept.GetAddrInfo | kobo_lib.c:174-219 | getaddrinfo returns 0, EAI_FAIL, EAI_FAMILY or EAI_MEMORY. EAI_FAIL comes exactly when the exchange failed, the reply was empty, or it had no address. EAI_FAMILY comes exactly otherwise with a family hint other than AF_UNSPEC and AF_INET. EAI_MEMORY comes exactly otherwise when allocation fails. A result has family AF_INET, the decoded address, and socktype, protocol and port from the hint and service, or 0. |
| Intercept.FamilyCheckedAfterExchange | kobo_lib.c:184-193 | With a failed exchange or a reply without an address, every hint gives the same outcome, even a hint that would be refused. |
| Intercept.GetAddrInfoSucceeds | kobo_lib.c:184-218 | getaddrinfo succeeds exactly when a reply arrived with an A record, the hint allows IPv4, and allocation succeeds. Without a hint it never returns EAI_FAMILY. |
| Scenarios.ExampleLabels | kobo_lib.c:115-124 | "example.com" splits into "example" and "com". |
| Scenarios.ExampleQuery | kobo_lib.c:103-132 | The query for example.com is the fixed header followed by 7 example 3 com 0 0 1 0 1: 29 octets. |
| Scenarios.ExampleNameIsWireName | kobo_lib.c:37-51 | example.com on the wire is one name as the walk reads names. |
| Scenarios.ExampleQuestionEnd | kobo_lib.c:37-55 | After any 12-octet header, the example question ends at octet 29. |
| Scenarios.PointerRecord | kobo_lib.c:60-88 | An answer named by a pointer is read with its TYPE, CLASS IN and RDLENGTH, and its RDATA starts 12 octets after the record. |
| Scenarios.CnameThenAddresses | kobo_lib.c:90-97 | A CNAME is stepped over, and of two A records the first is taken. |
| Scenarios.CnameStepped | kobo_lib.c:96-97 | A CNAME right after the example question is stepped over to octet 43. |
| Scenarios.AddressAt | kobo_lib.c:90-93 | An A record for addr at the cursor is taken, whatever the count left. |
| Scenarios.SingleAnswer | kobo_lib.c:30-101 | A reply with one A record under a compressed name yields 93.184.216.34. |
| Scenarios.CutShortAnswer | kobo_lib.c:91-97 | An A record whose RDATA is cut short yields no address (Truncated). |
| Scenarios.MissingAnswer | kobo_lib.c:59 | Two answers announced and one present: the loop runs out of octets (Truncated). |
| Scenarios.OnlyCname | kobo_lib.c:57-100 | A reply whose only answer is a CNAME yields NoAddress. |

## Left out

- The exchange with the DNS server, `resolver` at kobo_lib.c:134-171, is left out because it is socket I/O: `socket`, `inet_pton`, `connect`, `send` and `recv`. `getaddrinfo` takes the exchange as a parameter, a function from the query sent to a datagram or a failure. The 512-octet receive buffer is modelled by `Intercept.Reply`.
- A blocking exchange is not modelled. `recv` at kobo_lib.c:168 has no timeout, so an unresponsive server makes `getaddrinfo` wait forever. The exchange parameter always returns a datagram or a failure.
- The `DNS` environment lookup and `exit(1)` at kobo_lib.c:177-181 are left out because they are process environment and termination. `Intercept.GetAddrInfo` starts after that check.
- `malloc` and the memory layout of `addrinfo` and `sockaddr_in` are left out because they are allocation and ABI details. Allocation failure is a boolean input. The result is a datatype with family, socket type, protocol, address and port.
- The port lookup by `getservbyname` and `atoi` (kobo_lib.c:204-207) is left out because it calls into libc and the services database. The port is an input, and 0 without a service.
- `inet_ntop` and `inet_pton` (kobo_lib.c:92, 209) are left out because they only convert between octets and dotted text. The address is its four raw octets throughout.
- The diagnostics on stderr are left out because they are output only.
- kobo.c is not part of this model. It is the launcher that writes the library out, sets `LD_PRELOAD` and runs the program.
- Hostnames are modelled as the octets before the terminating NUL. C integer widths are not modelled. The decoder's `int` cursor stays within the received length plus 65535, because `i += rdlength` at kobo_lib.c:96 runs before the bound check at kobo_lib.c:97. The length is at most 512, so the cursor fits an `int`. ANCOUNT and the 16-bit fields are read as values below 65536. The truncation of a label length to `uint8_t` is modelled explicitly, as `n % 256`.
- Response.SkipName: its own contract gives only progress and bounds. Where the walk stops is stated by Response.SkipNameComplete and Response.SkipNameSound, and is checked against the C loop by Parser.WalkName.
- Response.ReadRecord: its own contract gives only the RDATA bounds and the field widths. The fields read are stated by ResponseProperties.ReadRecordLayout.
- Response.ScanAnswers: its own contract only rules out ShortHeader. The first-match rule it implements is ResponseProperties.ScanSelectsFirstAddress.
- Response.QuestionEnd: its own contract gives bounds and the shape of the name. The exact end is Response.QuestionEndAfterName.
- Query.BuildQuery: its own contract fixes the header, the closing zero octet and the trailer. The labels in between are stated by Query.QuerySize, RoundTrip.QueryRoundTrip and Query.DnsBuilder.
- Intercept.GetAddrInfo: requires that the query for the name fits the 512-octet buffer. For longer names the C code writes past its stack buffer, and the model gives that no meaning (see Findings).
- Intercept.GetAddrInfo: a NULL `name` cannot be expressed, because the name is a sequence of octets. `getaddrinfo(NULL, service, …)` is a valid call, for instance for a passive bind. The C code passes it through `resolver` to `dns_builder`, which dereferences it at kobo_lib.c:115, so that call crashes and has no outcome to model.
- RoundTrip.QueryRoundTrip: holds for labels of 1-255 octets. An empty label (two dots in a row) or a longer label has no round trip, because the C encoder writes a zero or a truncated length octet.
- RoundTrip.DecodeOwnQuery: holds for labels of 1-191 octets. A label of 192 or more octets would read as a compression pointer.
- The family check happens after the exchange and the decoding (kobo_lib.c:184-193). `Intercept.FamilyCheckedAfterExchange` proves the consequence: for a failed lookup every hint gives EAI_FAIL.
- The encoder has no error result (kobo_lib.c:119-121). It always produces octets, even for empty or over-long labels, so the model has no encoding error.
- The C function returns 0 for every decode failure (kobo_lib.c:31-100), and so does `Parser.ParseDnsResponse`. `Response.Decode` keeps the tags ShortHeader, Truncated and NoAddress so that the lemmas can tell the cases apart.

## Findings

| source | as written | input that shows it | evidently intended | confidence | as-written member | corrected member |
|---|---|---|---|---|---|---|
| kobo_lib.c:135-136 | `dns_builder` writes the whole query into `uint8_t query[512]` without checking the hostname's length | a hostname of three 200-octet labels joined by dots (602 octets), whose query is 620 octets | the query fits the 512-octet buffer. `Intercept.GetAddrInfo` admits only names whose query fits (its `QueryFits` requirement), and this covers every name of at most 494 octets | not executed | Query.QueryOverflowsBuffer | Query.QueryAcceptsShortHostnames |
