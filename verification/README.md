# A verified model of libcody

libcody connects a compiler (the client) with a builder (the server and its resolver) by a
turn-based protocol of text lines. A turn sends one block of request lines and gets one block
of response lines back. This project models the protocol from the client's calls down to the
octets and back up, in the form the library has: buffers, servers and clients are classes
whose methods are proved against functions on values, and the properties of the protocol are
lemmas about those functions.

| file | content |
|---|---|
| `Octets.dfy` | octets, error numbers, newline search |
| `Grammar.dfy` | the line grammar as a recursive decoder, and splitting a buffer into lines |
| `Syntax.dfy` | the line grammar from the writer's side: every spelling of a line, and what it means |
| `Encoding.dfy` | the printed form of pieces, words, lines and blocks |
| `RoundTrip.dfy` | printing followed by scanning |
| `Blocks.dfy` | continuation marks, block round trip, self-framing |
| `Framing.dfy` | reads and writes of arbitrary sizes |
| `Numbers.dfy` | decimal printing and `strtoul` |
| `MessageBuffer.dfy` | the class `MessageBuffer`: printer, scanner, framer, partial writes |
| `CmiNames.dfy` | `Resolver::GetCMIName` |
| `Protocol.dfy` | requests, responses, packets, hooks, and what each side makes of a line |
| `Printing.dfy` | how the printer's steps add up to a line and a draft block |
| `Server.dfy` | the class `Server` |
| `Client.dfy` | the class `Client` |
| `Turns.dfy` | whole turns: corking, conservation, delivery over descriptors, quoting |
| `Handshake.dfy` | handshake safety over whole runs |
| `Service.dfy` | typed delivery of requests and responses, the default resolver |
| `Wording.dfy` | the protocol in its own words: what is printed for each message, what the words of a line ask for |
| `Reactions.dfy` | what each side does with a line, in those words |
| `Accounting.dfy` | how many packets a client gets, and what decides each of them |
| `Agreement.dfy` | what the two ends believe about their connection |
| `Corking.dfy` | exactly when corking shows |
| `Driver.dfy` | the same requests issued corked and uncorked through the classes |

## How to read it

An octet is the Dafny character with the same code; statements over all characters cover the
256 octets. A vector or string that the library changes is a `seq` field or variable that the
methods reassign; `std::swap` exchanges the fields of two buffers.

`Grammar.DecodeLine` is the grammar: it recognises words, quoted pieces and escapes by
recursive descent and builds the words from the right, without the cursor, the flags and the
jumps of the scanner. `Grammar.LexLine` adds the three outcomes a caller of the scanner sees.
`Encoding.EncodeLine` and `Encoding.Block` are the printed forms.

The methods are proved against such functions, and the functions against statements that spell
the format and the protocol out: `Syntax.SyntaxIff` says which lines the decoder reads and as
what, in terms of syntax trees and not of the decoder; `Wording` and `Reactions` give the
keywords, the printed lines, the calls, the error texts and the packets literally.

Resolvers are arbitrary deterministic functions (`Protocol.Hooks`) of the resolver that is
asked and of a state `S` that stands for everything resolvers may remember. A hook either
fails and has sent nothing, or succeeds and has sent exactly one response; its result type
allows nothing else. `Protocol.HandleLine` is the server's reaction to one line,
`Protocol.Run` to a list of lines, and `Protocol.DecodeAll` the client's decoding of a
response block. `Clients.DirectTurn` composes them through the printed bytes of both blocks.

The descriptors of a remote connection are an environment that chooses, for every read and
write, a size or an error number; when its list is exhausted writes take everything and reads
report end of file.

## Where the code decides

* The scanner rejects octets from 0x80 up, quoted or not, while the printer emits them raw.
  The round trip holds exactly for seven-bit words, although the library's own description
  of the format promises more (README.md lines 94 to 106): `RoundTrip.LineRoundTrip`,
  `RoundTrip.HighOctetIsLost`, `Service.ReplyDecodes`.
* An unquoted backslash is an ordinary character, and blank lines are answered.
* Flags equal to the largest `unsigned` read as an error: `Numbers.NumeralParses`,
  `Service.DeliveredIff`.
* INVOKE arguments are appended without quoting, and arrive as they were given exactly when
  each is nonempty and free of blanks, quotes and marks (`Service.InvokeScansIff`).
* So corking is not always transparent. It is for every resolver when all requests before the
  last print as one line and are corkable (`Turns.CorkTransparency`): an INVOKE is corkable
  unless its last argument is `;` or ends in a space and `;`, or ends in a tab and `;` on a line
  that is otherwise well-formed (`Turns.CorkableIff`). With the default resolver that is exact
  for requests of one line, and a difference shows in the packets
  (`Corking.CorkTransparentIff`, `Corking.LoneMarkIsNotTransparent`). A newline in an argument
  adds lines to the block, whose last packet is then an error whatever the resolver
  (`Corking.SurplusTurn`, `Corking.NewlineShows`).
* An INVOKE argument can also carry a HELLO line, which connects the server alone. With the
  default resolver the ends agree exactly when no such line comes ahead of the handshake
  (`Agreement.ConnectionAgreementIff`, `Agreement.SmuggledGreeting`).
* Quoting a line in an error message looks one or two octets back without a check. Serving a
  block looks outside the buffer exactly when its first line is blank or a lone `;`
  (`Turns.AnswerableIff`, `Turns.LooksOutside`), and the methods require that it is not.
* A header name shares its CMI name with one without `,,` directories exactly when it has such
  a directory itself: `CmiNames.SharedIff`, `CmiNames.CommasCollide`. Names that are not header
  units are not kept in the repository if they climb: `CmiNames.ConfinedIff`,
  `CmiNames.ParentEscapes`.

## Model

| member | source | states |
|---|---|---|
| `Grammar.LinesPartition` | buffer.cc:223-229 | splitting a newline-terminated buffer gives one newline-free body per newline and loses nothing |
| `Grammar.LinesOfUnlines` | buffer.cc:223-229 | conversely, newline-free bodies are recovered by splitting |
| `Syntax.SyntaxIff` | buffer.cc:223-368 | a line scans to `words` if and only if it spells something that means them: words apart from each other, each of unquoted characters and quoted sequences of characters, letter escapes and one- or two-digit escapes, and at most one mark, at the end and apart |
| `Syntax.LexIff` | buffer.cc:223-368 | the three reports of the scanner for every line: words, nothing, or no spelling of anything |
| `Syntax.UnderscoreIsSpace` | buffer.cc:312-316 | an underscore after a backslash is a space, whatever follows |
| `Syntax.OneDigit` | buffer.cc:323-354 | a one-digit escape is the octet of its digit, unless another digit follows |
| `Syntax.TwoDigits` | buffer.cc:323-354 | a two-digit escape is any of the 256 octets, the first digit counting sixteenfold |
| `Syntax.OldSpellings` | buffer.cc:312-354 | two lines that no printer emits and what they scan to |
| `RoundTrip.EscapeCharDecodes` | buffer.cc:106-135 | the printed form of every octet inside quotes scans back to that octet whatever follows, or stops the scanner if the octet is 0x80 or above |
| `RoundTrip.EscapeDecodes` | buffer.cc:83-139 | quoted text scans back to itself up to the closing quote exactly when it is seven-bit |
| `RoundTrip.PieceDecodes` | buffer.cc:50-140 | one appended piece, quoted or not, continues a word by its own text |
| `RoundTrip.AbuttingIsConcatenation` | cody.hh:102-118 | a word made of any mix of quoted and unquoted pieces scans to the concatenation of their texts |
| `RoundTrip.LineRoundTrip` | buffer.cc:223-368 | a printed line scans to exactly its words, empty ones included, when all are seven-bit, and is malformed otherwise |
| `RoundTrip.HighOctetIsLost` | buffer.cc:290-294 | a word of one octet 0x80, which is printed quoted and does not scan |
| `RoundTrip.VerbatimIff` | buffer.cc:223-368 | words joined by spaces without quoting scan back to themselves if and only if each is nonempty and has no blank, quote, mark or unprintable octet |
| `Blocks.LineContinued` | buffer.cc:249-256 | a trailing continuation mark changes how a body decodes exactly when the body is well-formed and already ends in a mark |
| `Blocks.ContinuationTransparent` | buffer.cc:276-287 | the scanner's report, echoed text included, is the same with and without the mark if and only if the body neither ends in a space and `;` nor is a well-formed line closed by `;` |
| `Blocks.MarkAfterBlank` | buffer.cc:249-256 | the mark that closes a well-formed line is all of it or stands after a blank |
| `Blocks.LinesOfBlock` | buffer.cc:35-46 | a reader splits a block back into its bodies, all but the last still marked |
| `Blocks.SelfFraming` | buffer.cc:35-46 | the only unmarked newline of a block of newline-free bodies is its last octet, if and only if the last body does not end in the mark |
| `Blocks.BlockRoundTrip` | buffer.cc:35-140 | every line of a printed block scans to its own words, or is malformed with its own text, whatever the other lines contain |
| `Framing.ChunkingIndependence` | buffer.cc:178-221 | however a stream is cut into chunks, the buffer ends as the stream up to its first unmarked newline; the code is 0 exactly when a chunk ends there, EINVAL when it goes on, and end of file when there is none |
| `Framing.ReadOutcome` | buffer.cc:178-221 | whatever the descriptor does: what arrives before the first failure is kept up to its first unmarked newline, with code 0 if a chunk ends there and EINVAL if it goes on; without such a newline the code is the error of the failure, or -1 at end of file |
| `Framing.WriteOutcome` | buffer.cc:153-176 | whatever the descriptor does: the block goes out whole unless a write fails for good before there has been room for it; then what there was room for has gone out, and the code is that failure's |
| `Framing.BlockIsReceived` | buffer.cc:199-220 | a block whose last body does not end in the mark is received whole and without error however it is cut up |
| `Framing.PartialWritesConserve` | buffer.cc:153-176 | whatever the sizes of the writes, what was sent is a prefix of the block, and the whole block exactly when the result is 0 |
| `Numbers.NumeralParses` | server.cc:162-172 | a decimal numeral parses to its value, and to the error value when it is the largest unsigned or more |
| `Numbers.NumeralReads` | client.cc:216-219 | `strtoul` consumes a numeral whole and saturates |
| `Numbers.NumberReads` | client.cc:216-226 | `strtoul` reads the number a text starts with: white space, a sign and digits, clamped and negated |
| `Numbers.ParseUnsignedIff` | server.cc:162-172 | a word parses to a value below the largest unsigned if and only if it is a number of that value, or is empty and the value zero |
| `Numbers.ClampReads` | server.cc:162-172 | saturation and negation in an unsigned long of 64 bits |
| `Numbers.CStringEnds` | server.cc:165-165 | a C string ends before its first null character |
| `Numbers.DecimalPrinted` | buffer.cc:147-151 | numbers are printed in decimal without leading zeros |
| `Numbers.DecimalRoundTrip` | buffer.cc:147-151 | printed numbers parse back |
| `MessageBuffers.MessageBuffer.PrepareToWrite` | cody.hh:71-75 | terminates the block and rewinds |
| `MessageBuffers.MessageBuffer.PrepareToRead` | cody.hh:78-82 | empties the buffer |
| `MessageBuffers.MessageBuffer.BeginLine` | buffer.cc:35-46 | continues a nonempty draft with a mark and a newline |
| `MessageBuffers.MessageBuffer.NeedsQuoting` | buffer.cc:58-78 | the backward scan answers whether some character is unsafe |
| `MessageBuffers.MessageBuffer.AppendText` | buffer.cc:86-136 | the loop over runs and escapes appends the escaped text |
| `MessageBuffers.MessageBuffer.AppendEscape` | buffer.cc:106-135 | the named escapes and the two-digit loop append the escape sequence of the character |
| `MessageBuffers.MessageBuffer.Append` | buffer.cc:50-140 | appends the printed form of the piece and nothing else |
| `MessageBuffers.MessageBuffer.AppendWord` | cody.hh:112-118 | the same, separated from an earlier word on the line |
| `MessageBuffers.MessageBuffer.AppendInteger` | buffer.cc:147-151 | appends the decimal form as a word |
| `MessageBuffers.MessageBuffer.Write` | buffer.cc:153-176 | what was taken and what is left make up what was pending; any result but EAGAIN and EINTR resets the buffer |
| `MessageBuffers.MessageBuffer.Read` | buffer.cc:178-221 | appends the chunk up to the first unmarked newline in it, with the code for complete, surplus, more to come, end of file or error |
| `MessageBuffers.MessageBuffer.Lex` | buffer.cc:223-368 | reports on the line at the cursor exactly what the grammar says, and moves the cursor just past its newline on every path |
| `MessageBuffers.MessageBuffer.LexWords` | buffer.cc:233-265 | the outer loop: the words of the line, or that it is outside the grammar |
| `MessageBuffers.MessageBuffer.LexPiece` | buffer.cc:258-361 | one quoted or unquoted piece, in the open word or a new one |
| `MessageBuffers.MessageBuffer.LexQuoted` | buffer.cc:267-357 | the quoted loop, never reading past the newline |
| `MessageBuffers.MessageBuffer.LexQuotedChar` | buffer.cc:270-357 | one plain or escaped character, or the closing quote, or neither |
| `MessageBuffers.MessageBuffer.LexEscape` | buffer.cc:297-355 | the five letters and the one or two hexadecimal digits, read as `Syntax.ItemReads` says |
| `MessageBuffers.MessageBuffer.Malformed` | buffer.cc:276-287 | resynchronises after the newline and reports the text without its mark; both looks back stay on the line |
| `MessageBuffers.MessageBuffer.LexedLine` | buffer.cc:370-385 | appends the line scanned last without its mark |
| `MessageBuffers.MessageBuffer.LexAndQuote` | server.cc:100-152 | scanning a line and then quoting it: the text reported for a malformed line is the text quoted, and for a body continued in a block it is the body |
| `MessageBuffers.LooksInsideIff` | buffer.cc:379-382 | both looks back stay inside the buffer if and only if what precedes the cursor is not just a blank line or a lone mark |
| `MessageBuffers.MessageBuffer.Drain` | tests/01-serialize/decoder.cc:60-72 | scanning to the end takes one call per newline and reports every line |
| `CmiNames.GetCMIName` | resolver.cc:66-125 | computes the CMI name specified position by position |
| `CmiNames.ReplaceDots` | resolver.cc:92-108 | the in-place loop replaces every `..` directory, overlapping runs included |
| `CmiNames.HeaderNamed` | resolver.cc:66-125 | the CMI name of a header unit, character by character: a dot before an absolute path, a comma for the leading dot of a relative one, commas for the dots of `..` directories |
| `CmiNames.ModuleNamed` | resolver.cc:110-124 | the CMI name of a named module: its first colon becomes a dash |
| `CmiNames.HeaderConfined` | resolver.cc:66-125 | the CMI name of a header unit is a relative path without a `..` component |
| `CmiNames.ConfinedIff` | resolver.cc:66-125 | any name is confined if and only if it is a header unit or contains no `..` directory |
| `CmiNames.ParentEscapes` | resolver.cc:110-119 | a name that is not |
| `CmiNames.RecoveredIff` | resolver.cc:74-109 | a header name is recovered from its CMI name if and only if it has no `,,` directory |
| `CmiNames.RecoveredShares` | resolver.cc:74-109 | what is recovered is a header name without `,,` directories that has the same CMI name |
| `CmiNames.SharedIff` | resolver.cc:74-109 | a header name shares its CMI name with another one without `,,` directories if and only if it has one itself |
| `CmiNames.HeadersDistinct` | resolver.cc:74-109 | header names without `,,` directories have different CMI names |
| `CmiNames.CommasCollide` | resolver.cc:92-108 | two header names that share a CMI name |
| `CmiNames.CmiNameSevenBit` | resolver.cc:66-125 | a CMI name is seven-bit exactly when the name is |
| `Protocol.KeywordFound` | server.cc:36-47 | a request code is found for its own keyword and for no other word; `Wording.TableWording` says which words these are |
| `Wording.SafeIff` | buffer.cc:62-78 | the characters that are printed without quotes, spelled out |
| `Wording.EscapePrinted` | buffer.cc:106-135 | how each character is printed inside quotes, spelled out |
| `Wording.QuotablePrinted` | buffer.cc:50-140 | when a word is printed in quotes, and then character by character |
| `Wording.RequestPrinted` | client.cc:198-329 | the code and the printed line of every request, spelled out |
| `Wording.ReplyPrinted` | server.cc:276-316 | the printed line of every response, spelled out |
| `Wording.BlockPrinted` | buffer.cc:35-46 | the octets between the lines of a block |
| `Wording.TableWording` | server.cc:36-47 | the seven keywords, each found in its place, and no other word |
| `Wording.AsksIff` | server.cc:162-274 | the words of a line parse to a call if and only if they ask for it: literal keyword, number of words, nonempty name, version and flags |
| `Reactions.GreetingServed` | server.cc:112-119 | for every resolver, what an unconnected server does with a greeting: the hook call, the resolver that takes over, and the literal text when there is none |
| `Reactions.CallServed` | server.cc:120-129 | what a connected server does with any other request: the hook call, its response, or the literal text of its failure with the meaning of a positive error number |
| `Reactions.LineRefused` | server.cc:134-156 | every other line makes no call, and the literal text says whether it is unrecognized, already connected, not connected or malformed |
| `Reactions.HandOver` | server.cc:117-118 | after a greeting answered by HELLO all later calls go to the resolver its hook gave |
| `Reactions.DefaultReaction` | resolver.cc:131-208 | what the default resolver answers to each call, spelled out |
| `Reactions.LineSays` | client.cc:106-146 | what a response line makes the client report, spelled out for every request and every list of words |
| `Servers.Server.FindRequest` | server.cc:103-131 | the search from the end of the table finds that code, and leaves the wrapped index otherwise |
| `Servers.Server.ErrorResponse` | server.cc:276-282 | prints exactly one response line |
| `Servers.Server.OKResponse` | server.cc:284-289 | prints exactly one response line |
| `Servers.Server.ConnectResponse` | server.cc:291-300 | prints exactly one response line and connects |
| `Servers.Server.PathnameResponse` | server.cc:302-308 | prints exactly one response line |
| `Servers.Server.BoolResponse` | server.cc:310-316 | prints exactly one response line |
| `Servers.Server.ConnectRequest` | server.cc:174-187 | calls the hook exactly for acceptable words, and hands over to the resolver it gives |
| `Servers.Server.ParseModuleRequest` | server.cc:189-274 | the validators accept exactly the words of a call |
| `Servers.Server.ModuleRequest` | server.cc:189-274 | calls the hook exactly for acceptable words and returns its error |
| `Servers.Server.Dispatch` | server.cc:104-132 | finds and serves the request, or says what is wrong with it |
| `Servers.Server.ErrorText` | server.cc:134-156 | the message quotes the line scanned last, without its mark |
| `Servers.Server.AnswerLine` | server.cc:100-159 | one round of the loop is the reaction to one line: state, one response, hook calls |
| `Servers.Server.ProcessRequests` | server.cc:95-160 | every line of the block is answered in order; state, responses and hook calls are those of the run |
| `Servers.Server.DirectProcess` | server.cc:84-93 | a direct turn leaves a complete response block in the caller's buffer and nothing behind in the others |
| `Clients.Client.SendBlock` | client.cc:85-88 | the write loop ends as the sequence of outcomes demands, having sent what it reports |
| `Clients.Client.ReceiveBlock` | client.cc:89-92 | the read loop ends as the sequence of outcomes demands |
| `Clients.Client.CommunicateWithServer` | client.cc:77-96 | after a turn no request line is left and the response block is the peer's |
| `Clients.Client.ProcessResponse` | client.cc:106-146 | packet `i` is decided by response line `i`, or by its absence |
| `Clients.Client.MaybeRequest` | client.cc:148-161 | corked, the request waits; otherwise it makes a turn of its own |
| `Clients.Client.Cork` | client.cc:163-167 | corks a client that is not, and changes nothing otherwise |
| `Clients.Client.Uncork` | client.cc:169-193 | one turn with everything queued, one packet per queued code; nothing happens when nothing is queued |
| `Clients.Client.Connect` | client.cc:198-209 | prints the request and queues or serves it, keeping lines and codes in step |
| `Clients.Client.ModuleRepo` | client.cc:238-245 | the same |
| `Clients.Client.InvokeSubProcess` | client.cc:257-267 | the same, arguments appended as they are |
| `Clients.Client.ModuleExport` | client.cc:280-290 | the same, flags left out when zero |
| `Clients.Client.ModuleImport` | client.cc:293-303 | the same |
| `Clients.Client.ModuleCompiled` | client.cc:306-316 | the same |
| `Clients.Client.IncludeTranslate` | client.cc:319-329 | the same |
| `Turns.HandledAlike` | server.cc:100-159 | the server reacts to a line inside a block as to the line alone, for every body the scanner reports alike |
| `Turns.PacketsOfBlock` | client.cc:169-193 | with as many responses as requests every packet comes from its own response; none is missing or left over |
| `Turns.SpeakableIff` | client.cc:257-267 | a request prints as one line of a block if and only if it is no INVOKE, or its arguments have no newline and do not end in the mark |
| `Turns.CorkableIff` | client.cc:257-267 | the printed line of a request means the same inside a block and alone if and only if its last argument does not end it with a mark of its own |
| `Turns.BlockTurn` | client.cc:169-193 | a corked turn is the turn of its last request, whatever that is, after the lines of the others |
| `Turns.CorkTransparency` | client.cc:148-193 | over a direct connection, corking gives the packets, hook calls and server state of issuing the requests one at a time, for every resolver, if all requests before the last are one line and corkable |
| `Turns.ResponseConservation` | server.cc:95-160 | any block of octets gets exactly one response line per line, reply `i` answering line `i` |
| `Turns.WireTransparency` | client.cc:77-96 | over descriptors that deliver everything in pieces of any size, the packets are those of a direct connection, for requests of one line of which the last does not end in the mark |
| `Turns.AnswerableIff` | buffer.cc:370-385 | whatever the resolvers do, no line that is quoted while a block is served makes the server look outside its buffer, if and only if the first line is neither blank nor a lone mark |
| `Turns.LooksOutside` | buffer.cc:379-382 | the two blocks at which it does |
| `Handshake.LineLegal` | server.cc:112-129 | one line makes at most one hook call, a legal one, and only an unconnected HELLO changes resolver or connection |
| `Handshake.HandshakeSafety` | server.cc:95-160 | over any run connect hooks are called only unconnected and others only connected; once up, connection and resolver never change |
| `Handshake.OnlyHelloConnects` | server.cc:112-129 | without a HELLO line nothing about the connection changes |
| `Service.InvokeScansIff` | client.cc:257-267 | the arguments of INVOKE scan back if and only if each is nonempty and bare |
| `Service.RequestScans` | client.cc:198-329 | which printed requests scan to their keyword and operands, exactly; other quoted ones are malformed |
| `Service.RequestDelivered` | server.cc:174-274 | a deliverable request reaches its hook with exactly the arguments it was made of |
| `Service.DeliveredIff` | server.cc:174-274 | no other request makes the hook call it stands for, and no other quoted request makes any |
| `Service.UndeliveredTurn` | server.cc:134-158 | any other quoted request ends in an error packet |
| `Service.ReplyDecodes` | client.cc:211-346 | every expected seven-bit response becomes the packet it stands for; others are reported as malformed strings |
| `Service.UnexpectedReply` | client.cc:131-141 | a response of the wrong kind becomes an error quoting its line, except that where OK is expected a nonempty second word is taken for the message |
| `Service.GreetingVersions` | client.cc:212-235 | a greeting connects if and only if its second word is a number from the client's own version to the largest unsigned, with the flags that the fourth word starts with, if any, modulo the unsigned range |
| `Service.DefaultConnectedIff` | resolver.cc:131-140 | the default server is connected after a run exactly when it was before or some line was a HELLO of version at most 1 |
| `Service.DefaultService` | resolver.cc:142-208 | on a default connection a deliverable request gets the packet of its kind; names come back as CMI names |
| `Service.DefaultHandshake` | resolver.cc:131-140 | a seven-bit greeting connects both ends |
| `Accounting.TurnOutcome` | client.cc:77-96 | exactly which error a turn over descriptors ends with: that of the write that failed for good, EINVAL for octets after the block, that of the read that failed for good, or -1 at end of file; and what it has received otherwise |
| `Accounting.PacketAccounting` | client.cc:98-193 | for any environment and any server: one packet naming that error if the turn fails; otherwise one packet per code, `missing response` beyond the lines of the block, and before that what its own line says: an error message in any place and with any surplus |
| `Accounting.SurplusIff` | client.cc:127-134 | surplus is reported exactly for a last line that scans and is no error |
| `Accounting.DirectPackets` | client.cc:106-146 | the same over a direct connection, for all requests |
| `Accounting.ErrorUnlessConserved` | client.cc:169-193 | a client that gets no error packet was answered by exactly one line a request |
| `Accounting.DirectAccounting` | client.cc:131-134 | over a direct connection a packet that reports a missing or extra response quotes the resolver, for requests of one line |
| `Agreement.RequestGreets` | client.cc:198-209 | a printed request greets the default resolver exactly when it is a seven-bit HELLO |
| `Agreement.ClientNeverAhead` | client.cc:142-143 | for every resolver and all requests, a connected server stays connected, and a client that has come to think it is connected has a connected server |
| `Agreement.ConnectionAgreementIff` | client.cc:142-143 | with the default resolver, after any session at all, both ends agree if and only if they were connected before or no INVOKE carried a greeting ahead of the handshake |
| `Agreement.ConnectionAgreement` | client.cc:142-143 | so they agree after every session of requests of one line |
| `Agreement.SmuggledGreeting` | client.cc:262-263 | an INVOKE argument after which they do not |
| `Corking.ErrorsApart` | client.cc:106-146 | different error texts give different packets, whatever their octets |
| `Corking.CorkTransparentIff` | client.cc:148-193 | with the default resolver, for requests of one line before the last: corking gives the same turn if and only if all before the last are corkable, and the same packets only if the same turn |
| `Corking.LoneMarkIsNotTransparent` | client.cc:262-263 | a lone mark as an argument makes the packets differ |
| `Corking.SurplusTurn` | client.cc:131-134 | a newline in any argument makes the last packet of a corked turn an error, for every resolver |
| `Corking.NewlineShows` | client.cc:262-263 | so the packets differ whenever the last request would have been served by the default resolver |
| `Corking.NewlineIsNotTransparent` | client.cc:262-263 | a pair of requests for which they do |
| `Driver.IssueOneByOne` | client.cc:148-161 | requests issued through the classes one at a time end as the specification of single turns says |
| `Driver.IssueCorked` | client.cc:163-193 | the same requests queued and uncorked end in the same packets, states and hook calls |

## Left out

- netclient.cc and netserver.cc: opening and listening on sockets.
- read(2) and write(2): replaced by an environment that chooses sizes and error numbers.
- The server's one-line wrappers for descriptors (cody.hh, `Server::Read`, `Write`, `PrepareToRead`, `PrepareToWrite`) and the direction they set, beyond what a direct turn does: they only forward to the buffer.
- Deferred responses: `Resolver::WaitUntilReady` is the default, which does nothing; hooks answer before they return.
- Hooks that break the one-response contract, and hooks that depend on anything but their arguments and the modelled state.
- The default hooks are functions that give the response, where the library's append it to the server's buffer; the response methods of `Server` print it.
- Replacing `Resolver::ErrorResponse`: it may change the text of an error, not the kind of response.
- The look for a file in the repository directory (resolver.cc lines 173 to 194): an arbitrary predicate on CMI names.
- `strerror`: an arbitrary function; error numbers other than EAGAIN, EINTR, EINVAL and ENOENT have no meaning.
- `strtoul` follows section 7.22.1.4 of ISO/IEC 9899:2011 in base 10 with a 64-bit `unsigned long` and the "C" locale's white space.
- Vector capacity and reserve: they bound the size of a read, which is arbitrary here.
- packet.cc and the union in `Packet`: a datatype without the vector payload, which no response uses.
- The operators on `Flags`, move constructors, null `char *` arguments, lengths given separately from strings, fatal.cc, internal.hh, the Windows branches of resolver.cc.
- `Resolver::GetCMISuffix`: always the default suffix, as confinement depends on it.
- CorkTransparency: says nothing about requests before the last with a newline in an argument, since there the outcome depends on what the extra lines ask for; `Corking.NewlineShows` covers every last request that would be served.
- The loop and jumps of the scanner are split over `Lex`, `LexWords`, `LexPiece`, `LexQuoted`, `LexQuotedChar`, `LexEscape` and `Malformed`, and the request loop over the methods `ProcessRequests` calls; the order of steps is the library's.
- GetCMIName: requires a name that is not empty, as the request validators guarantee.
- ProcessRequests: requires a first line that is neither blank nor a lone `;`, since quoting such a line reads before the buffer.
- Server and client objects are never shared between two connections, and one server serves one direct client.
