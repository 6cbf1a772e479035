# A verified model of the Tarantool C client

The client turns API calls into IPROTO requests (a length prefix, a header map and a body map in
MessagePack), moves them through a buffered transport and decodes the reply stream. This project models
that stack in Dafny, one module a component, and proves what each layer promises to the one above it.

| files | component |
|---|---|
| `MsgPack.dfy` | MessagePack values, the encoders and the decoder everything else shares |
| `Builder.dfy`, `ObjectStream.dfy` | the object builder: a pure machine, and the class on growing buffers that implements it |
| `BuilderProofs.dfy`, `BuilderRuns.dfy`, `BuilderDepth.dfy`, `BuilderCost.dfy` | what whole runs of the builder leave behind, how deep they may nest, what they cost |
| `Format.dfy` | the format-string interpreter that drives the builder |
| `Update.dfy` | update operation containers |
| `Protocol.dfy`, `Requests.dfy`, `OneShot.dfy`, `RequestProofs.dfy` | frames, the request writer, the one-shot encoders, round trips and equivalence |
| `Reply.dfy` | framing and decoding of replies |
| `Transport.dfy` | send and receive buffers over a socket that splits as it likes |
| `Connection.dfy`, `Accounting.dfy`, `Reload.dfy` | outstanding requests, the reply iterator, the schema reload |
| `Schema.dfy` | the schema cache |
| `Iter.dfy` | array and map iterators |
| `TpBuilder.dfy`, `TpFrames.dfy` | the single-header request builder of `include/tp.h` |
| `LogReader.dfy` | the record scanner of the log reader |

How it fits together:

* **Object builder.** The step invariant `BuilderProofs.Inv` says that the buffer is the finished parts with
  one header placeholder for every open container and that each stack entry counts the children so far.
  It gives both directions: a tree nested at most eight deep is built to exactly its encoding in all three
  modes, and every accepted run of calls spells out one forest whose encoding it left behind. The stack
  does not carry its entries over when it grows, so eight levels is the exact limit (`BuilderDepth.SafeDepth`),
  although SIMPLE mode can only be refused by it, not damaged (`BuilderDepth.SimpleRefusesOrBuilds`).
* **Requests.** One writer scatters optional fields over an iovec and patches the map size and the length in
  afterwards; the one-shot encoders build their bodies in a local buffer. Both are proved to emit
  `Protocol.Packet`, which is proved to read back, and the two are compared field by field.
* **Replies and transport.** Decoder loops are proved against the decoded map (the last value under each key),
  and all claims about sending and receiving are stated over whole byte streams.
* **Where the code does less than one may expect**, the model keeps the code and states the exact condition:
  builder nesting (`BuilderDepth.SafeRuns`), failed receives (`Transport.Net.Recv`), accepted reload reply
  sequences (`Reload.SuccessExactly`), names spelled like numbers (`Schema.FindIsSearch`, `Schema.NumberIsSearch`),
  the doubling reallocator (`TpBuilder.GrownSuffices`), empty log payloads (`LogReader.OneItem`). Concrete inputs
  are in `Transport.Net.RefillLoses`, `Transport.Net.RefillRepeats`, `Reload.FirstIndexesLost`,
  `Reload.NoIndexesAtAll`, `Reload.NoRowsAtAll`, `Schema.SpelledLikeNumbers` and `TpBuilder.GrownFallsShort`.

MessagePack formats follow the MessagePack specification, section "Formats".

## Model

| member | source | states |
|---|---|---|
| MsgPack.BEInverse | tnt/tnt_object.c:199-203 | storing a number big-endian in k bytes loses nothing that fits them |
| MsgPack.BEDigits | tnt/tnt_object.c:199-203 | the bytes of a stored number, most significant first |
| MsgPack.NumberFormats | tnt/tnt_object.c:101-196 | the codes of unsigned numbers, floats and doubles, each at the first argument that takes it |
| MsgPack.NegativeFormats | tnt/tnt_object.c:112-124 | the codes of negative numbers |
| MsgPack.BlobFormats | tnt/tnt_object.c:126-163 | the codes of strings and binaries |
| MsgPack.OtherFormats | tnt/tnt_object.c:91-231 | the codes of nil, booleans, arrays and maps |
| MsgPack.FixExtFormats | tnt/tnt_iter.c:57-71 | extensions of fixed size are skipped as one value |
| MsgPack.ExtFormats | tnt/tnt_iter.c:57-71 | extensions with a length are skipped as one value |
| MsgPack.ParseEncHead | tnt/tnt_object.c:206-227 | decoding a header gives back its type and argument, whatever follows |
| MsgPack.ParseEncHead32 | tnt/tnt_object.c:199-203 | so does decoding the five-byte array and map headers |
| MsgPack.EncHeadShortest | tnt/tnt_object.c:286-292 | no header of a type with a given argument is shorter than the encoder's |
| MsgPack.ParseEncode | tnt/tnt_object.c:311-319 | every encodable tree, in every mode, decodes to itself and consumes exactly its bytes |
| MsgPack.ParseLocal | tnt/tnt_object.c:311-319 | decoding depends on the bytes of the value only |
| MsgPack.PackedShortest | tnt/tnt_object.c:284-306 | no encoding of a tree, with any header forms, is shorter than the PACKED one |
| MsgPack.ParseManySplit | tnt/tnt_reply.c:123-164 | decoding n+m values is decoding n and then m |
| MsgPack.ExactContainer | tnt/tnt_request.c:232-314 | a container header in front of pieces that are one value each makes one value of them |
| MsgPack.ParseType | tnt/tnt_object.c:311-319 | the first byte announces the type of the decoded value |
| MsgPack.ContainerAt | tnt/tnt_iter.c:87-108 | a checked container is its header and the values behind it |
| Builder.VerifyExactly | tnt/tnt_object.c:311-319 | the check accepts exactly the buffers that are one whole value, of the given type if one is given |
| BuilderProofs.ScalarKeeps | tnt/tnt_object.c:92-196 | adding a scalar keeps the step invariant and adds one value to the innermost level |
| BuilderProofs.OpenKeeps | tnt/tnt_object.c:206-266 | opening a container keeps the invariant with one more, empty level |
| BuilderProofs.CloseData | tnt/tnt_object.c:268-309 | patching, shifting or doing nothing: in each mode the placeholder is replaced by the final header and no other byte changes |
| BuilderProofs.CloseKeeps | tnt/tnt_object.c:268-309 | closing is refused exactly when nothing is open or a map has an odd child; otherwise it turns the top level into one value of the level below |
| BuilderProofs.StepFollowsLevels | tnt/tnt_object.c:91-309 | each call succeeds exactly when the tree description accepts it, and keeps the invariant |
| BuilderProofs.RunFollowsLevels | tnt/tnt_object.c:91-309 | so does every run with at most eight containers open, whatever fresh memory holds |
| BuilderProofs.RunTree | tnt/tnt_object.c:91-309 | building a tree on any partial buffer appends exactly its encoding |
| BuilderProofs.RunContainer | tnt/tnt_object.c:205-309 | the same for one container and its children |
| BuilderProofs.RunForest | tnt/tnt_object.c:91-309 | the same for a list of trees |
| BuilderRuns.BuildForest | tnt/tnt_object.c:91-309 | trees nested at most eight deep: all containers closed, the buffer exactly their encoding (shortest headers in PACKED and SIMPLE mode, five bytes in SPARSE mode) |
| BuilderRuns.ModesAgree | tnt/tnt_object.c:205-319 | SIMPLE, SPARSE and PACKED buffers of one tree all decode to that tree and pass verification, typed and untyped |
| BuilderRuns.TraceStep | tnt/tnt_object.c:91-309 | the levels always record precisely the calls made so far |
| BuilderRuns.RunEncoded | tnt/tnt_object.c:91-309 | in honest runs every level's bytes are the encoding of its children |
| BuilderRuns.RunBuildsForest | tnt/tnt_object.c:91-309 | conversely, every accepted balanced run spells out one forest call by call and its buffer is, and decodes to, that forest |
| BuilderDepth.RunRelated | tnt/tnt_object.c:31-43 | runs over two memories whose lost map entries count children of opposite parity stay equal but for those entries, and no call accepted by both closes the lost eighth one |
| BuilderDepth.NinthIsFatal | tnt/tnt_object.c:269-277 | in each mode, for every run of calls: if two memories, whose entries are maps of opposite parity, both accept it and it closes all it opens, a ninth container was never open |
| BuilderDepth.SafeRuns | tnt/tnt_object.c:31-43 | the exact condition for any run: accepted and closed whatever fresh memory holds, if and only if its brackets and map entries match and a ninth container is never opened |
| BuilderDepth.SafeDepth | tnt/tnt_object.c:31-43 | in each mode a build is right for all contents of fresh memory if and only if at most eight containers nest |
| BuilderDepth.SimpleRefusesOrBuilds | tnt/tnt_object.c:278-281 | in SIMPLE mode a build of any depth that is accepted is right: lost entries can only get a close refused |
| BuilderDepth.SimpleDepth | tnt/tnt_object.c:31-43 | in SIMPLE mode, when lost entries look like arrays, a build is accepted and right if and only if at most 128 containers nest |
| BuilderCost.StepFrugal | tnt/tnt_object.c:45-61 | every call keeps size within capacity, capacity below twice the size, and total copying within the capacity |
| BuilderCost.CountersExact | tnt/tnt_object.c:45-61 | a call copies the old block exactly when the block changes, and a close that makes the buffer longer moves exactly the bytes behind the placeholder |
| BuilderCost.RunFrugal | tnt/tnt_object.c:45-61 | so does every run, however deep |
| BuilderCost.BudgetShut | tnt/tnt_object.c:288-306 | closing a container pays for the shift from the moves its bytes are still allowed |
| BuilderCost.ShiftsAreCheap | tnt/tnt_object.c:288-306 | all header shifts of a run move at most nesting depth times final size bytes |
| ObjectStream.TotalLength | tnt/tnt_buf.c:94-97 | the length loop computes the length of the concatenated pieces |
| ObjectStream.CopyPieces | tnt/tnt_buf.c:101-106 | the copy loop appends the pieces in order |
| ObjectStream.Stream.constructor | tnt/tnt_object.c:63-89 | a new object is the machine's initial state |
| ObjectStream.Stream.SetType | tnt/tnt_object.c:23-29 | the mode can be set only before the first write |
| ObjectStream.Stream.Resize | tnt/tnt_object.c:45-61 | reallocation implements Reserve and keeps the contents |
| ObjectStream.Stream.Write | tnt/tnt_buf.c:80-90 | writing in place implements the machine's write |
| ObjectStream.Stream.Writev | tnt/tnt_buf.c:92-109 | writing pieces equals one write of their concatenation |
| ObjectStream.Stream.CountChild | tnt/tnt_object.c:94-96 | only the innermost count changes, by one modulo 2^32 |
| ObjectStream.Stream.AddNil | tnt/tnt_object.c:91-99 | adds nil; returns the bytes written |
| ObjectStream.Stream.AddUint | tnt/tnt_object.c:101-110 | adds an unsigned number |
| ObjectStream.Stream.AddInt | tnt/tnt_object.c:112-124 | adds a number with its sign; non-negative ones take the unsigned format |
| ObjectStream.Stream.AddStr | tnt/tnt_object.c:126-140 | adds a string as header and bytes |
| ObjectStream.Stream.AddBin | tnt/tnt_object.c:149-163 | adds a binary as header and bytes |
| ObjectStream.Stream.AddBool | tnt/tnt_object.c:165-174 | adds a boolean; every non-zero argument is true |
| ObjectStream.Stream.AddFloat | tnt/tnt_object.c:176-185 | adds a float, bit pattern unchanged |
| ObjectStream.Stream.AddDouble | tnt/tnt_object.c:187-196 | adds a double, bit pattern unchanged |
| ObjectStream.Stream.GrowStack | tnt/tnt_object.c:31-43 | doubles up to 128 entries; the old entries become arbitrary |
| ObjectStream.Stream.AddContainer | tnt/tnt_object.c:205-266 | opens a container as the machine does; the refused call has still counted a child |
| ObjectStream.Stream.ShiftTail | tnt/tnt_object.c:296-297 | the overlapping move keeps the front and every byte of the tail |
| ObjectStream.Stream.Widen | tnt/tnt_object.c:286-306 | room, shift and header store together replace exactly the placeholder |
| ObjectStream.Stream.Patch | tnt/tnt_object.c:280-285 | storing the long header replaces exactly five bytes |
| ObjectStream.Stream.ContainerClose | tnt/tnt_object.c:268-309 | implements the machine's close, including both refusals; only PACKED and SPARSE mode need the header position to lie in the buffer |
| ObjectStream.Stream.Reset | tnt/tnt_object.c:470-483 | empties buffer and stack, returns to SIMPLE mode, keeps the capacities |
| Format.UnsignedSurvives | tnt/tnt_object.c:344-428 | every unsigned 64-bit argument survives the detour through int64 |
| Format.CString | tnt/tnt_object.c:353-358 | the text of `%s` is everything before the first zero byte |
| Format.AddLeaf | tnt/tnt_object.c:338-430 | a conversion adds exactly the one scalar it stands for |
| Format.Directive | tnt/tnt_object.c:327-436 | executing a directive is the builder step it stands for, and returns what that wrote; `%s` stops at the first zero byte |
| Format.VFormat | tnt/tnt_object.c:321-441 | interprets any valid format, up to its first zero character, as exactly the calls it denotes; refuses a stream already written to |
| Format.ReturnedTree | tnt/tnt_object.c:321-441 | the counts returned for a tree plus its header growth are its final size |
| Format.FormatBuilds | tnt/tnt_object.c:321-441 | on the machine: a valid balanced format leaves the encoding of the forest it spells out, and the returns of its calls add up to the size less the header growth at closes |
| Format.FormatNew | tnt/tnt_object.c:321-450 | on a new stream: its buffer is the encoding of the forest the format spells out, and the result is its size less the header growth at closes |
| Format.PrintDenotes | tnt/tnt_object.c:321-441 | printing a tree as a format denotes exactly the calls that build it, in front of any format |
| Format.PrintBuilds | tnt/tnt_object.c:321-441 | print and interpret: the result is the tree's shortest encoding |
| Format.EraseRun | tnt/tnt_object.c:205-231 | PACKED mode ignores declared sizes |
| Format.IntConversions | tnt/tnt_object.c:344-428 | `%d`, `%i` and their h and hh forms add the int passed, with its sign |
| Format.LongConversions | tnt/tnt_object.c:377-407 | `%ld`, `%li`, `%lld` and `%lli` add the 64-bit number passed, with its sign |
| Format.UnsignedConversions | tnt/tnt_object.c:344-428 | `%u`, `%hu`, `%hhu`, `%lu` and `%llu` add the unsigned number passed |
| Format.TextConversions | tnt/tnt_object.c:353-367 | `%s` adds the bytes before the first zero byte, `%.*s` as many as the number says |
| Format.OtherConversions | tnt/tnt_object.c:368-436 | `%b`, `%f`, `%lf` and `NIL` |
| Format.SkippedCharacters | tnt/tnt_object.c:327-436 | any other character and `%%` add nothing |
| Format.ConversionBuilds | tnt/tnt_object.c:321-441 | what such a conversion leaves on a fresh object is the encoding of the value |
| Update.UpdateOp | tnt/tnt_update.c:150-164 | writes one operation as one message of the container |
| Update.Encode | tnt/tnt_update.c:166-247 | an operation is refused without a trace or written whole |
| Update.AcceptedExactly | tnt/tnt_update.c:166-247 | the operations accepted: the bit and arithmetic ones by their character, insertions and assignments of one whole value, every deletion and splice |
| Update.Container | tnt/tnt_update.c:122-131 | a new container is open and empty |
| Update.ContainerReset | tnt/tnt_update.c:140-148 | so is a reset one |
| Update.ContainerClose | tnt/tnt_update.c:133-138 | the header counts the operations written, taken from the number of writes |
| Update.OpExact | tnt/tnt_update.c:150-247 | each operation is one array of its own string, the field number and the operands: three elements, five for a splice |
| Update.Build | tnt/tnt_update.c:122-247 | any list of operations, good or bad, closes to one array of exactly the accepted ones, in order |
| Update.ClosedList | tnt/tnt_update.c:18-23 | and that array always passes the check of `tnt_update` and `tnt_upsert` |
| Protocol.LongUint | tnt/tnt_proto_internal.h:28-43 | the encoded length prefix has the size computed for it |
| Protocol.FlattenExact | tnt/tnt_request.c:239-308 | key and value pieces of a body are one value each and concatenate to it |
| Protocol.HeaderExact | tnt/tnt_proto_internal.h:15-26 | a header is the map of type and sync |
| Protocol.PacketReads | tnt/tnt_request.c:215-328 | every packet reads back as its type, its sync and its map, with an exact length prefix |
| Protocol.LookupAppend | tnt/tnt_reply.c:123-164 | of several entries under a key the last one counts |
| Requests.GatherPatch | tnt/tnt_request.c:310-314 | a byte patched into the scattered header is patched in the gathered packet, and nothing else |
| Requests.Scatter.Put | tnt/tnt_request.c:224-236 | encoding into the header buffer appends to the packet |
| Requests.Scatter.Attach | tnt/tnt_request.c:288-303 | attaching the caller's bytes appends them to the packet |
| Requests.PutOptional | tnt/tnt_request.c:239-265 | one optional field is written exactly when present |
| Requests.PutNumbers | tnt/tnt_request.c:238-265 | exactly the number fields of the request type are written |
| Requests.PutKey | tnt/tnt_request.c:266-294 | the key goes under the code of its type; a type that takes none is refused |
| Requests.PutTuple | tnt/tnt_request.c:295-303 | the tuple, if there is one |
| Requests.FillMap | tnt/tnt_request.c:309-314 | the byte left free becomes the map header of the entries counted |
| Requests.PutPrefix | tnt/tnt_request.c:316-322 | the vector reads as a frame: length loop and prefix agree with the payload |
| Requests.Request.SetFunc | tnt/tnt_request.c:130-140 | only calls take a function name, and not NULL |
| Requests.Request.SetExpr | tnt/tnt_request.c:153-163 | only eval takes an expression, and not NULL |
| Requests.Request.SetOps | tnt/tnt_request.c:176-189 | operations become the tuple of an update and the key of an upsert |
| Requests.Scattered | tnt/tnt_request.c:215-328 | for every type and combination of fields the vector concatenates to the packet of its entries |
| Requests.Writeout | tnt/tnt_request.c:215-328 | writes exactly that packet under the sync of the counter, or nothing; the counter advances by one either way, and restarts at zero when the sync would not fit an int64_t that has to carry it |
| Requests.Compile | tnt/tnt_request.c:330-336 | returns the sync written, and -1 exactly on failure |
| Requests.SyncsInOrder | tnt/tnt_request.c:223 | requests in a row carry consecutive syncs, modulo 2^64 |
| OneShot.BodyBuffer.Put | tnt/tnt_select.c:25-39 | bytes put at the cursor extend the pending piece |
| OneShot.Vector | tnt/tnt_select.c:48-57 | the vector reads as header and pieces behind their exact length |
| OneShot.Send | tnt/tnt_ping.c:15-38 | header and pieces go out behind their exact length, or nothing does |
| OneShot.Store | tnt/tnt_insert.c:17-48 | insert and replace go out with their space if and only if the tuple is one whole array; otherwise nothing changes |
| OneShot.Select | tnt/tnt_select.c:18-58 | a select goes out with all six fields if and only if the key is one whole array |
| OneShot.Delete | tnt/tnt_delete.c:19-52 | a delete goes out with space, index and key if and only if the key is one whole array |
| OneShot.Update | tnt/tnt_update.c:18-60 | an update goes out with space, index, key and operations if and only if both objects are whole arrays |
| OneShot.Upsert | tnt/tnt_update.c:62-102 | an upsert goes out with space, tuple and operations if and only if both objects are whole arrays |
| OneShot.Rpc | tnt/tnt_call.c:19-58 | call, call_16 and eval go out with name or expression and arguments if and only if the name is not empty and the arguments are one whole array |
| OneShot.Ping | tnt/tnt_ping.c:15-38 | ping: an empty body |
| RequestProofs.PairsCarry | tnt/tnt_request.c:238-308 | under every key a request carries exactly the field that belongs there, by request type |
| RequestProofs.LookupRaw | tnt/tnt_request.c:215-328 | looking a key up in the decoded map finds the value of its entry |
| RequestProofs.RequestReadsBack | tnt/tnt_request.c:215-328 | round trip: type, sync and every field; the count equals the entries present and fits one byte |
| RequestProofs.SameBytes | tnt/tnt_call.c:19-58 | builder and one-shot encoders agree byte for byte on insert, replace, call, call_16, eval and ping |
| RequestProofs.SameSelect | tnt/tnt_select.c:18-58 | and key by key, after defaults, on select |
| RequestProofs.SameDelete | tnt/tnt_delete.c:19-52 | on delete |
| RequestProofs.SameUpdate | tnt/tnt_update.c:18-60 | on update |
| RequestProofs.SameUpsert | tnt/tnt_update.c:62-102 | on upsert, whose entries the two write in different orders |
| Reply.EntriesMeaning | tnt/tnt_reply.c:123-236 | the last entry under a key is what the decoded map holds there, at the reported place |
| Reply.DecodeHeader | tnt/tnt_reply.c:123-164 | the header loop rejects by the types of known keys and consumes exactly one value |
| Reply.DecodeBody | tnt/tnt_reply.c:166-236 | the body loop reports the last value of each known key and consumes exactly one value, or rejects, leaving the fields alone |
| Reply.MapsAccepted | tnt/tnt_reply.c:123-236 | both loops accept or reject a map by its decoded content alone, pair by pair |
| Reply.HeaderMeaning | tnt/tnt_reply.c:123-164 | the header loop accepts exactly the maps of numbers under known keys; the fields are the last of each, zero if absent |
| Reply.BodyMeaning | tnt/tnt_reply.c:166-236 | behind a header of any length each span is there exactly if its key is and is, byte for byte, the last value for the key; the error span is the string itself |
| Reply.EntriesAreFlat | tnt/tnt_reply.c:123-236 | the entries walked are the decoded map, two values at a time |
| Reply.ReplyLen | tnt/tnt_reply.c:104-121 | complete, incomplete by so many bytes, or broken |
| Reply.PrefixAsks | tnt/tnt_reply.c:104-121 | every proper prefix asks for a positive number of bytes within the frame; at most two rounds complete it |
| Reply.TrailingIgnored | tnt/tnt_reply.c:104-121 | bytes after a frame change nothing |
| Reply.FramedComplete | tnt/tnt_reply.c:104-121 | a payload behind its length prefix is read as one complete frame, and is that payload |
| Reply.PayloadMeaning | tnt/tnt_reply.c:61-94 | a payload is accepted exactly if it is a header map and then nothing or a body map of the right types, and the fields say what is in them |
| Reply.Reply.Digest | tnt/tnt_reply.c:61-94 | accepts exactly the well-formed payloads and reports what they say; a malformed one leaves the reply cleared |
| Reply.Copying | tnt/tnt_reply.c:238-265 | the copying parser on any buffer: status, consumed or missing bytes, and fields that say what is in the payload |
| Reply.Receive | tnt/tnt_reply.c:96-102 | reading through the callback takes exactly one frame |
| Reply.ZeroCopy | tnt/tnt_reply.c:267-300 | the same for the parser that points into the caller's buffer |
| Reply.DecodeInPlace | tnt/tnt_reply.c:284-298 | on a reply in any state: header fields are assigned, spans only if there is a body |
| Reply.BodyKeepsHeader | tnt/tnt_reply.c:166-236 | what the body adds does not depend on the reply it is added to |
| Reply.Agree | tnt/tnt_reply.c:238-300 | on a fresh reply both parsers agree on success, on the fields, and on the bytes consumed or missing, which are those of the frame |
| Transport.Net.constructor | tnt/tnt_iob.c:42-61 | new buffers are empty: nothing has been accepted and everything can be read |
| Transport.Net.SendRaw | tnt/tnt_io.c:332-353 | everything goes out, or an error after some prefix |
| Transport.Net.Flush | tnt/tnt_io.c:322-330 | a successful flush puts the whole buffer on the wire, so all accepted messages are there; a failed one has put some first part of it there, which the next flush writes again |
| Transport.Net.Send | tnt/tnt_io.c:391-411 | wire plus buffer grow by exactly the message, which keeps messages whole and in order; an oversized one changes nothing; a failure leaves the buffer and puts some first part of what it tried to write on the wire, and keeps the order if and only if that part is empty |
| Transport.Net.Advance | tnt/tnt_io.c:376-386 | the iovec loop skips exactly the bytes written, empty pieces included |
| Transport.Net.WriteSome | tnt/tnt_io.c:360-373 | one gathering write moves a prefix of what is left |
| Transport.Net.SendvRaw | tnt/tnt_io.c:355-389 | the vector goes out as its concatenation, or an error after some prefix |
| Transport.Net.SendvPut | tnt/tnt_io.c:413-422 | pieces are buffered behind what is there |
| Transport.Net.Sendv | tnt/tnt_io.c:424-447 | acts as a send of the concatenation, in success and failure |
| Transport.Net.RecvRaw | tnt/tnt_io.c:449-470 | receives a prefix of the stream, or all that is asked for |
| Transport.Net.RecvDirect | tnt/tnt_io.c:475-476 | without a buffer the bytes go straight to the reader; a failed call has lost those it read |
| Transport.Net.Refill | tnt/tnt_io.c:492-500 | refilling moves stream bytes into the empty buffer; a failed one has already reset the offset |
| Transport.Net.Recv | tnt/tnt_io.c:472-509 | a successful call delivers exactly the next bytes; a failed one leaves, by the sizes of its refills, exactly which bytes lost or repeated, and nothing if and only if its first refill failed at offset zero or its second one after an empty start |
| Transport.Net.RecvBuffered | tnt/tnt_io.c:477-508 | the loop: it ends, and on failure it leaves all bytes but those buffered at the start and those of all refills but the last |
| Transport.Net.NothingLost | tnt/tnt_io.c:492-498 | when such a failure has lost and repeated nothing |
| Transport.Net.RefillLoses | tnt/tnt_io.c:484-498 | a failed call that loses two bytes although the offset was zero |
| Transport.Net.RefillRepeats | tnt/tnt_io.c:492-498 | a failed call after which two delivered bytes come again |
| Transport.SendAll | tnt/tnt_io.c:322-447 | any run of sends and a flush: the peer gets exactly the messages, in order |
| Transport.Deliver | tnt/tnt_io.c:449-509 | any run of receives: delivered, buffered and unread bytes are always the stream |
| Schema.EnterAgrees | tnt/tnt_schema.c:136-156 | two puts keep a hash in agreement with its list |
| Schema.SearchAt | tnt/tnt_schema.c:111-163 | in a list with distinct names and numbers each object is found under both |
| Schema.FindIsSearch | tnt/tnt_schema.c:256-266 | a name lookup is a linear search, -1 if absent; the exception is a name spelled like a number in use |
| Schema.NumberIsSearch | tnt/tnt_schema.c:268-276 | a number lookup is a linear search; the exception is a number that spells a name in use |
| Schema.SpelledLikeNumbers | tnt/tnt_schema.c:142-154 | an object for which both exceptions occur |
| Schema.PutSpaceConsistent | tnt/tnt_schema.c:111-163 | adding a space keeps every hash exact |
| Schema.PutIndexConsistent | tnt/tnt_schema.c:181-238 | adding an index keeps every hash exact |
| Schema.LoadSpaces | tnt/tnt_schema.c:165-179 | space tuples load in order |
| Schema.LoadIndexes | tnt/tnt_schema.c:240-254 | index tuples load into the spaces they name, in order |
| Schema.LoadAgrees | tnt/tnt_schema.c:111-254 | spaces then indexes into an empty cache, each index naming a space of the list: two entries an object, both leading to it, and the objects are the tuples |
| Schema.SpaceTupleFound | tnt/tnt_schema.c:111-163 | after the tuple number, owner, name has been added a lookup of the name returns the number |
| Schema.IndexTupleFound | tnt/tnt_schema.c:181-238 | after the tuple space, number, name has been added a lookup of space and name returns the number |
| Schema.SpacesUpToBad | tnt/tnt_schema.c:165-179 | a load of spaces is that of the tuples in front of the first bad one, and fails exactly if there is one |
| Schema.IndexesUpToBad | tnt/tnt_schema.c:240-254 | so is a load of indexes, where an unknown space is bad as well |
| Schema.Schema.AddSpace | tnt/tnt_schema.c:111-163 | decodes one space tuple; a bad one changes nothing |
| Schema.Schema.AddIndex | tnt/tnt_schema.c:181-238 | decodes one index tuple; a bad one or an unknown space changes nothing |
| Schema.Schema.AddSpaces | tnt/tnt_schema.c:165-179 | the whole reply, up to the first bad tuple |
| Schema.Schema.AddIndexes | tnt/tnt_schema.c:240-254 | the same for indexes |
| Schema.Schema.SpaceNumber | tnt/tnt_schema.c:256-266 | lookup of a space by name |
| Schema.Schema.IndexNumber | tnt/tnt_schema.c:268-284 | returns what the lookup `Schema.FindIndex` finds for a space number and an index name |
| Schema.FindIndexIsSearch | tnt/tnt_schema.c:268-284 | that lookup is a linear search for the number and then for the name, and exactly when it finds something the search does not |
| Schema.FreeOne | tnt/tnt_schema.c:80-108 | one step of a walk deletes both entries of one object and no other |
| Schema.FreeIndexes | tnt/tnt_schema.c:27-61 | every index and every entry is freed exactly once, whatever the order of the walk |
| Schema.FreeTable | tnt/tnt_schema.c:63-109 | every space, and every index in it, is freed exactly once |
| Schema.Schema.FreeSpaces | tnt/tnt_schema.c:75-109 | freeing the cache empties its hash and frees everything exactly once |
| Connection.Conn.Write | tnt/tnt_net.c:77-84 | a request counts exactly when it has been accepted, whatever happened to the connection before |
| Connection.Conn.Writev | tnt/tnt_net.c:86-93 | the same for pieces |
| Connection.Conn.ReplyFrom | tnt/tnt_reply.c:61-94 | over any splitting transport, reads exactly one frame |
| Connection.FinalExactly | tnt/tnt_net.c:106-108 | a reply ends its request if its body has an error or bit 7 of its code is clear |
| Connection.Conn.ReadReply | tnt/tnt_net.c:101-110 | counts off exactly the replies that end a request, and failed reads, and never passes below zero; reads nothing when none is due |
| Connection.ReplyIter.Next | tnt/tnt_iter.c:170-180 | yields the next frame of the stream, ends when nothing is outstanding |
| Connection.NextOf | tnt/tnt_iter.c:170-180 | on a connection with as many requests counted as final replies to come: the next reply of the stream, or the end right after the last final one |
| Connection.FinalAtMeans | tnt/tnt_net.c:101-110 | where the replies to k requests end |
| Connection.Drain | tnt/tnt_iter.c:170-180 | any number of chunks and a final reply per request: every reply in wire order, stopping right after the last final one |
| Connection.Upcoming | tnt/tnt_net.c:101-110 | replies are left exactly as long as the counter is positive |
| Accounting.EveryInterleaving | tnt/tnt_net.c:77-110 | in every interleaving of writers and one reader, counted on the events alone: the counter is the requests counted minus the final replies settled, and zero means that every request counted has had its final reply |
| Accounting.ReaderSteps | tnt/tnt_net.c:101-110 | a check starts a read exactly if a counted request still waits for its final reply; a final reply takes one off the counter, a chunk nothing |
| Reload.RepMeans | tnt/tnt_net.c:184-206 | what the loop looks at in a reply is the sync of its header map, and the error and the data of its body map |
| Reload.AllRowsRead | tnt/tnt_schema.c:308-334 | the select reads back as all entries of the view |
| Reload.ReplyLoop | tnt/tnt_net.c:180-220 | over the connection: result and cache are those of the replies looked at, which are all unless the transport fails or a reply ends the reload |
| Reload.TakeReply | tnt/tnt_net.c:186-206 | one reply: spaces are added, an index reply is applied or saved, anything else ends the reload |
| Reload.Conclude | tnt/tnt_net.c:208-213 | a saved index reply is applied last, and both parts have to be loaded |
| Reload.NetStream.SetReqid | tnt/tnt_stream.c:42-48 | a request counter passes through 32 bits |
| Reload.NetStream.GetRows | tnt/tnt_schema.c:308-334 | one select for all rows of a system space goes out and is counted |
| Reload.NetStream.Ask | tnt/tnt_net.c:176-180 | the selects go out under syncs 127 and 128 and count if they could be sent, one failing does not stop the other, and the old counter comes back cut to 32 bits |
| Reload.NetStream.Reload | tnt/tnt_net.c:171-220 | the whole call: refused without a trace when not connected or with requests outstanding; otherwise result and cache are those of the replies on the wire up to the last final one of a select that was sent; one clean reply to each select, in either order, makes an empty cache hold exactly the tuples they carry |
| Reload.Concluded | tnt/tnt_net.c:180-220 | a reload returns 0 exactly for the reply sequences that `Reload.SuccessExactly` describes |
| Reload.TurnsCount | tnt/tnt_net.c:184-206 | what the load mask and the saved reply have become after any replies |
| Reload.SuccessExactly | tnt/tnt_net.c:180-213 | the exact reply sequences for which a reload reports success |
| Reload.SuccessLoads | tnt/tnt_net.c:184-213 | what a successful reload has loaded, for every accepted reply sequence |
| Reload.FirstIndexesLost | tnt/tnt_net.c:195-199 | of two index replies before the space reply the first is lost, and the reload succeeds |
| Reload.NoIndexesAtAll | tnt/tnt_net.c:187-213 | three space replies succeed without any index |
| Reload.NoRowsAtAll | tnt/tnt_net.c:186-206 | replies that carry no rows succeed and load nothing |
| Reload.OrderlyLoads | tnt/tnt_net.c:180-213 | from an empty cache, one clean reply of each kind in either order leaves exactly their tuples, every hash exact |
| Reload.OneReplyFails | tnt/tnt_net.c:208-213 | a single reply never makes a reload succeed |
| Reload.TwoReplies | tnt/tnt_net.c:180-213 | with one reply to each request: success exactly for one error-free reply of each kind, in either order, leaving the same cache |
| Iter.Span | tnt/tnt_iter.c:57-71 | the bytes skipped over are one value exactly |
| Iter.ArrayIter.constructor | tnt/tnt_iter.c:87-108 | a new iterator has all elements in front of it |
| Iter.ArrayIter.Next | tnt/tnt_iter.c:57-71 | yields exactly the next element, and fails exactly when none is left |
| Iter.ArrayIter.Rewind | tnt/tnt_iter.c:73-79 | all elements are in front again |
| Iter.MapIter.constructor | tnt/tnt_iter.c:147-168 | a new iterator has all pairs in front of it |
| Iter.MapIter.Next | tnt/tnt_iter.c:111-129 | yields exactly the next key and value |
| Iter.MapIter.Rewind | tnt/tnt_iter.c:131-139 | all pairs are in front again |
| Iter.OpenArray | tnt/tnt_iter.c:87-108 | NULL exactly for data that does not start with a valid array |
| Iter.OpenMap | tnt/tnt_iter.c:147-168 | NULL exactly for data that does not start with a valid map |
| Iter.WalkArray | tnt/tnt_iter.c:57-108 | a whole walk meets every element once, in order |
| TpBuilder.FramesAppend | include/tp.h:894-903 | the buffer of two lists of requests is one behind the other |
| TpBuilder.Opened | include/tp.h:894-936 | header, body and length update make one new frame; earlier frames keep every byte |
| TpBuilder.Extended | include/tp.h:894-903 | bytes added later extend the current request only, and its length field follows |
| TpBuilder.NumberedFrames | include/tp.h:1359-1366 | setting the request id changes the sync of the current request only |
| TpBuilder.GrownSuffices | include/tp.h:816-824 | when the reallocated buffer has room: always for requests up to the old size, and exactly when doubling suffices or is not used |
| TpBuilder.GrownFallsShort | include/tp.h:816-824 | a concrete case in which it has not |
| TpBuilder.Tp.constructor | include/tp.h:851-862 | an empty buffer holds no request |
| TpBuilder.Tp.Reserve | include/tp.h:816-824 | another block, at another place, with the old contents |
| TpBuilder.Tp.Ensure | include/tp.h:869-888 | across a relocation contents and both interior offsets stay; -1 exactly without room and without a reallocator; room afterwards exactly under the stated condition |
| TpBuilder.Tp.Put | include/tp.h:923-936 | encoding behind the end touches nothing before it |
| TpBuilder.Tp.Add | include/tp.h:894-903 | takes the bytes in and rewrites the length field of the current request |
| TpBuilder.Tp.SizeofHeader | include/tp.h:909-917 | the computed header size is what is written |
| TpBuilder.Tp.EncodeHeader | include/tp.h:923-936 | writes the header behind five bytes left for the length, and sets both pointers |
| TpBuilder.Tp.Open | include/tp.h:946-953 | reserve and header: everything announced fits, or nothing happens |
| TpBuilder.Tp.Close | include/tp.h:953-955 | the announced size equals the bytes written, and a new request is complete |
| TpBuilder.Tp.Ping | include/tp.h:946-956 | appends a ping |
| TpBuilder.Tp.PutSelect | include/tp.h:986-1000 | the twelve encodings of a select |
| TpBuilder.Tp.Select | include/tp.h:968-1001 | appends a select whose key is to follow |
| TpBuilder.Tp.Store | include/tp.h:1007-1023 | appends an insert or replace whose tuple is to follow |
| TpBuilder.Tp.Call | include/tp.h:1099-1146 | appends a call or an eval whose arguments are to follow |
| TpBuilder.Tp.Update | include/tp.h:1163-1179 | appends an update whose key and operations are to follow |
| TpBuilder.Tp.Value | include/tp.h:1371-1532 | every value function adds exactly its encoding to the current request |
| TpBuilder.Tp.UpdateBegin | include/tp.h:1185-1194 | adds the key and size of the operation list |
| TpBuilder.Tp.Op | include/tp.h:1213-1225 | adds an operation whose argument is to follow |
| TpBuilder.Tp.Reqid | include/tp.h:1359-1366 | renumbers the current request through the sync pointer |
| TpFrames.BufferReadsBack | include/tp.h:894-903 | cutting the buffer at its length fields gives back exactly the requests, in order |
| TpFrames.MoreReadsBack | include/tp.h:894-903 | after a value function the reader finds the same requests, the last one longer by the bytes added |
| TpFrames.NumberReadsBack | include/tp.h:1359-1366 | after a new request id it finds the same requests, the last one under that sync |
| TpFrames.EarlierFramesStay | include/tp.h:894-1532 | in every run of calls all frames before the current one stay byte for byte |
| TpFrames.OpeningExact | include/tp.h:923-936 | the header is the map of code and sync |
| TpFrames.FrameMeans | include/tp.h:894-936 | a frame reads back as its code, its sync and its body map |
| TpFrames.SelectIsMap | include/tp.h:968-1001 | a select and its key make the map of six fields |
| TpFrames.StoreIsMap | include/tp.h:1007-1023 | an insert or replace and its tuple make a map |
| TpFrames.CallIsMap | include/tp.h:1099-1146 | a call or eval and its arguments make a map |
| TpFrames.UpdateIsMap | include/tp.h:1163-1194 | an update, its key and its operations make a map |
| TpFrames.OpIsArray | include/tp.h:1213-1225 | an operation and its argument make an array of three |
| TpFrames.PingIsMap | include/tp.h:946-956 | a ping reads back as its code, its sync and the empty map |
| LogReader.WindowShifts | tntrpl/tnt_log.c:100-106 | shifting a byte in moves the four-byte window by one |
| LogReader.GapThenMark | tntrpl/tnt_log.c:100-106 | the marker does not overlap itself: bytes without a marker do not form one with the marker behind them |
| LogReader.HeaderReads | tntrpl/tnt_log.c:108-119 | a written header reads back with matching checksum |
| LogReader.Log.Seek | tntrpl/tnt_log.c:93-106 | stops behind the first occurrence of the marker and skips none; ends the file only if there is none |
| LogReader.Log.Eof | tntrpl/tnt_log.c:69-86 | corrupt exactly when four bytes that are not the end marker lie behind the offset; only an end marker moves the offset |
| LogReader.Log.Read | tntrpl/tnt_log.c:88-140 | one read on any file: a record if and only if behind the first marker a full header and a full, non-empty payload match their checksums; corruption whenever one does not; and where the file is left |
| LogReader.BehindChecked | tntrpl/tnt_log.c:108-134 | the same for what lies behind a marker, over the bytes of the file |
| LogReader.AlteredItem | tntrpl/tnt_log.c:131-134 | a record whose payload was altered is corrupt, unless the checksum cannot tell |
| LogReader.OneItem | tntrpl/tnt_log.c:88-140 | a record behind bytes without a marker is read back exactly, if and only if its payload is not empty |
| LogReader.ReadLog | tntrpl/tnt_log.c:88-140 | repeated reads return exactly the records of the file, in order |

## Left out

- Sockets, connecting, polling, timeouts, options, URI parsing: the transport is a nondeterministic step that moves between one byte and everything, or fails.
- SHA-1, base64, authentication (`tnt_auth`, `tp_auth`, `tp_deauth`) and `tnt_execute`.
- The internals of msgpuck, mhash, PMurHash and crc32: formats come from the MessagePack specification, a hash is a map, the checksum is any function.
- Allocation failures and the custom allocator.
- Memory orders of the atomic counter: its updates are atomic steps.
- Float and double bit patterns, carried as opaque numbers.
- `tnt_buf_read`, `tnt_buf_reply` and buffers borrowed from the caller (`tnt_buf_as`, `tnt_object_as`).
- BuilderRuns.BuildForest: for trees nested at most eight deep and containers of fewer than 2^32 children, because the stack loses its entries when it grows and counts in 32 bits; `BuilderDepth.SafeDepth` shows the first limit is exact.
- BuilderRuns.RunBuildsForest: for runs with at most eight containers open, whose closed containers have fewer than 2^32 children and, in SIMPLE mode, the sizes declared.
- BuilderCost.ShiftsAreCheap: for runs with at most eight containers open, since deeper ones lose stack entries.
- Format.VFormat: for formats that keep at most eight containers open; invalid formats trip assertions of the original and have no meaning here.
- `strz` variants, which are the counted ones at `strlen`, and `tnt_request_set_key_format` and `tnt_request_set_tuple_format`, which are a format and a set.
- Update.Build: for fewer than 2^32 operations.
- Requests.Sink.Writev: a gathering write takes everything or fails; partial writes are in `Transport`.
- RequestProofs.RequestReadsBack: for keys and tuples that are each one MessagePack value; the writer does not check them.
- RequestProofs.SameUpdate: for index base zero, the only one the one-shot encoder can express.
- RequestProofs.SameUpsert: for index base zero, for the same reason.
- Reply.ReplyLen: for length prefixes that take at most five bytes; the code reserves five bytes and cannot read the nine-byte form.
- The presence bitmap of a reply, whose shift is meaningful for keys below 64 only.
- Reply.DecodeBody: for bodies whose keys are unsigned numbers when the body is a map at all; the code reads keys without looking at their type.
- Schema.LoadAgrees: for tuples with distinct names and numbers, no name spelled like a number in use, into an empty cache; a reload does not empty the old one.
- Schema.Schema.AddIndex: for tuples of at least three elements that start with a number, which the code takes for granted.
- Accounting.EveryInterleaving: for one reader and fewer than 2^32 outstanding requests.
- Reload.NetStream.Reload: for complete, well-formed replies, two final ones among them whether or not both selects could be sent.
- Reload.ReplyLoop: for complete, well-formed replies to the requests counted.
- `tnt_close` and connection setup.
- Request and storage iterators, which wrap their parsers.
- Iter.ArrayIter.Next: for fewer than 2^31 calls between rewinds, because the index is an int.
- Iter.MapIter.Next: the same.
- TpBuilder.Tp.Ensure: the reserve callback is `tp_realloc` or absent; other callbacks are not modelled.
- TpBuilder.Tp.Ping: only when the reallocated buffer has room (`TpBuilder.GrownSuffices`), since the code does not check it.
- TpBuilder.Tp.Select: only when the reallocated buffer has room (`TpBuilder.GrownSuffices`), since the code does not check it.
- TpBuilder.Tp.Store: only when the reallocated buffer has room (`TpBuilder.GrownSuffices`), since the code does not check it.
- TpBuilder.Tp.Call: only when the reallocated buffer has room (`TpBuilder.GrownSuffices`), since the code does not check it; names shorter than 2^31 bytes, because sizes are ints.
- TpBuilder.Tp.Update: only when the reallocated buffer has room (`TpBuilder.GrownSuffices`), since the code does not check it.
- TpBuilder.Tp.Value: only when the reallocated buffer has room (`TpBuilder.GrownSuffices`), since the code does not check it; strings shorter than 2^31 bytes, because sizes are ints.
- TpBuilder.Tp.UpdateBegin: only when the reallocated buffer has room (`TpBuilder.GrownSuffices`), since the code does not check it.
- TpBuilder.Tp.Op: only when the reallocated buffer has room (`TpBuilder.GrownSuffices`), since the code does not check it.
- TpFrames.BufferReadsBack: for requests shorter than 2^32 bytes; longer ones wrap the length field.
- `tp_delete`, `tp_op_splice` and `tp_format`, which do not size what they write exactly; the greeting, reply and iterator parts of `include/tp.h`.
- LogReader.ReadLog: for payloads of at least one byte; what the final read makes of an end marker is in `LogReader.Log.Eof` only.
- The rest of `tntrpl` (directories, replication, row decoding), which depends on types that are not part of this model.
