# Verified cores of eteroj

Eteroj is a set of LV2 plugins that carry Open Sound Control (OSC) and JSON between hosts. This
project models the small stateful cores under it in Dafny and proves what they are for. It is
checked with `dafny verify dfyconfig.toml`.

| files | what they model |
|---|---|
| `VarchunkProtocol.dfy`, `Varchunk.dfy` | the lock-free ring of variable-size chunks: a transition system whose steps are the single loads, stores and writes of producer and consumer, and the class whose methods perform those steps |
| `AtomTree.dfy`, `NetatomSpec.dfy`, `NetatomMeaning.dfy`, `NetatomMemory.dfy`, `NetatomWire.dfy`, `Netatom.dfy` | sending an LV2 atom to another host: what happens on trees, what that means, the bytes on the wire, and the code that rewrites memory in place |
| `JsmnSpec.dfy`, `JsmnSafety.dfy`, `JsmnLayout.dfy`, `JsmnJson.dfy`, `JsmnScan.dfy`, `Jsmn.dfy` | the JSON tokenizer: its run as a function, what holds after any successful run, JSON texts and their token layout, what any text is taken for and why it is refused, and the parser class |
| `OscPacket.dfy`, `OscAtoms.dfy`, `OscDecode.dfy`, `OscFormat.dfy`, `OscForm.dfy`, `OscImage.dfy`, `OscPadding.dfy`, `OscPrint.dfy`, `OscWriter.dfy`, `OscForge.dfy`, `OscRoundTrip.dfy` | OSC packets, their bytes and padding, the numbers and characters of OSC 1.0, the atoms that carry them and their form and size, the writer, the reader and the forge |
| `SchedulerSpec.dfy`, `Scheduler.dfy` | the list of bundles that wait for their time |
| `Slip.dfy`, `SlipUnits.dfy`, `SlipInline.dfy` | SLIP framing in place, against the numbers of RFC 1055, and the loop that drains received frames |
| `Cloak.dfy`, `CloakCode.dfy` | the 7-bit code for MIDI system exclusive messages, in place and position by position |
| `Props.dfy` | the property table: quicksort with an aliased pivot, lookup by halving, map and unmap |
| `Bytes.dfy`, `Splice.dfy`, `Urid.dfy` | words and byte order, overwriting a stretch, the URID features of a host |

## How the model relates to the code

- Ring: `head` and `tail` are masked offsets. What a side has not seen yet of the other's
  progress is explicit (`lag` for the producer's view of `tail`, `seen` for the consumer's view
  of `head`), so every load may return any value between the last one seen and the current one.
  That is what acquire and release promise. Masking with `size - 1` is the remainder by `size`,
  which `Varchunk.BodySize` shows to be a power of two. Bodies of every size are modelled, also
  those of up to 16 bytes, which never grant a request (`SmallRingRefuses`).
- Padding in the ring: `VARCHUNK_PAD` masks with the complement of a 32-bit 7, which clears the
  bits from 32 on of a wider size. `CPad` models that. It pads correctly exactly up to 2^32 - 8
  bytes; for more a request may be granted without the room (`HugeRequestIsGranted`), and the
  room is there exactly up to that size (`RoomExactly`).
- The commit contract is `written <= 2^32 - 8` and `8 + pad8(written) <= rsvd`. The assertion in
  `varchunk_write_advance` only demands `written <= rsvd`; `rsvd` still counts the header, and
  `AssertionIsTooWeak` gives a commit that passes it and leaves the reserved region.
- Netatom: every field the code touches is a naturally aligned 32-bit or 64-bit number, so
  memory is an array of 32-bit words on a little-endian host; only URI strings are bytes. The
  `strncpy` that adds an entry clears 8 bytes behind it, beyond `size_rx` where the entry ends
  fewer than 8 bytes before it. So 8 bytes of slack behind the buffer are demanded of the caller,
  and `Netatom.Netatom.Serialize` with `NetatomMemory.SpillsExactly` says when they change.
- Hosts: 0 is nobody's number, and `map` and `unmap` are inverse wherever `map` has a number; it
  may answer 0 for any URI but those of the atom types. `NetatomSpec.SomeHost` is such a host.
- Jsmn: the variant without `JSMN_STRICT` and `JSMN_PARENT_LINKS`, with a token array. A comma
  outside every container reads the type of the token before the array; that type is the
  parameter `junk`, and `JunkIsHarmless` shows that no run depends on it.
- OSC: the type and key URIDs of atoms are modelled by what they stand for. The writer leaves
  the padding of a blob as it found it, so the encoding `Enc` takes the bytes that were there.
- Scheduler: frames are reals, and the clock of a period is an arbitrary strictly increasing
  function. `qsort` is only known to sort and to permute. The code scans the list up to the
  first free entry. A period must therefore begin with one free, and if its bundles fill the
  list, which drops the others, one of those in it must not be due yet.
- The plugin never asks the writer whether the packet fitted: it commits what was written, which
  is the packet exactly if that is smaller than the body of its object.
- Widths: JSON texts, the packets of the cloak plugin and the property table are assumed shorter
  than 2^31, since jsmn keeps token offsets as `int`, the cloak plugin its index as `int` and its
  size as 32 bits, and the table its number of entries as `int`. Sizes of atoms and OSC items are
  32-bit numbers throughout.
- Where code and comments differ the code was followed: the writer's test for overflow keeps one
  byte free (`>=`), and a message whose path or arguments have the wrong type is reported as
  written although nothing was.

## Model

| member | source | states |
|---|---|---|
| `Varchunk.BodySize` | varchunk/varchunk.h:108-115 | the loop returns the least power of two that is not below the minimum |
| `Bytes.Be32Bytes` | osc.lv2/osc.lv2/writer.h:87-111 | the bytes of a 32-bit number in network byte order are its digits to base 256, the most significant first |
| `Bytes.FromBe32Sum` | osc.lv2/osc.lv2/reader.h:103-127 | reading four bytes in network byte order gives their sum weighted by the powers of 256 |
| `Bytes.Le32Bytes` | varchunk/varchunk.h:79-82 | in memory the least significant byte comes first |
| `Bytes.FromLe32Sum` | varchunk/varchunk.h:79-82 | reading four bytes of memory gives their sum weighted by the powers of 256 |
| `VarchunkProtocol.MaskIsWrap` | varchunk/varchunk.h:167-173 | for an index below two laps, masking is one conditional subtraction |
| `VarchunkProtocol.PadsExactly` | varchunk/varchunk.h:75 | the padding macro gives the remainder by 2^32 of the next multiple of 8; this is the multiple itself if and only if the size is at most 2^32 - 8, and smaller than the size above |
| `VarchunkProtocol.HeaderRoundTrip` | varchunk/varchunk.h:77-80 | an element header reads back as the size and gap that were written |
| `VarchunkProtocol.HeaderBytes` | varchunk/varchunk.h:79-82 | an element header is the size and then the gap flag, each with its least significant byte first |
| `VarchunkProtocol.RequestBounds` | varchunk/varchunk.h:175-254 | whatever stale tail was loaded, a granted region holds two headers and the minimum as the code pads it, lies in the buffer, starts at head or, behind a gap that ends exactly at the end and whose size fits its 32-bit header, at 0, and together with everything unread stays short of one lap, so head can never catch up with tail |
| `VarchunkProtocol.GrantedExactly` | varchunk/varchunk.h:175-254 | a byte is free if it lies behind everything unread and is not the last one of the lap; a request is granted if and only if enough free bytes follow each other at head or at the start of the buffer, at head if possible, and the region is the longest row of them there |
| `VarchunkProtocol.InitInv` | varchunk/varchunk.h:117-132 | a fresh ring satisfies the invariant |
| `VarchunkProtocol.LoadTailKeeps` | varchunk/varchunk.h:183 | loading any tail between the last seen and the current one keeps the invariant |
| `VarchunkProtocol.ReserveKeeps` | varchunk/varchunk.h:184-254 | so does computing the grant |
| `VarchunkProtocol.FillKeeps` | varchunk/varchunk.h:175-254 | so does any write of the producer into its region: no unread chunk changes |
| `VarchunkProtocol.WriteGapKeeps` | varchunk/varchunk.h:269-277 | so does the gap header, which fits in front of the end |
| `VarchunkProtocol.WriteHeaderKeeps` | varchunk/varchunk.h:278-290 | so does the chunk header, which lies in the buffer |
| `VarchunkProtocol.StoreHeadKeeps` | varchunk/varchunk.h:291-294 | so does publishing: the new commit tiles on behind the old ones |
| `VarchunkProtocol.LoadHeadKeeps` | varchunk/varchunk.h:310 | so does loading any head between the last seen and the current one |
| `VarchunkProtocol.ExamineKeeps` | varchunk/varchunk.h:311-356 | so does finding the next chunk or skipping a gap |
| `VarchunkProtocol.TakeAfterGapKeeps` | varchunk/varchunk.h:334-341 | so does taking the chunk behind a gap, which is always there |
| `VarchunkProtocol.ReleaseKeeps` | varchunk/varchunk.h:365-376 | so does releasing a chunk |
| `VarchunkProtocol.TiledFrame` | varchunk/varchunk.h:262-294 | the chunks walked from tail by 8 + pad8(size) depend only on the bytes between tail and head |
| `VarchunkProtocol.TiledAppend` | varchunk/varchunk.h:262-294 | a commit behind the last one extends the tiling exactly to the new head |
| `VarchunkProtocol.RingLayout` | varchunk/varchunk.h:262-363 | in every reachable state the ring is empty if and only if head equals tail, every commit lies at a multiple of 8, a gap ends exactly at the end of the buffer with a chunk at 0 behind it, and there is at most one |
| `VarchunkProtocol.ReadSpaceIsVisible` | varchunk/varchunk.h:312-318 | the readable space is exactly the total size of the commits the consumer can see; 0 means empty |
| `VarchunkProtocol.GapIsRecognised` | varchunk/varchunk.h:312-356 | the reader takes the gap branch if and only if the next commit starts with a gap, the gap ends exactly at the end of the buffer and a chunk follows it at 0; the branch that does not wrap never meets one |
| `VarchunkProtocol.HeldChunk` | varchunk/varchunk.h:304-376 | what the consumer holds is the oldest unread chunk, with its size and bytes |
| `VarchunkProtocol.StepRefinesQueue` | varchunk/varchunk.h:167-376 | every step is a step of a FIFO queue: StoreHead appends the first `written` bytes of the producer's draft, Release removes the oldest chunk, every other step changes neither |
| `VarchunkProtocol.DeliveredIsPrefix` | varchunk/varchunk.h:167-376 | after every run of interleaved steps with stale views, committed = delivered followed by what is queued; nothing delivered or committed is ever taken back |
| `VarchunkProtocol.GrantIsDisjoint` | varchunk/varchunk.h:175-294 | no byte of a granted region or its gap belongs to an unread chunk or to the one being held |
| `VarchunkProtocol.GrantSurvives` | varchunk/varchunk.h:175-294 | a grant stays as it is however many consumer steps happen before write_advance |
| `VarchunkProtocol.HeldChunkSurvives` | varchunk/varchunk.h:304-376 | a held chunk keeps its bytes however many producer steps happen |
| `VarchunkProtocol.EmptyRingAccepts` | varchunk/varchunk.h:175-254 | an empty ring grants a request at every head if and only if the minimum as the code pads it and two headers are at most size/2; it has room for the minimum, too, if and only if 16 + pad8(minimum) <= size/2 and the minimum is at most 2^32 - 8 |
| `VarchunkProtocol.CommitFitsExactly` | varchunk/varchunk.h:262-294 | head moves past the whole chunk, and the element stays inside the buffer and short of a lap, if and only if written <= 2^32 - 8 and 8 + pad8(written) <= rsvd |
| `VarchunkProtocol.MinimumFits` | varchunk/varchunk.h:175-294 | every commit of no more than was asked for meets that contract if and only if at most 2^32 - 8 bytes were asked for |
| `VarchunkProtocol.RoomExactly` | varchunk/varchunk.h:175-254 | a granted region has room for the minimum if and only if that is at most 2^32 - 8; in a body of up to 2^32 bytes for two headers, too |
| `VarchunkProtocol.HugeRequestIsGranted` | varchunk/varchunk.h:175-254 | an empty ring of 64 bytes grants requests for 2^32 and for 2^32 - 7 bytes, each with a region of 63 |
| `VarchunkProtocol.MaximumNeverFits` | varchunk/varchunk.h:175-294 | the reported maximum still counts the header, so committing all of it never fits; what fits is exactly up to the largest multiple of 8 that is left behind the header, or 2^32 - 8 if that is less; the minimum is among it if and only if it is at most 2^32 - 8 |
| `VarchunkProtocol.AssertionIsTooWeak` | varchunk/varchunk.h:266-267 | a ring of 64 bytes and a commit of 63: the assertion holds, but the chunk is larger than the region and the new head is 8 |
| `Varchunk.Ring.constructor` | varchunk/varchunk.h:117-153 | a new ring is empty, whatever minimum was asked for |
| `Varchunk.Ring.WriteRequestMax` | varchunk/varchunk.h:175-254 | performs LoadTail and Reserve; a pointer is returned if and only if there are enough free bytes in a row at head or at 0, and the maximum is the length of the longest such row; there is room for the minimum if and only if that is at most 2^32 - 8 |
| `Varchunk.Ring.ReserveRegion` | varchunk/varchunk.h:187-253 | the branches compute the specified grant and set `rsvd` and `gapd` accordingly |
| `Varchunk.Ring.WriteAdvance` | varchunk/varchunk.h:262-294 | appends the first `written` bytes of the region to the queue |
| `Varchunk.Ring.ReadRequest` | varchunk/varchunk.h:304-363 | returns the oldest chunk where one is visible and nothing otherwise; the queue stays as it is |
| `Varchunk.Ring.ReadAdvance` | varchunk/varchunk.h:365-376 | removes the oldest chunk |
| `AtomTree.Swap32Involution` | netatom.lv2/netatom.lv2/netatom.h:134-135 | swapping the bytes of a word twice gives it back |
| `AtomTree.SwappedIsBigEndian` | netatom.lv2/netatom.lv2/netatom.h:134-135 | a swapped word lies in memory in network byte order |
| `AtomTree.SwapElementsTwice` | netatom.lv2/netatom.lv2/netatom.h:310-333 | so does swapping the elements of a vector of any width |
| `NetatomSpec.SomeHost` | netatom.lv2/netatom.lv2/netatom.h:502-518 | hosts with the assumed properties exist |
| `NetatomSpec.Find` | netatom.lv2/netatom.lv2/netatom.h:83-95 | the first dictionary entry with the URID, if there is one |
| `NetatomSpec.TagByUri` | netatom.lv2/netatom.lv2/netatom.h:189-341 | a type is recognised on a host if and only if the host unmaps it to that type's URI, written out in full |
| `NetatomMeaning.AtomGrows` | netatom.lv2/netatom.lv2/netatom.h:77-136 | serialising only appends to the dictionary, whose entries stay pairwise distinct, mapped and within capacity |
| `NetatomMeaning.RefSurvives` | netatom.lv2/netatom.lv2/netatom.h:92-125 | a reference handed out early finds the same entry in every later dictionary |
| `NetatomMeaning.UriMeaning` | netatom.lv2/netatom.lv2/netatom.h:77-167 | resolving a serialised URID at the receiver gives the receiver's number for the same URI |
| `NetatomMeaning.AtomMeaning` | netatom.lv2/netatom.lv2/netatom.h:183-443 | so for every URID field of every nested atom at once: resolving the sent tree is translating the original |
| `NetatomMeaning.AtomRefsOk` | netatom.lv2/netatom.lv2/netatom.h:155-167 | every reference in the sent tree is 0 or the offset of an entry |
| `NetatomMeaning.AtomDict` | netatom.lv2/netatom.lv2/netatom.h:183-346 | the late rewriting visits exactly the URID fields, in a fixed order |
| `NetatomMeaning.OverflowExactly` | netatom.lv2/netatom.lv2/netatom.h:116-130 | overflow is flagged if and only if the needed dictionary does not fit, and otherwise the dictionary is the needed one |
| `NetatomMeaning.NeededExactly` | netatom.lv2/netatom.lv2/netatom.h:77-136 | the needed dictionary holds exactly the mapped URIDs of the atom other than 0, each once and with its own URI |
| `NetatomMeaning.SerialisesIffFits` | netatom.lv2/netatom.lv2/netatom.h:445-474 | serialising succeeds if and only if the entries of the distinct mapped URIDs fit behind the atom, and then sends those |
| `NetatomMeaning.ReceivedIsTranslated` | netatom.lv2/netatom.lv2/netatom.h:445-500 | what is received is the original with every URID translated, whatever numbers the receiver uses |
| `NetatomMeaning.SameUris` | netatom.lv2/netatom.lv2/netatom.h:155-181 | field by field, the received URID stands for the URI that the sent one stood for, if and only if the receiver has a number for each of these URIs |
| `NetatomMeaning.MeaningKeepsTag` | netatom.lv2/netatom.lv2/netatom.h:348-443 | an atom has the same known type on both hosts |
| `NetatomMeaning.MapUrids` | netatom.lv2/netatom.lv2/netatom.h:183-443 | translating an atom translates the list of its URID fields and nothing else |
| `NetatomMeaning.MapIdentity` | netatom.lv2/netatom.lv2/netatom.h:183-443 | a translation changes an atom if and only if it changes one of its URIDs |
| `NetatomMeaning.RoundTripExactly` | netatom.lv2/netatom.lv2/netatom.h:77-500 | on one host the original comes back if and only if every URID in it is 0 or mapped |
| `NetatomMeaning.TypesTravel` | netatom.lv2/netatom.lv2/netatom.h:348-443 | the received atom is typed for the receiver, so it walks the same structure; a type the receiver does not know becomes an unknown one |
| `NetatomMeaning.SerShape` | netatom.lv2/netatom.lv2/netatom.h:183-346 | serialising keeps the size of every atom |
| `NetatomMemory.ReadPacked` | netatom.lv2/netatom.lv2/netatom.h:112-121 | a URI packed into words reads back as itself, whatever follows |
| `NetatomMemory.SpillsExactly` | netatom.lv2/netatom.lv2/netatom.h:112-124 | the words behind `size_rx` come through if and only if no entry was added or those that `strncpy` cleared held 0; when they held something, if and only if the dictionary ends 8 bytes before |
| `NetatomWire.AtomOnTheWire` | netatom.lv2/netatom.lv2/netatom.h:183-346 | the bytes of an atom of any shape: with swapping every number field, and every number of a vector, is in network byte order, without in that of the host; byte strings and padding are as they are |
| `NetatomWire.DictOnTheWire` | netatom.lv2/netatom.lv2/netatom.h:138-153 | the bytes of the dictionary: for each entry its size, four NULs and the URI padded with NULs to 8 bytes |
| `NetatomWire.RefCountsBytes` | netatom.lv2/netatom.lv2/netatom.h:92-125 | a reference is one plus the number of bytes of the dictionary in front of its entry |
| `NetatomWire.SizesAre` | netatom.lv2/netatom.lv2/netatom.h:189-341 | the size field of every atom counts the bytes of its body without the padding |
| `Netatom.Netatom.FindRef` | netatom.lv2/netatom.lv2/netatom.h:83-95 | the walk over the dictionary in memory finds the reference of the first match, 0 for none |
| `Netatom.Netatom.AddEntry` | netatom.lv2/netatom.lv2/netatom.h:112-124 | appends one entry and leaves the atom alone, although `strncpy` clears beyond the entry |
| `Netatom.Netatom.SerUri` | netatom.lv2/netatom.lv2/netatom.h:77-136 | rewrites one URID in place to its swapped reference; the dictionary in memory is the specified one |
| `Netatom.Netatom.SerKids` | netatom.lv2/netatom.lv2/netatom.h:259-309 | the loop that rewrites every child one iteration late leaves exactly the encoding of the serialised children: no size is read after it was swapped |
| `Netatom.Netatom.SerAtom` | netatom.lv2/netatom.lv2/netatom.h:183-346 | rewrites an atom of any shape in place to the encoding of the serialised tree, and nothing else |
| `Netatom.Netatom.SerDict` | netatom.lv2/netatom.lv2/netatom.h:138-153 | clears every key and swaps every size, each after it was last read |
| `Netatom.Netatom.Serialize` | netatom.lv2/netatom.lv2/netatom.h:445-474 | fails exactly on overflow; otherwise the buffer holds the serialised atom and the dictionary, word by word and byte by byte (`NetatomWire.WireAtom`, `WireDict`: numbers in network byte order when swapping), and the size sent is their sum and fits; in both cases everything behind the dictionary is as it was, but for the 8 bytes that the last `strncpy` cleared |
| `Netatom.Netatom.DeserDict` | netatom.lv2/netatom.lv2/netatom.h:169-181 | swaps sizes back and maps every URI to the receiver's number |
| `Netatom.Netatom.DeserUri` | netatom.lv2/netatom.lv2/netatom.h:155-167 | replaces a valid reference by the number of its entry |
| `Netatom.Netatom.DeserKids` | netatom.lv2/netatom.lv2/netatom.h:387-419 | restores every child of an object, tuple or sequence |
| `Netatom.Netatom.DeserAtom` | netatom.lv2/netatom.lv2/netatom.h:348-443 | restores an atom of any shape in place, and touches nothing else |
| `Netatom.Netatom.Deserialize` | netatom.lv2/netatom.lv2/netatom.h:476-500 | the buffer then holds the atom with every reference resolved |
| `Netatom.Relay` | netatom.lv2/netatom.lv2/netatom.h:445-500 | the whole trip through one buffer, in both swap modes: it fails exactly when the dictionary does not fit, and otherwise leaves the sender's atom with every URID translated |
| `JsmnSpec.LastOpen` | jsmn/jsmn.c:208-227 | the backward scan finds the last token that is still open |
| `JsmnSpec.StepAdvances` | jsmn/jsmn.c:160-290 | every pass of the main loop consumes text |
| `JsmnSafety.StepKeeps` | jsmn/jsmn.c:160-290 | every pass keeps the tokens ordered, nested or disjoint, and the sum of sizes in step with the count |
| `JsmnSafety.ParsedTokens` | jsmn/jsmn.c:153-300 | after success on any text: the result is the number of tokens, starts strictly increase, any two spans are disjoint or nested, every container ends at its own kind of bracket, strings are between quotes, and the sizes add up to the tokens less those made without a parent |
| `JsmnSafety.JunkIsHarmless` | jsmn/jsmn.c:242-259 | no run depends on the token type read before the array |
| `JsmnLayout.CharClasses` | jsmn/jsmn.c:41-76 | the tokenizer's white space, escapes, hexadecimal digits and delimiters are exactly those of RFC 8259, which the JSON texts here are defined with |
| `JsmnScan.StringExactly` | jsmn/jsmn.c:86-148 | on any text: a string ends at q if and only if it is closed there and everything before is characters and escapes; it is invalid if and only if such a stretch leads to a bad escape; otherwise it is unfinished |
| `JsmnScan.PrimitiveExactly` | jsmn/jsmn.c:37-81 | on any text: a primitive ends at q if and only if it is printable up to there and a delimiter or the end follows; otherwise it is invalid |
| `JsmnScan.RunVerdict` | jsmn/jsmn.c:153-300 | every run ends for the reason its result names: success with all containers closed, a bracket that closes nothing, a bad string or word, too few tokens, or an end too early |
| `JsmnScan.NulEndsText` | jsmn/jsmn.c:160 | nothing behind a NUL is looked at, unless a backslash stands in front of the NUL |
| `JsmnLayout.NumbersAreWords` | jsmn/jsmn.c:37-81 | every number of section 6 of RFC 8259 is one primitive |
| `JsmnLayout.LiteralsAreWords` | jsmn/jsmn.c:37-81 | so are true, false and null |
| `JsmnJson.ReadsValue` | jsmn/jsmn.c:153-300 | inside any state with room, a printed value adds exactly its layout and counts as one child |
| `JsmnJson.ParsesJson` | jsmn/jsmn.c:153-300 | every JSON text, by the character classes of RFC 8259, with any white space, and enough tokens gives the number of its nodes and exactly the pre-order layout: types, spans, object size = members, array size = elements, key size = 1 |
| `JsmnJson.ParsesIffRoom` | jsmn/jsmn.c:8-21 | a JSON text is parsed if and only if there are as many tokens as nodes; otherwise the error is NOMEM |
| `JsmnJson.TooFewTokens` | jsmn/jsmn.c:8-21 | any text that parses with enough tokens fails with NOMEM on fewer than it made |
| `Jsmn.Parser.AllocToken` | jsmn/jsmn.c:8-21 | takes the next token, or none when they are used up |
| `Jsmn.Parser.FillToken` | jsmn/jsmn.c:26-32 | sets one token |
| `Jsmn.Parser.ParsePrimitive` | jsmn/jsmn.c:37-81 | the scan with its errors, the token it appends, and the position restored on failure |
| `Jsmn.Parser.ParseString` | jsmn/jsmn.c:86-148 | the same for strings with escapes |
| `Jsmn.Parser.FindOpen` | jsmn/jsmn.c:208-227 | the loop computes the last open token |
| `Jsmn.Parser.CloseBracket` | jsmn/jsmn.c:184-229 | closes the innermost container of the right kind and finds the next one out |
| `Jsmn.Parser.Comma` | jsmn/jsmn.c:242-259 | goes back to the innermost open container |
| `Jsmn.Parser.Iterate` | jsmn/jsmn.c:160-290 | one pass of the loop is one step of the specification |
| `Jsmn.Parser.Parse` | jsmn/jsmn.c:153-300 | result and tokens are those of the specified run |
| `OscPacket.SizeQuad` | osc.lv2/osc.lv2/writer.h:281-296 | every packet, and so every item size, is a positive multiple of 4 |
| `OscFormat.TypeTagIs` | osc.lv2/osc.lv2/osc.h:74-94 | the type characters, as numbers |
| `OscFormat.KindOf` | osc.lv2/osc.lv2/reader.h:566-576 | a bundle is what starts with the eight bytes of #bundle, a message what starts with a slash |
| `OscFormat.BundleStarts` | osc.lv2/osc.lv2/writer.h:241-253 | a bundle is #bundle, seconds and fraction in network byte order, and its items |
| `OscFormat.MessageStarts` | osc.lv2/osc.lv2/writer.h:467-486 | a message is its path, a comma with one character for each argument, and its arguments |
| `OscFormat.TextParts` | osc.lv2/osc.lv2/writer.h:125-139 | a string is followed by one to four NULs |
| `OscFormat.UnHexIs` | osc.lv2/osc.lv2/writer.h:551-563 | hexadecimal digits are read in either case and nothing else is |
| `OscFormat.HexDigitIs` | osc.lv2/osc.lv2/forge.h:101-108 | they are written in lower case |
| `OscFormat.CharIs` | osc.lv2/osc.lv2/writer.h:235-239 | a char is widened to 32 bits with its sign, and cut off again |
| `OscFormat.BoolIs` | osc.lv2/osc.lv2/util.h:309-315 | any number but 0 is true |
| `OscFormat.LookupIs` | osc.lv2/osc.lv2/util.h:397-423 | the value of a key is that of its first property |
| `OscFormat.TimetagIs` | osc.lv2/osc.lv2/util.h:397-423 | a timetag object gives its two longs, or immediately unless both are there |
| `OscFormat.OtherAtoms` | osc.lv2/osc.lv2/writer.h:487-566 | what the writer takes from atoms that no forge makes: nil and impulse with any text, the first byte of a char, chunks below 2^31, known symbols, three MIDI bytes |
| `OscFormat.ColourIs` | osc.lv2/osc.lv2/writer.h:551-563 | a colour is eight hexadecimal digits, two for each part, and nothing else is one |
| `OscFormat.MessageIs` | osc.lv2/osc.lv2/util.h:544-564 | an object is a message if and only if its path is a string and its arguments are a tuple of atoms that stand for one, wherever they are among its properties |
| `OscFormat.BundleIs` | osc.lv2/osc.lv2/writer.h:437-464 | it is a bundle if and only if it has a timetag and a tuple of at least one item that all stand for packets |
| `OscAtoms.ArgBack` | osc.lv2/osc.lv2/util.h:286-333 | the argument an atom stands for is the one it was forged from, but for the port of a MIDI message, when the host unmaps what it mapped |
| `OscAtoms.PacketBack` | osc.lv2/osc.lv2/forge.h:326-468 | the same for messages and nested bundles |
| `OscAtoms.RoundTripExactly` | osc.lv2/osc.lv2/writer.h:538-545 | the trip of a packet through an atom loses nothing if and only if every MIDI port is 0 and the host unmaps every symbol to itself |
| `OscForm.ArgForm` | osc.lv2/osc.lv2/forge.h:38-128 | each argument has exactly one atom in the form of forged atoms: no spare property, timetags of two longs below 2^32 in order, booleans 0 or 1, lower-case colours, empty nil and impulse |
| `OscForm.ForgedExactly` | osc.lv2/osc.lv2/forge.h:326-468 | the same for messages and nested bundles: an atom has this form and stands for the packet if and only if it is the forged one |
| `OscAtoms.ReserveSuffices` | eteroj_io.c:448-461 | with no symbol longer than 11 characters a packet is strictly shorter than the body of its object |
| `OscAtoms.ReserveBoundExactly` | eteroj_io.c:448-461 | "every packet whose symbols have at most n characters is shorter than its object" holds if and only if n is at most 11: a message "/" with 39 longer symbols is not |
| `OscAtoms.LongSymbol` | eteroj_io.c:448-461 | for the message "/" with one symbol the limit is higher: it fits if and only if the symbol has fewer than 52 characters |
| `OscImage.BodySizeIs` | eteroj_io.c:448-449 | the size that is reserved for an atom is the number of bytes of its body as LV2 lays it out |
| `OscDecode.ArgReads` | osc.lv2/osc.lv2/reader.h:329-433 | every argument is read back and exactly its bytes are consumed, whatever follows |
| `OscDecode.ArgsRead` | osc.lv2/osc.lv2/reader.h:435-469 | so are whole argument lists |
| `OscDecode.Decodes` | osc.lv2/osc.lv2/reader.h:129-469 | the encoding of any packet tree, with any bytes in the padding of its blobs, reads back as the tree |
| `OscFormat.MessageOf` | osc.lv2/osc.lv2/forge.h:355-459 | on any types and body: a message is its path and the arguments that can be read; it fails without a comma or when the first argument cannot be read |
| `OscFormat.UnknownTypesSkipped` | osc.lv2/osc.lv2/reader.h:329-433 | unknown types between those of the arguments are passed over without touching the bytes |
| `OscFormat.CutOff` | osc.lv2/osc.lv2/reader.h:435-469 | where an argument cannot be read the arguments before it are the whole list |
| `OscFormat.MissingBytes` | osc.lv2/osc.lv2/reader.h:329-433 | no argument can be read of which a byte is missing |
| `OscFormat.BundleOf` | osc.lv2/osc.lv2/reader.h:278-297 | a bundle fails without a whole first item or with an item that is no packet |
| `OscFormat.LeftOver` | osc.lv2/osc.lv2/reader.h:305-311 | what follows the last whole item of a bundle is passed over |
| `OscFormat.BadItem` | osc.lv2/osc.lv2/forge.h:340-354 | one item that is no packet spoils the bundle |
| `OscDecode.DecodedIsOk` | osc.lv2/osc.lv2/reader.h:129-469 | whatever is read from any bytes is a well-formed packet whose own encoding is no longer than they were |
| `OscDecode.DecodeIsStable` | osc.lv2/osc.lv2/reader.h:129-469 | encoding what was read and reading it again changes nothing |
| `OscDecode.EncIsStable` | osc.lv2/osc.lv2/writer.h:165-181 | written over an encoding of itself a packet reproduces it to the byte |
| `OscPadding.ExactlyPadding` | osc.lv2/osc.lv2/writer.h:165-181 | two encodings of a packet tree are the same bytes if and only if they were written over the same padding of every blob, in nested bundles too |
| `OscPadding.EncIsCanonical` | osc.lv2/osc.lv2/writer.h:165-181 | every encoding is an encoding of its packet over itself, with the padding that was there |
| `OscPadding.CopyExactly` | osc.lv2/osc.lv2/forge.h:326-468 | the copy of received bytes is those bytes if and only if they are an encoding of their packet, every MIDI port is 0, and the padding where the copy goes agrees with theirs |
| `OscPrint.AtomArgOk` | osc.lv2/osc.lv2/util.h:286-333 | the type character announced for an atom is that of the argument it stands for |
| `OscWriter.Writer.Finalize` | osc.lv2/osc.lv2/writer.h:61-79 | the size is what lies between start and cursor |
| `OscWriter.Writer.AddString` | osc.lv2/osc.lv2/writer.h:125-139 | clearing the last word first and copying over it gives the padded string; succeeds if and only if it and one byte fit |
| `OscWriter.Writer.AddFormat` | osc.lv2/osc.lv2/writer.h:304-319 | the same for the comma and the types |
| `OscWriter.Writer.AddBlob` | osc.lv2/osc.lv2/writer.h:165-193 | size and data are written, the padding keeps the bytes that were there |
| `OscWriter.Writer.AddMidi` | osc.lv2/osc.lv2/writer.h:538-545 | succeeds if and only if the message has at most three bytes and there is room for four and one more; then port 0 and the message lie at the cursor, and what is left of the four bytes is as it was |
| `OscWriter.Writer.AddArg` | osc.lv2/osc.lv2/writer.h:487-566 | prints the argument an atom stands for, if and only if it fits; nothing else is touched |
| `OscWriter.Writer.AddArgs` | osc.lv2/osc.lv2/writer.h:487-566 | the loop prints the whole list |
| `OscWriter.Writer.PutMessage` | osc.lv2/osc.lv2/writer.h:467-570 | path, types and arguments |
| `OscWriter.Writer.PushBundle` | osc.lv2/osc.lv2/writer.h:241-253 | the 16 bytes of a bundle header |
| `OscWriter.Writer.PopBundle` | osc.lv2/osc.lv2/writer.h:255-267 | a bundle without items is taken back |
| `OscWriter.Writer.PopItem` | osc.lv2/osc.lv2/writer.h:281-296 | back-patches the exact size of the item; an empty item is taken back |
| `OscWriter.Writer.PutItems` | osc.lv2/osc.lv2/writer.h:452-463 | the loop over the items of a bundle prints each behind its size |
| `OscWriter.Writer.PutPacket` | osc.lv2/osc.lv2/writer.h:433-573 | for every object that stands for a packet: succeeds if and only if the packet and one more byte fit, and then the packet's encoding lies at the cursor and nothing else has changed; in every case only the free part of the region is touched |
| `OscForge.Reader.GetText` | osc.lv2/osc.lv2/reader.h:189-201 | reads a terminated string and skips its padding |
| `OscForge.Reader.ItemBegin` | osc.lv2/osc.lv2/reader.h:278-297 | accepts exactly a bundle header with a whole first item behind it |
| `OscForge.Reader.ItemNext` | osc.lv2/osc.lv2/reader.h:305-311 | moves to the next whole item |
| `OscForge.Reader.ArgRaw` | osc.lv2/osc.lv2/reader.h:329-433 | reads the argument that the type string announces |
| `OscForge.ForgeArgs` | osc.lv2/osc.lv2/forge.h:360-459 | the loop appends an atom for every argument that can be read, skipping unknown types |
| `OscForge.ForgePacket` | osc.lv2/osc.lv2/forge.h:326-468 | on any bytes: failure when there is no packet, and otherwise the one atom in the form of forged atoms that stands for the packet, MIDI ports aside |
| `OscRoundTrip.WriteThenForge` | osc.lv2/osc.lv2/writer.h:433-573 | what the writer writes the forge reads: the same packet, from exactly the bytes written |
| `OscRoundTrip.ForgeThenWrite` | osc.lv2/osc.lv2/forge.h:326-468 | a received packet is forged and written again as its own encoding, with MIDI ports cleared, around the padding that was there; the bytes written are the bytes received if and only if these were an encoding, every port is 0 and the padding agrees |
| `OscRoundTrip.CanonicalIsReproduced` | osc.lv2/osc.lv2/forge.h:326-468 | with all ports 0 the copy is the packet, byte for byte if and only if the padding agrees, in particular when no blob needs any |
| `OscRoundTrip.Send` | eteroj_io.c:449-462 | through a writer over as many bytes as the object's body takes the whole packet is written if and only if it is smaller than that body, in particular when symbols are short; otherwise the part to be committed is shorter than the packet |
| `SchedulerSpec.ExactlyTheDue` | eteroj_io.c:475-542 | a period dispatches every copy of a bundle that is due before its end and no other; what is left is exactly the rest |
| `SchedulerSpec.TimetagIs` | eteroj_io.c:480 | the timetag of a bundle is the 64-bit number of its bytes 8 to 15 in network byte order, seconds first |
| `SchedulerSpec.EarlierIs` | eteroj_io.c:480 | the one with fewer seconds, or as many and the smaller fraction, is the earlier |
| `SchedulerSpec.ImmediateIs` | eteroj_io.c:379-420 | a bundle goes out at once if and only if its timetag is 0 seconds and 1 fraction or nobody schedules, and is kept if and only if not and it has at most 1500 bytes; a message goes out at once |
| `SchedulerSpec.OneByOne` | eteroj_io.c:494-504 | what a list of packets sends out at once and keeps is what each of them does, in order |
| `SchedulerSpec.OnePacket` | eteroj_io.c:379-420 | a packet that is immediate goes out at frame 0, one that is to wait is kept, any other is dropped |
| `SchedulerSpec.PeriodByTime` | eteroj_io.c:475-542 | a period by seconds and fractions: every bundle goes out at the frame of its time, a late one at 0; all that goes out is earlier than all that stays; unless late they go out in order, and they stay in order |
| `SchedulerSpec.NothingIsLost` | eteroj_io.c:475-542 | over any sequence of periods: dispatched + pending = initial + taken, as multisets, and the list is sorted by timetag after each |
| `SchedulerSpec.DropsExactly` | eteroj_io.c:311-320 | of the bundles accepted in a period the first are taken and the others dropped; some are dropped if and only if they and the pending ones are more than 2048, and then the list is full |
| `SchedulerSpec.AfterIsRest` | eteroj_io.c:475-542 | what a period leaves is a permutation of the bundles that are not due |
| `SchedulerSpec.NotEarlier` | eteroj_io.c:475-542 | a pending bundle was not due in the period before; in the next one it goes out if and only if it is due |
| `Scheduler.RescheduledIsSorted` | eteroj_io.c:475-492 | recomputed and clamped frames keep the list sorted although it is not sorted again |
| `Scheduler.SortedSplits` | eteroj_io.c:328-363 | sorting moves the entries that were given up behind all others |
| `Scheduler.Plugin.AddList` | eteroj_io.c:311-320 | the next free entry, or none |
| `Scheduler.Plugin.SortList` | eteroj_io.c:328-363 | sorts the entries in use by `_cmp` and permutes them |
| `Scheduler.Plugin.Unroll` | eteroj_io.c:379-420 | hands on what is immediate, keeps what is to wait, drops the rest |
| `Scheduler.Plugin.Reschedule` | eteroj_io.c:475-492 | gives every entry its frame under the new clock, late ones 0 |
| `Scheduler.Plugin.Read` | eteroj_io.c:494-504 | reads all packets, in order |
| `Scheduler.Plugin.Drain` | eteroj_io.c:513-536 | the sorted list is dispatched up to the first entry that is not due, which is where the loop stops |
| `Scheduler.Plugin.Compact` | eteroj_io.c:538-542 | the rest moves to the front, sorted |
| `Scheduler.Plugin.Run` | eteroj_io.c:475-542 | one period: immediates first, then exactly the due bundles at non-decreasing clamped frames; the rest stays sorted by timetag, all of it by seconds and fractions (`SchedulerSpec.ByTime`); bundles that find no free entry are dropped |
| `Scheduler.FirstScanEnds` | eteroj_io.c:478-492 | the loop that reschedules stays inside the list if and only if the list is not full |
| `Scheduler.SecondScanEnds` | eteroj_io.c:513-536 | the loop that dispatches stays inside the list if and only if the list is not full or a bundle in it is not due |
| `Scheduler.StopsExactly` | eteroj_io.c:475-542 | both loops of a period stay inside the list if and only if the condition holds under which `Run` is stated |
| `Scheduler.FullListOverruns` | eteroj_io.c:513-536 | nothing stops the dispatching loop in a full list of bundles that are all due |
| `Scheduler.Plugin.RunPeriods` | eteroj_io.c:475-542 | any number of periods of the plugin, each with its clock, length and packets, make up a history, so dispatched + pending = initial + taken holds of the running plugin, and what `NotEarlier` says |
| `Slip.EscapeClosed` | osc.lv2/osc.lv2/stream.h:679-732 | an escaped payload holds no END and unescapes to the payload |
| `Slip.FrameDecodes` | osc.lv2/osc.lv2/stream.h:735-779 | decoding END, escaped payload, END, followed by any bytes, gives the payload and the length of the frame |
| `SlipUnits.FrameIs` | osc.lv2/osc.lv2/stream.h:679-732 | a frame is C0, one unit for each byte - DB DC for C0, DB DD for DB, any other for itself - and C0 |
| `SlipUnits.DecodesAnything` | osc.lv2/osc.lv2/stream.h:735-779 | any bytes are units up to the first C0 that is no second half of a pair, or up to the end; the decoder takes exactly these, hands on their text if there is a C0 in front and one behind, and drops pairs that stand for nothing |
| `Slip.FramesDelivered` | osc.lv2/osc.lv2/stream.h:1051-1096 | whole frames are all delivered in order and the buffer is empty afterwards |
| `Slip.LaterFramesDelivered` | osc.lv2/osc.lv2/stream.h:1051-1096 | behind the rest of a frame, any suffix of the escaped payload and its END, all later frames are delivered if and only if something besides the END is left of it; a lone END costs the next frame and no more |
| `SlipInline.FrameSize` | osc.lv2/osc.lv2/stream.h:693-699 | the estimate is the exact size of the frame |
| `SlipInline.EncodeInline` | osc.lv2/osc.lv2/stream.h:685-732 | in place, by moving or by the backward loop: the frame of the payload and nothing else; no byte is overwritten before it was read |
| `SlipInline.DecodeInline` | osc.lv2/osc.lv2/stream.h:735-779 | in place on any bytes: the specified lengths, the unescaped text at the front, everything behind it untouched |
| `SlipInline.RoundTrip` | osc.lv2/osc.lv2/stream.h:685-779 | encoding and decoding in one buffer gives the payload back and leaves the bytes around the frame alone |
| `SlipInline.DrainFrames` | osc.lv2/osc.lv2/stream.h:1051-1096 | the loop delivers and keeps exactly what is specified; every turn consumes bytes |
| `Cloak.HeaderBits` | eteroj_cloak.c:127-163 | the header byte of a group holds the upper bit of each of its bytes where the decoder looks for it |
| `Cloak.DecodeEncode` | eteroj_cloak.c:100-163 | decoding the code of any bytes gives them back |
| `Cloak.EncodeSize` | eteroj_cloak.c:130-134 | the code of n bytes has 8*(n/7) + (1 + n%7 unless n%7 = 0) + 2 bytes |
| `Cloak.EncodeIsSysex` | eteroj_cloak.c:127-163 | all bytes between the two status bytes are below 0x80 |
| `CloakCode.Framing` | eteroj_cloak.c:100-163 | the status bytes are F0 and F7, and only what lies between these is decoded |
| `CloakCode.CodeAt` | eteroj_cloak.c:127-163 | byte i lies at 8*(i/7) + 2 + i%7 without its upper bit, which is bit i%7 of the byte at 8*(i/7) + 1 |
| `CloakCode.SpareBits` | eteroj_cloak.c:127-163 | the bits for bytes that a short last group does not have are 0 |
| `CloakCode.DecodedAt` | eteroj_cloak.c:100-125 | on any framed bytes: every byte but the headers comes out with the upper bit its header has for it |
| `Cloak.EncodeInPlace` | eteroj_cloak.c:127-163 | used on one buffer it writes the code of the original bytes and nothing else |
| `Cloak.DecodeInPlace` | eteroj_cloak.c:100-125 | used on one buffer it leaves the decoded bytes at the front; anything not framed is refused |
| `Cloak.RoundTrip` | eteroj_cloak.c:188-207 | encoded and decoded in one buffer every packet comes back |
| `Props.ScanUp` | props.lv2/props.h:271-273 | the left scan stops inside the stretch |
| `Props.ScanDown` | props.lv2/props.h:275-277 | so does the right one |
| `Props.Partition` | props.lv2/props.h:264-285 | although the first swap replaces the pivot, the stretch is split into two smaller ones on either side of one value, and permuted |
| `Props.Qsort` | props.lv2/props.h:258-289 | terminates and leaves a sorted permutation of the stretch; nothing outside it changes |
| `Props.Get` | props.lv2/props.h:291-304 | the halving lookup finds an entry if and only if a linear scan would |
| `Props.TableIsConsistent` | props.lv2/props.h:615-624 | a sorted table of good definitions is usable and declares exactly their URIs |
| `Props.TableHolds` | props.lv2/props.h:492-512 | every slot has the numbers of the property, type and access URI of a definition, writable where it names none, and every definition has a slot |
| `Props.BuiltIs` | props.lv2/props.h:615-624 | definitions in front of the first bad one are set up, the others are not |
| `Props.Table.Init` | props.lv2/props.h:615-624 | succeeds if and only if every definition is good; the table is sorted in any case, and on success holds the numbers of each definition's URIs |
| `Props.Table.Map` | props.lv2/props.h:984-996 | the host's number of a declared URI, 0 for any other |
| `Props.Table.Unmap` | props.lv2/props.h:998-1007 | a URI with that number, if and only if there is one |
| `Props.Table.MapThenUnmap` | props.lv2/props.h:984-1007 | on distinct properties a declared URI comes back, any other gives nothing |
| `Props.Table.UnmapThenMap` | props.lv2/props.h:984-1007 | a number in the table comes back, any other gives 0 |

## Left out

- Varchunk.Ring: each access to `head` and `tail` is one atomic step with acquire and release; the relaxed variant that is chosen when `release_and_acquire` is false promises nothing across threads and is not modelled.
- Varchunk.Ring.constructor: does not model allocation failure or memory locking; numbers are unbounded, where a minimum above 2^63 never ends the loop of the code.
- Netatom.Netatom.SerAtom: does not model an atom whose size disagrees with its type; atoms are assumed to be laid out as LV2 Atom demands.
- Netatom.Netatom.Serialize: demands 8 bytes behind `size_rx`, into which `strncpy` may write; memory is an array of 32-bit words on a little-endian host; unaligned buffers and big-endian hosts are not modelled.
- Netatom.Netatom.Deserialize: does not model a buffer that no sender produced; a reference outside the dictionary reads arbitrary memory.
- NetatomMeaning.SameUris: does not speak of the elements of a vector of URIDs, because the code only swaps their bytes.
- Jsmn.Parser.Parse: does not model the call without tokens, the strict mode, parent links, or a second call that resumes after NOMEM.
- OscPacket.AtomArg: does not model atoms with no OSC meaning inside a message, MIDI messages shorter than 3 bytes and RGBA literals other than 8 hexadecimal digits; the writer is only shown to stay inside its region for them.
- OscWriter.Writer.PutPacket: demands `OscPrint.Walkable`: a message without an argument tuple and a bundle item that is not an object are excluded, because the code follows the missing or mistyped atom, although `util.h` calls a message without arguments valid; so are 128 or more arguments, which do not fit its format buffer.
- OscDecode.ReadSize: item and blob sizes of 2^31 and more are refused, where the code adds a negative size to a pointer.
- OscForge.ForgePacket: builds atoms as values; the forge's buffer, its frames and running out of room in it are not modelled. A read of `strlen` or `strncmp` beyond the buffer is taken to find nothing usable.
- OscForge.Reader: iterator results are booleans and fields, not pointers.
- Scheduler.Plugin.Run: demands that the scans stop inside the list (`SchedulerSpec.Stops`) and that bundles are whole; otherwise the code reads beyond the list (`Scheduler.StopsExactly`) or follows a missing item. Failure of the output forge is not modelled.
- Scheduler.Plugin.SortList: `qsort` belongs to the C library; an insertion sort stands in for it and only its contract is used.
- SlipInline.DrainFrames: does not model a frame split over two receives, a sink that refuses a frame, or prefix framing.
- Props.Table.Init: fields of a table that was never set up are taken to be zero; value and stash buffers, sizes and callbacks are not modelled.
- Props.Get: the table holds at least one entry, because the code reads the first one.
- The lock between stash and restore of a property: a retry of its compare-and-exchange may succeed from another state, so mutual exclusion is not stated.
- Floating point: floats and doubles are opaque words, frames are reals.
- Sockets, serial ports, URLs, reconnecting, pattern matching of paths, hooks, patch messages, plugin instantiation, state files, worker scheduling, logging.
- `eteroj_pack.c`, `eteroj_ninja.c`, `eteroj_query.c`: thin users of the cores above.
