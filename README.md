# zenoh-pico core: message codec, write filter and sample ring

This project is a Dafny model of part of zenoh-pico's core. zenoh-pico is the C implementation of the zenoh protocol for constrained devices. The model covers:

- **The network-message codec** (`src/protocol/codec/message.c`):
  - the field codecs: payload, zenoh id, timestamp, key expression, locators and source info;
  - the push bodies: Put and Del;
  - the Query, Reply, Err, Ack and Pull messages;
  - the scouting messages: Scout, Hello and the scouting message around them;
  - the message extensions they carry (`include/zenoh-pico/protocol/extcodec.h`).

  Every codec is specified by a pure function from values to bytes, or from bytes to a result and the bytes left over. The imperative encoders and decoders write to a write buffer (`WBuf`) and read from a read buffer (`ZBuf`), and each one is proved against that function. Round-trip lemmas relate each encoder to its decoder.
- **The write filter** (`src/net/filtering.c`): a state machine (INIT, ACTIVE, OFF) driven by interest messages. It decides whether a publisher may skip sending because nobody has declared interest. It is a class whose callback is proved against a step function, with invariants and lemmas about runs of messages.
- **The sample ring channel** (`src/api/handlers.c`, `include/zenoh-pico/collections/ring_mt.h`): a fixed-capacity ring over an array whose push drops the oldest element when full. It is proved against a queue specification, and a lemma shows that the ring always holds the latest `capacity` samples.
- **The session records** (`include/zenoh-pico/session/session.h`), **key-expression constructors** (`src/net/resource.c`) and **encoding constructors** (`src/net/encoding.c`).

Modules:

| module | file | models |
|---|---|---|
| `Results` | results.dfy | results, error codes and options |
| `Wire` | wire.dfy | bytes, fixed-width integers, the variable-length integer (zint) and byte-slice primitives |
| `Buffers` | buffers.dfy | the read and write buffers |
| `Ext`, `ExtCodec` | ext.dfy, ext_codec.dfy | message extensions and extension chains |
| `Fields` | fields.dfy | message fields |
| `Messages`, `MessageCodec` | messages.dfy, message_codec.dfy | network messages: the pure specification, then the methods |
| `Scouting`, `ScoutingCodec` | scouting.dfy, scouting_codec.dfy | scouting messages |
| `SessionTypes` | session_types.dfy | interest and declaration enumerations |
| `Resource` | resource.dfy | key-expression constructors |
| `Encoding` | encoding.dfy | encoding constructors |
| `Filtering` | filtering.dfy | the write filter |
| `Ring` | ring.dfy | the ring buffer |
| `Handlers` | handlers.dfy | the ring channel |
| `CodecFixes` | codec_fixes.dfy | corrected versions of the codec defects under "Findings" |

Flag and message-id values are not defined in the files this model follows. The model fixes them consistently:

- message ids: PUT=1 … PULL=7;
- header flags: Z=0x80, T=0x20, E=0x40 (the Err I flag is also 0x40);
- extension encodings: ZINT=0x20, ZBUF=0x40; mandatory bit M=0x10;
- scouting flags: Scout I=0x08, Hello L=0x20.

## Model

| member | source | states |
|---|---|---|
| Ext.BodyDecode | include/zenoh-pico/protocol/extcodec.h:32-42 | an extension body decodes exactly when it is a unit, a zint that decodes, or a length-prefixed buffer that fits; what it yields is well formed and a suffix of the input is left |
| Ext.BodyRoundTrip | include/zenoh-pico/protocol/extcodec.h:32-42 | every well-formed unit, zint or buffer body decodes back to itself under its header's kind, leaving what follows |
| Ext.ExtEncode | include/zenoh-pico/protocol/extcodec.h:23 | an encoded extension starts with its header byte |
| Ext.ExtDecode | include/zenoh-pico/protocol/extcodec.h:24-25 | a decoded extension keeps the header it read, is well formed and consumes at least one byte; the reserved encoding kind 0x60 is a deserialization error |
| Ext.ExtRoundTrip | include/zenoh-pico/protocol/extcodec.h:23-25 | decoding an encoded well-formed extension gives it back and leaves the following bytes |
| Ext.ExtDecodeIter | src/protocol/codec/message.c:301 | the extension iterator consumes at least one byte whenever it succeeds |
| Ext.ExtDecodeIterChain | src/protocol/codec/message.c:301 | on a chain whose every extension but the last has its Z bit, the iterator is the left fold of the handler over the extensions and stops right after the last one |
| Ext.SkipHandler | src/protocol/codec/message.c:915 | the skipping handler fails exactly on mandatory extensions, with the mandatory-and-unknown error |
| Ext.SkipChain | src/protocol/codec/message.c:915 | skipping a chain succeeds exactly when no extension in it is mandatory, and then stops right after the chain |
| Ext.FoldSkip | src/protocol/codec/message.c:915 | folding the skipping handler succeeds if and only if no extension is mandatory |
| ExtCodec.EncodeExt | include/zenoh-pico/protocol/extcodec.h:23 | appends exactly the extension's encoding to the write buffer |
| ExtCodec.DecodeExt | include/zenoh-pico/protocol/extcodec.h:24-25 | reads from the buffer the result and rest that `ExtDecode` gives on the unread bytes |
| ExtCodec.DecodeIter | src/protocol/codec/message.c:301 | its loop yields the result and position that `ExtDecodeIter` gives |
| ExtCodec.SkipNonMandatoryExts | src/protocol/codec/message.c:915 | agrees with the skipping fold on the unread bytes |
| Fields.IdLen | src/protocol/codec/message.c:55-67 | the id length is the count of bytes up to the last non-zero one: the id is that prefix padded with zeros |
| Fields.IdCheckNonZero | src/protocol/codec/message.c:59 | an id passes the check if and only if one of its bytes is non-zero |
| Fields.IdFromBytes | src/protocol/codec/message.c:73-79 | a short id buffer is copied into the front of an all-zero id |
| Fields.IdFromSignificant | src/protocol/codec/message.c:73-79 | rebuilding an id from its significant prefix gives the id back |
| Fields.IdEncodeAsZbytes | src/protocol/codec/message.c:55-67 | encoding succeeds exactly for a non-zero id and writes a length byte equal to the id length followed by that many bytes; the zero id is an error |
| Fields.IdDecodeAsZbytes | src/protocol/codec/message.c:73-79 | a successful decode read a length of at most 16 and that many bytes, and leaves the rest |
| Fields.IdRoundTrip | src/protocol/codec/message.c:55-79 | every non-zero id survives encode then decode |
| Fields.TimestampEncode | src/protocol/codec/message.c:82-90 | the timestamp encodes exactly when its id is valid; otherwise the error is returned |
| Fields.TimestampRoundTrip | src/protocol/codec/message.c:82-100 | a valid timestamp survives encode then decode |
| Fields.ZidLenNibble | src/protocol/codec/message.c:216 | the id-length byte is the length times 16, wrapped to a byte |
| Fields.SourceInfoEncode | src/protocol/codec/message.c:213-222 | the encoding starts with the wrapped length nibble |
| Fields.IdOverwrite | src/protocol/codec/message.c:189-190 | the bytes read replace the front of the id already in place, and the rest of that id is kept |
| Fields.IdOverwriteEmpty | src/protocol/codec/message.c:189-190 | overwriting the empty id lays the bytes out as a fresh, zero-padded id |
| Fields.SourceInfoDecode | src/protocol/codec/message.c:183-212 | empty or short input fails; on success the announced number of bytes after the first overwrite the front of the id the message already holds, and the rest of that id is kept |
| Fields.SourceInfoDecodeKeepsTail | src/protocol/codec/message.c:189-190 | a one-byte id 0xCC read over a message whose id starts AA BB gives an id starting CC BB, with entity id and sequence number 0 |
| Fields.SourceInfoDecodeRejectsWide | src/protocol/codec/message.c:196-208 | an entity id or sequence number wider than 32 bits is a deserialization error |
| Fields.SourceInfoRoundTrip | src/protocol/codec/message.c:183-222 | a source info whose id is shorter than 16 bytes survives encode then decode into a message whose id is still empty |
| Fields.KeyexprDecode | src/protocol/codec/message.c:115-133 | a decoded key has a suffix exactly when the flag says so, and the suffix is NUL-terminated |
| Fields.KeyexprRoundTrip | src/protocol/codec/message.c:103-133 | encode then decode gives back the id and the suffix's string |
| Fields.LocatorRoundTrip | src/protocol/codec/message.c:136-175 | a NUL-free locator survives encode then decode |
| Fields.LocatorListDecode | src/protocol/codec/message.c:159-169 | a successful list decode yields exactly the requested number of locators |
| Fields.LocatorListRoundTrip | src/protocol/codec/message.c:136-175 | any list of NUL-free locators survives encode then decode of its elements |
| Fields.LocatorsRoundTrip | src/protocol/codec/message.c:136-177 | the counted locator array survives encode then decode |
| MessageCodec.EncodePayload | src/protocol/codec/message.c:40-46 | appends the length-prefixed payload |
| MessageCodec.DecodePayload | src/protocol/codec/message.c:48-53 | reads what the byte-slice decoder gives on the unread bytes |
| MessageCodec.EncodeIdAsZbytes | src/protocol/codec/message.c:55-67 | succeeds exactly for a non-zero id and appends its encoding; otherwise writes nothing and returns the error |
| MessageCodec.DecodeIdAsZbytes | src/protocol/codec/message.c:73-79 | agrees with `IdDecodeAsZbytes` |
| MessageCodec.EncodeTimestamp | src/protocol/codec/message.c:82-90 | succeeds exactly for a valid timestamp; on failure the time has already been written |
| MessageCodec.DecodeTimestamp | src/protocol/codec/message.c:92-100 | agrees with `TimestampDecode` |
| MessageCodec.EncodeKeyexpr | src/protocol/codec/message.c:103-113 | appends the id and, when flagged, the suffix string |
| MessageCodec.DecodeKeyexpr | src/protocol/codec/message.c:115-133 | agrees with `KeyexprDecode` |
| MessageCodec.EncodeLocators | src/protocol/codec/message.c:136-147 | its loop appends the count and then every locator in order |
| MessageCodec.DecodeLocatorList | src/protocol/codec/message.c:159-169 | its loop reads `n` locators as `LocatorListDecode` does, stopping at the first failure |
| MessageCodec.DecodeLocators | src/protocol/codec/message.c:149-177 | agrees with `LocatorsDecode` |
| MessageCodec.DecodeSourceInfo | src/protocol/codec/message.c:183-212 | reading into the message's current source info, the result and the read position agree with `SourceInfoDecode` on the unread bytes |
| MessageCodec.EncodeSourceInfo | src/protocol/codec/message.c:213-222 | appends `SourceInfoEncode` |
| MessageCodec.EncodePushBody | src/protocol/codec/message.c:225-270 | appends `PushBodyEncode` |
| MessageCodec.DecodePushBody | src/protocol/codec/message.c:288-325 | agrees with `PushBodyDecode` |
| MessageCodec.EncodePut | src/protocol/codec/message.c:327-330 | appends the push-body encoding of the Put |
| MessageCodec.DecodePut | src/protocol/codec/message.c:331-337 | agrees with the push-body decoder and yields a Put |
| MessageCodec.EncodeDel | src/protocol/codec/message.c:339-342 | appends the push-body encoding of the Del |
| MessageCodec.DecodeDel | src/protocol/codec/message.c:343-349 | agrees with the push-body decoder and yields a Del |
| MessageCodec.EncodeQuery | src/protocol/codec/message.c:352-393 | appends `QueryEncode` |
| MessageCodec.DecodeQuery | src/protocol/codec/message.c:423-437 | agrees with `QueryDecode` |
| MessageCodec.EncodeReply | src/protocol/codec/message.c:439-480 | appends `ReplyEncode` |
| MessageCodec.DecodeReply | src/protocol/codec/message.c:501-518 | agrees with `ReplyDecode` |
| MessageCodec.EncodeErr | src/protocol/codec/message.c:520-552 | appends `ErrEncode` |
| MessageCodec.DecodeErr | src/protocol/codec/message.c:576-594 | agrees with `ErrDecode` |
| MessageCodec.EncodeAck | src/protocol/codec/message.c:596-616 | appends `AckEncode` |
| MessageCodec.DecodeAck | src/protocol/codec/message.c:633-642 | agrees with `AckDecode` |
| MessageCodec.EncodePull | src/protocol/codec/message.c:644-651 | appends `PullEncode` |
| MessageCodec.DecodePull | src/protocol/codec/message.c:668-674 | agrees with `PullDecode` |
| Messages.EncodingRoundTrip | src/protocol/codec/message.c:255-258 | the wire encoding (prefix and suffix) survives encode then decode |
| Messages.ValueRoundTrip | src/protocol/codec/message.c:369-378 | a value (encoding then payload) survives encode then decode |
| Messages.ConsolidationChain | src/protocol/codec/message.c:379-386 | the consolidation extension is a one-element chain: its header, then the consolidation as a zint |
| Messages.PushHeader | src/protocol/codec/message.c:229-249 | the Put or Del id; Z set exactly when the source id is valid; T exactly when the timestamp is valid; E exactly for a Put with an encoding |
| Messages.PushBodyEncode | src/protocol/codec/message.c:225-270 | the body starts with its header |
| Messages.PushExtHandler | src/protocol/codec/message.c:271-286 | any extension other than source info is left to the unknown-extension rule; a success changes only the source info; source info is read into the message's current source info |
| Messages.PushBodyDecode | src/protocol/codec/message.c:288-325 | an id other than Put or Del is an error; Put decodes to Put; a missing T or Z flag gives the null timestamp or source info |
| Messages.PushBodyRoundTrip | src/protocol/codec/message.c:225-325 | a body without encoding or source info survives encode then decode |
| Messages.QueryHeader | src/protocol/codec/message.c:352-368 | P set exactly when the parameters are non-empty (a slice is modelled by its contents); Z set exactly when a body, consolidation or info extension is needed |
| Messages.QueryEncode | src/protocol/codec/message.c:352-393 | the query starts with its header |
| Messages.QueryExtHandler | src/protocol/codec/message.c:395-421 | other extensions are left to the unknown-extension rule; the parameters are never changed; source info is read into the message's current source info |
| Messages.QueryDecode | src/protocol/codec/message.c:423-437 | without the P flag the parameters are empty |
| Messages.QueryRoundTrip | src/protocol/codec/message.c:352-437 | a query whose only extension is its consolidation survives encode then decode |
| Messages.ReplyHeader | src/protocol/codec/message.c:439-462 | T exactly for a valid timestamp; E exactly when there is an encoding; Z exactly when the consolidation is not AUTO or the source id is valid |
| Messages.ReplyEncode | src/protocol/codec/message.c:439-480 | the reply starts with its header |
| Messages.ReplyExtHandler | src/protocol/codec/message.c:481-500 | other extensions are left to the unknown-extension rule; a success keeps the timestamp and value; source info is read into the message's current source info |
| Messages.ReplyDecode | src/protocol/codec/message.c:501-518 | a missing T or E flag gives the null timestamp or empty encoding |
| Messages.ReplyRoundTrip | src/protocol/codec/message.c:439-518 | a reply with an explicit consolidation and no source info survives encode then decode |
| Messages.ErrHeader | src/protocol/codec/message.c:520-537 | T exactly for a valid timestamp; Z exactly when there is a source id or an error value; I never set |
| Messages.ErrEncode | src/protocol/codec/message.c:520-552 | the message starts with its header |
| Messages.ErrExtHandler | src/protocol/codec/message.c:553-575 | other extensions are left to the unknown-extension rule; the code and infrastructure flag are kept; source info is read into the message's current source info |
| Messages.ErrDecode | src/protocol/codec/message.c:576-594 | a code above 16 bits is a deserialization error; the code is the decoded zint; the I flag is the infrastructure bit; missing T or Z give null fields |
| Messages.ErrRoundTrip | src/protocol/codec/message.c:520-594 | a non-infrastructure error message without source info or value survives encode then decode |
| Messages.AckHeader | src/protocol/codec/message.c:596-611 | T exactly for a valid timestamp and Z exactly for a valid source id, under the id that line 598 writes |
| Messages.AckEncode | src/protocol/codec/message.c:596-616 | the message starts with its header |
| Messages.AckExtHandler | src/protocol/codec/message.c:617-632 | other extensions are left to the unknown-extension rule; the timestamp is kept; source info is read into the message's current source info |
| Messages.AckDecode | src/protocol/codec/message.c:633-642 | a missing T or Z flag gives the null timestamp or source info |
| Messages.AckRoundTrip | src/protocol/codec/message.c:596-642 | an ack without source info survives encode then decode (the body ignores the header id) |
| Messages.PullEncode | src/protocol/codec/message.c:644-651 | bytes are written exactly when the source id is valid |
| Messages.PullExtHandler | src/protocol/codec/message.c:652-667 | any extension other than source info is left to the unknown-extension rule; source info is read into the message's current source info |
| Messages.PullDecode | src/protocol/codec/message.c:668-674 | without Z nothing is read and the source info is null |
| Messages.PullRoundTrip | src/protocol/codec/message.c:644-674 | a Pull without source info is written as nothing and read back under a header without Z, leaving what follows |
| Scouting.ScoutCByte | src/protocol/codec/message.c:762-781 | the control byte keeps the three `what` bits; I is set exactly when the id is valid, and then the high nibble is the id length minus one |
| Scouting.ScoutDecode | src/protocol/codec/message.c:783-804 | version and `what` come from the first two bytes; without I the id is empty and nothing else is read |
| Scouting.ScoutRoundTrip | src/protocol/codec/message.c:762-804 | every scout survives encode then decode, with `what` reduced to its three bits |
| Scouting.HelloCByte | src/protocol/codec/message.c:807-824 | the control byte keeps `whatami`'s two bits and holds the id length minus one, wrapped to four bits |
| Scouting.HelloDecode | src/protocol/codec/message.c:826-858 | version and `whatami` come from the first two bytes; without L there are no locators |
| Scouting.HelloRoundTrip | src/protocol/codec/message.c:807-858 | a hello with a valid id, two-bit `whatami` and NUL-free locators survives encode then decode |
| Scouting.HelloEmptyIdAnnouncesSixteen | src/protocol/codec/message.c:811-815 | a hello with the zero id announces 16 id bytes but writes none |
| Scouting.ScoutingMessageEncode | src/protocol/codec/message.c:860-882 | succeeds exactly for Scout and Hello ids, writing the header and then the body; any other id is the transport-unknown error |
| Scouting.ScoutingBodyDecode | src/protocol/codec/message.c:883-911 | ids other than Scout and Hello are the transport-unknown error; a Scout id gives a Scout body |
| Scouting.ScoutingMessageDecode | src/protocol/codec/message.c:883-919 | empty input is an error; unknown ids are the transport-unknown error; the decoded header is the first byte and agrees with the body |
| Scouting.ScoutingRoundTrip | src/protocol/codec/message.c:860-919 | a scouting message without extensions survives encode then decode |
| Scouting.ScoutingSkipsExtensions | src/protocol/codec/message.c:914-916 | with Z set, the trailing extensions are skipped exactly when none is mandatory, and the message is then recovered |
| ScoutingCodec.EncodeScout | src/protocol/codec/message.c:762-781 | appends `ScoutEncode` |
| ScoutingCodec.DecodeScout | src/protocol/codec/message.c:783-804 | agrees with `ScoutDecode` |
| ScoutingCodec.EncodeHello | src/protocol/codec/message.c:807-824 | appends `HelloEncode` |
| ScoutingCodec.DecodeHello | src/protocol/codec/message.c:826-858 | agrees with `HelloDecode` |
| ScoutingCodec.EncodeScoutingMessage | src/protocol/codec/message.c:860-882 | succeeds exactly when `ScoutingMessageEncode` does; on failure only the header has been written |
| ScoutingCodec.DecodeScoutingMessage | src/protocol/codec/message.c:883-919 | agrees with `ScoutingMessageDecode`; the header left behind is 0xFF on empty input |
| SessionTypes.InterestMsgTypeCode | include/zenoh-pico/session/session.h:159-168 | each interest type has a code below 8, and only FINAL has 0 |
| SessionTypes.InterestMsgTypeOf | include/zenoh-pico/session/session.h:159-168 | exactly the codes below 8 name a type, and that type's code is the byte |
| SessionTypes.InterestMsgTypeCodeInjective | include/zenoh-pico/session/session.h:159-168 | the numbering is injective and inverted by `InterestMsgTypeOf` |
| SessionTypes.DeclareTypeCode | include/zenoh-pico/session/session.h:198-202 | each declaration type has a code below 3 |
| SessionTypes.DeclareTypeOf | include/zenoh-pico/session/session.h:198-202 | exactly the codes below 3 name a type, and that type's code is the byte |
| SessionTypes.DeclareTypeCodeInjective | include/zenoh-pico/session/session.h:198-202 | the numbering is injective and inverted by `DeclareTypeOf` |
| Resource.Rname | src/net/resource.c:21-28 | the key has no resource id, borrows the name as its suffix and uses no remote mapping |
| Resource.RidWithSuffix | src/net/resource.c:30-37 | the key has the given id and borrowed suffix and no remote mapping |
| Resource.RnameIsNoIdWithSuffix | src/net/resource.c:21-37 | `_z_rname` is `_z_rid_with_suffix` with no resource id |
| Resource.RidWithSuffixRoundTrip | src/net/resource.c:30-37 | a key built by `_z_rid_with_suffix` survives the key-expression codec |
| Resource.DecodedKeyIsRidWithSuffix | src/protocol/codec/message.c:115-133 | every decoded key is the one `_z_rid_with_suffix` builds from its id and suffix |
| Encoding.EncodingMake | src/net/encoding.c:21-24 | keeps the id; a null schema is empty; otherwise the schema is the `strlen` prefix and holds no NUL |
| Encoding.EncodingNull | src/net/encoding.c:26 | the default id with an empty schema |
| Encoding.EncodingMakeKeepsSchema | src/net/encoding.c:21-24 | a NUL-free string is kept whole |
| Encoding.EmptySchemaIsNull | src/net/encoding.c:21-26 | an empty schema string and a null schema give the same id and the same (empty) schema contents |
| Filtering.PushedDeclIds | src/net/filtering.c:40-52 | succeeds exactly when both allocations do, and then puts the id at the front; a failed id allocation changes nothing; a failed node allocation empties the list |
| Filtering.DropId | src/net/filtering.c:88 | an id not in the list changes nothing; otherwise one occurrence is removed and nothing is added |
| Filtering.StepKeepsInv | src/net/filtering.c:54-99 | every callback keeps the invariant: the list is empty unless the filter is OFF, and OFF holds exactly one id |
| Filtering.InitFinalActivates | src/net/filtering.c:59-63 | FINAL in INIT activates the filter and leaves the ids |
| Filtering.DeclSwitchesOff | src/net/filtering.c:65-82 | a declaration outside OFF records its id and switches the filter off, unless allocation fails |
| Filtering.UndeclOfRecordedId | src/net/filtering.c:85-94 | in OFF, undeclaring the recorded id reactivates the filter; any other id changes nothing |
| Filtering.IgnoredMessages | src/net/filtering.c:54-99 | the messages that no branch handles leave state and ids unchanged |
| Filtering.SecondDeclarationIsForgotten | src/net/filtering.c:85-94 | after declarations 1 and 2 and an undeclaration of 1, the filter is ACTIVE although declaration 2 is still live |
| Filtering.StepFixed | src/net/filtering.c:85-94 | the callback with declarations recorded in OFF too; otherwise identical to the original step |
| Filtering.DropIdMultiset | src/net/filtering.c:88 | dropping an id removes exactly one occurrence from the multiset of ids |
| Filtering.StepFixedTracks | src/net/filtering.c:54-99 | the corrected step keeps the ids equal to the live declarations, with OFF exactly when some are live |
| Filtering.RunFixedTracks | src/net/filtering.c:54-99 | the same over any run of messages |
| Filtering.NoFalseSuppression | src/net/filtering.c:54-99 | from creation, the corrected filter is OFF exactly when some declaration is live |
| Filtering.WriteFilterCtx.constructor | src/net/filtering.c:110-111 | a client starts in INIT and a peer in ACTIVE, with no ids, so both invariants hold |
| Filtering.WriteFilterCtx.PushDeclId | src/net/filtering.c:40-52 | updates the id list as `PushedDeclIds` says and leaves the state |
| Filtering.WriteFilterCtx.Callback | src/net/filtering.c:54-99 | the new state and ids are `Step` of the old ones; the context stays valid, and the as-written invariant `Inv` (OFF holds exactly one id) is kept whenever it held |
| Filtering.WriteFilterCtx.CallbackFixed | src/net/filtering.c:54-99 | the new state and ids are `StepFixed` of the old ones |
| Filtering.WriteFilter.constructor | src/net/filtering.c:101-120 | a filter with no context |
| Filtering.WriteFilter.Create | src/net/filtering.c:101-120 | out-of-memory leaves the filter; otherwise a fresh context in the initial state; an interest id of 0 frees the context but leaves the filter pointing at it |
| Filtering.WriteFilter.CreateFixed | src/net/filtering.c:101-120 | as `Create`, but an interest id of 0 also clears the pointer, so the filter stays valid |
| Filtering.WriteFilter.Destroy | src/net/filtering.c:122-130 | with a context: removes the interest, returns its result and clears the pointer; without one: returns OK |
| Filtering.WriteFilter.Active | src/net/filtering.c:132-134 | an active filter has a context with no recorded ids |
| Ring.ForceDropPush | include/zenoh-pico/collections/ring_mt.h:38 | the pushed element is last, the length grows by one below capacity and stays at capacity otherwise |
| Ring.ForceDropPushLatest | include/zenoh-pico/collections/ring_mt.h:38 | one push keeps the ring equal to the latest `capacity` elements |
| Ring.PushAllKeepsLatest | include/zenoh-pico/collections/ring_mt.h:38 | after any sequence of pushes the ring holds exactly the latest `capacity` elements, oldest first |
| Ring.OneTooManyDropsTheFirst | include/zenoh-pico/collections/ring_mt.h:38 | pushing capacity + 1 elements loses exactly the first one |
| Ring.PushAllBelowCapacity | include/zenoh-pico/collections/ring_mt.h:38-41 | up to capacity nothing is lost and the order is kept |
| Ring.RingBuffer.constructor | include/zenoh-pico/collections/ring_mt.h:32-33 | an empty ring of the requested capacity |
| Ring.RingBuffer.Contents | include/zenoh-pico/collections/ring_mt.h:24-30 | the contents have as many elements as the ring's length |
| Ring.RingBuffer.Pull | include/zenoh-pico/collections/ring_mt.h:41 | on an empty ring returns nothing; otherwise returns the oldest element and leaves the rest |
| Ring.RingBuffer.PushForceDrop | include/zenoh-pico/collections/ring_mt.h:38 | the contents become `ForceDropPush` of the old ones; exactly a full ring hands back its oldest element |
| Ring.RingBuffer.Clear | include/zenoh-pico/collections/ring_mt.h:35-36 | hands back every element, oldest first, and leaves the ring empty |
| Handlers.ChannelRingPush | src/api/handlers.c:32-45 | a null element or context changes nothing; otherwise the sample is force-pushed, and exactly a full ring drops one, its oldest sample |
| Handlers.ChannelRingPull | src/api/handlers.c:47-66 | always returns OK; an empty ring leaves the destination; otherwise delivers the oldest sample and removes it |
| Handlers.ChannelRingAsWritten | src/api/handlers.c:68-83 | a failed ring init returns null; a multi-threaded build returns the ring exactly when the mutex initialises; a single-threaded build falls off the end |
| Handlers.SingleThreadChannelIsLost | src/api/handlers.c:75-83 | even with every allocation succeeding, a single-threaded build returns no channel |
| Handlers.ChannelRing | src/api/handlers.c:68-83 | the corrected constructor returns a fresh, empty channel of the requested capacity exactly when initialisation succeeds |
| CodecFixes.FullLengthIdIsLost | src/protocol/codec/message.c:188 | a source info with a 16-byte id does not survive encode then decode |
| CodecFixes.NibbleOfFullLength | src/protocol/codec/message.c:216 | length 16 is written as nibble 0, which the decoder reads as 0 bytes |
| CodecFixes.ZidLenNibbleFixed | src/protocol/codec/message.c:216 | the corrected nibble is the length minus one, for every length from 1 to 16 |
| CodecFixes.SourceInfoEncodeFixed | src/protocol/codec/message.c:213-222 | the nibble of the corrected encoding plus one is the id length |
| CodecFixes.SourceInfoDecodeFixed | src/protocol/codec/message.c:183-212 | the corrected decoder reads nibble + 1 id bytes over the front of the current id |
| CodecFixes.SourceInfoFixedRoundTrip | src/protocol/codec/message.c:183-222 | every source info with a valid id, including 16 bytes, survives the corrected codec into a message whose id is still empty |
| CodecFixes.UnframedSourceInfoFails | src/protocol/codec/message.c:260-263 | a Del carrying a one-byte source id fails to decode, because its source-info extension has no length |
| CodecFixes.ShortSourceInfo | src/protocol/codec/message.c:213-222 | such a source info is four bytes starting with 0x10 |
| CodecFixes.DelLayout | src/protocol/codec/message.c:225-270 | the Del bytes are the header, the extension header and then the raw source info |
| CodecFixes.UnframedExtFails | src/protocol/codec/message.c:271-286 | the iterator rejects those bytes, whatever the context |
| CodecFixes.SourceInfoExtFixed | src/protocol/codec/message.c:260-263 | the corrected extension is a well-formed zbuf extension with the source-info id, carrying the corrected source info, announcing a next extension exactly when one follows |
| CodecFixes.SourceInfoExtFramed | src/protocol/codec/message.c:260-263 | as the last extension it is a one-extension chain: header, then the length-prefixed corrected source info |
| CodecFixes.PushExtHandlerFixed | src/protocol/codec/message.c:271-286 | reads source info with the corrected decoder, agrees with the original handler on every other extension, and changes nothing but the source info |
| CodecFixes.SourceInfoExtFramedDecodes | src/protocol/codec/message.c:271-286 | read into a body whose id is still empty, the framed extension decodes to its source info, whatever the id's length, and leaves what follows |
| CodecFixes.PutSuffixNeverRead | src/protocol/codec/message.c:297-299 | a decoded Put never has an encoding suffix |
| CodecFixes.PutWithSuffixIsLost | src/protocol/codec/message.c:240-241 | a Put whose encoding has a suffix does not survive encode then decode |
| CodecFixes.PutWithPrefixIsLost | src/protocol/codec/message.c:297-299 | a Put with only an encoding prefix comes back with an empty payload, its own payload left unread after it |
| CodecFixes.PutPrefixLayout | src/protocol/codec/message.c:225-270 | such a Put is its header (E set, no T, no Z), the prefix, a zero suffix length, then the payload |
| CodecFixes.PutDecodeNoFlags | src/protocol/codec/message.c:288-325 | under such a header the original decoder reads the prefix and then a payload, and nothing else |
| CodecFixes.PushBodyEncodeFixed | src/protocol/codec/message.c:225-270 | the corrected push body starts with the same header |
| CodecFixes.PushBodyDecodeFixed | src/protocol/codec/message.c:288-325 | the corrected decoder rejects other message ids, returns a Put exactly under the PUT id, gives null source info without Z, and on a Del without Z agrees with the original |
| CodecFixes.SourceInfoFieldRoundTrip | src/protocol/codec/message.c:271-286 | the framed source-info field decodes to its value, or is absent for the null id |
| CodecFixes.EncodingFieldRoundTrip | src/protocol/codec/message.c:297-299 | the encoding field, suffix included, survives the corrected decoder |
| CodecFixes.PushFixedLayout | src/protocol/codec/message.c:225-270 | the corrected body is header, timestamp, encoding, framed extension, then payload |
| CodecFixes.PushBodyFixedRoundTrip | src/protocol/codec/message.c:225-325 | every Put and Del with a valid or null timestamp and a valid (16-byte ids included) or null source info survives the corrected codec, whatever its encoding and payload |
| CodecFixes.PutFixedRoundTrip | src/protocol/codec/message.c:225-337 | the Put case of that round trip |
| CodecFixes.PutDecodeOfFields | src/protocol/codec/message.c:288-325 | the corrected Put decoder gives back a Put whose fields each decode to their value |
| CodecFixes.DelFixedRoundTrip | src/protocol/codec/message.c:225-349 | the Del case of that round trip |
| CodecFixes.PlainQueryLayout | src/protocol/codec/message.c:352-393 | a query with no body, AUTO consolidation and no info is the header and parameters, without Z |
| CodecFixes.ParametersFieldRoundTrip | src/protocol/codec/message.c:423-431 | the parameters field decodes to itself |
| CodecFixes.PlainQueryFails | src/protocol/codec/message.c:432-434 | such a query, without parameters, fails to decode because the decoder reads extensions regardless of Z |
| CodecFixes.QueryExtHandlerFixed | src/protocol/codec/message.c:395-421 | reads source info with the corrected decoder, agrees with the original handler on every other extension, and keeps the parameters |
| CodecFixes.QueryDecodeFixed | src/protocol/codec/message.c:423-437 | without P the parameters are empty; without Z the result is the decoder's starting query with its parameters |
| CodecFixes.PlainQueryFixedDecodes | src/protocol/codec/message.c:423-437 | the corrected decoder recovers the plain query |
| CodecFixes.QueryInfoHeaderMissing | src/protocol/codec/message.c:387-390 | a query carrying only source info fails to decode, because the info extension's header is not written |
| CodecFixes.QueryBodyExt | src/protocol/codec/message.c:369-378 | the body extension is well formed and flagged Z exactly when consolidation or source info follows |
| CodecFixes.ConsolidationExtFixed | src/protocol/codec/message.c:379-386 | the consolidation extension is well formed and flagged Z exactly when source info follows |
| CodecFixes.QueryExts | src/protocol/codec/message.c:352-393 | the corrected chain is non-empty exactly when the query needs a body, a consolidation or source info |
| CodecFixes.QueryExtsChained | src/protocol/codec/message.c:369-390 | whenever there is a chain, the corrected extensions form a proper one |
| CodecFixes.QueryEncodeFixed | src/protocol/codec/message.c:352-393 | the corrected query starts with the same header, whose Z flag is set exactly when the chain is not empty; AUTO queries are covered |
| CodecFixes.QueryHandlerSteps | src/protocol/codec/message.c:395-421 | each corrected extension sets exactly its own field (the info one into a query whose id is still empty) |
| CodecFixes.QueryConsolidationStep | src/protocol/codec/message.c:404-405 | a consolidation extension sets the mode, for any mode that fits the zint type |
| CodecFixes.QueryBodyStep | src/protocol/codec/message.c:408-413 | the framed body extension sets the value |
| CodecFixes.QueryInfoStep | src/protocol/codec/message.c:399-403 | read into a query whose id is still empty, the framed, corrected info extension sets the source info, whatever the id's length |
| CodecFixes.QueryExtsFold | src/protocol/codec/message.c:395-421 | folding the handler over the corrected extensions rebuilds the query, with AUTO left at the starting mode 0 |
| CodecFixes.QueryFixedRoundTrip | src/protocol/codec/message.c:352-437 | every query whose mode is AUTO or fits the zint type, with any parameters and value and a valid (16-byte ids included) or null source info, survives the corrected codec; AUTO comes back as 0 |
| CodecFixes.PlainReplyLayout | src/protocol/codec/message.c:439-480 | a reply with AUTO consolidation and no source info has no Z, and its bytes are timestamp, encoding, payload |
| CodecFixes.PlainReplyFails | src/protocol/codec/message.c:510-512 | the empty reply fails to decode, because the decoder reads extensions regardless of Z |
| CodecFixes.ReplyDecodeFixed | src/protocol/codec/message.c:501-518 | with Z set it agrees with the original decoder |
| CodecFixes.ReplyFixedRoundTrip | src/protocol/codec/message.c:439-518 | a reply without source info and with a valid or null timestamp survives the corrected decoder, with AUTO coming back as 0 |
| CodecFixes.InfrastructureErrIsLost | src/protocol/codec/message.c:520-594 | an infrastructure Err never decodes as one: a decoded Err has the infrastructure bit clear, so the message does not survive |
| CodecFixes.ErrHeaderFixed | src/protocol/codec/message.c:520-531 | the corrected Err header carries the I flag exactly for an infrastructure error, with the same T and Z flags |
| CodecFixes.ErrEncodeFixed | src/protocol/codec/message.c:520-552 | the corrected Err starts with the original header plus the I flag for an infrastructure error |
| CodecFixes.ErrFixedLayout | src/protocol/codec/message.c:520-552 | without source info or value the corrected Err is its header, the code and the timestamp |
| CodecFixes.ErrFixedRoundTrip | src/protocol/codec/message.c:520-594 | every Err without source info or value, infrastructure or not, survives the corrected encoder and the original decoder |
| CodecFixes.ErrDecodeOfFields | src/protocol/codec/message.c:576-594 | the Err decoder gives back a message whose fields each decode to their value |
| CodecFixes.UnframedPullFails | src/protocol/codec/message.c:644-674 | a Pull carrying a one-byte source id cannot be decoded under a Z header, because its extension has no length |
| CodecFixes.AckCarriesErrId | src/protocol/codec/message.c:598 | the Ack's header carries the ERR id |
| CodecFixes.AckHeaderFixed | src/protocol/codec/message.c:596-611 | the corrected header carries the ACK id with the same flags |
| CodecFixes.AckEncodeFixed | src/protocol/codec/message.c:596-616 | the corrected encoding starts with that header |
| CodecFixes.AckFixedRoundTrip | src/protocol/codec/message.c:596-642 | the corrected ack without source info and with a valid or null timestamp has the ACK id and survives encode then decode |

## Left out

- Error accumulation with `ret |=`: the C code ORs error codes together and keeps going. The model stops at the first error and returns it, so a combined code is never built.
- Partial outputs: on failure the C decoders leave the caller's message half-filled. The model returns only the error.
- Caller-initialised messages: the C decoders fill in the message their caller passes and never initialise it themselves. Examples: `_z_put_decode` starts from the caller's `*put` (src/protocol/codec/message.c:331-337), and the Put branch never touches the encoding suffix (297-299). `_z_query_decode` leaves value, consolidation and source info as they were when no extension sets them (423-437). `_z_reply_decode` keeps the caller's timestamp when T is absent (501-517). `_z_keyexpr_decode` never sets `_uses_remote_mapping` or `_owns_suffix` (115-133). The model assumes that the caller zero-initialises the message. A reused struct would keep its old fields, and the model does not capture that. So these statements hold only for a zeroed message: a missing T or Z flag gives the null timestamp or source info (Messages.PushBodyDecode, ReplyDecode, AckDecode, PullDecode); AUTO consolidation comes back as 0 (CodecFixes.QueryFixedRoundTrip, ReplyFixedRoundTrip); and the false flags of MessageCodec.DecodeKeyexpr. Within one decode, though, the source-info extension handlers do read into the message's current source info, so a repeated extension keeps the earlier id's tail (Fields.SourceInfoDecodeKeepsTail).
- `_z_zenoh_message_encode` and `_z_zenoh_message_decode` (src/protocol/codec/message.c:677-756): the network-message dispatcher is not modelled. Its per-message codecs are.
- Locators are opaque NUL-free strings. Parsing a locator string into protocol, address and metadata is not part of this model.
- The primitive codecs (`_z_zint_encode`, `_z_bytes_encode`, `_z_str_encode`, `_z_uint8_*` and the buffer functions) are not part of this model. They are given concrete LEB128 and length-prefix definitions in `Wire` and `Buffers`, with proved round trips.
- `z_bytes_check` and `_z_bytes_is_empty` are not part of this model. A byte slice is modelled by its contents, so presence is taken as "non-empty" and emptiness as "no bytes".
- `_z_id_len` and `_z_id_check` are not part of this model. They are given concrete definitions: the length runs up to the last non-zero byte, and the check is "some byte is non-zero".
- Fields.IdEncodeAsZbytes: the test `id->id[len] != 0` at src/protocol/codec/message.c:59 depends on the body of `_z_id_len`, which is not part of this model. It is modelled as the id check ("some byte is non-zero"), which is what the error message on its else branch describes.
- `_z_msg_ext_decode_iter`, `_z_msg_ext_skip_non_mandatories` and `_z_msg_ext_unknown_error` are not part of this model. They are given the definitions their callers rely on: iterate while the Z bit is set, fail on an unknown mandatory extension, skip the rest.
- `_z_msg_query_required_extensions` is not part of this model. It is represented by the `QueryNeeds*` predicates.
- Write-buffer growth and allocation failure: the write buffer is an unbounded sequence, so encoders never fail for lack of space.
- Concurrency: mutexes, condition variables and the blocking `_z_ring_mt_pull` are left out. The ring is modelled single-threaded, and `_z_ring_mt_try_pull` is the pull.
- The ring's own source (`_z_ring_init`, `_z_ring_push_force_drop`, `_z_ring_pull`) is not part of this model. It is written from its interface, and initialisation is taken to succeed exactly for a positive capacity with a successful allocation.
- Handlers.ChannelRing: does not model the unchecked `zp_malloc` at src/api/handlers.c:69, nor the leaked channel on the failure paths.
- Handlers.ChannelRingPull: the element copy function becomes a returned value. The assignment `dst = NULL` changes only a local, so it is modelled as leaving the destination as it was. The element is not freed after the copy, and that ownership question is not modelled.
- `z_sample_to_owned` (src/api/handlers.c:20-29) is a conversion helper, and the commented-out FIFO channel (src/api/handlers.c:85-175) is not compiled. Neither is modelled.
- `_z_add_interest` and `_z_remove_interest` become parameters of `WriteFilter.Create` and `WriteFilter.Destroy`. The interest flags they receive are not modelled.
- Only the interest-enabled build of the write filter is modelled. With `Z_FEATURE_INTEREST == 0` (src/net/filtering.c:136-157), create and destroy return OK without doing anything, and `_z_write_filter_active` is always false; that build is not part of this model.
- Filtering.WriteFilterCtx: the allocator is a parameter, so an allocation failure is a chosen input rather than an event.
- Messages.HasParameters: a byte slice is modelled by its contents alone, so a NULL slice and an empty non-NULL slice are the same value, and `z_bytes_check` at src/protocol/codec/message.c:356 is taken as "non-empty". If that check only tests `start != NULL` (as the Err value test at src/protocol/codec/message.c:527 does), an empty non-NULL parameter slice would get the P flag and a zero length, which the model never writes.
- Encoding.EmptySchemaIsNull: the schema slice is modelled by its contents, so the lemma equates only the id and the (empty) contents. The C structs still differ in `schema.start`: `""` for an empty string and NULL for a null schema (src/net/encoding.c:23).
- Encoding: the network-layer `_z_encoding_t` (an id and a schema) and the wire encoding the codec writes (a prefix and a suffix) are kept as separate types. The conversion between them is not part of this model.
- Scouting.ScoutDecode: the unchecked `_z_zbuf_read_bytes` for the id bytes is modelled as an error on short input. The C code would read past the end.
- Scouting.HelloDecode: the same holds for the Hello id bytes.
- Fields.SourceInfoRoundTrip: holds only for ids shorter than 16 bytes. The 16-byte case fails, as shown under "Findings".
- Messages.PushBodyRoundTrip: stated only for bodies without encoding and source info. Those fields fail, as shown under "Findings"; the full round trip is CodecFixes.PushBodyFixedRoundTrip.
- Messages.QueryRoundTrip: stated only for queries without a value or source info, for the same reason. The full round trip is CodecFixes.QueryFixedRoundTrip.
- Messages.ReplyRoundTrip: stated only for an explicit consolidation and no source info. The other cases fail, as shown under "Findings".
- Messages.ErrRoundTrip: stated only without source info and error value, whose extensions are written without a length in the same way, and only for non-infrastructure errors: the encoder never writes the I flag that the decoder reads (see "Findings"; the corrected header is CodecFixes.ErrFixedRoundTrip).
- Messages.QueryExtHandler: the decoded consolidation mode is kept as an unbounded integer. The C assigns the zint to the `z_consolidation_mode_t` enum (src/protocol/codec/message.c:404-405), which differs only for values outside the enum's range; that conversion is not modelled.
- Messages.ReplyExtHandler: the same holds for the reply's consolidation mode (src/protocol/codec/message.c:490-491).
- Fields.IdDecodeAsZbytes: a length byte above 16, or fewer bytes left than it announces, is modelled as an error. The C (src/protocol/codec/message.c:73-79) reads without checking and always returns OK. Fields.TimestampDecode, which decodes its id this way, inherits this.
- CodecFixes.PushBodyFixedRoundTrip: stated for a valid or null timestamp. A timestamp with a null id but a non-zero time is not written by the encoder and comes back null, as in the original.
- CodecFixes.QueryFixedRoundTrip: stated for AUTO or a mode from 0 to 2^64-1. Another negative mode is written as its 64-bit wrap-around and comes back as that value.
- CodecFixes.ReplyFixedRoundTrip: stated only without source info. The reply's source-info extension is still written without its length; the corrected framing is carried into Put, Del and Query only.
- CodecFixes.ErrFixedRoundTrip: stated only without source info and error value, for the same reason.
- CodecFixes.AckFixedRoundTrip: stated only without source info, for the same reason.
- Messages.AckRoundTrip: stated only without source info, for the same reason.
- Debug logging (`_Z_DEBUG`, `_Z_ERROR`) is left out.

## Findings

| source | as written | input that shows it | evidently intended | confidence | as-written member | corrected member |
|---|---|---|---|---|---|---|
| src/protocol/codec/message.c:216 | the encoder writes the id length shifted into the high nibble, and the decoder (line 188) reads that nibble back as the length | a source info whose id has 16 significant bytes: the nibble wraps to 0 and no id bytes are read | write `len - 1` and read `nibble + 1`, as the Hello codec does | high, not executed | CodecFixes.FullLengthIdIsLost | CodecFixes.SourceInfoFixedRoundTrip |
| src/protocol/codec/message.c:260-263 | the source-info extension is a ZBUF extension, but its body is written without its length prefix (so are the Reply, Err, Ack and Pull ones; CodecFixes.UnframedPullFails shows the Pull case) | a Del with a one-byte source id, entity id 0 and sequence number 0 | write the body as a length-prefixed buffer | high, not executed | CodecFixes.UnframedSourceInfoFails | CodecFixes.PushBodyFixedRoundTrip |
| src/protocol/codec/message.c:297-299 | the Put decoder reads the encoding prefix but never the suffix length and bytes that the encoder wrote | any Put whose E flag is set (prefix not EMPTY or suffix non-empty); with a non-empty suffix the suffix is lost, and with only a prefix the unread zero length is taken for the payload (CodecFixes.PutWithPrefixIsLost) | read the suffix that was written | high, not executed | CodecFixes.PutWithSuffixIsLost | CodecFixes.PushBodyFixedRoundTrip |
| src/protocol/codec/message.c:432-434 | the query decoder reads extensions even when the header's Z flag is clear | a query with no parameters, no value, AUTO consolidation and no source info | read extensions only when Z is set | high, not executed | CodecFixes.PlainQueryFails | CodecFixes.PlainQueryFixedDecodes |
| src/protocol/codec/message.c:387-390 | the source-info extension of a query is written without its extension header (and the body extension at lines 369-378 without its length) | a query carrying only a one-byte source id | write the header before the extension body | high, not executed | CodecFixes.QueryInfoHeaderMissing | CodecFixes.QueryFixedRoundTrip |
| src/protocol/codec/message.c:510-512 | the reply decoder reads extensions even when the header's Z flag is clear | a reply with no timestamp, an empty value, AUTO consolidation and no source info | read extensions only when Z is set | high, not executed | CodecFixes.PlainReplyFails | CodecFixes.ReplyFixedRoundTrip |
| src/protocol/codec/message.c:520-552 | the Err encoder never sets the I flag, which the decoder (line 585) reads into `_is_infrastructure` | any Err whose `_is_infrastructure` is set | set the I flag for an infrastructure error | medium, not executed | CodecFixes.InfrastructureErrIsLost | CodecFixes.ErrFixedRoundTrip |
| src/protocol/codec/message.c:598 | the Ack header is built with the ERR message id | any Ack | use the ACK message id | high, not executed | CodecFixes.AckCarriesErrId | CodecFixes.AckFixedRoundTrip |
| src/net/filtering.c:85-94 | in OFF a new declaration is not recorded, so undeclaring the first one reactivates the filter | DECL 1, DECL 2, UNDECL 1 from ACTIVE: ACTIVE with declaration 2 still live | record every declaration while OFF | medium, not executed | Filtering.SecondDeclarationIsForgotten | Filtering.NoFalseSuppression |
| src/net/filtering.c:114-117 | when the interest id is 0 the context is freed but `filter->ctx` still points to it | `_z_add_interest` returning 0, then `_z_write_filter_destroy` or `_z_write_filter_active` | reset `filter->ctx` to NULL after freeing it | high, not executed | Filtering.WriteFilter.Create | Filtering.WriteFilter.CreateFixed |
| src/api/handlers.c:75-83 | with `Z_FEATURE_MULTI_THREAD` off the function reaches its closing brace without a return | any capacity in a single-threaded build | return the ring on that path too | high, not executed | Handlers.SingleThreadChannelIsLost | Handlers.ChannelRing |
