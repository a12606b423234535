# Verification of the wire codec and of the UUID text form

This project models two parts of the Staffjoy services and proves properties of them.

**The protobuf wire codec** that is generated into `company/company.pb.go`, `account/account.pb.go` and
`frontcache/frontcache.pb.go`: the varint writer and its size function, the writers that fill a buffer from its end
backwards, the readers with their index arithmetic and overflow checks, and the depth-counting skipper for unknown
fields. The standard behind it is the Protocol Buffers Encoding specification ("Base 128 Varints", "Message
Structure", "Last One Wins", "Groups", "Maps").

**`crypto/uuid.go`**: the version and variant bit fields, the text form and its parser.

## How the model is built

- `Bits`, `Varints`, `Skipper` model the byte level. Go's 64-bit `int` and `int32` are ranges of `int`; truncation,
  sign extension and wrap-around of additions are written out, and `|` is a recursive bitwise or.
- `Tags` says what a tag means by arithmetic on its value, for tags of any number of bytes. `Entries` and `Records` are
  grammars of map entries and of messages; `Wire` and `Structs` spell out, with literal tags and the names of the Go
  fields, what is written for every field and what reading one record does. They are defined by what a varint is and
  by arithmetic, not by the steps of `Decoder` and `Encoder`, and are proved to agree with them; only the content of a
  nested message is what `Unmarshal` makes of it. `Faults` does the same for what is refused, error by error.
- `Schemas` describes what the generator was given (field numbers and kinds). `Decoder` and `Encoder` say, for *every*
  schema, what the generated `Unmarshal`, `MarshalToSizedBuffer` and `Size` compute, including which error is
  returned and what the receiver looks like after an error. `Merge`, `Boundaries`, `Evolution`, `Canonical`,
  `Embedding` and `MapEntries` prove the laws of the codec about these functions, for all schemas, all messages and
  all byte strings, and where a law has an exception, exactly when it holds.
- `Fields` holds the blocks the generator repeats for each kind of field, as methods on buffers and indices. The
  classes `Team`, `DirectoryEntry`, `Association`, `AssociationList`, `RowsOfCompany`, `Worker`, `WorkerListRequest`
  and `GrowthGraphResponse` have the fields of the Go structs; their methods follow the generated ones and are proved
  equal to the functions at the schema of the message, and to the bytes and records of `Structs`. Together they contain every kind of field: strings, bools,
  int32, an embedded message, lists of strings and of messages, and a map.
- `CompanyResults` applies the laws to these messages; `Exchange` combines the classes: what one side marshals, the
  other side unmarshals.
- `Uuid` is independent of the rest.

Strings are sequences of bytes, because the code does not check UTF-8. The order in which `range` visits a map is a
parameter (`Visit`) about which nothing is known but that every key is visited once; results hold for every order,
and `GrowthGraphResponse` discovers its order while writing. An order is chosen for the contents of a map, so equal
maps inside one message share it; in the company service only GrowthGraphResponse has a map, and no message embeds
it. Every Go slice is shorter than 2^63 bytes; this is the only precondition on input bytes. A nil and an empty list
or map are the same value.

Where the code differs from what its comments or the standard say, the model follows the code:

- `skipCompany` does not compare the field numbers of the two tags of a group, so the grammar in `Skipper` does not
  either.
- A value that is repeated inside one map entry is or-ed into the previous one instead of replacing it
  (`MapEntries.LastValueWinsIff`).
- Key and value of a map entry are checked against the end of the input, not of the entry. Such an entry reads bytes
  that are then read again, and for this reason an unknown field in front of them can change the message
  (`Boundaries.TransparentIffNoMap`).
- The indices of a nested message start from zero again, but those of a concatenation go on. An announced length
  that is merely too long for the input can therefore become an invalid one behind other bytes
  (`Merge.ConcatenationIsMerge`).
- `setVariant(ReservedRFC4122)` sets the variant bits to 01; section 4.1.1 of RFC 4122 asks for 10. The comment on
  `ParseHex` shows both brackets or none; the pattern accepts either one alone.

Writing back what was read can take more bytes than the input: an int32 that becomes negative, a map entry with
explicit defaults, an embedded message that is always emitted. Messages without these (`Compact`) never grow, and
among the schemas that embed only compact messages, as all in `CompanySchemas` do, exactly these never grow. Once
another message is embedded, being compact is no longer necessary: an int32 that is embedded three deep needs at
least twelve bytes of input and can add at most eleven (`Embedding.NeverGrowsFromThreeDeep`).

## Model

| member | source | states |
|---|---|---|
| Varints.EncodeVarint | company/company.pb.go:8681-8691 | writes exactly the canonical varint, ending at the given offset, and touches no other byte |
| Varints.SovIsLength | company/company.pb.go:9922-9924 | the closed-form size is the length of the varint, for every value |
| Varints.VarintInverse | company/company.pb.go:9934-9947 | reading a written varint, with anything behind it, returns the value and consumes exactly its bytes |
| Varints.ReaderStops | account/account.pb.go:3246-3259 | on all inputs: overflow exactly after ten continuation bytes, unexpected EOF exactly when the input ends in fewer, success exactly at the first byte without the continuation bit |
| Varints.ReaderSum | account/account.pb.go:3246-3259 | what the loop has accumulated is the sum of the shifted 7-bit groups it consumed, padded encodings included |
| Varints.ReadUint64 | company/company.pb.go:9934-9947 | the or-ing loop on 64 bits computes that sum modulo 2^64, and stops where and why the specification says, without leaving the input |
| Varints.ReadInt32 | account/account.pb.go:3273-3287 | the or-ing loop on an int32 variable or-s the low 32 bits of the sum into what the variable held, also when it ends in an error |
| Varints.Minimal | company/company.pb.go:9922-9924 | no accepted encoding of a value is shorter than `sov` of it |
| Varints.Int32RoundTrip | account/account.pb.go:1849-1865 | every int32 survives sign extension, the varint and the 32-bit reader |
| Varints.ExtendedLength | account/account.pb.go:2382-2394 | an int32 takes ten bytes exactly when it is negative |
| Varints.ZigzagBijective | company/company.pb.go:9925-9927 | the map inside `soz` has a two-sided inverse on 64-bit values |
| Varints.SozBound | company/company.pb.go:9925-9927 | `soz` needs at most k bytes exactly for the signed values from -2^(7k-1) up to 2^(7k-1), for k from 1 to 9 |
| Tags.NumberRead | company/company.pb.go:10836-10837 | for every tag value: the field number is the number in the tag cut off to 32 bits and taken as signed, the wire type its low three bits |
| Tags.TagRead | company/company.pb.go:10836-10837 | every number from 1 to 2^29-1 with every wire type is read from its tag |
| Skipper.SkipCompany | company/company.pb.go:18172-18249 | the loop, with 64-bit additions that may wrap around, terminates, stays inside the input and returns what the depth-counting function specifies |
| Skipper.SkipIsGrammar | company/company.pb.go:18172-18249 | a skip passes over n bytes of the input if and only if these are one field of the recursive grammar of scalars and balanced groups |
| Skipper.SkipExtends | frontcache/frontcache.pb.go:2612-2689 | what a skip passes over does not depend on the bytes behind it |
| Skipper.SkipOverrun | account/account.pb.go:4523-4600 | a skip returns more than the length of the input only for one truncated fixed-size or length-delimited field at depth zero |
| Faults.SkipFails | company/company.pb.go:18172-18249 | inside any open groups a skip fails at the end of the input, at a broken tag and at a tag that cannot be passed over, with the error of that tag |
| Faults.SkipScalar | company/company.pb.go:18192-18240 | outside of groups a scalar is passed over with exactly its payload size, whether the payload is there or not |
| Records.UnmarshalIsGrammar | company/company.pb.go:10816-11096 | for every schema without map fields: an input is accepted, and turns the receiver into `m'`, if and only if it is a sequence of records, spelled with any varints, that mean so one after the other |
| Records.RecordsAccepted | company/company.pb.go:17858-18039 | with map fields, every sequence of records whose entries stay within their lengths is accepted and means what its records mean |
| Records.EntryRead | company/company.pb.go:17917-17999 | an entry whose last key or value reaches beyond its length is stored all the same, and the loop goes on behind that length |
| Entries.EntryIsParts | company/company.pb.go:17919-17997 | the loop over an entry accepts exactly the keys, values and well-formed unknown fields, in any order and spelling, that fit into the entry, and ends with the last key and all values or-ed |
| Faults.TagFaults | company/company.pb.go:10836-10843 | a broken tag, an end tag and a number that is not positive are refused with their errors, and nothing has been done |
| Faults.TypeFault | company/company.pb.go:10845-10848 | a known field with a wire type not its own is refused |
| Faults.VarintFault | company/company.pb.go:11057-11075 | a broken varint leaves a bool alone, but an int32 already holds the bits that were read |
| Faults.LengthFault | company/company.pb.go:10849-10876 | a length that is broken, negative, beyond an int or beyond the input is refused with its error, and the field is left alone |
| Faults.UnknownFault | company/company.pb.go:11076-11088 | an unknown field that cannot be skipped or that ends beyond an int or beyond the input is refused with its error |
| Faults.EntryFault | company/company.pb.go:17919-17997 | an entry with a broken key, value or unknown field behind any good ones is not stored |
| Faults.FaultBehind | company/company.pb.go:10816-11096 | behind an accepted prefix these are the errors of the whole input |
| Merge.ConcatenationIsMerge | company/company.pb.go:10816-11096 | for every schema: if `a` is accepted, unmarshalling `a + b` leaves the message that unmarshalling `a` and then `b` leaves, and returns the same error, except that an unexpected EOF becomes an invalid length, exactly when the end announced by the length or skip that stops the loop in `b`, moved by the length of `a`, is 2^63 or more |
| CompanyResults.MergeMayChangeTheError | company/company.pb.go:10631-10641 | the exception occurs: inputs where `b` on its own ends in EOF and behind `a` in an invalid length |
| Merge.UnknownIsTransparent | company/company.pb.go:14725-15018 | for every schema: a well-formed field, nested groups included, whose number (the low 32 bits of its tag divided by 8, positive as an int32) is not in the schema can be inserted behind an accepted prefix without changing the message or the acceptance; the error changes exactly as in a concatenation |
| Merge.NumberUnknown | company/company.pb.go:14745-14752 | among the tags of the numbers from 1 to 2^29-1, exactly those of numbers not in the schema are unknown, with every wire type |
| Merge.UnknownIsGrammar | company/company.pb.go:14998-15011 | at an unknown field number the input is accepted if and only if it starts with a field of the grammar |
| Boundaries.BoundaryAccepted | company/company.pb.go:14725-15018 | without map fields, every boundary between records that the loop passes ends an accepted prefix |
| Boundaries.TransparentIffNoMap | company/company.pb.go:17920-17997 | for every valid schema: unknown fields can be inserted at every boundary between records of every accepted input without changing the message if and only if the schema has no map field |
| Boundaries.UnknownBetweenRecords | company/company.pb.go:14725-15018 | the sufficient half: without map fields, an unknown field can be inserted between any two records of accepted input |
| Boundaries.MapIsNotTransparent | company/company.pb.go:17940-17967 | the necessary half: for every valid schema with a map field, an entry of two bytes whose key is the record behind it takes an inserted field as its key |
| Boundaries.UnknownNotTransparentInMaps | company/company.pb.go:17940-17967 | an illustration with GrowthGraphResponse: a field 3 in front of PeopleOnShifts becomes the key of the entry before it |
| Evolution.EvolutionIsProjection | company/company.pb.go:16501-16614 | for all pairs of compatible schemas and every order of visiting maps (one order for equal maps): what one writes the other accepts; unknown fields are dropped, missing ones left alone, and the rest is merged into the receiver field by field and recursively |
| Evolution.RoundTrip | company/company.pb.go:17366-17624 | for every schema and message, unmarshalling the marshalled message into an empty one restores it exactly: list order, embedded empty messages, negative values and maps |
| Evolution.ConcatenatedEncodings | company/company.pb.go:10816-11096 | two encodings one behind the other are an encoding of the merge: scalars take the last non-zero value, lists append, embedded messages merge, map keys are overwritten |
| Evolution.MarshalInjective | company/company.pb.go:8461-8491 | different messages never have a common encoding, whatever the orders of their maps |
| Evolution.EntryRead | company/company.pb.go:17920-17997 | a written map entry is read back in full, empty keys and zero or negative values included |
| Wire.BoolWritten | company/company.pb.go:6272-6281 | a true bool is the varint 1 under its tag, a false one is not written |
| Wire.Int32Written | company/company.pb.go:6246-6250 | an int32 is the varint of its extension to 64 bits under its tag, zero is not written |
| Structs.TeamIsWritten | company/company.pb.go:6241-6304 | a Team is written as its fields under the tags 0x0a, 0x12, 0x1a, 0x20, 0x2a, 0x32, 0x3a, 0x40 |
| Structs.TeamIsRead | company/company.pb.go:10816-11096 | one record of such a tag, minimal or not, sets exactly the field of that name; one of a number beyond 8 sets nothing |
| Structs.DirectoryEntryIsWritten | company/company.pb.go:7485-7550 | as for Team, with the tags 0x0a, 0x12, 0x1a, 0x2a, 0x32, 0x38, 0x42, 0x4a |
| Structs.DirectoryEntryIsRead | company/company.pb.go:14725-15018 | as for Team, with number 4 not being a field |
| Structs.WorkerIsWritten | company/company.pb.go:8190-8222 | as for Team |
| Structs.WorkerIsRead | company/company.pb.go:16782-16946 | as for Team |
| Structs.WorkerListRequestIsWritten | company/company.pb.go:8097-8117 | as for Team |
| Structs.WorkerListRequestIsRead | company/company.pb.go:16501-16614 | as for Team |
| Structs.RowsOfCompanyIsWritten | company/company.pb.go:6151-6166 | every string of the list under the tag 0x0a, in order |
| Structs.RowsOfCompanyIsRead | company/company.pb.go:10583-10664 | a record of that tag appends one string |
| Structs.AssociationIsWritten | company/company.pb.go:8404-8444 | the bytes of the account under 0x0a, even when it is empty, those of every team under 0x12, and Admin under 0x18 |
| Structs.AssociationIsRead | company/company.pb.go:17366-17502 | a nested record is read into the account in place or into a new team that is appended, also when it is rejected; Admin and unknown numbers as for Team |
| Structs.AssociationListIsWritten | company/company.pb.go:8461-8491 | the bytes of every association under 0x0a, Limit under 0x10, Offset under 0x18 |
| Structs.AssociationListIsRead | company/company.pb.go:17503-17624 | a nested record is read into a new association that is appended; Limit, Offset and unknown numbers as for Team |
| Structs.GrowthGraphIsWritten | company/company.pb.go:8598-8626 | the entries in front, the one visited last first, each with key and value under 0x0a and 0x10, then PeopleOnShifts under 0x10 |
| Structs.GrowthGraphIsRead | company/company.pb.go:17858-18039 | an entry with any keys, values and unknown fields gives its last key all its values or-ed; PeopleOnShifts and unknown numbers as for Team |
| CompanyResults.ArchivedTeam | company/company.pb.go:6272-6281 | a Team with only Archived set is written as 20 01 |
| CompanyResults.NegativeVersion | company/company.pb.go:6246-6250 | a Team with only Version set, to -1, is written as 40, nine times ff, and 01 |
| Encoder.SizeIsLength | company/company.pb.go:9799-9838 | for every schema, the size formula is the number of bytes written |
| Encoder.SizeIgnoresOrder | company/company.pb.go:9880-9898 | the size computed in one order of the maps is the number of bytes written in any other |
| Canonical.ReencodingNeverGrows | company/company.pb.go:15585-15782 | for schemas of strings, bools, embedded messages and lists of messages without embedded ones: writing back a message after unmarshalling `d` into it takes at most `d` more bytes than before |
| Canonical.CanonicalIsShortest | company/company.pb.go:9388-9426 | if moreover the schema itself embeds no message, writing back what was decoded keeps its meaning and gives a shortest accepted encoding |
| Canonical.NeverGrowsIffCompact | company/company.pb.go:8918-8934 | for schemas that embed only compact messages, with lists of such messages nested to any depth below 2^59: no receiver ever grows by more than the input exactly for the compact ones, that is, without int32, maps and lists of messages that embed others, at every depth |
| Canonical.ListGrows | company/company.pb.go:11421-11523 | an input that makes an element larger than itself makes every list with that element grow, behind a longer or equal length |
| Canonical.ListOfEmbeddedGrows | company/company.pb.go:8404-8444 | a list of messages that embed another one always violates it, because the embedded message is always emitted |
| Embedding.NeverGrowsFromThreeDeep | company/company.pb.go:9799-9817 | an int32 embedded e times never makes its message grow by more than the input exactly for e of 3 and more, although the schema is never compact |
| CompanyResults.CompactMessages | company/company.pb.go:9514-9544 | DirectoryEntry, RowsOfCompany, RowsOfDirectory and WorkerListRequest are such schemas |
| CompanyResults.CompanyMessagesThatGrow | company/company.pb.go:9799-9838 | Team, TeamList, Association, AssociationList, Worker and GrowthGraphResponse are not: each can grow |
| CompanyResults.TeamsGrow | company/company.pb.go:17366-17502 | the growth of a team with a negative version is passed on to a TeamList and to an Association |
| MapEntries.EntryRecordRead | company/company.pb.go:17919-17997 | in every schema with a map, a record with any keys, values and well-formed unknown fields in any order assigns to the last key all values or-ed together |
| MapEntries.LastValueWinsIff | company/company.pb.go:17968-17982 | of any number of values, with any keys and unknown fields between them, the last one arrives if and only if its low 32 bits include those of every value before it |
| MapEntries.LastValueLost | company/company.pb.go:17858-18039 | unmarshalling a GrowthGraphResponse whose entry has any key, the values 1 and then 2 and an unknown field between them gives 3 |
| Fields.ReadLength | company/company.pb.go:10616-10641 | the length checks with wrap-around: a negative length or sum, a length beyond the input, or the exact slice that follows |
| Fields.SkipUnknownField | company/company.pb.go:11076-11088 | the checks around `skipCompany`, with wrap-around, advance by exactly one field or return the specified error |
| Fields.UnmarshalEntry | company/company.pb.go:17919-17997 | the loop over a map entry terminates, stays inside the input even when it runs beyond the entry, succeeds exactly on parts that fit into the entry, and returns their last key and all their values or-ed |
| Fields.PutStringRecords | company/company.pb.go:6156-6164 | the last-to-first loop writes the strings in their order, directly in front of `end`, and nothing else |
| TeamMessage.Team.Unmarshal | company/company.pb.go:10816-11096 | on every byte string the receiver and the error afterwards are those of the decoding function at the schema of Team, and on a single record those of `TeamReads`, field by field |
| TeamMessage.Team.Size | company/company.pb.go:8833-8870 | with additions that wrap around, computes the size of the contents whenever that fits into an int |
| TeamMessage.Team.MarshalToSizedBuffer | company/company.pb.go:6241-6304 | fills exactly the last `Size` bytes of the slice with the encoding, which is `TeamBytes` with its literal tags, returns `Size`, and leaves all other bytes unchanged |
| TeamMessage.Team.Marshal | company/company.pb.go:6226-6234 | returns a new buffer that is completely filled with the encoding |
| DirectoryEntryMessage.DirectoryEntry.Unmarshal | company/company.pb.go:14725-15018 | as for Team, with a gap in the field numbers |
| DirectoryEntryMessage.DirectoryEntry.MarshalToSizedBuffer | company/company.pb.go:7485-7550 | as for Team |
| RowsOfCompanyMessage.RowsOfCompany.Unmarshal | company/company.pb.go:10583-10664 | as for Team, with a list of strings that is appended to |
| RowsOfCompanyMessage.RowsOfCompany.MarshalToSizedBuffer | company/company.pb.go:6151-6166 | as for Team |
| AssociationMessage.Association.Unmarshal | company/company.pb.go:17366-17502 | as for Team; the embedded account is unmarshalled into in place and new teams are appended, also when their bytes are rejected |
| AssociationMessage.Association.Size | company/company.pb.go:9799-9817 | as for Team, through the nested sizes |
| AssociationMessage.Association.MarshalToSizedBuffer | company/company.pb.go:8404-8444 | as for Team, through nested writers on the same buffer and a last-to-first loop |
| AssociationListMessage.AssociationList.Unmarshal | company/company.pb.go:17503-17624 | as for Team, two levels deep |
| AssociationListMessage.AssociationList.MarshalToSizedBuffer | company/company.pb.go:8461-8491 | as for Team, two levels deep |
| AssociationListMessage.AssociationList.MarshalTo | company/company.pb.go:8456-8459 | fills exactly the first `Size` bytes of a larger buffer |
| GrowthGraphResponseMessage.GrowthGraphResponse.Unmarshal | company/company.pb.go:17858-18039 | as for Team, with the entry loop of the map |
| GrowthGraphResponseMessage.GrowthGraphResponse.Size | company/company.pb.go:9880-9898 | as for Team, whatever order it visits the map in |
| GrowthGraphResponseMessage.GrowthGraphResponse.MarshalToSizedBuffer | company/company.pb.go:8598-8626 | as for Team, for the order in which it visits the map |
| GrowthGraphResponseMessage.GrowthGraphResponse.Marshal | company/company.pb.go:8583-8591 | the buffer is completely filled even if `Size` visited the map in another order |
| WorkerMessage.Worker.MarshalToSizedBuffer | company/company.pb.go:8190-8222 | as for Team |
| WorkerListRequestMessage.WorkerListRequest.Unmarshal | company/company.pb.go:16501-16614 | as for Team |
| Exchange.SendAssociationList | company/company.pb.go:8446-8454 | Marshal followed by Unmarshal into a new list gives an equal list, without an error |
| Exchange.SendGrowthGraph | company/company.pb.go:8583-8591 | the same for the map message: an equal map and an equal PeopleOnShifts, for every order |
| Exchange.ReadWorkerAsRequest | company/company.pb.go:16501-16614 | the bytes of a Worker read as a WorkerListRequest give exactly its CompanyUuid and TeamUuid |
| Uuid.VariantLaws | crypto/uuid.go:106-129 | the variant read after `setVariant(v)` is v exactly for the three non-zero reserved values (or if it was v before); the low bits of the byte do not change |
| Uuid.VariantRead | crypto/uuid.go:120-129 | for every byte, the highest of the upper three bits that is set decides the variant |
| Uuid.FieldBits | crypto/uuid.go:106-141 | every bit of the byte after each setter, and every bit of the version that is read |
| Uuid.VersionLaws | crypto/uuid.go:133-141 | the version read after `setVersion(n)` is n modulo 16; the low half of the byte does not change |
| Uuid.FieldsCommute | crypto/uuid.go:106-141 | both setters commute and change no other byte |
| Uuid.TextRoundTrip | crypto/uuid.go:55-69 | parsing the text form gives the bytes back exactly when the version is 1 to 5 |
| Uuid.ParseLanguage | crypto/uuid.go:38-69 | the language of `ParseHex`: the matches of the pattern with hexadecimal letters; the text form of the result is the matched core |
| Uuid.CoreByPosition | crypto/uuid.go:38-39 | the pattern character by character: dashes, the digit 1 to 5, lower-case letters and digits |
| Uuid.InvalidByteIff | crypto/uuid.go:55-69 | a match of the pattern fails to decode exactly if it has a letter beyond f |
| Uuid.ParsedBytes | crypto/uuid.go:55-69 | every byte is sixteen times the value of its first digit plus that of its second, both by character arithmetic |
| Uuid.TextCharacters | crypto/uuid.go:143-146 | every character of the text form: the two lower-case digits of each byte, and the dashes |
| Uuid.DecodedByte | crypto/uuid.go:62-65 | the same for hex.DecodeString of every string, with digits of both cases |
| Uuid.DecodeFails | crypto/uuid.go:62-65 | it fails exactly if some character is not a hexadecimal digit |
| Uuid.FindCoreIsMatch | crypto/uuid.go:38-39 | taking the optional prefix and brackets greedily finds exactly the matches of the pattern |
| Uuid.UUID.SetVariant | crypto/uuid.go:106-115 | changes byte 8 in place and no other |
| Uuid.UUID.SetVersion | crypto/uuid.go:133-136 | changes byte 6 in place and no other |
| Uuid.ParseHex | crypto/uuid.go:55-69 | returns the sixteen bytes, each given by the values of its two digits in the match, or the kind of error of the parsing function |
| Uuid.Parse | crypto/uuid.go:72-80 | copies sixteen bytes and rejects any other number |
| Uuid.NewUUID | crypto/uuid.go:84-94 | from sixteen random bytes: version 4, the reserved variant, other bytes unchanged, and the text form parses back to the result; if the source of randomness delivers fewer, an error and these bytes as they are |

## Left out

- Messages with time fields (Account, AccountList, Shift, ShiftList and requests that contain times): they call library functions that are not part of this model.
- The other generated messages of the three services: they are further schemas with the same kinds of fields; CreateAccountRequest and GetOrCreateRequest have one and the same schema, so they produce the same bytes.
- Field numbers above 15: no message in the three files has one, so tags are one byte when written; the readers accept every tag.
- `MarshalTo` of the messages other than AssociationList: the same two lines in each.
- gRPC clients and servers, descriptors, getters and `XXX_` methods: plumbing around the codec.
- The text of error messages: errors are kinds; the package they come from and the numbers they print are not modelled.
- The regular expression engine: the pattern of `ParseHex` is modelled as the set of its matches and a greedy search proved to find them.
- The source of randomness of `NewUUID` is a parameter, the bytes it delivers; what the error says is not modelled, and neither is `setBytesFromHash`.
- TeamMessage.Team.Size: says nothing about a size of 2^63 or more, and neither do the other `Size` methods; the Go code then returns a wrapped sum for which no buffer can be made.
- Canonical.NeverGrowsIffCompact: does not cover schemas that embed a message with an int32 or a map; `Embedding.NeverGrowsFromThreeDeep` shows that there the condition is about sizes and not only about kinds.
- Evolution.EvolutionIsProjection: an order of visiting is a function of the contents of a map, so two equal maps inside one message are visited in the same order; only GrowthGraphResponse has a map, and it is not nested.
