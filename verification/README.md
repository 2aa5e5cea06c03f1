# Router codec and routing, modelled in Dafny

A model of the two cores of the model router, with the properties its contract
rests on proved for every input, every run or every snapshot.

**The codec and the call.** `go/abstraction/router/rec.go` pretty-prints records
as JSON, reads them back with a strict cursor, skips values it does not
interpret, and carries one encoded value inside another as raw bytes between a
client and a dispatcher. The generated records differ only in their shapes, so a
shape is data here (`Schema.dfy`, `Records.dfy`): fields with a name, a kind and
one of three omission rules. Encoder, decoder and skipper are given for every
shape at once, and each theorem holds for all of them.

- `Bytes`, `Utf8`, `Scan`, `Schema`, `Encoding`: what each reader and writer
  function computes, as a function of the buffer, the offset and the depth.
- `Grammar`: JSON texts as syntax trees after RFC 8259, and UTF-8 after RFC 3629
  in `Utf8`: the reference the reader and the printer are compared with.
- `Tokens`, `Numerals`, `Timestamp`, `Skipper`, `Decoding`: the reader accepts
  exactly that grammar and gives each tree its meaning.
- `RoundTrip`, `Rpc`, `Requests`: encode and decode, and a whole call from the
  client to the handler and back.
- `Failures`: how a call that fails ends for the caller, in the words on the wire.
- `Forward`, `Replies`: forward compatibility, of any text and over a whole call.
- `Calendar`, `Escapes`, `Wire`, `Refusals`: the codec again without its own
  definitions: timestamps by the numbers they spell and the Gregorian calendar,
  strings by code point down to the hexadecimal digits, records by their members
  and lines, and refusals by the first thing that is wrong.
- `Reading`, `Writing`: the cursor class with its `pos` and `depth`, and the
  appending loops, proved to compute those functions.
- `Python`: the two places the Python reader is built differently.

**The routing engine.** `go/held.go`, `go/router.go`, `go/offer.go`,
`go/native.go` and `go/profiles.go` index what the stores hold, fold one survey
of the hosts into a catalogue and its indexes, choose a host for a request, and
say what a caller may ask for.

- `Order`: byte order, sorting, and what does not depend on the order a list or
  a map is read in.
- `Provenance`, `Identity`, `Spellings`: the store index as it mutates its maps,
  what a key names, and what the order of the held objects decides.
- `Hosts`, `Scoping`: profiles, declarations, and what a scoped host's reading
  makes routing serve. `Catalogue`, `Composition`, `Snapshots`: the survey and
  the agreement of its indexes.
- `Routing`, `Routers`, `Decisions`: the decision, the loops that make it, and
  what it guarantees.
- `Offers`, `Offering`, `Joining`, `Unknowns`, `Rearranging`, `Pickable`: the
  offers, the loops that fold them, how they relate to each other and to
  routing, and the orders they do not depend on.
- `Invariance`: what a caller is told, and the orders that do not change it.
- `Reports`, `Outcomes`, `Windows`, `Holdings`: the routing again, told from what
  each host reported, each remote replied and each store holds, field by field:
  the aliases, the candidates and the name asked for, the whole decision, every
  offer and its context, and what the catalogue says of the stores.
- `Workers`, `Lemonade`: the pool that asks one server for model contexts, as a
  state machine over every interleaving, and the whole map of contexts.
- `Remotes`: a remote router's listing as a host's names, contexts and profiles.

`Basics` holds the two definitions both halves use.

The groups that begin with `Calendar` and `Reports` rest on none of the definitions
they check: each says what one function of the reader, the writer, the router or the
fold computes in the numbers, bytes and fields it starts from, so that a definition
both sides of another theorem use cannot be wrong unnoticed.

Assumptions. The identity module's family of a name and lower-casing are
parameters (`Naming`); the family depends on the lower-cased name alone. Host
names are distinct where a theorem says `DistinctNames`, and not empty where an
offer is picked. Host readings, remote replies and handlers are inputs; a handler
returns values of its operation's own type and does nothing else to the call.
Go's sorting is taken to return a sorted rearrangement, and Python's strict UTF-8
decoding to accept exactly well-formed UTF-8.

Where code and documentation disagree the model follows the code: `match`
(go/held.go:126-134) indexes every tail of a name after a slash, while the
repository's README.md:249-251 says no tail is matched; `MatchedWholeOnly` says
for which names the two agree and `TailIsMatched` shows one where they do not.
Four more properties fail on some inputs; for each, one such input is
given and the condition is exact. The byte an integer refusal names is the same in Go and
in Python unless the digits overflow early (`IntegersAgree`, `NinesNamedApart`).
The unknown aliases of the local and the hosted offer merge unless a reply hides
some, which no router's own reply does (`UnknownsMerge`, `HiddenAlias`,
`RoutersMerge`). The index and the catalogue do not depend on the order of the
held objects, but for the names of families no host serves; those do not either
exactly when the objects that file such a family show the same name for it
(`CatalogueOrderExact`, `CatalogueRespelled`, `SpellingFollowsOrder`). The bound
read for a remote's name does not depend on the order of its aliases unless one of
several different bounds is negative, as only a negative maximum makes it
(`BoundOrderExact`, `NegativeFirst`).

`dafny verify dfyconfig.toml` checks the whole project.

## Model

| member | source | states |
|---|---|---|
| `Utf8.Validate` | go/abstraction/router/rec.go:1789-1823 | validUTF8 as a loop: true exactly when the bytes are well-formed by the validator's step |
| `Utf8.ValidUtf8Exact` | go/abstraction/router/rec.go:1789-1823 | the validator accepts a byte string exactly when it is a sequence of UTF8-char of section 4 of RFC 3629, a grammar stated without any loop |
| `Utf8.RuneIsItsChar` | go/abstraction/router/rec.go:1777-1787 | appendRune of any code point but a surrogate is one UTF8-char, and that char's code point is the one it was given |
| `Utf8.CharIsItsRune` | go/abstraction/router/rec.go:1777-1787 | every UTF8-char is what appendRune writes for its own code point, so the encoding is one to one |
| `Tokens.StrExact` | go/abstraction/router/rec.go:1676-1775 | str accepts exactly a quoted run of chars of section 7 of RFC 8259 whose values join to well-formed UTF-8, returns that value, surrogate pairs joined to one code point, and stops after the quote |
| `Tokens.BodyOnUnit` | go/abstraction/router/rec.go:1676-1753 | one char of a string, plain, escaped or a surrogate pair, adds its value and moves past its own bytes |
| `Encoding.EscapedStringRead` | go/abstraction/router/rec.go:182-188 | str on esc(s) gives back s and consumes it whole when s is UTF-8, and refuses bad_string after the closing quote otherwise, for every byte string s |
| `Encoding.EscUnitsAreBytes` | go/abstraction/router/rec.go:7-29 | what escByte writes, byte by byte, is a string of the grammar whose value is the string written |
| `Escapes.StringExact` | go/abstraction/router/rec.go:1676-1753 | str accepts a string exactly when chars stand in quotes that are each an unescaped byte, one of eight letters, four hexadecimal digits in any case, or the two halves of a code point past the first plane so written; its value is the UTF-8 char of each code point in turn |
| `Escapes.HexExact` | go/abstraction/router/rec.go:1755-1775 | four bytes are read as a number exactly when they are its four hexadecimal digits, each in either case |
| `Escapes.LettersExact` | go/abstraction/router/rec.go:1708-1728 | the eight letters that may follow a backslash and the byte each stands for, by number; any other letter escapes nothing |
| `Escapes.PairRead` | go/abstraction/router/rec.go:1736-1751 | for every code point past the first plane, the halves 0xD800 + (cp - 0x10000) / 0x400 and 0xDC00 + (cp - 0x10000) % 0x400, escaped in any case, are read as the one UTF-8 char of that code point |
| `Escapes.GrinningFace` | go/abstraction/router/rec.go:1748 | the text "\ud83d\ude00" is read as the bytes F0 9F 98 80 |
| `Escapes.RefusalExact` | go/abstraction/router/rec.go:1676-1775 | a string is refused, with which word and at which byte, exactly when no quote stands there, chars that can be read are followed by something that is no char, or their values are not UTF-8 together |
| `Escapes.WrittenOneWay` | go/abstraction/router/rec.go:7-29 | the writer gives each byte one spelling: a letter where there is one, four lower-case digits for the other controls, and otherwise the byte itself, the slash bare |
| `Numerals.Num` | go/abstraction/router/rec.go:31-50 | num over a 24-byte scratch array and a 64-bit unsigned magnitude writes the decimal digits of every int64, the minimum included, and never leaves the scratch array |
| `Numerals.IntegerExact` | go/abstraction/router/rec.go:1825-1872 | integer accepts a value exactly when the spelling num writes for it stands there within the bounds and no byte after it carries the number on; printer and reader are mutual inverses |
| `Numerals.SpellingIsNum` | go/abstraction/router/rec.go:31-50 | a number without fraction, exponent or negative zero has one spelling, the one num writes |
| `Tokens.NumberRead` | go/abstraction/router/rec.go:2012-2054 | skipNumber passes exactly a number of section 6 of RFC 8259 and stops behind it |
| `Tokens.NumberSound` | go/abstraction/router/rec.go:2012-2054 | what skipNumber passes is a number of section 6 of RFC 8259 |
| `Timestamp.Normalize` | go/abstraction/router/rec.go:2226-2300 | normalizedTimestamp with its mutable year, month, day and output array computes the normal form of every input |
| `Timestamp.NormalizedEmpty` | go/abstraction/router/rec.go:2226-2300 | the result is empty exactly when the input is not lexically valid, has a field out of range, or denotes an instant outside the years 0 to 9999 in UTC |
| `Timestamp.NormalizedDenotes` | go/abstraction/router/rec.go:2226-2300 | the result denotes the instant of its input, counted in nanoseconds over a day count defined separately, truncated to microseconds |
| `Timestamp.NormalizedShows` | go/abstraction/router/rec.go:2226-2300 | the result is UTC, six fractional digits, and shows the calendar fields of its input's UTC minute |
| `Timestamp.CarryCounts` | go/abstraction/router/rec.go:2264-2279 | moving a date by at most one day through month ends, year ends and leap years moves its day number by exactly that |
| `Timestamp.Convert` | go/abstraction/router/rec.go:2257-2299 | the conversion to UTC of fields and an offset in range, the day carried, the result written |
| `Timestamp.CarryDay` | go/abstraction/router/rec.go:2264-2279 | the carry as it updates y, m and d |
| `Timestamp.NormalizedIdempotent` | go/abstraction/router/rec.go:2226-2300 | normalising a result changes nothing |
| `Timestamp.StringOrderIsTimeOrder` | go/abstraction/router/rec.go:2226-2300 | results compare as byte strings exactly as the instants they denote compare, and are equal exactly when those are |
| `Calendar.LexicalExact` | go/abstraction/router/rec.go:2160-2186 | the lexical form is exactly what some year, month, day, hour, minute, second, fraction and zone spell |
| `Calendar.InstantExact` | go/abstraction/router/rec.go:2226-2263 | a spelled timestamp is read exactly when its numbers are a real time of the Gregorian calendar, and denotes the instant those numbers give by closed formulas for years, months and leap days |
| `Calendar.YearsCounted` | go/abstraction/router/rec.go:2214-2224 | the days before a year, counted year by year, are 365 a year and the leap days by fourths, centuries and fourth centuries |
| `Calendar.MonthAgrees` | go/abstraction/router/rec.go:2214-2224 | the length of every month, from a table |
| `Calendar.ZoneShifts` | go/abstraction/router/rec.go:2245-2256 | a clock reading hh:mm east of UTC is hh:mm before the same reading in UTC, and hh:mm west of UTC as much after it |
| `Calendar.RefusedExactly` | go/abstraction/router/rec.go:2226-2282 | a timestamp is refused exactly when it spells no real time between years 0 and 9999 of UTC |
| `Calendar.NormalFormExact` | go/abstraction/router/rec.go:2226-2300 | of all canonical texts the normal form is the one of the same second and the same six digits |
| `Calendar.NormalFormIsCanonical` | go/abstraction/router/rec.go:2283-2299 | a normal form is a canonical text: UTC, upper-case marks, six digits, a real time |
| `Calendar.MiddayInTheEast` | go/abstraction/router/rec.go:2250-2256 | 2024-06-01T12:00:00+02:00 normalises to 2024-06-01T10:00:00.000000Z |
| `Skipper.SkipExact` | go/abstraction/router/rec.go:1982-2106 | skipValue accepts from an offset and stops at an end exactly when a JSON value of sections 2 to 7 of RFC 8259 is printed there, with containers nested at most to 64 levels, no key twice in one object and every string UTF-8, and the byte after it does not continue it |
| `Skipper.SkipRead` | go/abstraction/router/rec.go:1982-2106 | on any printed JSON value the skipper either stops at its last byte or refuses it, and it refuses exactly those too deep, with a repeated key or with a string that is not UTF-8 |
| `Decoding.TypedAndSkippedAgree` | go/abstraction/router/rec.go:1974-2106 | whenever a typed decoder of any shape and the skipper both accept from one offset, at whatever depths, they stop at the same byte |
| `Decoding.DecodeExact` | go/abstraction/router/rec.go:2310-4672 | a decoder of any shape returns a value and an end exactly when a printed JSON tree that means that value for the shape stands there; the meaning is defined on trees, with no buffer and no offset |
| `Decoding.DecodeTextExact` | go/abstraction/router/rec.go:4674-4686 | a whole input is accepted with a value exactly when it is blanks, one printed tree meaning that value, and blanks |
| `Wire.BlanksExact` | go/abstraction/router/rec.go:1657-1666 | ws passes spaces, tabs, line feeds and carriage returns, by number, up to the first other byte |
| `Wire.NumberExact` | go/abstraction/router/rec.go:2012-2054 | skipNumber stops at a byte exactly when a sign or none, a whole without leading zeros, a fraction or none and an exponent or none stand before it, byte by byte, and it carries none of them on |
| `Wire.RecordExact` | go/abstraction/router/rec.go:2369-2456 | a record is read with given fields exactly when it opens within 64 levels, every key is UTF-8 and names a field or, in an open record, carries its value, no field is named twice, and each field comes from the member that names it or may be left out and holds its zero |
| `Wire.ListExact` | go/abstraction/router/rec.go:2108-2139 | a list is read with given values exactly when it opens within 64 levels and each element means its own value |
| `Wire.SkippedToDepth` | go/abstraction/router/rec.go:1668-1674 | n arrays one in another are skipped at a depth exactly when the two add up to at most 64 |
| `Refusals.RecordRefused` | go/abstraction/router/rec.go:2380-2446 | the first member of a record that does not fit decides: a key that is not UTF-8 is refused behind it, a field named again or a key a closed record does not know where its value begins, and a value for what that value is refused for |
| `Refusals.FieldMissing` | go/abstraction/router/rec.go:2447-2456 | a record of fine members that lacks a required field is refused as missing_field behind its brace |
| `Refusals.ListRefused` | go/abstraction/router/rec.go:2108-2139 | a list is refused for what its first element that means nothing is refused for |
| `Refusals.KeyTwice` | go/abstraction/router/rec.go:2069-2098 | a key named twice in a skipped object is refused as duplicate_key behind the second of them |
| `Refusals.WrongBeginning` | go/abstraction/router/rec.go:1676-1679 | a value that begins as no value of its kind does is refused as wrong_type at its first byte |
| `Refusals.WrongWord` | go/abstraction/router/rec.go:2194-2205 | a string outside a closed enum is refused as bad_enum behind it, and one that names no time as bad_timestamp at its beginning |
| `Refusals.WrongNumber` | go/abstraction/router/rec.go:1825-1872 | a number that is no integer or is out of bounds is refused as number_spelling |
| `Refusals.NumberByte` | go/abstraction/router/rec.go:1840-1871 | the byte an integer is refused at: the first digit that follows more than 922337203685477580, and the byte behind its digits when there is none |
| `Refusals.LiteralExact` | go/abstraction/router/rec.go:1874-1890 | a byte that begins true, false or null is passed with its four or five letters, and refused as malformed where it stands when they do not follow; null is no boolean |
| `Refusals.TooDeep` | go/abstraction/router/rec.go:1668-1674 | a container below the sixty-fourth level is refused as depth_exceeded at its bracket |
| `Refusals.LeftOver` | go/abstraction/router/rec.go:4681-4684 | what is left over after a value and its blanks is refused as trailing_bytes where it begins |
| `Reading.Reader.Ws` | go/abstraction/router/rec.go:1657-1666 | moves the cursor past exactly the blanks |
| `Reading.Reader.Enter` | go/abstraction/router/rec.go:1668-1674 | one level deeper, refused above 64 |
| `Reading.Reader.String` | go/abstraction/router/rec.go:1676-1706 | the string loop: its value, its end or its refusal and the byte refused, as StrExact speaks of them |
| `Reading.Reader.ReadEscape` | go/abstraction/router/rec.go:1708-1753 | one escape appended to what was read |
| `Reading.Reader.FourHex` | go/abstraction/router/rec.go:1755-1775 | four hexadecimal digits accumulated |
| `Reading.Reader.ReadInteger` | go/abstraction/router/rec.go:1825-1872 | the digit loop over a 64-bit unsigned accumulator that never wraps, the sign and the bounds |
| `Reading.Reader.ReadBoolean` | go/abstraction/router/rec.go:1874-1882 | true, false, or a refusal |
| `Reading.Reader.Number` | go/abstraction/router/rec.go:2012-2042 | the walk over a number, its digits never converted |
| `Reading.Reader.Value` | go/abstraction/router/rec.go:1982-1999 | skipValue: where the cursor ends, the refusal, and the depth as it was on success |
| `Reading.Reader.ContainerValue` | go/abstraction/router/rec.go:2056-2106 | skipContainer: the bracket, the loop, the closing bracket, the depth restored |
| `Reading.Reader.Elements` | go/abstraction/router/rec.go:2069-2098 | the loop over elements or members with the set of keys seen |
| `Reading.Reader.Time` | go/abstraction/router/rec.go:2194-2205 | a timestamp refused at the byte it began at |
| `Reading.Reader.ListOf` | go/abstraction/router/rec.go:2108-2139 | decodeList and strList: every element read in order, the depth restored |
| `Reading.Reader.Record` | go/abstraction/router/rec.go:2369-2456 | a record decoder: braces, members, required fields, the depth restored |
| `Reading.Reader.Members` | go/abstraction/router/rec.go:2380-2446 | the loop over members, each key dispatched once |
| `Reading.Reader.FieldNamed` | go/abstraction/router/rec.go:2396-2439 | the switch on a key: a repeated field, a known one, an unknown one skipped or refused |
| `Reading.Reader.DecodeKind` | go/abstraction/router/rec.go:2310-4672 | a decoder of any shape returns, consumes and refuses what DecodeExact speaks of |
| `Reading.DecodeAll` | go/abstraction/router/rec.go:4674-4686 | a whole input read at a starting depth, bytes left over refused |
| `Writing.WriteEsc` | go/abstraction/router/rec.go:182-188 | the escaping loop |
| `Writing.WriteList` | go/abstraction/router/rec.go:190-208 | encList and strs: one element to a line, commas between, brackets at the indent |
| `Writing.WriteRecord` | go/abstraction/router/rec.go:785-821 | a record encoder: the closed enums checked before anything is written, fields in order with the three omission rules |
| `Writing.WriteKind` | go/abstraction/router/rec.go:773-1623 | an encoder of any shape appends exactly the text the round trip is proved of, or panics |
| `Encoding.EncodePrints` | go/abstraction/router/rec.go:773-1623 | what an encoder writes is a JSON tree of RFC 8259 printed, for every shape, value and indentation |
| `RoundTrip.EncodePanics` | go/abstraction/router/rec.go:1319-1322 | an encoder panics exactly on a closed enum that is no member or a timestamp that names no time, however deep it lies |
| `Wire.RecordLayout` | go/abstraction/router/rec.go:785-821 | a record is braces around its fields in order, those absent or at zero under their rule left out, each on a new line two spaces deeper with its name, a colon, a space and its value, commas between them |
| `Wire.ListLayout` | go/abstraction/router/rec.go:190-208 | a list is brackets around its elements, each on a line of its own, commas between them; an empty one is the two brackets |
| `Wire.EnumLayout` | go/abstraction/router/rec.go:1319-1322 | a member of a closed enum is written as its own word |
| `RoundTrip.EncodeDecode` | go/abstraction/router/rec.go:773-4686 | for every shape, value, indentation and depth: the encoder panics exactly on unwritable values, and otherwise decoding its text, trailing blanks included, gives the value back with its timestamps normalised and consumes every byte, or refuses exactly when a string is not UTF-8 or a container is too deep |
| `RoundTrip.TreeCarried` | go/abstraction/router/rec.go:1974-2106 | the skipper accepts an encoded value at a depth exactly when the typed decoder does |
| `RoundTrip.WrittenIsCarried` | go/abstraction/router/rec.go:1974-1980 | an encoded value embedded anywhere is skipped to its last byte, or refused exactly when it would not be read back |
| `RoundTrip.TimelessUnchanged` | go/abstraction/router/rec.go:773-1623 | a shape without timestamps comes back unchanged |
| `RoundTrip.FittingIsUtf8` | go/abstraction/router/rec.go:1668-1674 | a shape that stays under the depth limit is read back exactly when all its strings are UTF-8 |
| `Records.PickRequestSound` | py/abstraction/router/_codec.py:3290 | the pick request is a well-formed shape, timeless, and fits under the depth limit |
| `Records.ModelsSnapshotSound` | py/abstraction/router/_codec.py:3295 | so is the models snapshot, with its lists nested in lists |
| `Records.HostsSnapshotSound` | py/abstraction/router/_codec.py:3298 | the hosts snapshot is well formed and fits; its asks carry the one timestamp |
| `Records.PickResultSound` | py/abstraction/router/_codec.py:3300 | so is the pick result |
| `Records.OfferSnapshotSound` | py/abstraction/router/_codec.py:3303 | so is the offer snapshot |
| `Requests.PickRoundTrip` | go/abstraction/router/rec.go:1625-1627 | Encode and Decode on every pick request, an absent and an empty allowance told apart |
| `Forward.EvolvesAlike` | go/abstraction/router/rec.go:2610-2749 | what a kind makes of a tree it makes of every tree that one evolves into: in every record on any path through lists and known fields the members rearranged, and in every open one any number of unknown members with carried values added, all at once |
| `Forward.ReadAlike` | go/abstraction/router/rec.go:2310-4686 | any text of any kind, read at any depth, and one it evolves into decode to the same value or are both refused, whatever blanks stand around them |
| `Forward.RecordEvolves` | go/abstraction/router/rec.go:2610-2749 | rearranging the members of a record, and adding unknown ones to an open one, is such a change |
| `Forward.UnknownRefused` | go/abstraction/router/rec.go:2369-2456 | a text with a key unknown to a closed record, on any path through lists and known fields, is refused |
| `Rpc.CarriedByText` | go/abstraction/router/rec.go:1974-1980 | whether raw bytes are carried depends on the bytes alone, not on how they are taken apart |
| `Rpc.RawOfWritten` | go/abstraction/router/rec.go:4963-4964 | an encoded value embedded raw is carried one level down exactly when it would be read back there |
| `Rpc.FrameRead` | go/abstraction/router/rec.go:4706-4723 | a frame is read back as it was built exactly when its names are UTF-8 and its arguments are carried |
| `Rpc.SuccessCrosses` | go/abstraction/router/rec.go:4742-4814 | a successful reply gives the client exactly the payload the dispatcher was handed |
| `Rpc.FailureCrosses` | go/abstraction/router/rec.go:4742-4814 | an error reply gives the client the error's code and message, as the rows of `Failures` spell them, exactly when both are UTF-8; otherwise the dispatcher refuses to send it |
| `Rpc.ResultCrosses` | go/abstraction/router/rec.go:5237-5364 | a handler's result becomes a payload exactly when it encodes and its strings are UTF-8, and is otherwise invalid_result |
| `Rpc.EndToEnd` | go/abstraction/router/rec.go:4954-5364 | for every operation, arguments and handler: the client refuses before any frame exactly when a closed enum is no member, a timestamp names no time or a string is not UTF-8; otherwise the handler is called once with those very arguments and the caller sees its result, its error's code and message, or invalid_result |
| `Failures.ServiceErrorCrosses` | go/abstraction/router/rec.go:4790-4796 | for every operation and arguments that reach the handler, a service error it ends in reaches the caller with that code and message, one without a code as handler_error with its message, and one that is not UTF-8 as a refusal |
| `Failures.DispatchErrorCrosses` | go/abstraction/router/rec.go:4797-4799 | a dispatch error reaches the caller as a service error of its word, and one without a word as invalid_error |
| `Failures.RefusalCrosses` | go/abstraction/router/rec.go:4800-4803 | a refusal reaches the caller as a service error of its word, each of the twelve spelled out, with no message |
| `Failures.OtherErrorsCross` | go/abstraction/router/rec.go:5237-5262 | any other error, and a panic that is no refusal, reaches the caller as handler_error, handler failed; a panic with a refusal as invalid_result |
| `Failures.DispatchedExactly` | go/abstraction/router/rec.go:5169-5235 | the dispatcher describes itself under the endpoint contract, answers unknown_service to any contract but the router's and unknown_method to any operation but the four, without calling the handler |
| `Failures.ArgumentsRefused` | go/abstraction/router/rec.go:5181-5233 | arguments that cannot be read are answered with the word they are refused for, without calling the handler |
| `Failures.VersionOneRead` | go/abstraction/router/rec.go:4706-4723 | a frame of version 1 is read as it was built, and one of any other version is unknown_version |
| `Failures.ReplyVersionOneRead` | go/abstraction/router/rec.go:4743-4762 | a reply of version 1 gives its payload, and one of any other version is unknown_version |
| `Failures.AnswersItsOwnCall` | go/abstraction/router/rec.go:4742-4758 | a reply is taken for the answer to a call exactly when service and method are that call's, and is mismatched_response otherwise |
| `Rpc.AnsweredUnchanged` | go/abstraction/router/rec.go:4954-5364 | Models, Pick and Offer return the handler's own value unchanged |
| `Replies.ReplyExact` | go/abstraction/router/rec.go:4742-4814 | what a client gets from any payload a peer sends as a success: a result exactly when the payload means one for the operation and the reply reader, which skips it whole first, carries it; otherwise a refusal |
| `Replies.ReplyAlike` | go/abstraction/router/rec.go:4980-5121 | for all four operations, a payload that evolved from another gives the client the same result, exactly when the reply reader carries it |
| `Replies.TwiceRefused` | go/abstraction/router/rec.go:4742-4814 | an unknown member sent twice inside a result: the typed reader alone would read it away, and the client refuses the reply for the repeated key |
| `Replies.StrayNeverCalls` | go/abstraction/router/rec.go:5169-5236 | arguments with a key unknown to a closed record, anywhere in them, are answered without calling the handler |
| `Requests.PickDelivered` | go/abstraction/router/rec.go:5038-5079 | a pick request reaches the handler as sent exactly when its strings are UTF-8, no two requests being the same arguments |
| `Requests.OfferDelivered` | go/abstraction/router/rec.go:5080-5121 | the same for an offer request, which is also refused when its placement is no member |
| `Python.String` | py/abstraction/router/_codec.py:1348-1380 | the one-piece string path gives the same string and end, or the same refusal at the same byte, as the bytewise loop, for every buffer and position |
| `Python.PlainString` | py/abstraction/router/_codec.py:1353-1363 | a chunk without escapes or control bytes between quotes is the string the bytewise loop reads |
| `Python.ReadInteger19` | py/abstraction/router/_codec.py:1425-1451 | the digit-counting integer reader, with its loop |
| `Python.IntegersAgree` | py/abstraction/router/_codec.py:1425-1451 | the digit-counting reader accepts the texts the accumulating one accepts with the same values and refuses the others with the same word; it names the same byte exactly unless the digits before the last already exceed a tenth of the range |
| `Python.NinesNamedApart` | py/abstraction/router/_codec.py:1425-1451 | on twenty-one nines the two integer readers refuse with one word at offsets 18 and 21 |
| `Provenance.Match` | go/held.go:126-134 | match lists exactly the name and its tails after a slash |
| `Provenance.Declare` | go/held.go:107-117 | declare keeps, for each key, the one family all declarations so far agree on, and nothing once two differ |
| `Provenance.Index.DeclareName` | go/held.go:166-182 | declareName keeps the stores of a key's one name and drops the key once two names claim it, whatever comes after |
| `Provenance.Index.FileFamily` | go/held.go:218-223 | a family's stores and first spelling |
| `Provenance.Index.IndexObject` | go/held.go:198-228 | one object's whole contribution, a component's included |
| `Provenance.Index.Join` | go/held.go:229-236 | the second pass over unnamed objects |
| `Provenance.Build` | go/held.go:193-238 | index: the six maps after both passes are those of the log of all declarations |
| `Identity.ObjectFiles` | go/held.go:198-277 | one pass over an object records exactly what the object files, stated without order or loops |
| `Identity.HeldFiles` | go/held.go:193-228 | the first pass records exactly what some object files |
| `Identity.KeyNamesFamily` | go/held.go:107-147 | a key names a family exactly when some name or tail declares it and every declaration reaching it says the same family |
| `Identity.KeyReachesStore` | go/held.go:166-182 | a key reaches a store exactly when an object of that store claims it and all claims to it are by one name |
| `Identity.StoreHoldsFamily` | go/held.go:193-277 | a store holds a family exactly when a named object of it is filed there, or an unnamed one has a digest filed there |
| `Identity.IndexOrderFree` | go/held.go:193-340 | rearranging the held objects changes none of the declared names, the stores by name and by family, the declared families, the set of spelled families or the sorted components |
| `Identity.SpellingFollowsOrder` | go/held.go:220-222 | the name a family no host serves is listed under does depend on the order: two objects that show it |
| `Spellings.SpellingExact` | go/held.go:220-222 | the spelling of a family is the first name shown for it by the first object that files it by name |
| `Spellings.SpellingIndexOrderFree` | go/held.go:193-278 | the spelling index is the same for every order of the held objects exactly when any two that file a family by name show the same first name for it |
| `Spellings.CatalogueRespelled` | go/held.go:298-320 | the same held objects in another order compose the same catalogue, place by place, but for the one name of each family only stores hold |
| `Spellings.CatalogueOrderExact` | go/held.go:298-320 | the whole composed catalogue is the same for every order of the held objects exactly when any two that file a family no host serves show the same name for it |
| `Identity.MatchedWholeOnly` | go/held.go:126-134 | a store's name is matched whole and by nothing else exactly when no slash in it has a tail, against the repository's README, which says no tail is ever matched |
| `Identity.TailIsMatched` | go/held.go:126-134 | an object whose family is reached by the tail of its name |
| `Hosts.DeclaredEntryExact` | go/native.go:33-38 | an entry is scoped to a profile exactly when it is that served profile, a colon and a nonempty model; any other entry is a model for every profile |
| `Hosts.DeclaredModels` | go/native.go:46-67 | every model once, and for each profile the models served for it, once each, in entry order |
| `Hosts.ListDeclaredProfiles` | go/native.go:134-149 | for each name the host's profiles that name it, in the host's order |
| `Hosts.ScopingAgrees` | go/native.go:112-149 | the declaration, ServesModel and declaredProfiles agree on every listed model and profile |
| `Scoping.ScopeModels` | go/native.go:46-67 | a host scoped by the models its declaration names for each profile, and the models it lists |
| `Scoping.ReadLocal` | go/router.go:150-191 | a local host's reading: a declaration that scopes its models outranks the metadata, and a failed residency read leaves the listing with the declaration alone |
| `Scoping.ScopedServes` | go/profiles.go:180-185 | after a survey with that reading, routing serves a listed model of a scoped host for a profile exactly when a declaration entry scopes it there, or an unscoped one names it and the host has the profile, whatever the metadata says |
| `Scoping.LocalFits` | go/router.go:150-191 | what a local host's answers make of a name it lists: with a scoping declaration what that says, without one what its metadata says of the name, and failing that what the host serves |
| `Catalogue.Survey.Note` | go/router.go:222-254 | one reported name folded into the name index, the aliases and the pick together |
| `Catalogue.Survey.NoteAlias` | go/router.go:231-243 | one alias for each server and name, resident once any report says so |
| `Catalogue.Survey.NotePick` | go/router.go:244-253 | the pick after one more name |
| `Catalogue.Survey.NoteAll` | go/router.go:218-261 | every host's resident and installed names, in order |
| `Catalogue.ListFamilies` | go/router.go:263-282 | the sorted families do not depend on the order the maps are read in |
| `Snapshots.PickedDecides` | go/router.go:244-261 | the pick is the last resident name of the host for the family, or the first name when none is resident, and there is one exactly when a name was reported |
| `Snapshots.SurveyAgrees` | go/router.go:206-302 | after any survey every alias's name leads to its own family, every family and host with an alias has a pick, and every pick is an alias of that host in that family |
| `Snapshots.ReportedListed` | go/router.go:222-261 | every reported name of some family is listed there under its host, resident exactly when some report said so |
| `Snapshots.Take` | go/router.go:206-302 | the whole survey: the stores' index, the fold, the catalogue, and indexes that agree |
| `Composition.Compose` | go/held.go:298-320 | compose, its maps read in whatever order they come, gives one answer |
| `Composition.ComposedOnce` | go/held.go:298-320 | the catalogue lists each family once, in order |
| `Composition.ComposedFamilies` | go/held.go:298-320 | it holds exactly the hosts' families, annotated, and the families only stores hold |
| `Snapshots.AliasKept` | go/held.go:301-311 | every alias the hosts produced is kept, changed only in the stores that hold it |
| `Snapshots.HeldModelListed` | go/held.go:298-320 | every named model of a store is in the catalogue under its family, with its store among those holding it |
| `Holdings.FamilyNamed` | go/held.go:107-147 | a host's name belongs to the one family that all held objects speaking of it declare, told from their roles, bases, families and names, and otherwise to the family its spelling gives |
| `Holdings.FamiliesListedExactly` | go/held.go:298-320 | the catalogue has exactly the families some host reports a name of and those some held object stands for by a name, not as part of another model |
| `Holdings.StoresExact` | go/held.go:193-277 | a family names exactly the stores with a named object in it or an unnamed object of such a one's digest |
| `Holdings.SourceExact` | go/held.go:94-100 | a family is from a descriptor exactly when an object that is no part of another declares it |
| `Holdings.ComponentsExact` | go/held.go:250-277 | a family's components are exactly the parts whose base, or else whose own family, it is, one for each name |
| `Holdings.NameStoresExact` | go/held.go:166-182 | the stores behind a host's name are exactly those that claim its lower-cased spelling, when every claim to it is by one name |
| `Holdings.StoredAliasExact` | go/held.go:312-317 | a family no host serves lists one name, of no host, with nothing reported of it and the family's own stores |
| `Routing.PickServingExact` | go/router.go:531-546 | pickServing finds a name exactly when some alias of the host in the family serves the profile, and the name is one of those |
| `Reports.AliasesExact` | go/router.go:222-254 | after any survey the aliases of hosts in a family are exactly the names those hosts reported that belong to it, each with its own host's residency, hosting, profiles, maximum and effective length |
| `Reports.FitExact` | go/profiles.go:180-185 | a name serves a profile exactly when its host's metadata reports it for the name, or the metadata is silent on the name and the host has the profile |
| `Reports.HasProfileExact` | go/profiles.go:36-60 | the profiles of a host: those declared, else those of its wire, each wire written out |
| `Reports.StandingExact` | go/router.go:490-527 | a host's class from its report: none without an endpoint or a name of the family that serves, else hosted, resident or installed |
| `Reports.PickExact` | go/router.go:244-261 | the pick recorded for a host is the last resident name of the family it reported, or else the first installed one |
| `Reports.NameExact` | go/router.go:531-592 | the name a host is asked by: the least resident name that serves; else its recorded pick when that serves; else the least name that serves |
| `Routers.Router.SetHosts` | go/router.go:81-85 | new hosts, the last survey's inventory kept |
| `Routers.Router.Survey` | go/router.go:97-303 | a new snapshot whose indexes agree and which is the composition of the fold over these hosts' reports with the index of what is held, so that every fact about a survey holds of the router's snapshot |
| `Routers.Router.Residents` | go/router.go:579-592 | the resident names of a family on a host that serve the profile, in catalogue order |
| `Routers.Router.PickName` | go/router.go:531-546 | pickServing with its loop |
| `Routers.Router.HasServing` | go/router.go:559-575 | a host with models serves by one of them, a host without by its own profiles |
| `Routers.Router.AnyHostServes` | go/router.go:553-577 | anyServes with its loops, true when no host is servable |
| `Routers.Router.ListCandidates` | go/router.go:490-527 | the three passes list exactly the hosts that could serve, by class and preference |
| `Routers.Router.Route` | go/router.go:405-472 | routeSnapshot with its loops, on the state of the router, makes the decision `Outcomes.DecisionExact` tells from the reports |
| `Decisions.CandidateExact` | go/router.go:490-527 | a host is a candidate exactly when it is servable and some alias of it in the family serves the profile, in the class its residency and hosting give |
| `Decisions.CandidatesOrdered` | go/router.go:483-527 | candidates stand by class, resident before installed before hosted, and by preference within a class |
| `Decisions.GateHidesNothing` | go/router.go:429-432 | when the early answer is that no host serves the profile, there is no candidate |
| `Decisions.ChoosesWhenItCan` | go/router.go:434-457 | a host is chosen exactly when some permitted host could serve; unauthorised exactly when only unpermitted ones could |
| `Decisions.ChoosesTheBest` | go/router.go:434-451 | the host chosen is permitted, of the class the verdict names, no permitted host is ahead of it, and loads is 1 exactly for would-load |
| `Decisions.ChosenModel` | go/router.go:439-449 | the model named is an alias of that host in that family that serves the profile, resident for a resident verdict and not resident for would-load |
| `Decisions.WithholdsExactly` | go/router.go:434-438 | withheld is exactly the hosts ahead of the chosen one, or every host that could serve when none is chosen |
| `Decisions.WideningNeverWorse` | go/router.go:474-476 | a wider allowance never ends in a worse class |
| `Decisions.FallbackVisitsEach` | go/router.go:434-476 | dropping each chosen host from an explicit allowance and asking again visits the permitted candidates in order and ends, unauthorised when the family has a candidate |
| `Decisions.FallbackTriesAll` | go/router.go:434-476 | those attempts are exactly the permitted hosts that could serve, none twice |
| `Decisions.CallerAsksEach` | go/fallback_test.go:87-105 | the caller's loop as written, which also ends at a decision without an endpoint, asks the permitted candidates in order up to the first one without one |
| `Decisions.EndpointExact` | go/hosts.go:105-110 | a candidate has no endpoint exactly when its host is hosted or native |
| `Outcomes.DecisionExact` | go/router.go:405-472 | the whole decision from the hosts and their reports: whom it chooses, by which name, class, endpoint and load, whom it withholds and who has the family; and, choosing nobody, exactly which of unauthorised, no-host, unservable and not-here it ends in |
| `Outcomes.FamilyAsked` | go/router.go:405-411 | a request names the family its model was surveyed in, when some host reports a name of that spelling, and else the one the spelling gives |
| `Outcomes.OpenExact` | go/router.go:553-577 | the gate from the reports: some host with an endpoint lists a name that serves the profile, or lists none and has the profile, or no host has an endpoint |
| `Outcomes.RouteTakesReported` | go/profiles.go:180-185 | the model chosen is one the chosen host reported, for a profile its metadata reports for the name, or that the host has when the metadata is silent |
| `Outcomes.TakenIsCandidate` | go/router.go:490-527 | a host with an endpoint that lists such a name of the family is a candidate |
| `Offering.Count` | go/offer.go:69-73 | count keeps the better of two bounds |
| `Offering.CountOffer` | go/offer.go:156-176 | a remote's offer folded into its family |
| `Offering.CountAlias` | go/offer.go:185-197 | an alias folded into its family, with the bound `Windows.ContextExact` tells from its reported lengths |
| `Offering.FoldRemotes` | go/offer.go:137-177 | the remotes' offers, and which remotes answered |
| `Offering.FoldAliases` | go/offer.go:179-199 | the survey's aliases of hosts that are counted and did not answer for themselves |
| `Offering.Collect` | go/offer.go:105-231 | OfferContext, its map of folds read in whatever order, gives one answer |
| `Joining.AliasCounted` | go/offer.go:179-185 | an alias is counted into a family exactly when the catalogue lists it there and its host is servable, admitted, unanswered and serves the profile |
| `Joining.BestIsLeast` | go/offer.go:46-73 | the bound kept is one of those counted and none of them is better |
| `Joining.OfferIsConservative` | go/offer.go:79-90 | no counted server bounds the family below the offered context, one bounds it exactly there, every counted alias has a bound, and input is what the reserve leaves |
| `Windows.ContextExact` | go/offer.go:75-90 | the context of every offer from the reported lengths and the replies: none for a profile without a window, unknown exactly when a counted server hides its window, and else the least of what is counted, its source the field it came from, an effective length named before a maximum and a maximum before a default |
| `Windows.ContextIsKept` | go/offer.go:79-90 | an offered context is at most the reported effective length of every counted name that has a consistent one; for the others the host does not fix its window at load, and it is at most the reported maximum, or the profile's default without one |
| `Windows.NamesExact` | go/offer.go:179-210 | an offer lists exactly the counted names and those of the counted remote offers, once each and in order |
| `Windows.ServersExact` | go/offer.go:211-218 | its servers are exactly the hosts with a counted name and, under their host's name, those the counted remotes list |
| `Windows.UnknownExact` | go/offer.go:219-224 | the aliases listed as unknown are exactly the counted names that hide their window and those the counted remotes list |
| `Windows.FamiliesExact` | go/offer.go:127-200 | a family is offered, once, exactly when a name or a remote offer is counted into it |
| `Windows.OfferTakesReported` | go/profiles.go:180-185 | an alias counted into an offer is one its host reported, for a profile its metadata reports for the name, or that the host has when the metadata is silent |
| `Windows.OffersInOrder` | go/offer.go:229 | the offers stand by family in order |
| `Joining.AnyIsJoin` | go/offer.go:34-73 | an offer for any placement is, family by family, the join of the local and the hosted one: names united, servers merged in host order, unknown absorbing, otherwise the smaller context with the better source; the unknown lists merge exactly when neither side hides some |
| `Unknowns.UnknownsMerge` | go/offer.go:156-176 | that condition on the replies: a side hides aliases exactly when nothing counted there is unknown and a counted remote's offer of the family lists unknown aliases all the same |
| `Unknowns.RoutersMerge` | go/offer.go:216-224 | replies that are some router's own offers never hide, so the lists merge whenever every remote is such a router |
| `Unknowns.HiddenAlias` | go/offer.go:167-176 | a hosted reply with a known context and an unknown alias, and a local server that hides its window: the joined offer lists an alias neither side lists |
| `Joining.OffersOrderFree` | go/offer.go:179-231 | the offers depend on the counted aliases and not on the order they are counted in |
| `Rearranging.CatalogueOrderFree` | go/offer.go:127-231 | the offers are the same for every order of the catalogue's families and of the names in each |
| `Rearranging.SurveyOrderFree` | go/router.go:206-302 | surveys of the same hosts whose resident and installed listings come in another order leave snapshots that differ at most in the names picked |
| `Rearranging.ListingOrderFree` | go/offer.go:127-231 | so the offers are the same for every order of the hosts' listings |
| `Invariance.PicksDecideNames` | go/router.go:405-527 | snapshots that differ in their picks decide every request alike but for the name the chosen host is asked by |
| `Invariance.ListingOrderDecides` | go/router.go:206-302 | so the host, verdict, family, withheld list and the rest of a decision are the same for every order of the hosts' listings |
| `Invariance.HeldOrderFree` | go/held.go:193-320 | surveys over the same held objects in two orders decide every request alike and make the same offers |
| `Pickable.CountedIsOffered` | go/offer.go:179-215 | a counted name and server are in the family's offer |
| `Pickable.OfferedIsPickable` | go/router.go:405-457 | everything offered is pickable: asking for any counted name with the allowance set to any one counted server of the family is served by that server |
| `Workers.NoWorkerBlocks` | go/hosts.go:358-383 | in every state of every run each worker that has not left can move; a send always has room in the channel |
| `Workers.AtMostFour` | go/hosts.go:358-364 | in every state of every run there is a worker for each model asked, and no more than four |
| `Workers.RunsAreShort` | go/hosts.go:358-384 | every run ends: no more moves than the work there was at the start |
| `Workers.SameResults` | go/hosts.go:358-384 | when the workers have left, exactly the answers the server gives were sent, each once |
| `Workers.SameValues` | go/hosts.go:385-388 | any two finished runs leave the same map of values, each 0 or at most the model's own positive maximum |
| `Workers.MergeValues` | go/hosts.go:389-408 | the values written into the map the listing started, by id and by checkpoint, a cloud provider's models passed over |
| `Workers.MergedLast` | go/hosts.go:389-408 | a wanted name ends with the value of the last listed model of that id or checkpoint |
| `Workers.MergedKeeps` | go/hosts.go:389-408 | a name nobody wants, or no such model has, keeps what it held |
| `Workers.SameContexts` | go/hosts.go:358-409 | any two finished runs return the same map, and every resolved context written into it is 0 or at most its positive maximum |
| `Lemonade.FirstPass` | go/hosts.go:289-335 | the pass over the listing: the contexts of cloud and loaded models, and the models to ask for, the first of each id |
| `Lemonade.AskedExact` | go/hosts.go:315-325 | an id is asked for exactly when a downloaded local model of it is not loaded and goes by a wanted name |
| `Lemonade.AddLoaded` | go/hosts.go:336-345 | loaded models the listing does not name, the same whatever order their map is read in |
| `Lemonade.ContextsAgree` | go/hosts.go:265-410 | the whole map returned is the same whatever the interleaving of the workers, the models asked being told apart by the pass before |
| `Lemonade.AnsweredExact` | go/hosts.go:265-410 | what a name is answered after any finished run: the reply for the last local entry that goes by it and was resolved, failing that what the listing said of it, failing that what is loaded under it; nothing for a name nobody wants |
| `Lemonade.StartedExact` | go/hosts.go:292-335 | a wanted name starts with what its last downloaded entry says: the provider's own length, or the loaded one, when it is positive and not above the maximum |
| `Lemonade.AskedFirst` | go/hosts.go:315-325 | what is asked for an id is its first entry that is to be asked |
| `Remotes.FoldListing` | go/remote.go:76-110 | a remote's families folded into names listed once, a context for each, and the profiles of the names no alias leaves unreported |
| `Remotes.KeptExact` | go/remote.go:90-93 | the context kept for a name is the first one for good when its bound is negative, and otherwise one with the least known bound, unknown when none is known |
| `Remotes.KeptIsConservative` | go/remote.go:88-93 | the context kept for a name is that of the first alias to allow so many tokens, and unless the first alias of all allows a negative number no alias that allows any allows fewer |
| `Remotes.BoundOrderExact` | go/remote.go:152-165 | a name's bound is the same for every order of the remote's aliases exactly when none of its bounds is negative, or all are one |
| `Remotes.NegativeFirst` | go/remote.go:90-93 | two aliases of one name, a negative maximum and 4096: the bound is the one listed first |
| `Remotes.ReportedExact` | go/remote.go:97-101 | a profile is reported for a name exactly when some servable alias of it reports it |
| `Remotes.ListingOrderFree` | go/remote.go:76-110 | the names, the reported profiles and the unreported names are the same sets for every order of the aliases |
| `Remotes.ProfilesRead` | go/remote.go:113-137 | a name is read with the reported profiles its host declares, or with all the host declares when none are reported |

## Left out

- The bit mask `seen` of a record decoder is a set of field positions; that a record has at most 32 fields is not modelled.
- Rpc.EndToEnd: the transport between client and dispatcher is a direct call, so lost, delayed and repeated frames, deadlines and correlation are not modelled.
- Describe and ServeEndpoint (rec.go:4830-4937), WriteFrame (rec.go:5148-5168) and the error text of a service error: single-branch plumbing around the same reader and reply.
- The re-indenting writer of raw values, raw maps and their sorted keys (rec.go:76-180, 1925-1972): no record of the contract uses them.
- Text and JSON methods of the enums (rec.go:247-340, 380-482): the same words the record decoders compare.
- Python's checks of argument types before encoding and its record tables: the Go types rule the same values out.
- The C++ and Rust codecs: the same algorithms as the Go file.
- Refusal ranks (rec.go:4688-4699): nothing in the codec reads them.
- Identity.IndexOrderFree: not stated of the digest map `declaredByDigest` (go/held.go:79-81, 207), which the code writes and never reads.
- Host states, card holders, cache ages, the text of `why`, and the rows of the domain a remote reports: carried beside the decisions, never read by them.
- Reading the hosts: what product probes, hosted listings and remote listings answer, credentials, policy and clocks are inputs of the survey; of a local host's reading and of a remote's listing only what is made of those answers is modelled.
- Rpc.Invoke: a refusal a handler returns carries one of the reader's twelve words; one with any other word is answered as the dispatch error of the same bytes.
- A nil and an empty Go slice are one value, the empty list: an encoder writes both as an empty list or leaves both out.
- Routers.Router.Survey: mutexes and the parallel host reads are left out; a survey replaces the snapshot in one step.
- Joining.OfferIsConservative: contexts are unbounded integers except in the one subtraction, which wraps at 64 bits as the code's does.
- Offering.Collect: a fold is a value replaced in its map rather than an object shared by pointer, and a placement is one of the three words the service admits.
- Lemonade.ContextsAgree: cancellation is not modelled, and a server whose listing fails returns no map at all.
- Records: the availability cause and the context source are strings, as any word is kept for them; the two closed enums are private tags.
- A closed enum read into a record is not checked a second time, since the reader has just checked it.
