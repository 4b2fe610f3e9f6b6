# Blimp ground WebSocket interface — session negotiation and stream pair

A Dafny model of the negotiation and session layer of `blimp_ground_ws_interface`,
the crate that carries typed messages between a blimp and its ground station
over a WebSocket connection:

- **The subprotocol identifier** (`src/subprotocol.rs`): the value
  `BlimpSubprotocol { version: u16, flavour: Json | Postcard }`, the constants
  `spacecoffee` / `blimp`, the supported versions `[1]` and the flavour table
  `{"json", "postcard"}`, the parser `from_str` with its three errors
  (`InvalidProtocol`, then `IncompatibleVersion`, then `UnsupportedFlavour`)
  and the canonical formatter `to_string`. Module `Subprotocol`, file
  `subprotocol.dfy`.
- **Server-side negotiation** (`src/server.rs`): `get_subprotocol`, which splits
  the `Sec-WebSocket-Protocol` header on `,`, trims each piece and selects the
  first one that parses, and the handshake callback of `run`, which rejects
  with `400 Bad Request` or answers with the canonical token of the selected
  subprotocol. Module `Server`, file `server.dfy`.
- **The stream pair** (`src/stream.rs`): `BlimpGroundWebsocketStreamPair` as the
  class `Stream.StreamPair`, with the read half as a queue of incoming items,
  the write half as the sequence of messages written so far, and the
  negotiated subprotocol as a `const` field. `recv` is a loop that takes items
  off the queue until one ends it; `send` writes one encoded message; `close`
  closes the write half. File `stream.dfy`.
- The pieces of Rust's standard library the code relies on (`str::split`,
  `str::trim`, `u16::from_str`, decimal formatting) are written out in module
  `Text`, file `text.dfy`; `Option` and `Result` are in `wrappers.dfy`.

The codec functions `export_packet` and `import_packet` are not defined in
the modelled files; `Send` and `Recv` take them as function parameters, so
every property of the stream pair holds for any codec.

The flavours are `json` and `postcard`. A malformed token is
`InvalidProtocol`. The accepted response carries the canonical `to_string()`
of the selected subprotocol, which can differ from the offered token
(`NegotiationCanonicalises`). `close` closes only the write half, so a later
`recv` still delivers what the read half holds.

`PROTOCOL_VERSION`, used by `Default`, is defined outside the modelled files;
the model takes it to be `1`, the only supported version.

## Model

| member | source | states |
|---|---|---|
| `Text.Split` | src/subprotocol.rs:38 | `split` yields at least one piece and no piece contains the separator |
| `Text.JoinSplit` | src/subprotocol.rs:38 | joining the pieces with the separator gives back the original string |
| `Text.SplitJoin` | src/subprotocol.rs:38 | splitting a join of separator-free pieces gives back exactly those pieces |
| `Text.SplitCount` | src/subprotocol.rs:38-41 | a string splits into one more piece than it has separators |
| `Text.SplitNoSeparator` | src/server.rs:44 | a string without the separator is a single piece |
| `Text.TrimStart` | src/server.rs:44 | the result is a suffix of the input that does not start with whitespace |
| `Text.TrimEnd` | src/server.rs:44 | the result is a prefix of the input that does not end with whitespace |
| `Text.TrimStartDropsWhitespace` | src/server.rs:44 | every character cut off at the start is whitespace |
| `Text.TrimEndDropsWhitespace` | src/server.rs:44 | every character cut off at the end is whitespace |
| `Text.Trim` | src/server.rs:44 | the trimmed string has no whitespace at either end |
| `Text.TrimIsInnerSlice` | src/server.rs:44 | the trimmed string is a contiguous slice of the input with only whitespace removed on either side |
| `Text.TrimKeepsAbsent` | src/server.rs:44 | trimming introduces no character (a comma-free piece stays comma-free) |
| `Text.TrimKeepsTrimmed` | src/server.rs:44 | a string without outer whitespace is left unchanged |
| `Text.Decimal` | src/subprotocol.rs:68 | the decimal text of a version is non-empty, all digits, has no leading zero and denotes the version |
| `Text.ParseU16` | src/subprotocol.rs:48 | an accepted number text is an optional `+` followed only by digits |
| `Text.ParseDecimal` | src/subprotocol.rs:48 | parsing the decimal text of any `u16` gives it back |
| `Text.DigitsValueZeros` | src/subprotocol.rs:48 | leading zeros do not change the value of a digit string |
| `Text.DecimalUnique` | src/subprotocol.rs:48 | a digit string without a leading zero is the decimal text of its own value |
| `Text.DigitsAreZerosThenDecimal` | src/subprotocol.rs:48 | every non-empty digit string is some zeros followed by the decimal text of its value |
| `Text.ParseU16Padded` | src/subprotocol.rs:48 | for every `u16`, an optional `+`, any number of zeros and its decimal text parse to exactly that number |
| `Text.ParseU16Form` | src/subprotocol.rs:48 | conversely, any text that parses to `n` is an optional `+`, some zeros and the decimal text of `n` |
| `Text.ParseU16NotInjective` | src/subprotocol.rs:48 | `01`, `+1` and `1` all parse to 1 |
| `Text.ParseU16Rejects` | src/subprotocol.rs:48 | the empty text, a bare `+`, `-1` and 65536 are refused; 65535 is accepted |
| `Subprotocol.Default` | src/subprotocol.rs:25-29 | the default subprotocol has the `Postcard` flavour and a supported version |
| `Subprotocol.FlavourName` | src/subprotocol.rs:63-66 | the written name of a flavour is a key of the flavour table that maps back to it |
| `Subprotocol.FlavourTableIsNames` | src/subprotocol.rs:31-34 | every key of the flavour table is the written name of the flavour it maps to |
| `Subprotocol.Parse` | src/subprotocol.rs:35-59 | an accepted token has four segments, a supported version and the flavour its fourth segment maps to in the table |
| `Subprotocol.Format` | src/subprotocol.rs:61-70 | the canonical token splits into organization, project, `v` + decimal version and the flavour name |
| `Subprotocol.SplitToken` | src/subprotocol.rs:38-42 | a token built from four dot-free segments splits back into exactly those segments |
| `Subprotocol.ParseNeedsFourSegments` | src/subprotocol.rs:38-41 | a token with other than three dots is `InvalidProtocol` |
| `Subprotocol.ParseRejectsNamespace` | src/subprotocol.rs:45-47 | a foreign organization or project is `InvalidProtocol`, whatever the version and flavour |
| `Subprotocol.ParseRejectsVersionSyntax` | src/subprotocol.rs:48-50 | a third segment without the `v` prefix or without a valid `u16` after it is `InvalidProtocol` |
| `Subprotocol.ParseVersionBeforeFlavour` | src/subprotocol.rs:51-53 | a well-formed token with an unsupported version is `IncompatibleVersion` for every flavour, known or not |
| `Subprotocol.ParseRejectsFlavour` | src/subprotocol.rs:54-56 | a supported version with a flavour outside the table is `UnsupportedFlavour` |
| `Subprotocol.ParseAccepts` | src/subprotocol.rs:57 | a well-formed token with supported version and flavour parses to that version and the table's flavour |
| `Subprotocol.ParseInvalidUnlessWellFormed` | src/subprotocol.rs:37-50 | any token not rejected as `InvalidProtocol` is `spacecoffee.blimp.v<u16>.<name>` with dot-free parts |
| `Subprotocol.ParseFormat` | src/subprotocol.rs:35-69 | parsing a canonical token gives the subprotocol back when its version is supported, else `IncompatibleVersion` |
| `Subprotocol.ParseIsCanonical` | src/subprotocol.rs:35-69 | re-parsing the canonical token of an accepted token gives the same value |
| `Subprotocol.FormatIsNotLeftInverse` | src/subprotocol.rs:48 | `spacecoffee.blimp.v01.json` is accepted as version 1 but is not its canonical token |
| `Subprotocol.FormatExamplePostcard` | tests/protocol.rs:10 | version 1 postcard formats as `spacecoffee.blimp.v1.postcard` |
| `Subprotocol.FormatExampleJson` | tests/protocol.rs:11 | version 2 json formats as `spacecoffee.blimp.v2.json` |
| `Subprotocol.FormatExampleVersionOneJson` | src/subprotocol.rs:68 | version 1 json formats as `spacecoffee.blimp.v1.json` |
| `Subprotocol.ParseExamplePostcard` | tests/protocol.rs:16 | `spacecoffee.blimp.v1.postcard` parses to version 1 postcard |
| `Subprotocol.ParseExampleJson` | tests/protocol.rs:17 | `spacecoffee.blimp.v1.json` parses to version 1 json |
| `Subprotocol.ParseExampleForeignOrganization` | tests/protocol.rs:18 | `vfly.blimp.v1.postcard` is `InvalidProtocol` |
| `Subprotocol.ParseExampleForeignProject` | tests/protocol.rs:19 | `spacecoffee.mper.v1.postcard` is `InvalidProtocol` |
| `Subprotocol.ParseExampleIncompatibleVersion` | tests/protocol.rs:20 | `spacecoffee.blimp.v2137.json` is `IncompatibleVersion` |
| `Subprotocol.ParseExampleUnsupportedFlavour` | tests/protocol.rs:21 | `spacecoffee.blimp.v1.xml` is `UnsupportedFlavour` |
| `Server.Candidates` | src/server.rs:44 | the header offers one token per comma, plus one, and every offered token is comma-free and has no whitespace at its ends |
| `Server.FirstParse` | src/server.rs:46-51 | a selected subprotocol always has a supported version |
| `Server.FirstParseSelectsFirst` | src/server.rs:46-50 | when candidate `i` parses and all before it fail, its parse is selected, whatever follows |
| `Server.FirstParseIsFirstParsable` | src/server.rs:46-50 | a selected subprotocol is the parse of a candidate before which every candidate failed |
| `Server.FirstParseNone` | src/server.rs:46-51 | nothing is selected exactly when every candidate fails to parse |
| `Server.GetSubprotocol` | src/server.rs:40-52 | a missing or non-text header selects nothing; a selection has a supported version |
| `Server.FormatIsHeaderText` | src/server.rs:80 | the canonical token is valid header text, so building the response header cannot fail |
| `Server.HandleHandshake` | src/server.rs:71-85 | rejected with 400 exactly when nothing is selected; otherwise the response header is the canonical token, which is valid header text and parses back to the selected subprotocol handed to the session |
| `Server.MissingHeaderIsRejected` | src/server.rs:41-46 | a request without a usable protocol header gets the 400 rejection |
| `Server.AcceptedIsFirstParsableOffer` | src/server.rs:46-50 | an accepted handshake selects the parse of the first offered token that parses |
| `Server.RejectedIffNoOfferParses` | src/server.rs:74-78 | a present header is rejected exactly when none of its offered tokens parses |
| `Server.SingleCandidate` | src/server.rs:44 | a single comma-free, already trimmed offer is the only candidate |
| `Server.CandidatesOfJoin` | src/server.rs:44 | for every list of comma-free pieces, the header joining them with commas offers exactly those pieces, each trimmed, in order |
| `Server.CandidatesOfTwo` | src/server.rs:44 | two comma-free pieces joined by a comma give exactly those two pieces, each trimmed |
| `Server.TrimLeadingSpace` | src/server.rs:44 | a space in front of a trimmed token is removed and nothing else |
| `Server.CandidatesOfCommaSpace` | src/server.rs:44 | a header `a, b` of two trimmed comma-free tokens offers exactly `a` then `b` |
| `Server.CandidatesExample` | tests/protocol.rs:52 | the test's header offers the two tokens `…v2137.json` and `…v1.postcard`, trimmed, in order |
| `Server.SecondOfferAccepted` | src/server.rs:44-83 | a header `a, b` whose first token fails to parse and whose second parses is answered with the second token's canonical form and value |
| `Server.NegotiationExample` | tests/protocol.rs:52-59 | for the test's header the unsupported first offer is skipped and `spacecoffee.blimp.v1.postcard` is answered |
| `Server.SingleOfferAccepted` | src/server.rs:44-83 | a header holding one comma-free, trimmed token that parses is answered with that token's canonical form and value |
| `Server.NegotiationCanonicalises` | src/server.rs:79-83 | offering `spacecoffee.blimp.v01.json` is answered with `spacecoffee.blimp.v1.json` |
| `Stream.StopIndex` | src/stream.rs:40-51 | the items before the stopping position are all skipped ones and the item at it is not |
| `Stream.Classify` | src/stream.rs:41-54 | a close item ends the receive as closed by the peer, a read error as failed, and a binary or text message is handed on as data unchanged; an item that ends a receive never reads as the end of the stream |
| `Stream.Pull` | src/stream.rs:40-58 | a receive returns only binary or text data, and reports the end of the stream exactly when every item is skipped |
| `Stream.Remaining` | src/stream.rs:40-56 | a receive leaves a suffix of the queue, strictly shorter when the queue was not empty |
| `Stream.PullAfterSkipped` | src/stream.rs:40-56 | after any run of skipped items, the first close, error or data item decides the result and everything after it is left unread |
| `Stream.PullOnlySkipped` | src/stream.rs:40-58 | a queue of only skipped items is drained and the stream is reported ended |
| `Stream.Deliver` | src/stream.rs:42-58 | a receive succeeds only on a data message |
| `Stream.PullInOrder` | src/stream.rs:40-56 | successive receives deliver the data messages that come before the first close or read error, in arrival order; a receive ends in a close, error or end only when none of those is left undelivered |
| `Stream.StreamPair.FromStream` | src/stream.rs:20-27 | a new pair has the whole incoming queue unread, nothing written, an open write half, and the given subprotocol |
| `Stream.StreamPair.Send` | src/stream.rs:28-35 | writes exactly one message, the export of the argument under the session's subprotocol, and changes nothing else; a codec error or a closed write half writes nothing |
| `Stream.StreamPair.Recv` | src/stream.rs:37-59 | consumes exactly the items up to and including the first close, error or data item (all if none) and returns the corresponding result; the write half is untouched |
| `Stream.StreamPair.Close` | src/stream.rs:61-63 | closes the write half, writing a close message the first time; the read half is untouched |

## Left out

- The accept loop of `run`, `bind`, `unbind`, `get_address` and the spawning of handlers (src/server.rs:20-38, 53-97 apart from the header callback): socket I/O and task scheduling.
- The `RwLock` guards around each half (src/stream.rs:11-12): their purpose is concurrency; each half is a plain field, and each method runs as one atomic step.
- `export_packet` and `import_packet`, the serde/postcard/JSON codec: they are not part of this model and are parameters of `Send` and `Recv`.
- Subprotocol.Default: `PROTOCOL_ORGANIZATION`, `PROTOCOL_PROJECT` and `PROTOCOL_VERSION` are defined outside the modelled files; the first two are `spacecoffee` and `blimp` as the crate's tests show, and the version is taken to be 1, the only supported version.
- Server.GetSubprotocol: the header is given as an `Option<string>` in which `None` stands both for a missing header and for one that `HeaderValue::to_str` refuses; the byte-level header check is not modelled.
- Text.Trim: whitespace is ASCII whitespace (tab to carriage return, and space); the other Unicode whitespace characters `str::trim` removes are not modelled.
- Stream.StreamPair.Close: returns no result; flush and transport failures of the write half are not modelled, and a second close does nothing.
- Stream.PullInOrder: the read queue is any sequence of items, so it may hold items after a close or a read error, which the WebSocket library would not deliver; a later `Recv` on such a queue goes on past them, and the lemma says nothing about those items.
- Stream.StreamPair.Send: transport write failures are not modelled; the write half fails only once it has been closed.
- src/client.rs, src/schema.rs, src/main.rs, src/lib.rs and tests/send.rs are not part of this model: a thin wrapper over the WebSocket client, message data types, the process entry point, module wiring and end-to-end networking tests.
