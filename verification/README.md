# pippiroh relay and ticket, modelled in Dafny

pippiroh is a peer-to-peer group chat over a gossip overlay. This project
models the two pieces of logic in `src/p2p.rs` that do not depend on the
network:

- **The relay actor (`P2PActor`)** keeps a list of local subscribers and an
  optional gossip publish handle. It appends subscribers, installs the
  handle, fans each received message out to every subscriber in
  registration order, and encodes and broadcasts local messages. Its
  receive loop forwards only the `Received` gossip events whose payload
  decodes as a `MessageBody`.
- **The ticket (`P2PTicket`)** is a topic and a list of peer addresses. Its
  binary form comes from the fixed binary codec. Its text form is that
  binary form in unpadded Base32, using the alphabet of section 6 of
  RFC 4648, lower-cased. Text is read back in either case.

Modules, one per component:

- `wrappers.dfy` (`Wrappers`): `Option` and `Result`.
- `wire.dfy` (`Wire`): the binary codec as a pair of functions, `Codec<T>`.
  The codec library is not part of this model. The one property its callers
  rely on, that decoding an encoding gives the value back, is the predicate
  `RoundTrips`. The lemmas that need it take it as a hypothesis.
  `SelfDelimiting` says that bytes after an encoding are ignored.
- `wire.dfy` (`Chat`): `MessageBody` from `src/lib.rs`, an optional sender
  `NodeId` and a text.
- `base32.dfy` (`Base32`): unpadded Base32, concretely. Bytes are read as
  bits, most significant first, and cut into five-bit symbols. A last short
  group is filled with zero bits. Decoding accepts only lengths that some
  byte count encodes to, only upper-case alphabet symbols, and only zero
  fill bits.
- `ticket.dfy` (`Ticket`): `P2PTicket`, `from_bytes`, `to_bytes`, `Display`
  (`ToText`) and `FromStr` (`FromText`), with ASCII case mapping.
- `relay.dfy` (`Relay`): the class `P2PActor` and its handlers. Two ghost
  logs record what leaves the actor: `mail` is every `GotMessage` posted to
  a subscriber, in order; `broadcasts` is every byte string handed to the
  publish handle. A subscriber's inbox is its part of `mail`. The receive
  loop is the method `ReceiveLoop` over a finite run of polls.

Three facts about the code that the model keeps:

- The ticket holds only `topic` and `nodes`.
- The subscribers are a `Vec`. A recipient registered twice gets two
  copies of each message. `DeliveryReachesEachSubscriber` states the
  count, and states that without repeated registrations it is exactly one.
- The receive loop `continue`s on an error and on end of stream alike.

## Model

| member | source | states |
|---|---|---|
| `Base32.Encode` | src/p2p.rs:151 | The text has only alphabet symbols, with no padding, and 8n/5 of them rounded up for n bytes |
| `Base32.Decode` | src/p2p.rs:160 | On success the length is one that some byte count encodes to, every character is an alphabet symbol, and 5n/8 bytes come out of n symbols |
| `Base32.DecodeEncode` | src/p2p.rs:151-160 | Decoding the Base32 of any byte string gives that byte string back |
| `Base32.EncodeDecode` | src/p2p.rs:151-160 | A text that decodes is exactly the encoding of the bytes it decodes to, so no second spelling of the same bytes is accepted |
| `Base32.DecodeCanonical` | src/p2p.rs:160 | A text decodes to a byte string if and only if it is exactly the encoding of that byte string |
| `Base32.ValidLengthResidues` | src/p2p.rs:160 | The accepted symbol counts are those whose remainder modulo 8 is not 1, 3 or 6 |
| `Base32.EncodedLengthValid` | src/p2p.rs:151 | The encoded length of n bytes is an accepted length, and it carries back n bytes |
| `Ticket.FromBytes` | src/p2p.rs:137-141 | Succeeds exactly when the binary decoder succeeds; every failure is a binary decode error |
| `Ticket.ToBytes` | src/p2p.rs:143-146 | Under the codec round trip, `FromBytes` reads the ticket back from its binary form |
| `Ticket.FromBytesIgnoresTrailing` | src/p2p.rs:138-140 | The bytes-read count is dropped, so bytes after a ticket's binary form do not change what is read |
| `Ticket.ToText` | src/p2p.rs:149-155 | The text has only `a`-`z` and `2`-`7`, no padding, and its length is 8n/5 rounded up for n binary bytes |
| `Ticket.TextDecodesToBytes` | src/p2p.rs:151-152 | Base32-decoding the upper-cased text gives exactly `to_bytes()` |
| `Ticket.FromText` | src/p2p.rs:157-163 | A character that is not a Base32 symbol in either case makes parsing fail with a text error; success implies the upper-cased text is valid Base32 |
| `Ticket.FromTextToText` | src/p2p.rs:151-161 | Under the codec round trip, parsing the text form of a ticket gives the ticket back |
| `Ticket.FromTextCaseInsensitive` | src/p2p.rs:160 | Parsing gives the same result for a text, its upper-case form and its lower-case form |
| `Ticket.FromTextCanonical` | src/p2p.rs:159-162 | Text that parses to a ticket is, up to case, exactly the Base32 form of bytes that `FromBytes` reads as that ticket |
| `Relay.P2PActor.constructor` | src/p2p.rs:31-36 | A new relay has no subscribers, no publish handle, and has posted and broadcast nothing |
| `Relay.P2PActor.Subscribe` | src/p2p.rs:38-40 | Appends exactly one recipient at the end; earlier subscribers, the handle and both logs are unchanged |
| `Relay.P2PActor.HandleSubscribe` | src/p2p.rs:86-92 | The `Subscribe` handler has the same effect as `Subscribe` |
| `Relay.P2PActor.HandleSetSender` | src/p2p.rs:94-100 | The handle becomes `Some(h)`; the subscribers and both logs are unchanged |
| `Relay.P2PActor.HandleGotMessage` | src/p2p.rs:102-110 | Posts `m` once to each subscriber entry, in registration order, and posts nothing else; the subscribers, the handle and the broadcasts are unchanged |
| `Relay.P2PActor.HandleSendMessage` | src/p2p.rs:112-122 | Needs a handle, since the source panics without one. Adds the encoding of `m` once to the broadcasts, through the current handle; the subscribers, the handle and the mail are unchanged |
| `Relay.P2PActor.UnsubscribedGotNothing` | src/p2p.rs:102-110 | Since messages are only posted to registered subscribers, a recipient that is not subscribed has an empty inbox |
| `Relay.InboxOfOthers` | src/p2p.rs:105-109 | A recipient that no posting is addressed to has received nothing |
| `Relay.DeliveryReachesEachSubscriber` | src/p2p.rs:105-109 | A delivery adds to each inbox one copy per registration of its recipient, after what it already held. That is exactly one copy without repeated registrations, and none for a recipient not registered at that moment |
| `Relay.InboxOfFanOut` | src/p2p.rs:106-108 | The fan-out of one message gives each recipient as many copies as it has registrations |
| `Relay.InboxAppend` | src/p2p.rs:106-108 | Each inbox of two runs of postings is the first run's inbox followed by the second's, so order is kept |
| `Relay.Forwarded` | src/p2p.rs:71-80 | A poll forwards at most one message. It forwards one exactly when it is a `Received` event whose payload decodes |
| `Relay.ReceiveLoop` | src/p2p.rs:66-83 | Over a run of polls, the loop posts exactly the messages of `Accepted`, in arrival order |
| `Relay.AcceptedAppend` | src/p2p.rs:67-81 | Filtering works poll by poll: a run split in two forwards its first half's messages, then its second half's |
| `Relay.SkippedPollIsInvisible` | src/p2p.rs:68-80 | An error, the end of the stream, another event or an undecodable payload is dropped without affecting what the rest of the run forwards |
| `Relay.AcceptedFromReceived` | src/p2p.rs:72-78 | Every forwarded message was decoded from a received payload in the run |
| `Relay.AcceptedBound` | src/p2p.rs:66-83 | At most one message is forwarded per poll |
| `Relay.PublishedIsForwarded` | src/p2p.rs:117 | Under the codec round trip, a payload that one relay broadcasts for `m` is forwarded as `m` by a receiving relay |

## Left out

- The binary codec's byte layout and the internals of `TopicId` and `NodeAddr`: the codec is a parameter, and its round trip is a hypothesis of the lemmas that need it.
- `start_listener` (src/p2p.rs:42-64): joining the topic, splitting the handles, printing and spawning the receive loop are network and runtime calls. Its effect on the actor is the `SetSender` message, which is modelled.
- The asynchrony of the actor mailbox, `do_send` and `tokio::spawn`: each handler is one atomic step, and a posted message is a `mail` entry. Whether a recipient is still alive is the recipient's concern.
- `Relay.P2PActor.HandleSendMessage`: requires a publish handle. Without one the source panics at `expect("no P2P sender")` (src/p2p.rs:116), and the panic is not modelled. At the only call site the handle is always there: `src/main.rs` awaits `start_listener`, which posts `SetSender` to the same actor address, before its input loop posts any `SendMessage`.
- The network send in `SendMessage` and its `unwrap`: it is recorded as a `broadcasts` entry.
- `Relay.ReceiveLoop`: models a finite run of polls. The source loops forever, including after the stream has ended.
- `Base32.Decode`: fails with one error value. The error kind and position that the Base32 library reports are not modelled. The source counts length in UTF-8 bytes and the model counts characters. These differ only for non-ASCII text, which fails either way.
- The binary encoder's `expect`/`unwrap`: encoding is total.
- `src/main.rs` (argument parsing, endpoint and router setup, the random topic, the console loop and the printing subscriber): this is input/output.
- Nothing else in `src/p2p.rs` or `src/lib.rs` is modelled.
