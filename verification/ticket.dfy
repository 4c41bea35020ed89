/**
 * The rendezvous ticket (`P2PTicket` in src/p2p.rs): a topic and the
 * addresses of known peers, its binary form (the fixed binary codec) and
 * its text form (that binary form in unpadded Base32, lower case).
 */
module Ticket {
  import opened Wrappers
  import opened Wire
  import opened Chat
  import Base32

  /** A gossip topic identifier (32 opaque bytes in the transport library). */
  datatype TopicId = TopicId(bytes: seq<Byte>)

  /**
   * How to reach a peer. Only the node id is read by the program; the
   * rest of the library type is carried as it is.
   */
  datatype NodeAddr = NodeAddr(nodeId: NodeId, relayUrl: Option<string>, directAddresses: seq<string>)

  datatype P2PTicket = P2PTicket(topic: TopicId, nodes: seq<NodeAddr>)

  /** Why a ticket could not be read: bad text, or text whose bytes are not a ticket. */
  datatype TicketError = InvalidText(textError: Base32.Base32Error) | InvalidBytes(bytesError: DecodeError)

  // ---------------------------------------------------------------------
  // ASCII case mapping

  /** ASCII upper-casing of one character; every other character is kept. */
  function UpperChar(c: char): char {
    if 'a' <= c <= 'z' then (c as int - 32) as char else c
  }

  /** ASCII lower-casing of one character; every other character is kept. */
  function LowerChar(c: char): char {
    if 'A' <= c <= 'Z' then (c as int + 32) as char else c
  }

  function Upper(s: string): (r: string)
    ensures |r| == |s| && forall i :: 0 <= i < |s| ==> r[i] == UpperChar(s[i])
  {
    seq(|s|, i requires 0 <= i < |s| => UpperChar(s[i]))
  }

  function Lower(s: string): (r: string)
    ensures |r| == |s| && forall i :: 0 <= i < |s| ==> r[i] == LowerChar(s[i])
  {
    seq(|s|, i requires 0 <= i < |s| => LowerChar(s[i]))
  }

  /** The characters of the ticket text: lower-case letters and the digits 2 to 7. */
  predicate IsTextSymbol(c: char) {
    'a' <= c <= 'z' || '2' <= c <= '7'
  }

  // ---------------------------------------------------------------------
  // Binary form

  /**
   * Decodes a ticket from the front of `bytes`. The count of bytes the
   * decoder used is dropped, so bytes after the ticket are not an error.
   */
  function FromBytes(bytes: seq<Byte>, wire: Codec<P2PTicket>): (r: Result<P2PTicket, TicketError>)
    ensures r.Success? <==> wire.decode(bytes).Success?
    ensures r.Failure? ==> r.error.InvalidBytes?
  {
    match wire.decode(bytes)
    case Success((t, _)) => Success(t)
    case Failure(e) => Failure(InvalidBytes(e))
  }

  /** The binary form of a ticket; it is what `FromBytes` reads back. */
  function ToBytes(t: P2PTicket, wire: Codec<P2PTicket>): (bytes: seq<Byte>)
    ensures RoundTrips(wire) ==> FromBytes(bytes, wire) == Success(t)
  {
    wire.encode(t)
  }

  /** Bytes after a ticket's binary form do not change what is read. */
  lemma FromBytesIgnoresTrailing(t: P2PTicket, rest: seq<Byte>, wire: Codec<P2PTicket>)
    requires SelfDelimiting(wire)
    ensures FromBytes(ToBytes(t, wire) + rest, wire) == Success(t)
  {
  }

  // ---------------------------------------------------------------------
  // Text form

  /**
   * The text form of a ticket: its binary form in unpadded Base32, lower
   * case. It holds only lower-case letters and the digits 2 to 7, 8n/5 of
   * them rounded up for n bytes.
   */
  function ToText(t: P2PTicket, wire: Codec<P2PTicket>): (text: string)
    ensures |text| == Base32.EncodedLength(|ToBytes(t, wire)|)
    ensures forall i :: 0 <= i < |text| ==> IsTextSymbol(text[i])
  {
    Lower(Base32.Encode(ToBytes(t, wire)))
  }

  /**
   * Reads a ticket from text in either case: upper-cases it, decodes the
   * Base32 and decodes the ticket from the bytes. A character that is not
   * a Base32 symbol in either case makes it fail.
   */
  function FromText(s: string, wire: Codec<P2PTicket>): (r: Result<P2PTicket, TicketError>)
    ensures (exists i :: 0 <= i < |s| && !Base32.IsSymbol(UpperChar(s[i]))) ==> r.Failure? && r.error.InvalidText?
    ensures r.Success? ==> Base32.Decode(Upper(s)).Success?
  {
    match Base32.Decode(Upper(s))
    case Failure(e) => Failure(InvalidText(e))
    case Success(bytes) => FromBytes(bytes, wire)
  }

  // ---------------------------------------------------------------------
  // Properties of the text form

  /** Lower-casing a string of Base32 symbols and upper-casing it again gives the string back. */
  lemma UpperLowerOfSymbols(s: string)
    requires forall i :: 0 <= i < |s| ==> Base32.IsSymbol(s[i])
    ensures Upper(Lower(s)) == s
  {
  }

  /** Base32-decoding the upper-cased text form gives the binary form back. */
  lemma TextDecodesToBytes(t: P2PTicket, wire: Codec<P2PTicket>)
    ensures Base32.Decode(Upper(ToText(t, wire))) == Success(ToBytes(t, wire))
  {
    var bytes := ToBytes(t, wire);
    UpperLowerOfSymbols(Base32.Encode(bytes));
    Base32.DecodeEncode(bytes);
  }

  /** Reading the text form of a ticket gives the ticket back. */
  lemma FromTextToText(t: P2PTicket, wire: Codec<P2PTicket>)
    requires RoundTrips(wire)
    ensures FromText(ToText(t, wire), wire) == Success(t)
  {
    TextDecodesToBytes(t, wire);
  }

  /** Reading a ticket does not depend on the case of the text. */
  lemma FromTextCaseInsensitive(s: string, wire: Codec<P2PTicket>)
    ensures FromText(s, wire) == FromText(Upper(s), wire)
    ensures FromText(s, wire) == FromText(Lower(s), wire)
  {
    assert Upper(Upper(s)) == Upper(s);
    assert Upper(Lower(s)) == Upper(s);
  }

  /**
   * Text that reads as a ticket is, up to case, exactly the Base32 form of
   * bytes that decode to that ticket.
   */
  lemma FromTextCanonical(s: string, wire: Codec<P2PTicket>, t: P2PTicket)
    requires FromText(s, wire) == Success(t)
    ensures exists bytes :: Base32.Encode(bytes) == Upper(s) && FromBytes(bytes, wire) == Success(t)
  {
    var bytes := Base32.Decode(Upper(s)).value;
    Base32.DecodeCanonical(Upper(s), bytes);
  }
}
