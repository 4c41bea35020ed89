/**
 * The fixed binary encoding (bincode with its standard configuration) and
 * the chat message type of src/lib.rs.
 *
 * The encoding library is not part of this model: a codec is a pair of
 * functions, and the property every caller relies on, that decoding an
 * encoding gives the value back, is the predicate `RoundTrips`, which the
 * lemmas that need it take as a hypothesis.
 */
module Wire {
  import opened Wrappers

  type Byte = bv8

  /** Malformed or truncated input presented to the decoder. */
  datatype DecodeError = DecodeError

  /**
   * A binary codec for values of type T. `decode` reads a value from the
   * front of a byte slice and reports how many bytes it used, as
   * `decode_from_slice` does.
   */
  datatype Codec<!T> = Codec(
    encode: T -> seq<Byte>,
    decode: seq<Byte> -> Result<(T, nat), DecodeError>)

  /** Decoding the encoding of any value gives that value back and uses all of the bytes. */
  ghost predicate RoundTrips<T(!new)>(c: Codec<T>) {
    forall v :: c.decode(c.encode(v)) == Success((v, |c.encode(v)|))
  }

  /**
   * The encoding is self-delimiting: bytes after an encoding do not change
   * what is decoded from its front.
   */
  ghost predicate SelfDelimiting<T(!new)>(c: Codec<T>) {
    forall v, rest: seq<Byte> ::
      c.decode(c.encode(v) + rest) == Success((v, |c.encode(v)|))
  }
}

/** The value types shared by the relay and the ticket (src/lib.rs). */
module Chat {
  import opened Wrappers
  import Wire

  /** A peer's public key (32 bytes in the transport library). */
  datatype NodeId = NodeId(key: seq<Wire.Byte>)

  /** A chat message: the sender's claimed identity, if any, and the text. */
  datatype MessageBody = MessageBody(from: Option<NodeId>, text: string)
}
