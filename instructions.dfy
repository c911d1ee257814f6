/** The escrow program's instruction wire format: byte 0 is the tag
    (0 = InitEscrow, 1 = Exchange), the next 8 bytes are the amount as a
    little-endian `u64`, and any later bytes are ignored. */
module Instructions {
  import opened Bytes
  import opened EscrowErrors

  /** The two operations the program accepts, each carrying a `u64`. */
  datatype EscrowInstruction =
    | InitEscrow(amount: U64)  // amount of token Y the initializer expects
    | Exchange(amount: U64)    // amount the taker expects to be paid

  /** `Result<T, ProgramError>`. */
  datatype Result<T> = Ok(value: T) | Err(error: ProgramError)

  /** The only error the decoder produces: `InvalidInstruction.into()`. */
  const InvalidInstructionError: ProgramError := ToProgramError(InvalidInstruction)

  /** Tag byte of each operation, as matched by `unpack`. */
  function Tag(instruction: EscrowInstruction): (tag: Byte)
    ensures tag <= 1
    ensures tag == 0 <==> instruction.InitEscrow?
  {
    match instruction
    case InitEscrow(_) => 0
    case Exchange(_) => 1
  }

  /** `unpack_amount`: the first 8 bytes of `input` as a little-endian
      `u64`; fewer than 8 bytes is an invalid instruction. */
  function UnpackAmount(input: seq<Byte>): (r: Result<U64>)
    ensures r.Err? <==> |input| < 8
    ensures r.Err? ==> r.error == Custom(0)
    ensures r.Ok? ==> r.value == LittleEndian(input[..8])
    ensures r.Ok? ==> ToLeBytes(r.value) == input[..8]
  {
    if |input| < 8 then
      Err(InvalidInstructionError)
    else
      LeBytesRoundTrip(0, input[..8]);
      Ok(FromLeBytes(input[..8]))
  }

  /** `EscrowInstruction::unpack`: split off the tag, dispatch on it, and
      read the amount from the bytes after it. */
  function Unpack(input: seq<Byte>): (r: Result<EscrowInstruction>)
    ensures r.Err? ==> r.error == Custom(0)
    ensures r.Ok? <==> |input| >= 9 && input[0] <= 1
    ensures r.Ok? ==> Tag(r.value) == input[0]
    ensures r.Ok? ==> r.value.amount == LittleEndian(input[1..9])
  {
    if |input| == 0 then
      Err(InvalidInstructionError)
    else
      var tag, rest := input[0], input[1..];
      assert |rest| >= 8 ==> rest[..8] == input[1..9];
      if tag == 0 then
        match UnpackAmount(rest)
        case Ok(amount) => Ok(InitEscrow(amount))
        case Err(e) => Err(e)
      else if tag == 1 then
        match UnpackAmount(rest)
        case Ok(amount) => Ok(Exchange(amount))
        case Err(e) => Err(e)
      else
        Err(InvalidInstructionError)
  }

  /** The 9-byte wire form of an instruction: its tag and then its amount. */
  function Encode(instruction: EscrowInstruction): (bytes: seq<Byte>)
    ensures |bytes| == 9 && bytes[0] <= 1
  {
    [Tag(instruction)] + ToLeBytes(instruction.amount)
  }

  /** Decoding an encoded instruction gives it back, whatever follows it. */
  lemma UnpackEncode(instruction: EscrowInstruction, tail: seq<Byte>)
    ensures Unpack(Encode(instruction) + tail) == Ok(instruction)
  {
    var input := Encode(instruction) + tail;
    assert input[1..][..8] == ToLeBytes(instruction.amount);
    LeBytesRoundTrip(instruction.amount, input[1..][..8]);
  }

  /** Whatever `Unpack` accepts is an encoded instruction followed by
      bytes that played no part in the decoding. */
  lemma EncodeUnpack(input: seq<Byte>)
    requires Unpack(input).Ok?
    ensures input[..9] == Encode(Unpack(input).value)
  {
  }

  /** Bytes after the ninth never change the outcome. */
  lemma UnpackIgnoresTail(prefix: seq<Byte>, tail: seq<Byte>)
    requires |prefix| == 9
    ensures Unpack(prefix + tail) == Unpack(prefix)
  {
    var input := prefix + tail;
    assert input[0] == prefix[0];
    assert input[1..][..8] == prefix[1..][..8];
  }

  /** Example: tag 0 followed by 1_000_000 in little-endian order. */
  lemma UnpackInitOneMillion()
    ensures Unpack([0, 0x40, 0x42, 0x0F, 0, 0, 0, 0, 0]) == Ok(InitEscrow(1_000_000))
  {
    var input: seq<Byte> := [0, 0x40, 0x42, 0x0F, 0, 0, 0, 0, 0];
    assert input[1..][..8] == [0x40, 0x42, 0x0F, 0, 0, 0, 0, 0];
  }
}
