/** The escrow program's domain errors and their mapping into the host
    ledger's generic program-error channel. */
module EscrowErrors {

  /** Exclusive upper bound of a `u32`. */
  const U32_LIMIT: nat := 0x1_0000_0000

  type U32 = x: nat | x < U32_LIMIT

  /** The three domain failures, in declaration order. */
  datatype EscrowError =
    | InvalidInstruction      // bytes that do not parse into an instruction
    | ExpectedAmountMismatch  // offered amount differs from the recorded one
    | AmountOverflow          // an unsigned 64-bit sum would overflow

  /** The host's generic program error. Only the `Custom` case is modelled:
      it is the only one the escrow program produces. */
  datatype ProgramError = Custom(code: U32)

  /** The variants exactly as declared, first to last. */
  const Declared: seq<EscrowError> := [InvalidInstruction, ExpectedAmountMismatch, AmountOverflow]

  /** `e as u32`: the discriminant of a field-less enum is its declaration index. */
  function Discriminant(e: EscrowError): (d: U32)
    ensures d < |Declared| && Declared[d] == e
  {
    match e
    case InvalidInstruction => 0
    case ExpectedAmountMismatch => 1
    case AmountOverflow => 2
  }

  /** `From<EscrowError> for ProgramError`: every domain error travels
      through the `Custom` channel with its discriminant as the code. */
  function ToProgramError(e: EscrowError): (p: ProgramError)
    ensures p.code < |Declared| && Declared[p.code] == e
  {
    Custom(Discriminant(e))
  }

  /** The reverse direction of the mapping: which domain error, if any,
      a caller receiving `Custom(code)` is looking at. */
  function FromProgramError(p: ProgramError): (r: Option<EscrowError>)
    ensures r.Some? ==> ToProgramError(r.value) == p
    ensures r.None? ==> forall e :: ToProgramError(e) != p
  {
    if p.code < |Declared| then Some(Declared[p.code]) else None
  }

  datatype Option<T> = None | Some(value: T)

  /** Every domain error is one of the three declared variants, each
      listed once. */
  lemma DeclaredIsComplete(e: EscrowError)
    ensures e in Declared
    ensures |Declared| == 3
    ensures forall i, j :: 0 <= i < j < |Declared| ==> Declared[i] != Declared[j]
  {
  }

  /** The stable numbering callers may match on. */
  lemma CodesAreStable()
    ensures ToProgramError(InvalidInstruction) == Custom(0)
    ensures ToProgramError(ExpectedAmountMismatch) == Custom(1)
    ensures ToProgramError(AmountOverflow) == Custom(2)
  {
  }

  /** Distinct domain errors reach the caller as distinct codes. */
  lemma ToProgramErrorInjective(a: EscrowError, b: EscrowError)
    ensures ToProgramError(a) == ToProgramError(b) <==> a == b
  {
  }

  /** Decoding a converted error gives it back, and every code in range
      comes from exactly the error it decodes to. */
  lemma ProgramErrorRoundTrip(e: EscrowError, p: ProgramError)
    ensures FromProgramError(ToProgramError(e)) == Some(e)
    ensures FromProgramError(p).Some? ==> ToProgramError(FromProgramError(p).value) == p
  {
  }
}
