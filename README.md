# Escrow instruction codec and error codes

This project models two pure parts of a Solana escrow program, in which
party A locks token X and party B swaps token Y for it:

- the **instruction codec**, `EscrowInstruction::unpack`. It turns the raw
  instruction bytes into `InitEscrow { amount }` (tag 0) or
  `Exchange { amount }` (tag 1). The amount is the `u64` stored
  little-endian in the 8 bytes after the tag. Anything else is
  `InvalidInstruction`.
- the **error taxonomy**, `EscrowError`, with its three variants. The
  `From` conversion carries each variant into the host's
  `ProgramError::Custom(u32)` channel, using the variant's discriminant as
  the code.

Files:

- `error.dfy` (module `EscrowErrors`): `EscrowError`, `ProgramError` (only
  `Custom`), the discriminant cast, the conversion, and its inverse on codes.
- `bytes.dfy` (module `Bytes`): bytes, `u64`, and little-endian
  reading (`u64::from_le_bytes`) and writing of numbers.
- `instructions.dfy` (module `Instructions`): `EscrowInstruction`,
  `unpack_amount`, `unpack`, and a 9-byte `Encode`. `Encode` is the inverse
  that the round-trip lemmas use; the source itself has no encoder.

`Unpack` has no precondition. Dafny functions are total, so `Unpack`
returns a result for every byte string, the empty one included: the
decoder never panics.

## Model

| member | source | states |
|---|---|---|
| `EscrowErrors.Discriminant` | src/error.rs:4-13 | the cast `e as u32` gives the variant's position in declaration order |
| `EscrowErrors.ToProgramError` | src/error.rs:15-18 | every domain error becomes `Custom(code)`, and `code` is the index of that error among the declared variants |
| `EscrowErrors.FromProgramError` | src/error.rs:15-18 | model-side inverse of the conversion (the source has no decoder): a code it maps to an error is exactly the code that error converts to, and a code it rejects is produced by no error |
| `EscrowErrors.DeclaredIsComplete` | src/error.rs:4-13 | the enum has exactly three variants, all distinct, and every error value is one of them |
| `EscrowErrors.CodesAreStable` | src/error.rs:5-12 | `InvalidInstruction` maps to `Custom(0)`, `ExpectedAmountMismatch` to `Custom(1)`, `AmountOverflow` to `Custom(2)` |
| `EscrowErrors.ToProgramErrorInjective` | src/error.rs:17 | two errors give the same `ProgramError` if and only if they are the same error |
| `EscrowErrors.ProgramErrorRoundTrip` | src/error.rs:17 | decoding a converted error gives the error back, and every code that decodes converts back to itself |
| `Bytes.FromLeBytes` | src/instructions.rs:64 | `u64::from_le_bytes`: the value of any 8 bytes fits a `u64`, is their little-endian value, and writes back out to the same 8 bytes |
| `Bytes.LittleEndian` | src/instructions.rs:64 | the number read from `k` bytes is below 256^k |
| `Bytes.LittleEndianOfDigits` | src/instructions.rs:64 | writing a number that fits in `k` bytes as `k` little-endian digits and reading them back gives the number |
| `Bytes.DigitsOfLittleEndian` | src/instructions.rs:64 | reading a byte string and writing the number back in as many bytes gives the same bytes |
| `Bytes.LeBytesRoundTrip` | src/instructions.rs:64 | `from_le_bytes` and `to_le_bytes` are inverse to each other between 8-byte strings and `u64` values |
| `Instructions.Tag` | src/instructions.rs:49-56 | the tag numbering of the match arms: `InitEscrow` is tag 0, `Exchange` is tag 1, and no instruction has any other tag |
| `Instructions.UnpackAmount` | src/instructions.rs:60-67 | fails exactly when fewer than 8 bytes are given, and the only failure is `Custom(0)`; otherwise the amount is the little-endian value of the first 8 bytes, and encoding it gives those 8 bytes back |
| `Instructions.Unpack` | src/instructions.rs:46-58 | succeeds if and only if there are at least 9 bytes and the first is 0 or 1; every failure is `Custom(0)`, so an empty buffer, an unknown tag and a truncated amount all fail this way; on success the tag gives the variant and the amount is the little-endian value of bytes 1 to 8 |
| `Instructions.Encode` | src/instructions.rs:49-64 | model-side encoder (the source has none) laid out as `unpack` reads: 9 bytes, the tag byte 0 or 1, then the amount; `UnpackEncode` and `EncodeUnpack` tie it to `Unpack` |
| `Instructions.UnpackEncode` | src/instructions.rs:46-67 | decoding an encoded instruction followed by any bytes gives back that instruction |
| `Instructions.EncodeUnpack` | src/instructions.rs:46-67 | when decoding succeeds, the first 9 bytes are exactly the encoding of the decoded instruction |
| `Instructions.UnpackIgnoresTail` | src/instructions.rs:62 | for a 9-byte prefix, appending any bytes never changes the result, whether success or error |
| `Instructions.UnpackInitOneMillion` | src/instructions.rs:50-51 | tag 0 followed by 1 000 000 in little-endian order decodes to `InitEscrow(1000000)` |

## Left out

- The trade processor (the Init and Exchange state transitions, account checks, rent exemption, the amount-mismatch and overflow checks, closing the escrow record) is not part of this model. Neither src/instructions.rs nor src/error.rs contains processor code.
- Program-derived addresses and the token program's `set_authority`, `transfer` and `close_account` are calls into the host ledger, and are not part of this model.
- `ProgramError` has many host-defined cases. Only `Custom(u32)` is modelled, because it is the only one this code builds.
- The `#[error(...)]` display strings on `EscrowError` are not modelled. They only produce formatting code through a derive macro.
- The import `use thiserror:Error;` at src/error.rs:1 is misspelled. This affects only whether the file compiles, not the behaviour of the model.
- The account lists in the doc comments on the instruction variants are not modelled. They describe what the processor expects.
