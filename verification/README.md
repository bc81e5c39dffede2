# Write-target transmission record and Execute model

This project models two parts of the EVM write-target capability.

The first part is the byte encoder for the forwarder's transmission record, `TransmissionInfo`. The relayer test uses it to fake the chain's answer to `getTransmissionInfo`. The encoder is generic in the record. It produces a fixed 228-byte layout:

| bytes | content |
|---|---|
| 0..80 | gas limit: zero padding, then the minimal big-endian bytes of its magnitude (`big.Int.Bytes()`, empty for 0) |
| 80 | invalid-receiver flag as 0/1, then 31 zero bytes |
| 112 | state byte, then 31 zero bytes |
| 144 | success flag as 0/1, then 31 zero bytes |
| 176..208 | transmission id |
| 208..228 | transmitter address, 20 bytes, not padded |

Encoding fails with `GasLimitTooLarge` when the magnitude needs more than 80 bytes. That happens exactly when it is at least 256^80.

The second part is a thin state machine for the capability's `Execute` and for relayer startup registration. Its collaborators are explicit:
- the address validator is a predicate parameter;
- the chain read is the raw answer bytes;
- the transaction manager is a fake that records every `CreateTransaction` request.

Modules:
- `Wrappers`: `Option` and `Result`.
- `BigEndian`: minimal big-endian bytes (`ToBytes`, and its loop form `MinimalBytes`), read-back (`FromBytes`), the length bound and the padding lemmas.
- `TransmissionInfoCodec`: the record, `Encode`, the test's zero record, and `Decode`. `Decode` is a strict reference inverse written for this model: the Go code has no decoder. It accepts exactly 228 bytes with 0/1 flag bytes and zero slot padding, so `Encode` and `Decode` are exact inverses.
- `WriteTarget`: `Execute`, `ExecuteAll` (invocations sharing one transaction manager), `StartRelayer`, and the test scenario.

The implementation of `Execute` and of relayer startup is not part of this model. Their behaviour is taken from what `TestEvmWrite` asserts, and the steps in between are a modelling choice:
- A missing `Address` in the config, or one the validator rejects, fails with `InvalidConfig`.
- Then the transmission record is read and decoded. A read error fails with `ChainReadError`, and a record that does not decode fails with `MalformedTransmissionInfo`.
- A record whose `success` flag is set and whose transmitter is non-zero is taken as already delivered; this rule is a modelling choice. The call then succeeds without submitting.
- Otherwise exactly one request is created. Its payload is `(rawReport, signatures)` and it uses the default gas limit.
- A transaction-manager error fails with `SubmissionError`, carrying the cause.

## Model

| member | source | states |
|---|---|---|
| BigEndian.ToBytes | lib/chainlink-evm/core/services/relay/evm/write_target_test.go:59 | the gas limit's bytes as `big.Int.Bytes()` gives them: they read back as the value, have no leading zero byte, and are empty exactly for zero |
| BigEndian.MinimalBytes | lib/chainlink-evm/core/services/relay/evm/write_target_test.go:59 | the low-byte-first loop form of `Bytes()` yields the minimal big-endian bytes, which read back as the value |
| BigEndian.ToBytesFits | lib/chainlink-evm/core/services/relay/evm/write_target_test.go:59-62 | the minimal form fits in k bytes exactly when the value is below 256^k, so the "GasLimit too large" guard fires exactly for values of at least 256^80 |
| BigEndian.FromBytesBound | lib/chainlink-evm/core/services/relay/evm/write_target_test.go:60-65 | a k-byte field holds only values below 256^k |
| BigEndian.FromBytesPadded | lib/chainlink-evm/core/services/relay/evm/write_target_test.go:63-65 | left zero padding does not change the value read back from the gas-limit field |
| BigEndian.PaddedToBytes | lib/chainlink-evm/core/services/relay/evm/write_target_test.go:63-65 | every 80-byte field is the padded minimal form of its own value, so re-encoding a read-back gas limit reproduces the field |
| BigEndian.ToBytesFromBytes | lib/chainlink-evm/core/services/relay/evm/write_target_test.go:59 | a byte string with no leading zero is the minimal form of its value, so the minimal form is unique |
| TransmissionInfoCodec.Encode | lib/chainlink-evm/core/services/relay/evm/write_target_test.go:58-102 | encoding succeeds exactly when the gas limit's magnitude is below 256^80, fails only with `GasLimitTooLarge`, and a success is 228 bytes |
| TransmissionInfoCodec.MockedEncodeTransmissionInfo | lib/chainlink-evm/core/services/relay/evm/write_target_test.go:48-103 | the hard-coded zero record encodes to 228 zero bytes |
| TransmissionInfoCodec.LayoutParts | lib/chainlink-evm/core/services/relay/evm/write_target_test.go:63-100 | the six fields sit at offsets 0, 80, 112, 144, 176 and 208 with widths 80, 32, 32, 32, 32 and 20, and nothing follows |
| TransmissionInfoCodec.EncodedFields | lib/chainlink-evm/core/services/relay/evm/write_target_test.go:58-102 | bytes 0..80 read back as the gas-limit magnitude; byte 80 is 1 iff invalid receiver, byte 112 is the state, byte 144 is 1 iff success, the 31 bytes after each are zero; bytes 176..208 are the transmission id and 208..228 the transmitter |
| TransmissionInfoCodec.DecodeEncode | lib/chainlink-evm/core/services/relay/evm/write_target_test.go:58-102 | decoding an encoding gives the record back, with the gas limit replaced by its magnitude |
| TransmissionInfoCodec.EncodeDecode | lib/chainlink-evm/core/services/relay/evm/write_target_test.go:58-102 | every string the decoder accepts is the encoding of what it decodes to |
| TransmissionInfoCodec.DecodeIffEncode | lib/chainlink-evm/core/services/relay/evm/write_target_test.go:58-102 | for a non-negative gas limit, a string decodes to a record iff the record encodes to that string |
| TransmissionInfoCodec.MockedAnswerDecodes | lib/chainlink-evm/core/services/relay/evm/write_target_test.go:111-115 | the canned chain answer reads back as the zero record, whose success flag is false |
| WriteTarget.Execute | lib/chainlink-evm/core/services/relay/evm/write_target_test.go:206-268 | at most one create call, appended to the trace; a created request carries the raw report and the signatures unchanged, the configured address and the default gas limit; `Submitted` is returned iff a call was made and accepted, with the manager's handle; an invalid address, a chain-read error and an undecodable record each fail with their own error and make no call; `AlreadyTransmitted` is returned iff the address is valid and the record decodes and shows a delivery |
| WriteTarget.ValidatedAddress | lib/chainlink-evm/core/services/relay/evm/write_target_test.go:233-251 | the config's `Address` is accepted iff present and valid, and is then returned unchanged |
| WriteTarget.InvalidAddressFails | lib/chainlink-evm/core/services/relay/evm/write_target_test.go:233-251 | a missing or invalid `Address` fails with `InvalidConfig` and leaves the transaction manager untouched |
| WriteTarget.SubmissionErrorPropagates | lib/chainlink-evm/core/services/relay/evm/write_target_test.go:253-268 | a `CreateTransaction` error fails the invocation with that error, after exactly one call |
| WriteTarget.FreshReportSubmitted | lib/chainlink-evm/core/services/relay/evm/write_target_test.go:206-231 | a valid request for an undelivered report succeeds with the manager's handle and records exactly the request built from the signed report |
| WriteTarget.DeliveredIsNotResubmitted | lib/chainlink-evm/core/services/relay/evm/write_target_test.go:111-116 | a record showing a prior delivery makes the invocation succeed without any create call |
| WriteTarget.SubmitsIff | lib/chainlink-evm/core/services/relay/evm/write_target_test.go:206-268 | a create call happens iff the address is valid, the chain read succeeds and decodes, and no prior delivery is recorded |
| WriteTarget.ExecuteAll | lib/chainlink-evm/core/services/relay/evm/write_target_test.go:218-268 | invocations sharing a transaction manager give one response each, equal to what that invocation alone answers; the manager ends with its earlier calls followed by exactly one request per invocation meeting the create conditions, built from that invocation's report and signatures, in order |
| WriteTarget.ResponseIgnoresHistory | lib/chainlink-evm/core/services/relay/evm/write_target_test.go:253-268 | an invocation's response does not depend on the calls the shared transaction manager already recorded |
| WriteTarget.StartRelayer | lib/chainlink-evm/core/services/relay/evm/write_target_test.go:132-299 | startup keeps the registry's entries and adds exactly one write target, bound to the chain and both addresses, iff the sender and forwarder addresses are both set; otherwise it adds none and does not fail |
| WriteTarget.EvmWriteScenario | lib/chainlink-evm/core/services/relay/evm/write_target_test.go:166-268 | the three sub-tests on one manager, with the zero record as chain answer: the valid request is submitted with its report and empty signatures, "invalid-address" is refused, and the manager error surfaces; exactly two calls are recorded |

## Left out

- The report envelope (`ReportV1Metadata.Encode`) is not part of this model. The raw report is carried as opaque bytes.
- The forwarder contract's ABI packing of the `report` call is left out: it is a foreign library. The payload is modelled as the pair (raw report, signatures). The report context is not carried in it.
- Address validity is a parameter of `Execute`. EIP-55 checksum validation needs Keccak-256 and is left out. `IsHexAddress` is only a syntactic stand-in (`0x` and 40 hex digits) used by the scenario.
- How the transmission id is derived from the report is left out. The chain read is a parameter, so the lookup key is not modelled.
- `GetTransactionStatus`, and status tracking in general, is left out. The test only stubs it as finalized.
- The capability registry's own checks, such as duplicate capability ids, are left out. The registry is a sequence that startup appends to.
- Mocks, key store, database, log poller, head tracker, gas estimator and the service lifecycle are left out as I/O and test scaffolding.
- Context cancellation and concurrency between invocations are left out.
- The deployment changesets (contract deployment, the fee-manager withdraw wrapper and the data-feeds state lookups) are left out. They are chain I/O and orchestration with no local logic.
- WriteTarget.DeliveredIsNotResubmitted: the rule "success flag set and transmitter non-zero means already delivered" is a modelling choice, because the implementation is not part of this model. Other record states, such as attempted but failed, are resubmitted.
- WriteTarget.Execute: a per-request gas limit in the `Config` map is not modelled. Every created request uses the capability's default gas limit.
- TransmissionInfoCodec.Encode: a nil `GasLimit` is not modelled. In Go, `info.GasLimit.Bytes()` panics with a nil dereference, but the model's gas limit is an integer and is never absent.
- TransmissionInfoCodec.Decode is stricter than a plain field reader: it also refuses non-zero slot padding. This is what makes it the exact inverse of `Encode`.
