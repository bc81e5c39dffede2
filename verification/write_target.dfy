/**
  The write-target capability as the relayer test observes it: startup
  registration with the capability registry, and `Execute`, which validates
  the forwarder address, consults the chain's transmission record and hands
  one transaction to the transaction manager.

  The collaborators are explicit: the address validator is a predicate
  parameter, the chain read is the raw answer of the `getTransmissionInfo`
  call, and the transaction manager is a fake that answers with a canned
  result and records every `CreateTransaction` request it receives.
 */
module WriteTarget {
  import opened Wrappers
  import opened BigEndian
  import opened TransmissionInfoCodec

  /** The forwarder `report` call payload, reduced to what the test unpacks from it. */
  datatype ReportCall = ReportCall(rawReport: seq<Byte>, signatures: seq<seq<Byte>>)

  /** The `signed_report` input map. */
  datatype SignedReport = SignedReport(
    report: seq<Byte>,
    signatures: seq<seq<Byte>>,
    context: seq<Byte>,
    id: seq<Byte>
  )

  /** A capability request: its `Config` map and its `signed_report` input. */
  datatype Request = Request(config: map<string, string>, inputs: SignedReport)

  /** What the transaction manager is asked to create. */
  datatype TxRequest = TxRequest(from: Address, to: string, payload: ReportCall, gasLimit: nat)

  /** The handle the transaction manager returns for a created transaction. */
  type TxHandle = nat

  /** The fake transaction manager: every `CreateTransaction` request, in order. */
  datatype TxManager = TxManager(calls: seq<TxRequest>)

  /** A registered write-target capability, bound to one chain's sender and forwarder. */
  datatype Capability = WriteTargetCapability(chainId: nat, from: Address, forwarder: Address)

  /** The chain-scoped workflow configuration: both addresses are optional. */
  datatype ChainConfig = ChainConfig(
    chainId: nat,
    fromAddress: Option<Address>,
    forwarderAddress: Option<Address>
  )

  datatype ExecuteError =
    | InvalidConfig(address: Option<string>)
    | ChainReadError(cause: string)
    | MalformedTransmissionInfo(decodeError: DecodeError)
    | SubmissionError(cause: string)

  datatype ExecuteOk =
    | Submitted(handle: TxHandle)
    | AlreadyTransmitted

  datatype Outcome = Outcome(response: Result<ExecuteOk, ExecuteError>, txm: TxManager)

  const AddressKey: string := "Address"

  /** The on-chain record says the report was already delivered by some transmitter. */
  predicate Delivered(info: TransmissionInfo) {
    info.success && info.transmitter != Zeros(AddressLength)
  }

  /** The config carries an `Address` that the validator accepts. */
  predicate HasValidAddress(validAddress: string -> bool, config: map<string, string>) {
    AddressKey in config && validAddress(config[AddressKey])
  }

  /**
    The conditions under which `Execute` creates a transaction: a valid
    address, a chain answer that decodes, and no recorded delivery.
   */
  predicate Creates(validAddress: string -> bool, config: map<string, string>, chainRead: Result<seq<Byte>, string>) {
    && HasValidAddress(validAddress, config)
    && chainRead.Success? && Decode(chainRead.value).Success?
    && !Delivered(Decode(chainRead.value).value)
  }

  /** The request the capability submits for a signed report. */
  function BuildRequest(cap: Capability, to: string, gasLimit: nat, inputs: SignedReport): TxRequest {
    TxRequest(cap.from, to, ReportCall(inputs.report, inputs.signatures), gasLimit)
  }

  /** The configured forwarder address, if present and accepted by the validator. */
  function ValidatedAddress(validAddress: string -> bool, config: map<string, string>): (r: Result<string, ExecuteError>)
    ensures r.Success? <==> AddressKey in config && validAddress(config[AddressKey])
    ensures r.Success? ==> r.value == config[AddressKey]
  {
    if AddressKey !in config then Failure(InvalidConfig(None))
    else if !validAddress(config[AddressKey]) then Failure(InvalidConfig(Some(config[AddressKey])))
    else Success(config[AddressKey])
  }

  /**
    One `Execute` call. `chainRead` is the raw answer to the transmission-info
    query and `txAnswer` is what the transaction manager answers to a create.
   */
  function Execute(
    cap: Capability,
    gasLimitDefault: nat,
    validAddress: string -> bool,
    chainRead: Result<seq<Byte>, string>,
    txAnswer: Result<TxHandle, string>,
    txm: TxManager,
    req: Request
  ): (r: Outcome)
    // at most one create call, appended to what was there
    ensures |r.txm.calls| <= |txm.calls| + 1
    ensures txm.calls <= r.txm.calls
    // a created transaction carries the raw report and the signatures unchanged
    ensures |r.txm.calls| == |txm.calls| + 1 ==>
      var call := r.txm.calls[|txm.calls|];
      && call.payload.rawReport == req.inputs.report
      && call.payload.signatures == req.inputs.signatures
      && call.from == cap.from
      && call.gasLimit == gasLimitDefault
      && AddressKey in req.config && call.to == req.config[AddressKey]
    // a new submission is reported only when it was created and accepted
    ensures r.response.Success? && r.response.value.Submitted? <==>
      |r.txm.calls| == |txm.calls| + 1 && txAnswer.Success?
    ensures r.response.Success? && r.response.value.Submitted? ==> r.response.value.handle == txAnswer.value
    // each failure before submission is reported as such, and touches nothing
    ensures !HasValidAddress(validAddress, req.config) ==>
      r.response.Failure? && r.response.error.InvalidConfig? && r.txm == txm
    ensures HasValidAddress(validAddress, req.config) && chainRead.Failure? ==>
      r.response == Failure(ChainReadError(chainRead.error)) && r.txm == txm
    ensures HasValidAddress(validAddress, req.config) && chainRead.Success? && Decode(chainRead.value).Failure? ==>
      r.response == Failure(MalformedTransmissionInfo(Decode(chainRead.value).error)) && r.txm == txm
    // the only success without a create call is the already-delivered short circuit
    ensures r.response == Success(AlreadyTransmitted) <==>
      && HasValidAddress(validAddress, req.config)
      && chainRead.Success? && Decode(chainRead.value).Success?
      && Delivered(Decode(chainRead.value).value)
    ensures r.response == Success(AlreadyTransmitted) ==> r.txm == txm
  {
    match ValidatedAddress(validAddress, req.config)
    case Failure(e) => Outcome(Failure(e), txm)
    case Success(to) =>
      match chainRead
      case Failure(cause) => Outcome(Failure(ChainReadError(cause)), txm)
      case Success(raw) =>
        match Decode(raw)
        case Failure(de) => Outcome(Failure(MalformedTransmissionInfo(de)), txm)
        case Success(info) =>
          if Delivered(info) then Outcome(Success(AlreadyTransmitted), txm)
          else
            var call := BuildRequest(cap, to, gasLimitDefault, req.inputs);
            var txm' := TxManager(txm.calls + [call]);
            match txAnswer
            case Failure(cause) => Outcome(Failure(SubmissionError(cause)), txm')
            case Success(h) => Outcome(Success(Submitted(h)), txm')
  }

  /**
    Relayer startup: the write target is added to the registry exactly when
    both the sender and the forwarder address are configured; otherwise
    registration is skipped without failing startup.
   */
  function StartRelayer(cfg: ChainConfig, registry: seq<Capability>): (r: seq<Capability>)
    ensures registry <= r
    ensures |r| == |registry| + 1 <==> cfg.fromAddress.Some? && cfg.forwarderAddress.Some?
    ensures |r| == |registry| <==> cfg.fromAddress.None? || cfg.forwarderAddress.None?
    ensures |r| == |registry| + 1 ==>
      r[|registry|] == WriteTargetCapability(cfg.chainId, cfg.fromAddress.value, cfg.forwarderAddress.value)
  {
    match (cfg.fromAddress, cfg.forwarderAddress)
    case (Some(from), Some(fwd)) => registry + [WriteTargetCapability(cfg.chainId, from, fwd)]
    case _ => registry
  }

  /** An invalid or missing `Address` fails with `InvalidConfig` before any chain read or submission. */
  lemma InvalidAddressFails(
    cap: Capability, gasLimitDefault: nat, validAddress: string -> bool,
    chainRead: Result<seq<Byte>, string>, txAnswer: Result<TxHandle, string>,
    txm: TxManager, req: Request)
    requires AddressKey !in req.config || !validAddress(req.config[AddressKey])
    ensures var r := Execute(cap, gasLimitDefault, validAddress, chainRead, txAnswer, txm, req);
      r.response.Failure? && r.response.error.InvalidConfig? && r.txm == txm
  {
  }

  /** A transaction-manager error fails the invocation, carrying that error, after exactly one create call. */
  lemma SubmissionErrorPropagates(
    cap: Capability, gasLimitDefault: nat, validAddress: string -> bool,
    raw: seq<Byte>, cause: string, txm: TxManager, req: Request)
    requires AddressKey in req.config && validAddress(req.config[AddressKey])
    requires Decode(raw).Success? && !Delivered(Decode(raw).value)
    ensures var r := Execute(cap, gasLimitDefault, validAddress, Success(raw), Failure(cause), txm, req);
      r.response == Failure(SubmissionError(cause)) && |r.txm.calls| == |txm.calls| + 1
  {
  }

  /** A report the chain already records as delivered is not submitted again. */
  lemma DeliveredIsNotResubmitted(
    cap: Capability, gasLimitDefault: nat, validAddress: string -> bool,
    raw: seq<Byte>, txAnswer: Result<TxHandle, string>, txm: TxManager, req: Request)
    requires AddressKey in req.config && validAddress(req.config[AddressKey])
    requires Decode(raw).Success? && Delivered(Decode(raw).value)
    ensures var r := Execute(cap, gasLimitDefault, validAddress, Success(raw), txAnswer, txm, req);
      r.response == Success(AlreadyTransmitted) && r.txm == txm
  {
  }

  /**
    A create call is made exactly when the address is valid, the chain read
    succeeds and decodes, and the record does not show a delivery.
   */
  lemma SubmitsIff(
    cap: Capability, gasLimitDefault: nat, validAddress: string -> bool,
    chainRead: Result<seq<Byte>, string>, txAnswer: Result<TxHandle, string>,
    txm: TxManager, req: Request)
    ensures var r := Execute(cap, gasLimitDefault, validAddress, chainRead, txAnswer, txm, req);
      |r.txm.calls| == |txm.calls| + 1 <==> Creates(validAddress, req.config, chainRead)
  {
  }

  /** The response of an invocation does not depend on earlier calls to the transaction manager. */
  lemma ResponseIgnoresHistory(
    cap: Capability, gasLimitDefault: nat, validAddress: string -> bool,
    chainRead: Result<seq<Byte>, string>, txAnswer: Result<TxHandle, string>,
    txm: TxManager, txm': TxManager, req: Request)
    ensures Execute(cap, gasLimitDefault, validAddress, chainRead, txAnswer, txm, req).response
         == Execute(cap, gasLimitDefault, validAddress, chainRead, txAnswer, txm', req).response
  {
  }

  /** A sequence of invocations, each with its own chain answer and transaction-manager answer. */
  datatype Invocation = Invocation(
    req: Request,
    chainRead: Result<seq<Byte>, string>,
    txAnswer: Result<TxHandle, string>
  )

  /**
    Reference definition of the create calls a run of invocations makes:
    one request, built from the invocation's own signed report, for each
    invocation that meets `Creates`, in order.
   */
  function CreatedCalls(cap: Capability, gasLimitDefault: nat, validAddress: string -> bool, invs: seq<Invocation>): (r: seq<TxRequest>)
    ensures |r| <= |invs|
    decreases |invs|
  {
    if |invs| == 0 then []
    else
      var inv := invs[0];
      var here := if Creates(validAddress, inv.req.config, inv.chainRead)
        then [BuildRequest(cap, inv.req.config[AddressKey], gasLimitDefault, inv.req.inputs)]
        else [];
      here + CreatedCalls(cap, gasLimitDefault, validAddress, invs[1..])
  }

  /**
    Runs the invocations in order against one shared transaction manager:
    each response is what that invocation alone would answer, and the
    manager ends up with exactly the calls `CreatedCalls` names, after the
    ones it already had.
   */
  function ExecuteAll(
    cap: Capability, gasLimitDefault: nat, validAddress: string -> bool,
    invs: seq<Invocation>, txm: TxManager
  ): (r: (seq<Result<ExecuteOk, ExecuteError>>, TxManager))
    ensures |r.0| == |invs|
    ensures forall i | 0 <= i < |invs| ::
      r.0[i] == Execute(cap, gasLimitDefault, validAddress, invs[i].chainRead, invs[i].txAnswer, TxManager([]), invs[i].req).response
    ensures r.1.calls == txm.calls + CreatedCalls(cap, gasLimitDefault, validAddress, invs)
    decreases |invs|
  {
    if |invs| == 0 then ([], txm)
    else
      var first := Execute(cap, gasLimitDefault, validAddress, invs[0].chainRead, invs[0].txAnswer, txm, invs[0].req);
      var rest := ExecuteAll(cap, gasLimitDefault, validAddress, invs[1..], first.txm);
      ResponseIgnoresHistory(cap, gasLimitDefault, validAddress, invs[0].chainRead, invs[0].txAnswer, txm, TxManager([]), invs[0].req);
      SubmitsIff(cap, gasLimitDefault, validAddress, invs[0].chainRead, invs[0].txAnswer, txm, invs[0].req);
      var r := ([first.response] + rest.0, rest.1);
      forall i | 0 < i < |invs|
        ensures r.0[i] == Execute(cap, gasLimitDefault, validAddress, invs[i].chainRead, invs[i].txAnswer, TxManager([]), invs[i].req).response
      {
        assert invs[1..][i - 1] == invs[i];
      }
      r
  }

  function IsHexDigit(c: char): bool {
    ('0' <= c <= '9') || ('a' <= c <= 'f') || ('A' <= c <= 'F')
  }

  /**
    A syntactic stand-in for the address validator: `0x` followed by 40
    hexadecimal digits. The checksum test is not part of it.
   */
  predicate IsHexAddress(s: string) {
    && |s| == 2 + 2 * AddressLength
    && s[0] == '0' && (s[1] == 'x' || s[1] == 'X')
    && forall i :: 2 <= i < |s| ==> IsHexDigit(s[i])
  }

  /** A fresh report with a valid address is submitted once, and the manager's handle is returned. */
  lemma FreshReportSubmitted(
    cap: Capability, gasLimitDefault: nat, validAddress: string -> bool,
    raw: seq<Byte>, h: TxHandle, txm: TxManager, req: Request)
    requires AddressKey in req.config && validAddress(req.config[AddressKey])
    requires Decode(raw).Success? && !Delivered(Decode(raw).value)
    ensures Execute(cap, gasLimitDefault, validAddress, Success(raw), Success(h), txm, req)
      == Outcome(Success(Submitted(h)),
                 TxManager(txm.calls + [BuildRequest(cap, req.config[AddressKey], gasLimitDefault, req.inputs)]))
  {
  }

  /**
    The three `Execute` sub-tests run in order against one transaction
    manager whose chain read answers with the zero transmission record:
    a valid request is submitted with its report and signatures, the
    address "invalid-address" is refused without a call, and a
    transaction-manager error fails the third request after its one call.
   */
  lemma {:induction false} EvmWriteScenario(cap: Capability, forwarder: string, report: seq<Byte>, h: TxHandle)
    requires IsHexAddress(forwarder)
    ensures
      var valid := Request(map[AddressKey := forwarder], SignedReport(report, [], [4, 5], [0, 1]));
      var invalid := Request(map[AddressKey := "invalid-address"], SignedReport(report, [], [4, 5], [0, 1]));
      var chain := Success(MockedEncodeTransmissionInfo().value);
      var invs := [
        Invocation(valid, chain, Success(h)),
        Invocation(invalid, chain, Success(h)),
        Invocation(valid, chain, Failure("TXM error"))
      ];
      var call := TxRequest(cap.from, forwarder, ReportCall(report, []), 400000);
      ExecuteAll(cap, 400000, IsHexAddress, invs, TxManager([]))
        == ([Success(Submitted(h)),
             Failure(InvalidConfig(Some("invalid-address"))),
             Failure(SubmissionError("TXM error"))],
            TxManager([call, call]))
  {
    var valid := Request(map[AddressKey := forwarder], SignedReport(report, [], [4, 5], [0, 1]));
    var invalid := Request(map[AddressKey := "invalid-address"], SignedReport(report, [], [4, 5], [0, 1]));
    var raw := MockedEncodeTransmissionInfo().value;
    var chain := Success(raw);
    var i1 := Invocation(valid, chain, Success(h));
    var i2 := Invocation(invalid, chain, Success(h));
    var i3 := Invocation(valid, chain, Failure("TXM error"));
    var invs := [i1, i2, i3];
    MockedAnswerDecodes();
    assert Decode(raw).Success? && !Delivered(Decode(raw).value);
    assert !IsHexAddress("invalid-address");
    assert Creates(IsHexAddress, valid.config, chain);
    assert !Creates(IsHexAddress, invalid.config, chain);
    var call := TxRequest(cap.from, forwarder, ReportCall(report, []), 400000);
    FreshReportSubmitted(cap, 400000, IsHexAddress, raw, h, TxManager([]), valid);
    SubmissionErrorPropagates(cap, 400000, IsHexAddress, raw, "TXM error", TxManager([]), valid);
    var r := ExecuteAll(cap, 400000, IsHexAddress, invs, TxManager([]));
    assert r.0[0] == Success(Submitted(h)) by { assert invs[0] == i1; }
    assert r.0[1] == Failure(InvalidConfig(Some("invalid-address"))) by { assert invs[1] == i2; }
    assert r.0[2] == Failure(SubmissionError("TXM error")) by { assert invs[2] == i3; }
    assert r.0 == [Success(Submitted(h)), Failure(InvalidConfig(Some("invalid-address"))), Failure(SubmissionError("TXM error"))];
    assert invs[1..] == [i2, i3] && invs[1..][1..] == [i3] && invs[1..][1..][1..] == [];
    assert CreatedCalls(cap, 400000, IsHexAddress, [i3]) == [call] by {
      assert [i3][1..] == [];
      assert CreatedCalls(cap, 400000, IsHexAddress, []) == [];
    }
    assert CreatedCalls(cap, 400000, IsHexAddress, [i2, i3]) == [call] by {
      assert [i2, i3][1..] == [i3];
    }
    assert CreatedCalls(cap, 400000, IsHexAddress, invs) == [call, call];
  }
}
