/**
  The hand-rolled byte layout of the forwarder's transmission record, as the
  write-target test builds the on-chain answer to `getTransmissionInfo`:

    bytes   0..80   gas limit, left zero-padded minimal big-endian magnitude
    byte   80       invalid-receiver flag (0/1), then 31 zero bytes
    byte  112       state, then 31 zero bytes
    byte  144       success flag (0/1), then 31 zero bytes
    bytes 176..208  transmission id
    bytes 208..228  transmitter address

  This is not the contract ABI encoding: flags sit at the start of their
  slot and the address is not padded.
 */
module TransmissionInfoCodec {
  import opened Wrappers
  import opened BigEndian

  const GasLimitWidth: nat := 80
  const SlotWidth: nat := 32
  const AddressLength: nat := 20

  const InvalidReceiverOffset: nat := GasLimitWidth
  const StateOffset: nat := InvalidReceiverOffset + SlotWidth
  const SuccessOffset: nat := StateOffset + SlotWidth
  const TransmissionIdOffset: nat := SuccessOffset + SlotWidth
  const TransmitterOffset: nat := TransmissionIdOffset + SlotWidth
  /** 80 + 32 + 32 + 32 + 32 + 20 */
  const EncodedLength: nat := TransmitterOffset + AddressLength

  /** A 32-byte identifier (`[32]byte`). */
  type Bytes32 = s: seq<Byte> | |s| == 32 witness Zeros(32)

  /** A 20-byte chain address (`common.Address`). */
  type Address = s: seq<Byte> | |s| == 20 witness Zeros(20)

  /**
    The transmission record. `gasLimit` is the value of Go's non-nil
    `*big.Int`, so it may be negative but never nil; `state` is a `uint8`.
   */
  datatype TransmissionInfo = TransmissionInfo(
    gasLimit: int,
    invalidReceiver: bool,
    state: Byte,
    success: bool,
    transmissionId: Bytes32,
    transmitter: Address
  )

  datatype EncodeError = GasLimitTooLarge

  datatype DecodeError =
    | WrongLength(length: nat)
    | NotAFlag(offset: nat)
    | NonZeroPadding(offset: nat)

  /** The record the test hard-codes: zero gas, all flags false, zero id and address. */
  function ZeroInfo(): TransmissionInfo {
    TransmissionInfo(0, false, 0, false, Zeros(32), Zeros(20))
  }

  function FlagByte(b: bool): Byte {
    if b then 1 else 0
  }

  /** A one-byte value at the start of a 32-byte slot. */
  function Slot(b: Byte): (r: seq<Byte>)
    ensures |r| == SlotWidth && r[0] == b && IsZeros(r[1..])
  {
    [b] + Zeros(SlotWidth - 1)
  }

  /** The gas-limit field: the magnitude's minimal bytes, left-padded to 80. */
  function GasLimitField(g: int): Result<seq<Byte>, EncodeError> {
    var mag := ToBytes(Abs(g));
    if |mag| > GasLimitWidth then Failure(GasLimitTooLarge)
    else Success(Zeros(GasLimitWidth - |mag|) + mag)
  }

  /** The encoder of `newMockedEncodeTransmissionInfo`, generic in the record. */
  function Encode(info: TransmissionInfo): (r: Result<seq<Byte>, EncodeError>)
    ensures r.Success? <==> Abs(info.gasLimit) < Pow256(GasLimitWidth)
    ensures r.Failure? ==> r.error == GasLimitTooLarge
    ensures r.Success? ==> |r.value| == EncodedLength
  {
    ToBytesFits(Abs(info.gasLimit), GasLimitWidth);
    var gas :- GasLimitField(info.gasLimit);
    Success(Layout(gas, info))
  }

  /** The encoded gas-limit field followed by the other five fields of `info`. */
  function Layout(gas: seq<Byte>, info: TransmissionInfo): seq<Byte> {
    gas
      + Slot(FlagByte(info.invalidReceiver))
      + Slot(info.state)
      + Slot(FlagByte(info.success))
      + info.transmissionId
      + info.transmitter
  }

  /** `newMockedEncodeTransmissionInfo` itself: the zero record, encoded. */
  function MockedEncodeTransmissionInfo(): (r: Result<seq<Byte>, EncodeError>)
    ensures r == Success(Zeros(EncodedLength))
  {
    var r := Encode(ZeroInfo());
    assert r.value == Zeros(EncodedLength);
    r
  }

  function DecodeFlag(b: Byte): Option<bool> {
    if b == 0 then Some(false) else if b == 1 then Some(true) else None
  }

  /**
    The inverse of `Encode`: accepts exactly the 228-byte strings whose flag
    bytes are 0 or 1 and whose slot padding is zero.
   */
  function Decode(s: seq<Byte>): (r: Result<TransmissionInfo, DecodeError>)
    ensures r.Success? ==> |s| == EncodedLength
    ensures r.Success? ==> r.value.gasLimit >= 0
  {
    if |s| != EncodedLength then Failure(WrongLength(|s|))
    else if DecodeFlag(s[InvalidReceiverOffset]).None? then Failure(NotAFlag(InvalidReceiverOffset))
    else if !IsZeros(s[InvalidReceiverOffset + 1..StateOffset]) then Failure(NonZeroPadding(InvalidReceiverOffset + 1))
    else if !IsZeros(s[StateOffset + 1..SuccessOffset]) then Failure(NonZeroPadding(StateOffset + 1))
    else if DecodeFlag(s[SuccessOffset]).None? then Failure(NotAFlag(SuccessOffset))
    else if !IsZeros(s[SuccessOffset + 1..TransmissionIdOffset]) then Failure(NonZeroPadding(SuccessOffset + 1))
    else Success(TransmissionInfo(
      FromBytes(s[..GasLimitWidth]),
      DecodeFlag(s[InvalidReceiverOffset]).value,
      s[StateOffset],
      DecodeFlag(s[SuccessOffset]).value,
      s[TransmissionIdOffset..TransmitterOffset],
      s[TransmitterOffset..]))
  }

  /** `x + y` splits back into `x` and `y` at `|x|`. */
  lemma SplitAt(x: seq<Byte>, y: seq<Byte>)
    ensures (x + y)[..|x|] == x && (x + y)[|x|..] == y
  {
  }

  /** A layout is the six fields laid end to end at their fixed offsets. */
  lemma LayoutParts(gas: seq<Byte>, info: TransmissionInfo)
    requires |gas| == GasLimitWidth
    ensures var s := Layout(gas, info);
      && |s| == EncodedLength
      && s[..GasLimitWidth] == gas
      && s[InvalidReceiverOffset..StateOffset] == Slot(FlagByte(info.invalidReceiver))
      && s[StateOffset..SuccessOffset] == Slot(info.state)
      && s[SuccessOffset..TransmissionIdOffset] == Slot(FlagByte(info.success))
      && s[TransmissionIdOffset..TransmitterOffset] == info.transmissionId
      && s[TransmitterOffset..] == info.transmitter
  {
    var a := Slot(FlagByte(info.invalidReceiver));
    var b := Slot(info.state);
    var c := Slot(FlagByte(info.success));
    var s5 := info.transmissionId + info.transmitter;
    var s4 := c + s5;
    var s3 := b + s4;
    var s2 := a + s3;
    assert Layout(gas, info) == gas + s2;
    SplitAt(gas, s2);
    SplitAt(a, s3);
    SplitAt(b, s4);
    SplitAt(c, s5);
    SplitAt(info.transmissionId, info.transmitter);
  }

  /** Field-by-field layout of a successful encoding. */
  lemma EncodedFields(info: TransmissionInfo)
    requires Encode(info).Success?
    ensures var s := Encode(info).value;
      && |s| == EncodedLength
      && FromBytes(s[..GasLimitWidth]) == Abs(info.gasLimit)
      && s[..GasLimitWidth] == Zeros(GasLimitWidth - |ToBytes(Abs(info.gasLimit))|) + ToBytes(Abs(info.gasLimit))
      && (s[InvalidReceiverOffset] == 1 <==> info.invalidReceiver)
      && (s[InvalidReceiverOffset] == 0 <==> !info.invalidReceiver)
      && IsZeros(s[InvalidReceiverOffset + 1..StateOffset])
      && s[StateOffset] == info.state
      && IsZeros(s[StateOffset + 1..SuccessOffset])
      && (s[SuccessOffset] == 1 <==> info.success)
      && (s[SuccessOffset] == 0 <==> !info.success)
      && IsZeros(s[SuccessOffset + 1..TransmissionIdOffset])
      && s[TransmissionIdOffset..TransmitterOffset] == info.transmissionId
      && s[TransmitterOffset..] == info.transmitter
  {
    var s := Encode(info).value;
    var mag := ToBytes(Abs(info.gasLimit));
    LayoutParts(GasLimitField(info.gasLimit).value, info);
    FromBytesPadded(GasLimitWidth - |mag|, mag);
    SlotContents(s, InvalidReceiverOffset, FlagByte(info.invalidReceiver));
    SlotContents(s, StateOffset, info.state);
    SlotContents(s, SuccessOffset, FlagByte(info.success));
  }

  /** Reading a slot's leading byte and padding out of the whole string. */
  lemma SlotContents(s: seq<Byte>, off: nat, b: Byte)
    requires off + SlotWidth <= |s|
    requires s[off..off + SlotWidth] == Slot(b)
    ensures s[off] == b
    ensures IsZeros(s[off + 1..off + SlotWidth])
  {
    assert s[off] == s[off..off + SlotWidth][0];
    assert s[off + 1..off + SlotWidth] == Slot(b)[1..];
  }

  /** Decoding an encoding gives the record back, with the gas limit's sign dropped. */
  lemma DecodeEncode(info: TransmissionInfo)
    requires Encode(info).Success?
    ensures Decode(Encode(info).value) == Success(info.(gasLimit := Abs(info.gasLimit)))
  {
    EncodedFields(info);
  }

  /** A slot whose padding is zero is the slot of its leading byte. */
  lemma SlotOf(s: seq<Byte>, off: nat)
    requires off + SlotWidth <= |s|
    requires IsZeros(s[off + 1..off + SlotWidth])
    ensures s[off..off + SlotWidth] == Slot(s[off])
  {
    var t := s[off..off + SlotWidth];
    forall i | 0 <= i < SlotWidth
      ensures t[i] == Slot(s[off])[i]
    {
      if i > 0 {
        assert t[i] == s[off + 1..off + SlotWidth][i - 1];
      }
    }
  }

  /** Two 228-byte strings that agree field by field are equal. */
  lemma EqualByParts(s: seq<Byte>, t: seq<Byte>)
    requires |s| == EncodedLength && |t| == EncodedLength
    requires s[..GasLimitWidth] == t[..GasLimitWidth]
    requires s[InvalidReceiverOffset..StateOffset] == t[InvalidReceiverOffset..StateOffset]
    requires s[StateOffset..SuccessOffset] == t[StateOffset..SuccessOffset]
    requires s[SuccessOffset..TransmissionIdOffset] == t[SuccessOffset..TransmissionIdOffset]
    requires s[TransmissionIdOffset..TransmitterOffset] == t[TransmissionIdOffset..TransmitterOffset]
    requires s[TransmitterOffset..] == t[TransmitterOffset..]
    ensures s == t
  {
    forall i | 0 <= i < EncodedLength
      ensures s[i] == t[i]
    {
      if i < InvalidReceiverOffset {
        assert s[i] == s[..GasLimitWidth][i] && t[i] == t[..GasLimitWidth][i];
      } else if i < StateOffset {
        var j := i - InvalidReceiverOffset;
        assert s[i] == s[InvalidReceiverOffset..StateOffset][j] && t[i] == t[InvalidReceiverOffset..StateOffset][j];
      } else if i < SuccessOffset {
        var j := i - StateOffset;
        assert s[i] == s[StateOffset..SuccessOffset][j] && t[i] == t[StateOffset..SuccessOffset][j];
      } else if i < TransmissionIdOffset {
        var j := i - SuccessOffset;
        assert s[i] == s[SuccessOffset..TransmissionIdOffset][j] && t[i] == t[SuccessOffset..TransmissionIdOffset][j];
      } else if i < TransmitterOffset {
        var j := i - TransmissionIdOffset;
        assert s[i] == s[TransmissionIdOffset..TransmitterOffset][j] && t[i] == t[TransmissionIdOffset..TransmitterOffset][j];
      } else {
        var j := i - TransmitterOffset;
        assert s[i] == s[TransmitterOffset..][j] && t[i] == t[TransmitterOffset..][j];
      }
    }
  }

  /** Every string `Decode` accepts is the layout of its own gas bytes and decoded fields. */
  lemma DecodedLayout(s: seq<Byte>)
    requires Decode(s).Success?
    ensures s == Layout(s[..GasLimitWidth], Decode(s).value)
  {
    var info := Decode(s).value;
    var t := Layout(s[..GasLimitWidth], info);
    LayoutParts(s[..GasLimitWidth], info);
    SlotOf(s, InvalidReceiverOffset);
    SlotOf(s, StateOffset);
    SlotOf(s, SuccessOffset);
    EqualByParts(s, t);
  }

  /** Encoding a decoded string reproduces it byte for byte. */
  lemma EncodeDecode(s: seq<Byte>)
    requires Decode(s).Success?
    ensures Encode(Decode(s).value) == Success(s)
  {
    var info := Decode(s).value;
    var gasBytes := s[..GasLimitWidth];
    PaddedToBytes(gasBytes);
    FromBytesBound(gasBytes);
    assert GasLimitField(info.gasLimit) == Success(gasBytes);
    DecodedLayout(s);
  }

  /** For a non-negative gas limit, decoding and encoding are exact inverses. */
  lemma DecodeIffEncode(s: seq<Byte>, info: TransmissionInfo)
    requires info.gasLimit >= 0
    ensures Decode(s) == Success(info) <==> Encode(info) == Success(s)
  {
    if Decode(s) == Success(info) {
      EncodeDecode(s);
    }
    if Encode(info) == Success(s) {
      DecodeEncode(info);
    }
  }

  /** The test's canned chain answer reads back as the zero record: nothing transmitted yet. */
  lemma MockedAnswerDecodes()
    ensures Decode(Zeros(EncodedLength)) == Success(ZeroInfo())
    ensures !Decode(Zeros(EncodedLength)).value.success
  {
    assert Encode(ZeroInfo()) == MockedEncodeTransmissionInfo();
    DecodeEncode(ZeroInfo());
  }
}
