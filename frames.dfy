module Frames {
  import opened Bytes
  import opened ByteBuffers
  import Fragments

  /** A received RELP frame: its five fields, each a fragment of the input. */
  datatype RelpFrame = RelpFrame(
    txn: Fragments.Fragment,
    command: Fragments.Fragment,
    payloadLength: Fragments.Fragment,
    payload: Fragments.Fragment,
    endOfTransfer: Fragments.Fragment)

  /** The one-byte fragment written between the header fields. */
  function Space(): (f: Fragments.Fragment)
    ensures Fragments.Content(f) == [SP]
  {
    Fragments.FromBytes([SP])
  }

  /** `isStub`: a frame built from fields is never the stub. */
  function IsStub(frame: RelpFrame): (stub: bool)
    ensures !stub
  {
    false
  }

  /** The fragments written out, in wire order: the header fields separated by spaces, then the payload and its trailer. */
  function Parts(frame: RelpFrame): (parts: seq<Fragments.Fragment>)
    ensures |parts| == 8
  {
    [frame.txn, Space(), frame.command, Space(), frame.payloadLength, Space(), frame.payload, frame.endOfTransfer]
  }

  /** The read-only views each part exports, one list per part. */
  function Plans(parts: seq<Fragments.Fragment>): (plans: seq<seq<Slice>>)
    ensures |plans| == |parts|
    ensures forall i :: 0 <= i < |parts| ==> plans[i] == Fragments.WritePlan(parts[i].slices)
  {
    seq(|parts|, i requires 0 <= i < |parts| => Fragments.WritePlan(parts[i].slices))
  }

  /** The bytes a list of writeables puts on the wire when each is written in turn. */
  function WireBytes(plans: seq<seq<Slice>>): seq<byte>
  {
    if plans == [] then [] else WireBytes(plans[..|plans| - 1]) + Concat(plans[|plans| - 1])
  }

  /** The parts' contents, joined in order. */
  function Joined(parts: seq<Fragments.Fragment>): seq<byte>
  {
    if parts == [] then [] else Joined(parts[..|parts| - 1]) + Fragments.Content(parts[|parts| - 1])
  }

  /** Writing the parts' exported views writes exactly their contents, in order. */
  lemma {:induction false} WirePlansJoin(parts: seq<Fragments.Fragment>)
    ensures WireBytes(Plans(parts)) == Joined(parts)
  {
    if parts != [] {
      var n := |parts| - 1;
      assert Plans(parts)[..n] == Plans(parts[..n]);
      Fragments.ConcatWritePlan(parts[n].slices);
      WirePlansJoin(parts[..n]);
    }
  }

  lemma JoinedStep(parts: seq<Fragments.Fragment>, k: nat)
    requires k < |parts|
    ensures Joined(parts[..k + 1]) == Joined(parts[..k]) + Fragments.Content(parts[k])
  {
    assert parts[..k + 1][..k] == parts[..k];
  }

  /** Spelled out for the eight parts of a frame. */
  lemma JoinedParts(frame: RelpFrame)
    ensures Joined(Parts(frame)) ==
      Fragments.Content(frame.txn) + [SP] + Fragments.Content(frame.command) + [SP]
      + Fragments.Content(frame.payloadLength) + [SP] + Fragments.Content(frame.payload)
      + Fragments.Content(frame.endOfTransfer)
  {
    var parts := Parts(frame);
    var sp := Fragments.Content(Space());
    assert sp == [SP];
    JoinedStep(parts, 0);
    assert Joined(parts[..1]) == Fragments.Content(frame.txn);
    JoinedStep(parts, 1);
    assert Joined(parts[..2]) == Fragments.Content(frame.txn) + sp;
    JoinedStep(parts, 2);
    assert Joined(parts[..3]) == Fragments.Content(frame.txn) + sp + Fragments.Content(frame.command);
    JoinedStep(parts, 3);
    assert Joined(parts[..4]) == Fragments.Content(frame.txn) + sp + Fragments.Content(frame.command) + sp;
    JoinedStep(parts, 4);
    assert Joined(parts[..5]) == Fragments.Content(frame.txn) + sp + Fragments.Content(frame.command) + sp
      + Fragments.Content(frame.payloadLength);
    JoinedStep(parts, 5);
    assert Joined(parts[..6]) == Fragments.Content(frame.txn) + sp + Fragments.Content(frame.command) + sp
      + Fragments.Content(frame.payloadLength) + sp;
    JoinedStep(parts, 6);
    assert Joined(parts[..7]) == Fragments.Content(frame.txn) + sp + Fragments.Content(frame.command) + sp
      + Fragments.Content(frame.payloadLength) + sp + Fragments.Content(frame.payload);
    JoinedStep(parts, 7);
    assert parts[..8] == parts;
  }

  /** `toWriteable`: one writeable per part, in wire order; written in turn they put txn SP command SP payloadLength SP payload and then the trailer on the wire. */
  function ToWriteable(frame: RelpFrame): (plans: seq<seq<Slice>>)
    ensures |plans| == 8
    ensures forall i :: 0 <= i < 8 ==> plans[i] == Fragments.WritePlan(Parts(frame)[i].slices)
    ensures WireBytes(plans) ==
      Fragments.Content(frame.txn) + [SP] + Fragments.Content(frame.command) + [SP]
      + Fragments.Content(frame.payloadLength) + [SP] + Fragments.Content(frame.payload)
      + Fragments.Content(frame.endOfTransfer)
  {
    WirePlansJoin(Parts(frame));
    JoinedParts(frame);
    Plans(Parts(frame))
  }

  /** Transaction 1, command "open", payload "test": the wire bytes are "1 open 4 test\n". */
  lemma OpenFrameOnTheWire()
    ensures var frame := RelpFrame(
        Fragments.FromBytes([0x31]),
        Fragments.FromBytes([0x6F, 0x70, 0x65, 0x6E]),
        Fragments.FromBytes([0x34]),
        Fragments.FromBytes([0x74, 0x65, 0x73, 0x74]),
        Fragments.FromBytes([LF]));
      WireBytes(ToWriteable(frame)) ==
        [0x31, SP, 0x6F, 0x70, 0x65, 0x6E, SP, 0x34, SP, 0x74, 0x65, 0x73, 0x74, LF]
  {
  }
}
