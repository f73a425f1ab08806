/** The response frame of `respond`: `pack('nn', 2, (int)$status)`. */
module Response {
  import opened Wrappers
  import opened Octets

  /** The four bytes written for one outcome: the length 2, then 1 for true
      and 0 for false, both big-endian. */
  function Encode(status: bool): (frame: Bytes)
    ensures |frame| == 4
    ensures Unpack16(frame[0], frame[1]) == 2
    ensures Unpack16(frame[2], frame[3]) == if status then 1 else 0
  {
    Pack16(2) + Pack16(if status then 1 else 0)
  }

  /** How the host reads a response frame: length 2, status 0 or 1. */
  function Decode(frame: Bytes): Option<bool>
  {
    if |frame| == 4 && Unpack16(frame[0], frame[1]) == 2 && Unpack16(frame[2], frame[3]) <= 1
    then Some(Unpack16(frame[2], frame[3]) == 1)
    else None
  }

  /** The exact wire bytes of the two responses. */
  lemma WireBytes()
    ensures Encode(true) == [0x00, 0x02, 0x00, 0x01]
    ensures Encode(false) == [0x00, 0x02, 0x00, 0x00]
  {
    assert Pack16(2) == [0, 2];
    assert Pack16(1) == [0, 1];
    assert Pack16(0) == [0, 0];
  }

  /** Reading a response back gives the status written, and only the
      encoding of a status reads as that status. */
  lemma DecodeEncode(frame: Bytes, status: bool)
    ensures Decode(frame) == Some(status) <==> frame == Encode(status)
  {
    if Decode(frame) == Some(status) {
      PackUnpack(frame[0], frame[1]);
      PackUnpack(frame[2], frame[3]);
      assert frame == [frame[0], frame[1]] + [frame[2], frame[3]];
    }
  }

  /** Everything written for a run of outcomes: one frame per outcome, in order. */
  function Responses(statuses: seq<bool>): (out: Bytes)
    ensures |out| == 4 * |statuses|
    ensures forall i :: 0 <= i < |statuses| ==> out[4 * i .. 4 * i + 4] == Encode(statuses[i])
  {
    if statuses == [] then []
    else
      var rest := Responses(statuses[1..]);
      var out := Encode(statuses[0]) + rest;
      assert forall i :: 1 <= i < |statuses| ==> out[4 * i .. 4 * i + 4] == rest[4 * (i - 1) .. 4 * (i - 1) + 4];
      out
  }

  /** One more status puts its frame in front of the others. */
  lemma ResponsesCons(status: bool, statuses: seq<bool>)
    ensures Responses([status] + statuses) == Encode(status) + Responses(statuses)
  {
    assert ([status] + statuses)[1..] == statuses;
  }

  /** How the host reads a whole output stream: consecutive response frames. */
  function DecodeAll(out: Bytes): Option<seq<bool>>
  {
    if out == [] then Some([])
    else if |out| < 4 then None
    else match (Decode(out[..4]), DecodeAll(out[4..]))
      case (Some(s), Some(rest)) => Some([s] + rest)
      case _ => None
  }

  /** The output stream reads back as the outcomes, in order. */
  lemma {:induction false} DecodeAllResponses(statuses: seq<bool>)
    ensures DecodeAll(Responses(statuses)) == Some(statuses)
  {
    if statuses != [] {
      var out := Responses(statuses);
      assert out[..4] == Encode(statuses[0]);
      assert out[4..] == Responses(statuses[1..]);
      DecodeEncode(out[..4], statuses[0]);
      DecodeAllResponses(statuses[1..]);
      assert [statuses[0]] + statuses[1..] == statuses;
    }
  }
}
