/** DDP segments, RDMAP messages and the datagrams that carry them. */
module Ddp {
  import opened Iov

  /** The parameters of one RDMA READ: where its data goes and where it comes from. */
  datatype ReadInfo = ReadInfo(sinkStag: nat, sinkTo: nat, size: nat, srcStag: nat, srcTo: nat)

  datatype Segment =
    | SendSeg(msn: nat, mo: nat, last: bool, data: seq<byte>)
    | WriteSeg(stag: nat, to: nat, last: bool, data: seq<byte>)
    | ReadReq(msn: nat, req: ReadInfo)
    | ReadResp(stag: nat, to: nat, last: bool, data: seq<byte>)

  /** ddp_length: the payload bytes that an acknowledgement of the segment accounts for. */
  function DdpLength(s: Segment): nat {
    if s.ReadReq? then 0 else |s.data|
  }

  /** A segment that carries data has at most mtu bytes, and exactly as many unless it is the last. */
  predicate Cut(s: Segment, mtu: nat) {
    !s.ReadReq? ==> |s.data| <= mtu && (!s.last ==> |s.data| == mtu)
  }

  /** On whose behalf a datagram was sent: a send work request, by posting index, or the
      response to the READ with a given MSN. */
  datatype Owner = ByWqe(w: nat) | ByRead(msn: nat)

  /** An entry of the retransmit ring. */
  datatype Pending = Pending(seg: Segment, owner: Owner)

  datatype Datagram =
    | Data(psn: nat, ack: nat, seg: Segment)
    | Ack(psn: nat, ack: nat)
    | Sack(lo: nat, hi: nat)
}
