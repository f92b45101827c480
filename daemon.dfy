// The daemon's state and its procedures: the global policy buffer with its
// length, read_policy, send_policy, and main (option handling, startup and
// the accept/send/close loop). System calls are oracle parameters.

module Daemon {
  import opened Kernel
  import opened PolicyStore
  import opened Options
  import opened ServeLoop

  /** How a run of main ends: with an exit status, or still in its accept
    * loop when the accepts supplied to it run out. */
  datatype Status = Exited(code: int) | StillServing

  /** The process-wide policy buffer (policy_data) and its fill level
    * (policy_len). */
  class PolicyServer {
    var policyData: array<byte>
    var policyLen: nat

    ghost predicate Valid()
      reads this
    {
      policyData.Length == MAX_POLICY_LEN && policyLen <= MAX_POLICY_LEN
    }

    /** The policy document: the filled part of the buffer. */
    function Contents(): seq<byte>
      reads this, policyData
      requires Valid()
    {
      policyData[..policyLen]
    }

    /** Static storage starts zeroed: an empty document. */
    constructor ()
      ensures Valid() && fresh(policyData) && Contents() == []
    {
      policyData := new byte[MAX_POLICY_LEN];
      policyLen := 0;
    }

    /** What a read of `request` bytes into policy_data + policyLen does to
      * the buffer when it returns the chunk `d`: the chunk is copied right
      * after the stored bytes, which stay as they were. The chunk is never
      * longer than the request, and the request never reaches past the end
      * of the buffer, so the copy stays inside it. */
    method Deposit(d: seq<byte>, request: nat)
      requires Valid() && request == MAX_POLICY_LEN - policyLen && |d| <= request
      modifies policyData
      ensures Valid()
      ensures policyData[..policyLen + |d|] == old(Contents()) + d
    {
      forall k | 0 <= k < |d| {
        policyData[policyLen + k] := d[k];
      }
      assert policyData[..policyLen] == old(Contents());
      assert policyData[policyLen..policyLen + |d|] == d;
      assert policyData[..policyLen + |d|] == policyData[..policyLen] + policyData[policyLen..policyLen + |d|];
    }

    /** Proof helper of SendPolicy: the next `sz` bytes of the document,
      * sliced out of the buffer here so that the array slicing stays out
      * of the drain loop's proof obligation. */
    method Outgoing(sent: nat, sz: nat) returns (chunk: seq<byte>)
      requires Valid() && sent + sz <= policyLen
      ensures chunk == Contents()[sent..sent + sz]
    {
      chunk := policyData[sent..sent + sz];
    }

    /** read_policy: `openOk` says whether open succeeded, `replies` are the
      * results of the reads. Each read asks for the free part of the buffer,
      * MAX_POLICY_LEN - policyLen bytes, and `asked` records those requests,
      * one per read issued (PolicyStore.FillAsksFreeRoom says what they
      * are). The chunk a read returns lands right after the bytes already
      * stored; the array bounds checks of that copy are the proof that the
      * buffer never overflows. Returns -1 when open or a read failed, 0
      * otherwise; on success the buffer holds what the fill loop stores (see
      * PolicyStore.FillTakesStreamPrefix and PolicyStore.FillReadsFile for
      * what that is). */
    method ReadPolicy(openOk: bool, replies: seq<ReadReply>) returns (rc: int, ghost asked: seq<nat>)
      requires Valid() && ReadsFit(replies, MAX_POLICY_LEN)
      modifies this`policyLen, policyData
      ensures Valid()
      ensures !openOk ==> rc == -1 && asked == [] && policyLen == old(policyLen) && policyData[..] == old(policyData[..])
      ensures openOk ==> var r := Fill(replies, MAX_POLICY_LEN);
        && rc == (if r.ok then 0 else -1)
        && Contents() == r.stored
        && asked == r.asks
      ensures openOk && rc == 0 ==>
        Contents() == Stream(replies)[..Min(|Stream(replies)|, MAX_POLICY_LEN)]
    {
      asked := [];
      if !openOk {
        return -1, asked;
      }
      policyLen := 0;
      var i := 0;
      ghost var stored: seq<byte> := [];
      FillBegins(replies, MAX_POLICY_LEN);
      while policyLen < MAX_POLICY_LEN
        invariant Valid() && Contents() == stored
        invariant Filling(replies, MAX_POLICY_LEN, i, stored, asked)
        decreases MAX_POLICY_LEN - policyLen
      {
        var request: nat := MAX_POLICY_LEN - policyLen;
        FillAdvances(replies, MAX_POLICY_LEN, i, stored, asked);
        var reply := replies[i];
        match reply {
          case ReadFailed =>
            FillStopsShort(replies, MAX_POLICY_LEN, i, stored, asked);
            return -1, asked + [request];
          case Bytes(d) =>
            if |d| == 0 {
              FillStopsShort(replies, MAX_POLICY_LEN, i, stored, asked);
              FillTakesStreamPrefix(replies, MAX_POLICY_LEN);
              return 0, asked + [request];
            }
            Deposit(d, request);
            policyLen := policyLen + |d|;
            stored := stored + d;
        }
        i, asked := i + 1, asked + [request];
      }
      FillEndsFull(replies, MAX_POLICY_LEN, i, stored, asked);
      FillTakesStreamPrefix(replies, MAX_POLICY_LEN);
      return 0, asked;
    }

    /** send_policy: `writes` are the counts write returns. Each write offers
      * the unsent suffix, policyLen - sent bytes, and `offered` records those
      * offers, one per write issued (PolicyStore.DrainOffersUnsent says what
      * they are). The loop ends when all is sent or on the first count of
      * zero or less. Returns what reached the client and how many writes
      * were issued. The buffer is only read. */
    method SendPolicy(writes: seq<int>) returns (wire: seq<byte>, issued: nat, ghost offered: seq<nat>)
      requires Valid() && WritesFit(writes, policyLen)
      ensures DrainOutcome(wire, issued, offered) == Drain(Contents(), writes)
      ensures wire <= Contents()
      ensures wire == Contents() || (0 < issued <= |writes| && writes[issued - 1] <= 0)
    {
      ghost var doc := Contents();
      var sent: nat := 0;
      wire, issued, offered := [], 0, [];
      DrainBegins(doc, writes);
      while sent < policyLen
        invariant Draining(doc, writes, sent, issued, wire, offered)
        decreases policyLen - sent
      {
        var offer: nat := policyLen - sent;
        var sz := writes[issued];
        DrainAdvances(doc, writes, sent, issued, wire, offered);
        if sz < 0 {
          DrainStopsShort(doc, writes, sent, issued, wire, offered);
          return wire, issued + 1, offered + [offer];
        }
        if sz == 0 {
          DrainStopsShort(doc, writes, sent, issued, wire, offered);
          return wire, issued + 1, offered + [offer];
        }
        var chunk := Outgoing(sent, sz);
        wire, sent, issued, offered := wire + chunk, sent + sz, issued + 1, offered + [offer];
      }
      DrainEnds(doc, writes, sent, issued, wire, offered);
    }

    /** The accept/send/close loop of main. `accepts` are the results of
      * accept; each accepted client is sent the policy once and then
      * closed, and the first failed accept ends the loop (`stopped`). When
      * the supplied accepts run out first, the loop is still running. */
    method Serve(accepts: seq<AcceptReply>) returns (trace: seq<Event>, stopped: bool)
      requires Valid() && ClientsFit(accepts, policyLen)
      ensures trace == Serving(Contents(), accepts)
      ensures stopped <==> FirstFailure(accepts) < |accepts|
    {
      trace := [];
      var i := 0;
      ServingBegins(Contents(), accepts);
      while i < |accepts|
        invariant ServingFrom(Contents(), accepts, i, trace)
      {
        match accepts[i] {
          case AcceptFailed =>
            ServingEnds(Contents(), accepts, i, trace);
            return trace, true;
          case Client(fd, writes) =>
            ServingAdvances(Contents(), accepts, i, trace);
            var wire, _, _ := SendPolicy(writes);
            trace := trace + Session(fd, wire);
        }
        i := i + 1;
      }
      ServingEnds(Contents(), accepts, i, trace);
      return trace, false;
    }

    /** main: option handling, then reading the policy, then creating the
      * listener (`listening` says whether create_listener succeeded), then
      * the serve loop. Any startup failure exits with status 1, and nothing
      * is done before option handling lets main go on; when the serve loop
      * breaks, main runs off its end, which is exit status 0. */
    method Run(opts: seq<Opt>, openOk: bool, replies: seq<ReadReply>, listening: bool,
               accepts: seq<AcceptReply>)
      returns (status: Status, trace: seq<Event>)
      requires Valid() && ReadsFit(replies, MAX_POLICY_LEN)
      requires ClientsFit(accepts, |Fill(replies, MAX_POLICY_LEN).stored|)
      modifies this`policyLen, policyData
      ensures Valid()
      ensures Configure(opts).Stop? ==>
        && status == Exited(1) && trace == []
        && policyLen == old(policyLen) && policyData[..] == old(policyData[..])
      ensures Configure(opts).Start? ==>
        var s := Configure(opts).settings;
        var r := Fill(replies, MAX_POLICY_LEN);
        if !(openOk && r.ok) then
          status == Exited(1) && trace == [LoadPolicy(s.policyFile)]
        else if !listening then
          status == Exited(1) && trace == [LoadPolicy(s.policyFile), Listen(s.port)] && Contents() == r.stored
        else
          && Contents() == r.stored
          && trace == [LoadPolicy(s.policyFile), Listen(s.port)] + Serving(r.stored, accepts)
          && status == (if FirstFailure(accepts) < |accepts| then Exited(0) else StillServing)
    {
      var config := ParseOptions(opts);
      match config {
        case Stop(_) =>
          return Exited(1), [];
        case Start(s) =>
          trace := [LoadPolicy(s.policyFile)];
          var rc, _ := ReadPolicy(openOk, replies);
          if rc < 0 {
            return Exited(1), trace;
          }
          trace := trace + [Listen(s.port)];
          if !listening {
            return Exited(1), trace;
          }
          var served, stopped := Serve(accepts);
          trace := trace + served;
          status := if stopped then Exited(0) else StillServing;
      }
    }
  }
}
