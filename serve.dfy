// What the daemon does to the outside world, as a trace of events, and the
// trace the accept/send/close loop of main produces.

module ServeLoop {
  import opened Kernel
  import opened PolicyStore

  /** An effect of the daemon visible outside it: opening and reading the
    * policy path is attempted, create_listener is called with a port, a
    * client is accepted, bytes reach a client, a client descriptor is
    * closed. The first two are recorded whether or not the call succeeds. */
  datatype Event =
    | LoadPolicy(path: string)
    | Listen(port: nat)
    | Accept(fd: nat)
    | Send(fd: nat, bytes: seq<byte>)
    | Close(fd: nat)

  /** Index of the first failed accept, or the number of accepts when none
    * failed: the number of clients the loop serves. */
  function FirstFailure(accepts: seq<AcceptReply>): (n: nat)
    ensures n <= |accepts|
    ensures n < |accepts| ==> accepts[n].AcceptFailed?
    ensures forall i :: 0 <= i < n ==> accepts[i].Client?
    decreases |accepts|
  {
    if accepts == [] || accepts[0].AcceptFailed? then 0
    else 1 + FirstFailure(accepts[1..])
  }

  /** One pass of the loop body for an accepted client. */
  function Session(fd: nat, wire: seq<byte>): seq<Event>
  {
    [Accept(fd), Send(fd, wire), Close(fd)]
  }

  /** The events of the serve loop run against `accepts`: for each accepted
    * client, the bytes the drain of `data` delivers to it and then its
    * close; the first failed accept ends the loop. */
  function Serving(data: seq<byte>, accepts: seq<AcceptReply>): seq<Event>
    requires ClientsFit(accepts, |data|)
    decreases |accepts|
  {
    if accepts == [] then []
    else match accepts[0]
      case AcceptFailed => []
      case Client(fd, writes) =>
        assert forall i :: 0 <= i < |accepts| - 1 ==> accepts[1..][i] == accepts[i + 1];
        Session(fd, Drain(data, writes).wire) + Serving(data, accepts[1..])
  }

  /** The serve loop part-way through: the first `served` accepts have
    * produced `trace`, and serving the remaining ones completes Serving. */
  ghost predicate ServingFrom(data: seq<byte>, accepts: seq<AcceptReply>, served: nat, trace: seq<Event>)
  {
    && served <= FirstFailure(accepts)
    && ClientsFit(accepts, |data|)
    && ClientsFit(accepts[served..], |data|)
    && trace + Serving(data, accepts[served..]) == Serving(data, accepts)
  }

  lemma ServingBegins(data: seq<byte>, accepts: seq<AcceptReply>)
    requires ClientsFit(accepts, |data|)
    ensures ServingFrom(data, accepts, 0, [])
  {
    assert accepts[0..] == accepts;
  }

  /** An accepted client adds its session to the trace. */
  lemma ServingAdvances(data: seq<byte>, accepts: seq<AcceptReply>, served: nat, trace: seq<Event>)
    requires ServingFrom(data, accepts, served, trace) && served < |accepts|
    requires accepts[served].Client?
    ensures WritesFit(accepts[served].writes, |data|)
    ensures ServingFrom(data, accepts, served + 1,
      trace + Session(accepts[served].fd, Drain(data, accepts[served].writes).wire))
  {
    var rest := accepts[served..];
    assert rest[1..] == accepts[served + 1..];
    assert forall i :: 0 <= i < |rest| - 1 ==> rest[1..][i] == rest[i + 1];
    var head := Session(accepts[served].fd, Drain(data, accepts[served].writes).wire);
    assert Serving(data, rest) == head + Serving(data, rest[1..]);
    assert (trace + head) + Serving(data, rest[1..]) == trace + (head + Serving(data, rest[1..]));
  }

  /** A failed accept, or running out of accepts, leaves the trace as it
    * is. */
  lemma ServingEnds(data: seq<byte>, accepts: seq<AcceptReply>, served: nat, trace: seq<Event>)
    requires ServingFrom(data, accepts, served, trace)
    requires served == |accepts| || accepts[served].AcceptFailed?
    ensures trace == Serving(data, accepts)
    ensures served == FirstFailure(accepts)
  {
    assert served == |accepts| ==> accepts[served..] == [];
  }

  /** The serve loop's trace is one session per client accepted before the
    * first failed accept, in the order the clients were accepted: an accept,
    * exactly one (drained) send to that same client, then its close. No
    * client after the failure is ever seen. */
  lemma {:induction false} ServingIsSessions(data: seq<byte>, accepts: seq<AcceptReply>)
    requires ClientsFit(accepts, |data|)
    ensures |Serving(data, accepts)| == 3 * FirstFailure(accepts)
    ensures forall k :: 0 <= k < FirstFailure(accepts) ==>
      Serving(data, accepts)[3 * k..3 * k + 3] ==
        Session(accepts[k].fd, Drain(data, accepts[k].writes).wire)
    decreases |accepts|
  {
    if accepts != [] && accepts[0].Client? {
      var tail := accepts[1..];
      assert forall i :: 0 <= i < |tail| ==> tail[i] == accepts[i + 1];
      ServingIsSessions(data, tail);
      var head := Session(accepts[0].fd, Drain(data, accepts[0].writes).wire);
      var t := Serving(data, tail);
      forall k | 1 <= k < FirstFailure(accepts)
        ensures (head + t)[3 * k..3 * k + 3] == t[3 * (k - 1)..3 * (k - 1) + 3]
      {
      }
    }
  }

  /** Every send in the serve loop's trace carries a prefix of the
    * document, and the serve loop never changes the document. */
  lemma {:induction false} ServingSendsPrefixes(data: seq<byte>, accepts: seq<AcceptReply>)
    requires ClientsFit(accepts, |data|)
    ensures forall e :: e in Serving(data, accepts) && e.Send? ==> e.bytes <= data
    decreases |accepts|
  {
    if accepts != [] && accepts[0].Client? {
      var tail := accepts[1..];
      assert forall i :: 0 <= i < |tail| ==> tail[i] == accepts[i + 1];
      ServingSendsPrefixes(data, tail);
      DrainSendsPrefix(data, accepts[0].writes);
    }
  }

  /** When no write the loop issues to an accepted client returns zero or
    * less, every client receives an identical, complete copy of the
    * document. Clients listed after the first failed accept are never
    * accepted, and writes a drain never issues are never made, so neither
    * is constrained. */
  lemma ServingSendsCopies(data: seq<byte>, accepts: seq<AcceptReply>)
    requires ClientsFit(accepts, |data|)
    requires forall i, j :: 0 <= i < FirstFailure(accepts) && 0 <= j < Drain(data, accepts[i].writes).issued && j < |accepts[i].writes| ==>
      accepts[i].writes[j] > 0
    ensures forall e :: e in Serving(data, accepts) && e.Send? ==> e.bytes == data
  {
    var s := Serving(data, accepts);
    ServingIsSessions(data, accepts);
    forall e | e in s && e.Send?
      ensures e.bytes == data
    {
      var p :| 0 <= p < |s| && s[p] == e;
      var k := p / 3;
      assert s[3 * k..3 * k + 3] == Session(accepts[k].fd, Drain(data, accepts[k].writes).wire);
      assert s[p] == s[3 * k..3 * k + 3][p - 3 * k];
      assert p == 3 * k + 1;
      ServingDeliversCopy(data, accepts, k);
    }
  }

  /** Write failures stay with their own connection: an accepted client none
    * of whose issued writes returns zero or less receives the whole
    * document, whatever happened to the clients before or after it. */
  lemma ServingDeliversCopy(data: seq<byte>, accepts: seq<AcceptReply>, k: nat)
    requires ClientsFit(accepts, |data|)
    requires k < FirstFailure(accepts)
    requires forall j :: 0 <= j < Drain(data, accepts[k].writes).issued && j < |accepts[k].writes| ==>
      accepts[k].writes[j] > 0
    ensures 3 * k + 1 < |Serving(data, accepts)|
    ensures Serving(data, accepts)[3 * k + 1] == Send(accepts[k].fd, data)
  {
    ServingIsSessions(data, accepts);
    DrainCompletes(data, accepts[k].writes);
    assert Serving(data, accepts)[3 * k..3 * k + 3][1] == Serving(data, accepts)[3 * k + 1];
  }
}
