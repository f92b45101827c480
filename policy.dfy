// What the two buffer loops of the daemon compute, as functions of the
// kernel's replies: the fill loop of read_policy and the drain loop of
// send_policy. The methods of Daemon.PolicyServer are proved to compute
// exactly these; the lemmas here say what that means.

module PolicyStore {
  import opened Kernel

  function Min(a: nat, b: nat): nat { if a <= b then a else b }

  /** Result of the fill loop: whether it ended without a read error, the
    * bytes it stored, how many read calls it issued, and how many bytes
    * each of those reads asked for. */
  datatype FillOutcome = FillOutcome(ok: bool, stored: seq<byte>, calls: nat, asks: seq<nat>)

  /** The fill loop of read_policy run against `replies` with `room` free
    * bytes: each read asks for the free room; the loop stops when the
    * buffer is full, on end of file or on the first failed read, and
    * otherwise appends each chunk it is given. */
  function Fill(replies: seq<ReadReply>, room: nat): FillOutcome
    requires ReadsFit(replies, room)
    decreases |replies|
  {
    if room == 0 then FillOutcome(true, [], 0, [])
    else match replies[0]
      case ReadFailed => FillOutcome(false, [], 1, [room])
      case Bytes(d) =>
        if d == [] then FillOutcome(true, [], 1, [room])
        else
          var rest := Fill(replies[1..], room - |d|);
          FillOutcome(rest.ok, d + rest.stored, 1 + rest.calls, [room] + rest.asks)
  }

  /** The fill loop part-way through: `calls` reads asking for `asked` have
    * stored `stored`, and filling the rest of the room with the remaining
    * replies completes the run of Fill over all of them. */
  ghost predicate Filling(replies: seq<ReadReply>, room: nat, calls: nat, stored: seq<byte>, asked: seq<nat>)
  {
    && calls <= |replies| && |stored| <= room
    && ReadsFit(replies, room)
    && ReadsFit(replies[calls..], room - |stored|)
    && var rest := Fill(replies[calls..], room - |stored|);
      Fill(replies, room) == FillOutcome(rest.ok, stored + rest.stored, calls + rest.calls, asked + rest.asks)
  }

  lemma FillBegins(replies: seq<ReadReply>, room: nat)
    requires ReadsFit(replies, room)
    ensures Filling(replies, room, 0, [], [])
  {
    assert replies[0..] == replies;
  }

  /** While there is room the kernel answers the next read, which asks for
    * the room left; a non-empty chunk fits in it and is appended to what is
    * stored. */
  lemma FillAdvances(replies: seq<ReadReply>, room: nat, calls: nat, stored: seq<byte>, asked: seq<nat>)
    requires Filling(replies, room, calls, stored, asked) && |stored| < room
    ensures calls < |replies|
    ensures replies[calls].Bytes? && replies[calls].data != [] ==>
      var d := replies[calls].data;
      |stored| + |d| <= room && Filling(replies, room, calls + 1, stored + d, asked + [room - |stored|])
  {
    if replies[calls].Bytes? && replies[calls].data != [] {
      FillAppends(replies, room, calls, stored, asked);
    }
  }

  /** The step of FillAdvances for a non-empty chunk. */
  lemma FillAppends(replies: seq<ReadReply>, room: nat, calls: nat, stored: seq<byte>, asked: seq<nat>)
    requires Filling(replies, room, calls, stored, asked) && |stored| < room && calls < |replies|
    requires replies[calls].Bytes? && replies[calls].data != []
    ensures |stored| + |replies[calls].data| <= room
    ensures Filling(replies, room, calls + 1, stored + replies[calls].data, asked + [room - |stored|])
  {
    var d := replies[calls].data;
    var free := room - |stored|;
    var later := replies[calls..];
    assert later[0] == Bytes(d) && later[1..] == replies[calls + 1..];
    assert |d| <= free && ReadsFit(later[1..], free - |d|);
    var rest := Fill(later[1..], free - |d|);
    var here := Fill(later, free);
    assert here == FillOutcome(rest.ok, d + rest.stored, 1 + rest.calls, [free] + rest.asks);
    assert Fill(replies, room) == FillOutcome(here.ok, stored + here.stored, calls + here.calls, asked + here.asks);
    assert (stored + d) + rest.stored == stored + (d + rest.stored);
    assert (asked + [free]) + rest.asks == asked + ([free] + rest.asks);
  }

  /** A failed read or end of file ends the fill right there. */
  lemma FillStopsShort(replies: seq<ReadReply>, room: nat, calls: nat, stored: seq<byte>, asked: seq<nat>)
    requires Filling(replies, room, calls, stored, asked) && |stored| < room
    requires calls < |replies| && (replies[calls] == ReadFailed || replies[calls] == Bytes([]))
    ensures Fill(replies, room) ==
      FillOutcome(replies[calls] != ReadFailed, stored, calls + 1, asked + [room - |stored|])
  {
    var later := replies[calls..];
    var free := room - |stored|;
    assert later[0] == replies[calls] && free > 0;
    assert Fill(later, free) == FillOutcome(replies[calls] != ReadFailed, [], 1, [free]);
  }

  /** A full buffer ends the fill with success. */
  lemma FillEndsFull(replies: seq<ReadReply>, room: nat, calls: nat, stored: seq<byte>, asked: seq<nat>)
    requires Filling(replies, room, calls, stored, asked) && |stored| == room
    ensures Fill(replies, room) == FillOutcome(true, stored, calls, asked)
  {
  }

  /** How many bytes the replies delivered, chunk lengths summed (a failed
    * read delivers none). */
  function Delivered(replies: seq<ReadReply>): nat
    decreases |replies|
  {
    if replies == [] then 0
    else (if replies[0].Bytes? then |replies[0].data| else 0) + Delivered(replies[1..])
  }

  /** Each read the fill issues asks for the room still free after the
    * bytes delivered before it, never for zero bytes, and the chunk it
    * returns is no longer than what it asked for. */
  lemma {:induction false} FillAsksFreeRoom(replies: seq<ReadReply>, room: nat)
    requires ReadsFit(replies, room)
    ensures var r := Fill(replies, room);
      && |r.asks| == r.calls
      && r.calls <= |replies|
      && forall j :: 0 <= j < r.calls ==>
        && r.asks[j] == room - Delivered(replies[..j])
        && 0 < r.asks[j]
        && (replies[j].Bytes? ==> |replies[j].data| <= r.asks[j])
    decreases |replies|
  {
    if room > 0 && replies[0].Bytes? && replies[0].data != [] {
      var d := replies[0].data;
      var tail := replies[1..];
      FillAsksFreeRoom(tail, room - |d|);
      var r := Fill(replies, room);
      var rest := Fill(tail, room - |d|);
      assert replies[..0] == [];
      forall j | 1 <= j < r.calls
        ensures r.asks[j] == room - Delivered(replies[..j])
        ensures replies[j].Bytes? ==> |replies[j].data| <= r.asks[j]
      {
        assert replies[..j][1..] == tail[..j - 1];
        assert r.asks[j] == rest.asks[j - 1] && replies[j] == tail[j - 1];
      }
    }
  }

  /** The byte stream the replies deliver: every chunk up to the first
    * end of file or failure, concatenated. */
  function Stream(replies: seq<ReadReply>): seq<byte>
    decreases |replies|
  {
    if replies == [] then []
    else match replies[0]
      case ReadFailed => []
      case Bytes(d) => if d == [] then [] else d + Stream(replies[1..])
  }

  /** The fill loop never stores more than the room it started with; what it
    * stores is a prefix of the delivered stream; and on success it is
    * exactly the first min(stream length, room) bytes. */
  lemma {:induction false} FillTakesStreamPrefix(replies: seq<ReadReply>, room: nat)
    requires ReadsFit(replies, room)
    ensures var r := Fill(replies, room);
      && |r.stored| <= room
      && r.stored <= Stream(replies)
      && (r.ok ==> r.stored == Stream(replies)[..Min(|Stream(replies)|, room)])
    decreases |replies|
  {
    if room > 0 && replies[0].Bytes? && replies[0].data != [] {
      var d := replies[0].data;
      var tail := replies[1..];
      FillTakesStreamPrefix(tail, room - |d|);
      var rest := Fill(tail, room - |d|);
      assert Fill(replies, room) == FillOutcome(rest.ok, d + rest.stored, 1 + rest.calls, [room] + rest.asks);
      assert Stream(replies) == d + Stream(tail);
      var n := Min(|Stream(tail)|, room - |d|);
      if rest.ok {
        assert Min(|Stream(replies)|, room) == |d| + n;
        assert (d + Stream(tail))[..|d| + n] == d + Stream(tail)[..n];
      }
    }
  }

  /** The fill loop issues no read when there is no room and never more
    * reads than it is answered, and it fails exactly when one of the reads
    * it issued failed. */
  lemma {:induction false} FillFailsOnReadError(replies: seq<ReadReply>, room: nat)
    requires ReadsFit(replies, room)
    ensures var r := Fill(replies, room);
      && r.calls <= |replies|
      && (room == 0 <==> r.calls == 0)
      && (r.ok <==> forall j :: 0 <= j < r.calls ==> replies[j] != ReadFailed)
    decreases |replies|
  {
    if room > 0 && replies[0].Bytes? && replies[0].data != [] {
      var d := replies[0].data;
      var tail := replies[1..];
      FillFailsOnReadError(tail, room - |d|);
      var rest := Fill(tail, room - |d|);
      assert Fill(replies, room) == FillOutcome(rest.ok, d + rest.stored, 1 + rest.calls, [room] + rest.asks);
      forall j | 1 <= j < 1 + rest.calls
        ensures replies[j] == tail[j - 1]
      {
      }
    }
  }

  /** The fill stops at the first end of file or failed read: every read
    * before the last one issued delivered a non-empty chunk. It stops
    * there with room to spare, and when the last read did deliver bytes the
    * loop stopped because the buffer is full. */
  lemma {:induction false} FillStopsAtEof(replies: seq<ReadReply>, room: nat)
    requires ReadsFit(replies, room)
    ensures var r := Fill(replies, room);
      && r.calls <= |replies|
      && (forall j :: 0 <= j < r.calls - 1 ==> replies[j].Bytes? && replies[j].data != [])
      && (0 < r.calls && (replies[r.calls - 1] == ReadFailed || replies[r.calls - 1] == Bytes([])) ==>
            |r.stored| < room)
      && (0 < r.calls && replies[r.calls - 1].Bytes? && replies[r.calls - 1].data != [] ==>
            |r.stored| == room)
    decreases |replies|
  {
    FillFailsOnReadError(replies, room);
    if room > 0 && replies[0].Bytes? && replies[0].data != [] {
      var d := replies[0].data;
      var tail := replies[1..];
      FillStopsAtEof(tail, room - |d|);
      FillFailsOnReadError(tail, room - |d|);
      var rest := Fill(tail, room - |d|);
      assert Fill(replies, room) == FillOutcome(rest.ok, d + rest.stored, 1 + rest.calls, [room] + rest.asks);
      forall j | 1 <= j < 1 + rest.calls
        ensures replies[j] == tail[j - 1]
      {
      }
    }
  }

  /** Reading a regular file: whatever the pattern of short reads, a fill
    * with `room` free bytes succeeds and stores the first min(|file|, room)
    * bytes of the file; a longer file is truncated, not rejected. */
  lemma {:induction false} FillReadsFile(replies: seq<ReadReply>, file: seq<byte>, room: nat)
    requires ReadsFit(replies, room) && ReadsFile(replies, file)
    ensures Fill(replies, room).ok
    ensures Fill(replies, room).stored == file[..Min(|file|, room)]
    decreases |replies|
  {
    if room > 0 && file != [] {
      var d := replies[0].data;
      FillReadsFile(replies[1..], file[|d|..], room - |d|);
      assert file[..|d|] + file[|d|..][..Min(|file| - |d|, room - |d|)] == file[..Min(|file|, room)];
    }
  }

  /** Result of the drain loop: the bytes that reached the client, in
    * order, how many writes were issued, and how many bytes each of those
    * writes offered. */
  datatype DrainOutcome = DrainOutcome(wire: seq<byte>, issued: nat, offers: seq<nat>)

  /** The drain loop of send_policy over `data`: while bytes remain it
    * offers the unsent suffix; a positive count moves that many bytes to
    * the client, and a count of zero or less ends the loop at once. */
  function Drain(data: seq<byte>, writes: seq<int>): DrainOutcome
    requires WritesFit(writes, |data|)
    decreases |writes|
  {
    if data == [] then DrainOutcome([], 0, [])
    else if writes[0] <= 0 then DrainOutcome([], 1, [|data|])
    else
      var rest := Drain(data[writes[0]..], writes[1..]);
      DrainOutcome(data[..writes[0]] + rest.wire, 1 + rest.issued, [|data|] + rest.offers)
  }

  /** The drain loop part-way through: `sent` bytes of `data` have gone
    * out as `wire` after `issued` writes offering `offered`, and draining
    * the rest with the remaining writes completes the run of Drain over
    * all of it. */
  ghost predicate Draining(data: seq<byte>, writes: seq<int>, sent: nat, issued: nat, wire: seq<byte>,
                           offered: seq<nat>)
  {
    && sent <= |data| && issued <= |writes|
    && wire == data[..sent]
    && WritesFit(writes, |data|)
    && WritesFit(writes[issued..], |data| - sent)
    && var rest := Drain(data[sent..], writes[issued..]);
      Drain(data, writes) == DrainOutcome(wire + rest.wire, issued + rest.issued, offered + rest.offers)
  }

  lemma DrainBegins(data: seq<byte>, writes: seq<int>)
    requires WritesFit(writes, |data|)
    ensures Draining(data, writes, 0, 0, [], [])
  {
    assert data[0..] == data && writes[0..] == writes;
  }

  /** The next write offers the |data| - sent unsent bytes; a count of
    * `writes[issued]` > 0 moves the next that many bytes of the document to
    * the client. */
  lemma DrainAdvances(data: seq<byte>, writes: seq<int>, sent: nat, issued: nat, wire: seq<byte>,
                      offered: seq<nat>)
    requires Draining(data, writes, sent, issued, wire, offered) && sent < |data|
    ensures issued < |writes|
    ensures writes[issued] > 0 ==>
      && sent + writes[issued] <= |data|
      && Draining(data, writes, sent + writes[issued], issued + 1, wire + data[sent..sent + writes[issued]],
                  offered + [|data| - sent])
  {
    var w := writes[issued];
    assert writes[issued..][1..] == writes[issued + 1..];
    if w > 0 {
      var next := sent + w;
      assert data[sent..][w..] == data[next..];
      assert data[sent..][..w] == data[sent..next];
      var rest := Drain(data[next..], writes[issued + 1..]);
      assert (wire + data[sent..next]) + rest.wire == wire + (data[sent..next] + rest.wire);
      assert (offered + [|data| - sent]) + rest.offers == offered + ([|data| - sent] + rest.offers);
      assert data[..next] == data[..sent] + data[sent..next];
    }
  }

  /** A write returning zero or less ends the drain right there. */
  lemma DrainStopsShort(data: seq<byte>, writes: seq<int>, sent: nat, issued: nat, wire: seq<byte>,
                        offered: seq<nat>)
    requires Draining(data, writes, sent, issued, wire, offered) && sent < |data|
    requires issued < |writes| && writes[issued] <= 0
    ensures Drain(data, writes) == DrainOutcome(wire, issued + 1, offered + [|data| - sent])
  {
    var later := writes[issued..];
    assert later[0] == writes[issued] && data[sent..] != [];
    assert Drain(data[sent..], later) == DrainOutcome([], 1, [|data| - sent]);
  }

  /** Once every byte has gone out, the drain is over. */
  lemma DrainEnds(data: seq<byte>, writes: seq<int>, sent: nat, issued: nat, wire: seq<byte>,
                  offered: seq<nat>)
    requires Draining(data, writes, sent, issued, wire, offered) && sent == |data|
    ensures Drain(data, writes) == DrainOutcome(wire, issued, offered)
  {
    assert data[sent..] == [];
  }

  /** Sum of the positive counts, the bytes those writes moved. */
  function Moved(writes: seq<int>): nat
    decreases |writes|
  {
    if writes == [] then 0
    else (if writes[0] > 0 then writes[0] else 0) + Moved(writes[1..])
  }

  /** What the client receives is a prefix of the document; it is the
    * whole document unless the last write issued returned zero or less. An
    * empty document issues no write at all. */
  lemma {:induction false} DrainSendsPrefix(data: seq<byte>, writes: seq<int>)
    requires WritesFit(writes, |data|)
    ensures var r := Drain(data, writes);
      && r.wire <= data
      && r.issued <= |writes|
      && (r.wire == data || (0 < r.issued && writes[r.issued - 1] <= 0))
      && (data == [] <==> r.issued == 0)
    decreases |writes|
  {
    if data != [] && writes[0] > 0 {
      var w := writes[0];
      DrainSendsPrefix(data[w..], writes[1..]);
      assert data[..w] + data[w..] == data;
    }
  }

  /** The client receives as many bytes as the positive counts of the
    * issued writes sum to, and every write before the last one issued
    * returned a positive count: there is no retry after a failed write. */
  lemma {:induction false} DrainMovesCounted(data: seq<byte>, writes: seq<int>)
    requires WritesFit(writes, |data|)
    ensures var r := Drain(data, writes);
      && r.issued <= |writes|
      && |r.wire| == Moved(writes[..r.issued])
      && (forall j :: 0 <= j < r.issued - 1 ==> writes[j] > 0)
    decreases |writes|
  {
    var r := Drain(data, writes);
    if data == [] {
      assert writes[..0] == [];
    } else if writes[0] <= 0 {
      assert writes[..1] == [writes[0]];
      assert writes[..1][1..] == [];
    } else {
      var w := writes[0];
      var tail := writes[1..];
      DrainMovesCounted(data[w..], tail);
      var rest := Drain(data[w..], tail);
      assert writes[..r.issued][1..] == tail[..rest.issued];
      forall j | 1 <= j < r.issued - 1
        ensures writes[j] == tail[j - 1]
      {
      }
    }
  }

  /** Each write the drain issues offers exactly the bytes the positive
    * counts before it left unsent, never zero bytes, and is answered with
    * no more than it offered. */
  lemma {:induction false} DrainOffersUnsent(data: seq<byte>, writes: seq<int>)
    requires WritesFit(writes, |data|)
    ensures var r := Drain(data, writes);
      && |r.offers| == r.issued
      && r.issued <= |writes|
      && forall j :: 0 <= j < r.issued ==>
        && r.offers[j] == |data| - Moved(writes[..j])
        && 0 < r.offers[j]
        && writes[j] <= r.offers[j]
    decreases |writes|
  {
    if data != [] && writes[0] > 0 {
      var w := writes[0];
      var tail := writes[1..];
      DrainOffersUnsent(data[w..], tail);
      var r := Drain(data, writes);
      var rest := Drain(data[w..], tail);
      assert writes[..0] == [];
      forall j | 1 <= j < r.issued
        ensures r.offers[j] == |data| - Moved(writes[..j]) && writes[j] <= r.offers[j]
      {
        assert writes[..j][1..] == tail[..j - 1];
        assert r.offers[j] == rest.offers[j - 1];
      }
    }
  }

  /** A client none of whose issued writes returns zero or less receives
    * the whole document; writes the drain never issues do not matter. */
  lemma {:induction false} DrainCompletes(data: seq<byte>, writes: seq<int>)
    requires WritesFit(writes, |data|)
    requires forall j :: 0 <= j < Drain(data, writes).issued && j < |writes| ==> writes[j] > 0
    ensures Drain(data, writes).wire == data
  {
    DrainSendsPrefix(data, writes);
  }
}
