// The system calls the daemon makes, as oracles supplied by the environment.
// The daemon never sees the kernel itself, only the values the calls return;
// each oracle below is one possible run of that call, and the predicates say
// which runs the byte-count part of the POSIX contract of the call allows.
// A write that raises SIGPIPE instead of returning is not one of these runs.

module Kernel {
  /** A byte of the policy file and of the data written to a client. */
  newtype byte = b: int | 0 <= b < 256

  /** Capacity of the policy buffer (MAX_POLICY_LEN). */
  const MAX_POLICY_LEN: nat := 65536

  /** What one read(2) on the policy file returns: the bytes it delivered
    * (an empty chunk is the 0 that signals end of file) or a negative
    * count. */
  datatype ReadReply = Bytes(data: seq<byte>) | ReadFailed

  /** The replies describe a run of the fill loop that starts with `room`
    * free bytes: read(2) never delivers more than it is asked for, and the
    * kernel answers every read the loop issues until it stops (on a full
    * buffer, end of file or an error). The bound is stated against the room
    * still free before each read; PolicyStore.FillAsksFreeRoom shows that
    * this is exactly the count each read asks for. Reads past the stopping
    * point are never issued, so nothing is said about them. */
  predicate ReadsFit(replies: seq<ReadReply>, room: nat)
    decreases |replies|
  {
    room == 0 ||
    (|replies| > 0 &&
     match replies[0]
     case ReadFailed => true
     case Bytes(d) => |d| <= room && (d == [] || ReadsFit(replies[1..], room - |d|)))
  }

  /** The replies are successive reads of a regular file holding `file`:
    * each read delivers at least one of the bytes still unread, in order,
    * and the read after the last byte reports end of file. Short reads of
    * any length are allowed. */
  predicate ReadsFile(replies: seq<ReadReply>, file: seq<byte>)
    decreases |replies|
  {
    |replies| > 0 &&
    match replies[0]
    case ReadFailed => false
    case Bytes(d) =>
      if file == [] then d == []
      else 0 < |d| <= |file| && d == file[..|d|] && ReadsFile(replies[1..], file[|d|..])
  }

  /** The counts write(2) returns to a drain loop that has `remaining`
    * bytes left to send: a positive count is never more than was offered,
    * and the kernel answers every write until the loop stops (everything
    * sent, or a count of zero or less). The bound is stated against the
    * bytes still unsent; PolicyStore.DrainOffersUnsent shows that this is
    * exactly the count each write offers. A negative count is an error
    * that write returns. */
  predicate WritesFit(writes: seq<int>, remaining: nat)
    decreases |writes|
  {
    remaining == 0 ||
    (|writes| > 0 &&
     (writes[0] <= 0 || (writes[0] <= remaining && WritesFit(writes[1..], remaining - writes[0]))))
  }

  /** What one accept(2) on the listener returns: a client descriptor,
    * together with the counts its writes will return, or a failure. */
  datatype AcceptReply = Client(fd: nat, writes: seq<int>) | AcceptFailed

  /** Every client the listener hands out accepts writes as write(2) allows
    * for a document of `len` bytes. */
  predicate ClientsFit(accepts: seq<AcceptReply>, len: nat)
  {
    forall i :: 0 <= i < |accepts| && accepts[i].Client? ==> WritesFit(accepts[i].writes, len)
  }
}
