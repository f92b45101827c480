# pcfpd: a verified model of the policy-file daemon

pcfpd is a small blocking TCP daemon. At startup it reads a policy document of
at most 65536 bytes (`MAX_POLICY_LEN`) from a file into a global buffer and
opens a listener on a port (843 unless `-p` says otherwise). Then it loops:
accept a client, write the whole document to it, close it. Nothing else
happens per client.

This project models in Dafny the four pieces of sequential logic in
`pcfpd.c`:

- **Policy buffer fill** (`read_policy`). `Daemon.PolicyServer` holds the
  buffer as an `array<byte>` of length 65536 plus the fill level
  `policyLen`. `ReadPolicy` runs the same `while` loop as the C code. Each
  read asks for the free part of the buffer, `65536 - policyLen` bytes, and
  the method returns those requests as a ghost `asked` sequence. The loop
  stops on a full buffer, on end of file (a read that returns 0) or on a
  failed read.
- **Partial-write drain** (`send_policy`). `SendPolicy` advances a `sent`
  counter and offers the unsent suffix, `policyLen - sent` bytes, on each
  write; the offers are returned as a ghost `offered` sequence. It stops
  when all is sent, or on the first write that returns zero or less. It only
  reads the buffer: it has no `modifies` clause.
- **Option handling** (the `getopt` loop of `main`). `Options.ParseOptions`
  walks the options in order, starting from port 843. `-p` stores `atoi`'s
  result in an `unsigned short`, so the value is reduced modulo 2^16; a port
  of 0 exits with status 1. Each later `-f` replaces the earlier path. An
  unknown option exits with 1, and so does a missing `-f`.
- **Startup and the serve loop** (the rest of `main`). `Run` handles the
  options, reads the policy, creates the listener and then serves clients.
  Each startup failure exits with status 1, and each step runs only if the
  one before it succeeded. `Serve` accepts a client, sends it the policy and
  closes it, and ends on the first failed accept.

System calls are oracles:

- **open**: a boolean says whether it succeeded.
- **read**: a sequence of `ReadReply` values. `Bytes(d)` is a chunk, where an
  empty chunk is end of file, and `ReadFailed` is a negative return.
- **write**: a sequence of returned counts, one sequence per client.
- **create_listener**: a boolean.
- **accept**: a sequence of `AcceptReply` values, each either a client
  (descriptor and write counts) or a failure.

The predicates `Kernel.ReadsFit` and `Kernel.WritesFit` state the
byte-count part of the POSIX contract of the calls: a read or write never
reports more bytes than it was asked for. They state that bound against the
room still free and the bytes still unsent. `PolicyStore.FillAsksFreeRoom`
and `PolicyStore.DrainOffersUnsent` prove that these are exactly the counts
the code passes to `read` and `write`.

What the daemon does to the outside world is recorded as a trace of
`ServeLoop.Event`s: the attempted policy read, the `create_listener` call,
each accept, the bytes sent and each close.

`main` never returns from `for (;;)` except through `break` after a failed
accept. It then runs off its end, which C99 defines as exit status 0. The
model's `Run` reports `Exited(0)` in that case. If the supplied accepts run
out first, the loop is still running and `Run` reports `StillServing`. That
way any finite stretch of the endless loop can be reasoned about without a
non-terminating method.

Behaviour of the code that the model keeps as written:

- It rejects only ports that *truncate* to 0. `-p 70000` listens on port
  4464 and `-p -1` listens on port 65535 (`Options.OutOfRangePortsWrap`).
- It ends the serve loop on *every* accept error, with no retry of
  interrupted or would-block accepts.
- It has no shutdown flag, no signal handling, no `-d` and no `-l`.

## Model

| member | source | states |
|---|---|---|
| `PolicyStore.FillTakesStreamPrefix` | pcfpd.c:25-38 | The fill never stores more than the free room. What it stores is a prefix of the bytes the reads delivered. On success it is exactly the first min(delivered, room) bytes. |
| `PolicyStore.FillFailsOnReadError` | pcfpd.c:27-35 | The fill fails exactly when one of the reads it issued failed. It issues no read when there is no room, and never more reads than were answered. |
| `PolicyStore.FillStopsAtEof` | pcfpd.c:27-35 | Every read before the last one issued delivered a non-empty chunk, so no read follows end of file or a failed read. A fill that ends on end of file or a failed read ends with room to spare. A fill whose last read delivered bytes ended because the buffer is full. |
| `PolicyStore.FillAsksFreeRoom` | pcfpd.c:27-35 | Read number j asks for 65536 minus the bytes delivered by the reads before it, which is never zero. The chunk it returns is no longer than that request. |
| `PolicyStore.FillReadsFile` | pcfpd.c:25-38 | Reading a regular file with any pattern of short reads, the fill succeeds and stores exactly the first min(file size, room) bytes. A larger file is truncated silently, not rejected. |
| `PolicyStore.FillAdvances` | pcfpd.c:27-35 | While the buffer is not full, the next read is answered, and it asks for the free room. A non-empty chunk fits in that room, so the copy never overflows the buffer, and the chunk is appended after what is stored. |
| `PolicyStore.DrainSendsPrefix` | pcfpd.c:43-57 | The client receives a prefix of the document. It is the whole document unless the last write issued returned zero or less. An empty document issues no write at all. |
| `PolicyStore.DrainMovesCounted` | pcfpd.c:46-56 | The client receives as many bytes as the positive counts of the issued writes sum to. Every write before the last one returned a positive count, so there is no retry. |
| `PolicyStore.DrainOffersUnsent` | pcfpd.c:46-56 | Write number j offers the document length minus the bytes the earlier writes moved, which is never zero. No count returned exceeds its offer. |
| `PolicyStore.DrainAdvances` | pcfpd.c:46-56 | While bytes remain, the next write is answered, and it offers the unsent rest. A positive count moves exactly the next that many bytes, and `sent` never passes the length. |
| `PolicyStore.DrainCompletes` | pcfpd.c:46-57 | When no write the drain issues returns zero or less, the client receives the whole document. Writes never issued do not matter. |
| `Options.ParseOptions` | pcfpd.c:99-126 | The getopt loop followed by the `-f` check computes `Configure`: the first rejected option decides, otherwise the last `-p` and the last `-f` are used. |
| `Options.RejectionSticks` | pcfpd.c:103-121 | Once an option is rejected, options after it do not matter: the loop returns at once. |
| `Options.FirstRejectionFinds` | pcfpd.c:104-120 | Option handling rejects the command line exactly when some option is unknown or some `-p` truncates to 0. |
| `Options.LastFileIsLast` | pcfpd.c:112-116 | The policy file is the path of an `-f` that no later `-f` overrides. There is none exactly when no `-f` is given. |
| `Options.LastPortDefault` | pcfpd.c:101 | Without any `-p` the port stays 843. |
| `Options.LastPortIsLast` | pcfpd.c:104-110 | The port is the 16-bit truncation of a `-p` value that no later `-p` overrides. |
| `Options.ConfigureDecides` | pcfpd.c:100-126 | main stops with status 1 exactly when an option is unknown, a `-p` truncates to 0, or `-f` is missing. Otherwise the port is nonzero and below 2^16, it is 843 unless a `-p` overrides it, and the policy file is the last `-f`. |
| `Options.Truncate16` | pcfpd.c:101-105 | The stored port is congruent to the `atoi` value modulo 2^16 and always below 2^16. A value already in 0..65535 is kept as it is. |
| `Options.OutOfRangePortsWrap` | pcfpd.c:105-109 | The port is reduced modulo 2^16: 70000 becomes 4464, -1 becomes 65535, and 65536 is rejected as port 0. |
| `ServeLoop.FirstFailure` | pcfpd.c:138-143 | The number of clients served is the index of the first failed accept, and every accept before it succeeded. |
| `ServeLoop.ServingAdvances` | pcfpd.c:139-145 | A successful accept adds exactly one session to the trace: accept, one drained send to that client, its close. |
| `ServeLoop.ServingEnds` | pcfpd.c:140-143 | A failed accept ends the trace there. |
| `ServeLoop.ServingIsSessions` | pcfpd.c:138-146 | The serve trace is one session per client accepted before the first failure, in the order of acceptance: accept, exactly one send to that same client, then its close. No client after the failure appears. |
| `ServeLoop.ServingSendsPrefixes` | pcfpd.c:138-146 | Every send in the serve trace carries a prefix of the policy document. |
| `ServeLoop.ServingSendsCopies` | pcfpd.c:138-146 | When no write issued to a client accepted before the first failed accept returns zero or less, every client receives an identical, complete copy of the document. Clients after the failed accept and writes never issued are not constrained. |
| `ServeLoop.ServingDeliversCopy` | pcfpd.c:138-146 | Write failures stay with their own connection. Client k, accepted before the first failed accept, has its send at position 3k+1 of the trace. If none of its issued writes returns zero or less, that send carries the whole document, whatever happened to the other clients. |
| `Daemon.PolicyServer.constructor` | pcfpd.c:12-13 | The global buffer starts as an empty document in a 65536-byte array. |
| `Daemon.PolicyServer.Deposit` | pcfpd.c:28 | A read of `request` bytes at `policy_data + policy_len` that returns a chunk no longer than the request puts the chunk right after the stored bytes and leaves those bytes as they were. The copy stays inside the buffer. |
| `Daemon.PolicyServer.ReadPolicy` | pcfpd.c:15-39 | A failed open returns -1 and leaves the buffer untouched. Otherwise the buffer holds what the fill stores, the length stays at most 65536, and the result is -1 exactly when a read failed and 0 otherwise. The counts the reads asked for are the fill's requests. On success the content is the first min(delivered, 65536) bytes. |
| `Daemon.PolicyServer.SendPolicy` | pcfpd.c:41-58 | What reaches the client, the number of writes issued and the count each write offered are those of the drain over the document. What reaches the client is a prefix of the document, and the whole of it unless the last write returned zero or less. The buffer is not modified. |
| `Daemon.PolicyServer.Serve` | pcfpd.c:138-146 | The loop's trace is the serve trace of the document. It reports that it stopped exactly when an accept failed. |
| `Daemon.PolicyServer.Run` | pcfpd.c:97-147 | Rejected options exit with 1 and do nothing else. A failed policy read exits with 1 before any listener is created. A failed listener exits with 1 after the read. Otherwise the trace is the policy read, the listener, then the serve trace of the loaded document, and main exits with 0 when an accept fails. |

## Left out

- `create_listener` (socket, bind, setsockopt, listen) is a boolean oracle. The code sets `SO_REUSEADDR` only after `bind` (pcfpd.c:79-81), so that setting cannot help the bind it follows; this is not modelled.
- The system calls themselves are oracles. The model does not include file-descriptor bookkeeping: the policy file descriptor is never closed, and that leak is not modelled.
- `perror`, `fprintf` and `usage` are logging only. The model records why options were rejected (`Options.Rejection`) but not the messages.
- `strdup` and `free` of the policy path are modelled as replacing a string value.
- `atoi` is not modelled: `-p` carries the integer `atoi` produced. Only the 16-bit truncation and the zero check are modelled.
- `getopt` itself is not modelled: the options are the sequence it yields. Its `'?'`, returned for an unknown option and for a missing argument, is `Unrecognized`.
- Signals, a shutdown flag, daemonizing, a log file, timestamps and retry on interrupted accepts do not exist in this source file, so they are not modelled.
- `Kernel.ReadsFit` and `Kernel.WritesFit` assume that read and write never report more bytes than they were asked for, as POSIX guarantees. A larger return would overflow the C buffer, which has no meaning to model.
- A write that raises SIGPIPE is not modelled. pcfpd.c installs no handler for it (pcfpd.c:1-7, 47), so a write to a client that has reset the connection ends the whole process inside `write`: there is no close, no further accept and no exit status. In the model every write returns, and a negative count stands only for write errors that return.
- The endless accept loop is modelled over a finite sequence of accepts. `StillServing` stands for "still in the loop".
- `Daemon.PolicyServer.Run`: after a failed read it states the exit status and the trace, but not what the partly filled buffer holds. `ReadPolicy` states that, and main exits right after.
