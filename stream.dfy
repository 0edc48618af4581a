/** The two outside resources the transfer code works on, as objects whose
    state the transfer methods change: a stream connection and the file system. */
module Stream {
  import opened Common
  import opened Paths

  /** What one `recv` on a stream connection gives back: bytes (empty once the
      peer has closed and everything it sent was read), or nothing at all
      because the peer neither sends nor closes (a timeout on a socket with a
      timeout set, a reset on one without). */
  datatype RecvResult = Data(bytes: seq<byte>) | Stalled

  /** One end of a stream connection. */
  class Connection {
    /** Bytes the peer has sent that this end has not read yet. */
    var inbox: seq<byte>
    /** Whether the peer closes its side once `inbox` is drained. */
    var peerClosed: bool
    /** Whether `sendall` raises a socket error. */
    var sendFails: bool
    /** Everything this end has written with `sendall`. */
    var outbox: seq<byte>
    /** Whether this end has called `close`. */
    var closed: bool
    /** The byte counts passed to `recv`, in order. */
    ghost var requests: seq<int>

    constructor (incoming: seq<byte>, closesAfter: bool, failsOnSend: bool)
      ensures inbox == incoming && peerClosed == closesAfter && sendFails == failsOnSend
      ensures outbox == [] && !closed && requests == []
    {
      inbox, peerClosed, sendFails := incoming, closesAfter, failsOnSend;
      outbox, closed := [], false;
      requests := [];
    }

    /** `conn.recv(n)`: at most `n` of the pending bytes, at least one when
        any are pending and `n > 0`; empty when the peer has closed. */
    method Recv(n: nat) returns (r: RecvResult)
      modifies this
      ensures requests == old(requests) + [n]
      ensures outbox == old(outbox) && closed == old(closed)
      ensures peerClosed == old(peerClosed) && sendFails == old(sendFails)
      ensures old(inbox) == [] ==> inbox == [] && r == (if peerClosed then Data([]) else Stalled)
      ensures old(inbox) != [] ==> r.Data? && |r.bytes| <= n && (n > 0 ==> r.bytes != [])
      ensures r.Data? ==> old(inbox) == r.bytes + inbox
    {
      requests := requests + [n];
      if inbox == [] {
        r := if peerClosed then Data([]) else Stalled;
      } else {
        var k := Min(n, |inbox|);
        r := Data(inbox[..k]);
        inbox := inbox[k..];
      }
    }

    /** `conn.sendall(data)`: all of it, or a socket error. */
    method SendAll(data: seq<byte>) returns (ok: bool)
      modifies this
      ensures ok == !sendFails
      ensures outbox == if ok then old(outbox) + data else old(outbox)
      ensures inbox == old(inbox) && requests == old(requests) && closed == old(closed)
      ensures peerClosed == old(peerClosed) && sendFails == old(sendFails)
    {
      ok := !sendFails;
      if ok {
        outbox := outbox + data;
      }
    }

    method Close()
      modifies this
      ensures closed
      ensures inbox == old(inbox) && outbox == old(outbox) && requests == old(requests)
      ensures peerClosed == old(peerClosed) && sendFails == old(sendFails)
    {
      closed := true;
    }
  }

  /** The file system: the content of every existing file, by path, and the
      paths that cannot be opened for writing. */
  class FileStore {
    var files: map<Path, seq<byte>>
    /** Paths where `open(p, 'wb')` raises: a parent directory that does not
        exist, a directory, no permission. */
    const unwritable: set<Path>

    constructor (initial: map<Path, seq<byte>>, unwritable: set<Path>)
      ensures files == initial && this.unwritable == unwritable
    {
      files := initial;
      this.unwritable := unwritable;
    }

    /** `os.path.exists(p)`. */
    method Exists(p: Path) returns (b: bool)
      ensures b == (p in files)
    {
      b := p in files;
    }

    /** `open(p, 'wb')`: creates the file, or empties an existing one; `ok`
        is false when the call raises, and then nothing changes. */
    method Create(p: Path) returns (ok: bool)
      modifies this
      ensures ok == (p !in unwritable)
      ensures files == if ok then old(files)[p := []] else old(files)
    {
      ok := p !in unwritable;
      if ok {
        files := files[p := []];
      }
    }

    /** `f.write(data)` on a file opened for writing. */
    method Append(p: Path, data: seq<byte>)
      requires p in files
      modifies this
      ensures files == old(files)[p := old(files)[p] + data]
    {
      files := files[p := files[p] + data];
    }
  }
}
