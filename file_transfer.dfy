/** The file-transfer protocol of server/file_transfer.py.

    A transfer on one stream connection is the byte sequence
      [4-byte big-endian header length][header][payload]
    answered by the two bytes "OK".  The header is the JSON object
    {name, size}; JSON and UTF-8 coding are not modelled here, so the sender
    takes the header encoder and the receiver the header decoder as
    parameters, and the end-to-end lemmas assume only that the decoder
    undoes the encoder on the header at hand. */
module FileTransfer {
  import opened Common
  import opened Config
  import opened Text
  import opened Paths
  import opened Stream

  /** The decoded JSON header: `file_info['name']` and `file_info['size']`.
      The sender always writes an integer size; a received header may carry
      any JSON value there. */
  datatype Header = Header(name: string, size: Value)

  /** How many payload bytes the receive loop takes at most: an integer size,
      or nothing when it is below 1.  Any other size makes the loop's first
      comparison `received_size < file_size` raise, so nothing is read. */
  function PayloadLimit(h: Header): nat
  {
    if h.size.Int? then Max(h.size.i, 0) else 0
  }

  const LENGTH_LIMIT: nat := 0x1_0000_0000

  /** The acknowledgment payload "OK". */
  const ACK: seq<byte> := ['O' as int, 'K' as int]

  // ---------------------------------------------------------------- framing

  /** `n.to_bytes(4, 'big')`: the base-256 digits of `n`, most significant
      first. */
  function EncodeLength(n: nat): (b: seq<byte>)
    requires n < LENGTH_LIMIT
    ensures |b| == 4
  {
    var m1 := n / 0x100;
    var m2 := m1 / 0x100;
    [m2 / 0x100, m2 % 0x100, m1 % 0x100, n % 0x100]
  }

  /** `int.from_bytes(b, 'big')` for four bytes. */
  function DecodeLength(b: seq<byte>): (n: nat)
    requires |b| == 4
    ensures n < LENGTH_LIMIT
  {
    ((b[0] as int * 0x100 + b[1] as int) * 0x100 + b[2] as int) * 0x100 + b[3] as int
  }

  /** Every header length below 2^32 survives the 4-byte prefix. */
  lemma LengthRoundTrip(n: nat)
    requires n < LENGTH_LIMIT
    ensures DecodeLength(EncodeLength(n)) == n
  {
    var m1 := n / 0x100;
    var m2 := m1 / 0x100;
    assert n == m1 * 0x100 + n % 0x100;
    assert m1 == m2 * 0x100 + m1 % 0x100;
    assert m2 == (m2 / 0x100) * 0x100 + m2 % 0x100;
  }

  /** Every 4-byte prefix is the encoding of the length it decodes to. */
  lemma PrefixRoundTrip(b: seq<byte>)
    requires |b| == 4
    ensures EncodeLength(DecodeLength(b)) == b
  {
    var n := DecodeLength(b);
    var m2 := b[0] as int * 0x100 + b[1] as int;
    var m1 := m2 * 0x100 + b[2] as int;
    assert n == m1 * 0x100 + b[3] as int;
    assert n / 0x100 == m1 && n % 0x100 == b[3];
    assert m1 / 0x100 == m2 && m1 % 0x100 == b[2];
    assert m2 / 0x100 == b[0] && m2 % 0x100 == b[1];
  }

  /** The bytes a sender writes for one header and payload. */
  function Frame(headerBytes: seq<byte>, payload: seq<byte>): (r: seq<byte>)
    requires |headerBytes| < LENGTH_LIMIT
    ensures |r| == 4 + |headerBytes| + |payload|
    ensures DecodeLength(r[..4]) == |headerBytes|
    ensures r[4..4 + |headerBytes|] == headerBytes && r[4 + |headerBytes|..] == payload
  {
    var r := EncodeLength(|headerBytes|) + headerBytes + payload;
    assert r[..4] == EncodeLength(|headerBytes|);
    LengthRoundTrip(|headerBytes|);
    r
  }

  /** Writing the prefix, the header and the payload one after another puts
      one frame after what was already written. */
  lemma FrameAppend(before: seq<byte>, headerBytes: seq<byte>, payload: seq<byte>)
    requires |headerBytes| < LENGTH_LIMIT
    ensures before + EncodeLength(|headerBytes|) + headerBytes + payload == before + Frame(headerBytes, payload)
  {
    assert Frame(headerBytes, payload) == EncodeLength(|headerBytes|) + headerBytes + payload;
  }

  /** How a receiver reads a whole incoming byte stream. */
  datatype Framing =
    | ShortLength       // fewer than four bytes arrive
    | ShortHeader       // fewer header bytes arrive than the prefix announces
    | BadHeader         // the header bytes do not decode
    | Framed(header: Header, payload: seq<byte>)

  /** What the receiver makes of the stream `stream`: the header, and the
      payload bytes up to the declared size (fewer if the stream ends first). */
  function Unframe(stream: seq<byte>, decodeHeader: seq<byte> -> Option<Header>): (r: Framing)
    ensures r.ShortLength? <==> |stream| < 4
    ensures r.ShortHeader? ==> |stream| >= 4 && |stream| < 4 + DecodeLength(stream[..4])
    ensures r.Framed? ==>
      && |stream| >= 4 && 4 + DecodeLength(stream[..4]) + |r.payload| <= |stream|
      && decodeHeader(stream[4..4 + DecodeLength(stream[..4])]) == Some(r.header)
      && r.payload <= stream[4 + DecodeLength(stream[..4])..]
      && |r.payload| <= PayloadLimit(r.header)
      && (|r.payload| < PayloadLimit(r.header) ==> 4 + DecodeLength(stream[..4]) + |r.payload| == |stream|)
  {
    if |stream| < 4 then ShortLength
    else
      var n := DecodeLength(stream[..4]);
      if |stream| - 4 < n then ShortHeader
      else
        match decodeHeader(stream[4..4 + n])
        case None => BadHeader
        case Some(h) => Framed(h, stream[4 + n..][..Min(PayloadLimit(h), |stream| - 4 - n)])
  }

  /** A complete transfer arrives as it was sent: the header the sender encoded
      and the whole payload. */
  lemma TransferRoundTrip(h: Header, headerBytes: seq<byte>, payload: seq<byte>,
                          decodeHeader: seq<byte> -> Option<Header>)
    requires |headerBytes| < LENGTH_LIMIT
    requires decodeHeader(headerBytes) == Some(h)
    requires h.size == Int(|payload|)
    ensures Unframe(Frame(headerBytes, payload), decodeHeader) == Framed(h, payload)
  {
    TruncatedTransfer(h, headerBytes, payload, |payload|, decodeHeader);
  }

  /** A transfer cut short after `m` payload bytes reads as the same header
      with that m-byte prefix as its payload; only the declared size, now
      larger than the payload, shows the shortfall. */
  lemma TruncatedTransfer(h: Header, headerBytes: seq<byte>, payload: seq<byte>, m: nat,
                          decodeHeader: seq<byte> -> Option<Header>)
    requires |headerBytes| < LENGTH_LIMIT
    requires decodeHeader(headerBytes) == Some(h)
    requires h.size == Int(|payload|) && m <= |payload|
    ensures Unframe(Frame(headerBytes, payload[..m]), decodeHeader) == Framed(h, payload[..m])
  {
    var s := Frame(headerBytes, payload[..m]);
    var n := |headerBytes|;
    assert s[..4] == EncodeLength(n);
    LengthRoundTrip(n);
    assert s[4..4 + n] == headerBytes;
    assert s[4 + n..] == payload[..m];
  }

  // ------------------------------------------------------------- _recv_all

  datatype RecvAllResult = Complete(bytes: seq<byte>) | EarlyClose | Fault

  /** `_recv_all(conn, size)`: exactly the next `size` bytes, `None`
      (`EarlyClose`) when the peer closes first, or the exception of a
      stalled `recv` (`Fault`). */
  method RecvAll(conn: Connection, size: nat) returns (r: RecvAllResult)
    modifies conn
    ensures |old(conn.inbox)| >= size ==> r == Complete(old(conn.inbox)[..size]) && conn.inbox == old(conn.inbox)[size..]
    ensures |old(conn.inbox)| < size ==> r == (if conn.peerClosed then EarlyClose else Fault) && conn.inbox == []
    ensures forall i :: |old(conn.requests)| <= i < |conn.requests| ==> 0 < conn.requests[i] <= size
    ensures conn.outbox == old(conn.outbox) && conn.closed == old(conn.closed)
    ensures conn.peerClosed == old(conn.peerClosed) && conn.sendFails == old(conn.sendFails)
  {
    var data: seq<byte> := [];
    while |data| < size
      invariant |data| <= size
      invariant old(conn.inbox) == data + conn.inbox
      invariant |old(conn.requests)| <= |conn.requests|
      invariant forall i :: |old(conn.requests)| <= i < |conn.requests| ==> 0 < conn.requests[i] <= size
      invariant conn.outbox == old(conn.outbox) && conn.closed == old(conn.closed)
      invariant conn.peerClosed == old(conn.peerClosed) && conn.sendFails == old(conn.sendFails)
      decreases size - |data|
    {
      var packet := conn.Recv(size - |data|);
      match packet
      case Stalled =>
        return Fault;
      case Data(bytes) =>
        if bytes == [] {
          return EarlyClose;
        }
        data := data + bytes;
    }
    assert data == old(conn.inbox)[..size];
    return Complete(data);
  }

  // ---------------------------------------------------- choosing the path

  /** The `k`-th candidate save path: the joined path itself, then
      `root_k.ext` for k = 1, 2, ... */
  function Numbered(joined: Path, k: nat): (p: Path)
    ensures k > 0 ==> |p| == |joined| + 1 + |Decimal(k)|
  {
    if k == 0 then joined
    else
      var parts := SplitExt(joined);
      parts.0 + "_" + Decimal(k) + parts.1
  }

  /** A numbered candidate keeps the root of the joined path, followed by
      `_`, and keeps its extension. */
  lemma NumberedShape(joined: Path, k: nat)
    requires k > 0
    ensures var parts := SplitExt(joined);
      parts.0 + "_" <= Numbered(joined, k)
      && Numbered(joined, k)[|Numbered(joined, k)| - |parts.1|..] == parts.1
  {
    var parts := SplitExt(joined);
    var p := Numbered(joined, k);
    assert p == parts.0 + "_" + (Decimal(k) + parts.1);
    assert p[|p| - |parts.1|..] == (Decimal(k) + parts.1)[|Decimal(k)|..];
  }

  /** Candidate `k` is free and every earlier candidate exists. */
  predicate FirstFree(joined: Path, k: nat, existing: set<Path>)
    ensures FirstFree(joined, k, existing) ==> k <= |existing|
  {
    var b := Numbered(joined, k) !in existing
      && forall j :: 0 <= j < k ==> Numbered(joined, j) in existing;
    if b then
      CandidatesBelowSize(joined, k);
      SubsetSize(CandidatesBelow(joined, k), existing);
      b
    else b
  }

  /** Different counters give different candidates. */
  lemma NumberedInjective(joined: Path, a: nat, b: nat)
    requires Numbered(joined, a) == Numbered(joined, b)
    ensures a == b
  {
    var parts := SplitExt(joined);
    if a != 0 && b != 0 {
      var p := Numbered(joined, a);
      var da, db := Decimal(a), Decimal(b);
      assert |da| == |db|;
      var lo := |parts.0| + 1;
      assert p[lo..lo + |da|] == da;
      assert Numbered(joined, b)[lo..lo + |db|] == db;
      DecimalInjective(a, b);
    }
  }

  /** At most one counter is the first free one. */
  lemma FirstFreeUnique(joined: Path, a: nat, b: nat, existing: set<Path>)
    requires FirstFree(joined, a, existing) && FirstFree(joined, b, existing)
    ensures a == b
  {
  }

  /** The candidates below `n`. */
  function CandidatesBelow(joined: Path, n: nat): set<Path>
  {
    set j | 0 <= j < n :: Numbered(joined, j)
  }

  lemma {:induction false} CandidatesBelowSize(joined: Path, n: nat)
    ensures |CandidatesBelow(joined, n)| == n
  {
    if n > 0 {
      CandidatesBelowSize(joined, n - 1);
      CandidatesBelowNext(joined, n - 1);
      CandidateIsNew(joined, n - 1);
      AddFresh(CandidatesBelow(joined, n - 1), Numbered(joined, n - 1), CandidatesBelow(joined, n));
    } else {
      assert CandidatesBelow(joined, n) == {};
    }
  }

  /** The candidates below `n + 1` add the `n`-th to those below `n`. */
  lemma CandidatesBelowNext(joined: Path, n: nat)
    ensures CandidatesBelow(joined, n + 1) == CandidatesBelow(joined, n) + {Numbered(joined, n)}
  {
  }

  /** The `n`-th candidate is none of the earlier ones. */
  lemma CandidateIsNew(joined: Path, n: nat)
    ensures Numbered(joined, n) !in CandidatesBelow(joined, n)
  {
    forall j | 0 <= j < n
      ensures Numbered(joined, j) != Numbered(joined, n)
    {
      if Numbered(joined, j) == Numbered(joined, n) {
        NumberedInjective(joined, j, n);
      }
    }
  }

  /** One more existing candidate: the tried candidates still all exist, and
      there cannot be more of them than existing paths. */
  lemma CandidateStep(joined: Path, counter: nat, existing: set<Path>)
    requires counter >= 1
    requires CandidatesBelow(joined, counter - 1) <= existing
    requires Numbered(joined, counter - 1) in existing
    ensures CandidatesBelow(joined, counter) <= existing
    ensures counter <= |existing|
  {
    CandidatesBelowNext(joined, counter - 1);
    CandidatesBelowSize(joined, counter);
    SubsetSize(CandidatesBelow(joined, counter), existing);
  }

  lemma AddFresh(a: set<Path>, x: Path, b: set<Path>)
    requires x !in a && b == a + {x}
    ensures |b| == |a| + 1
  {
  }

  lemma SubsetSize(a: set<Path>, b: set<Path>)
    requires a <= b
    ensures |a| <= |b|
  {
    assert b == a + (b - a);
  }

  /** The save-path loop: starting from `joined`, keep trying `root_k.ext`
      until the name is free.  The result never names an existing file, and
      it is the first free candidate. */
  method ChooseSavePath(store: FileStore, joined: Path) returns (path: Path, ghost suffix: nat)
    ensures path !in store.files
    ensures path == Numbered(joined, suffix) && FirstFree(joined, suffix, store.files.Keys)
    ensures joined !in store.files ==> path == joined
  {
    path := joined;
    var counter: nat := 1;
    var parts := SplitExt(path);
    var taken := store.Exists(path);
    while taken
      invariant counter >= 1
      invariant parts == SplitExt(joined)
      invariant path == Numbered(joined, counter - 1)
      invariant taken == (path in store.files)
      invariant CandidatesBelow(joined, counter - 1) <= store.files.Keys
      decreases |store.files.Keys| - (counter - 1)
    {
      CandidateStep(joined, counter, store.files.Keys);
      path := parts.0 + "_" + Decimal(counter) + parts.1;
      counter := counter + 1;
      taken := store.Exists(path);
    }
    suffix := counter - 1;
    forall j | 0 <= j < suffix ensures Numbered(joined, j) in store.files {
      assert Numbered(joined, j) in CandidatesBelow(joined, suffix);
    }
  }

  // ------------------------------------------------------------- receiver

  /** The requests of a receive loop for `size` bytes, built one request at a
      time: `marks[i]` is the count received when request `i` was made, 0
      first and then growing by at least one and at most what was asked the
      time before, and every request asks for `min(CHUNK_SIZE, size - marks[i])`. */
  ghost predicate RequestLog(reqs: seq<int>, marks: seq<int>, size: int)
    decreases |marks|
  {
    if marks == [] then reqs == []
    else
      var k := |marks| - 1;
      && |reqs| == |marks|
      && RequestLog(reqs[..k], marks[..k], size)
      && 0 <= marks[k] < size && reqs[k] == Min(CHUNK_SIZE, size - marks[k])
      && (k == 0 ==> marks[k] == 0)
      && (k > 0 ==> marks[k - 1] < marks[k] <= marks[k - 1] + reqs[k - 1])
  }

  /** What a request log says about every request: it asks for
      `min(CHUNK_SIZE, size - marks[i])`, which is at least one byte and at
      most one chunk, and the counts start at 0 and grow by at least one and
      at most the previous request. */
  lemma {:induction false} RequestLogMeaning(reqs: seq<int>, marks: seq<int>, size: int)
    requires RequestLog(reqs, marks, size)
    ensures |reqs| == |marks|
    ensures marks != [] ==> marks[0] == 0
    ensures forall i :: 0 <= i < |marks| ==>
      0 <= marks[i] < size && reqs[i] == Min(CHUNK_SIZE, size - marks[i]) && 0 < reqs[i] <= CHUNK_SIZE
    ensures forall i :: 0 < i < |marks| ==> marks[i - 1] < marks[i] <= marks[i - 1] + reqs[i - 1]
    decreases |marks|
  {
    if marks != [] {
      var k := |marks| - 1;
      var rs, ms := reqs[..k], marks[..k];
      RequestLogMeaning(rs, ms, size);
      forall i | 0 <= i < |marks|
        ensures 0 <= marks[i] < size && reqs[i] == Min(CHUNK_SIZE, size - marks[i]) && 0 < reqs[i] <= CHUNK_SIZE
      {
        if i < k {
          assert marks[i] == ms[i] && reqs[i] == rs[i];
        }
      }
      forall i | 0 < i < |marks|
        ensures marks[i - 1] < marks[i] <= marks[i - 1] + reqs[i - 1]
      {
        if i < k {
          assert marks[i] == ms[i] && marks[i - 1] == ms[i - 1] && reqs[i - 1] == rs[i - 1];
        }
      }
      if k > 0 {
        assert marks[0] == ms[0];
      }
    }
  }

  /** A request log of a loop that has `received` bytes in and goes on. */
  ghost predicate LoggedUpTo(reqs: seq<int>, marks: seq<int>, size: int, received: int)
  {
    && RequestLog(reqs, marks, size)
    && (marks == [] ==> received == 0)
    && (marks != [] ==> marks[|marks| - 1] < received <= marks[|marks| - 1] + reqs[|reqs| - 1])
  }

  /** One more request, made with `received` bytes in, extends the log. */
  lemma RequestLogStep(reqs: seq<int>, marks: seq<int>, size: int, received: int)
    requires LoggedUpTo(reqs, marks, size, received)
    requires received < size
    ensures RequestLog(reqs + [Min(CHUNK_SIZE, size - received)], marks + [received], size)
  {
    var reqs', marks' := reqs + [Min(CHUNK_SIZE, size - received)], marks + [received];
    assert reqs'[..|marks|] == reqs && marks'[..|marks|] == marks;
    RequestLogMeaning(reqs, marks, size);
  }

  /** A request answered with `got` bytes, at least one and at most asked,
      leaves a log of a loop that has `received + got` bytes in. */
  lemma RequestLogAdvance(reqs: seq<int>, marks: seq<int>, size: int, received: int, got: int)
    requires LoggedUpTo(reqs, marks, size, received)
    requires received < size && 0 < got <= Min(CHUNK_SIZE, size - received)
    ensures LoggedUpTo(reqs + [Min(CHUNK_SIZE, size - received)], marks + [received], size, received + got)
  {
    RequestLogStep(reqs, marks, size, received);
  }

  /** The receive loop inside `with open(save_path, 'wb')`: ask for
      `min(CHUNK_SIZE, size - received)` bytes at a time and append each chunk
      to the open file, until `size` bytes have arrived or the peer closes.
      The file then holds exactly the bytes received, which are the start of
      the stream and never more than `size`.  A stalled `recv` raises out of
      the loop (`stalled`), leaving the partial file on disk.  `marks` are the
      values of `received` at each `recv`. */
  method ReceivePayload(conn: Connection, store: FileStore, path: Path, size: int)
    returns (data: seq<byte>, stalled: bool, ghost asked: seq<int>, ghost marks: seq<int>)
    requires path in store.files && store.files[path] == []
    modifies conn, store
    ensures store.files == old(store.files)[path := data]
    ensures |data| == Min(Max(size, 0), |old(conn.inbox)|)
    ensures data == old(conn.inbox)[..|data|] && conn.inbox == old(conn.inbox)[|data|..]
    ensures stalled <==> |data| < size && !conn.peerClosed
    ensures conn.requests == old(conn.requests) + asked && RequestLog(asked, marks, size)
    ensures marks != [] <==> size > 0
    ensures marks != [] ==> marks[|marks| - 1] <= |data|
    ensures conn.outbox == old(conn.outbox) && conn.closed == old(conn.closed)
    ensures conn.peerClosed == old(conn.peerClosed) && conn.sendFails == old(conn.sendFails)
  {
    data, stalled, asked, marks := [], false, [], [];
    assert store.files == old(store.files)[path := data];
    var received := 0;
    while received < size
      invariant received == |data| <= Max(size, 0)
      invariant old(conn.inbox) == data + conn.inbox
      invariant store.files == old(store.files)[path := data]
      invariant conn.requests == old(conn.requests) + asked && LoggedUpTo(asked, marks, size, received)
      invariant conn.outbox == old(conn.outbox) && conn.closed == old(conn.closed)
      invariant conn.peerClosed == old(conn.peerClosed) && conn.sendFails == old(conn.sendFails)
      decreases size - received
    {
      var n := Min(CHUNK_SIZE, size - received);
      var chunk := conn.Recv(n);
      assert conn.requests == old(conn.requests) + (asked + [n]);
      match chunk
      case Stalled =>
        RequestLogStep(asked, marks, size, received);
        asked, marks, stalled := asked + [n], marks + [received], true;
        break;
      case Data(bytes) =>
        if bytes == [] {
          RequestLogStep(asked, marks, size, received);
          asked, marks := asked + [n], marks + [received];
          break;
        }
        RequestLogAdvance(asked, marks, size, received, |bytes|);
        asked, marks := asked + [n], marks + [received];
        store.Append(path, bytes);
        data := data + bytes;
        received := received + |bytes|;
    }
  }

  /** What became of one incoming connection. */
  datatype Receipt =
    | NoHeader        // the peer closed before four bytes arrived: plain return
    | HeaderFailed    // the header could not be read or decoded: an exception
    | OpenFailed(path: Path, header: Header)  // `open(save_path, 'wb')` raised
    | Stored(path: Path, header: Header, data: seq<byte>, acked: bool)
    | PayloadFailed(path: Path, header: Header, data: seq<byte>)

  /** How reading the header ends. */
  datatype HeaderRead = NoPrefix | Failed | Decoded(header: Header)

  class FileReceiver {
    const host: string
    const port: nat
    /** ~/Downloads/LANFileShare. */
    const downloadDir: Path

    /** `home` is what `os.path.expanduser("~")` gives. */
    constructor (home: Path, host: string := "0.0.0.0", port: nat := DEFAULT_TCP_PORT)
      ensures this.host == host && this.port == port
      ensures downloadDir == Join(Join(home, "Downloads"), "LANFileShare")
    {
      this.host, this.port := host, port;
      downloadDir := Join(Join(home, "Downloads"), "LANFileShare");
    }

    /** The first steps of `_handle_client`: read the length prefix and the
        header and decode it.  The outcome is that of framing the stream:
        `NoPrefix` when the peer closes before four bytes arrive, `Failed` when
        the header cannot be read or decoded (an exception), and otherwise the
        header, with the connection left at the first payload byte. */
    method ReadHeader(conn: Connection, decodeHeader: seq<byte> -> Option<Header>)
      returns (r: HeaderRead)
      modifies conn
      ensures var f := Unframe(old(conn.inbox), decodeHeader);
        && (f.ShortLength? ==> r == (if conn.peerClosed then NoPrefix else Failed))
        && (f.ShortHeader? || f.BadHeader? ==> r == Failed)
        && (f.Framed? ==> r == Decoded(f.header)
                          && conn.inbox == old(conn.inbox)[4 + DecodeLength(old(conn.inbox)[..4])..])
      ensures conn.outbox == old(conn.outbox) && conn.closed == old(conn.closed)
      ensures conn.peerClosed == old(conn.peerClosed) && conn.sendFails == old(conn.sendFails)
    {
      ghost var stream := conn.inbox;
      var prefix := RecvAll(conn, 4);
      if prefix.EarlyClose? {
        return NoPrefix;
      }
      if prefix.Fault? {
        return Failed;
      }
      var headerSize := DecodeLength(prefix.bytes);
      var headerBytes := RecvAll(conn, headerSize);
      if !headerBytes.Complete? {
        return Failed;
      }
      assert headerBytes.bytes == stream[4..4 + headerSize];
      var decoded := decodeHeader(headerBytes.bytes);
      if decoded.None? {
        return Failed;
      }
      assert conn.inbox == stream[4 + headerSize..];
      r := Decoded(decoded.value);
    }

    /** The `with open(save_path, 'wb')` block of `_handle_client` and the
        acknowledgment after it: open the file, run the receive loop, and
        send "OK" unless the open or the loop raised.  A size that is not an
        integer raises at the loop's first comparison, after the open has
        created the empty file. */
    method SaveAs(conn: Connection, store: FileStore, path: Path, h: Header) returns (receipt: Receipt)
      modifies conn, store
      ensures receipt.OpenFailed? || receipt.Stored? || receipt.PayloadFailed?
      ensures receipt.path == path && receipt.header == h
      ensures receipt.OpenFailed? <==> path in store.unwritable
      ensures receipt.OpenFailed? ==>
        store.files == old(store.files) && conn.inbox == old(conn.inbox) && conn.outbox == old(conn.outbox)
      ensures !receipt.OpenFailed? ==>
        && |receipt.data| == Min(PayloadLimit(h), |old(conn.inbox)|)
        && receipt.data == old(conn.inbox)[..|receipt.data|]
        && (receipt.Stored? <==> h.size.Int? && (conn.peerClosed || |receipt.data| >= h.size.i))
        && store.files == old(store.files)[path := receipt.data]
      ensures receipt.Stored? ==>
        receipt.acked == !conn.sendFails
        && conn.outbox == old(conn.outbox) + (if receipt.acked then ACK else [])
      ensures receipt.PayloadFailed? ==> conn.outbox == old(conn.outbox)
      ensures !h.size.Int? ==> conn.inbox == old(conn.inbox)
      ensures conn.closed == old(conn.closed)
      ensures conn.peerClosed == old(conn.peerClosed) && conn.sendFails == old(conn.sendFails)
    {
      var created := store.Create(path);
      if !created {
        receipt := OpenFailed(path, h);
      } else if !h.size.Int? {
        receipt := PayloadFailed(path, h, []);
      } else {
        var data, stalled, asked, marks := ReceivePayload(conn, store, path, h.size.i);
        if stalled {
          receipt := PayloadFailed(path, h, data);
        } else {
          var acked := conn.SendAll(ACK);
          receipt := Stored(path, h, data, acked);
        }
      }
    }

    /** The rest of `_handle_client` once the header is decoded: pick a free
        save path for the header's name as given (directories in the name are
        not stripped) and save the payload there. */
    method StorePayload(conn: Connection, store: FileStore, h: Header) returns (receipt: Receipt)
      modifies conn, store
      ensures receipt.OpenFailed? || receipt.Stored? || receipt.PayloadFailed?
      ensures receipt.header == h
      ensures receipt.path !in old(store.files)
      ensures exists k :: receipt.path == Numbered(Join(downloadDir, h.name), k)
                          && FirstFree(Join(downloadDir, h.name), k, old(store.files).Keys)
      ensures receipt.OpenFailed? <==> receipt.path in store.unwritable
      ensures receipt.OpenFailed? ==>
        store.files == old(store.files) && conn.inbox == old(conn.inbox) && conn.outbox == old(conn.outbox)
      ensures !receipt.OpenFailed? ==>
        && |receipt.data| == Min(PayloadLimit(h), |old(conn.inbox)|)
        && receipt.data == old(conn.inbox)[..|receipt.data|]
        && (receipt.Stored? <==> h.size.Int? && (conn.peerClosed || |receipt.data| >= h.size.i))
        && store.files == old(store.files)[receipt.path := receipt.data]
      ensures receipt.Stored? ==>
        receipt.acked == !conn.sendFails
        && conn.outbox == old(conn.outbox) + (if receipt.acked then ACK else [])
      ensures receipt.PayloadFailed? ==> conn.outbox == old(conn.outbox)
      ensures conn.closed == old(conn.closed)
      ensures conn.peerClosed == old(conn.peerClosed) && conn.sendFails == old(conn.sendFails)
    {
      var joined := Join(downloadDir, h.name);
      var path, k := ChooseSavePath(store, joined);
      receipt := SaveAs(conn, store, path, h);
    }

    /** `_handle_client`: the header, then the payload stored under a fresh
        path and "OK" sent whenever the file opens and the receive loop ends
        without an exception, whether or not the declared size was reached.
        The connection is closed on every path. */
    method HandleClient(conn: Connection, store: FileStore,
                        decodeHeader: seq<byte> -> Option<Header>)
      returns (receipt: Receipt)
      modifies conn, store
      ensures conn.closed
      ensures var f := Unframe(old(conn.inbox), decodeHeader);
        f.ShortLength? ==> receipt == (if conn.peerClosed then NoHeader else HeaderFailed)
      ensures var f := Unframe(old(conn.inbox), decodeHeader);
        f.ShortHeader? || f.BadHeader? ==> receipt == HeaderFailed
      ensures receipt.NoHeader? || receipt.HeaderFailed? || receipt.OpenFailed? ==>
        store.files == old(store.files) && conn.outbox == old(conn.outbox)
      ensures var f := Unframe(old(conn.inbox), decodeHeader);
        f.Framed? ==>
          && (receipt.OpenFailed? || receipt.Stored? || receipt.PayloadFailed?)
          && receipt.header == f.header
          && receipt.path !in old(store.files)
          && (receipt.OpenFailed? <==> receipt.path in store.unwritable)
          && (exists k :: receipt.path == Numbered(Join(downloadDir, f.header.name), k)
                          && FirstFree(Join(downloadDir, f.header.name), k, old(store.files).Keys))
          && (!receipt.OpenFailed? ==>
                && receipt.data == f.payload
                && (receipt.Stored? <==> f.header.size.Int? && (conn.peerClosed || |f.payload| >= f.header.size.i))
                && store.files == old(store.files)[receipt.path := receipt.data])
      ensures receipt.Stored? ==>
        receipt.acked == !conn.sendFails
        && conn.outbox == old(conn.outbox) + (if receipt.acked then ACK else [])
      ensures receipt.PayloadFailed? ==> conn.outbox == old(conn.outbox)
    {
      ghost var stream := conn.inbox;
      var header := ReadHeader(conn, decodeHeader);
      match header {
        case NoPrefix =>
          receipt := NoHeader;
        case Failed =>
          receipt := HeaderFailed;
        case Decoded(h) =>
          ghost var rest := conn.inbox;
          receipt := StorePayload(conn, store, h);
          assert !receipt.OpenFailed? ==> receipt.data == rest[..Min(PayloadLimit(h), |rest|)];
      }
      conn.Close();
    }
  }

  // --------------------------------------------------------------- sender

  /** Number of chunks a payload of `size` bytes is sent in. */
  function ChunkCount(size: nat): nat
  {
    (size + CHUNK_SIZE - 1) / CHUNK_SIZE
  }

  /** Bytes sent once `i` chunks have gone out. */
  function SentAfter(i: nat, size: nat): nat
  {
    Min(i * CHUNK_SIZE, size)
  }

  /** The first `k` progress calls `(sent_size, file_size)` of a transfer. */
  function ProgressReports(size: nat, k: nat): (rs: seq<(nat, nat)>)
    ensures |rs| == k
    ensures forall i :: 0 <= i < k ==> rs[i].0 <= size && rs[i].1 == size
  {
    seq(k, i requires 0 <= i < k => (SentAfter(i + 1, size), size))
  }

  /** Every chunk but the last is full, and the chunks cover the payload. */
  lemma ChunkCountBounds(size: nat)
    ensures ChunkCount(size) * CHUNK_SIZE >= size
    ensures size > 0 ==> (ChunkCount(size) - 1) * CHUNK_SIZE < size
    ensures size == 0 <==> ChunkCount(size) == 0
  {
    var n := ChunkCount(size);
    assert size + CHUNK_SIZE - 1 == n * CHUNK_SIZE + (size + CHUNK_SIZE - 1) % CHUNK_SIZE;
  }

  /** Before the last chunk fewer than `size` bytes are out; after it, all. */
  lemma SentAfterChunks(i: nat, size: nat)
    requires i <= ChunkCount(size)
    ensures i < ChunkCount(size) ==> SentAfter(i, size) < size
    ensures i == ChunkCount(size) ==> SentAfter(i, size) == size
  {
    ChunkCountBounds(size);
    if i < ChunkCount(size) {
      assert i * CHUNK_SIZE <= (ChunkCount(size) - 1) * CHUNK_SIZE;
    }
  }

  /** The progress calls of a completed send: one per chunk, with strictly
      increasing cumulative counts, each positive and at most the size, the
      last equal to the size; none at all for an empty file. */
  lemma ProgressMonotone(size: nat)
    ensures var r := ProgressReports(size, ChunkCount(size));
      && |r| == ChunkCount(size)
      && (size == 0 <==> r == [])
      && (forall i :: 0 <= i < |r| ==> 0 < r[i].0 <= size && r[i].1 == size)
      && (forall i, j :: 0 <= i < j < |r| ==> r[i].0 < r[j].0)
      && (size > 0 ==> r[|r| - 1].0 == size)
  {
    var n := ChunkCount(size);
    var r := ProgressReports(size, n);
    ChunkCountBounds(size);
    forall i | 0 <= i < n ensures 0 < r[i].0 <= size {
      SentAfterChunks(i, size);
    }
    forall i, j | 0 <= i < j < n ensures r[i].0 < r[j].0 {
      SentAfterChunks(i + 1, size);
    }
    if size > 0 {
      SentAfterChunks(n, size);
    }
  }

  /** A 2 MiB file is reported at 1 MiB and then at 2 MiB. */
  lemma TwoChunkProgress()
    ensures ProgressReports(2 * CHUNK_SIZE, ChunkCount(2 * CHUNK_SIZE))
            == [(CHUNK_SIZE, 2 * CHUNK_SIZE), (2 * CHUNK_SIZE, 2 * CHUNK_SIZE)]
  {
    assert ChunkCount(2 * CHUNK_SIZE) == 2;
  }

  /** The callback object the sender was given: whether it carries an
      `interrupted` attribute. */
  datatype Callback = Callback(hasInterruptedFlag: bool)

  /** How `connect` to the target ends. */
  datatype ConnectOutcome = Accepted | Refused | NoAnswer

  /** How `send_file` ends: normally, or with the exception it raises. */
  datatype SendOutcome =
    | Sent              // returns; the reply, whatever it was, is only logged
    | NotFound          // FileNotFoundError, before any socket exists
    | ConnectionRefused // ConnectionRefusedError from connect
    | ConnectTimedOut   // socket.timeout from connect
    | HeaderTooLarge    // OverflowError: the header length does not fit four bytes
    | SocketError       // sendall raised
    | Interrupted       // InterruptedError: the callback's flag was set
    | AckTimedOut       // TimeoutError: no reply to wait for

  /** The cancellation check before chunk `i`: the callback carries the flag
      and the flag, set from check `cancelFrom` on, is set. */
  predicate CancelSeen(callback: Option<Callback>, cancelFrom: Option<nat>, i: nat)
  {
    callback.Some? && callback.value.hasInterruptedFlag && cancelFrom.Some? && cancelFrom.value <= i
  }

  /** How many chunks go out before the send stops: all `n`, or as many as
      precede the first check that sees the flag. */
  function ChunksSent(callback: Option<Callback>, cancelFrom: Option<nat>, n: nat): (k: nat)
    ensures k <= n
    ensures k < n <==> CancelSeen(callback, cancelFrom, k) && k < n
    ensures forall i :: 0 <= i < k ==> !CancelSeen(callback, cancelFrom, i)
  {
    if cancelFrom.Some? && CancelSeen(callback, cancelFrom, cancelFrom.value) && cancelFrom.value < n
    then cancelFrom.value
    else n
  }

  class FileSender {
    var transferCallback: Option<Callback>

    constructor ()
      ensures transferCallback == None
    {
      transferCallback := None;
    }

    /** The send loop of `send_file`: before each chunk, check the callback's
        `interrupted` flag and stop if it is set; otherwise send the chunk and
        report the cumulative count to the callback, if there is one. */
    method SendPayload(conn: Connection, content: seq<byte>, cancelFrom: Option<nat>)
      returns (interrupted: bool, reports: seq<(nat, nat)>)
      requires !conn.sendFails
      modifies conn
      ensures var size := |content|;
        var k := ChunksSent(transferCallback, cancelFrom, ChunkCount(size));
        && conn.outbox == old(conn.outbox) + content[..SentAfter(k, size)]
        && reports == (if transferCallback.Some? then ProgressReports(size, k) else [])
        && (interrupted <==> k < ChunkCount(size))
      ensures conn.inbox == old(conn.inbox) && conn.requests == old(conn.requests)
      ensures conn.closed == old(conn.closed)
      ensures conn.peerClosed == old(conn.peerClosed) && conn.sendFails == old(conn.sendFails)
    {
      var size := |content|;
      ghost var stop := ChunksSent(transferCallback, cancelFrom, ChunkCount(size));
      reports := [];
      var sent: nat := 0;
      var i: nat := 0;
      while sent < size
        invariant i <= stop && sent == SentAfter(i, size)
        invariant conn.outbox == old(conn.outbox) + content[..sent]
        invariant reports == (if transferCallback.Some? then ProgressReports(size, i) else [])
        invariant conn.inbox == old(conn.inbox) && conn.requests == old(conn.requests)
        invariant conn.closed == old(conn.closed)
        invariant conn.peerClosed == old(conn.peerClosed) && conn.sendFails == old(conn.sendFails)
        decreases size - sent
      {
        SentAfterChunks(i, size);
        var chunk := content[sent..Min(sent + CHUNK_SIZE, size)];
        if transferCallback.Some? && transferCallback.value.hasInterruptedFlag
           && cancelFrom.Some? && cancelFrom.value <= i {
          return true, reports;
        }
        var _ := conn.SendAll(chunk);
        assert content[..sent + |chunk|] == content[..sent] + chunk;
        sent := sent + |chunk|;
        i := i + 1;
        if transferCallback.Some? {
          reports := reports + [(sent, size)];
        }
      }
      SentAfterChunks(i, size);
      interrupted := false;
    }

    /** The part of `send_file` after the header is encoded: write the length
        prefix, the header and the payload, then wait for any reply, and
        close the socket however that ends. */
    method Transmit(conn: Connection, headerBytes: seq<byte>, content: seq<byte>, cancelFrom: Option<nat>)
      returns (outcome: SendOutcome, reports: seq<(nat, nat)>)
      requires |headerBytes| < LENGTH_LIMIT
      modifies conn
      ensures conn.closed
      ensures conn.sendFails ==>
        outcome == SocketError && conn.outbox == old(conn.outbox) && reports == []
      ensures !conn.sendFails ==>
        var size := |content|;
        var k := ChunksSent(transferCallback, cancelFrom, ChunkCount(size));
        && conn.outbox == old(conn.outbox) + Frame(headerBytes, content[..SentAfter(k, size)])
        && reports == (if transferCallback.Some? then ProgressReports(size, k) else [])
        && (k < ChunkCount(size) ==> outcome == Interrupted && conn.inbox == old(conn.inbox))
        && (k == ChunkCount(size) ==>
              outcome == if old(conn.inbox) == [] && !conn.peerClosed then AckTimedOut else Sent)
    {
      var ok := conn.SendAll(EncodeLength(|headerBytes|));
      if ok {
        ok := conn.SendAll(headerBytes);
      }
      if !ok {
        conn.Close();
        return SocketError, [];
      }
      ghost var framed := conn.outbox;
      assert framed == old(conn.outbox) + EncodeLength(|headerBytes|) + headerBytes;
      var interrupted;
      interrupted, reports := SendPayload(conn, content, cancelFrom);
      ghost var k := ChunksSent(transferCallback, cancelFrom, ChunkCount(|content|));
      FrameAppend(old(conn.outbox), headerBytes, content[..SentAfter(k, |content|)]);
      if interrupted {
        conn.Close();
        return Interrupted, reports;
      }
      var reply := conn.Recv(1024);
      conn.Close();
      outcome := if reply.Stalled? then AckTimedOut else Sent;
    }

    /** `send_file`: refuse a missing file before touching the network, then
        connect, write the length prefix, the header `{name: basename, size}`
        and the payload chunk by chunk, checking the cancellation flag before
        each chunk and reporting cumulative progress after it, and finally wait
        for any reply.  `cancelFrom` is the first check at which the caller's
        flag is set; `connect` is how connecting to the target ends. */
    method SendFile(store: FileStore, filePath: Path, connect: ConnectOutcome, conn: Connection,
                    cancelFrom: Option<nat>, encodeHeader: Header -> seq<byte>)
      returns (outcome: SendOutcome, reports: seq<(nat, nat)>)
      modifies conn
      ensures outcome == NotFound <==> filePath !in store.files
      ensures outcome == NotFound ==> unchanged(conn) && reports == []
      ensures outcome != NotFound ==> conn.closed
      ensures filePath in store.files && connect != Accepted ==>
        outcome == (if connect == Refused then ConnectionRefused else ConnectTimedOut)
        && conn.outbox == old(conn.outbox) && reports == []
      ensures filePath in store.files && connect == Accepted ==>
        var content := store.files[filePath];
        var size := |content|;
        var headerBytes := encodeHeader(Header(Basename(filePath), Int(size)));
        if |headerBytes| >= LENGTH_LIMIT then
          outcome == HeaderTooLarge && conn.outbox == old(conn.outbox) && reports == []
        else if conn.sendFails then
          outcome == SocketError && conn.outbox == old(conn.outbox) && reports == []
        else
          var k := ChunksSent(transferCallback, cancelFrom, ChunkCount(size));
          && conn.outbox == old(conn.outbox) + Frame(headerBytes, content[..SentAfter(k, size)])
          && reports == (if transferCallback.Some? then ProgressReports(size, k) else [])
          && (k < ChunkCount(size) ==> outcome == Interrupted && conn.inbox == old(conn.inbox))
          && (k == ChunkCount(size) ==>
                outcome == if old(conn.inbox) == [] && !conn.peerClosed then AckTimedOut else Sent)
    {
      reports := [];
      var present := store.Exists(filePath);
      if !present {
        return NotFound, [];
      }
      var content := store.files[filePath];
      var size := |content|;
      var name := Basename(filePath);
      if connect != Accepted {
        conn.Close();
        outcome := if connect == Refused then ConnectionRefused else ConnectTimedOut;
        return;
      }
      var headerBytes := encodeHeader(Header(name, Int(size)));
      if |headerBytes| >= LENGTH_LIMIT {
        conn.Close();
        return HeaderTooLarge, [];
      }
      outcome, reports := Transmit(conn, headerBytes, content, cancelFrom);
    }
  }
}
