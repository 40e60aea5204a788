/**
 The stop-and-wait protocol of fileTransmit/fileTransmit.c as a step relation: a client, a
 channel that carries at most one frame and may lose it or change one byte of a data frame, and
 a server. What is proved holds in every state of every run.
 */
module StopAndWait {
  import opened Bytes
  import opened FileTransmit

  /** Which acknowledgement of fileSend the client is at. */
  datatype Phase = Starting | Sending | Ending

  /** ret is the value fileSend has returned; count is the number of chunks acknowledged. */
  datatype Client = Client(phase: Phase, awaiting: bool, ret: Option<int>, position: nat, eof: bool, count: nat)

  datatype Channel = Empty | Request(frame: Frame, changed: bool) | Reply(status: int)

  /** The server listens, is about to reply (and then perhaps to leave its loop), or has left it. */
  datatype Mode = Listening | Replying(status: int, leaves: bool) | Stopped

  datatype Server = Server(mode: Mode, store: Store)

  datatype State = State(client: Client, channel: Channel, server: Server)

  ghost predicate Init(s: State) {
    && s.client == Client(Starting, false, None, 0, false, 0)
    && s.channel == Empty
    && s.server == Server(Listening, Store(false, [], 0, 0))
  }

  // ---------------------------------------------------------------- client steps

  ghost predicate Active(c: Client) {
    c.ret.None? && !c.awaiting
  }

  /** The client puts a frame into the channel and waits, or fails to send and returns -1. */
  ghost predicate Sends(s: State, t: State, c: Client, f: Frame) {
    && s.channel == Empty
    && t.server == s.server
    && (|| (t.channel == Request(f, false) && t.client == c.(awaiting := true))
        || (t.channel == Empty && t.client == c.(ret := Some(-1))))
  }

  ghost predicate SendStart(file: seq<byte>, s: State, t: State) {
    Active(s.client) && s.client.phase == Starting && Sends(s, t, s.client, Start(|file|))
  }

  /** One round of the loop in sendFileData, up to the wait. */
  ghost predicate SendData(file: seq<byte>, s: State, t: State) {
    && Active(s.client) && s.client.phase == Sending && !s.client.eof
    && s.client.position <= |file|
    && var end := Min(s.client.position + TRANSMIT_SIZE, |file|);
       var buf := file[s.client.position..end];
       Sends(s, t, s.client.(position := end, eof := |buf| < TRANSMIT_SIZE), PacketOf(buf))
  }

  ghost predicate SendEnd(s: State, t: State) {
    && Active(s.client) && s.client.phase == Sending && s.client.eof
    && Sends(s, t, s.client.(phase := Ending), End)
  }

  /** recvAck returns the status in the channel. */
  ghost predicate TakeReply(s: State, t: State) {
    && s.client.ret.None? && s.client.awaiting && s.channel.Reply?
    && t.channel == Empty && t.server == s.server
    && t.client == Acknowledged(s.client, s.channel.status)
  }

  /** recvAck fails in the socket, which it reports as -1. */
  ghost predicate FailReply(s: State, t: State) {
    && s.client.ret.None? && s.client.awaiting
    && t.channel == s.channel && t.server == s.server
    && t.client == Acknowledged(s.client, -1)
  }

  /** The client after recvAck has returned: it goes on, or fileSend returns. */
  function Acknowledged(c: Client, status: int): Client {
    match c.phase
    case Starting => if status == SUCCESS then c.(phase := Sending, awaiting := false) else c.(ret := Some(status))
    case Sending => if status == SUCCESS then c.(count := c.count + 1, awaiting := false) else c.(ret := Some(-1))
    case Ending => c.(ret := Some(status))
  }

  // ---------------------------------------------------------------- server steps

  function Served(v: Store, f: Frame, room: nat): (s: Server)
    ensures s.mode.Replying?
  {
    var (w, ret) := Handle(v, f, room);
    Server(Replying(if ret < 0 then FAIL else SUCCESS, ret < 0 || f.End?), w)
  }

  ghost predicate Receive(s: State, t: State, room: nat) {
    && s.server.mode == Listening && s.channel.Request?
    && t.client == s.client && t.channel == Empty
    && t.server == Served(s.server.store, s.channel.frame, room)
  }

  ghost predicate SendReply(s: State, t: State) {
    && s.server.mode.Replying? && s.channel == Empty
    && t.client == s.client && t.channel == Reply(s.server.mode.status)
    && t.server == s.server.(mode := if s.server.mode.leaves then Stopped else Listening)
  }

  /** recvEtherFrame fails in the socket and fileRecv returns. */
  ghost predicate FailReceive(s: State, t: State) {
    && s.server.mode == Listening
    && t == s.(server := s.server.(mode := Stopped))
  }

  // ---------------------------------------------------------------- channel steps

  ghost predicate Lose(s: State, t: State) {
    s.channel != Empty && t == s.(channel := Empty)
  }

  /** Frame g is frame f with the byte at i changed. */
  ghost predicate Differs(f: Frame, g: Frame, i: nat) {
    && f.Data? && g.Data? && i < |f.context| && |g.context| == |f.context|
    && g == f.(context := f.context[i := g.context[i]]) && g.context[i] != f.context[i]
  }

  ghost predicate Change(s: State, t: State, i: nat) {
    && s.channel.Request? && !s.channel.changed
    && t.client == s.client && t.server == s.server
    && t.channel.Request? && t.channel.changed
    && Differs(s.channel.frame, t.channel.frame, i)
  }

  ghost predicate Next(file: seq<byte>, s: State, t: State) {
    || SendStart(file, s, t)
    || SendData(file, s, t)
    || SendEnd(s, t)
    || TakeReply(s, t)
    || FailReply(s, t)
    || (exists room: nat :: Receive(s, t, room))
    || SendReply(s, t)
    || FailReceive(s, t)
    || Lose(s, t)
    || (exists i: nat :: Change(s, t, i))
  }

  /** A run from an initial state, one state after the other. */
  ghost predicate Run(file: seq<byte>, run: seq<State>) {
    && run != [] && Init(run[0])
    && forall i: nat :: i + 1 < |run| ==> Next(file, run[i], run[i + 1])
  }

  // ---------------------------------------------------------------- invariant

  /** The frame the client has to wait for an answer to. */
  ghost predicate Expected(file: seq<byte>, c: Client, f: Frame, changed: bool) {
    match c.phase
    case Starting => f == Start(|file|)
    case Sending =>
      && c.count < ChunkCount(file)
      && (if changed then exists i: nat :: Differs(Packet(file, c.count), f, i) else f == Packet(file, c.count))
    case Ending => f == End
  }

  /** What an answer of SUCCESS stands for. */
  ghost predicate Granted(c: Client, v: Server) {
    match c.phase
    case Starting => v.store.isOpen
    case Sending => v.store.recvCount == c.count + 1
    case Ending => true
  }

  /** The client's place in the file. */
  ghost predicate Placed(file: seq<byte>, c: Client) {
    var n := ChunkCount(file);
    && c.count <= n
    && (c.phase == Starting ==> c.count == 0)
    && (c.phase == Sending && c.awaiting ==> c.count < n)
    && (c.phase == Ending ==> c.count == n)
    && (c.ret.None? ==>
         var read := if c.phase == Sending && c.awaiting then c.count + 1 else c.count;
         c.position == Min(TRANSMIT_SIZE * read, |file|) && (c.eof <==> read == n))
  }

  /** The server holds whole chunks, or has failed to write one and is leaving. */
  ghost predicate Holds(file: seq<byte>, c: Client, v: Server) {
    && v.store.recvCount <= ChunkCount(file)
    && (|| v.store.file == Prefix(file, v.store.recvCount)
        || (&& c.phase == Sending && c.awaiting && v.store.recvCount == c.count
            && (v.mode == Stopped || v.mode == Replying(FAIL, true))
            && v.store.file <= file))
    && (c.phase != Starting ==> v.store.isOpen)
    && (v.store.recvCount == c.count || (v.store.recvCount == c.count + 1 && c.phase == Sending && c.awaiting))
  }

  /** Whose turn it is: at most one of request, pending reply and reply exists, and only for a waiting client. */
  ghost predicate Turn(file: seq<byte>, s: State) {
    && (s.channel.Request? ==>
         && s.server.store.recvCount == s.client.count
         && s.server.store.file == Prefix(file, s.client.count)
         && Expected(file, s.client, s.channel.frame, s.channel.changed))
    && (s.channel != Empty ==> !s.server.mode.Replying?)
    && (s.channel != Empty ==> s.client.awaiting)
    && (s.server.mode.Replying? ==> s.client.awaiting)
    && (s.channel == Reply(SUCCESS) ==> Granted(s.client, s.server))
    && (s.server.mode.Replying? && s.server.mode.status == SUCCESS ==> Granted(s.client, s.server))
  }

  ghost predicate Inv(file: seq<byte>, s: State) {
    && Placed(file, s.client)
    && Holds(file, s.client, s.server)
    && Turn(file, s)
    && (s.client.ret == Some(SUCCESS) ==> s.client.phase == Ending)
  }

  lemma ClientKeepsInv(file: seq<byte>, s: State, t: State)
    requires Inv(file, s)
    requires SendStart(file, s, t) || SendData(file, s, t) || SendEnd(s, t)
    ensures Inv(file, t)
  {
    if SendData(file, s, t) {
      var end := Min(s.client.position + TRANSMIT_SIZE, |file|);
      assert file[s.client.position..end] == Chunk(file, s.client.count);
    }
  }

  lemma ReplyKeepsInv(file: seq<byte>, s: State, t: State)
    requires Inv(file, s)
    requires TakeReply(s, t) || FailReply(s, t)
    ensures Inv(file, t)
  {
  }

  lemma ChannelKeepsInv(file: seq<byte>, s: State, t: State)
    requires Inv(file, s)
    requires SendReply(s, t) || FailReceive(s, t) || Lose(s, t) || exists i: nat :: Change(s, t, i)
    ensures Inv(file, t)
  {
  }

  /** A data frame, changed in transit or not, either adds exactly the expected chunk or is refused. */
  lemma DataServed(file: seq<byte>, v: Store, k: nat, f: Frame, changed: bool, room: nat)
    requires k < ChunkCount(file) && v.file == Prefix(file, k)
    requires if changed then exists i: nat :: Differs(Packet(file, k), f, i) else f == Packet(file, k)
    ensures f.Data?
    ensures var (w, ret) := Stored(v, f, room);
      && (ret == 0 ==> w == v.(file := Prefix(file, k + 1), recvCount := v.recvCount + 1))
      && (ret != 0 ==> ret == -1 && w == v.(file := w.file) && w.file <= file)
  {
    hide Checksum, Padding;
    var buf := Chunk(file, k);
    PacketStored(v, file, k, room);
    assert Prefix(file, k) + buf <= file;
    if changed {
      var i: nat :| Differs(Packet(file, k), f, i);
      if i < |buf| {
        ChangedPacketRefused(v, buf, i, f.context[i], room);
      } else {
        assert f.context[..|buf|] == Packet(file, k).context[..|buf|];
      }
    }
  }

  lemma ServerKeepsInv(file: seq<byte>, s: State, t: State, room: nat)
    requires Inv(file, s)
    requires Receive(s, t, room)
    ensures Inv(file, t)
  {
    hide Stored, Differs, Packet, Prefix;
    if s.client.phase == Sending {
      DataServed(file, s.server.store, s.client.count, s.channel.frame, s.channel.changed, room);
    } else {
      PrefixNone(file);
    }
  }

  lemma NextKeepsInv(file: seq<byte>, s: State, t: State)
    requires Inv(file, s) && Next(file, s, t)
    ensures Inv(file, t)
  {
    hide Inv, SendStart, SendData, SendEnd, TakeReply, FailReply, Receive, SendReply, FailReceive, Lose, Change;
    if SendStart(file, s, t) || SendData(file, s, t) || SendEnd(s, t) {
      ClientKeepsInv(file, s, t);
    } else if TakeReply(s, t) || FailReply(s, t) {
      ReplyKeepsInv(file, s, t);
    } else if room: nat :| Receive(s, t, room) {
      ServerKeepsInv(file, s, t, room);
    } else {
      ChannelKeepsInv(file, s, t);
    }
  }

  // ---------------------------------------------------------------- safety of every run

  lemma {:induction false} RunKeepsInv(file: seq<byte>, run: seq<State>, k: nat)
    requires Run(file, run) && k < |run|
    ensures Inv(file, run[k])
  {
    if k > 0 {
      RunKeepsInv(file, run, k - 1);
      NextKeepsInv(file, run[k - 1], run[k]);
    }
  }

  /** The server stores a good data frame, but fwrite comes up short after the first byte. */
  ghost predicate CutWrite(s: State, t: State, room: nat) {
    && Receive(s, t, room) && s.channel.frame.Data?
    && var f := s.channel.frame;
       Checksum(f.context[..f.len]) == f.sum && 0 < room < f.len
  }

  ghost predicate ShortWrite(s: State, t: State) {
    exists room: nat :: CutWrite(s, t, room)
  }

  /** Step i of a run is such a write. */
  ghost predicate CutShort(run: seq<State>, i: nat)
    requires i + 1 < |run|
  {
    ShortWrite(run[i], run[i + 1])
  }

  /** The stored file is not made of whole chunks. */
  ghost predicate Torn(file: seq<byte>, v: Store) {
    v.file != Prefix(file, v.recvCount)
  }

  lemma CutWriteTears(file: seq<byte>, s: State, t: State, room: nat)
    requires !Torn(file, s.server.store) && CutWrite(s, t, room)
    ensures Torn(file, t.server.store)
  {
    hide Checksum, Prefix;
  }

  /** Serving any other data frame leaves whole chunks. */
  lemma DataTears(file: seq<byte>, v: Store, k: nat, f: Frame, changed: bool, room: nat)
    requires k < ChunkCount(file) && v.file == Prefix(file, k) && v.recvCount == k
    requires if changed then exists i: nat :: Differs(Packet(file, k), f, i) else f == Packet(file, k)
    requires f.Data? ==> !(Checksum(f.context[..f.len]) == f.sum && 0 < room < f.len)
    ensures f.Data? && !Torn(file, Stored(v, f, room).0)
  {
    hide Checksum, Packet, Differs, Prefix;
    DataServed(file, v, k, f, changed, room);
    if Checksum(f.context[..f.len]) == f.sum && room == 0 < f.len {
      assert v.file + f.context[..f.len][..0] == v.file;
    }
  }

  /** A step tears the file exactly when it is a short write, and nothing mends it. */
  lemma StepTears(file: seq<byte>, s: State, t: State)
    requires Inv(file, s) && Next(file, s, t)
    ensures Torn(file, t.server.store) <==> Torn(file, s.server.store) || ShortWrite(s, t)
  {
    hide Stored, Differs, Packet, Prefix, Checksum, ChunkCount;
    if room: nat :| Receive(s, t, room) {
      PrefixNone(file);
      if ShortWrite(s, t) {
        var r: nat :| CutWrite(s, t, r);
        CutWriteTears(file, s, t, r);
      } else if s.client.phase == Sending {
        assert !CutWrite(s, t, room);
        DataTears(file, s.server.store, s.client.count, s.channel.frame, s.channel.changed, room);
      }
    }
  }

  /**
   In every state of every run the stored file is a prefix of the source, made of exactly recvCount
   chunks if and only if no write has come up short so far, and the client lags by at most one chunk.
   */
  lemma {:induction false} StoredIsPrefix(file: seq<byte>, run: seq<State>, k: nat)
    requires Run(file, run) && k < |run|
    ensures var s := run[k]; var v := s.server.store;
      && v.file <= file
      && (v.file != Prefix(file, v.recvCount) <==> exists i: nat :: i < k && CutShort(run, i))
      && (v.file != Prefix(file, v.recvCount) ==> s.server.mode == Stopped || s.server.mode == Replying(FAIL, true))
      && s.client.count <= v.recvCount <= s.client.count + 1
      && v.recvCount <= ChunkCount(file)
  {
    hide Next, ShortWrite;
    RunKeepsInv(file, run, k);
    if k > 0 {
      StoredIsPrefix(file, run, k - 1);
      RunKeepsInv(file, run, k - 1);
      StepTears(file, run[k - 1], run[k]);
      assert CutShort(run, k - 1) <==> ShortWrite(run[k - 1], run[k]);
    } else {
      PrefixNone(file);
    }
  }

  /** While no write comes up short, the stored file is the first recvCount chunks in every state. */
  lemma NoShortWrite(file: seq<byte>, run: seq<State>, k: nat)
    requires Run(file, run) && k < |run|
    requires forall i: nat :: i < k ==> !CutShort(run, i)
    ensures run[k].server.store.file == Prefix(file, run[k].server.store.recvCount)
  {
    hide Run, CutShort, Prefix;
    StoredIsPrefix(file, run, k);
  }

  /** fileSend returns SUCCESS only if the server holds the whole file, in size / 1488 + 1 chunks. */
  lemma SuccessMeansTransferred(file: seq<byte>, run: seq<State>, k: nat)
    requires Run(file, run) && k < |run|
    requires run[k].client.ret == Some(SUCCESS)
    ensures run[k].server.store.file == file
    ensures run[k].server.store.recvCount == |file| / TRANSMIT_SIZE + 1
  {
    RunKeepsInv(file, run, k);
    PrefixAll(file);
  }

  // ---------------------------------------------------------------- a run without faults

  /** The state after k acknowledged chunks when nothing has gone wrong. */
  function AfterChunks(file: seq<byte>, k: nat): State
    requires k <= ChunkCount(file)
  {
    State(
      Client(Sending, false, None, Min(TRANSMIT_SIZE * k, |file|), k == ChunkCount(file), k),
      Empty,
      Server(Listening, Store(true, Prefix(file, k), |file|, k)))
  }

  ghost predicate Reaches(file: seq<byte>, run: seq<State>, s: State) {
    run != [] && Run(file, run) && run[|run| - 1] == s
  }

  lemma Extend(file: seq<byte>, run: seq<State>, t: State) returns (longer: seq<State>)
    requires Run(file, run) && Next(file, run[|run| - 1], t)
    ensures Reaches(file, longer, t)
  {
    hide Next, Init;
    longer := run + [t];
    forall i: nat | i + 1 < |longer|
      ensures Next(file, longer[i], longer[i + 1])
    {
      if i + 1 < |run| {
        assert longer[i] == run[i] && longer[i + 1] == run[i + 1];
      }
    }
  }

  /** One exchange: the client sends f, the server serves it and replies, the client goes on. */
  lemma Exchange(file: seq<byte>, run: seq<State>, c: Client, f: Frame, room: nat) returns (longer: seq<State>)
    requires run != [] && Run(file, run) && c.ret.None?
    requires var s := run[|run| - 1]; var t := State(c.(awaiting := true), Request(f, false), s.server);
      && (SendStart(file, s, t) || SendData(file, s, t) || SendEnd(s, t))
      && s.server.mode == Listening && Served(s.server.store, f, room).mode.status == SUCCESS
    ensures var s := run[|run| - 1]; var v := Served(s.server.store, f, room);
      Reaches(file, longer, State(Acknowledged(c.(awaiting := true), SUCCESS), Empty,
                                  v.(mode := if v.mode.leaves then Stopped else Listening)))
  {
    hide Run, Init, SendStart, SendData, SendEnd, Acknowledged, Handle;
    var s := run[|run| - 1];
    var v := Served(s.server.store, f, room);
    var w := v.(mode := if v.mode.leaves then Stopped else Listening);
    var t1 := State(c.(awaiting := true), Request(f, false), s.server);
    var t2 := State(t1.client, Empty, v);
    var t3 := State(t1.client, Reply(SUCCESS), w);
    var t4 := State(Acknowledged(t1.client, SUCCESS), Empty, w);
    longer := Extend(file, run, t1);
    assert Receive(t1, t2, room);
    longer := Extend(file, longer, t2);
    assert SendReply(t2, t3);
    longer := Extend(file, longer, t3);
    assert TakeReply(t3, t4);
    longer := Extend(file, longer, t4);
  }

  lemma {:induction false} RunToChunk(file: seq<byte>, k: nat) returns (run: seq<State>)
    requires k <= ChunkCount(file)
    ensures Reaches(file, run, AfterChunks(file, k))
  {
    if k == 0 {
      var s := State(Client(Starting, false, None, 0, false, 0), Empty, Server(Listening, Store(false, [], 0, 0)));
      run := [s];
      PrefixNone(file);
      run := Exchange(file, run, s.client, Start(|file|), 1);
    } else {
      run := RunToChunk(file, k - 1);
      run := ExchangeChunk(file, run, k - 1);
    }
  }

  lemma ExchangeChunk(file: seq<byte>, run: seq<State>, k: nat) returns (longer: seq<State>)
    requires k < ChunkCount(file) && Reaches(file, run, AfterChunks(file, k))
    ensures Reaches(file, longer, AfterChunks(file, k + 1))
  {
    hide Run, Stored, Packet, PacketOf;
    var s := AfterChunks(file, k);
    var buf := Chunk(file, k);
    var end := Min(TRANSMIT_SIZE * (k + 1), |file|);
    var c := s.client.(position := end, eof := |buf| < TRANSMIT_SIZE);
    PacketStored(s.server.store, file, k, |buf|);
    PacketIsData(file, k);
    assert SendData(file, s, State(c.(awaiting := true), Request(Packet(file, k), false), s.server));
    longer := Exchange(file, run, c, Packet(file, k), |buf|);
  }

  lemma PacketIsData(file: seq<byte>, k: nat)
    requires k < ChunkCount(file)
    ensures Packet(file, k) == PacketOf(Chunk(file, k)) && Packet(file, k).Data?
  {
  }

  /** Every file, of whatever size, can be transferred: some run returns SUCCESS. */
  lemma TransferPossible(file: seq<byte>) returns (run: seq<State>)
    ensures run != [] && Run(file, run) && run[|run| - 1].client.ret == Some(SUCCESS)
  {
    hide Run;
    var n := ChunkCount(file);
    run := RunToChunk(file, n);
    run := Exchange(file, run, AfterChunks(file, n).client.(phase := Ending), End, 1);
  }

  /** A short write does happen: the first chunk of any file of two bytes or more can be torn. */
  lemma TornPossible(file: seq<byte>) returns (run: seq<State>)
    requires |file| >= 2
    ensures run != [] && Run(file, run) && Torn(file, run[|run| - 1].server.store)
  {
    hide Run, Packet, PacketOf, Padding, Checksum;
    run := RunToChunk(file, 0);
    var s, buf := AfterChunks(file, 0), Chunk(file, 0);
    var c := s.client.(position := |buf|, eof := |buf| < TRANSMIT_SIZE, awaiting := true);
    var t := State(c, Request(Packet(file, 0), false), s.server);
    PacketIsData(file, 0);
    PacketIsGood(file, 0);
    assert SendData(file, s, t);
    run := Extend(file, run, t);
    var u := State(c, Empty, Served(s.server.store, Packet(file, 0), 1));
    assert Receive(t, u, 1) && CutWrite(t, u, 1);
    CutWriteTears(file, t, u, 1);
    run := Extend(file, run, u);
  }

  lemma PacketIsGood(file: seq<byte>, k: nat)
    requires k < ChunkCount(file)
    ensures var f := Packet(file, k); f.Data? && f.len == |Chunk(file, k)| && Checksum(f.context[..f.len]) == f.sum
  {
    var c := Chunk(file, k);
    assert (c + Padding(TRANSMIT_SIZE - |c|))[..|c|] == c;
  }

  // ---------------------------------------------------------------- no recovery from loss

  /** The client waits and nothing is under way. */
  ghost predicate Stuck(s: State) {
    s.client.ret.None? && s.client.awaiting && s.channel == Empty && !s.server.mode.Replying?
  }

  /** Nothing is under way, and the client waits in vain or has given up. */
  ghost predicate Dead(s: State, v: Store) {
    && s.channel == Empty && !s.server.mode.Replying? && s.server.store == v
    && (if s.client.ret.None? then s.client.awaiting else s.client.ret.value != SUCCESS)
  }

  lemma DeadStays(file: seq<byte>, s: State, t: State, v: Store)
    requires Dead(s, v) && Next(file, s, t)
    ensures Dead(t, v)
  {
  }

  /**
   Once the client waits for nothing, nothing is ever sent again, the file stays as it is, and
   fileSend never succeeds.
   */
  lemma {:induction false} LossIsFinal(file: seq<byte>, run: seq<State>, k: nat, m: nat)
    requires Run(file, run) && k <= m < |run|
    requires Dead(run[k], run[k].server.store)
    ensures Dead(run[m], run[k].server.store)
    ensures run[m].channel == Empty && run[m].server.store == run[k].server.store
    ensures run[m].client.ret != Some(SUCCESS)
    decreases m
  {
    hide Init, Next;
    if k < m {
      LossIsFinal(file, run, k, m - 1);
      DeadStays(file, run[m - 1], run[m], run[k].server.store);
    }
  }

  /** Once waiting, a client whose frame or reply is lost is stuck. */
  lemma LosingSticks(file: seq<byte>, s: State, t: State)
    requires Inv(file, s) && s.client.ret.None? && Lose(s, t)
    ensures Stuck(t) && t.server.store == s.server.store
  {
  }

  /** After a frame or reply of a waiting client is lost, the file never grows and fileSend never returns SUCCESS. */
  lemma LostNeverSucceeds(file: seq<byte>, run: seq<State>, k: nat, m: nat)
    requires Run(file, run) && k < m < |run|
    requires run[k].client.ret.None? && Lose(run[k], run[k + 1])
    ensures run[m].channel == Empty
    ensures run[m].server.store == run[k].server.store
    ensures run[m].client.ret != Some(SUCCESS)
  {
    hide Run, Inv, Lose;
    RunKeepsInv(file, run, k);
    LosingSticks(file, run[k], run[k + 1]);
    LossIsFinal(file, run, k + 1, m);
  }
}
