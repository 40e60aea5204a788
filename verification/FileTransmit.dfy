/**
 The two ends of fileTransmit/fileTransmit.c: cutting a file into packets, checking and storing
 them. The protocol between the ends is in StopAndWait.
 */
module FileTransmit {
  import opened Bytes

  const TRANSMIT_SIZE := 1488
  const WORD := 0x1_0000_0000
  const SUCCESS := 0xE0
  const FAIL := 0xEE

  datatype RawFrame =
    | Start(fileSize: nat)
    | Data(len: nat, sum: nat, context: seq<byte>)
    | End
    | Unknown(status: int)

  /** What the ends may receive: any frame, but the length of a data frame never exceeds its buffer. */
  type Frame = f: RawFrame | f.Data? ==> f.len <= |f.context| witness End

  // ---------------------------------------------------------------- checksum

  function Sum(s: seq<byte>): nat {
    if s == [] then 0 else Sum(s[..|s| - 1]) + s[|s| - 1]
  }

  function Checksum(s: seq<byte>): nat {
    Sum(s) % WORD
  }

  /** The checksum of one byte is the byte, and checksums add up modulo 2^32. */
  lemma {:induction false} ChecksumIs(s: seq<byte>, t: seq<byte>, b: byte)
    ensures Checksum([b]) == b && Checksum([]) == 0
    ensures Checksum(s + t) == (Checksum(s) + Checksum(t)) % 0x1_0000_0000
    decreases |t|
  {
    assert Sum([b][..0]) == 0;
    assert Sum([b]) == b;
    SumConcat(s, t);
    SumModulo(Sum(s), Sum(t));
  }

  lemma {:induction false} SumConcat(s: seq<byte>, t: seq<byte>)
    ensures Sum(s + t) == Sum(s) + Sum(t)
    decreases |t|
  {
    if t == [] {
      assert s + t == s;
    } else {
      assert (s + t)[..|s + t| - 1] == s + t[..|t| - 1];
      SumConcat(s, t[..|t| - 1]);
    }
  }

  lemma SumModulo(a: nat, b: nat)
    ensures (a + b) % WORD == (a % WORD + b % WORD) % WORD
  {
  }

  method ComputeChecksum(data: seq<byte>) returns (sum: nat)
    ensures sum == Checksum(data)
  {
    sum := 0;
    var at := 0;
    while at < |data|
      invariant 0 <= at <= |data|
      invariant sum == Checksum(data[..at])
    {
      assert data[..at + 1][..at] == data[..at];
      sum := (sum + data[at]) % WORD;
      at := at + 1;
    }
    assert data[..at] == data;
  }

  lemma {:induction false} SumUpdate(s: seq<byte>, i: nat, b: byte)
    requires i < |s|
    ensures Sum(s[i := b]) == Sum(s) - s[i] + b
  {
    var last := |s| - 1;
    if i < last {
      assert s[i := b][..last] == s[..last][i := b];
      SumUpdate(s[..last], i, b);
    } else {
      assert s[i := b][..last] == s[..last];
    }
  }

  /** Changing one byte always changes the checksum. */
  lemma ChecksumDetectsByte(s: seq<byte>, i: nat, b: byte)
    requires i < |s| && s[i] != b
    ensures Checksum(s[i := b]) != Checksum(s)
  {
    SumUpdate(s, i, b);
  }

  // ---------------------------------------------------------------- the file in chunks

  /** How many times the feof-driven loop reads. */
  function ChunkCount(file: seq<byte>): (n: nat)
    ensures n == |file| / 1488 + 1
    ensures TRANSMIT_SIZE * (n - 1) <= |file| < TRANSMIT_SIZE * n
  {
    |file| / TRANSMIT_SIZE + 1
  }

  /** The first k chunks of the file, joined. */
  function Prefix(file: seq<byte>, k: nat): seq<byte> {
    file[..Min(TRANSMIT_SIZE * k, |file|)]
  }

  function Chunk(file: seq<byte>, k: nat): (c: seq<byte>)
    requires k < ChunkCount(file)
    ensures |c| <= TRANSMIT_SIZE
    ensures |c| < TRANSMIT_SIZE <==> k + 1 == ChunkCount(file)
    ensures Prefix(file, k) + c == Prefix(file, k + 1)
  {
    file[TRANSMIT_SIZE * k..Min(TRANSMIT_SIZE * (k + 1), |file|)]
  }

  function Padding(n: nat): (p: seq<byte>)
    ensures |p| == n
  {
    seq(n, _ => 0)
  }

  function PacketOf(buf: seq<byte>): Frame
    requires |buf| <= TRANSMIT_SIZE
  {
    Data(|buf|, Checksum(buf), buf + Padding(TRANSMIT_SIZE - |buf|))
  }

  function Packet(file: seq<byte>, k: nat): Frame
    requires k < ChunkCount(file)
  {
    PacketOf(Chunk(file, k))
  }

  function Packets(file: seq<byte>, k: nat): (p: seq<Frame>)
    requires k <= ChunkCount(file)
    ensures |p| == k
  {
    if k == 0 then [] else Packets(file, k - 1) + [Packet(file, k - 1)]
  }

  lemma PrefixAll(file: seq<byte>)
    ensures Prefix(file, ChunkCount(file)) == file
  {
  }

  lemma PrefixNone(file: seq<byte>)
    ensures Prefix(file, 0) == []
  {
  }

  // ---------------------------------------------------------------- the sending end

  /** An open stdio stream: fread raises the end-of-file flag only on a short read. */
  class Stream {
    const content: seq<byte>
    var position: nat
    var eof: bool

    ghost predicate Valid()
      reads this
    {
      position <= |content|
    }

    constructor (content: seq<byte>)
      ensures Valid() && this.content == content && position == 0 && !eof
    {
      this.content, position, eof := content, 0, false;
    }

    method Read(size: nat) returns (buf: seq<byte>)
      requires Valid()
      modifies this
      ensures Valid() && position == Min(old(position) + size, |content|)
      ensures old(position) <= position && buf == content[old(position)..position]
      ensures eof == (old(eof) || |buf| < size)
    {
      var end := Min(position + size, |content|);
      buf := content[position..end];
      position := end;
      if |buf| < size {
        eof := true;
      }
    }
  }

  /** What comes of a packet: sendEtherData fails, or recvAck returns a status. */
  datatype Outcome = SendFails | Answer(status: int)

  /** The first of n outcomes that is not an answer of SUCCESS, or n. */
  function FirstRefusal(outcomes: seq<Outcome>, n: nat): (k: nat)
    requires n <= |outcomes|
    ensures k <= n
    ensures forall i :: 0 <= i < k ==> outcomes[i] == Answer(SUCCESS)
    ensures k < n ==> outcomes[k] != Answer(SUCCESS)
  {
    if n == 0 then 0
    else
      var k := FirstRefusal(outcomes, n - 1);
      if k < n - 1 || outcomes[n - 1] != Answer(SUCCESS) then k else n
  }

  /** sendFileData: send a chunk, wait for its reply, until end of file or the first failure. */
  method SendFileData(fp: Stream, outcomes: seq<Outcome>) returns (ret: int, count: nat, sent: seq<Frame>)
    requires fp.Valid() && fp.position == 0 && !fp.eof
    requires ChunkCount(fp.content) <= |outcomes|
    modifies fp
    ensures var n := ChunkCount(fp.content); var k := FirstRefusal(outcomes, n);
      && count == k
      && (k == n ==> ret == 0 && sent == Packets(fp.content, n))
      && (k < n ==> ret == -1 && sent == Packets(fp.content, if outcomes[k].SendFails? then k else k + 1))
  {
    hide Checksum, Padding;
    ghost var n := ChunkCount(fp.content);
    count, sent := 0, [];
    while !fp.eof
      invariant fp.Valid()
      invariant count <= n && (fp.eof <==> count == n)
      invariant fp.position == Min(TRANSMIT_SIZE * count, |fp.content|)
      invariant sent == Packets(fp.content, count)
      invariant forall i :: 0 <= i < count ==> outcomes[i] == Answer(SUCCESS)
      decreases n - count
    {
      var buf := fp.Read(TRANSMIT_SIZE);
      assert buf == Chunk(fp.content, count);
      var sum := ComputeChecksum(buf);
      var fData := Data(|buf|, sum, buf + Padding(TRANSMIT_SIZE - |buf|));
      assert fData == Packet(fp.content, count);
      if outcomes[count].SendFails? {
        return -1, count, sent;
      }
      sent := sent + [fData];
      if outcomes[count].status != SUCCESS {
        return -1, count, sent;
      }
      count := count + 1;
    }
    return 0, count, sent;
  }

  // ---------------------------------------------------------------- the receiving end

  /** The globals of the server; `file` is what fp has been given to write. */
  datatype Store = Store(isOpen: bool, file: seq<byte>, fileSize: nat, recvCount: nat)

  /** What a data frame leaves behind, and the value recvFileData returns. */
  function Stored(s: Store, f: Frame, written: nat): (Store, int)
    requires f.Data?
  {
    var buf := f.context[..f.len];
    if Checksum(buf) != f.sum then (s, -1)
    else if written < f.len then (s.(file := s.file + buf[..written]), -1)
    else (s.(file := s.file + buf, recvCount := s.recvCount + 1), 0)
  }

  /**
   The switch of fileRecv; an unknown status is answered like a good frame. `room` is whether the file
   can be opened or flushed, or how many bytes can be written.
   */
  function Handle(v: Store, f: Frame, room: nat): (Store, int) {
    match f
    case Start(fileSize) =>
      if room == 0 then (v.(isOpen := false, fileSize := fileSize), -1)
      else (v.(isOpen := true, file := [], fileSize := fileSize), 0)
    case Data(_, _, _) => Stored(v, f, room)
    case End => (v, if room == 0 then -1 else 0)
    case Unknown(_) => (v, 0)
  }

  datatype Session = Session(store: Store, acks: seq<int>) {
    function After(before: seq<int>): Session {
      Session(store, before + acks)
    }
  }

  /** The replies to a list of frames, up to the one after which fileRecv leaves its loop. */
  function Serve(v: Store, frames: seq<Frame>, rooms: seq<nat>): Session
    requires |frames| == |rooms|
    decreases |frames|
  {
    if frames == [] then Session(v, [])
    else
      var (w, ret) := Handle(v, frames[0], rooms[0]);
      if ret < 0 then Session(w, [FAIL])
      else if frames[0].End? then Session(w, [SUCCESS])
      else Serve(w, frames[1..], rooms[1..]).After([SUCCESS])
  }

  lemma ServeNext(v: Store, frames: seq<Frame>, rooms: seq<nat>, i: nat)
    requires i < |frames| == |rooms|
    ensures var (w, ret) := Handle(v, frames[i], rooms[i]);
      Serve(v, frames[i..], rooms[i..])
      == if ret < 0 then Session(w, [FAIL])
         else if frames[i].End? then Session(w, [SUCCESS])
         else Serve(w, frames[i + 1..], rooms[i + 1..]).After([SUCCESS])
  {
    hide Handle, Session.After;
    assert frames[i..][1..] == frames[i + 1..] && rooms[i..][1..] == rooms[i + 1..];
  }

  lemma ServeNone(v: Store)
    ensures Serve(v, [], []) == Session(v, [])
  {
  }

  /** The reply to a single frame of each kind, and the state after it. */
  lemma ServeOne(v: Store, f: Frame, room: nat)
    ensures f.Unknown? ==> Serve(v, [f], [room]) == Session(v, [SUCCESS])
    ensures f.End? ==> Serve(v, [f], [room]) == Session(v, [if room > 0 then SUCCESS else FAIL])
    ensures f.Start? && room > 0 ==>
      Serve(v, [f], [room]) == Session(Store(true, [], f.fileSize, v.recvCount), [SUCCESS])
    ensures f.Start? && room == 0 ==>
      Serve(v, [f], [room]) == Session(Store(false, v.file, f.fileSize, v.recvCount), [FAIL])
    ensures f.Data? && Checksum(f.context[..f.len]) != f.sum ==> Serve(v, [f], [room]) == Session(v, [FAIL])
    ensures f.Data? && Checksum(f.context[..f.len]) == f.sum ==>
      && Serve(v, [f], [room]).acks == [if room >= f.len then SUCCESS else FAIL]
      && Serve(v, [f], [room]).store.file == v.file + f.context[..Min(room, f.len)]
      && Serve(v, [f], [room]).store.recvCount == v.recvCount + if room >= f.len then 1 else 0
  {
    hide Checksum;
    assert [f][1..] == [];
    assert [SUCCESS] + [] == [SUCCESS];
    if f.Data? {
      assert f.context[..f.len][..Min(room, f.len)] == f.context[..Min(room, f.len)];
    }
  }

  /** Serving goes on exactly until a failure or the end frame. */
  lemma {:induction false} ServeStops(v: Store, frames: seq<Frame>, rooms: seq<nat>)
    requires |frames| == |rooms|
    ensures var acks := Serve(v, frames, rooms).acks;
      && |acks| <= |frames|
      && (forall i: nat :: i < |acks| - 1 ==> acks[i] == SUCCESS && !frames[i].End?)
      && (forall i: nat :: i < |acks| ==> acks[i] == SUCCESS || acks[i] == FAIL)
      && (|acks| < |frames| ==> acks != [] && (acks[|acks| - 1] == FAIL || frames[|acks| - 1].End?))
    decreases |frames|
  {
    hide Handle;
    if frames != [] {
      var (w, ret) := Handle(v, frames[0], rooms[0]);
      if ret >= 0 && !frames[0].End? {
        ServeStops(w, frames[1..], rooms[1..]);
        assert Serve(v, frames, rooms).acks == [SUCCESS] + Serve(w, frames[1..], rooms[1..]).acks;
      }
    }
  }

  lemma AfterNone(s: Session)
    ensures s.After([]) == s
  {
    assert [] + s.acks == s.acks;
  }

  lemma AfterAll(v: Store, acks: seq<int>)
    ensures Session(v, []).After(acks) == Session(v, acks)
  {
  }

  lemma AfterLast(v: Store, acks: seq<int>, ack: int)
    ensures Session(v, [ack]).After(acks) == Session(v, acks + [ack])
  {
  }

  lemma AfterTwice(s: Session, acks: seq<int>, ack: int)
    ensures s.After([ack]).After(acks) == s.After(acks + [ack])
  {
    assert acks + ([ack] + s.acks) == acks + [ack] + s.acks;
  }

  class Receiver {
    var store: Store

    constructor ()
      ensures store == Store(false, [], 0, 0)
    {
      store := Store(false, [], 0, 0);
    }

    /** createFile; `opens` is whether fopen succeeds. */
    method CreateFile(fileSize: nat, opens: bool) returns (ret: int)
      modifies this
      ensures ret == if opens then 0 else -1
      ensures store == Store(opens, if opens then [] else old(store.file), fileSize, old(store.recvCount))
    {
      store := store.(fileSize := fileSize, isOpen := false);
      if !opens {
        return -1;
      }
      store := store.(isOpen := true, file := []);
      return 0;
    }

    /** recvFileData; `written` is how many bytes fwrite can write. */
    method RecvFileData(f: Frame, written: nat) returns (ret: int)
      requires f.Data?
      modifies this
      ensures Stored(old(store), f, written) == (store, ret)
    {
      var buf := f.context[..f.len];
      var sumCalc := ComputeChecksum(buf);
      if f.sum != sumCalc {
        return -1;
      }
      var writeByte := Min(written, f.len);
      store := store.(file := store.file + buf[..writeByte]);
      if writeByte != f.len {
        return -1;
      }
      assert buf[..writeByte] == buf;
      store := store.(recvCount := store.recvCount + 1);
      return 0;
    }

    /** fileRecv, serving the given frames in order. */
    method FileRecv(frames: seq<Frame>, rooms: seq<nat>) returns (acks: seq<int>)
      requires |frames| == |rooms|
      modifies this
      ensures Session(store, acks) == Serve(old(store), frames, rooms)
    {
      hide Serve, Checksum, Session.After;
      acks := [];
      var i, flag := 0, true;
      assert frames[0..] == frames && rooms[0..] == rooms;
      AfterNone(Serve(store, frames, rooms));
      while flag && i < |frames|
        invariant 0 <= i <= |frames|
        invariant flag ==> Serve(store, frames[i..], rooms[i..]).After(acks) == Serve(old(store), frames, rooms)
        invariant !flag ==> Session(store, acks) == Serve(old(store), frames, rooms)
        decreases flag, |frames| - i
      {
        ServeNext(store, frames, rooms, i);
        var f, ret := frames[i], 0;
        match f {
          case Start(fileSize) => ret := CreateFile(fileSize, rooms[i] != 0);
          case Data(_, _, _) => ret := RecvFileData(f, rooms[i]);
          case End =>
            ret := if rooms[i] == 0 then -1 else 0;
            flag := false;
          case Unknown(_) =>
        }
        var ack := if ret < 0 then FAIL else SUCCESS;
        AfterTwice(Serve(store, frames[i + 1..], rooms[i + 1..]), acks, ack);
        AfterLast(store, acks, ack);
        acks := acks + [ack];
        if ret < 0 {
          return;
        }
        i := i + 1;
      }
      if flag {
        ServeNone(store);
        assert frames[i..] == [] && rooms[i..] == [];
        AfterAll(store, acks);
      }
    }
  }

  /** An untouched packet extends the prefix held by one chunk. */
  lemma PacketStored(s: Store, file: seq<byte>, k: nat, written: nat)
    requires k < ChunkCount(file) && s.file == Prefix(file, k)
    ensures var (t, ret) := Stored(s, Packet(file, k), written);
      && (ret == 0 <==> written >= |Chunk(file, k)|)
      && (ret == 0 ==> t == s.(file := Prefix(file, k + 1), recvCount := s.recvCount + 1))
      && (ret != 0 ==> t == s.(file := Prefix(file, k) + Chunk(file, k)[..written]))
  {
    var c := Chunk(file, k);
    assert (c + Padding(TRANSMIT_SIZE - |c|))[..|c|] == c;
  }

  /** A packet with one byte changed inside its payload is refused and leaves no trace. */
  lemma ChangedPacketRefused(s: Store, buf: seq<byte>, i: nat, b: byte, written: nat)
    requires |buf| <= TRANSMIT_SIZE && i < |buf| && b != buf[i]
    ensures var p := PacketOf(buf); Stored(s, p.(context := p.context[i := b]), written) == (s, -1)
  {
    var p := PacketOf(buf);
    assert p.context[i := b][..|buf|] == buf[i := b];
    ChecksumDetectsByte(buf, i, b);
  }

  ghost predicate AllStored(s: Session, file: seq<byte>, n: nat) {
    && s.store == Store(true, file, |file|, ChunkCount(file))
    && |s.acks| == n && forall i :: 0 <= i < n ==> s.acks[i] == SUCCESS
  }

  lemma {:induction false} PacketsServed(file: seq<byte>, k: nat, rooms: seq<nat>)
    requires k <= ChunkCount(file) && |rooms| == ChunkCount(file) - k + 1
    requires forall i :: 0 <= i < |rooms| ==> rooms[i] >= TRANSMIT_SIZE
    ensures var frames := Packets(file, ChunkCount(file))[k..] + [End];
      AllStored(Serve(Store(true, Prefix(file, k), |file|, k), frames, rooms), file, |rooms|)
    decreases ChunkCount(file) - k
  {
    hide Packet, Stored;
    var n, v := ChunkCount(file), Store(true, Prefix(file, k), |file|, k);
    var frames := Packets(file, n)[k..] + [End];
    if k == n {
      PrefixAll(file);
      assert frames == [End];
    } else {
      PacketsAt(file, n, k);
      PacketStored(v, file, k, rooms[0]);
      assert frames[1..] == Packets(file, n)[k + 1..] + [End];
      PacketsServed(file, k + 1, rooms[1..]);
    }
  }

  lemma {:induction false} PacketsAt(file: seq<byte>, n: nat, k: nat)
    requires k < n <= ChunkCount(file)
    ensures Packets(file, n)[k] == Packet(file, k) && Packet(file, k).Data?
  {
    hide Checksum;
    if k < n - 1 {
      PacketsAt(file, n - 1, k);
    }
  }

  lemma StartServed(fileSize: nat, v: Store, rest: seq<Frame>, rooms: seq<nat>)
    requires |rest| + 1 == |rooms| && rooms[0] > 0
    ensures Serve(v, [Start(fileSize)] + rest, rooms)
         == Serve(Store(true, [], fileSize, v.recvCount), rest, rooms[1..]).After([SUCCESS])
  {
    assert ([Start(fileSize)] + rest)[1..] == rest;
  }

  /** What sendFileData sends, between a start and an end frame, is stored as the whole file. */
  lemma WholeFileServed(file: seq<byte>, v: Store, rooms: seq<nat>)
    requires v.recvCount == 0 && |rooms| == ChunkCount(file) + 2
    requires forall i :: 0 <= i < |rooms| ==> rooms[i] >= TRANSMIT_SIZE
    ensures AllStored(Serve(v, [Start(|file|)] + (Packets(file, ChunkCount(file)) + [End]), rooms), file, |rooms|)
  {
    hide *;
    var all := Packets(file, ChunkCount(file));
    assert all[0..] == all;
    EveryRoom(rooms);
    StartServed(|file|, v, all + [End], rooms);
    PrefixNone(file);
    PacketsServed(file, 0, rooms[1..]);
    StartAcknowledged(Serve(Store(true, [], |file|, 0), all + [End], rooms[1..]), file, |rooms| - 1);
  }

  lemma EveryRoom(rooms: seq<nat>)
    requires rooms != [] && forall i :: 0 <= i < |rooms| ==> rooms[i] >= TRANSMIT_SIZE
    ensures rooms[0] > 0 && forall i :: 0 <= i < |rooms[1..]| ==> rooms[1..][i] >= TRANSMIT_SIZE
  {
  }

  lemma StartAcknowledged(s: Session, file: seq<byte>, n: nat)
    requires AllStored(s, file, n)
    ensures AllStored(s.After([SUCCESS]), file, n + 1)
  {
    hide ChunkCount;
  }
}
