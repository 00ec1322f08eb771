/**
 The file transfer with half-close (file_server.c, file_client.c): the server sends a file in
 chunks and shuts down its writing side, the client copies what arrives until the end of the stream
 and then thanks. Streams have a bounded capacity and may be cut into segments anywhere.
 */
module FileTransfer {
  import opened CTypes
  import opened Frame

  /** "Thank you" with its terminator. */
  const THANKS: bytes := [84, 104, 97, 110, 107, 32, 121, 111, 117, NUL]

  /** A chunk shorter than the buffer ends the server's loop. */
  datatype ServerPc = Fetch | Send(rest: bytes, last: bool) | Shutdown | AwaitThanks | Closed

  datatype ClientPc = Receive | Thank | Gone

  /**
   `pos` is the server's position in the file, `down` and `up` the bytes in flight to the client
   and back, `shut` the server's end of stream, `copy` the client's file, `message` what the server
   read back.
   */
  datatype State = State(server: ServerPc, pos: nat, down: bytes, shut: bool,
                         client: ClientPc, copy: bytes, up: bytes, message: bytes)

  predicate Init(s: State) {
    s == State(Fetch, 0, [], false, Receive, [], [], [])
  }

  // What one read may return: any nonempty part of what has arrived, up to the buffer's size.

  predicate Segment(k: nat, arrived: bytes) {
    1 <= k <= |arrived| && k <= BUF_SIZE
  }

  /** `fread` into the buffer. */
  function Chunk(file: bytes, pos: nat): bytes
    requires pos <= |file|
  {
    file[pos..Min(pos + BUF_SIZE, |file|)]
  }

  predicate Fetches(file: bytes, s: State, s': State) {
    s.server == Fetch && s.pos <= |file|
    && var chunk := Chunk(file, s.pos);
    s' == s.(server := Send(chunk, |chunk| < BUF_SIZE), pos := s.pos + |chunk|)
  }

  /** The kernel takes `k` more bytes of a blocked `write`. */
  predicate Pushes(capacity: nat, s: State, s': State, k: nat) {
    s.server.Send? && 1 <= k <= |s.server.rest| && |s.down| + k <= capacity
    && s' == s.(server := Send(s.server.rest[k..], s.server.last), down := s.down + s.server.rest[..k])
  }

  predicate WriteReturns(s: State, s': State) {
    s.server.Send? && s.server.rest == [] && s' == s.(server := if s.server.last then Shutdown else Fetch)
  }

  predicate ShutsDown(s: State, s': State) {
    s.server == Shutdown && s' == s.(server := AwaitThanks, shut := true)
  }

  /** The server's last read ends with data, or with nothing once the client has closed. */
  predicate HearsThanks(s: State, s': State, k: nat) {
    s.server == AwaitThanks && (if s.up != [] then Segment(k, s.up) else k == 0 && s.client == Gone)
    && s' == s.(server := Closed, message := s.up[..k], up := s.up[k..])
  }

  predicate Copies(s: State, s': State, k: nat) {
    s.client == Receive && Segment(k, s.down)
    && s' == s.(copy := s.copy + s.down[..k], down := s.down[k..])
  }

  predicate SeesEnd(s: State, s': State) {
    s.client == Receive && s.down == [] && s.shut && s' == s.(client := Thank)
  }

  predicate Thanks(capacity: nat, s: State, s': State) {
    s.client == Thank && |s.up| + |THANKS| <= capacity && s' == s.(client := Gone, up := s.up + THANKS)
  }

  ghost predicate Next(file: bytes, capacity: nat, s: State, s': State) {
    Fetches(file, s, s') || (exists k: nat :: Pushes(capacity, s, s', k)) || WriteReturns(s, s') || ShutsDown(s, s')
    || (exists k: nat :: HearsThanks(s, s', k)) || (exists k: nat :: Copies(s, s', k)) || SeesEnd(s, s')
    || Thanks(capacity, s, s')
  }

  ghost predicate Run(file: bytes, capacity: nat, ss: seq<State>) {
    ss != [] && Init(ss[0]) && forall t :: 0 <= t < |ss| - 1 ==> Next(file, capacity, ss[t], ss[t + 1])
  }

  // Safety.

  function Rest(s: State): bytes {
    if s.server.Send? then s.server.rest else []
  }

  predicate Conserved(file: bytes, s: State) {
    s.pos <= |file| && s.copy + s.down + Rest(s) + file[s.pos..] == file
  }

  /** Who may be where, and which way each stream is still open. */
  predicate Ordered(file: bytes, s: State) {
    (s.shut <==> s.server == AwaitThanks || s.server == Closed)
    && (s.shut || s.server == Shutdown || (s.server.Send? && s.server.last) ==> s.pos == |file|)
    && (s.client != Receive ==> s.shut && s.down == [])
    && (s.server == Closed ==> s.client == Gone && s.message != [])
    && s.message + s.up == (if s.client == Gone then THANKS else [])
    && (s.server != Closed ==> s.message == [])
  }

  predicate Inv(file: bytes, s: State) {
    s.pos <= |file| && Conserved(file, s) && Ordered(file, s)
  }

  lemma {:induction false} FetchConserves(file: bytes, s: State, s': State)
    requires Conserved(file, s) && Fetches(file, s, s')
    ensures Conserved(file, s')
  {
    var sent := s.copy + s.down;
    var chunk := Chunk(file, s.pos);
    assert file[s.pos..] == chunk + file[s'.pos..];
    assert sent + [] + (chunk + file[s'.pos..]) == sent + chunk + file[s'.pos..];
  }

  lemma {:induction false} PushConserves(file: bytes, capacity: nat, s: State, s': State, k: nat)
    requires Conserved(file, s) && Pushes(capacity, s, s', k)
    ensures Conserved(file, s')
  {
    var rest := s.server.rest;
    assert rest == rest[..k] + rest[k..];
    assert s.copy + s.down + (rest[..k] + rest[k..]) == s.copy + (s.down + rest[..k]) + rest[k..];
  }

  lemma {:induction false} CopyConserves(file: bytes, s: State, s': State, k: nat)
    requires Conserved(file, s) && Copies(s, s', k)
    ensures Conserved(file, s')
  {
    assert s.down == s.down[..k] + s.down[k..];
    assert s.copy + (s.down[..k] + s.down[k..]) == (s.copy + s.down[..k]) + s.down[k..];
  }

  lemma {:induction false} StepConserves(file: bytes, capacity: nat, s: State, s': State)
    requires Conserved(file, s) && Next(file, capacity, s, s')
    ensures s'.pos <= |file| && Conserved(file, s')
  {
    hide Fetches, Pushes, Copies, Segment;
    if Fetches(file, s, s') {
      FetchConserves(file, s, s');
    } else if k: nat :| Pushes(capacity, s, s', k) {
      PushConserves(file, capacity, s, s', k);
    } else if k: nat :| Copies(s, s', k) {
      CopyConserves(file, s, s', k);
    } else {
      assert s'.copy == s.copy && s'.down == s.down && Rest(s') == Rest(s) && s'.pos == s.pos;
    }
  }

  lemma {:induction false} StepKeepsOrder(file: bytes, capacity: nat, s: State, s': State)
    requires s.pos <= |file| && Ordered(file, s) && Next(file, capacity, s, s')
    ensures Ordered(file, s')
  {
    if k: nat :| HearsThanks(s, s', k) {
      assert s.up[..k] + s.up[k..] == s.up;
    }
  }

  lemma {:induction false} StepKeeps(file: bytes, capacity: nat, s: State, s': State)
    requires Inv(file, s) && Next(file, capacity, s, s')
    ensures Inv(file, s')
  {
    hide Conserved, Ordered, Next;
    StepConserves(file, capacity, s, s');
    StepKeepsOrder(file, capacity, s, s');
  }

  lemma {:induction false} RunsKeep(file: bytes, capacity: nat, ss: seq<State>, t: nat)
    requires Run(file, capacity, ss) && t < |ss|
    ensures Inv(file, ss[t])
  {
    hide Next;
    if t > 0 {
      hide Inv;
      RunsKeep(file, capacity, ss, t - 1);
      assert Next(file, capacity, ss[t - 1], ss[t - 1 + 1]);
      StepKeeps(file, capacity, ss[t - 1], ss[t]);
    }
  }

  /** At every moment the client's file is the start of the server's. */
  lemma {:induction false} CopyIsAPrefix(file: bytes, capacity: nat, ss: seq<State>, t: nat)
    requires Run(file, capacity, ss) && t < |ss|
    ensures ss[t].copy <= file
  {
    hide Run, Ordered;
    RunsKeep(file, capacity, ss, t);
  }

  /** The client stops receiving only with the whole file. */
  lemma {:induction false} EndMeansWholeFile(file: bytes, capacity: nat, ss: seq<State>, t: nat)
    requires Run(file, capacity, ss) && t < |ss| && ss[t].client != Receive
    ensures ss[t].copy == file
  {
    hide Run;
    RunsKeep(file, capacity, ss, t);
  }

  /**
   Once the server has read its acknowledgement the copy is complete, and what it read is a
   nonempty part of the client's message, never an end of stream.
   */
  lemma {:induction false} ThanksMeanDelivery(file: bytes, capacity: nat, ss: seq<State>, t: nat)
    requires Run(file, capacity, ss) && t < |ss| && ss[t].server == Closed
    ensures ss[t].copy == file && ss[t].message != [] && ss[t].message <= THANKS
  {
    hide Run;
    RunsKeep(file, capacity, ss, t);
  }

  // Progress.

  lemma {:induction false} ServerGoesOn(file: bytes, capacity: nat, s: State)
    requires Inv(file, s) && |THANKS| <= capacity
    requires s.server != Closed && (s.server == AwaitThanks ==> s.up != []) && (s.server.Send? ==> s.down == [])
    ensures exists s' :: Next(file, capacity, s, s')
  {
    hide Conserved, Ordered;
    match s.server {
      case Fetch =>
        var chunk := Chunk(file, s.pos);
        var s' := s.(server := Send(chunk, |chunk| < BUF_SIZE), pos := s.pos + |chunk|);
        assert Fetches(file, s, s');
        assert Next(file, capacity, s, s');
      case Send(rest, last) =>
        if rest == [] {
          assert Next(file, capacity, s, s.(server := if last then Shutdown else Fetch));
        } else {
          var s' := s.(server := Send(rest[1..], last), down := s.down + rest[..1]);
          assert Pushes(capacity, s, s', 1);
          assert Next(file, capacity, s, s');
        }
      case Shutdown =>
        assert Next(file, capacity, s, s.(server := AwaitThanks, shut := true));
      case AwaitThanks =>
        var s' := s.(server := Closed, message := s.up[..1], up := s.up[1..]);
        assert HearsThanks(s, s', 1);
        assert Next(file, capacity, s, s');
    }
  }

  /** Nobody waits forever: around shutdown, end of stream and acknowledgement some step is always possible. */
  lemma {:induction false} UnfinishedGoesOn(file: bytes, capacity: nat, ss: seq<State>, t: nat)
    requires Run(file, capacity, ss) && t < |ss| && capacity >= 10
    requires ss[t].server != Closed || ss[t].client != Gone
    ensures exists s' :: Next(file, capacity, ss[t], s')
  {
    hide Run, Conserved;
    RunsKeep(file, capacity, ss, t);
    var s := ss[t];
    if s.client == Receive && s.down != [] {
      var s' := s.(copy := s.copy + s.down[..1], down := s.down[1..]);
      assert Copies(s, s', 1);
      assert Next(file, capacity, s, s');
    } else if s.client == Receive && s.shut {
      assert Next(file, capacity, s, s.(client := Thank));
    } else if s.client == Thank {
      assert Next(file, capacity, s, s.(client := Gone, up := s.up + THANKS));
    } else {
      ServerGoesOn(file, capacity, s);
    }
  }

  /** Steps still possible at most: a byte of the file is fetched, pushed and copied. */
  function Work(file: bytes, s: State): nat
    requires s.pos <= |file|
  {
    3 * (|file| - s.pos) + 2 * |Rest(s)| + |s.down|
    + (match s.server
       case Fetch => 4
       case Send(_, last) => if last then 3 else 5
       case Shutdown => 2
       case AwaitThanks => 1
       case Closed => 0)
    + (match s.client case Receive => 2 case Thank => 1 case Gone => 0)
  }

  lemma {:induction false} StepsUseUpWork(file: bytes, capacity: nat, s: State, s': State)
    requires Inv(file, s) && Inv(file, s') && Next(file, capacity, s, s')
    ensures Work(file, s') < Work(file, s)
  {
    hide Conserved;
  }

  lemma {:induction false} WorkBoundsSteps(file: bytes, capacity: nat, ss: seq<State>, t: nat)
    requires Run(file, capacity, ss) && t < |ss|
    ensures Inv(file, ss[t]) && Work(file, ss[t]) + t <= 3 * |file| + 6
  {
    RunsKeep(file, capacity, ss, t);
    if t > 0 {
      hide Next, Inv, Work;
      WorkBoundsSteps(file, capacity, ss, t - 1);
      assert Next(file, capacity, ss[t - 1], ss[t - 1 + 1]);
      StepsUseUpWork(file, capacity, ss[t - 1], ss[t]);
    }
  }

  /**
   Every run is finite, and one that cannot go on has finished with the client's file equal to the
   server's, for every file, every segmentation and every capacity that holds the acknowledgement.
   */
  lemma {:induction false} EveryTransferCompletes(file: bytes, capacity: nat, ss: seq<State>)
    requires Run(file, capacity, ss) && capacity >= 10
    ensures |ss| <= 3 * |file| + 7
    ensures var s := ss[|ss| - 1];
      (forall s' :: !Next(file, capacity, s, s')) ==> s.server == Closed && s.client == Gone && s.copy == file
  {
    hide Next, Inv;
    var t := |ss| - 1;
    assert t >= 0 by {
      assert Run(file, capacity, ss);
    }
    WorkBoundsSteps(file, capacity, ss, t);
    var s := ss[t];
    if forall s' :: !Next(file, capacity, s, s') {
      if s.server != Closed || s.client != Gone {
        UnfinishedGoesOn(file, capacity, ss, t);
      }
      EndMeansWholeFile(file, capacity, ss, t);
    }
  }

  lemma {:induction false} StreamsStayWithinCapacity(file: bytes, capacity: nat, ss: seq<State>, t: nat)
    requires Run(file, capacity, ss) && t < |ss|
    ensures |ss[t].down| <= capacity && |ss[t].up| <= capacity
  {
    if t > 0 {
      StreamsStayWithinCapacity(file, capacity, ss, t - 1);
      assert Next(file, capacity, ss[t - 1], ss[t - 1 + 1]);
    }
  }

  // What can happen.

  lemma TransfersStartEmpty(file: bytes, capacity: nat)
    ensures Run(file, capacity, [State(Fetch, 0, [], false, Receive, [], [], [])])
  {
  }

  /** The network may take any part of a write that it has room for, and deliver any part of what it holds. */
  lemma AnySegmentation(file: bytes, capacity: nat, s: State, k: nat)
    ensures s.server.Send? && 1 <= k <= |s.server.rest| && |s.down| + k <= capacity ==>
      Next(file, capacity, s, s.(server := Send(s.server.rest[k..], s.server.last), down := s.down + s.server.rest[..k]))
    ensures s.client == Receive && 1 <= k <= |s.down| && k <= 1024 ==>
      Next(file, capacity, s, s.(copy := s.copy + s.down[..k], down := s.down[k..]))
    ensures s.server == AwaitThanks && 1 <= k <= |s.up| && k <= 1024 ==>
      Next(file, capacity, s, s.(server := Closed, message := s.up[..k], up := s.up[k..]))
  {
    if s.server.Send? && 1 <= k <= |s.server.rest| && |s.down| + k <= capacity {
      assert Pushes(capacity, s, s.(server := Send(s.server.rest[k..], s.server.last), down := s.down + s.server.rest[..k]), k);
    }
    if s.client == Receive && 1 <= k <= |s.down| && k <= 1024 {
      assert Copies(s, s.(copy := s.copy + s.down[..k], down := s.down[k..]), k);
    }
    if s.server == AwaitThanks && 1 <= k <= |s.up| && k <= 1024 {
      assert HearsThanks(s, s.(server := Closed, message := s.up[..k], up := s.up[k..]), k);
    }
  }

  /** The server closes its side, and the client thanks, as soon as it is their turn, whatever the other does. */
  lemma TurnsAreTaken(file: bytes, capacity: nat, s: State)
    ensures s.server == Shutdown ==> Next(file, capacity, s, s.(server := AwaitThanks, shut := true))
    ensures s.client == Receive && s.down == [] && s.shut ==> Next(file, capacity, s, s.(client := Thank))
    ensures s.client == Thank && |s.up| + 10 <= capacity ==>
      Next(file, capacity, s, s.(client := Gone, up := s.up + Ascii("Thank you") + [0]))
  {
    if s.client == Thank && |s.up| + 10 <= capacity {
      assert THANKS == Ascii("Thank you") + [0];
      assert s.up + (Ascii("Thank you") + [0]) == s.up + Ascii("Thank you") + [0];
      assert Thanks(capacity, s, s.(client := Gone, up := s.up + THANKS));
    }
  }

  /** A transfer that takes place. */
  lemma {:induction false} ATransferFinishes(file: bytes, capacity: nat) returns (ss: seq<State>)
    requires capacity >= 10
    ensures Run(file, capacity, ss) && ss[|ss| - 1].server == Closed && ss[|ss| - 1].client == Gone
  {
    hide Next;
    ss := [State(Fetch, 0, [], false, Receive, [], [], [])];
    TransfersStartEmpty(file, capacity);
    while ss[|ss| - 1].server != Closed || ss[|ss| - 1].client != Gone
      invariant Run(file, capacity, ss)
      decreases 3 * |file| + 7 - |ss|
    {
      UnfinishedGoesOn(file, capacity, ss, |ss| - 1);
      var s' :| Next(file, capacity, ss[|ss| - 1], s');
      ghost var longer := ss + [s'];
      forall t | 0 <= t < |longer| - 1 ensures Next(file, capacity, longer[t], longer[t + 1]) {
        if t < |ss| - 1 {
          assert Next(file, capacity, ss[t], ss[t + 1]);
        }
      }
      ss := longer;
      EveryTransferCompletes(file, capacity, ss);
    }
  }

  // The two loops.

  /** One end of a connection as its process sees it: what it has sent, and what is still to arrive. */
  class Socket {
    var sent: bytes
    var shut: bool
    var arriving: bytes
    var writes: seq<nat>

    constructor (arriving: bytes)
      ensures sent == [] && !shut && this.arriving == arriving && writes == []
    {
      sent, shut, writes := [], false, [];
      this.arriving := arriving;
    }

    method Write(block: bytes)
      requires !shut
      modifies `sent, `writes
      ensures sent == old(sent) + block && writes == old(writes) + [|block|]
    {
      sent := sent + block;
      writes := writes + [|block|];
    }

    method ShutdownWrites()
      modifies `shut
      ensures shut
    {
      shut := true;
    }

    /** The network chooses the segment; nothing is returned only at the end of the stream. */
    method Read() returns (block: bytes)
      modifies `arriving
      ensures old(arriving) == block + arriving
      ensures if old(arriving) == [] then block == [] else 1 <= |block| <= 1024
    {
      var k: nat :| k <= BUF_SIZE && k <= |arriving| && (k == 0 <==> arriving == []) by {
        assert arriving != [] ==> 1 <= |arriving|;
      }
      block := arriving[..k];
      arriving := arriving[k..];
      assert block + arriving == old(arriving);
    }
  }

  /** The server's loop: full buffers, then one shorter write, empty when the length is a multiple of the buffer. */
  method SendFile(file: bytes, sock: Socket)
    requires !sock.shut
    modifies sock
    ensures sock.sent == old(sock.sent) + file && sock.shut && sock.arriving == old(sock.arriving)
    ensures sock.writes == old(sock.writes) + seq(|file| / 1024, _ => 1024) + [|file| % 1024]
  {
    var pos := 0;
    ghost var full := 0;
    while true
      invariant pos == full * BUF_SIZE <= |file| && !sock.shut && sock.arriving == old(sock.arriving)
      invariant sock.sent == old(sock.sent) + file[..pos]
      invariant sock.writes == old(sock.writes) + seq(full, _ => BUF_SIZE)
      decreases |file| - pos
    {
      var chunk := Chunk(file, pos);
      assert file[..pos] + chunk == file[..pos + |chunk|];
      pos := pos + |chunk|;
      if |chunk| < BUF_SIZE {
        sock.Write(chunk);
        break;
      }
      sock.Write(chunk);
      full := full + 1;
    }
    sock.ShutdownWrites();
    assert full == |file| / BUF_SIZE;
  }

  /** The client's loop copies everything up to the end of the stream, however it is cut. */
  method ReceiveFile(sock: Socket) returns (copy: bytes)
    requires !sock.shut
    modifies sock
    ensures copy == old(sock.arriving) && sock.arriving == []
    ensures sock.sent == old(sock.sent) + THANKS
  {
    copy := [];
    var block := sock.Read();
    while block != []
      invariant copy + block + sock.arriving == old(sock.arriving)
      invariant block == [] ==> sock.arriving == []
      invariant !sock.shut && sock.sent == old(sock.sent)
      decreases |block| + |sock.arriving|
    {
      ghost var before := sock.arriving;
      copy := copy + block;
      block := sock.Read();
      assert copy + before == copy + block + sock.arriving;
    }
    sock.Write(THANKS);
  }
}
