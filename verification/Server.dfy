/** The whole server as one machine: any number of work loops (each a `Reactor.Loop` with its socket table and
    connection counter), the connections they serve, and the descriptors the kernel has handed out. */
module Server {
  import opened Bytes
  import opened Connections
  import R = Reactor

  datatype Task =
    | RegisterTask(c: nat)                          // server.go: OnConnect, AddSocketAndEnableRead
    | SendTask(c: nat, data: bytes, finish: bool)   // Connection.Send, with or without a finish function
    | CloseTask(c: nat)                             // Connection.Close, also from the idle timer
    | UserTask(id: nat)

  datatype Worker = Worker(queue: R.Loop<Task>, sockets: map<nat, nat>, connCunt: int)

  /** The ring buffers a connection was given. Those of closed connections are in the pool. */
  datatype Buffers = Buffers(input: nat, output: nat)

  /** Connections are named by the order they were created in. */
  datatype World = World(
    workers: seq<Worker>,
    conns: seq<Conn>,
    owner: map<nat, nat>,         // the open descriptors, each with the connection it was opened for
    file: map<nat, nat>,          // the connections that epoll took in, each with the owner of its descriptor then
    held: seq<Buffers>,           // by connection
    wire: seq<bytes>,             // what the socket opened for each connection took, from whomever
    strays: seq<nat>,             // how many of these bytes another connection wrote
    soiled: set<nat>,             // buffers of the pool that a closed connection worked on
    tainted: set<nat>)            // connections given such a buffer, or whose buffers a closed connection worked on

  /** What the outside world decides during a loop step: whether epoll refuses a registration it could take, which events
      are reported, what reads and writes return, and, for an event that reaches a closed connection, what it finds in a
      buffer of the pool and what it leaves in output buffers of others. */
  datatype Outside = Outside(ok: bool, ev: Events, answers: Answers, found: bytes, spill: map<nat, bytes>)

  /** `left` is what a closed connection left in an output buffer of the pool. */
  datatype Step =
    | AcceptConn(fd: nat, l: nat, b: Buffers, left: bytes)
    | LoopStep(l: nat, step: R.Step<Task>, out: Outside)

  function Init(n: nat): World
  {
    World(seq(n, _ => Worker(R.Init<Task>(), map[], 0)), [], map[], map[], [], [], [], {}, {})
  }

  // ---- Effects on connections and tables ----

  /** `accept` returns a descriptor that is not open; `handleNewConnection` gives it a connection on loop l. */
  function Admit(w: World, fd: nat, l: nat, b: Buffers, left: bytes): World
  {
    var c := NewConnection(fd, l).(outBuffer := if b.output in w.soiled then left else []);
    w.(conns := w.conns + [c], owner := w.owner[fd := |w.conns|],
       held := w.held + [b], wire := w.wire + [[]], strays := w.strays + [0],
       soiled := w.soiled - {b.input, b.output},
       tainted := if b.input in w.soiled || b.output in w.soiled then w.tainted + {|w.conns|} else w.tainted)
  }

  /** What the kernel took between two states of a connection. */
  function Took(c: Conn, d: Conn): bytes
  {
    if |c.accepted| <= |d.accepted| then d.accepted[|c.accepted|..] else []
  }

  function Gains(wire: seq<bytes>, c: nat, x: bytes): (r: seq<bytes>)
    ensures |r| == |wire|
  {
    if c < |wire| then wire[c := wire[c] + x] else wire
  }

  /** `handleNewConnection` queues the registration task. */
  function Enlist(w: World, c: nat): World
    requires c < |w.conns|
  {
    w.(conns := w.conns[c := w.conns[c].(phase := Queued)])
  }

  /** A handler of connection c, run by loop l, leaves the connection as d; what it wrote went to its own socket. If that
      closed it, `handleClose` has removed its descriptor from the loop's table, lowered the counter and closed it. */
  function Touch(w: World, l: nat, c: nat, d: Conn): World
    requires l < |w.workers| && c < |w.conns|
  {
    var v := w.(conns := w.conns[c := d], wire := Gains(w.wire, c, Took(w.conns[c], d)));
    if w.conns[c].connected && !d.connected then
      var k := w.workers[l];
      v.(owner := w.owner - {d.fd},
         workers := w.workers[l := k.(sockets := k.sockets - {d.fd}, connCunt := k.connCunt - 1)])
    else v
  }

  /** Epoll of its loop still watches the descriptor for connection c. Closing the descriptor ends that in every loop. */
  predicate Live(w: World, c: nat)
  {
    && c < |w.conns| && w.conns[c].interest.Some? && c in w.file
    && w.conns[c].fd in w.owner && w.owner[w.conns[c].fd] == w.file[c]
  }

  /** Epoll of loop l can take the descriptor: it is open, and not watched by this epoll already. */
  predicate Watchable(w: World, l: nat, fd: nat)
  {
    fd in w.owner && forall d: nat :: d < |w.conns| && w.conns[d].fd == fd && w.conns[d].loop == l ==> !Live(w, d)
  }

  /** The registration task; a descriptor epoll refuses is taken out of the table again, whoever was listed under it. */
  function Settle(w: World, l: nat, c: nat, ok: bool): World
    requires l < |w.workers| && c < |w.conns|
  {
    var k, fd := w.workers[l], w.conns[c].fd;
    if ok && Watchable(w, l, fd)
    then w.(conns := w.conns[c := Register(w.conns[c], true)], file := w.file[c := w.owner[fd]],
            workers := w.workers[l := k.(sockets := k.sockets[fd := c], connCunt := k.connCunt + 1)])
    else w.(conns := w.conns[c := Register(w.conns[c], false)],
            workers := w.workers[l := k.(sockets := k.sockets - {fd})])
  }

  predicate Known(w: World, c: nat) { c < |w.conns| }

  /** What running a task on loop l does. */
  function Perform(w: World, l: nat, task: Task, out: Outside): World
    requires l < |w.workers|
  {
    match task
    case RegisterTask(c) => if Known(w, c) then Settle(w, l, c, out.ok) else w
    case SendTask(c, data, finish) =>
      if Known(w, c) then Touch(w, l, c, Connections.SendTask(w.conns[c], data, finish, out.answers.first)) else w
    case CloseTask(c) => if Known(w, c) then Touch(w, l, c, HandleClose(w.conns[c])) else w
    case UserTask(_) => w
  }

  predicate Uses(b: Buffers, x: nat) { x == b.input || x == b.output }

  predicate Overlap(b: Buffers, c: Buffers) { Uses(c, b.input) || Uses(c, b.output) }

  /** Connection e is open and holds a buffer that connection c was given too. */
  predicate Shares(w: World, c: nat, e: nat)
  {
    && c < |w.held| && e < |w.held| && e < |w.conns| && e != c && w.conns[e].connected && Overlap(w.held[c], w.held[e])
  }

  /** The open connection that has c's output buffer as its own, among those from i on. */
  function Holder(w: World, c: nat, i: nat): (r: Option<nat>)
    ensures r.Some? ==> Shares(w, c, r.value)
    decreases |w.conns| - i
  {
    if i >= |w.conns| then None
    else if Shares(w, c, i) && w.held[i].output == w.held[c].output then Some(i)
    else Holder(w, c, i + 1)
  }

  /** The connections after c worked on buffers they hold: the output buffer of `holder` is left as x, and what else was
      changed is for the outside to say. */
  function Spilt(w: World, c: nat, holder: Option<nat>, x: bytes, spill: map<nat, bytes>): (r: seq<Conn>)
    ensures |r| == |w.conns|
  {
    seq(|w.conns|, i requires 0 <= i < |w.conns| =>
      if !Shares(w, c, i) then w.conns[i]
      else if holder == Some(i) then w.conns[i].(outBuffer := x)
      else if i in spill then w.conns[i].(outBuffer := spill[i])
      else w.conns[i])
  }

  /** No open connection holds the buffer: it is new, or from the pool. */
  predicate Free(w: World, x: nat)
  {
    forall e: nat :: e < |w.held| && e < |w.conns| && w.conns[e].connected ==> !Uses(w.held[e], x)
  }

  /** A closed connection, with what it finds in the output buffer it has given back. */
  function Found(w: World, c: nat, found: bytes): Conn
    requires c < |w.conns|
  {
    var holder := Holder(w, c, 0);
    w.conns[c].(outBuffer := if holder.Some? then w.conns[holder.value].outBuffer else found)
  }

  /** Those of the buffers connection c was given that are in the pool. */
  function Returned(w: World, c: nat): set<nat>
  {
    if c < |w.held| then set x <- {w.held[c].input, w.held[c].output} | Free(w, x) else {}
  }

  /** An event reaches a closed connection and leaves it as d. It worked on buffers that it had given back, and what it
      wrote went to whoever owns its descriptor now. */
  function Haunt(w: World, c: nat, d: Conn, spill: map<nat, bytes>): World
    requires c < |w.conns|
  {
    var x := Took(w.conns[c], d);
    var v := w.(conns := Spilt(w, c, Holder(w, c, 0), d.outBuffer, spill)[c := d],
                soiled := w.soiled + Returned(w, c),
                tainted := w.tainted + set e: nat | e < |w.conns| && Shares(w, c, e));
    if d.fd in w.owner && w.owner[d.fd] < |w.strays|
    then v.(wire := Gains(w.wire, w.owner[d.fd], x), strays := w.strays[w.owner[d.fd] := w.strays[w.owner[d.fd]] + |x|])
    else v
  }

  /** What dispatching an entry of the batch does. */
  function Handle(w: World, l: nat, item: R.Item, out: Outside): World
    requires l < |w.workers|
  {
    var k := w.workers[l];
    if item.Io? && item.fd in k.sockets && Known(w, k.sockets[item.fd]) then
      var c := k.sockets[item.fd];
      if w.conns[c].connected then Touch(w, l, c, HandleEvent(w.conns[c], out.ev, out.answers))
      else Haunt(w, c, HandleEvent(Found(w, c, out.found), out.ev, out.answers), out.spill)
    else w
  }

  /** What the loop's step does beyond its queue. */
  function Effect(w: World, l: nat, step: R.Step<Task>, out: Outside): World
    requires l < |w.workers| && R.Enabled(w.workers[l].queue, step)
  {
    var q := w.workers[l].queue;
    match step
    case Append(_, RegisterTask(c)) => if Known(w, c) then Enlist(w, c) else w
    case Dispatch => Handle(w, l, q.batch[q.pc.i], out)
    case RunTask => Perform(w, l, q.taskQueueR[q.pc.i], out)
    case _ => w
  }

  function Advance(w: World, l: nat, step: R.Step<Task>): World
    requires l < |w.workers| && R.Enabled(w.workers[l].queue, step)
  {
    w.(workers := w.workers[l := w.workers[l].(queue := R.Apply(w.workers[l].queue, step))])
  }

  // ---- Which steps can be taken ----

  /** `handleNewConnection` queues the registration, once. Before it has, only the idle timer knows the connection. */
  predicate CanAppend(w: World, l: nat, task: Task)
  {
    match task
    case RegisterTask(c) => Known(w, c) && w.conns[c].loop == l && w.conns[c].phase == Created
    case SendTask(c, _, _) => Known(w, c) && w.conns[c].loop == l && w.conns[c].phase != Created
    case CloseTask(c) => Known(w, c) && w.conns[c].loop == l
    case UserTask(_) => true
  }

  /** Epoll reports descriptors it watches; the item remembers for whom. */
  predicate CanReport(w: World, l: nat, item: R.Item)
  {
    item.Io? ==> Live(w, item.conn) && w.conns[item.conn].fd == item.fd && w.conns[item.conn].loop == l
  }

  predicate Enabled(w: World, step: Step)
  {
    match step
    case AcceptConn(fd, l, b, _) =>
      fd !in w.owner && l < |w.workers| && b.input != b.output && Free(w, b.input) && Free(w, b.output)
    case LoopStep(l, s, out) =>
      && l < |w.workers| && R.Enabled(w.workers[l].queue, s)
      && (s.Append? ==> CanAppend(w, l, s.task))
      && (s.Collect? ==> forall item <- s.items :: CanReport(w, l, item))
  }

  function Apply(w: World, step: Step): World
    requires Enabled(w, step)
  {
    match step
    case AcceptConn(fd, l, b, left) => Admit(w, fd, l, b, left)
    case LoopStep(l, s, out) => Advance(Effect(w, l, s, out), l, s)
  }

  ghost predicate IsRun(w: World, steps: seq<Step>)
    decreases |steps|
  {
    steps == [] || (Enabled(w, steps[0]) && IsRun(Apply(w, steps[0]), steps[1..]))
  }

  ghost function Final(w: World, steps: seq<Step>): World
    requires IsRun(w, steps)
    decreases |steps|
  {
    if steps == [] then w else Final(Apply(w, steps[0]), steps[1..])
  }

  // ---- The tables: connections, open descriptors, socket tables and counters ----

  ghost predicate ConnOk(w: World, c: nat)
    requires c < |w.conns|
  {
    && ConnInv(w.conns[c]) && w.conns[c].loop < |w.workers|
    && (w.conns[c].connected ==> w.conns[c].fd in w.owner && w.owner[w.conns[c].fd] == c)
  }

  ghost predicate ConnsOk(w: World)
  {
    forall c: nat :: c < |w.conns| ==> ConnOk(w, c)
  }

  /** Open descriptors are exactly those of connected connections, one connection each. */
  ghost predicate OwnersOk(w: World)
  {
    forall fd <- w.owner :: w.owner[fd] < |w.conns| && w.conns[w.owner[fd]].connected && w.conns[w.owner[fd]].fd == fd
  }

  /** Epoll took in exactly the registered connections; those that were not closed before, under their own descriptor. */
  ghost predicate FileOk(w: World, c: nat)
    requires c < |w.conns|
  {
    && (c in w.file <==> w.conns[c].phase == Registered)
    && (c in w.file ==> w.file[c] < |w.conns| && (Hasty(w.conns[c]) || w.file[c] == c))
  }

  ghost predicate FilesOk(w: World)
  {
    (forall c: nat :: c < |w.conns| ==> FileOk(w, c)) && forall c <- w.file :: c < |w.conns|
  }

  /** What a table lists was registered with that loop, and is connected unless it was closed before that. */
  ghost predicate EntryOk(w: World, l: nat, fd: nat)
    requires l < |w.workers| && fd in w.workers[l].sockets
  {
    var c := w.workers[l].sockets[fd];
    && c < |w.conns| && w.conns[c].fd == fd && w.conns[c].loop == l && w.conns[c].phase == Registered
    && (w.conns[c].connected || Hasty(w.conns[c]))
  }

  ghost predicate EntriesOk(w: World)
  {
    forall l: nat, fd: nat :: l < |w.workers| && fd in w.workers[l].sockets ==> EntryOk(w, l, fd)
  }

  predicate Listed(w: World, c: nat)
  {
    && c < |w.conns| && w.conns[c].loop < |w.workers|
    && var k, fd := w.workers[w.conns[c].loop], w.conns[c].fd;
       fd in k.sockets && k.sockets[fd] == c
  }

  predicate HastyAt(w: World, l: nat, fd: nat, d: nat)
  {
    d < |w.conns| && w.conns[d].fd == fd && w.conns[d].loop == l && Hasty(w.conns[d])
  }

  /** Some connection of this loop was closed before its registration, under this descriptor. */
  ghost predicate Contested(w: World, l: nat, fd: nat)
  {
    exists d: nat :: HastyAt(w, l, fd, d)
  }

  /** A connected connection that was registered is listed unless it is contested, and if epoll reports for it then
      nobody else is listed in its place. */
  ghost predicate PlaceOk(w: World, c: nat)
    requires c < |w.conns|
  {
    var d := w.conns[c];
    && (d.connected && d.phase == Registered && !Contested(w, d.loop, d.fd) ==> Listed(w, c))
    && (Live(w, c) && d.loop < |w.workers| && d.fd in w.workers[d.loop].sockets ==> Listed(w, c))
  }

  ghost predicate PlacesOk(w: World)
  {
    forall c: nat :: c < |w.conns| ==> PlaceOk(w, c)
  }

  /** Connections of loop l that epoll took in. */
  ghost function Registrations(w: World, l: nat): set<nat>
  {
    set c: nat | c < |w.conns| && w.conns[c].loop == l && w.conns[c].phase == Registered
  }

  /** Connections of loop l that were closed. */
  ghost function Closures(w: World, l: nat): set<nat>
  {
    set c: nat | c < |w.conns| && w.conns[c].loop == l && !w.conns[c].connected
  }

  ghost predicate CountOk(w: World, l: nat)
    requires l < |w.workers|
  {
    w.workers[l].connCunt == |Registrations(w, l)| - |Closures(w, l)|
  }

  ghost predicate CountsOk(w: World)
  {
    forall l: nat :: l < |w.workers| ==> CountOk(w, l)
  }

  ghost predicate SizesOk(w: World)
  {
    |w.held| == |w.wire| == |w.strays| == |w.conns| && forall e <- w.tainted :: e < |w.conns|
  }

  /** What a connection's socket took is what it wrote and the strays; its output is in order as long as nobody else worked
      on its buffers. */
  ghost predicate AccountOk(w: World, c: nat)
    requires c < |w.conns| && SizesOk(w)
  {
    !Hasty(w.conns[c]) ==>
      && |w.wire[c]| == |w.conns[c].accepted| + w.strays[c] && (w.strays[c] == 0 ==> w.wire[c] == w.conns[c].accepted)
      && (c !in w.tainted ==> Flow(w.conns[c]))
  }

  /** Open connections never share a buffer. */
  ghost predicate HeldOk(w: World)
  {
    forall c: nat, e: nat :: c < |w.conns| && w.conns[c].connected ==> !Shares(w, c, e)
  }

  /** Connection d was closed before its registration and was given a descriptor that c had, or has. */
  ghost predicate SameFd(w: World, d: nat, c: nat)
  {
    c < |w.conns| && d < |w.conns| && Hasty(w.conns[d]) && w.conns[d].fd == w.conns[c].fd
  }

  /** Connection d was closed before its registration and was given the buffer. */
  ghost predicate Littered(w: World, d: nat, x: nat)
  {
    d < |w.held| && d < |w.conns| && Hasty(w.conns[d]) && Uses(w.held[d], x)
  }

  /** Strays and taints come from connections that were closed before their registration. */
  ghost predicate BlameOk(w: World)
  {
    && (forall c: nat :: c < |w.strays| && w.strays[c] > 0 ==> exists d: nat :: SameFd(w, d, c))
    && (forall x <- w.soiled :: exists d: nat :: Littered(w, d, x))
    && (forall c: nat :: c in w.tainted && c < |w.held| ==>
          exists d: nat :: Littered(w, d, w.held[c].input) || Littered(w, d, w.held[c].output))
  }

  ghost predicate AccountsOk(w: World)
  {
    SizesOk(w) && (forall c: nat :: c < |w.conns| ==> AccountOk(w, c)) && HeldOk(w) && BlameOk(w)
  }

  ghost predicate TablesOk(w: World)
  {
    ConnsOk(w) && OwnersOk(w) && FilesOk(w) && EntriesOk(w) && PlacesOk(w) && CountsOk(w) && AccountsOk(w)
  }

  lemma StillContested(w: World, v: World, l: nat, fd: nat)
    requires |v.conns| >= |w.conns|
    requires forall d: nat :: d < |w.conns| && Hasty(w.conns[d]) ==>
               v.conns[d].fd == w.conns[d].fd && v.conns[d].loop == w.conns[d].loop && Hasty(v.conns[d])
    ensures Contested(w, l, fd) ==> Contested(v, l, fd)
  {
    if Contested(w, l, fd) {
      var d: nat :| HastyAt(w, l, fd, d);
      assert HastyAt(v, l, fd, d);
    }
  }

  // ---- Accepting ----

  lemma AdmitPlaces(w: World, fd: nat, l: nat, b: Buffers, left: bytes)
    requires TablesOk(w) && fd !in w.owner && l < |w.workers|
    ensures var v := Admit(w, fd, l, b, left); ConnsOk(v) && PlacesOk(v)
  {
    var v := Admit(w, fd, l, b, left);
    forall c: nat | c < |v.conns|
      ensures ConnOk(v, c)
    {
      if c < |w.conns| {
        assert ConnOk(w, c);
      }
    }
    forall c: nat | c < |v.conns|
      ensures PlaceOk(v, c)
    {
      if c < |w.conns| {
        assert PlaceOk(w, c) && FileOk(w, c);
        StillContested(w, v, w.conns[c].loop, w.conns[c].fd);
      }
    }
  }

  /** Blame stays where it was put: what was given to a connection is not taken back, and early closes are not undone. */
  lemma StillBlamed(w: World, v: World)
    requires BlameOk(w) && w.held <= v.held && |w.conns| <= |v.conns| && |w.held| == |w.conns| && |v.held| == |v.conns|
    requires forall d: nat :: d < |w.conns| ==> v.conns[d].fd == w.conns[d].fd && (Hasty(w.conns[d]) ==> Hasty(v.conns[d]))
    ensures forall c: nat :: c < |w.strays| && c < |w.conns| && w.strays[c] > 0 ==> exists d: nat :: SameFd(v, d, c)
    ensures forall x <- w.soiled :: exists d: nat :: Littered(v, d, x)
    ensures forall c: nat :: c in w.tainted && c < |w.held| ==>
              exists d: nat :: Littered(v, d, v.held[c].input) || Littered(v, d, v.held[c].output)
  {
    forall c: nat | c < |w.strays| && c < |w.conns| && w.strays[c] > 0
      ensures exists d: nat :: SameFd(v, d, c)
    {
      var d: nat :| SameFd(w, d, c);
      assert SameFd(v, d, c);
    }
    forall x | x in w.soiled
      ensures exists d: nat :: Littered(v, d, x)
    {
      var d: nat :| Littered(w, d, x);
      assert Littered(v, d, x);
    }
    forall c: nat | c in w.tainted && c < |w.held|
      ensures exists d: nat :: Littered(v, d, v.held[c].input) || Littered(v, d, v.held[c].output)
    {
      var d: nat :| Littered(w, d, w.held[c].input) || Littered(w, d, w.held[c].output);
      assert Littered(v, d, v.held[c].input) || Littered(v, d, v.held[c].output);
    }
  }

  lemma AdmitBlamed(w: World, fd: nat, l: nat, b: Buffers, left: bytes)
    requires SizesOk(w) && BlameOk(w)
    ensures BlameOk(Admit(w, fd, l, b, left))
  {
    var v := Admit(w, fd, l, b, left);
    StillBlamed(w, v);
    forall c: nat | c in v.tainted && c < |v.held|
      ensures exists d: nat :: Littered(v, d, v.held[c].input) || Littered(v, d, v.held[c].output)
    {
      if c !in w.tainted {
        var x := if b.input in w.soiled then b.input else b.output;
        var d: nat :| Littered(v, d, x);
        assert c == |w.conns| && v.held[c] == b;
      }
    }
  }

  lemma AdmitAccounts(w: World, fd: nat, l: nat, b: Buffers, left: bytes)
    requires TablesOk(w) && Enabled(w, AcceptConn(fd, l, b, left))
    ensures AccountsOk(Admit(w, fd, l, b, left))
  {
    var v := Admit(w, fd, l, b, left);
    forall c: nat | c < |v.conns|
      ensures AccountOk(v, c)
    {
      if c < |w.conns| {
        assert AccountOk(w, c);
      }
    }
    forall c: nat, e: nat | c < |v.conns| && v.conns[c].connected
      ensures !Shares(v, c, e)
    {
      if c < |w.conns| && e < |w.conns| {
        assert !Shares(w, c, e);
      }
    }
    AdmitBlamed(w, fd, l, b, left);
  }

  lemma AdmitKeeps(w: World, fd: nat, l: nat, b: Buffers, left: bytes)
    requires TablesOk(w) && Enabled(w, AcceptConn(fd, l, b, left))
    ensures TablesOk(Admit(w, fd, l, b, left))
  {
    var v := Admit(w, fd, l, b, left);
    AdmitPlaces(w, fd, l, b, left);
    AdmitAccounts(w, fd, l, b, left);
    forall c: nat | c < |v.conns|
      ensures FileOk(v, c)
    {
      if c < |w.conns| {
        assert FileOk(w, c);
      }
    }
    forall m: nat, f: nat | m < |v.workers| && f in v.workers[m].sockets
      ensures EntryOk(v, m, f)
    {
      assert EntryOk(w, m, f);
    }
    forall m: nat | m < |v.workers|
      ensures CountOk(v, m)
    {
      assert CountOk(w, m) && Registrations(v, m) == Registrations(w, m) && Closures(v, m) == Closures(w, m);
    }
  }

  // ---- A change of one connection ----

  /** A handler runs on the loop its connection belongs to. */
  ghost predicate MayTouch(w: World, l: nat, c: nat, d: Conn)
  {
    && l < |w.workers| && c < |w.conns| && w.conns[c].loop == l
    && ConnInv(d) && SameIdentity(w.conns[c], d)
    && (Hasty(w.conns[c]) ==> Hasty(d)) && (w.conns[c].connected || d == w.conns[c])
    && (!Hasty(d) && Flow(w.conns[c]) ==> Flow(d))
  }

  /** No connection is opened again, so that none comes to share a buffer. */
  lemma StillHeld(w: World, v: World)
    requires HeldOk(w) && v.held == w.held && |v.conns| == |w.conns|
    requires forall e: nat :: e < |w.conns| && v.conns[e].connected ==> w.conns[e].connected
    ensures HeldOk(v)
  {
    forall c: nat, e: nat | c < |v.conns| && v.conns[c].connected
      ensures !Shares(v, c, e)
    {
      assert !Shares(w, c, e);
    }
  }

  lemma TouchAccounts(w: World, l: nat, c: nat, d: Conn)
    requires TablesOk(w) && MayTouch(w, l, c, d)
    ensures AccountsOk(Touch(w, l, c, d))
  {
    var v := Touch(w, l, c, d);
    StillHeld(w, v);
    StillBlamed(w, v);
    forall e: nat | e < |v.conns|
      ensures AccountOk(v, e)
    {
      assert AccountOk(w, e);
      if e == c {
        assert d.accepted == w.conns[c].accepted + Took(w.conns[c], d);
      }
    }
  }

  lemma TouchConns(w: World, l: nat, c: nat, d: Conn)
    requires TablesOk(w) && MayTouch(w, l, c, d)
    ensures var v := Touch(w, l, c, d); ConnsOk(v) && OwnersOk(v)
  {
    var v := Touch(w, l, c, d);
    assert ConnOk(w, c);
    forall e: nat | e < |v.conns|
      ensures ConnOk(v, e)
    {
      assert ConnOk(w, e);
    }
  }

  lemma TouchFiles(w: World, l: nat, c: nat, d: Conn)
    requires TablesOk(w) && MayTouch(w, l, c, d)
    ensures FilesOk(Touch(w, l, c, d))
  {
    var v := Touch(w, l, c, d);
    forall e: nat | e < |v.conns|
      ensures FileOk(v, e)
    {
      assert FileOk(w, e);
    }
  }

  lemma TouchEntries(w: World, l: nat, c: nat, d: Conn)
    requires TablesOk(w) && MayTouch(w, l, c, d)
    ensures EntriesOk(Touch(w, l, c, d))
  {
    var v := Touch(w, l, c, d);
    forall m: nat, f: nat | m < |v.workers| && f in v.workers[m].sockets
      ensures EntryOk(v, m, f)
    {
      assert f in w.workers[m].sockets && EntryOk(w, m, f);
    }
  }

  /** What can be said of a connection's place without looking at the tables carries over. */
  lemma TouchStanding(w: World, l: nat, c: nat, d: Conn, e: nat)
    requires TablesOk(w) && MayTouch(w, l, c, d) && e < |w.conns|
    ensures var v := Touch(w, l, c, d);
            && (Live(v, e) ==> Live(w, e)) && v.conns[e].loop == w.conns[e].loop && v.conns[e].fd == w.conns[e].fd
            && (!Contested(v, w.conns[e].loop, w.conns[e].fd) ==> !Contested(w, w.conns[e].loop, w.conns[e].fd))
  {
    StillContested(w, Touch(w, l, c, d), w.conns[e].loop, w.conns[e].fd);
  }

  lemma TouchPlace(w: World, l: nat, c: nat, d: Conn, e: nat)
    requires TablesOk(w) && MayTouch(w, l, c, d) && e < |w.conns|
    ensures PlaceOk(Touch(w, l, c, d), e)
  {
    var v := Touch(w, l, c, d);
    assert PlaceOk(w, e) && ConnOk(w, e) && ConnOk(w, c);
    TouchStanding(w, l, c, d, e);
  }

  lemma TouchCount(w: World, l: nat, c: nat, d: Conn, m: nat)
    requires ConnsOk(w) && MayTouch(w, l, c, d) && m < |w.workers| && CountOk(w, m)
    ensures m < |Touch(w, l, c, d).workers| && CountOk(Touch(w, l, c, d), m)
  {
    var v := Touch(w, l, c, d);
    assert Registrations(v, m) == Registrations(w, m);
    if m == l && w.conns[c].connected && !d.connected {
      assert Closures(v, m) == Closures(w, m) + {c};
    } else {
      assert Closures(v, m) == Closures(w, m);
    }
  }

  lemma TouchCounts(w: World, l: nat, c: nat, d: Conn)
    requires TablesOk(w) && MayTouch(w, l, c, d)
    ensures CountsOk(Touch(w, l, c, d))
  {
    var v := Touch(w, l, c, d);
    forall m: nat | m < |v.workers|
      ensures CountOk(v, m)
    {
      TouchCount(w, l, c, d, m);
    }
  }

  lemma TouchKeeps(w: World, l: nat, c: nat, d: Conn)
    requires TablesOk(w) && MayTouch(w, l, c, d)
    ensures TablesOk(Touch(w, l, c, d))
  {
    TouchConns(w, l, c, d);
    TouchFiles(w, l, c, d);
    TouchEntries(w, l, c, d);
    TouchCounts(w, l, c, d);
    TouchAccounts(w, l, c, d);
    var v := Touch(w, l, c, d);
    forall e: nat | e < |v.conns|
      ensures PlaceOk(v, e)
    {
      TouchPlace(w, l, c, d, e);
    }
  }

  // ---- Registering ----

  lemma EnlistAccounts(w: World, c: nat)
    requires AccountsOk(w) && c < |w.conns| && w.conns[c].phase == Created
    ensures AccountsOk(Enlist(w, c))
  {
    var v := Enlist(w, c);
    StillHeld(w, v);
    StillBlamed(w, v);
    forall e: nat | e < |v.conns|
      ensures AccountOk(v, e)
    {
      assert AccountOk(w, e);
    }
  }

  lemma EnlistKeeps(w: World, c: nat)
    requires TablesOk(w) && c < |w.conns| && w.conns[c].phase == Created
    ensures TablesOk(Enlist(w, c))
  {
    var v := Enlist(w, c);
    EnlistAccounts(w, c);
    forall e: nat | e < |v.conns|
      ensures ConnOk(v, e) && FileOk(v, e) && PlaceOk(v, e)
    {
      assert ConnOk(w, e) && FileOk(w, e) && PlaceOk(w, e);
      StillContested(w, v, w.conns[e].loop, w.conns[e].fd);
    }
    forall m: nat, f: nat | m < |v.workers| && f in v.workers[m].sockets
      ensures EntryOk(v, m, f)
    {
      assert EntryOk(w, m, f);
    }
    forall m: nat | m < |v.workers|
      ensures CountOk(v, m)
    {
      assert CountOk(w, m) && Registrations(v, m) == Registrations(w, m) && Closures(v, m) == Closures(w, m);
    }
  }

  /** The registration task runs once, on the connection's loop. */
  predicate MaySettle(w: World, l: nat, c: nat)
  {
    l < |w.workers| && c < |w.conns| && w.conns[c].loop == l && w.conns[c].phase == Queued
  }

  lemma SettleConns(w: World, l: nat, c: nat, ok: bool)
    requires TablesOk(w) && MaySettle(w, l, c)
    ensures var v := Settle(w, l, c, ok); ConnsOk(v) && OwnersOk(v) && FilesOk(v)
  {
    var v := Settle(w, l, c, ok);
    assert ConnOk(w, c) && FileOk(w, c);
    RegisterKeeps(w.conns[c], ok && Watchable(w, l, w.conns[c].fd));
    forall e: nat | e < |v.conns|
      ensures ConnOk(v, e) && FileOk(v, e)
    {
      assert ConnOk(w, e) && FileOk(w, e);
    }
  }

  lemma SettleEntries(w: World, l: nat, c: nat, ok: bool)
    requires TablesOk(w) && MaySettle(w, l, c)
    ensures EntriesOk(Settle(w, l, c, ok))
  {
    var v := Settle(w, l, c, ok);
    assert ConnOk(w, c);
    forall m: nat, f: nat | m < |v.workers| && f in v.workers[m].sockets
      ensures EntryOk(v, m, f)
    {
      assert f in w.workers[m].sockets ==> EntryOk(w, m, f);
    }
  }

  /** Whoever is connected under the descriptor of another connection of the same loop whose turn it is to register:
      that other one was closed before. */
  lemma OnlyHastyMeet(w: World, l: nat, c: nat, e: nat)
    requires TablesOk(w) && MaySettle(w, l, c) && e < |w.conns| && e != c && w.conns[e].connected && w.conns[e].fd == w.conns[c].fd
    ensures Hasty(w.conns[c])
  {
    assert ConnOk(w, c) && ConnOk(w, e);
  }

  lemma SettlePlace(w: World, l: nat, c: nat, ok: bool, e: nat)
    requires TablesOk(w) && MaySettle(w, l, c) && e < |w.conns|
    ensures PlaceOk(Settle(w, l, c, ok), e)
  {
    var v := Settle(w, l, c, ok);
    assert PlaceOk(w, e) && FileOk(w, e);
    StillContested(w, v, w.conns[e].loop, w.conns[e].fd);
    if e != c && w.conns[e].connected && w.conns[e].fd == w.conns[c].fd && w.conns[e].loop == l {
      OnlyHastyMeet(w, l, c, e);
      assert HastyAt(v, l, w.conns[e].fd, c);
    }
  }

  lemma SettleCounts(w: World, l: nat, c: nat, ok: bool)
    requires TablesOk(w) && MaySettle(w, l, c)
    ensures CountsOk(Settle(w, l, c, ok))
  {
    var v := Settle(w, l, c, ok);
    forall m: nat | m < |v.workers|
      ensures CountOk(v, m)
    {
      assert CountOk(w, m) && Closures(v, m) == Closures(w, m);
      if m == l && ok && Watchable(w, l, w.conns[c].fd) {
        assert Registrations(v, m) == Registrations(w, m) + {c};
      } else {
        assert Registrations(v, m) == Registrations(w, m);
      }
    }
  }

  lemma SettleAccounts(w: World, l: nat, c: nat, ok: bool)
    requires TablesOk(w) && MaySettle(w, l, c)
    ensures AccountsOk(Settle(w, l, c, ok))
  {
    var v := Settle(w, l, c, ok);
    assert ConnOk(w, c);
    RegisterKeeps(w.conns[c], ok && Watchable(w, l, w.conns[c].fd));
    StillHeld(w, v);
    StillBlamed(w, v);
    forall e: nat | e < |v.conns|
      ensures AccountOk(v, e)
    {
      assert AccountOk(w, e);
    }
  }

  lemma SettleKeeps(w: World, l: nat, c: nat, ok: bool)
    requires TablesOk(w) && MaySettle(w, l, c)
    ensures TablesOk(Settle(w, l, c, ok))
  {
    SettleAccounts(w, l, c, ok);
    SettleConns(w, l, c, ok);
    SettleEntries(w, l, c, ok);
    SettleCounts(w, l, c, ok);
    var v := Settle(w, l, c, ok);
    forall e: nat | e < |v.conns|
      ensures PlaceOk(v, e)
    {
      SettlePlace(w, l, c, ok, e);
    }
  }

  // ---- Events for closed connections ----

  /** The same connection in everything but its buffers, what it sent and its later callbacks. */
  predicate SameStanding(c: Conn, d: Conn)
  {
    && d.fd == c.fd && d.loop == c.loop && d.phase == c.phase && d.connected == c.connected
    && (d.interest.Some? <==> c.interest.Some?) && (Hasty(d) <==> Hasty(c))
  }

  ghost predicate SameStandings(w: World, v: World)
  {
    && v.workers == w.workers && v.owner == w.owner && v.file == w.file && |v.conns| == |w.conns|
    && forall e: nat :: e < |w.conns| ==> SameStanding(w.conns[e], v.conns[e]) && ConnInv(v.conns[e])
  }

  lemma StandingTables(w: World, v: World)
    requires TablesOk(w) && SameStandings(w, v)
    ensures ConnsOk(v) && OwnersOk(v) && FilesOk(v) && EntriesOk(v) && CountsOk(v)
  {
    forall e: nat | e < |v.conns|
      ensures ConnOk(v, e) && FileOk(v, e)
    {
      assert ConnOk(w, e) && FileOk(w, e);
    }
    forall m: nat, f: nat | m < |v.workers| && f in v.workers[m].sockets
      ensures EntryOk(v, m, f)
    {
      assert EntryOk(w, m, f);
    }
    forall m: nat | m < |v.workers|
      ensures CountOk(v, m)
    {
      assert CountOk(w, m) && Registrations(v, m) == Registrations(w, m) && Closures(v, m) == Closures(w, m);
    }
  }

  lemma StandingPlaces(w: World, v: World)
    requires TablesOk(w) && SameStandings(w, v)
    ensures PlacesOk(v)
  {
    forall e: nat | e < |v.conns|
      ensures PlaceOk(v, e)
    {
      assert PlaceOk(w, e);
      StillContested(w, v, w.conns[e].loop, w.conns[e].fd);
    }
  }

  predicate MayHaunt(w: World, c: nat, d: Conn)
  {
    c < |w.conns| && Hasty(w.conns[c]) && SameStanding(w.conns[c], d) && ConnInv(d)
  }

  lemma HauntStandings(w: World, c: nat, d: Conn, spill: map<nat, bytes>)
    requires ConnsOk(w) && MayHaunt(w, c, d)
    ensures SameStandings(w, Haunt(w, c, d, spill))
  {
    var v := Haunt(w, c, d, spill);
    forall e: nat | e < |w.conns|
      ensures SameStanding(w.conns[e], v.conns[e]) && ConnInv(v.conns[e])
    {
      assert ConnOk(w, e);
    }
  }

  lemma HauntAccount(w: World, c: nat, d: Conn, spill: map<nat, bytes>, e: nat)
    requires SizesOk(w) && MayHaunt(w, c, d) && e < |w.conns| && AccountOk(w, e) && SizesOk(Haunt(w, c, d, spill))
    ensures AccountOk(Haunt(w, c, d, spill), e)
  {}

  lemma HauntTainted(w: World, c: nat, d: Conn, spill: map<nat, bytes>)
    requires SizesOk(w) && BlameOk(w) && MayHaunt(w, c, d) && SameStandings(w, Haunt(w, c, d, spill))
    ensures var v := Haunt(w, c, d, spill);
            forall e: nat :: e in v.tainted && e < |v.held| ==>
              exists g: nat :: Littered(v, g, v.held[e].input) || Littered(v, g, v.held[e].output)
  {
    var v := Haunt(w, c, d, spill);
    StillBlamed(w, v);
    forall e: nat | e in v.tainted && e < |v.held|
      ensures exists g: nat :: Littered(v, g, v.held[e].input) || Littered(v, g, v.held[e].output)
    {
      if e !in w.tainted {
        assert Shares(w, c, e);
        assert Littered(v, c, v.held[e].input) || Littered(v, c, v.held[e].output);
      }
    }
  }

  lemma HauntBlamed(w: World, c: nat, d: Conn, spill: map<nat, bytes>)
    requires SizesOk(w) && BlameOk(w) && OwnersOk(w) && MayHaunt(w, c, d) && SameStandings(w, Haunt(w, c, d, spill))
    ensures BlameOk(Haunt(w, c, d, spill))
  {
    var v := Haunt(w, c, d, spill);
    StillBlamed(w, v);
    HauntTainted(w, c, d, spill);
    forall x | x in v.soiled
      ensures exists g: nat :: Littered(v, g, x)
    {
      if x !in w.soiled {
        assert Littered(v, c, x);
      }
    }
    forall e: nat | e < |v.strays| && v.strays[e] > 0
      ensures exists g: nat :: SameFd(v, g, e)
    {
      if v.strays[e] != w.strays[e] {
        assert SameFd(v, c, e);
      }
    }
  }

  lemma HauntKeeps(w: World, c: nat, d: Conn, spill: map<nat, bytes>)
    requires TablesOk(w) && MayHaunt(w, c, d)
    ensures TablesOk(Haunt(w, c, d, spill))
  {
    var v := Haunt(w, c, d, spill);
    HauntStandings(w, c, d, spill);
    StandingTables(w, v);
    StandingPlaces(w, v);
    StillHeld(w, v);
    HauntBlamed(w, c, d, spill);
    forall e: nat | e < |v.conns|
      ensures AccountOk(v, e)
    {
      HauntAccount(w, c, d, spill, e);
    }
  }

  // ---- The task histories and the batches ----

  function Appended(w: World, l: nat): seq<Task>
    requires l < |w.workers|
  {
    w.workers[l].queue.appended
  }

  function Executed(w: World, l: nat): seq<Task>
    requires l < |w.workers|
  {
    w.workers[l].queue.executed
  }

  /** The j-th task ever appended to loop l concerns a connection of that loop; it is its only registration, or a close, or
      a send that comes after the registration. */
  ghost predicate TaskOk(conns: seq<Conn>, l: nat, tasks: seq<Task>, j: nat)
    requires j < |tasks|
  {
    match tasks[j]
    case UserTask(_) => true
    case RegisterTask(c) => c < |conns| && conns[c].loop == l && tasks[j] !in tasks[..j]
    case SendTask(c, _, _) => c < |conns| && conns[c].loop == l && RegisterTask(c) in tasks[..j]
    case CloseTask(c) => c < |conns| && conns[c].loop == l
  }

  ghost predicate HistoryOk(w: World)
  {
    forall l: nat, j: nat :: l < |w.workers| && j < |Appended(w, l)| ==> TaskOk(w.conns, l, Appended(w, l), j)
  }

  /** In this list of tasks connection c is closed before it is registered. */
  ghost predicate ClosesEarly(tasks: seq<Task>, c: nat)
  {
    exists j: nat :: j < |tasks| && tasks[j] == CloseTask(c) && RegisterTask(c) !in tasks[..j]
  }

  lemma ClosesEarlySnoc(tasks: seq<Task>, t: Task, c: nat)
    ensures ClosesEarly(tasks + [t], c) <==> ClosesEarly(tasks, c) || (t == CloseTask(c) && RegisterTask(c) !in tasks)
  {
    var all := tasks + [t];
    assert all[..|tasks|] == tasks;
    forall j: nat | j < |tasks|
      ensures all[j] == tasks[j] && all[..j] == tasks[..j]
    {}
    if ClosesEarly(tasks, c) {
      var j: nat :| j < |tasks| && tasks[j] == CloseTask(c) && RegisterTask(c) !in tasks[..j];
      assert all[j] == CloseTask(c) && RegisterTask(c) !in all[..j];
    }
    if t == CloseTask(c) && RegisterTask(c) !in tasks {
      assert all[|tasks|] == CloseTask(c) && RegisterTask(c) !in all[..|tasks|];
    }
  }

  /** The phase of connection c says where its registration task is, and its first callback whether a close came first. */
  ghost predicate PhaseOk(w: World, c: nat)
    requires c < |w.conns|
  {
    var d := w.conns[c];
    && d.loop < |w.workers|
    && (d.phase != Created <==> RegisterTask(c) in Appended(w, d.loop))
    && (Settled(d) <==> RegisterTask(c) in Executed(w, d.loop))
    && (Hasty(d) <==> ClosesEarly(Executed(w, d.loop), c))
  }

  ghost predicate PhasesOk(w: World)
  {
    forall c: nat :: c < |w.conns| ==> PhaseOk(w, c)
  }

  /** An undispatched event is for the connection that epoll watched the descriptor for when it was collected:
      the table either still lists that connection under the descriptor, or lists nothing. */
  ghost predicate BatchOk(w: World, l: nat)
    requires l < |w.workers|
  {
    var q := w.workers[l].queue;
    q.pc.Dispatching? ==>
      forall j :: q.pc.i <= j < |q.batch| && q.batch[j].Io? && q.batch[j].fd in w.workers[l].sockets
                  ==> w.workers[l].sockets[q.batch[j].fd] == q.batch[j].conn
  }

  ghost predicate QueuesOk(w: World)
  {
    && (forall l: nat :: l < |w.workers| ==> R.Inv(w.workers[l].queue))
    && (forall l: nat :: l < |w.workers| ==> BatchOk(w, l))
  }

  ghost predicate Inv(w: World)
  {
    TablesOk(w) && HistoryOk(w) && PhasesOk(w) && QueuesOk(w)
  }

  /** The task about to run is the one appended next after those already run. */
  lemma NextTask(w: World, l: nat)
    requires Inv(w) && l < |w.workers| && R.Enabled(w.workers[l].queue, R.RunTask)
    ensures var q, n := w.workers[l].queue, |Executed(w, l)|;
            && n < |Appended(w, l)| && Appended(w, l)[n] == q.taskQueueR[q.pc.i] && Appended(w, l)[..n] == Executed(w, l)
            && TaskOk(w.conns, l, Appended(w, l), n)
  {
    var q := w.workers[l].queue;
    assert R.Inv(q);
    assert q.appended == q.executed + R.Pending(q);
  }

  /** A task whose turn it is on loop l, after those executed. */
  ghost predicate Due(w: World, l: nat, task: Task)
  {
    && l < |w.workers|
    && match task
       case UserTask(_) => true
       case RegisterTask(c) => MaySettle(w, l, c)
       case SendTask(c, _, _) => c < |w.conns| && w.conns[c].loop == l && Settled(w.conns[c])
       case CloseTask(c) => c < |w.conns| && w.conns[c].loop == l
  }

  lemma NextIsDue(w: World, l: nat)
    requires Inv(w) && l < |w.workers| && R.Enabled(w.workers[l].queue, R.RunTask)
    ensures var q := w.workers[l].queue; Due(w, l, q.taskQueueR[q.pc.i])
  {
    NextTask(w, l);
    var q := w.workers[l].queue;
    var task := q.taskQueueR[q.pc.i];
    if !task.UserTask? {
      assert PhaseOk(w, task.c);
    }
  }

  lemma PerformKeepsTables(w: World, l: nat, task: Task, out: Outside)
    requires TablesOk(w) && Due(w, l, task)
    ensures TablesOk(Perform(w, l, task, out))
  {
    match task
    case UserTask(_) =>
    case RegisterTask(c) => SettleKeeps(w, l, c, out.ok);
    case SendTask(c, data, finish) =>
      assert ConnOk(w, c);
      if w.conns[c].connected {
        SendTaskKeeps(w.conns[c], data, finish, out.answers.first);
      }
      TouchKeeps(w, l, c, Connections.SendTask(w.conns[c], data, finish, out.answers.first));
    case CloseTask(c) =>
      assert ConnOk(w, c);
      CloseKeeps(w.conns[c]);
      TouchKeeps(w, l, c, HandleClose(w.conns[c]));
  }

  lemma HandleKeepsTables(w: World, l: nat, item: R.Item, out: Outside)
    requires TablesOk(w) && l < |w.workers|
    ensures TablesOk(Handle(w, l, item, out))
  {
    if item.Io? && item.fd in w.workers[l].sockets {
      assert EntryOk(w, l, item.fd);
      var c := w.workers[l].sockets[item.fd];
      assert ConnOk(w, c);
      if w.conns[c].connected {
        EventKeeps(w.conns[c], out.ev, out.answers);
        TouchKeeps(w, l, c, HandleEvent(w.conns[c], out.ev, out.answers));
      } else {
        ClosedEvent(Found(w, c, out.found), out.ev, out.answers);
        HauntKeeps(w, c, HandleEvent(Found(w, c, out.found), out.ev, out.answers), out.spill);
      }
    }
  }

  lemma EffectKeepsTables(w: World, l: nat, s: R.Step<Task>, out: Outside)
    requires Inv(w) && Enabled(w, LoopStep(l, s, out))
    ensures TablesOk(Effect(w, l, s, out))
  {
    match s
    case Append(_, RegisterTask(c)) => EnlistKeeps(w, c);
    case Dispatch => HandleKeepsTables(w, l, w.workers[l].queue.batch[w.workers[l].queue.pc.i], out);
    case RunTask =>
      NextIsDue(w, l);
      PerformKeepsTables(w, l, w.workers[l].queue.taskQueueR[w.workers[l].queue.pc.i], out);
    case _ =>
  }

  lemma AdvanceKeepsTables(w: World, l: nat, s: R.Step<Task>)
    requires TablesOk(w) && l < |w.workers| && R.Enabled(w.workers[l].queue, s)
    ensures TablesOk(Advance(w, l, s))
  {
    var v := Advance(w, l, s);
    StillHeld(w, v);
    StillBlamed(w, v);
    forall e: nat | e < |v.conns|
      ensures ConnOk(v, e) && FileOk(v, e) && PlaceOk(v, e) && AccountOk(v, e)
    {
      assert ConnOk(w, e) && FileOk(w, e) && PlaceOk(w, e) && AccountOk(w, e);
      StillContested(w, v, w.conns[e].loop, w.conns[e].fd);
    }
    forall m: nat, f: nat | m < |v.workers| && f in v.workers[m].sockets
      ensures EntryOk(v, m, f)
    {
      assert EntryOk(w, m, f);
    }
    forall m: nat | m < |v.workers|
      ensures CountOk(v, m)
    {
      assert CountOk(w, m) && Registrations(v, m) == Registrations(w, m) && Closures(v, m) == Closures(w, m);
    }
  }

  // ---- Histories and phases ----

  /** Queues, the other loops' tables, and every connection's descriptor and loop are the same. */
  ghost predicate SameShape(w: World, v: World, l: nat)
  {
    && |v.workers| == |w.workers| && |v.conns| == |w.conns|
    && (forall m: nat :: m < |w.workers| ==> v.workers[m].queue == w.workers[m].queue)
    && (forall m: nat :: m < |w.workers| && m != l ==> v.workers[m] == w.workers[m])
    && (forall c: nat :: c < |w.conns| ==> v.conns[c].fd == w.conns[c].fd && v.conns[c].loop == w.conns[c].loop)
  }

  lemma TouchShape(w: World, l: nat, c: nat, d: Conn)
    requires l < |w.workers| && c < |w.conns| && SameIdentity(w.conns[c], d)
    ensures SameShape(w, Touch(w, l, c, d), l)
  {}

  lemma HauntShape(w: World, l: nat, c: nat, d: Conn, spill: map<nat, bytes>)
    requires l < |w.workers| && c < |w.conns| && SameIdentity(w.conns[c], d)
    ensures SameShape(w, Haunt(w, c, d, spill), l)
  {}

  lemma SettleShape(w: World, l: nat, c: nat, ok: bool)
    requires l < |w.workers| && c < |w.conns|
    ensures SameShape(w, Settle(w, l, c, ok), l)
  {}

  lemma PerformShape(w: World, l: nat, task: Task, out: Outside)
    requires l < |w.workers|
    ensures SameShape(w, Perform(w, l, task, out), l)
  {
    match task
    case RegisterTask(c) =>
      if Known(w, c) {
        SettleShape(w, l, c, out.ok);
      }
    case SendTask(c, data, finish) =>
      if Known(w, c) {
        TouchShape(w, l, c, Connections.SendTask(w.conns[c], data, finish, out.answers.first));
      }
    case CloseTask(c) =>
      if Known(w, c) {
        TouchShape(w, l, c, HandleClose(w.conns[c]));
      }
    case UserTask(_) =>
  }

  lemma HandleShape(w: World, l: nat, item: R.Item, out: Outside)
    requires l < |w.workers|
    ensures SameShape(w, Handle(w, l, item, out), l)
  {
    var k := w.workers[l];
    if item.Io? && item.fd in k.sockets && Known(w, k.sockets[item.fd]) {
      var c := k.sockets[item.fd];
      if w.conns[c].connected {
        TouchShape(w, l, c, HandleEvent(w.conns[c], out.ev, out.answers));
      } else {
        HauntShape(w, l, c, HandleEvent(Found(w, c, out.found), out.ev, out.answers), out.spill);
      }
    }
  }

  lemma EffectShape(w: World, l: nat, s: R.Step<Task>, out: Outside)
    requires l < |w.workers| && R.Enabled(w.workers[l].queue, s)
    ensures SameShape(w, Effect(w, l, s, out), l)
  {
    var q := w.workers[l].queue;
    if s.RunTask? {
      PerformShape(w, l, q.taskQueueR[q.pc.i], out);
    } else if s.Dispatch? {
      HandleShape(w, l, q.batch[q.pc.i], out);
    }
  }

  /** The task step s runs, if any. */
  function Ran(w: World, l: nat, s: R.Step<Task>): seq<Task>
    requires l < |w.workers| && R.Enabled(w.workers[l].queue, s)
  {
    var q := w.workers[l].queue;
    if s.RunTask? then [q.taskQueueR[q.pc.i]] else []
  }

  /** Queueing and running its registration task changes a connection's phase, and only a close that runs before the
      registration makes it hasty. */
  ghost predicate Evolves(w: World, l: nat, s: R.Step<Task>, c: nat, e: Conn)
    requires l < |w.workers| && R.Enabled(w.workers[l].queue, s) && c < |w.conns|
  {
    var d, ran := w.conns[c], Ran(w, l, s);
    && (if s.Append? && s.task == RegisterTask(c) then e.phase == Queued
        else if ran == [RegisterTask(c)] then Settled(e)
        else e.phase == d.phase)
    && (Hasty(e) <==> Hasty(d) || (ran == [CloseTask(c)] && !Settled(d)))
  }

  /** What running a task does to connection c. */
  ghost predicate TaskEvolves(d: Conn, e: Conn, task: Task, c: nat)
  {
    && (if task == RegisterTask(c) then Settled(e) else e.phase == d.phase)
    && (Hasty(e) <==> Hasty(d) || (task == CloseTask(c) && !Settled(d)))
  }

  lemma SendEvolves(w: World, l: nat, c: nat, data: bytes, finish: bool, wr: WriteResult)
    requires TablesOk(w) && l < |w.workers| && c < |w.conns| && Settled(w.conns[c])
    ensures var d, e := w.conns[c], Connections.SendTask(w.conns[c], data, finish, wr);
            e.phase == d.phase && (Hasty(e) <==> Hasty(d))
  {
    assert ConnOk(w, c);
    if w.conns[c].connected {
      SendTaskKeeps(w.conns[c], data, finish, wr);
    }
  }

  lemma PerformEvolves(w: World, l: nat, task: Task, out: Outside, c: nat)
    requires TablesOk(w) && Due(w, l, task) && c < |w.conns|
    ensures c < |Perform(w, l, task, out).conns| && TaskEvolves(w.conns[c], Perform(w, l, task, out).conns[c], task, c)
  {
    match task
    case RegisterTask(d) =>
      assert ConnOk(w, d);
      RegisterKeeps(w.conns[d], out.ok && Watchable(w, l, w.conns[d].fd));
    case SendTask(d, data, finish) => SendEvolves(w, l, d, data, finish, out.answers.first);
    case CloseTask(d) =>
      assert ConnOk(w, d);
      CloseKeeps(w.conns[d]);
    case UserTask(_) =>
  }

  lemma HandleEvolves(w: World, l: nat, item: R.Item, out: Outside, c: nat)
    requires TablesOk(w) && l < |w.workers| && c < |w.conns|
    ensures c < |Handle(w, l, item, out).conns|
            && var e := Handle(w, l, item, out).conns[c]; e.phase == w.conns[c].phase && (Hasty(e) <==> Hasty(w.conns[c]))
  {
    if item.Io? && item.fd in w.workers[l].sockets {
      assert EntryOk(w, l, item.fd) && ConnOk(w, w.workers[l].sockets[item.fd]);
      var d := w.workers[l].sockets[item.fd];
      if w.conns[d].connected {
        EventKeeps(w.conns[d], out.ev, out.answers);
      } else {
        ClosedEvent(Found(w, d, out.found), out.ev, out.answers);
        HauntStandings(w, d, HandleEvent(Found(w, d, out.found), out.ev, out.answers), out.spill);
      }
    }
  }

  lemma EffectEvolves(w: World, l: nat, s: R.Step<Task>, out: Outside, c: nat)
    requires Inv(w) && Enabled(w, LoopStep(l, s, out)) && c < |w.conns|
    ensures c < |Effect(w, l, s, out).conns| && Evolves(w, l, s, c, Effect(w, l, s, out).conns[c])
  {
    if s.RunTask? {
      NextIsDue(w, l);
      PerformEvolves(w, l, Ran(w, l, s)[0], out, c);
    } else if s.Dispatch? {
      HandleEvolves(w, l, w.workers[l].queue.batch[w.workers[l].queue.pc.i], out, c);
    }
  }

  /** The histories of v are those of w after loop l took step s. */
  ghost predicate Follows(w: World, v: World, l: nat, s: R.Step<Task>)
    requires l < |w.workers| && R.Enabled(w.workers[l].queue, s)
  {
    && |v.workers| == |w.workers| && |v.conns| == |w.conns|
    && (forall c: nat :: c < |w.conns| ==> v.conns[c].loop == w.conns[c].loop)
    && (forall m: nat :: m < |w.workers| && m != l ==>
          Appended(v, m) == Appended(w, m) && Executed(v, m) == Executed(w, m))
    && Appended(v, l) == Appended(w, l) + (if s.Append? then [s.task] else [])
    && Executed(v, l) == Executed(w, l) + Ran(w, l, s)
  }

  lemma StepFollows(w: World, l: nat, s: R.Step<Task>, out: Outside)
    requires Enabled(w, LoopStep(l, s, out))
    ensures Follows(w, Apply(w, LoopStep(l, s, out)), l, s)
  {
    EffectShape(w, l, s, out);
  }

  lemma FollowHistory(w: World, v: World, l: nat, s: R.Step<Task>)
    requires Inv(w) && l < |w.workers| && R.Enabled(w.workers[l].queue, s) && (s.Append? ==> CanAppend(w, l, s.task))
    requires Follows(w, v, l, s)
    ensures HistoryOk(v)
  {
    forall m: nat, j: nat | m < |v.workers| && j < |Appended(v, m)|
      ensures TaskOk(v.conns, m, Appended(v, m), j)
    {
      if j < |Appended(w, m)| {
        assert TaskOk(w.conns, m, Appended(w, m), j);
        assert Appended(v, m)[..j] == Appended(w, m)[..j];
      } else {
        assert m == l && s.Append? && Appended(v, m)[..j] == Appended(w, m);
        if !s.task.UserTask? {
          assert PhaseOk(w, s.task.c);
        }
      }
    }
  }

  lemma FollowEarly(w: World, v: World, l: nat, s: R.Step<Task>, c: nat)
    requires l < |w.workers| && R.Enabled(w.workers[l].queue, s) && Follows(w, v, l, s)
    requires c < |w.conns| && w.conns[c].loop < |w.workers| && (s.RunTask? ==> Due(w, l, Ran(w, l, s)[0]))
    ensures var m := w.conns[c].loop;
            ClosesEarly(Executed(v, m), c) <==>
              ClosesEarly(Executed(w, m), c) || (Ran(w, l, s) == [CloseTask(c)] && RegisterTask(c) !in Executed(w, m))
  {
    if s.RunTask? {
      ClosesEarlySnoc(Executed(w, l), Ran(w, l, s)[0], c);
    } else {
      assert Executed(w, l) + [] == Executed(w, l);
    }
  }

  lemma FollowPhase(w: World, v: World, l: nat, s: R.Step<Task>, c: nat)
    requires Inv(w) && l < |w.workers| && R.Enabled(w.workers[l].queue, s) && (s.Append? ==> CanAppend(w, l, s.task))
    requires Follows(w, v, l, s) && c < |w.conns| && Evolves(w, l, s, c, v.conns[c])
    ensures PhaseOk(v, c)
  {
    assert PhaseOk(w, c);
    if s.RunTask? {
      NextIsDue(w, l);
    }
    FollowEarly(w, v, l, s, c);
  }

  lemma StepPhases(w: World, l: nat, s: R.Step<Task>, out: Outside)
    requires Inv(w) && Enabled(w, LoopStep(l, s, out))
    ensures HistoryOk(Apply(w, LoopStep(l, s, out))) && PhasesOk(Apply(w, LoopStep(l, s, out)))
  {
    var v := Apply(w, LoopStep(l, s, out));
    StepFollows(w, l, s, out);
    FollowHistory(w, v, l, s);
    forall c: nat | c < |w.conns| ensures PhaseOk(v, c) {
      EffectEvolves(w, l, s, out, c);
      FollowPhase(w, v, l, s, c);
    }
  }

  lemma CollectedAreListed(w: World, l: nat, s: R.Step<Task>, out: Outside)
    requires Inv(w) && Enabled(w, LoopStep(l, s, out)) && s.Collect?
    ensures BatchOk(Apply(w, LoopStep(l, s, out)), l)
  {
    forall j | 0 <= j < |s.items| && s.items[j].Io? && s.items[j].fd in w.workers[l].sockets
      ensures w.workers[l].sockets[s.items[j].fd] == s.items[j].conn
    {
      assert CanReport(w, l, s.items[j]) && PlaceOk(w, s.items[j].conn);
    }
  }

  lemma DispatchShrinks(w: World, l: nat, out: Outside)
    requires Inv(w) && l < |w.workers| && R.Enabled(w.workers[l].queue, R.Dispatch)
    ensures var v := Effect(w, l, R.Dispatch, out);
            |v.workers| == |w.workers| && forall fd <- v.workers[l].sockets ::
              fd in w.workers[l].sockets && v.workers[l].sockets[fd] == w.workers[l].sockets[fd]
  {}

  /** A loop that neither collects nor dispatches in this step has its batch and table, or no batch. */
  lemma OtherBatch(w: World, l: nat, s: R.Step<Task>, out: Outside)
    requires Inv(w) && Enabled(w, LoopStep(l, s, out)) && !s.Collect? && !s.Dispatch?
    ensures l < |Apply(w, LoopStep(l, s, out)).workers| && BatchOk(Apply(w, LoopStep(l, s, out)), l)
  {
    assert BatchOk(w, l);
    EffectShape(w, l, s, out);
    if !s.RunTask? {
      assert Effect(w, l, s, out).workers == w.workers;
    }
  }

  lemma StepBatch(w: World, l: nat, s: R.Step<Task>, out: Outside, m: nat)
    requires Inv(w) && Enabled(w, LoopStep(l, s, out)) && m < |w.workers| && m < |Apply(w, LoopStep(l, s, out)).workers|
    ensures BatchOk(Apply(w, LoopStep(l, s, out)), m)
  {
    assert BatchOk(w, m);
    if m != l {
      EffectShape(w, l, s, out);
    } else if s.Collect? {
      CollectedAreListed(w, l, s, out);
    } else if s.Dispatch? {
      EffectShape(w, l, s, out);
      DispatchShrinks(w, l, out);
    } else {
      OtherBatch(w, l, s, out);
    }
  }

  lemma StepQueues(w: World, l: nat, s: R.Step<Task>, out: Outside)
    requires Inv(w) && Enabled(w, LoopStep(l, s, out))
    ensures QueuesOk(Apply(w, LoopStep(l, s, out)))
  {
    var v := Apply(w, LoopStep(l, s, out));
    EffectShape(w, l, s, out);
    R.InvStep(w.workers[l].queue, s);
    forall m: nat | m < |v.workers| ensures BatchOk(v, m) {
      StepBatch(w, l, s, out, m);
    }
  }

  /** No task names a connection before it exists. */
  lemma NoTaskYet(w: World, l: nat)
    requires Inv(w) && l < |w.workers|
    ensures var c := |w.conns|;
            RegisterTask(c) !in Appended(w, l) && RegisterTask(c) !in Executed(w, l) && !ClosesEarly(Executed(w, l), c)
  {
    var tasks := Appended(w, l);
    forall j: nat | j < |tasks| ensures tasks[j] != RegisterTask(|w.conns|) && tasks[j] != CloseTask(|w.conns|) {
      assert TaskOk(w.conns, l, tasks, j);
    }
    assert R.Inv(w.workers[l].queue);
    assert forall j: nat :: j < |Executed(w, l)| ==> Executed(w, l)[j] == tasks[j];
  }

  lemma AcceptKeeps(w: World, fd: nat, l: nat, b: Buffers, left: bytes)
    requires Inv(w) && Enabled(w, AcceptConn(fd, l, b, left))
    ensures Inv(Apply(w, AcceptConn(fd, l, b, left)))
  {
    var v := Admit(w, fd, l, b, left);
    AdmitKeeps(w, fd, l, b, left);
    forall m: nat, j: nat | m < |v.workers| && j < |Appended(v, m)| ensures TaskOk(v.conns, m, Appended(v, m), j) {
      assert TaskOk(w.conns, m, Appended(w, m), j);
    }
    forall c: nat | c < |v.conns| ensures PhaseOk(v, c) {
      if c < |w.conns| {
        assert PhaseOk(w, c);
      } else {
        NoTaskYet(w, l);
      }
    }
    forall m: nat | m < |v.workers| ensures BatchOk(v, m) {
      assert BatchOk(w, m);
    }
  }

  lemma InvStep(w: World, step: Step)
    requires Inv(w) && Enabled(w, step)
    ensures Inv(Apply(w, step))
  {
    match step
    case AcceptConn(fd, l, b, left) => AcceptKeeps(w, fd, l, b, left);
    case LoopStep(l, s, out) =>
      EffectKeepsTables(w, l, s, out);
      EffectShape(w, l, s, out);
      AdvanceKeepsTables(Effect(w, l, s, out), l, s);
      StepPhases(w, l, s, out);
      StepQueues(w, l, s, out);
  }

  /** Every run, over any number of loops and connections and with closes at any time, keeps the invariant. */
  lemma {:induction false} InvRun(w: World, steps: seq<Step>)
    requires Inv(w) && IsRun(w, steps)
    ensures Inv(Final(w, steps)) && |Final(w, steps).workers| == |w.workers| && |Final(w, steps).conns| >= |w.conns|
    decreases |steps|
  {
    if steps != [] {
      InvStep(w, steps[0]);
      if steps[0].LoopStep? {
        EffectShape(w, steps[0].l, steps[0].step, steps[0].out);
      }
      InvRun(Apply(w, steps[0]), steps[1..]);
    }
  }

  // ---- What every reachable world satisfies ----

  ghost predicate Reached(w: World, n: nat, steps: seq<Step>)
  {
    IsRun(Init(n), steps) && w == Final(Init(n), steps)
  }

  lemma InitInv(n: nat)
    ensures Inv(Init(n))
  {
    var w := Init(n);
    forall l: nat | l < |w.workers| ensures CountOk(w, l) {
      assert Registrations(w, l) == {} && Closures(w, l) == {};
    }
  }

  lemma ReachedInv(w: World, n: nat, steps: seq<Step>)
    requires Reached(w, n, steps)
    ensures Inv(w) && |w.workers| == n
  {
    InitInv(n);
    InvRun(Init(n), steps);
  }

  /** Connection c was closed by a task that ran before its registration task. */
  ghost predicate ClosedEarly(w: World, c: nat)
  {
    c < |w.conns| && w.conns[c].loop < |w.workers| && ClosesEarly(Executed(w, w.conns[c].loop), c)
  }

  lemma EarlyIsHasty(w: World, c: nat)
    requires Inv(w) && c < |w.conns|
    ensures ConnOk(w, c) && PhaseOk(w, c) && (ClosedEarly(w, c) <==> Hasty(w.conns[c]))
  {}

  /** Callback order, exactly: `OnConnect` comes first and `OnClose` once and at the end (only the finish function of the
      send that closed may follow it) if and only if no close of the connection ran before its registration task. */
  lemma CallbackOrder(w: World, n: nat, steps: seq<Step>, c: nat)
    requires Reached(w, n, steps) && c < |w.conns|
    ensures (w.conns[c].log == [] || Ordered(w.conns[c].log)) <==> !ClosedEarly(w, c)
    ensures !ClosedEarly(w, c) ==> (w.conns[c].connected <==> OnClose !in w.conns[c].log)
  {
    ReachedInv(w, n, steps);
    EarlyIsHasty(w, c);
  }

  /** The step runs a send to connection c that has a finish function, with nothing buffered and a write that fails. */
  predicate FinishesAfterClose(w: World, step: Step, c: nat)
  {
    && step.LoopStep? && step.step.RunTask? && Enabled(w, step) && c < |w.conns|
    && var task := Ran(w, step.l, step.step)[0];
       task.SendTask? && task.c == c && task.finish && w.conns[c].outBuffer == [] && step.out.answers.first.WriteFails?
  }

  lemma PerformClosesLast(w: World, l: nat, task: Task, out: Outside, c: nat)
    requires TablesOk(w) && Due(w, l, task) && c < |w.conns| && w.conns[c].connected && c < |Perform(w, l, task, out).conns|
    requires !Perform(w, l, task, out).conns[c].connected
    ensures var log := Perform(w, l, task, out).conns[c].log;
            && log != []
            && log[|log| - 1] == if task.SendTask? && task.c == c && task.finish && w.conns[c].outBuffer == []
                                    && out.answers.first.WriteFails? then OnSent else OnClose
  {
    assert ConnOk(w, c);
    if task.SendTask? && task.c == c {
      SendTaskKeeps(w.conns[c], task.data, task.finish, out.answers.first);
    }
  }

  lemma HauntOpens(w: World, d: nat, e: Conn, spill: map<nat, bytes>, c: nat)
    requires d < |w.conns| && c < |w.conns| && c != d
    ensures Haunt(w, d, e, spill).conns[c].connected == w.conns[c].connected
  {}

  lemma HandleClosesLast(w: World, l: nat, item: R.Item, out: Outside, c: nat)
    requires l < |w.workers| && c < |w.conns| && w.conns[c].connected && c < |Handle(w, l, item, out).conns|
    requires !Handle(w, l, item, out).conns[c].connected
    ensures var log := Handle(w, l, item, out).conns[c].log; log != [] && log[|log| - 1] == OnClose
  {
    var k := w.workers[l];
    if item.Io? && item.fd in k.sockets && Known(w, k.sockets[item.fd]) {
      var d := k.sockets[item.fd];
      if w.conns[d].connected {
        EventClosesLast(w.conns[c], out.ev, out.answers);
      } else {
        HauntOpens(w, d, HandleEvent(Found(w, d, out.found), out.ev, out.answers), out.spill, c);
      }
    }
  }

  /** Only running a task or dispatching an event closes a connection. */
  lemma OthersKeepOpen(w: World, l: nat, s: R.Step<Task>, out: Outside, c: nat)
    requires l < |w.workers| && R.Enabled(w.workers[l].queue, s) && !s.RunTask? && !s.Dispatch?
    requires c < |w.conns| && c < |Effect(w, l, s, out).conns|
    ensures Effect(w, l, s, out).conns[c].connected == w.conns[c].connected
  {}

  lemma EffectClosesLast(w: World, l: nat, s: R.Step<Task>, out: Outside, c: nat)
    requires Inv(w) && Enabled(w, LoopStep(l, s, out)) && c < |w.conns| && w.conns[c].connected
    requires c < |Effect(w, l, s, out).conns| && !Effect(w, l, s, out).conns[c].connected
    ensures var log := Effect(w, l, s, out).conns[c].log;
            log != [] && log[|log| - 1] == if FinishesAfterClose(w, LoopStep(l, s, out), c) then OnSent else OnClose
  {
    if s.RunTask? {
      NextIsDue(w, l);
      PerformClosesLast(w, l, Ran(w, l, s)[0], out, c);
    } else if s.Dispatch? {
      HandleClosesLast(w, l, w.workers[l].queue.batch[w.workers[l].queue.pc.i], out, c);
    } else {
      OthersKeepOpen(w, l, s, out, c);
    }
  }

  /** Whatever closes a connection makes `OnClose` its last callback, except a send with a finish function whose write
      fails while nothing is buffered: then, and only then, the finish function comes after it. */
  lemma LastCallback(w: World, n: nat, steps: seq<Step>, step: Step, c: nat)
    requires Reached(w, n, steps) && Enabled(w, step) && c < |w.conns| && w.conns[c].connected
    requires c < |Apply(w, step).conns| && !Apply(w, step).conns[c].connected
    ensures var log := Apply(w, step).conns[c].log;
            log != [] && log[|log| - 1] == if FinishesAfterClose(w, step, c) then OnSent else OnClose
  {
    ReachedInv(w, n, steps);
    if step.LoopStep? {
      assert Apply(w, step).conns == Effect(w, step.l, step.step, step.out).conns;
      EffectClosesLast(w, step.l, step.step, step.out, c);
    }
  }

  lemma Dispatched(w: World, l: nat, out: Outside)
    requires Inv(w) && Enabled(w, LoopStep(l, R.Dispatch, out))
    ensures var k := w.workers[l];
            var item := k.queue.batch[k.queue.pc.i];
            item.Io? && item.fd in k.sockets ==>
              && k.sockets[item.fd] == item.conn && item.conn < |w.conns| && w.conns[item.conn].fd == item.fd
              && (w.conns[item.conn].connected && item.fd in w.owner && w.owner[item.fd] == item.conn
                  <==> !ClosedEarly(w, item.conn))
              && (w.conns[item.conn].connected <==> !ClosedEarly(w, item.conn))
  {
    var k := w.workers[l];
    var item := k.queue.batch[k.queue.pc.i];
    assert BatchOk(w, l);
    if item.Io? && item.fd in k.sockets {
      assert EntryOk(w, l, item.fd);
      EarlyIsHasty(w, item.conn);
    }
  }

  lemma Handled(w: World, l: nat, item: R.Item, out: Outside)
    requires l < |w.workers| && item.Io?
    ensures var conns := Handle(w, l, item, out).conns;
            var k := w.workers[l].sockets;
            if item.fd in k && Known(w, k[item.fd])
            then var c := k[item.fd];
                 if w.conns[c].connected
                 then conns == w.conns[c := HandleEvent(w.conns[c], out.ev, out.answers)]
                 else c < |conns| && conns[c] == HandleEvent(Found(w, c, out.found), out.ev, out.answers)
            else conns == w.conns
  {}

  /** No stale dispatch: an event is handed to the very connection that epoll watched its descriptor for when the batch was
      collected, or to nobody, even if the descriptor was closed in between and reused. That connection is connected and
      owns the descriptor, and nothing happens to any other, if and only if it was not closed before its registration;
      otherwise it works on a buffer that it has given back. */
  lemma NoStaleDispatch(w: World, n: nat, steps: seq<Step>, l: nat, out: Outside)
    requires Reached(w, n, steps) && Enabled(w, LoopStep(l, R.Dispatch, out))
    ensures var k := w.workers[l];
            var item := k.queue.batch[k.queue.pc.i];
            var v := Apply(w, LoopStep(l, R.Dispatch, out));
            item.Io? ==>
              if item.fd in k.sockets
              then && item.conn < |w.conns| && w.conns[item.conn].fd == item.fd
                   && (w.conns[item.conn].connected && item.fd in w.owner && w.owner[item.fd] == item.conn
                       <==> !ClosedEarly(w, item.conn))
                   && if ClosedEarly(w, item.conn)
                      then item.conn < |v.conns|
                           && v.conns[item.conn] == HandleEvent(Found(w, item.conn, out.found), out.ev, out.answers)
                      else v.conns == w.conns[item.conn := HandleEvent(w.conns[item.conn], out.ev, out.answers)]
              else v.conns == w.conns
  {
    ReachedInv(w, n, steps);
    Dispatched(w, l, out);
    var k := w.workers[l];
    var item := k.queue.batch[k.queue.pc.i];
    if item.Io? {
      Handled(w, l, item, out);
    }
    assert Apply(w, LoopStep(l, R.Dispatch, out)).conns == Handle(w, l, item, out).conns;
  }

  /** Ownership, exactly: what a loop lists under a descriptor is the connected connection that owns it if and only if that
      connection was not closed before its registration. */
  lemma DescriptorOwnership(w: World, n: nat, steps: seq<Step>, l: nat, fd: nat)
    requires Reached(w, n, steps) && l < |w.workers| && fd in w.workers[l].sockets
    ensures var c := w.workers[l].sockets[fd];
            && c < |w.conns| && w.conns[c].fd == fd && w.conns[c].loop == l
            && (w.conns[c].connected && fd in w.owner && w.owner[fd] == c <==> !ClosedEarly(w, c))
  {
    ReachedInv(w, n, steps);
    assert EntryOk(w, l, fd);
    EarlyIsHasty(w, w.workers[l].sockets[fd]);
  }

  /** So only a connection closed before its registration lets two loops list one descriptor. */
  lemma OneLoopEach(w: World, n: nat, steps: seq<Step>, l: nat, m: nat, fd: nat)
    requires Reached(w, n, steps) && l < |w.workers| && m < |w.workers|
    requires fd in w.workers[l].sockets && fd in w.workers[m].sockets
    ensures l == m || ClosedEarly(w, w.workers[l].sockets[fd]) || ClosedEarly(w, w.workers[m].sockets[fd])
  {
    DescriptorOwnership(w, n, steps, l, fd);
    DescriptorOwnership(w, n, steps, m, fd);
  }

  /** An early-closed connection was given the same descriptor as c, or one of the same buffers. */
  ghost predicate Meets(w: World, d: nat, c: nat)
  {
    && d < |w.conns| && c < |w.conns| && d < |w.held| && c < |w.held| && ClosedEarly(w, d)
    && (w.conns[d].fd == w.conns[c].fd || Overlap(w.held[c], w.held[d]))
  }

  lemma MetByEarly(w: World, c: nat)
    requires Inv(w) && c < |w.conns| && (c in w.tainted || w.strays[c] > 0)
    ensures exists d: nat :: Meets(w, d, c)
  {
    if w.strays[c] > 0 {
      var d: nat :| SameFd(w, d, c);
      EarlyIsHasty(w, d);
      assert Meets(w, d, c);
    } else {
      var d: nat :| Littered(w, d, w.held[c].input) || Littered(w, d, w.held[c].output);
      EarlyIsHasty(w, d);
      assert Meets(w, d, c);
    }
  }

  /** Output conservation, exactly. As long as nobody else worked on the buffers of a connection, what the kernel took from
      it is a prefix of what was sent, and while it is open the rest is what is buffered. What its socket took, in order,
      followed by what is buffered, is then what was sent if and only if no other connection wrote to its socket. */
  lemma OutputConserved(w: World, n: nat, steps: seq<Step>, c: nat)
    requires Reached(w, n, steps) && c < |w.conns|
    ensures c < |w.wire| && c < |w.strays|
    ensures !ClosedEarly(w, c) ==> (w.wire[c] == w.conns[c].accepted <==> w.strays[c] == 0)
    ensures !ClosedEarly(w, c) && c !in w.tainted ==> w.conns[c].accepted <= w.conns[c].sent
    ensures w.conns[c].connected && c !in w.tainted ==>
              && w.conns[c].accepted + w.conns[c].outBuffer == w.conns[c].sent
              && (w.wire[c] + w.conns[c].outBuffer == w.conns[c].sent <==> w.strays[c] == 0)
    ensures c in w.tainted || w.strays[c] > 0 ==> exists d: nat :: Meets(w, d, c)
  {
    ReachedInv(w, n, steps);
    EarlyIsHasty(w, c);
    assert AccountOk(w, c);
    if c in w.tainted || w.strays[c] > 0 {
      MetByEarly(w, c);
    }
    if c !in w.tainted && w.conns[c].connected && w.strays[c] > 0 {
      assert |w.wire[c] + w.conns[c].outBuffer| > |w.conns[c].sent|;
    }
  }

  /** Open connections never share a buffer. */
  lemma BuffersExclusive(w: World, n: nat, steps: seq<Step>, c: nat, e: nat)
    requires Reached(w, n, steps) && c < |w.conns| && e < |w.conns| && c != e
    requires w.conns[c].connected && w.conns[e].connected
    ensures c < |w.held| && e < |w.held| && !Overlap(w.held[c], w.held[e])
  {
    ReachedInv(w, n, steps);
    assert !Shares(w, c, e);
  }

  /** Pending output is never stranded: epoll watches every connected and registered connection, for writing exactly while
      output is buffered if nobody else worked on its buffers, and the loop lists it, unless another connection of the loop
      was closed before its registration while it had the same descriptor. */
  lemma InterestFollowsOutput(w: World, n: nat, steps: seq<Step>, c: nat)
    requires Reached(w, n, steps) && c < |w.conns| && w.conns[c].connected && w.conns[c].phase == Registered
    ensures Live(w, c)
    ensures c !in w.tainted ==> (w.conns[c].interest.value == ReadWrite <==> w.conns[c].outBuffer != [])
    ensures c in w.tainted ==> exists d: nat :: Meets(w, d, c)
    ensures Listed(w, c) || exists d: nat :: ClosedEarly(w, d) && w.conns[d].fd == w.conns[c].fd && w.conns[d].loop == w.conns[c].loop
  {
    ReachedInv(w, n, steps);
    EarlyIsHasty(w, c);
    assert FileOk(w, c) && PlaceOk(w, c) && AccountOk(w, c);
    if c in w.tainted {
      MetByEarly(w, c);
    }
    if Contested(w, w.conns[c].loop, w.conns[c].fd) {
      var d: nat :| HastyAt(w, w.conns[c].loop, w.conns[c].fd, d);
      EarlyIsHasty(w, d);
    }
  }

  // ---- The counter ----

  /** Connections a loop serves. */
  ghost function Served(w: World, l: nat): set<nat>
  {
    set c: nat | c < |w.conns| && w.conns[c].loop == l && w.conns[c].phase == Registered && w.conns[c].connected
  }

  /** Closed connections of loop l whose registration epoll had refused: they lowered the counter without raising it. */
  ghost function Orphans(w: World, l: nat): set<nat>
  {
    set c: nat | c < |w.conns| && w.conns[c].loop == l && w.conns[c].phase == Failed && !w.conns[c].connected
  }

  lemma {:induction false} InjectiveSize(m: map<nat, nat>, values: set<nat>)
    requires forall k <- m :: m[k] in values
    requires forall v <- values :: exists k <- m :: m[k] == v
    requires forall j, k :: j in m && k in m && m[j] == m[k] ==> j == k
    ensures |m| == |values|
    decreases |m|
  {
    if m == map[] {
      assert values == {};
    } else {
      var k :| k in m;
      var rest := m - {k};
      assert rest.Keys == m.Keys - {k} && |rest| == |m| - 1;
      forall v | v in values - {m[k]}
        ensures exists j <- rest :: rest[j] == v
      {
        var j :| j in m && m[j] == v;
        assert j in rest && rest[j] == v;
      }
      InjectiveSize(rest, values - {m[k]});
    }
  }

  lemma TableSize(w: World, l: nat)
    requires Inv(w) && l < |w.workers| && forall c: nat :: c < |w.conns| && w.conns[c].loop == l ==> !Hasty(w.conns[c])
    ensures |w.workers[l].sockets| == |Served(w, l)|
  {
    var m := w.workers[l].sockets;
    forall fd | fd in m
      ensures m[fd] in Served(w, l) && w.conns[m[fd]].fd == fd
    {
      assert EntryOk(w, l, fd);
    }
    forall c | c in Served(w, l)
      ensures exists fd <- m :: m[fd] == c
    {
      assert PlaceOk(w, c);
      assert Listed(w, c) && w.conns[c].fd in m;
    }
    InjectiveSize(m, Served(w, l));
  }

  /** Without connections closed before their registration, the counter is what is listed less the orphans. */
  lemma CounterOfListed(w: World, l: nat)
    requires Inv(w) && l < |w.workers| && forall c: nat :: c < |w.conns| && w.conns[c].loop == l ==> !Hasty(w.conns[c])
    ensures w.workers[l].connCunt == |w.workers[l].sockets| - |Orphans(w, l)|
  {
    TableSize(w, l);
    assert CountOk(w, l);
    var gone := Registrations(w, l) - Served(w, l);
    forall c | c in Closures(w, l)
      ensures c in gone || c in Orphans(w, l)
    {
      assert ConnOk(w, c);
    }
    assert Registrations(w, l) == Served(w, l) + gone && Closures(w, l) == gone + Orphans(w, l);
  }

  /** The counter in every run is the number of registrations epoll took less the number of closes. On a loop none of whose
      connections was closed before its registration, it is the number of sockets listed if and only if no connection of
      the loop was closed after epoll had refused to register it, and otherwise it is too low by their number. */
  lemma CounterExact(w: World, n: nat, steps: seq<Step>, l: nat)
    requires Reached(w, n, steps) && l < |w.workers|
    ensures w.workers[l].connCunt == |Registrations(w, l)| - |Closures(w, l)|
    ensures (forall c: nat :: c < |w.conns| && w.conns[c].loop == l ==> !ClosedEarly(w, c)) ==>
              && w.workers[l].connCunt == |w.workers[l].sockets| - |Orphans(w, l)|
              && (w.workers[l].connCunt == |w.workers[l].sockets| <==> Orphans(w, l) == {})
  {
    ReachedInv(w, n, steps);
    assert CountOk(w, l);
    forall c: nat | c < |w.conns|
      ensures ClosedEarly(w, c) <==> Hasty(w.conns[c])
    {
      EarlyIsHasty(w, c);
    }
    if forall c: nat :: c < |w.conns| && w.conns[c].loop == l ==> !ClosedEarly(w, c) {
      CounterOfListed(w, l);
    }
  }

  // ---- After the close ----

  lemma ClosedDispatch(w: World, l: nat, item: R.Item, out: Outside, c: nat)
    requires TablesOk(w) && l < |w.workers| && c < |w.conns| && !w.conns[c].connected && !Hasty(w.conns[c])
    ensures c < |Handle(w, l, item, out).conns| && Handle(w, l, item, out).conns[c] == w.conns[c]
  {
    if item.Io? && item.fd in w.workers[l].sockets {
      assert EntryOk(w, l, item.fd);
    }
  }

  lemma ClosedPerform(w: World, l: nat, task: Task, out: Outside, c: nat)
    requires TablesOk(w) && Due(w, l, task) && c < |w.conns| && !w.conns[c].connected && !Hasty(w.conns[c])
    ensures c < |Perform(w, l, task, out).conns| && Perform(w, l, task, out).conns[c] == w.conns[c]
  {
    assert ConnOk(w, c);
  }

  lemma ClosedStep(w: World, step: Step, c: nat)
    requires Inv(w) && Enabled(w, step) && c < |w.conns| && !w.conns[c].connected && !Hasty(w.conns[c])
    ensures c < |Apply(w, step).conns| && Apply(w, step).conns[c] == w.conns[c]
  {
    if step.LoopStep? {
      var s := step.step;
      if s.Dispatch? {
        var k := w.workers[step.l].queue;
        ClosedDispatch(w, step.l, k.batch[k.pc.i], step.out, c);
      } else if s.RunTask? {
        NextIsDue(w, step.l);
        ClosedPerform(w, step.l, Ran(w, step.l, s)[0], step.out, c);
      } else {
        assert ConnOk(w, c);
      }
    }
  }

  lemma {:induction false} ClosedRun(w: World, steps: seq<Step>, c: nat)
    requires Inv(w) && IsRun(w, steps) && c < |w.conns| && !w.conns[c].connected && !Hasty(w.conns[c])
    ensures c < |Final(w, steps).conns| && Final(w, steps).conns[c] == w.conns[c]
    decreases |steps|
  {
    if steps != [] {
      ClosedStep(w, steps[0], c);
      InvStep(w, steps[0]);
      ClosedRun(Apply(w, steps[0]), steps[1..], c);
    }
  }

  /** Nothing ever happens again to a closed connection, unless it was closed before its registration: no callback, no read,
      no write, whatever tasks are still queued for it and whoever gets its descriptor. */
  lemma ClosedStaysUntouched(w: World, n: nat, past: seq<Step>, steps: seq<Step>, c: nat)
    requires Reached(w, n, past) && IsRun(w, steps) && c < |w.conns| && !w.conns[c].connected && !ClosedEarly(w, c)
    ensures c < |Final(w, steps).conns| && Final(w, steps).conns[c] == w.conns[c]
  {
    ReachedInv(w, n, past);
    EarlyIsHasty(w, c);
    ClosedRun(w, steps, c);
  }

  // ---- Every loop of the server is an event loop ----

  /** The steps of loop l. */
  function Projection(steps: seq<Step>, l: nat): seq<R.Step<Task>>
  {
    if steps == [] then []
    else (if steps[0].LoopStep? && steps[0].l == l then [steps[0].step] else []) + Projection(steps[1..], l)
  }

  lemma ProjectStep(w: World, step: Step, l: nat)
    requires Enabled(w, step) && l < |w.workers|
    ensures var v := Apply(w, step);
            && |v.workers| == |w.workers|
            && (step.LoopStep? && step.l == l ==>
                  R.Enabled(w.workers[l].queue, step.step) && v.workers[l].queue == R.Apply(w.workers[l].queue, step.step))
            && (!(step.LoopStep? && step.l == l) ==> v.workers[l].queue == w.workers[l].queue)
  {
    if step.LoopStep? {
      EffectShape(w, step.l, step.step, step.out);
    }
  }

  lemma {:induction false} ProjectRun(w: World, steps: seq<Step>, l: nat)
    requires IsRun(w, steps) && l < |w.workers|
    ensures l < |Final(w, steps).workers|
    ensures R.IsRun(w.workers[l].queue, Projection(steps, l))
    ensures R.Final(w.workers[l].queue, Projection(steps, l)) == Final(w, steps).workers[l].queue
    decreases |steps|
  {
    if steps != [] {
      ProjectStep(w, steps[0], l);
      ProjectRun(Apply(w, steps[0]), steps[1..], l);
      var rest := Projection(steps[1..], l);
      if steps[0].LoopStep? && steps[0].l == l {
        assert ([steps[0].step] + rest)[1..] == rest;
      } else {
        assert [] + rest == rest;
      }
    }
  }

  /** Every loop of the server has only done what one event loop can do, so all theorems about one loop hold of it. */
  lemma LoopsAreReactors(w: World, n: nat, steps: seq<Step>, l: nat)
    requires Reached(w, n, steps) && l < n
    ensures l < |w.workers| && R.Reached(w.workers[l].queue, Projection(steps, l))
  {
    ProjectRun(Init(n), steps, l);
  }

  /** No lost wakeup on any loop of the server: one that can only sleep, with nobody inside `QueueInLoop`, has run every
      registration, send and close ever queued to it. */
  lemma NoLostWakeup(w: World, n: nat, steps: seq<Step>, l: nat)
    requires Reached(w, n, steps) && l < |w.workers|
    ensures var q := w.workers[l].queue;
            q.pc == R.Waiting && q.eventfd == 0 && !R.Someone(q, R.Appended) && !R.Someone(q, R.OwesWake)
            ==> Executed(w, l) == Appended(w, l)
  {
    ReachedInv(w, n, steps);
    LoopsAreReactors(w, n, steps, l);
    R.NoLostWakeup(w.workers[l].queue, Projection(steps, l));
  }

  /** The same steps taken by loop l in the server, whatever the outside world answers. */
  function Lifted(steps: seq<R.Step<Task>>, l: nat, outs: nat -> Outside): (r: seq<Step>)
    ensures |r| == |steps|
  {
    seq(|steps|, i requires 0 <= i < |steps| => LoopStep(l, steps[i], outs(i)))
  }

  lemma {:induction false} LiftRun(w: World, steps: seq<R.Step<Task>>, l: nat, outs: nat -> Outside)
    requires l < |w.workers| && R.IsRun(w.workers[l].queue, steps) && forall x <- steps :: R.Owed(x)
    ensures IsRun(w, Lifted(steps, l, outs)) && l < |Final(w, Lifted(steps, l, outs)).workers|
    ensures Final(w, Lifted(steps, l, outs)).workers[l].queue == R.Final(w.workers[l].queue, steps)
    decreases |steps|
  {
    if steps != [] {
      var step := LoopStep(l, steps[0], outs(0));
      var later := (i: nat) => outs(i + 1);
      assert R.Owed(steps[0]);
      assert Enabled(w, step);
      ProjectStep(w, step, l);
      LiftRun(Apply(w, step), steps[1..], l, later);
      assert Lifted(steps, l, outs)[0] == step && Lifted(steps, l, outs)[1..] == Lifted(steps[1..], l, later);
    }
  }

  /** No registration, send or close is ever stranded: from every reachable world, the steps of a running loop and the
      eventfd writes already owed suffice to run everything queued to it so far, whatever the outside answers, step by
      step. */
  lemma TasksCanRun(w: World, n: nat, past: seq<Step>, l: nat, outs: nat -> Outside) returns (steps: seq<Step>, v: World)
    requires Reached(w, n, past) && l < |w.workers| && (w.workers[l].queue.running || w.workers[l].queue.pc == R.Starting)
    ensures IsRun(w, steps) && v == Final(w, steps) && l < |v.workers| && Executed(v, l) == Appended(w, l)
    ensures forall i :: 0 <= i < |steps| ==> steps[i].LoopStep? && steps[i].l == l && steps[i].out == outs(i)
  {
    ReachedInv(w, n, past);
    LoopsAreReactors(w, n, past, l);
    var xs, t := R.TasksCanRun(w.workers[l].queue, Projection(past, l));
    LiftRun(w, xs, l, outs);
    steps := Lifted(xs, l, outs);
    v := Final(w, steps);
  }
}
