/** The protocol thread of protocols.c as a state machine: the variables its
    main loop keeps between iterations, and what one iteration of that loop
    (protocols.c:130-329) does to them, as functions. The clock is an input:
    one reading per iteration. The random draw of m is an input too. */
module LeState {
  import opened Decimal
  import opened LeMessages

  const Uint64Size: nat := 0x1_0000_0000_0000_0000
  type Uint64 = t: int | 0 <= t < 0x1_0000_0000_0000_0000

  /** delayND: a new neighbour discovery at most once a minute. */
  const DelayND: nat := 60 * 1000000
  /** delayLE: 45 seconds between the last le_ack and the election. */
  const DelayLE: nat := 45 * 1000000
  /** ENABLE_LEADER: leader election is compiled in. */
  const EnableLeader: bool := true
  /** How long a phase waits for an answer: 8 seconds. */
  const Silence: nat := 8000000

  datatype Option<T> = None | Some(value: T)

  /** uint64 subtraction, which wraps around below zero. */
  function Sub64(a: Uint64, b: Uint64): (r: Uint64)
    ensures r + b == a || r + b == a + Uint64Size
  {
    if a >= b then a - b else a - b + Uint64Size
  }

  /** uint64 addition, which wraps around at 2^64. */
  function Add64(a: Uint64, b: Uint64): (r: Uint64)
    ensures r == a + b || r + Uint64Size == a + b
  {
    if a + b < Uint64Size then a + b else a + b - Uint64Size
  }

  /** m = random_uint32() % 254 + 1: the own election value. */
  function DrawM(r: nat): (m: int)
    ensures 1 <= m <= 254
  {
    r % 254 + 1
  }

  /** A message from another thread: its type and what its content points
      to, a string (text) or a thread id (pid). */
  datatype Ipc = Ipc(msgType: nat, text: string, pid: int)

  datatype State = State(
    neighbors: seq<string>,   // the MAX_NEIGHBORS identifier slots, "" while unused
    numNeighbors: int,
    values: seq<nat>,         // neighborsVal: the last m each slot announced, 0 for none
    m: nat,                   // the own election value
    min: nat,                 // the least value seen so far
    leader: string,           // who announced min
    myIPv6: string,
    udpServerPID: int,
    countedMs: int,           // slots that announced a value in this election
    discoveryCount: int,
    stateND: int,
    stateLE: int,
    runningND: bool,
    runningLE: bool,
    allowLE: bool,
    hasElectedLeader: bool,
    quit: bool,
    lastND: Uint64,
    lastLE: Uint64,
    startTimeLE: Uint64,
    sent: seq<string>)        // what was handed to the UDP server thread, oldest first

  /** What one iteration produces: the new state, the reply to a leader
      query, and whether the main loop goes on. */
  datatype Outcome = Outcome(state: State, reply: Option<string>, looping: bool)

  /** The variables as the thread sets them up (protocols.c:87-126); start
      is the clock reading lastLE starts from. */
  function Initial(m: nat, start: Uint64): State {
    State(seq(MaxNeighbors, _ => ""), 0, seq(MaxNeighbors, _ => 0), m, m, "unknown", "", 0,
          0, 0, 0, 0, false, false, false, false, false, 0, start, 0, [])
  }

  /** The identifiers recorded so far, in order of discovery. */
  function Table(s: State): seq<string>
    requires 0 <= s.numNeighbors <= |s.neighbors|
  {
    s.neighbors[..s.numNeighbors]
  }

  predicate TableShape(neighbors: seq<string>, num: int) {
    && |neighbors| == MaxNeighbors
    && 0 <= num <= MaxNeighbors
    && (forall i :: 0 <= i < MaxNeighbors ==> (neighbors[i] == "" <==> num <= i))
    && (forall i, j :: 0 <= i < j < num ==> neighbors[i] != neighbors[j])
  }

  /** What holds between any two iterations. */
  predicate Inv(s: State) {
    && TableShape(s.neighbors, s.numNeighbors)
    && |s.values| == MaxNeighbors
    && (forall i :: 0 <= i < MaxNeighbors ==> s.values[i] != 0 ==> s.min <= s.values[i])
    && 1 <= s.min <= s.m <= 254
    && '\0' !in s.leader
    && 0 <= s.countedMs && 0 <= s.discoveryCount
    && 0 <= s.stateND <= 1 && 0 <= s.stateLE <= 2
    && (!s.runningND ==> s.stateND == 0)
    && (!s.runningLE ==> s.stateLE == 0)
    && s.quit == s.hasElectedLeader
    && !(s.runningLE && s.hasElectedLeader)
  }

  // ---------------------------------------------------------------------
  // The handlers of string messages (protocols.c:178-239)

  /** nd_ack:<id> (protocols.c:179-194): the identifier at offset 7. */
  function NdAck(s: State, buf: seq<char>, now: Uint64): State
    requires 0 <= s.numNeighbors < |s.neighbors| && |buf| == MaxIpcMessageSize
  {
    NdAckFrom(s, NdAckSender(buf), now)
  }

  /** An nd_ack from id (protocols.c:182-192): record id in the next free
      slot unless some slot already holds it. */
  function NdAckFrom(s: State, id: string, now: Uint64): State
    requires 0 <= s.numNeighbors < |s.neighbors|
  {
    if id in s.neighbors then s else AddNeighbor(s, id, now)
  }

  /** Recording a new neighbour (protocols.c:183-191): id goes to the next
      free slot, the count rises and id is greeted with nd_hello:<id>. */
  function AddNeighbor(s: State, id: string, now: Uint64): State
    requires 0 <= s.numNeighbors < |s.neighbors|
  {
    s.(neighbors := s.neighbors[s.numNeighbors := id], numNeighbors := s.numNeighbors + 1,
       sent := s.sent + ["nd_hello:" + id], lastND := now)
  }

  /** The slot the le_ack handler of protocols.c:199-203 stores into, as
      written: getNeighborIndex's answer, used without a check once
      atoi(neighborM) > 0. */
  function LeAckSlotAsWritten(s: State, buf: seq<char>): int
    requires |buf| == MaxIpcMessageSize
  {
    IndexOf(s.neighbors, LeAckSender(buf))
  }

  /** le_ack:NNN:<id> (protocols.c:195-222): store the announced value in the
      sender's slot; a value below min makes the sender the leader and is
      passed on. A value atoi reads as 0 or less ends the iteration (the
      false half), and so, unlike the code, does a sender that no used slot
      holds: one in no slot at all, and the empty id, which matches the
      first free slot. */
  function LeAck(s: State, buf: seq<char>, now: Uint64): (State, bool)
    requires |s.values| == |s.neighbors| && |buf| == MaxIpcMessageSize
  {
    LeAckFrom(s, LeAckValue(buf), LeAckSender(buf), now)
  }

  /** An le_ack carrying v from id (protocols.c:199-222): ignored unless v is
      positive and one of the first numNeighbors slots holds id. */
  function LeAckFrom(s: State, v: int, id: string, now: Uint64): (State, bool)
    requires |s.values| == |s.neighbors|
  {
    var i := IndexOf(s.neighbors, id);
    if v <= 0 || i < 0 || i >= s.numNeighbors then (s, false) else (StoreValue(s, i, v, id, now), true)
  }

  /** Storing the value v that the neighbour id in slot i announced
      (protocols.c:202-222). */
  function StoreValue(s: State, i: int, v: nat, id: string, now: Uint64): State
    requires 0 <= i < |s.values|
  {
    s.(values := s.values[i := v],
       countedMs := if s.values[i] == 0 then s.countedMs + 1 else s.countedMs,
       leader := if v < s.min then id else s.leader,
       min := if v < s.min then v else s.min,
       sent := if v < s.min then s.sent + [LeAckMessage(v, id)] else s.sent,
       lastLE := now)
  }

  /** le_m?: (protocols.c:223-238): answer with the current minimum and leader. */
  function LeQuery(s: State): State {
    s.(sent := s.sent + [LeAckMessage(s.min, s.leader)])
  }

  /** Dispatch on the message's prefix (protocols.c:179, :195, :223); the
      false half ends the iteration. */
  function Handle(s: State, buf: seq<char>, now: Uint64): (State, bool)
    requires TableShape(s.neighbors, s.numNeighbors) && |s.values| == MaxNeighbors
    requires |buf| == MaxIpcMessageSize
  {
    if s.numNeighbors < MaxNeighbors && StartsWith(buf, "nd_ack:") then (NdAck(s, buf, now), true)
    else if s.numNeighbors > 0 && StartsWith(buf, "le_ack:") then LeAck(s, buf, now)
    else if s.numNeighbors > 0 && StartsWith(buf, "le_m?:") then (LeQuery(s), true)
    else (s, true)
  }

  // ---------------------------------------------------------------------
  // The two phases (protocols.c:241-326)

  /** Neighbour discovery (protocols.c:242-277). */
  function Discovery(s: State, now: Uint64): State {
    if !s.runningND then
      var timeToRun := if s.discoveryCount == 0 then DelayND / 3 else Add64(s.lastND, DelayND);
      if now > timeToRun then s.(lastND := now, runningND := true, discoveryCount := s.discoveryCount + 1)
      else s
    else if s.stateND == 0 then s.(sent := s.sent + ["nd_init"], stateND := 1)
    else if s.stateND == 1 then
      if s.lastND < Sub64(now, Silence) then
        if s.numNeighbors > 0 then s.(stateND := 0, runningND := false, lastND := now)
        else s.(stateND := 0)
      else s
    else s
  }

  /** Leader election (protocols.c:279-326); the false half is the thread's
      return from an invalid phase. */
  function Election(s: State, now: Uint64): (State, bool) {
    if !s.runningLE && !s.hasElectedLeader then
      var timeToRun := Add64(s.lastLE, DelayLE);
      if EnableLeader && !s.hasElectedLeader && s.allowLE && now > timeToRun then
        (s.(lastLE := now, runningLE := true, allowLE := false, startTimeLE := now / 1000000), true)
      else (s, true)
    else if s.runningLE then
      if s.stateLE == 0 then (s.(sent := s.sent + ["le_init"], stateLE := 1, countedMs := 0), true)
      else if s.stateLE == 1 then
        if s.countedMs == s.numNeighbors || s.lastLE < Sub64(now, Silence) then
          (s.(stateLE := 2, lastLE := now), true)
        else (s, true)
      else if s.stateLE == 2 then
        (s.(runningLE := false, hasElectedLeader := true, countedMs := 0, stateLE := 0,
            lastLE := now, quit := true), true)
      else (s, false)
    else (s, true)
  }

  // ---------------------------------------------------------------------
  // One iteration of the main loop (protocols.c:130-329)

  /** Everything after the intake of a message: the wait for the UDP
      server's id, the handler of a string message (buf), then both phases. */
  function React(s: State, buf: Option<seq<char>>, now: Uint64): Outcome
    requires TableShape(s.neighbors, s.numNeighbors) && |s.values| == MaxNeighbors
    requires buf.Some? ==> |buf.value| == MaxIpcMessageSize
  {
    if s.udpServerPID == 0 then Outcome(s, None, true)
    else
      var h := if buf.Some? then Handle(s, buf.value, now) else (s, true);
      if !h.1 then Outcome(h.0, None, true)
      else
        var e := Election(Discovery(h.0, now), now);
        Outcome(e.0, None, e.1)
  }

  /** One iteration: msg is what msg_try_receive delivered, if anything. */
  function Step(s: State, msg: Option<Ipc>, now: Uint64): Outcome
    requires TableShape(s.neighbors, s.numNeighbors) && |s.values| == MaxNeighbors
  {
    if s.quit then Outcome(s, None, false)
    else if msg.None? then React(s, None, now)
    else
      var ipc := msg.value;
      if ipc.msgType == 0 && s.udpServerPID == 0 then Outcome(s.(udpServerPID := ipc.pid), None, true)
      else if ipc.msgType == 1 && s.myIPv6 == "" then
        Outcome(s.(myIPv6 := CStr(ipc.text), leader := CStr(ipc.text), allowLE := true), None, true)
      else if ipc.msgType == 2 then Outcome(s, Some(s.leader), true)
      else if 2 < ipc.msgType < MaxIpcMessageSize then React(s, Some(MessageBuffer(ipc.text, ipc.msgType)), now)
      else Outcome(s, None, true)
  }

  // ---------------------------------------------------------------------
  // Properties

  lemma InitialInv(m: nat, start: Uint64)
    requires 1 <= m <= 254
    ensures Inv(Initial(m, start))
    ensures Table(Initial(m, start)) == [] && Initial(m, start).min == m
  {
  }

  /** With a free slot, the slots hold id exactly when the table does or id
      is empty: an empty id matches the free slot. */
  lemma SlotsHold(s: State, id: string)
    requires TableShape(s.neighbors, s.numNeighbors)
    ensures s.numNeighbors < MaxNeighbors ==> (id in s.neighbors <==> id == "" || id in Table(s))
    ensures id != "" ==> (id in s.neighbors <==> id in Table(s))
  {
    if id in s.neighbors {
      var i :| 0 <= i < |s.neighbors| && s.neighbors[i] == id;
      if id != "" {
        assert Table(s)[i] == id;
      }
    }
    if id in Table(s) {
      var i :| 0 <= i < |Table(s)| && Table(s)[i] == id;
      assert s.neighbors[i] == id;
    }
    if s.numNeighbors < MaxNeighbors && id == "" {
      assert s.neighbors[s.numNeighbors] == "";
    }
  }

  /** nd_ack insertion is bounded and deduplicating: a known or empty id
      changes nothing; a new one is appended to the table, raises the count
      by one and is greeted. */
  lemma NdAckRecords(s: State, buf: seq<char>, now: Uint64)
    requires Inv(s) && s.numNeighbors < MaxNeighbors && |buf| == MaxIpcMessageSize
    ensures Inv(NdAck(s, buf, now))
    ensures var id := NdAckSender(buf);
            var r := NdAck(s, buf, now);
            && (id == "" || id in Table(s) ==> r == s)
            && (id != "" && id !in Table(s) ==>
                  && Table(r) == Table(s) + [id]
                  && r.numNeighbors == s.numNeighbors + 1
                  && r.sent == s.sent + ["nd_hello:" + id]
                  && r.values == s.values && r.min == s.min && r.leader == s.leader)
  {
    var id := NdAckSender(buf);
    SlotsHold(s, id);
    if id !in s.neighbors {
      AddNeighborInv(s, id, now);
    }
  }

  /** Adding an id that no slot holds keeps the table's shape. */
  lemma AddNeighborInv(s: State, id: string, now: Uint64)
    requires Inv(s) && s.numNeighbors < MaxNeighbors && id !in s.neighbors
    ensures Inv(AddNeighbor(s, id, now))
    ensures Table(AddNeighbor(s, id, now)) == Table(s) + [id]
  {
    var r := AddNeighbor(s, id, now);
    assert id != "" by {
      assert s.neighbors[s.numNeighbors] == "";
    }
    assert Table(r) == Table(s) + [id];
    forall i, j | 0 <= i < j < r.numNeighbors ensures r.neighbors[i] != r.neighbors[j] {
      if j == s.numNeighbors {
        assert r.neighbors[i] == s.neighbors[i];
      }
    }
  }

  /** Storing a positive value keeps the invariant: the slots above min stay
      above it. */
  lemma StoreValueInv(s: State, i: int, v: nat, id: string, now: Uint64)
    requires Inv(s) && 0 <= i < MaxNeighbors && v > 0 && '\0' !in id
    ensures Inv(StoreValue(s, i, v, id, now))
  {
    var r := StoreValue(s, i, v, id, now);
    forall k | 0 <= k < MaxNeighbors ensures r.values[k] != 0 ==> r.min <= r.values[k] {
      if k != i {
        assert r.values[k] == s.values[k];
      }
    }
  }

  /** le_ack keeps the running minimum: min never increases; it drops exactly
      when a known sender announces a smaller positive value, and then the
      sender becomes the leader and the new pair is passed on; otherwise
      leader and outbox stay as they were. */
  lemma LeAckMinimum(s: State, buf: seq<char>, now: Uint64)
    requires Inv(s) && |buf| == MaxIpcMessageSize
    ensures var v := LeAckValue(buf);
            var id := LeAckSender(buf);
            var (r, go) := LeAck(s, buf, now);
            && Inv(r)
            && r.neighbors == s.neighbors && r.numNeighbors == s.numNeighbors
            && (go <==> v > 0 && id in Table(s))
            && (go ==> r.values == s.values[IndexOf(s.neighbors, id) := v] && r.lastLE == now)
            && (!go ==> r == s)
            && r.min <= s.min
            && (r.min < s.min <==> go && v < s.min)
            && (r.min < s.min ==> r.min == v && r.leader == id && r.sent == s.sent + [LeAckMessage(r.min, r.leader)])
            && (r.min == s.min ==> r.leader == s.leader && r.sent == s.sent)
  {
    var id := LeAckSender(buf);
    TableIndex(s, id);
    if LeAckValue(buf) > 0 && id in Table(s) {
      StoreValueInv(s, IndexOf(s.neighbors, id), LeAckValue(buf), id, now);
    }
  }

  /** getNeighborIndex answers a used slot exactly for the identifiers in
      the table. */
  lemma TableIndex(s: State, id: string)
    requires TableShape(s.neighbors, s.numNeighbors)
    ensures 0 <= IndexOf(s.neighbors, id) < s.numNeighbors <==> id in Table(s)
  {
    var i := IndexOf(s.neighbors, id);
    if id in Table(s) {
      var j :| 0 <= j < |Table(s)| && Table(s)[j] == id;
      assert s.neighbors[j] == id;
    }
    if 0 <= i < s.numNeighbors {
      assert Table(s)[i] == id;
    }
  }

  /** countedMs rises by one exactly when a slot's stored value goes from
      0 to non-zero, and otherwise stays. */
  lemma StoreValueCounts(s: State, i: int, v: nat, id: string, now: Uint64)
    requires Inv(s) && 0 <= i < MaxNeighbors && v > 0
    ensures var r := StoreValue(s, i, v, id, now);
            && (r.countedMs == s.countedMs + 1 <==> exists k :: 0 <= k < MaxNeighbors && s.values[k] == 0 && r.values[k] != 0)
            && (r.countedMs == s.countedMs || r.countedMs == s.countedMs + 1)
            && forall k :: 0 <= k < MaxNeighbors && k != i ==> r.values[k] == s.values[k]
  {
    var r := StoreValue(s, i, v, id, now);
    if s.values[i] != 0 {
      forall k | 0 <= k < MaxNeighbors && s.values[k] == 0 ensures r.values[k] == 0 {
        assert k != i;
      }
    } else {
      assert s.values[i] == 0 && r.values[i] != 0;
    }
  }

  /** The finding at protocols.c:199-203: an le_ack from a sender in no slot
      passes the only guard (its value is positive) while getNeighborIndex
      answers -1, so the code as written reads and writes neighborsVal[-1].
      The model's handler ignores such a message. */
  lemma LeAckUnknownSender(s: State, v: nat, id: string, now: Uint64)
    requires Inv(s) && 0 < s.numNeighbors
    requires 1 <= v <= 999 && id != "" && id !in Table(s)
    requires '\0' !in id && |id| < Ipv6AddressLen
    requires |LeAckMessage(v, id)| < MaxIpcMessageSize
    ensures var msg := LeAckMessage(v, id);
            var buf := MessageBuffer(msg, |msg|);
            && StartsWith(buf, "le_ack:")
            && LeAckValue(buf) == v > 0
            && LeAckSlotAsWritten(s, buf) == -1
            && LeAck(s, buf, now) == (s, false)
  {
    LeAckRoundTrip(v, id);
    SlotsHold(s, id);
  }

  /** The second half of that finding: an le_ack with an empty sender id
      passes the value guard, and getNeighborIndex answers the first free
      slot, whose zeroed identifier equals the empty string; the code as
      written stores the value there, counts it, and may make "" the
      leader. The model's handler ignores such a message. */
  lemma LeAckEmptySender(s: State, v: nat, now: Uint64)
    requires Inv(s) && 0 < s.numNeighbors < MaxNeighbors
    requires 1 <= v <= 999
    requires |LeAckMessage(v, "")| < MaxIpcMessageSize
    ensures var msg := LeAckMessage(v, "");
            var buf := MessageBuffer(msg, |msg|);
            && StartsWith(buf, "le_ack:")
            && LeAckValue(buf) == v > 0
            && LeAckSender(buf) == ""
            && LeAckSlotAsWritten(s, buf) == s.numNeighbors
            && LeAck(s, buf, now) == (s, false)
  {
    LeAckRoundTrip(v, "");
    var msg := LeAckMessage(v, "");
    var buf := MessageBuffer(msg, |msg|);
    assert s.neighbors[s.numNeighbors] == "";
  }

  /** The model's le_ack handler ignores a sender that is not in the table,
      and otherwise writes only the used slot that holds the sender. */
  lemma LeAckWritesSenderSlot(s: State, buf: seq<char>, now: Uint64)
    requires Inv(s) && |buf| == MaxIpcMessageSize
    ensures LeAckSender(buf) !in Table(s) ==> LeAck(s, buf, now) == (s, false)
    ensures var r := LeAck(s, buf, now).0;
            forall k :: 0 <= k < MaxNeighbors && r.values[k] != s.values[k] ==>
              k < s.numNeighbors && s.neighbors[k] == LeAckSender(buf)
  {
    var id := LeAckSender(buf);
    TableIndex(s, id);
    if LeAckValue(buf) > 0 && id in Table(s) {
      StoreValueCounts(s, IndexOf(s.neighbors, id), LeAckValue(buf), id, now);
    }
  }

  /** le_m? announces the current pair in the format le_ack readers parse
      back. */
  lemma LeQueryAnnounces(s: State)
    requires Inv(s) && |LeAckMessage(s.min, s.leader)| < MaxIpcMessageSize
    ensures var msg := LeAckMessage(s.min, s.leader);
            && LeQuery(s).sent == s.sent + [msg]
            && LeAckValue(MessageBuffer(msg, |msg|)) == s.min
            && LeAckSender(MessageBuffer(msg, |msg|)) == Truncate(s.leader, Ipv6AddressLen)
  {
    LeAckRoundTrip(s.min, s.leader);
  }

  /** Discovery moves only along idle -> 0 -> 1 -> 0: it starts when its
      time has come, sends nd_init in phase 0, leaves phase 1 after eight
      silent seconds, and goes idle then only if some neighbour answered. */
  lemma DiscoveryPhases(s: State, now: Uint64)
    requires Inv(s)
    ensures var r := Discovery(s, now);
            && Inv(r)
            && r.neighbors == s.neighbors && r.numNeighbors == s.numNeighbors && r.values == s.values
            && r.min == s.min && r.leader == s.leader && r.runningLE == s.runningLE && r.stateLE == s.stateLE
            && (!s.runningND ==>
                  (&& r.stateND == 0 && r.sent == s.sent
                   && (r.runningND <==> now > (if s.discoveryCount == 0 then DelayND / 3 else Add64(s.lastND, DelayND)))))
            && (s.runningND && s.stateND == 0 ==> r.runningND && r.stateND == 1 && r.sent == s.sent + ["nd_init"])
            && (s.runningND && s.stateND == 1 ==>
                  (&& r.sent == s.sent
                   && (r.stateND == 0 <==> s.lastND < Sub64(now, Silence))
                   && (!r.runningND <==> r.stateND == 0 && s.numNeighbors > 0)))
  {
  }

  /** Election moves only along idle -> 0 -> 1 -> 2 -> done: it starts once
      allowed and due, sends le_init and resets the count in phase 0, leaves
      phase 1 when every neighbour has answered or after eight silent
      seconds, and phase 2 ends the loop. The invalid-phase return never
      happens. */
  lemma ElectionPhases(s: State, now: Uint64)
    requires Inv(s)
    ensures var (r, looping) := Election(s, now);
            && Inv(r) && looping
            && r.neighbors == s.neighbors && r.numNeighbors == s.numNeighbors && r.values == s.values
            && r.min == s.min && r.leader == s.leader && r.runningND == s.runningND && r.stateND == s.stateND
            && (s.hasElectedLeader ==> r == s)
            && (!s.runningLE && r.runningLE ==> s.allowLE && !r.allowLE && r.lastLE == now && r.stateLE == 0)
            && (s.runningLE && s.stateLE == 0 ==> r.stateLE == 1 && r.countedMs == 0 && r.sent == s.sent + ["le_init"])
            && (s.runningLE && s.stateLE == 1 ==>
                  (r.stateLE == 2 <==> s.countedMs == s.numNeighbors || s.lastLE < Sub64(now, Silence)))
            && (s.runningLE && s.stateLE == 2 ==> r.quit && r.hasElectedLeader && !r.runningLE && r.countedMs == 0)
            && (r.quit ==> s.quit || s.stateLE == 2)
  {
  }

  /** One iteration of the main loop keeps the invariant, ends the loop only
      once quit is set, never raises min, only extends the neighbour table
      and the outbox, and answers a leader query with the current leader. */
  lemma StepKeepsInv(s: State, msg: Option<Ipc>, now: Uint64)
    requires Inv(s)
    ensures var o := Step(s, msg, now);
            && Inv(o.state)
            && (o.looping <==> !s.quit)
            && o.state.min <= s.min
            && Table(s) <= Table(o.state)
            && s.sent <= o.state.sent
            && (o.reply.Some? ==> o.reply.value == s.leader)
  {
    if s.quit {
    } else if msg.None? {
      ReactKeepsInv(s, None, now);
    } else {
      var ipc := msg.value;
      if ipc.msgType == 0 && s.udpServerPID == 0 {
        assert Step(s, msg, now) == Outcome(s.(udpServerPID := ipc.pid), None, true);
      } else if ipc.msgType == 1 && s.myIPv6 == "" {
        var t := CStr(ipc.text);
        assert Step(s, msg, now) == Outcome(s.(myIPv6 := t, leader := t, allowLE := true), None, true);
      } else if ipc.msgType == 2 {
        assert Step(s, msg, now) == Outcome(s, Some(s.leader), true);
      } else if 2 < ipc.msgType < MaxIpcMessageSize {
        ReactKeepsInv(s, Some(MessageBuffer(ipc.text, ipc.msgType)), now);
      } else {
        assert Step(s, msg, now) == Outcome(s, None, true);
      }
    }
  }

  lemma ReactKeepsInv(s: State, buf: Option<seq<char>>, now: Uint64)
    requires Inv(s)
    requires buf.Some? ==> |buf.value| == MaxIpcMessageSize
    ensures var o := React(s, buf, now);
            && Inv(o.state) && o.looping
            && o.state.min <= s.min
            && Table(s) <= Table(o.state)
            && s.sent <= o.state.sent
            && o.reply.None?
  {
    if s.udpServerPID != 0 {
      var h := if buf.Some? then Handle(s, buf.value, now) else (s, true);
      if buf.Some? {
        HandleKeepsInv(s, buf.value, now);
      }
      if h.1 {
        DiscoveryPhases(h.0, now);
        ElectionPhases(Discovery(h.0, now), now);
      }
    }
  }

  lemma HandleKeepsInv(s: State, buf: seq<char>, now: Uint64)
    requires Inv(s) && |buf| == MaxIpcMessageSize
    ensures var r := Handle(s, buf, now).0;
            && Inv(r) && r.min <= s.min && Table(s) <= Table(r) && s.sent <= r.sent
  {
    if s.numNeighbors < MaxNeighbors && StartsWith(buf, "nd_ack:") {
      assert Handle(s, buf, now).0 == NdAck(s, buf, now);
      NdAckRecords(s, buf, now);
    } else if s.numNeighbors > 0 && StartsWith(buf, "le_ack:") {
      assert Handle(s, buf, now).0 == LeAck(s, buf, now).0;
      LeAckMinimum(s, buf, now);
    } else if s.numNeighbors > 0 && StartsWith(buf, "le_m?:") {
      assert Handle(s, buf, now).0 == LeQuery(s);
      assert s.sent <= LeQuery(s).sent;
    } else {
      assert Handle(s, buf, now).0 == s;
    }
  }
}
