/** The protocol thread of protocols.c as an object. The neighbour table and
    the fixed-size character buffers are arrays updated in place, every other
    variable of the thread is a field, and each method does what one part of
    the main loop does. Every method is proved against the function of
    LeState that describes the same part, so the properties proved there hold
    of the object. */
module LeThread {
  import opened Decimal
  import opened LeMessages
  import opened LeState

  /** memset(t, 0, b). */
  method Memset(t: array<char>, b: nat)
    requires b <= t.Length
    modifies t
    ensures t[..b] == Zeros(b)
    ensures forall j :: b <= j < t.Length ==> t[j] == old(t[j])
  {
    var k := 0;
    while k < b
      invariant 0 <= k <= b
      invariant forall j :: 0 <= j < k ==> t[j] == '\0'
      invariant forall j :: b <= j < t.Length ==> t[j] == old(t[j])
    {
      t[k] := '\0';
      k := k + 1;
    }
    assert t[..b] == Zeros(b);
  }

  /** strncpy(t, src, b): copy characters of src until its NUL (or its end)
      or until b are copied, then fill up to b with NULs. */
  method StrNCpy(t: array<char>, src: seq<char>, b: nat)
    requires b <= t.Length
    modifies t
    ensures t[..b] == NCopy(src, b)
    ensures forall j :: b <= j < t.Length ==> t[j] == old(t[j])
  {
    ghost var c := CStr(src);
    var k := 0;
    while k < b && k < |src| && src[k] != '\0'
      invariant 0 <= k <= b && k <= |c|
      invariant forall j :: 0 <= j < k ==> t[j] == src[j]
      invariant forall j :: b <= j < t.Length ==> t[j] == old(t[j])
    {
      t[k] := src[k];
      k := k + 1;
    }
    var copied := k;
    assert copied == b || copied == |c|;
    while k < b
      invariant copied <= k <= b
      invariant forall j :: 0 <= j < copied ==> t[j] == src[j]
      invariant forall j :: copied <= j < k ==> t[j] == '\0'
      invariant forall j :: b <= j < t.Length ==> t[j] == old(t[j])
    {
      t[k] := '\0';
      k := k + 1;
    }
    NCopyOf(t[..b], src, b, copied);
  }

  /** substr(s, a, b, t) (protocols.c:43-47): clear the first b characters of
      t, then copy into them at most b characters of s from offset a. */
  method Substr(s: array<char>, a: nat, b: nat, t: array<char>)
    requires a <= s.Length && b <= t.Length && s != t
    modifies t
    ensures t[..b] == NCopy(s[a..], b)
    ensures forall j :: b <= j < t.Length ==> t[j] == old(t[j])
  {
    Memset(t, b);
    StrNCpy(t, s[a..], b);
  }

  /** A NUL after a buffer's content does not change the string it holds. */
  lemma {:induction false} CStrNulTail(x: seq<char>)
    ensures CStr(x + ['\0']) == CStr(x)
    decreases |x|
  {
    if x != [] && x[0] != '\0' {
      assert (x + ['\0'])[1..] == x[1..] + ['\0'];
      CStrNulTail(x[1..]);
    }
  }

  class ProtocolThread {
    const neighbors: array<string>
    const neighborsVal: array<nat>
    const msgContent: array<char>
    const ipv6: array<char>
    const neighborM: array<char>
    const m: nat
    var numNeighbors: int
    var min: nat
    var leader: string
    var myIPv6: string
    var udpServerPID: int
    var countedMs: int
    var discoveryCount: int
    var stateND: int
    var stateLE: int
    var runningND: bool
    var runningLE: bool
    var allowLE: bool
    var hasElectedLeader: bool
    var quit: bool
    var lastND: Uint64
    var lastLE: Uint64
    var startTimeLE: Uint64
    var sent: seq<string>
    /** The contents of neighbors and neighborsVal, kept beside the arrays so
        that the variables form a value without reading the arrays. */
    ghost var table: seq<string>
    ghost var values: seq<nat>

    /** The thread's variables as a value. */
    ghost function Snapshot(): State
      reads this
    {
      State(table, numNeighbors, values, m, min, leader, myIPv6, udpServerPID,
            countedMs, discoveryCount, stateND, stateLE, runningND, runningLE, allowLE,
            hasElectedLeader, quit, lastND, lastLE, startTimeLE, sent)
    }

    /** The buffers have the sizes protocols.c:87-101 gives them and are
        distinct. */
    ghost predicate Buffers() {
      && neighbors.Length == MaxNeighbors && neighborsVal.Length == MaxNeighbors
      && msgContent.Length == MaxIpcMessageSize && ipv6.Length == Ipv6AddressLen && neighborM.Length == 4
      && msgContent != ipv6 && msgContent != neighborM && ipv6 != neighborM
    }

    ghost predicate Valid()
      reads this, neighbors, neighborsVal, neighborM
    {
      && Buffers()
      && neighborM[3] == '\0'
      && neighbors[..] == table && neighborsVal[..] == values
      && Inv(Snapshot())
    }

    /** The set-up of protocols.c:87-126, with m drawn and the clock read by
        the caller. */
    constructor(m: nat, start: Uint64)
      requires 1 <= m <= 254
      ensures Valid() && Snapshot() == Initial(m, start)
    {
      this.m := m;
      neighbors := new string[MaxNeighbors](_ => "");
      neighborsVal := new nat[MaxNeighbors](_ => 0);
      msgContent := new char[MaxIpcMessageSize](_ => '\0');
      ipv6 := new char[Ipv6AddressLen](_ => '\0');
      neighborM := new char[4](_ => '\0');
      numNeighbors := 0;
      min := m;
      leader := "unknown";
      myIPv6 := "";
      udpServerPID := 0;
      countedMs := 0;
      discoveryCount := 0;
      stateND := 0;
      stateLE := 0;
      runningND := false;
      runningLE := false;
      allowLE := false;
      hasElectedLeader := false;
      quit := false;
      lastND := 0;
      lastLE := start;
      startTimeLE := 0;
      sent := [];
      table := seq(MaxNeighbors, _ => "");
      values := seq(MaxNeighbors, _ => 0);
      new;
      assert neighbors[..] == table;
      assert neighborsVal[..] == values;
      InitialInv(m, start);
    }

    /** alreadyANeighbor (protocols.c:49-54): 1 when one of the 20 slots,
        used or not, holds id, else 0. */
    method AlreadyANeighbor(id: string) returns (r: int)
      requires Valid()
      ensures r == if id in neighbors[..] then 1 else 0
    {
      var i := 0;
      while i < MaxNeighbors
        invariant 0 <= i <= MaxNeighbors
        invariant forall j :: 0 <= j < i ==> neighbors[j] != id
      {
        if neighbors[i] == id {
          return 1;
        }
        i := i + 1;
      }
      return 0;
    }

    /** getNeighborIndex (protocols.c:56-61): the first slot holding id, or -1. */
    method GetNeighborIndex(id: string) returns (i: int)
      requires Valid()
      ensures i == IndexOf(neighbors[..], id)
    {
      i := 0;
      while i < MaxNeighbors
        invariant 0 <= i <= MaxNeighbors
        invariant forall j :: 0 <= j < i ==> neighbors[j] != id
      {
        if neighbors[i] == id {
          return;
        }
        i := i + 1;
      }
      return -1;
    }

    /** sprintf of min into neighborM, zero-padded to three digits
        (protocols.c:209-215, :226-232). */
    method PrintMin()
      requires neighborM.Length == 4 && 1 <= min <= 999
      modifies neighborM
      ensures neighborM[..] == FormatM(min) + ['\0']
      ensures CStr(neighborM[..]) == FormatM(min)
    {
      var f := FormatM(min);
      FormatMDigits(min);
      neighborM[0] := f[0];
      neighborM[1] := f[1];
      neighborM[2] := f[2];
      neighborM[3] := '\0';
      assert neighborM[..] == f + ['\0'];
      CStrNulTail(f);
      CStrOfPadded(f, 0);
      assert f + Zeros(0) == f;
    }

    /** Announcing the current minimum and leader as le_ack:NNN:<leader>
        (protocols.c:208-219, :225-236). */
    method SendMinimum()
      requires neighborM.Length == 4 && 1 <= min <= 999
      modifies this`sent, neighborM
      ensures neighborM[3] == '\0'
      ensures sent == old(sent) + [LeAckMessage(min, leader)]
    {
      PrintMin();
      var text := "le_ack:" + CStr(neighborM[..]) + ":" + leader;
      sent := sent + [text];
    }

    /** The address field of the message in msgContent that starts at
        offset, read through ipv6 (protocols.c:181, :198). */
    method ReadAddress(offset: nat) returns (id: string)
      requires Buffers() && offset <= 11
      modifies ipv6
      ensures id == CStr(NCopy(msgContent[..][offset..], Ipv6AddressLen))
    {
      Substr(msgContent, offset, Ipv6AddressLen, ipv6);
      id := CStr(ipv6[..]);
      assert ipv6[..] == ipv6[..Ipv6AddressLen];
    }

    /** Recording a new neighbour (protocols.c:183-191). */
    method RecordNeighbor(id: string, now: Uint64)
      requires neighbors.Length == MaxNeighbors && 0 <= numNeighbors < MaxNeighbors && neighbors[..] == table
      modifies this`table, this`numNeighbors, this`sent, this`lastND, neighbors
      ensures table == old(table)[old(numNeighbors) := id] && neighbors[..] == table
      ensures numNeighbors == old(numNeighbors) + 1 && lastND == now
      ensures sent == old(sent) + ["nd_hello:" + id]
    {
      neighbors[numNeighbors] := id;
      table := table[numNeighbors := id];
      numNeighbors := numNeighbors + 1;
      sent := sent + ["nd_hello:" + id];
      lastND := now;
    }

    /** An nd_ack from id (protocols.c:182-192). */
    method AcceptNeighbor(id: string, now: Uint64)
      requires Valid() && numNeighbors < MaxNeighbors
      modifies this, neighbors
      ensures Valid()
      ensures Snapshot() == NdAckFrom(old(Snapshot()), id, now)
    {
      ghost var s0 := Snapshot();
      var known := AlreadyANeighbor(id);
      if known == 0 {
        RecordNeighbor(id, now);
        assert Snapshot() == AddNeighbor(s0, id, now);
        AddNeighborInv(s0, id, now);
      }
    }

    /** The nd_ack handler (protocols.c:179-194). */
    method HandleNdAck(now: Uint64)
      requires Valid() && numNeighbors < MaxNeighbors
      modifies this, neighbors, ipv6
      ensures Valid()
      ensures Snapshot() == NdAck(old(Snapshot()), msgContent[..], now)
    {
      var id := ReadAddress(7);
      AcceptNeighbor(id, now);
    }

    /** The value field of the le_ack in msgContent, read through neighborM
        (protocols.c:197, :200). */
    method ReadValue() returns (v: int)
      requires Buffers() && neighborM[3] == '\0'
      modifies neighborM
      ensures neighborM[3] == '\0' && v == LeAckValue(msgContent[..])
    {
      Substr(msgContent, 7, 3, neighborM);
      v := Atoi(CStr(neighborM[..]));
      assert neighborM[..] == neighborM[..3] + ['\0'];
      CStrNulTail(neighborM[..3]);
    }

    /** Storing the value v that the neighbour in slot i announced, counting
        the slot when it held no value before (protocols.c:202-203). */
    method CountValue(i: int, v: nat)
      requires neighborsVal.Length == MaxNeighbors && 0 <= i < MaxNeighbors
      requires neighborsVal[..] == values
      modifies this`countedMs, this`values, neighborsVal
      ensures neighborsVal[..] == values == old(values)[i := v]
      ensures countedMs == if old(neighborsVal[i]) == 0 then old(countedMs) + 1 else old(countedMs)
    {
      if neighborsVal[i] == 0 {
        countedMs := countedMs + 1;
      }
      neighborsVal[i] := v;
      values := values[i := v];
    }

    /** Taking the value v of the neighbour id as the new minimum and
        announcing it (protocols.c:204-221). */
    method TakeMinimum(v: nat, id: string)
      requires neighborM.Length == 4 && 1 <= v <= 999
      modifies this`leader, this`min, this`sent, neighborM
      ensures leader == id && min == v && neighborM[3] == '\0'
      ensures sent == old(sent) + [LeAckMessage(v, id)]
    {
      leader := id;
      min := v;
      SendMinimum();
    }

    /** Storing the value v that the neighbour in slot i announced, and
        taking it as the new minimum when it is smaller
        (protocols.c:202-222). */
    method StoreNeighborValue(i: int, v: nat, id: string, now: Uint64)
      requires Buffers() && 0 <= i < MaxNeighbors && neighborsVal[..] == values && v > 0 && min <= 999
      modifies this`countedMs, this`values, this`leader, this`min, this`sent, this`lastLE, neighborsVal, neighborM
      ensures neighborsVal[..] == values && neighborM[3] == if v < old(min) then '\0' else old(neighborM[3])
      ensures Snapshot() == StoreValue(old(Snapshot()), i, v, id, now)
    {
      CountValue(i, v);
      if v < min {
        TakeMinimum(v, id);
      }
      lastLE := now;
    }

    /** An le_ack carrying v from id (protocols.c:199-222), ignoring a
        sender that no used slot holds; go is false where the iteration
        ends early. */
    method AcceptValue(v: int, id: string, now: Uint64) returns (go: bool)
      requires Valid() && '\0' !in id
      modifies this, neighborsVal, neighborM
      ensures Valid()
      ensures (Snapshot(), go) == LeAckFrom(old(Snapshot()), v, id, now)
    {
      ghost var s0 := Snapshot();
      var i := GetNeighborIndex(id);
      if v <= 0 || i < 0 || i >= numNeighbors {
        return false;
      }
      StoreNeighborValue(i, v, id, now);
      StoreValueInv(s0, i, v, id, now);
      go := true;
    }

    /** The le_ack handler (protocols.c:195-222). */
    method HandleLeAck(now: Uint64) returns (go: bool)
      requires Valid()
      modifies this, neighborsVal, ipv6, neighborM
      ensures Valid()
      ensures (Snapshot(), go) == LeAck(old(Snapshot()), msgContent[..], now)
    {
      var v := ReadValue();
      var id := ReadAddress(11);
      go := AcceptValue(v, id, now);
    }

    /** The le_m? handler (protocols.c:223-238). */
    method HandleLeQuery()
      requires Valid()
      modifies this`sent, neighborM
      ensures Valid()
      ensures Snapshot() == LeQuery(old(Snapshot()))
    {
      ghost var s0 := Snapshot();
      SendMinimum();
      assert Snapshot() == s0.(sent := s0.sent + [LeAckMessage(s0.min, s0.leader)]);
    }

    /** Discovery becomes due: it starts and is counted (protocols.c:249-254). */
    method StartDiscovery(now: Uint64)
      modifies this`lastND, this`runningND, this`discoveryCount
      ensures Snapshot() == old(Snapshot()).(lastND := now, runningND := true, discoveryCount := old(discoveryCount) + 1)
    {
      lastND := now;
      runningND := true;
      discoveryCount := discoveryCount + 1;
    }

    /** Discovery phase 0: the multicast ping goes out (protocols.c:258-261). */
    method PingNeighbors()
      modifies this`sent, this`stateND
      ensures Snapshot() == old(Snapshot()).(sent := old(sent) + ["nd_init"], stateND := 1)
    {
      sent := sent + ["nd_init"];
      stateND := 1;
    }

    /** Discovery phase 1 after eight silent seconds: back to phase 0, and
        the phase ends once some neighbour is known (protocols.c:263-270). */
    method EndDiscovery(now: Uint64)
      modifies this`stateND, this`runningND, this`lastND
      ensures Snapshot() == if numNeighbors > 0 then old(Snapshot()).(stateND := 0, runningND := false, lastND := now)
                            else old(Snapshot()).(stateND := 0)
    {
      stateND := 0;
      if numNeighbors > 0 {
        runningND := false;
        lastND := now;
      }
    }

    /** The neighbour discovery phase (protocols.c:241-277). */
    method NeighborDiscovery(now: Uint64)
      requires Valid()
      modifies this
      ensures Valid()
      ensures Snapshot() == Discovery(old(Snapshot()), now)
    {
      ghost var s0 := Snapshot();
      DiscoveryPhases(s0, now);
      if !runningND {
        var timeToRun: Uint64;
        if discoveryCount == 0 {
          timeToRun := DelayND / 3;
        } else {
          timeToRun := Add64(lastND, DelayND);
        }
        if now > timeToRun {
          StartDiscovery(now);
        }
      } else if stateND == 0 {
        PingNeighbors();
      } else if stateND == 1 {
        if lastND < Sub64(now, Silence) {
          EndDiscovery(now);
        }
      }
    }

    /** Election becomes due: it starts, and is not allowed to start again
        (protocols.c:283-288). */
    method StartElection(now: Uint64)
      modifies this`lastLE, this`runningLE, this`allowLE, this`startTimeLE
      ensures Snapshot() == old(Snapshot()).(lastLE := now, runningLE := true, allowLE := false, startTimeLE := now / 1000000)
    {
      lastLE := now;
      runningLE := true;
      allowLE := false;
      startTimeLE := now / 1000000;
    }

    /** Election phase 0: the multicast ping goes out and the count of
        answers starts at zero (protocols.c:294-297). */
    method PingElection()
      modifies this`sent, this`stateLE, this`countedMs
      ensures Snapshot() == old(Snapshot()).(sent := old(sent) + ["le_init"], stateLE := 1, countedMs := 0)
    {
      sent := sent + ["le_init"];
      stateLE := 1;
      countedMs := 0;
    }

    /** Election phase 1 when every neighbour has answered or after eight
        silent seconds (protocols.c:300-304). */
    method CloseElection(now: Uint64)
      modifies this`stateLE, this`lastLE
      ensures Snapshot() == old(Snapshot()).(stateLE := 2, lastLE := now)
    {
      stateLE := 2;
      lastLE := now;
    }

    /** Election phase 2: the leader is elected and the loop is to end
        (protocols.c:305-319). */
    method FinishElection(now: Uint64)
      modifies this`runningLE, this`hasElectedLeader, this`countedMs, this`stateLE, this`lastLE, this`quit
      ensures Snapshot() == old(Snapshot()).(runningLE := false, hasElectedLeader := true, countedMs := 0,
                                             stateLE := 0, lastLE := now, quit := true)
    {
      RecordLeader();
      ResetElection(now);
    }

    /** The first half of election phase 2: the leader is elected
        (protocols.c:314-316). */
    method RecordLeader()
      modifies this`runningLE, this`hasElectedLeader, this`countedMs
      ensures Snapshot() == old(Snapshot()).(runningLE := false, hasElectedLeader := true, countedMs := 0)
    {
      runningLE := false;
      hasElectedLeader := true;
      countedMs := 0;
    }

    /** The second half of election phase 2: back to phase 0, and the loop
        is to end (protocols.c:317-319). */
    method ResetElection(now: Uint64)
      modifies this`stateLE, this`lastLE, this`quit
      ensures Snapshot() == old(Snapshot()).(stateLE := 0, lastLE := now, quit := true)
    {
      stateLE := 0;
      lastLE := now;
      quit := true;
    }

    /** The leader election phase (protocols.c:279-326); looping is false
        where the thread returns from an invalid phase. */
    method LeaderElection(now: Uint64) returns (looping: bool)
      requires Valid()
      modifies this
      ensures Valid()
      ensures (Snapshot(), looping) == Election(old(Snapshot()), now)
    {
      ghost var s0 := Snapshot();
      ElectionPhases(s0, now);
      looping := true;
      if !runningLE && !hasElectedLeader {
        var timeToRun := Add64(lastLE, DelayLE);
        if EnableLeader && !hasElectedLeader && allowLE && now > timeToRun {
          StartElection(now);
        }
      } else if runningLE {
        if stateLE == 0 {
          PingElection();
        } else if stateLE == 1 {
          if countedMs == numNeighbors || lastLE < Sub64(now, Silence) {
            CloseElection(now);
          }
        } else if stateLE == 2 {
          FinishElection(now);
        } else {
          looping := false;
        }
      }
    }

    /** Everything of an iteration after the intake (protocols.c:174-326):
        received says whether msgContent holds a string message. */
    method React(received: bool, now: Uint64) returns (reply: Option<string>, looping: bool)
      requires Valid()
      modifies this, neighbors, neighborsVal, ipv6, neighborM
      ensures Valid()
      ensures Outcome(Snapshot(), reply, looping)
              == LeState.React(old(Snapshot()), if received then Some(msgContent[..]) else None, now)
    {
      reply := None;
      if udpServerPID == 0 {
        return None, true;
      }
      if received {
        if numNeighbors < MaxNeighbors && StartsWith(msgContent[..], "nd_ack:") {
          HandleNdAck(now);
        } else if numNeighbors > 0 && StartsWith(msgContent[..], "le_ack:") {
          var go := HandleLeAck(now);
          if !go {
            return None, true;
          }
        } else if numNeighbors > 0 && StartsWith(msgContent[..], "le_m?:") {
          HandleLeQuery();
        }
      }
      NeighborDiscovery(now);
      looping := LeaderElection(now);
    }

    /** The UDP server announcing its pid (protocols.c:137-142). */
    method RecordServer(pid: int)
      requires Valid()
      modifies this`udpServerPID
      ensures Valid() && Snapshot() == old(Snapshot()).(udpServerPID := pid)
    {
      udpServerPID := pid;
    }

    /** The node's own address, which is also the first leader
        (protocols.c:144-151). */
    method RecordAddress(text: string)
      requires Valid()
      modifies this`myIPv6, this`leader, this`allowLE
      ensures Valid()
      ensures Snapshot() == old(Snapshot()).(myIPv6 := CStr(text), leader := CStr(text), allowLE := true)
    {
      myIPv6 := CStr(text);
      leader := myIPv6;
      allowLE := true;
    }

    /** A string message of length len copied into the cleared msgContent
        (protocols.c:160-164). */
    method ReceiveText(text: string, len: nat)
      requires msgContent.Length == MaxIpcMessageSize && msgContent[..] == Zeros(MaxIpcMessageSize)
      requires len < MaxIpcMessageSize
      modifies msgContent
      ensures msgContent[..] == MessageBuffer(text, len)
    {
      StrNCpy(msgContent, text, len + 1);
      ghost var tail := msgContent[len + 1..];
      assert tail == Zeros(MaxIpcMessageSize - (len + 1)) by {
        assert |tail| == MaxIpcMessageSize - (len + 1);
        forall j | 0 <= j < |tail| ensures tail[j] == '\0' {
          assert tail[j] == old(msgContent[..])[len + 1 + j];
        }
      }
      assert msgContent[..] == msgContent[..len + 1] + tail;
    }

    /** One iteration of the main loop (protocols.c:130-329): msg is what
        msg_try_receive delivered, if anything; reply is the answer to a
        leader query; looping is false once the loop is left. */
    method Step(msg: Option<Ipc>, now: Uint64) returns (reply: Option<string>, looping: bool)
      requires Valid()
      modifies this, neighbors, neighborsVal, msgContent, ipv6, neighborM
      ensures Valid()
      ensures Outcome(Snapshot(), reply, looping) == LeState.Step(old(Snapshot()), msg, now)
    {
      if quit {
        return None, false;
      }
      Memset(msgContent, MaxIpcMessageSize);
      if msg.None? {
        reply, looping := React(false, now);
        return;
      }
      var ipc := msg.value;
      if ipc.msgType == 0 && udpServerPID == 0 {
        RecordServer(ipc.pid);
        return None, true;
      } else if ipc.msgType == 1 && myIPv6 == "" {
        RecordAddress(ipc.text);
        return None, true;
      } else if ipc.msgType == 2 {
        return Some(leader), true;
      } else if 2 < ipc.msgType < MaxIpcMessageSize {
        ReceiveText(ipc.text, ipc.msgType);
        reply, looping := React(true, now);
      } else {
        return None, true;
      }
    }
  }
}
