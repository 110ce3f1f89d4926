/** UnhandledPacketsBuffer: a ring of 50 stashed packets that should behave as a first-in-first-out queue. */
module UnhandledPackets {
  import opened Sequences

  const MAX_STASHED: nat := 50

  datatype Packet = Packet(ssrc: nat, packetTimeUs: int, payload: seq<int>)

  datatype State = State(buffer: seq<Packet>, insertPos: nat)

  ghost predicate Valid(s: State) {
    |s.buffer| <= MAX_STASHED && s.insertPos < MAX_STASHED
  }

  ghost function Rotate<T>(b: seq<T>, i: nat): (r: seq<T>)
    requires i <= |b|
    ensures |r| == |b|
  {
    b[i..] + b[..i]
  }

  lemma RotateZero<T>(b: seq<T>)
    ensures Rotate(b, 0) == b == Rotate(b, |b|)
  {
    assert b[0..] + b[..0] == b;
    assert b[|b|..] + b[..|b|] == b;
  }

  lemma RotateUpdate<T>(b: seq<T>, i: nat, x: T)
    requires i < |b|
    ensures Rotate(b[i := x], if i + 1 == |b| then 0 else i + 1) == Rotate(b, i)[1..] + [x]
  {
    var j := if i + 1 == |b| then 0 else i + 1;
    var l, r := Rotate(b[i := x], j), Rotate(b, i)[1..] + [x];
    forall k: nat | k < |b| ensures l[k] == r[k] {
      RotateAt(b[i := x], j, k);
      if k + 1 < |b| {
        RotateAt(b, i, k + 1);
      }
    }
  }

  lemma RotateAt<T>(b: seq<T>, i: nat, k: nat)
    requires i <= |b| && k < |b|
    ensures Rotate(b, i)[k] == if k < |b| - i then b[i + k] else b[k - (|b| - i)]
  {
  }

  /** The order in which BackfillPackets walks the ring. */
  ghost function Order(s: State): (r: seq<Packet>)
    requires Valid(s)
    ensures |r| == |s.buffer|
  {
    if |s.buffer| < MAX_STASHED then s.buffer else Rotate(s.buffer, s.insertPos)
  }

  /** The newest 50 of a history. */
  ghost function Newest(h: seq<Packet>): seq<Packet> {
    if |h| <= MAX_STASHED then h else h[|h| - MAX_STASHED..]
  }

  ghost function Picked(h: seq<Packet>, ssrcs: seq<nat>, claimed: bool): seq<Packet> {
    if h == [] then [] else
      var before, last := Picked(h[..|h| - 1], ssrcs, claimed), h[|h| - 1];
      if (last.ssrc in ssrcs) == claimed then before + [last] else before
  }

  /** (slot + 1) modulo 50, for a slot of the ring. */
  ghost function NextSlot(slot: nat): nat {
    if slot + 1 == MAX_STASHED then 0 else slot + 1
  }

  ghost function Added(s: State, p: Packet): State
    requires Valid(s)
  {
    State(if |s.buffer| < MAX_STASHED then s.buffer + [p] else s.buffer[s.insertPos := p],
          NextSlot(s.insertPos))
  }

  ghost function Backfilled(s: State, ssrcs: seq<nat>): State
    requires Valid(s)
  {
    State(Picked(Order(s), ssrcs, false), 0)
  }

  class UnhandledPacketsBuffer {
    var insertPos: nat
    var buffer: seq<Packet>

    ghost function View(): State
      reads this
    {
      State(buffer, insertPos)
    }

    constructor ()
      ensures View() == State([], 0) && Valid(View())
    {
      insertPos, buffer := 0, [];
    }

    method AddPacket(ssrc: nat, packetTimeUs: int, payload: seq<int>)
      requires Valid(View())
      modifies this
      ensures View() == Added(old(View()), Packet(ssrc, packetTimeUs, payload)) && Valid(View())
    {
      if |buffer| < MAX_STASHED {
        buffer := buffer + [Packet(ssrc, packetTimeUs, payload)];
      } else {
        buffer := buffer[insertPos := Packet(ssrc, packetTimeUs, payload)];
      }
      insertPos := (insertPos + 1) % MAX_STASHED;
    }

    /** `delivered` is what the consumer is fed, in order. */
    method BackfillPackets(ssrcs: seq<nat>) returns (delivered: seq<Packet>)
      requires Valid(View())
      modifies this
      ensures delivered == Picked(old(Order(View())), ssrcs, true)
      ensures View() == Backfilled(old(View()), ssrcs) && Valid(View())
    {
      var start := if |buffer| < MAX_STASHED then 0 else insertPos;
      ghost var order := Order(View());
      delivered := [];
      var remaining := [];
      for i := 0 to |buffer|
        invariant buffer == old(buffer) && insertPos == old(insertPos)
        invariant delivered == Picked(order[..i], ssrcs, true)
        invariant remaining == Picked(order[..i], ssrcs, false)
      {
        var pos := (i + start) % MAX_STASHED;
        WalkAt(old(View()), i);
        assert order[..i + 1][..i] == order[..i];
        var ssrc := buffer[pos].ssrc;
        if ssrc in ssrcs {
          delivered := delivered + [Packet(ssrc, buffer[pos].packetTimeUs, buffer[pos].payload)];
        } else {
          remaining := remaining + [buffer[pos]];
        }
      }
      assert order[..|buffer|] == order;
      insertPos := 0;
      PickedIsShorter(order, ssrcs, false);
      buffer := remaining;
    }
  }

  /** The slot that a backfill visits in round `i`. */
  lemma WalkAt(s: State, i: nat)
    requires Valid(s) && i < |s.buffer|
    ensures var pos := (i + if |s.buffer| < MAX_STASHED then 0 else s.insertPos) % MAX_STASHED;
      pos < |s.buffer| && s.buffer[pos] == Order(s)[i]
  {
    if |s.buffer| == MAX_STASHED {
      RotateAt(s.buffer, s.insertPos, i);
    }
  }

  lemma {:induction false} PickedIsShorter(h: seq<Packet>, ssrcs: seq<nat>, claimed: bool)
    ensures |Picked(h, ssrcs, claimed)| <= |h|
  {
    if h != [] {
      PickedIsShorter(h[..|h| - 1], ssrcs, claimed);
    }
  }

  /* ---- a backfill splits the order ---- */

  /** Nothing is lost or made up. */
  lemma {:induction false} BackfillLosesNothing(h: seq<Packet>, ssrcs: seq<nat>)
    ensures multiset(Picked(h, ssrcs, true)) + multiset(Picked(h, ssrcs, false)) == multiset(h)
    ensures forall p :: p in Picked(h, ssrcs, true) ==> p.ssrc in ssrcs
    ensures forall p :: p in Picked(h, ssrcs, false) ==> p.ssrc !in ssrcs
  {
    if h != [] {
      BackfillLosesNothing(h[..|h| - 1], ssrcs);
      assert h == h[..|h| - 1] + [h[|h| - 1]];
    }
  }

  /** Each packet lands behind exactly the packets of its side that precede it. */
  lemma {:induction false} BackfillKeepsOrder(h: seq<Packet>, ssrcs: seq<nat>, i: nat)
    requires i < |h|
    ensures var claimed := h[i].ssrc in ssrcs; var at := |Picked(h[..i], ssrcs, claimed)|;
      at < |Picked(h, ssrcs, claimed)| && Picked(h, ssrcs, claimed)[at] == h[i]
    decreases |h|
  {
    if i < |h| - 1 {
      assert h[..|h| - 1][..i] == h[..i];
      BackfillKeepsOrder(h[..|h| - 1], ssrcs, i);
    }
  }

  /* ---- when the ring is a queue ---- */

  /** The ring stands for a history of unclaimed packets: the newest 50, oldest first. */
  ghost predicate Refines(s: State, h: seq<Packet>) {
    Valid(s) && Order(s) == h && (|s.buffer| < MAX_STASHED ==> s.insertPos == |s.buffer|)
  }

  lemma AddKeepsRefinement(s: State, h: seq<Packet>, p: Packet)
    requires Refines(s, h)
    ensures Refines(Added(s, p), Newest(h + [p]))
  {
    var s' := Added(s, p);
    if |s.buffer| == MAX_STASHED {
      FullAdd(s, p);
    } else if |s.buffer| == MAX_STASHED - 1 {
      RotateZero(s'.buffer);
    }
  }

  /** On a full ring an add always drops the head of the walk. */
  lemma FullAdd(s: State, p: Packet)
    requires Valid(s) && |s.buffer| == MAX_STASHED
    ensures Valid(Added(s, p)) && Order(Added(s, p)) == Order(s)[1..] + [p]
  {
    RotateUpdate(s.buffer, s.insertPos, p);
  }

  /** A backfill hands over the claimed part of the history and keeps the rest in order; it keeps the
      refinement exactly when it keeps no packet or all 50. */
  lemma BackfillKeepsRefinement(s: State, h: seq<Packet>, ssrcs: seq<nat>)
    requires Refines(s, h)
    ensures Valid(Backfilled(s, ssrcs)) && Order(Backfilled(s, ssrcs)) == Picked(h, ssrcs, false)
    ensures Refines(Backfilled(s, ssrcs), Picked(h, ssrcs, false)) <==>
              |Picked(h, ssrcs, false)| in {0, MAX_STASHED}
  {
    PickedIsShorter(h, ssrcs, false);
    var kept := Picked(h, ssrcs, false);
    RotateZero(kept);
  }

  /* ---- runs ---- */

  datatype Op = Add(packet: Packet) | Backfill(ssrcs: seq<nat>)

  ghost function Step(s: State, op: Op): (r: State)
    requires Valid(s)
    ensures Valid(r)
  {
    match op
    case Add(p) => Added(s, p)
    case Backfill(ssrcs) =>
      PickedIsShorter(Order(s), ssrcs, false);
      Backfilled(s, ssrcs)
  }

  ghost function Run(s: State, ops: seq<Op>): (r: State)
    requires Valid(s)
    ensures Valid(r)
  {
    if ops == [] then s else Step(Run(s, ops[..|ops| - 1]), ops[|ops| - 1])
  }

  /** The queue the buffer is meant to be. */
  ghost function Queue(ops: seq<Op>): seq<Packet> {
    if ops == [] then [] else
      var h := Queue(ops[..|ops| - 1]);
      match ops[|ops| - 1]
      case Add(p) => Newest(h + [p])
      case Backfill(ssrcs) => Picked(h, ssrcs, false)
  }

  const EMPTY := State([], 0)

  /** How many packets the last backfill kept, 0 if there was none, and the adds since. */
  ghost function Kept(ops: seq<Op>): nat {
    if ops == [] then 0
    else if ops[|ops| - 1].Backfill? then |Queue(ops)|
    else Kept(ops[..|ops| - 1])
  }

  ghost function AddsSince(ops: seq<Op>): nat {
    if ops == [] || ops[|ops| - 1].Backfill? then 0 else 1 + AddsSince(ops[..|ops| - 1])
  }

  /** The last backfill kept nothing or a full buffer, or its ring is not full again yet. */
  ghost predicate NotRefilled(ops: seq<Op>) {
    Kept(ops) == 0 || Kept(ops) == MAX_STASHED || Kept(ops) + AddsSince(ops) < MAX_STASHED
  }

  /** The buffer is the queue, and the cursor is where the next adds need it. */
  ghost predicate InStep(s: State, h: seq<Packet>, kept: nat, adds: nat) {
    && Valid(s) && Order(s) == h
    && if kept == 0 || kept == MAX_STASHED then Refines(s, h)
       else |s.buffer| == kept + adds < MAX_STASHED && s.insertPos == adds
  }

  lemma AddInStep(s: State, h: seq<Packet>, kept: nat, adds: nat, p: Packet)
    requires InStep(s, h, kept, adds)
    requires kept == 0 || kept == MAX_STASHED || kept + adds + 1 < MAX_STASHED
    ensures InStep(Added(s, p), Newest(h + [p]), kept, adds + 1)
  {
    if kept == 0 || kept == MAX_STASHED {
      AddKeepsRefinement(s, h, p);
    }
  }

  lemma BackfillInStep(s: State, h: seq<Packet>, kept: nat, adds: nat, ssrcs: seq<nat>)
    requires InStep(s, h, kept, adds)
    ensures InStep(Backfilled(s, ssrcs), Picked(h, ssrcs, false), |Picked(h, ssrcs, false)|, 0)
  {
    PickedIsShorter(h, ssrcs, false);
    RotateZero(Picked(h, ssrcs, false));
  }

  /** As long as no partly kept ring was refilled, the buffer is the queue. */
  lemma {:induction false} RunIsAQueue(ops: seq<Op>)
    requires forall n :: 0 <= n <= |ops| ==> NotRefilled(ops[..n])
    ensures InStep(Run(EMPTY, ops), Queue(ops), Kept(ops), AddsSince(ops))
  {
    if ops != [] {
      var before := ops[..|ops| - 1];
      forall n | 0 <= n <= |before| ensures NotRefilled(before[..n]) {
        assert before[..n] == ops[..n];
      }
      RunIsAQueue(before);
      assert ops[..|ops|] == ops && NotRefilled(ops);
      var s, h := Run(EMPTY, before), Queue(before);
      match ops[|ops| - 1]
      case Add(p) => AddInStep(s, h, Kept(before), AddsSince(before), p);
      case Backfill(ssrcs) => BackfillInStep(s, h, Kept(before), AddsSince(before), ssrcs);
    }
  }

  lemma RefillIsWrong(s: State, h: seq<Packet>, kept: nat, adds: nat, p: Packet)
    requires InStep(s, h, kept, adds) && 0 < kept < MAX_STASHED && kept + adds + 1 == MAX_STASHED
    requires NoDuplicates(h + [p])
    ensures Order(Added(s, p)) != Newest(h + [p])
  {
    RotateAt(h + [p], adds + 1, 0);
    assert (h + [p])[adds + 1] != (h + [p])[0];
  }

  /** The first refill of a partly kept ring puts the buffer out of order. */
  lemma {:induction false} FirstRefillIsWrong(ops: seq<Op>)
    requires ops != [] && !NotRefilled(ops) && NoDuplicates(Queue(ops))
    requires forall n :: 0 <= n < |ops| ==> NotRefilled(ops[..n])
    ensures Order(Run(EMPTY, ops)) != Queue(ops)
  {
    assert ops[..0] == [];
    var before := ops[..|ops| - 1];
    forall n | 0 <= n <= |before| ensures NotRefilled(before[..n]) {
      assert before[..n] == ops[..n];
    }
    RunIsAQueue(before);
    assert NotRefilled(before);
    assert ops[|ops| - 1].Add? by {
      if ops[|ops| - 1].Backfill? {
        PickedIsShorter(Queue(before), ops[|ops| - 1].ssrcs, false);
      }
    }
    RefillIsWrong(Run(EMPTY, before), Queue(before), Kept(before), AddsSince(before), ops[|ops| - 1].packet);
  }

  lemma {:induction false} FirstRefill(ops: seq<Op>, n: nat) returns (m: nat)
    requires n <= |ops| && !NotRefilled(ops[..n])
    ensures 0 < m <= n && !NotRefilled(ops[..m])
    ensures forall k :: 0 <= k < m ==> NotRefilled(ops[..k])
  {
    m := 0;
    while NotRefilled(ops[..m])
      invariant m <= n && forall k :: 0 <= k < m ==> NotRefilled(ops[..k])
      decreases n - m
    {
      m := m + 1;
    }
    assert ops[..0] == [];
  }

  /** On every run in which no packet is queued twice the buffer is the queue at every point exactly when no
      backfill that kept between 1 and 49 packets is followed by enough adds to fill the ring again. */
  lemma RunIsAQueueExactly(ops: seq<Op>)
    requires forall n :: 0 <= n <= |ops| ==> NoDuplicates(Queue(ops[..n]))
    ensures (forall n :: 0 <= n <= |ops| ==> Order(Run(EMPTY, ops[..n])) == Queue(ops[..n])) <==>
              (forall n :: 0 <= n <= |ops| ==> NotRefilled(ops[..n]))
  {
    if forall n :: 0 <= n <= |ops| ==> NotRefilled(ops[..n]) {
      forall n | 0 <= n <= |ops| ensures Order(Run(EMPTY, ops[..n])) == Queue(ops[..n]) {
        PrefixNotRefilled(ops, n);
        RunIsAQueue(ops[..n]);
      }
    } else {
      var n :| 0 <= n <= |ops| && !NotRefilled(ops[..n]);
      var m := FirstRefill(ops, n);
      forall k | 0 <= k < m ensures NotRefilled(ops[..m][..k]) {
        assert ops[..m][..k] == ops[..k];
      }
      FirstRefillIsWrong(ops[..m]);
    }
  }

  lemma PrefixNotRefilled(ops: seq<Op>, n: nat)
    requires n <= |ops| && forall k :: 0 <= k <= |ops| ==> NotRefilled(ops[..k])
    ensures forall k :: 0 <= k <= n ==> NotRefilled(ops[..n][..k])
  {
    forall k | 0 <= k <= n ensures NotRefilled(ops[..n][..k]) {
      assert ops[..n][..k] == ops[..k];
    }
  }

  /** The state that packets `ps` make of a backfill that kept `kept`. */
  ghost function AddAll(kept: seq<Packet>, ps: seq<Packet>): (r: State)
    requires |kept| <= MAX_STASHED
    ensures Valid(r)
  {
    if ps == [] then State(kept, 0) else Added(AddAll(kept, ps[..|ps| - 1]), ps[|ps| - 1])
  }

  /** Every reachable state is a backfill, or the start, followed by adds. */
  lemma {:induction false} RunIsBackfillThenAdds(ops: seq<Op>)
    ensures exists kept, ps :: |kept| <= MAX_STASHED && Run(EMPTY, ops) == AddAll(kept, ps)
  {
    if ops == [] {
      assert Run(EMPTY, ops) == AddAll([], []);
    } else {
      var s := Run(EMPTY, ops[..|ops| - 1]);
      RunIsBackfillThenAdds(ops[..|ops| - 1]);
      var kept, ps :| |kept| <= MAX_STASHED && s == AddAll(kept, ps);
      match ops[|ops| - 1]
      case Add(p) =>
        assert (ps + [p])[..|ps|] == ps;
        assert Run(EMPTY, ops) == AddAll(kept, ps + [p]);
      case Backfill(ssrcs) =>
        PickedIsShorter(Order(s), ssrcs, false);
        assert Run(EMPTY, ops) == AddAll(Picked(Order(s), ssrcs, false), []);
    }
  }

  /** The first 50 packets after a backfill that kept k, walked from slot 50 - k. */
  ghost function Refilled(kept: seq<Packet>, ps: seq<Packet>): (r: seq<Packet>)
    requires |kept| <= MAX_STASHED && |kept| + |ps| >= MAX_STASHED
    ensures |r| == MAX_STASHED
  {
    var room := MAX_STASHED - |kept|;
    Rotate(kept + ps[..room], room)
  }

  lemma {:induction false} StateUntilFull(kept: seq<Packet>, ps: seq<Packet>)
    requires |kept| + |ps| <= MAX_STASHED
    ensures AddAll(kept, ps) == State(kept + ps, if |ps| == MAX_STASHED then 0 else |ps|)
  {
    if ps == [] {
      assert kept + ps == kept;
    } else {
      StateUntilFull(kept, ps[..|ps| - 1]);
      assert kept + ps == (kept + ps[..|ps| - 1]) + [ps[|ps| - 1]];
    }
  }

  lemma {:induction false} OrderOnceFull(kept: seq<Packet>, ps: seq<Packet>)
    requires |kept| <= MAX_STASHED <= |kept| + |ps|
    ensures |AddAll(kept, ps).buffer| == MAX_STASHED
    ensures Order(AddAll(kept, ps)) == Newest(Refilled(kept, ps) + ps[MAX_STASHED - |kept|..])
  {
    if |kept| + |ps| == MAX_STASHED {
      StateUntilFull(kept, ps);
      FirstFill(kept, ps);
    } else {
      var before, p := ps[..|ps| - 1], ps[|ps| - 1];
      OrderOnceFull(kept, before);
      FullAdd(AddAll(kept, before), p);
      PushOut(kept, before, p);
      assert ps == before + [p];
    }
  }

  /** The exact order for any number of packets kept and added: right until the ring is full, then the
      refilled ring rotated by 50 - k, out of which each further packet pushes the head. */
  lemma OrderAfterBackfill(kept: seq<Packet>, ps: seq<Packet>)
    requires |kept| <= MAX_STASHED
    ensures Order(AddAll(kept, ps)) ==
              if |kept| + |ps| < MAX_STASHED then kept + ps
              else Newest(Refilled(kept, ps) + ps[MAX_STASHED - |kept|..])
  {
    if |kept| + |ps| < MAX_STASHED {
      StateUntilFull(kept, ps);
    } else {
      OrderOnceFull(kept, ps);
    }
  }

  lemma FirstFill(kept: seq<Packet>, ps: seq<Packet>)
    requires |kept| + |ps| == MAX_STASHED
    ensures Order(State(kept + ps, if |ps| == MAX_STASHED then 0 else |ps|)) ==
              Newest(Refilled(kept, ps) + ps[MAX_STASHED - |kept|..])
  {
    var ring := kept + ps;
    assert ps[..|ps|] == ps && ps[|ps|..] == [];
    RotateZero(ring);
    assert Refilled(kept, ps) == Rotate(ring, |ps|);
    assert Rotate(ring, |ps|) + [] == Rotate(ring, |ps|);
  }

  lemma PushOut(kept: seq<Packet>, before: seq<Packet>, p: Packet)
    requires |kept| <= MAX_STASHED && |kept| + |before| >= MAX_STASHED
    ensures var room, ps := MAX_STASHED - |kept|, before + [p];
      Newest(Refilled(kept, ps) + ps[room..]) == Newest(Refilled(kept, before) + before[room..])[1..] + [p]
  {
    var room, ps := MAX_STASHED - |kept|, before + [p];
    assert ps[..room] == before[..room];
    NewestAppend(Refilled(kept, before) + before[room..], p);
    assert Refilled(kept, ps) + ps[room..] == (Refilled(kept, before) + before[room..]) + [p];
  }

  lemma NewestAppend(h: seq<Packet>, p: Packet)
    requires |h| >= MAX_STASHED
    ensures Newest(h + [p]) == Newest(h)[1..] + [p]
  {
  }

  /** After a backfill that kept k of 50, the buffer holds the newest 50 oldest first exactly until it is
      full again, and from the time every slot has been overwritten once more. */
  lemma OrderIsRightExactlyWhen(kept: seq<Packet>, ps: seq<Packet>)
    requires |kept| <= MAX_STASHED && NoDuplicates(kept + ps)
    ensures Order(AddAll(kept, ps)) == Newest(kept + ps) <==>
              |kept| == 0 || |kept| == MAX_STASHED || |kept| + |ps| < MAX_STASHED || |kept| + |ps| >= 2 * MAX_STASHED
  {
    OrderAfterBackfill(kept, ps);
    if |kept| + |ps| >= MAX_STASHED {
      RefilledExactlyWhen(kept, ps);
    }
  }

  lemma RefilledExactlyWhen(kept: seq<Packet>, ps: seq<Packet>)
    requires |kept| <= MAX_STASHED <= |kept| + |ps| && NoDuplicates(kept + ps)
    ensures Newest(Refilled(kept, ps) + ps[MAX_STASHED - |kept|..]) == Newest(kept + ps) <==>
              |kept| == 0 || |kept| == MAX_STASHED || |kept| + |ps| >= 2 * MAX_STASHED
  {
    var room := MAX_STASHED - |kept|;
    var first, rest := kept + ps[..room], ps[room..];
    assert kept + ps == first + rest;
    RotatedExactlyWhen(first, room, rest);
  }

  /** A full ring rotated by `room` and pushed through by `rest` is straight exactly when the rotation is
      none, or has been pushed out. */
  lemma RotatedExactlyWhen(first: seq<Packet>, room: nat, rest: seq<Packet>)
    requires |first| == MAX_STASHED && room <= MAX_STASHED && NoDuplicates(first + rest)
    ensures Newest(Rotate(first, room) + rest) == Newest(first + rest) <==>
              room == 0 || room == MAX_STASHED || |rest| >= MAX_STASHED
  {
    if |rest| >= MAX_STASHED {
      NewestOfLongTail(first, rest);
      NewestOfLongTail(Rotate(first, room), rest);
    } else if 0 < room < MAX_STASHED {
      RotatedStaysWrong(first, room, rest);
    } else {
      RotateZero(first);
    }
  }

  lemma NewestOfLongTail(h: seq<Packet>, tail: seq<Packet>)
    requires |tail| >= MAX_STASHED
    ensures Newest(h + tail) == tail[|tail| - MAX_STASHED..]
  {
  }

  /** Its last packet tells a rotated ring from a straight one until that packet is pushed out. */
  lemma RotatedStaysWrong(first: seq<Packet>, room: nat, rest: seq<Packet>)
    requires |first| == MAX_STASHED && 0 < room < MAX_STASHED && |rest| < MAX_STASHED
    requires NoDuplicates(first + rest)
    ensures Newest(Rotate(first, room) + rest) != Newest(first + rest)
  {
    var at := MAX_STASHED - 1 - |rest|;
    NewestAt(Rotate(first, room), rest, at);
    NewestAt(first, rest, at);
    RotateAt(first, room, MAX_STASHED - 1);
    assert (first + rest)[room - 1] == first[room - 1] && (first + rest)[MAX_STASHED - 1] == first[MAX_STASHED - 1];
  }

  lemma NewestAt(h: seq<Packet>, rest: seq<Packet>, at: nat)
    requires |h| == MAX_STASHED && |rest| < MAX_STASHED && at == MAX_STASHED - 1 - |rest|
    ensures |Newest(h + rest)| == MAX_STASHED && Newest(h + rest)[at] == h[MAX_STASHED - 1]
  {
  }

  /** The packet that the first add to the refilled ring drops: number 50 - k, not the oldest. */
  lemma RefilledRingDropsTheWrongPacket(kept: seq<Packet>, ps: seq<Packet>, p: Packet)
    requires 0 < |kept| < MAX_STASHED && |kept| + |ps| == MAX_STASHED
    ensures AddAll(kept, ps).buffer == kept + ps
    ensures AddAll(kept, ps + [p]).buffer == (kept + ps)[MAX_STASHED - |kept| := p]
  {
    StateUntilFull(kept, ps);
    assert (ps + [p])[..|ps|] == ps;
  }
}
