/** All SRTP transports of a process and the libsrtp use count they share. */
module SrtpUsage {
  import opened Sequences
  import opened Srtp

  /** The sessions of each transport. */
  ghost function Held(transports: seq<SrtpTransport>): (r: seq<set<SrtpSession?>>)
    reads transports
    ensures |r| == |transports|
    ensures forall i :: 0 <= i < |r| ==> r[i] == transports[i].Sessions()
  {
    seq(|transports|, i requires 0 <= i < |transports| reads transports => transports[i].Sessions())
  }

  /** `sessions` holds every session of the transports. */
  ghost predicate Covers(transports: seq<SrtpTransport>, sessions: set<SrtpSession?>)
    reads transports
  {
    forall i :: 0 <= i < |transports| ==> transports[i].Sessions() <= sessions
  }

  /** The live sessions of each transport. */
  ghost function LiveCounts(transports: seq<SrtpTransport>, sessions: set<SrtpSession?>): (r: seq<int>)
    requires Covers(transports, sessions)
    reads transports, sessions
    ensures |r| == |transports|
    ensures forall i :: 0 <= i < |r| ==> r[i] == transports[i].LiveSessions()
  {
    seq(|transports|, i requires 0 <= i < |transports| && transports[i].Sessions() <= sessions
                        reads transports, sessions => transports[i].LiveSessions())
  }

  ghost function Sum(live: seq<int>): int {
    if live == [] then 0 else Sum(live[..|live| - 1]) + live[|live| - 1]
  }

  lemma {:induction false} SumOfUpdate(live: seq<int>, t: nat, n: int)
    requires t < |live|
    ensures Sum(live[t := n]) == Sum(live) - live[t] + n
  {
    var k := |live| - 1;
    if t < k {
      SumOfUpdate(live[..k], t, n);
      assert live[t := n][..k] == live[..k][t := n];
    } else {
      assert live[t := n][..k] == live[..k];
    }
  }

  lemma {:induction false} SumWithout(live: seq<int>, t: nat)
    requires t < |live|
    ensures Sum(Without(live, t)) == Sum(live) - live[t]
  {
    var k := |live| - 1;
    var rest := Without(live, t);
    if t < k {
      SumWithout(live[..k], t);
      assert rest[..k - 1] == Without(live[..k], t);
      assert rest[k - 1] == live[k];
    } else {
      assert rest == live[..k];
    }
  }

  lemma {:induction false} SumIsAtLeast(live: seq<int>, t: nat)
    requires forall i :: 0 <= i < |live| ==> live[i] >= 0
    ensures Sum(live) >= 0
    ensures t < |live| ==> Sum(live) >= live[t]
  {
    if live != [] {
      SumIsAtLeast(live[..|live| - 1], t);
    }
  }

  ghost predicate PairwiseDisjoint(held: seq<set<SrtpSession?>>) {
    forall i, j :: 0 <= i < j < |held| ==> held[i] !! held[j]
  }

  /** Sessions that were nobody's keep the sets disjoint. */
  lemma UpdateKeepsDisjoint(held: seq<set<SrtpSession?>>, sessions: set<SrtpSession?>, k: nat, s: set<SrtpSession?>)
    requires k < |held| && PairwiseDisjoint(held) && forall i :: 0 <= i < |held| ==> held[i] <= sessions
    requires s * sessions <= held[k]
    ensures PairwiseDisjoint(held[k := s])
  {
    forall i | 0 <= i < |held| && i != k ensures held[i] !! s {
      assert held[if i < k then i else k] !! held[if i < k then k else i];
      assert held[i] * s <= held[i] * (s * sessions);
    }
  }

  ghost predicate Sound(lib: LibSrtp, t: SrtpTransport)
    reads t, t.Sessions()
  {
    t.lib == lib && t.Distinct() && t.Paired()
  }

  /** Every transport is sound, and no two share a session. */
  ghost predicate Separate(lib: LibSrtp, transports: seq<SrtpTransport>, sessions: set<SrtpSession?>)
    reads transports, sessions
  {
    && Covers(transports, sessions)
    && (forall i :: 0 <= i < |transports| ==> Sound(lib, transports[i]))
    && NoDuplicates(transports) && PairwiseDisjoint(Held(transports))
  }

  /** Moreover the count is the number of live sessions over all transports plus the prohibitions. */
  ghost predicate Accounted(lib: LibSrtp, transports: seq<SrtpTransport>, sessions: set<SrtpSession?>, prohibitions: nat)
    reads lib, transports, sessions
  {
    && Separate(lib, transports, sessions)
    && lib.usageCount == Sum(LiveCounts(transports, sessions)) + prohibitions
  }

  /** Then each transport is valid by itself, whatever the others do. */
  lemma EachIsValid(lib: LibSrtp, transports: seq<SrtpTransport>, sessions: set<SrtpSession?>, prohibitions: nat, k: nat)
    requires Accounted(lib, transports, sessions, prohibitions) && k < |transports|
    ensures transports[k].Valid()
  {
    SumIsAtLeast(LiveCounts(transports, sessions), k);
  }

  /** Only entry `k` of the live counts differs. */
  ghost predicate DiffersAt(before: seq<int>, after: seq<int>, k: nat) {
    |before| == |after| && forall i :: 0 <= i < |before| && i != k ==> before[i] == after[i]
  }

  lemma SumDiffersBy(before: seq<int>, after: seq<int>, k: nat)
    requires DiffersAt(before, after, k) && k < |before|
    ensures Sum(after) - after[k] == Sum(before) - before[k]
  {
    assert after == before[k := after[k]];
    SumOfUpdate(before, k, after[k]);
  }

  /** One transport has changed, with no session of another's, and the count with it: the accounts are kept. */
  lemma OneChanged(lib: LibSrtp, transports: seq<SrtpTransport>, sessions: set<SrtpSession?>, prohibitions: nat,
                   k: nat, heldBefore: seq<set<SrtpSession?>>, liveBefore: seq<int>, countBefore: int)
    requires k < |transports| == |heldBefore| == |liveBefore| && NoDuplicates(transports)
    requires PairwiseDisjoint(heldBefore) && forall i :: 0 <= i < |heldBefore| ==> heldBefore[i] <= sessions
    requires forall i :: 0 <= i < |transports| ==> Sound(lib, transports[i])
    requires forall i :: 0 <= i < |transports| && i != k ==>
               transports[i].Sessions() == heldBefore[i] && transports[i].LiveSessions() == liveBefore[i]
    requires transports[k].Sessions() * sessions <= heldBefore[k]
    requires countBefore == Sum(liveBefore) + prohibitions
    requires lib.usageCount - transports[k].LiveSessions() == countBefore - liveBefore[k]
    ensures Accounted(lib, transports, sessions + transports[k].Sessions(), prohibitions)
  {
    var sessions' := sessions + transports[k].Sessions();
    assert Held(transports) == heldBefore[k := transports[k].Sessions()];
    UpdateKeepsDisjoint(heldBefore, sessions, k, transports[k].Sessions());
    forall i | 0 <= i < |transports| ensures transports[i].Sessions() <= sessions' {
      if i != k {
        assert heldBefore[i] <= sessions;
      }
    }
    SumDiffersBy(liveBefore, LiveCounts(transports, sessions'), k);
  }

  /* ---- what a process can do to its transports ---- */

  /** A call on a transport. */
  datatype Call =
    | SetRtpParams(send: CryptoParams, recv: CryptoParams, answers: Answers)
    | SetRtcpParams(send: CryptoParams, recv: CryptoParams, answers: Answers)
    | ResetParams

  method Apply(t: SrtpTransport, call: Call)
    requires t.Valid()
    modifies t, t.lib, t.Sessions()
    ensures t.Valid() && t.lib.usageCount - t.LiveSessions() == old(t.lib.usageCount - t.LiveSessions())
    ensures forall s :: s in t.Sessions() ==> s in old(t.Sessions()) || fresh(s)
    ensures call.ResetParams? ==> t.Empty()
  {
    match call {
      case SetRtpParams(send, recv, a) =>
        var _ := t.SetRtpParams(send, recv, a);
      case SetRtcpParams(send, recv, a) =>
        var _ := t.SetRtcpParams(send, recv, a);
      case ResetParams =>
        t.ResetParams();
    }
  }

  /** Whatever is called on one transport, the accounts are kept, and with them the validity of the others. */
  method ApplyToOne(lib: LibSrtp, transports: seq<SrtpTransport>, k: nat, call: Call,
                    ghost sessions: set<SrtpSession?>, ghost prohibitions: nat)
    returns (ghost sessions': set<SrtpSession?>)
    requires k < |transports| && Accounted(lib, transports, sessions, prohibitions)
    modifies transports[k], lib, transports[k].Sessions()
    ensures Accounted(lib, transports, sessions', prohibitions)
    ensures sessions <= sessions' && forall s :: s in sessions' ==> s in sessions || fresh(s)
    ensures call.ResetParams? ==> transports[k].Empty()
  {
    EachIsValid(lib, transports, sessions, prohibitions, k);
    ghost var liveBefore, countBefore := LiveCounts(transports, sessions), lib.usageCount;
    ghost var held := Held(transports);
    Apply(transports[k], call);
    forall i | 0 <= i < |transports| && i != k
      ensures Sound(lib, transports[i]) && transports[i].Sessions() == held[i]
      ensures transports[i].LiveSessions() == liveBefore[i]
    {
      assert transports[i] != transports[k] && held[if i < k then i else k] !! held[if i < k then k else i];
    }
    OneChanged(lib, transports, sessions, prohibitions, k, held, liveBefore, countBefore);
    sessions' := sessions + transports[k].Sessions();
  }

  /** A new transport has no sessions. */
  method Create(lib: LibSrtp, transports: seq<SrtpTransport>, lengths: CipherKeyLengths,
                ghost sessions: set<SrtpSession?>, ghost prohibitions: nat)
    returns (t: SrtpTransport)
    requires Accounted(lib, transports, sessions, prohibitions)
    ensures fresh(t) && Accounted(lib, transports + [t], sessions, prohibitions)
  {
    SumIsAtLeast(LiveCounts(transports, sessions), 0);
    t := new SrtpTransport(lib, lengths);
    EmptyMayCome(lib, transports, t, sessions, prohibitions);
  }

  lemma EmptyMayCome(lib: LibSrtp, transports: seq<SrtpTransport>, t: SrtpTransport, sessions: set<SrtpSession?>,
                     prohibitions: nat)
    requires Accounted(lib, transports, sessions, prohibitions)
    requires t !in transports && t.lib == lib && t.Empty()
    ensures Accounted(lib, transports + [t], sessions, prohibitions)
  {
    var all, n := transports + [t], |transports|;
    assert forall i :: 0 <= i < n ==> all[i] == transports[i];
    forall i | 0 <= i <= n ensures Sound(lib, all[i]) && all[i].Sessions() <= sessions {
      if i < n {
        assert Sound(lib, transports[i]);
      }
    }
    assert t.Sessions() == {};
    assert Held(all) == Held(transports) + [{}];
    assert LiveCounts(all, sessions)[..n] == LiveCounts(transports, sessions);
  }

  /** A transport is reset before it goes. */
  method Delete(lib: LibSrtp, transports: seq<SrtpTransport>, k: nat,
                ghost sessions: set<SrtpSession?>, ghost prohibitions: nat)
    returns (ghost sessions': set<SrtpSession?>)
    requires k < |transports| && Accounted(lib, transports, sessions, prohibitions)
    modifies transports[k], lib, transports[k].Sessions()
    ensures Accounted(lib, Without(transports, k), sessions', prohibitions)
    ensures sessions <= sessions' && forall s :: s in sessions' ==> s in sessions || fresh(s)
  {
    sessions' := ApplyToOne(lib, transports, k, ResetParams, sessions, prohibitions);
    EmptyMayGo(lib, transports, sessions', prohibitions, k);
  }

  lemma SeparateWithout(lib: LibSrtp, transports: seq<SrtpTransport>, sessions: set<SrtpSession?>, k: nat)
    requires k < |transports| && Separate(lib, transports, sessions)
    ensures Separate(lib, Without(transports, k), sessions)
  {
    var rest := Without(transports, k);
    forall i | 0 <= i < |rest| ensures Sound(lib, rest[i]) && rest[i].Sessions() <= sessions {
      assert rest[i] == transports[if i < k then i else i + 1];
    }
    assert Held(rest) == Without(Held(transports), k);
  }

  lemma LiveCountsWithout(transports: seq<SrtpTransport>, sessions: set<SrtpSession?>, k: nat)
    requires k < |transports| && Covers(transports, sessions) && Covers(Without(transports, k), sessions)
    ensures LiveCounts(Without(transports, k), sessions) == Without(LiveCounts(transports, sessions), k)
  {
    forall i | 0 <= i < |transports| - 1
      ensures LiveCounts(Without(transports, k), sessions)[i] == Without(LiveCounts(transports, sessions), k)[i]
    {
      LiveCountWithout(transports, sessions, k, i);
    }
  }

  lemma LiveCountWithout(transports: seq<SrtpTransport>, sessions: set<SrtpSession?>, k: nat, i: nat)
    requires k < |transports| && Covers(transports, sessions) && Covers(Without(transports, k), sessions)
    requires i < |transports| - 1
    ensures LiveCounts(Without(transports, k), sessions)[i] == Without(LiveCounts(transports, sessions), k)[i]
  {
    var j := if i < k then i else i + 1;
    assert Without(transports, k)[i] == transports[j];
    assert Without(LiveCounts(transports, sessions), k)[i] == LiveCounts(transports, sessions)[j];
  }

  lemma EmptyMayGo(lib: LibSrtp, transports: seq<SrtpTransport>, sessions: set<SrtpSession?>, prohibitions: nat, k: nat)
    requires k < |transports| && Accounted(lib, transports, sessions, prohibitions) && transports[k].Empty()
    ensures Accounted(lib, Without(transports, k), sessions, prohibitions)
  {
    var live := LiveCounts(transports, sessions);
    SeparateWithout(lib, transports, sessions, k);
    SumWithout(live, k);
    LiveCountsWithout(transports, sessions, k);
  }

  method Prohibit(lib: LibSrtp, transports: seq<SrtpTransport>, ghost sessions: set<SrtpSession?>,
                  ghost prohibitions: nat)
    requires Accounted(lib, transports, sessions, prohibitions)
    modifies lib
    ensures Accounted(lib, transports, sessions, prohibitions + 1)
  {
    lib.ProhibitInitialization();
  }

  /* ---- every run ---- */

  /** A step on a transport that does not exist is no step. */
  datatype Step =
    | CreateStep(lengths: CipherKeyLengths)
    | CallStep(transport: nat, call: Call)
    | DeleteStep(transport: nat)
    | ProhibitStep

  ghost function Prohibitions(steps: seq<Step>): nat {
    if steps == [] then 0
    else Prohibitions(steps[..|steps| - 1]) + if steps[|steps| - 1].ProhibitStep? then 1 else 0
  }

  method Perform(lib: LibSrtp, transports: seq<SrtpTransport>, step: Step,
                 ghost sessions: set<SrtpSession?>, ghost prohibitions: nat)
    returns (transports': seq<SrtpTransport>, ghost sessions': set<SrtpSession?>)
    requires Accounted(lib, transports, sessions, prohibitions)
    modifies lib, transports, sessions
    ensures Accounted(lib, transports', sessions', prohibitions + if step.ProhibitStep? then 1 else 0)
    ensures forall t :: t in transports' ==> t in transports || fresh(t)
    ensures forall s :: s in sessions' ==> s in sessions || fresh(s)
  {
    transports', sessions' := transports, sessions;
    match step {
      case CreateStep(lengths) =>
        var t := Create(lib, transports, lengths, sessions, prohibitions);
        transports' := transports + [t];
      case CallStep(k, call) =>
        if k < |transports| {
          sessions' := ApplyToOne(lib, transports, k, call, sessions, prohibitions);
        }
      case DeleteStep(k) =>
        if k < |transports| {
          sessions' := Delete(lib, transports, k, sessions, prohibitions);
          transports' := Without(transports, k);
        }
      case ProhibitStep =>
        Prohibit(lib, transports, sessions, prohibitions);
    }
  }

  /** After any run from the start of the process the count is the number of live sessions over all the
      transports there are, plus the prohibitions; and every transport is valid. */
  method RunProcess(steps: seq<Step>)
    returns (lib: LibSrtp, transports: seq<SrtpTransport>, ghost sessions: set<SrtpSession?>)
    ensures Accounted(lib, transports, sessions, Prohibitions(steps))
    ensures forall i :: 0 <= i < |transports| ==> transports[i].Valid()
  {
    lib := new LibSrtp();
    transports, sessions := [], {};
    for i := 0 to |steps|
      invariant fresh(lib) && Accounted(lib, transports, sessions, Prohibitions(steps[..i]))
      invariant forall t :: t in transports ==> fresh(t)
      invariant forall s :: s in sessions ==> s == null || fresh(s)
    {
      assert steps[..i + 1][..i] == steps[..i];
      transports, sessions := Perform(lib, transports, steps[i], sessions, Prohibitions(steps[..i]));
    }
    assert steps[..|steps|] == steps;
    forall i | 0 <= i < |transports| ensures transports[i].Valid() {
      EachIsValid(lib, transports, sessions, Prohibitions(steps), i);
    }
  }
}
