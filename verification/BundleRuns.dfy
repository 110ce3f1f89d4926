/** Every run of a BundleManager: of the group contents as values, and of the manager on the heap. */
module BundleRuns {
  import opened Sequences
  import opened Sdp
  import opened Bundle

  /** A group of a session description. */
  datatype GroupLine = GroupLine(semantics: string, contentNames: Names)

  ghost function BundleNames(description: seq<GroupLine>): seq<Names> {
    if description == [] then [] else
      var rest, g := BundleNames(description[..|description| - 1]), description[|description| - 1];
      if g.semantics == GROUP_TYPE_BUNDLE then rest + [g.contentNames] else rest
  }

  /** The groups of other semantics are passed over, and the order is kept. */
  lemma {:induction false} BundleNamesKeepOrder(description: seq<GroupLine>, k: nat)
    requires k < |description| && description[k].semantics == "BUNDLE"
    ensures |BundleNames(description[..k])| < |BundleNames(description)|
    ensures BundleNames(description)[|BundleNames(description[..k])|] == description[k].contentNames
    decreases |description|
  {
    var n := |description| - 1;
    if k < n {
      assert description[..n][..k] == description[..k];
      BundleNamesKeepOrder(description[..n], k);
    }
  }

  lemma {:induction false} BundleNamesAreListed(description: seq<GroupLine>, i: nat)
    requires i < |BundleNames(description)|
    ensures exists k :: 0 <= k < |description| && description[k].semantics == "BUNDLE" &&
                        BundleNames(description)[i] == description[k].contentNames && i == |BundleNames(description[..k])|
  {
    var n := |description| - 1;
    if i < |BundleNames(description[..n])| {
      BundleNamesAreListed(description[..n], i);
      var k :| 0 <= k < n && description[..n][k].semantics == "BUNDLE" &&
               BundleNames(description[..n])[i] == description[..n][k].contentNames &&
               i == |BundleNames(description[..n][..k])|;
      assert description[..n][..k] == description[..k];
      assert description[k].semantics == "BUNDLE";
    } else {
      assert description[n].semantics == "BUNDLE";
    }
  }

  /* ---- runs over the groups as values ---- */

  datatype State = State(policy: BundlePolicy, groups: seq<Names>, stable: seq<Names>)

  /** The calls on a manager; a group is named by its position. */
  datatype Op =
    | Update(description: seq<GroupLine>, sdpType: SdpType)
    | DeleteMid(group: nat, mid: string)
    | DeleteGroup(group: nat)
    | Commit
    | Rollback

  ghost predicate Replaces(s: State, sdpType: SdpType) {
    s.policy == MaxBundle || sdpType == Answer
  }

  /** What a caller owes: disjoint groups in a description, offers that keep groups disjoint, listed mids. */
  ghost predicate Enabled(s: State, op: Op) {
    match op
    case Update(description, sdpType) =>
      var offered := BundleNames(description);
      if Replaces(s, sdpType) then WellFormed(offered)
      else sdpType == Offer ==> WellFormed(offered) && ReplacementsAreDisjoint(s.groups, offered)
    case DeleteMid(i, mid) => i < |s.groups| && mid in s.groups[i]
    case DeleteGroup(i) => i < |s.groups|
    case _ => true
  }

  ghost function Step(s: State, op: Op): State
    requires Enabled(s, op)
  {
    match op
    case Update(description, sdpType) =>
      if Replaces(s, sdpType) then s.(groups := BundleNames(description))
      else if sdpType == Offer then s.(groups := AfterOffer(s.groups, BundleNames(description)))
      else s
    case DeleteMid(i, mid) => s.(groups := WithoutMid(s.groups, i, mid))
    case DeleteGroup(i) => s.(groups := Without(s.groups, i))
    case Commit => s.(stable := s.groups)
    case Rollback => s.(groups := s.stable)
  }

  ghost predicate EnabledRun(s: State, ops: seq<Op>)
    decreases |ops|
  {
    ops == [] || (Enabled(s, ops[0]) && EnabledRun(Step(s, ops[0]), ops[1..]))
  }

  ghost function Run(s: State, ops: seq<Op>): State
    requires EnabledRun(s, ops)
    decreases |ops|
  {
    if ops == [] then s else Run(Step(s, ops[0]), ops[1..])
  }

  lemma StepKeepsWellFormed(s: State, op: Op)
    requires WellFormed(s.groups) && WellFormed(s.stable) && Enabled(s, op)
    ensures WellFormed(Step(s, op).groups) && WellFormed(Step(s, op).stable)
  {
    match op
    case Update(description, sdpType) =>
      if !Replaces(s, sdpType) && sdpType == Offer {
        OfferKeepsWellFormed(s.groups, BundleNames(description));
      }
    case DeleteMid(i, mid) => WithoutMidKeepsWellFormed(s.groups, i, mid);
    case DeleteGroup(i) => WithoutGroupKeepsWellFormed(s.groups, i);
    case _ =>
  }

  /** No reachable state lists a mid twice, and a rollback returns to the last commit. */
  lemma {:induction false} RunIsSafe(s: State, ops: seq<Op>)
    requires WellFormed(s.groups) && WellFormed(s.stable) && EnabledRun(s, ops)
    ensures WellFormed(Run(s, ops).groups) && WellFormed(Run(s, ops).stable)
    ensures Commit !in ops ==> Step(Run(s, ops), Rollback).groups == s.stable
    decreases |ops|
  {
    if ops != [] {
      StepKeepsWellFormed(s, ops[0]);
      RunIsSafe(Step(s, ops[0]), ops[1..]);
    }
  }

  /* ---- runs of the manager ---- */

  /** The groups of a description as objects. */
  method MakeDescription(lines: seq<GroupLine>) returns (description: seq<ContentGroup>)
    ensures forall i :: 0 <= i < |description| ==> fresh(description[i])
    ensures Contents(BundleManager.BundleOnly(description)) == BundleNames(lines)
  {
    description := [];
    for i := 0 to |lines|
      invariant |description| == i && forall k :: 0 <= k < i ==> fresh(description[k])
      invariant IsDescription(description, lines[..i])
    {
      var group := new ContentGroup(lines[i].semantics, lines[i].contentNames);
      description := description + [group];
    }
    assert lines[..|lines|] == lines;
    DescriptionContents(description, lines);
  }

  ghost predicate IsDescription(description: seq<ContentGroup>, lines: seq<GroupLine>)
    reads description
  {
    && |description| == |lines|
    && forall i :: 0 <= i < |lines| ==>
         lines[i] == GroupLine(description[i].semantics, description[i].contentNames)
  }

  lemma {:induction false} DescriptionContents(description: seq<ContentGroup>, lines: seq<GroupLine>)
    requires IsDescription(description, lines)
    ensures Contents(BundleManager.BundleOnly(description)) == BundleNames(lines)
  {
    if lines != [] {
      DescriptionContents(description[..|lines| - 1], lines[..|lines| - 1]);
    }
  }

  ghost function View(manager: BundleManager): State
    reads manager, manager.bundleGroups, manager.stableBundleGroups
  {
    State(manager.bundlePolicy, manager.Groups(), manager.Stable())
  }

  ghost predicate Sound(manager: BundleManager)
    reads manager, manager.bundleGroups, manager.stableBundleGroups
  {
    && manager.Valid() && manager.Indexed()
    && WellFormed(manager.Groups()) && WellFormed(manager.Stable())
  }

  /** A mid is in the index exactly when a group lists it, and then with that group. */
  ghost predicate IndexSaysWhatGroupsSay(manager: BundleManager)
    reads manager, manager.bundleGroups
  {
    && (forall i, mid :: 0 <= i < |manager.bundleGroups| ==>
         (mid in manager.bundleGroups[i].contentNames <==>
          mid in manager.establishedByMid && manager.establishedByMid[mid] == manager.bundleGroups[i]))
    && forall mid :: mid in manager.establishedByMid ==> manager.establishedByMid[mid] in manager.bundleGroups
  }

  lemma SoundIndex(manager: BundleManager)
    requires Sound(manager)
    ensures IndexSaysWhatGroupsSay(manager)
  {
    forall i, mid | 0 <= i < |manager.bundleGroups|
      ensures mid in manager.bundleGroups[i].contentNames <==>
              mid in manager.establishedByMid && manager.establishedByMid[mid] == manager.bundleGroups[i]
    {
      WellFormedListing(manager.Groups(), mid, i);
      assert MidMatches(manager.establishedByMid, manager.bundleGroups, manager.Groups(), mid);
    }
  }

  method Perform(manager: BundleManager, op: Op)
    requires Sound(manager) && Enabled(View(manager), op)
    modifies manager, manager.bundleGroups
    ensures Sound(manager) && View(manager) == Step(old(View(manager)), op)
    ensures forall k :: 0 <= k < |manager.bundleGroups| ==>
              manager.bundleGroups[k] in old(manager.bundleGroups) || fresh(manager.bundleGroups[k])
  {
    StepKeepsWellFormed(View(manager), op);
    match op {
      case Update(lines, sdpType) =>
        var description := MakeDescription(lines);
        manager.Update(description, sdpType);
      case DeleteMid(i, mid) =>
        manager.DeleteGroupFindsEveryMid(i);
        ghost var k := manager.DeleteMid(manager.bundleGroups[i], mid);
      case DeleteGroup(i) =>
        manager.DeleteGroupFindsEveryMid(i);
        ghost var k := manager.DeleteGroup(manager.bundleGroups[i]);
      case Commit =>
        manager.Commit();
      case Rollback =>
        manager.Rollback();
    }
  }

  /** Any run of a new manager: it holds what the run over values says, and index and groups say the same. */
  method RunManager(policy: BundlePolicy, ops: seq<Op>) returns (manager: BundleManager)
    requires EnabledRun(State(policy, [], []), ops)
    ensures fresh(manager) && Sound(manager) && IndexSaysWhatGroupsSay(manager)
    ensures View(manager) == Run(State(policy, [], []), ops)
  {
    manager := new BundleManager(policy);
    ghost var start := State(policy, [], []);
    assert ops[0..] == ops;
    for i := 0 to |ops|
      invariant fresh(manager) && forall k :: 0 <= k < |manager.bundleGroups| ==> fresh(manager.bundleGroups[k])
      invariant Sound(manager) && EnabledRun(View(manager), ops[i..])
      invariant Run(View(manager), ops[i..]) == Run(start, ops)
    {
      assert ops[i..][1..] == ops[i + 1..];
      Perform(manager, ops[i]);
    }
    SoundIndex(manager);
  }
}
