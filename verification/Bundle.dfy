/** BundleManager: BUNDLE groups, their stable copy, and the index from mid to group (RFC 8843). */
module Bundle {
  import opened Sequences
  import opened Sdp

  /** The mids of one group, in order. */
  type Names = seq<string>

  datatype BundlePolicy = Balanced | MaxBundle | MaxCompat

  const GROUP_TYPE_BUNDLE := "BUNDLE"

  /* ---- groups as values ---- */

  ghost predicate DisjointNames(a: Names, b: Names) {
    forall m :: m in a ==> m !in b
  }

  /** What RFC 8843 asks of a description: a mid is listed at most once. */
  ghost predicate WellFormed(groups: seq<Names>) {
    && (forall i :: 0 <= i < |groups| ==> NoDuplicates(groups[i]))
    && (forall i, j :: 0 <= i < |groups| && 0 <= j < |groups| && i != j ==> DisjointNames(groups[i], groups[j]))
  }

  ghost function Mids(names: Names): set<string> {
    set m | m in names
  }

  lemma MidsAppend(names: Names, k: nat)
    requires k < |names|
    ensures Mids(names[..k + 1]) == Mids(names[..k]) + {names[k]}
    ensures RemoveFirst(names[k..], names[k]) == names[k + 1..]
    ensures NoDuplicates(names) ==> names[k] !in Mids(names[..k])
  {
    assert names[..k + 1] == names[..k] + [names[k]];
    assert names[k..][1..] == names[k + 1..];
  }

  /** Position of the last group that lists `mid`, -1 if none does. */
  ghost function LastListing(groups: seq<Names>, mid: string): (r: int)
    ensures -1 <= r < |groups|
    ensures r >= 0 ==> mid in groups[r]
    ensures forall i :: r < i < |groups| ==> mid !in groups[i]
  {
    if groups == [] then -1
    else if mid in groups[|groups| - 1] then |groups| - 1
    else LastListing(groups[..|groups| - 1], mid)
  }

  /** The group an offered group claims: that of its first mid already in a group, -1 if there is none. */
  ghost function Target(groups: seq<Names>, offered: Names): (r: int)
    ensures -1 <= r < |groups|
  {
    if offered == [] then -1
    else if LastListing(groups, offered[0]) >= 0 then LastListing(groups, offered[0])
    else Target(groups, offered[1..])
  }

  /** The last offered group that claims group `i`, -1 if none does. */
  ghost function Claim(groups: seq<Names>, offered: seq<Names>, i: int): (r: int)
    ensures -1 <= r < |offered|
    ensures r >= 0 ==> Target(groups, offered[r]) == i
    ensures forall k :: r < k < |offered| ==> Target(groups, offered[k]) != i
  {
    if offered == [] then -1
    else if Target(groups, offered[|offered| - 1]) == i then |offered| - 1
    else Claim(groups, offered[..|offered| - 1], i)
  }

  /** One offered group overwrites the group it claims; claims are read off the groups before the offer. */
  ghost function OfferOne(groups: seq<Names>, merged: seq<Names>, offered: Names): (r: seq<Names>)
    requires |merged| == |groups|
    ensures |r| == |groups|
  {
    var t := Target(groups, offered);
    if t >= 0 then merged[t := offered] else merged
  }

  ghost function AfterOffer(groups: seq<Names>, offered: seq<Names>): (r: seq<Names>)
    ensures |r| == |groups|
  {
    if offered == [] then groups
    else OfferOne(groups, AfterOffer(groups, offered[..|offered| - 1]), offered[|offered| - 1])
  }

  /** A group ends up as the last offered group that claims it, or as it was. */
  lemma {:induction false} AfterOfferIsLastClaim(groups: seq<Names>, offered: seq<Names>, i: nat)
    requires i < |groups|
    ensures AfterOffer(groups, offered)[i] ==
              if Claim(groups, offered, i) >= 0 then offered[Claim(groups, offered, i)] else groups[i]
  {
    if offered != [] {
      AfterOfferIsLastClaim(groups, offered[..|offered| - 1], i);
    }
  }

  ghost function RemoveFirst(names: Names, mid: string): Names {
    if names == [] then []
    else if names[0] == mid then names[1..]
    else [names[0]] + RemoveFirst(names[1..], mid)
  }

  ghost function WithoutMid(groups: seq<Names>, i: int, mid: string): seq<Names>
    requires 0 <= i < |groups|
  {
    groups[i := RemoveFirst(groups[i], mid)]
  }

  lemma {:induction false} RemoveFirstKeepsOthers(names: Names, mid: string)
    ensures forall m :: m != mid ==> (m in RemoveFirst(names, mid) <==> m in names)
    ensures NoDuplicates(names) ==> NoDuplicates(RemoveFirst(names, mid)) && mid !in RemoveFirst(names, mid)
    ensures mid !in names ==> RemoveFirst(names, mid) == names
  {
    if names != [] {
      RemoveFirstKeepsOthers(names[1..], mid);
      assert names == [names[0]] + names[1..];
      if NoDuplicates(names) {
        assert names[0] !in names[1..];
      }
    }
  }

  lemma {:induction false} RemoveFirstAt(names: Names, mid: string, i: nat)
    requires i <= |names| && mid !in names[..i] && (i < |names| ==> names[i] == mid)
    ensures RemoveFirst(names, mid) == names[..i] + if i < |names| then names[i + 1..] else []
  {
    if i > 0 {
      assert names[0] in names[..i];
      assert forall m :: m in names[1..][..i - 1] ==> m in names[..i];
      RemoveFirstAt(names[1..], mid, i - 1);
    }
  }

  /** In well-formed groups the index and the groups say the same thing. */
  lemma WellFormedListing(groups: seq<Names>, mid: string, i: int)
    requires WellFormed(groups) && 0 <= i < |groups|
    ensures LastListing(groups, mid) == i <==> mid in groups[i]
  {
  }

  /** Two lists of groups with the same listings agree on the index. */
  lemma LastListingUnique(groups: seq<Names>, mid: string, r: int)
    requires -1 <= r < |groups|
    requires r >= 0 ==> mid in groups[r]
    requires forall i :: r < i < |groups| ==> mid !in groups[i]
    ensures LastListing(groups, mid) == r
  {
  }

  /** No group that the offer leaves alone lists a mid of a group that it puts in place. */
  ghost predicate ReplacementsAreDisjoint(groups: seq<Names>, offered: seq<Names>) {
    forall i, j | 0 <= i < |groups| && 0 <= j < |groups| ::
      Claim(groups, offered, i) >= 0 && Claim(groups, offered, j) < 0
      ==> DisjointNames(offered[Claim(groups, offered, i)], groups[j])
  }

  /** Exactly the offers that keep groups disjoint. */
  lemma OfferKeepsWellFormed(groups: seq<Names>, offered: seq<Names>)
    requires WellFormed(groups) && WellFormed(offered)
    ensures WellFormed(AfterOffer(groups, offered)) <==>
              ReplacementsAreDisjoint(groups, offered)
  {
    var after := AfterOffer(groups, offered);
    forall i | 0 <= i < |groups|
      ensures after[i] == if Claim(groups, offered, i) >= 0 then offered[Claim(groups, offered, i)] else groups[i]
    {
      AfterOfferIsLastClaim(groups, offered, i);
    }
    if WellFormed(after) {
      forall i, j | 0 <= i < |groups| && 0 <= j < |groups| &&
        Claim(groups, offered, i) >= 0 && Claim(groups, offered, j) < 0
        ensures DisjointNames(offered[Claim(groups, offered, i)], groups[j])
      {
        assert i != j;
        assert DisjointNames(after[i], after[j]);
      }
    }
    if ReplacementsAreDisjoint(groups, offered) {
      forall i, j | 0 <= i < |groups| && 0 <= j < |groups| && i != j ensures DisjointNames(after[i], after[j]) {
        ReplacedPairIsDisjoint(groups, offered, i, j);
      }
    }
  }

  lemma ReplacedPairIsDisjoint(groups: seq<Names>, offered: seq<Names>, i: nat, j: nat)
    requires WellFormed(groups) && WellFormed(offered) && ReplacementsAreDisjoint(groups, offered)
    requires i < |groups| && j < |groups| && i != j
    ensures DisjointNames(AfterOffer(groups, offered)[i], AfterOffer(groups, offered)[j])
  {
    AfterOfferIsLastClaim(groups, offered, i);
    AfterOfferIsLastClaim(groups, offered, j);
    var k, l := Claim(groups, offered, i), Claim(groups, offered, j);
    if k >= 0 && l >= 0 {
      assert DisjointNames(offered[k], offered[l]);
    } else if k >= 0 {
      assert DisjointNames(offered[k], groups[j]);
    } else if l >= 0 {
      assert DisjointNames(offered[l], groups[i]);
    } else {
      assert DisjointNames(groups[i], groups[j]);
    }
  }

  /** No offered group meets two existing ones: what RFC 8843, section 7.3.2 leaves to an offerer. */
  ghost predicate NoStraddle(groups: seq<Names>, offered: seq<Names>) {
    forall k, i, j :: 0 <= k < |offered| && 0 <= i < |groups| && 0 <= j < |groups| && i != j ==>
      DisjointNames(offered[k], groups[i]) || DisjointNames(offered[k], groups[j])
  }

  lemma {:induction false} TargetIsListed(groups: seq<Names>, offered: Names)
    ensures Target(groups, offered) >= 0 ==> !DisjointNames(offered, groups[Target(groups, offered)])
    ensures Target(groups, offered) < 0 <==> forall i :: 0 <= i < |groups| ==> DisjointNames(offered, groups[i])
  {
    if offered != [] {
      assert offered == [offered[0]] + offered[1..];
      TargetIsListed(groups, offered[1..]);
      var r := LastListing(groups, offered[0]);
      if r >= 0 {
        assert offered[0] in offered && offered[0] in groups[r];
      } else {
        forall i | 0 <= i < |groups| ensures offered[0] !in groups[i] {}
      }
    }
  }

  /** The first mid of an offered group that is known decides: the group claimed is the last one that lists it. */
  lemma {:induction false} FirstKnownMidDecides(groups: seq<Names>, offered: Names, k: nat, t: nat)
    requires k < |offered| && t < |groups| && offered[k] in groups[t]
    requires forall i :: t < i < |groups| ==> offered[k] !in groups[i]
    requires forall j, i :: 0 <= j < k && 0 <= i < |groups| ==> offered[j] !in groups[i]
    ensures Target(groups, offered) == t
  {
    if k == 0 {
      LastListingUnique(groups, offered[0], t);
    } else {
      assert LastListing(groups, offered[0]) == -1;
      FirstKnownMidDecides(groups, offered[1..], k - 1, t);
    }
  }

  lemma NoStraddleKeepsWellFormed(groups: seq<Names>, offered: seq<Names>)
    requires WellFormed(groups) && WellFormed(offered) && NoStraddle(groups, offered)
    ensures WellFormed(AfterOffer(groups, offered))
  {
    forall i, j | 0 <= i < |groups| && 0 <= j < |groups| &&
      Claim(groups, offered, i) >= 0 && Claim(groups, offered, j) < 0
      ensures DisjointNames(offered[Claim(groups, offered, i)], groups[j])
    {
      var k := Claim(groups, offered, i);
      TargetIsListed(groups, offered[k]);
      assert i != j;
    }
    OfferKeepsWellFormed(groups, offered);
  }

  /** An offer that straddles two groups makes them overlap. */
  lemma StraddlingOfferOverlaps()
    ensures WellFormed([["a"], ["b"]]) && WellFormed([["a", "b"]])
    ensures !WellFormed(AfterOffer([["a"], ["b"]], [["a", "b"]]))
  {
    var groups, offered: seq<Names> := [["a"], ["b"]], [["a", "b"]];
    LastListingUnique(groups, "a", 0);
    assert Target(groups, offered[0]) == 0;
    assert Claim(groups, offered, 0) == 0 && Claim(groups, offered, 1) == -1;
    var after := AfterOffer(groups, offered);
    AfterOfferIsLastClaim(groups, offered, 0);
    AfterOfferIsLastClaim(groups, offered, 1);
    assert "b" in after[0] && "b" in after[1];
    assert !DisjointNames(after[0], after[1]);
  }

  lemma WithoutMidKeepsWellFormed(groups: seq<Names>, i: int, mid: string)
    requires WellFormed(groups) && 0 <= i < |groups|
    ensures WellFormed(WithoutMid(groups, i, mid))
  {
    var after := WithoutMid(groups, i, mid);
    RemoveFirstKeepsOthers(groups[i], mid);
    forall a, b | 0 <= a < |after| && 0 <= b < |after| && a != b ensures DisjointNames(after[a], after[b]) {
      assert DisjointNames(groups[a], groups[b]);
      assert forall m :: m in after[a] ==> m in groups[a];
      assert forall m :: m in after[b] ==> m in groups[b];
    }
  }

  /** A mid taken out of the group that lists it is listed nowhere. */
  lemma NowhereElse(groups: seq<Names>, i: nat, mid: string)
    requires WellFormed(groups) && i < |groups| && mid in groups[i]
    ensures WellFormed(WithoutMid(groups, i, mid))
    ensures forall k :: 0 <= k < |groups| ==> mid !in WithoutMid(groups, i, mid)[k]
  {
    WithoutMidKeepsWellFormed(groups, i, mid);
    RemoveFirstKeepsOthers(groups[i], mid);
    assert forall k :: 0 <= k < |groups| && k != i ==> DisjointNames(groups[i], groups[k]);
  }

  lemma WithoutGroupKeepsWellFormed(groups: seq<Names>, i: int)
    requires WellFormed(groups) && 0 <= i < |groups|
    ensures WellFormed(Without(groups, i))
  {
  }

  /* ---- the manager ---- */

  class ContentGroup {
    var semantics: string
    var contentNames: Names

    constructor (semantics: string, contentNames: Names)
      ensures this.semantics == semantics && this.contentNames == contentNames
    {
      this.semantics, this.contentNames := semantics, contentNames;
    }

    constructor Copy(from: ContentGroup)
      ensures semantics == from.semantics && contentNames == from.contentNames
    {
      semantics, contentNames := from.semantics, from.contentNames;
    }

    method Assign(from: ContentGroup)
      modifies this
      ensures semantics == old(from.semantics) && contentNames == old(from.contentNames)
    {
      semantics, contentNames := from.semantics, from.contentNames;
    }

    method RemoveContentName(mid: string) returns (removed: bool)
      modifies this`contentNames
      ensures contentNames == RemoveFirst(old(contentNames), mid)
      ensures removed <==> mid in old(contentNames)
    {
      var i := 0;
      while i < |contentNames| && contentNames[i] != mid
        invariant i <= |contentNames| && mid !in contentNames[..i]
      {
        i := i + 1;
      }
      RemoveFirstAt(contentNames, mid, i);
      if i == |contentNames| {
        return false;
      }
      contentNames := contentNames[..i] + contentNames[i + 1..];
      return true;
    }
  }

  ghost function Contents(groups: seq<ContentGroup>): (r: seq<Names>)
    reads groups
    ensures |r| == |groups|
    ensures forall i :: 0 <= i < |groups| ==> r[i] == groups[i].contentNames
  {
    seq(|groups|, i requires 0 <= i < |groups| reads groups => groups[i].contentNames)
  }

  /** The two lists share no group object. */
  ghost predicate Apart(a: seq<ContentGroup>, b: seq<ContentGroup>) {
    forall i, j :: 0 <= i < |a| && 0 <= j < |b| ==> a[i] != b[j]
  }

  /** The index maps a mid to the last group that lists it, and no other mid. */
  ghost predicate IndexMatches(index: map<string, ContentGroup>, groups: seq<ContentGroup>, names: seq<Names>)
    requires |groups| == |names|
  {
    forall m :: MidMatches(index, groups, names, m)
  }

  ghost predicate MidMatches(index: map<string, ContentGroup>, groups: seq<ContentGroup>, names: seq<Names>, m: string)
    requires |groups| == |names|
  {
    && (m in index <==> LastListing(names, m) >= 0)
    && (m in index ==> index[m] == groups[LastListing(names, m)])
  }

  ghost function PointAll(index: map<string, ContentGroup>, names: Names, group: ContentGroup)
    : map<string, ContentGroup>
  {
    index + map m | m in names :: group
  }

  lemma PointAllAppend(index: map<string, ContentGroup>, names: Names, j: nat, group: ContentGroup)
    requires j < |names|
    ensures PointAll(index, names[..j + 1], group) == PointAll(index, names[..j], group)[names[j] := group]
  {
    assert names[..j + 1] == names[..j] + [names[j]];
  }

  /** Pointing the mids of the next group at it extends the index by that group. */
  lemma IndexGrows(index: map<string, ContentGroup>, groups: seq<ContentGroup>, names: seq<Names>, i: nat)
    requires |groups| == |names| && i < |names|
    requires IndexMatches(index, groups[..i], names[..i])
    ensures IndexMatches(PointAll(index, names[i], groups[i]), groups[..i + 1], names[..i + 1])
  {
    var index', groups', names' := PointAll(index, names[i], groups[i]), groups[..i + 1], names[..i + 1];
    assert names'[..i] == names[..i];
    forall m ensures MidMatches(index', groups', names', m) {
      assert MidMatches(index, groups[..i], names[..i], m);
    }
  }

  lemma IndexPointsInside(index: map<string, ContentGroup>, groups: seq<ContentGroup>, names: seq<Names>)
    requires |groups| == |names| && IndexMatches(index, groups, names)
    ensures forall m :: m in index ==> index[m] in groups
  {
    forall m | m in index ensures index[m] in groups {
      assert MidMatches(index, groups, names, m);
    }
  }

  /** Taking a mid out of a group and out of the index fits exactly when no group lists it any more. */
  lemma IndexShrinks(index: map<string, ContentGroup>, groups: seq<ContentGroup>, names: seq<Names>, i: nat,
                     mid: string)
    requires |groups| == |names| && i < |names| && IndexMatches(index, groups, names)
    ensures IndexMatches(index - {mid}, groups, WithoutMid(names, i, mid)) <==>
              forall k :: 0 <= k < |names| ==> mid !in WithoutMid(names, i, mid)[k]
  {
    var after := WithoutMid(names, i, mid);
    RemoveFirstKeepsOthers(names[i], mid);
    forall m | m != mid ensures MidMatches(index - {mid}, groups, after, m) {
      LastListingUnique(after, m, LastListing(names, m));
      assert MidMatches(index, groups, names, m);
    }
    assert MidMatches(index - {mid}, groups, after, mid) <==> LastListing(after, mid) < 0;
  }

  lemma ListingWithoutGroup(names: seq<Names>, i: nat, m: string)
    requires i < |names| && WellFormed(names)
    ensures LastListing(Without(names, i), m) ==
              var r := LastListing(names, m); if m in names[i] then -1 else if r > i then r - 1 else r
  {
    var r := LastListing(names, m);
    if m in names[i] {
      WellFormedListing(names, m, i);
    }
    LastListingUnique(Without(names, i), m, if m in names[i] then -1 else if r > i then r - 1 else r);
  }

  /** Taking a whole group away, with its mids, keeps the index right where groups are disjoint. */
  lemma IndexDropsGroup(index: map<string, ContentGroup>, groups: seq<ContentGroup>, names: seq<Names>, i: nat)
    requires |groups| == |names| && i < |names| && IndexMatches(index, groups, names) && WellFormed(names)
    ensures IndexMatches(index - Mids(names[i]), Without(groups, i), Without(names, i))
  {
    var index', groups', names' := index - Mids(names[i]), Without(groups, i), Without(names, i);
    forall m ensures MidMatches(index', groups', names', m) {
      assert MidMatches(index, groups, names, m);
      ListingWithoutGroup(names, i, m);
      WellFormedListing(names, m, i);
    }
  }

  lemma ContentsWithout(groups: seq<ContentGroup>, i: nat)
    requires i < |groups|
    ensures Contents(Without(groups, i)) == Without(Contents(groups), i)
  {
  }

  lemma StillApart(groups: seq<ContentGroup>, stable: seq<ContentGroup>, i: nat)
    requires i < |groups| && NoDuplicates(groups) && Apart(stable, groups)
    ensures NoDuplicates(Without(groups, i)) && Apart(stable, Without(groups, i))
  {
  }

  /** One erase of DeleteGroup: the group holds the rest of the list, the index has lost the first mids. */
  lemma EraseAdvances(names: seq<Names>, i: nat, midList: Names, k: nat, index: map<string, ContentGroup>)
    requires i < |names| && k < |midList|
    ensures WithoutMid(names[i := midList[k..]], i, midList[k]) == names[i := midList[k + 1..]]
    ensures index - Mids(midList[..k]) - {midList[k]} == index - Mids(midList[..k + 1])
  {
    MidsAppend(midList, k);
  }

  class BundleManager {
    const bundlePolicy: BundlePolicy
    var bundleGroups: seq<ContentGroup>
    var stableBundleGroups: seq<ContentGroup>
    var establishedByMid: map<string, ContentGroup>

    /** The manager owns every group it holds once; pointers in the index go to current groups. */
    ghost predicate Valid()
      reads this
    {
      && NoDuplicates(bundleGroups)
      && Apart(stableBundleGroups, bundleGroups)
      && (forall m :: m in establishedByMid ==> establishedByMid[m] in bundleGroups)
    }

    ghost function Groups(): seq<Names>
      reads this, bundleGroups
    {
      Contents(bundleGroups)
    }

    ghost function Stable(): seq<Names>
      reads this, stableBundleGroups
    {
      Contents(stableBundleGroups)
    }

    ghost predicate Indexed()
      reads this, bundleGroups
    {
      IndexMatches(establishedByMid, bundleGroups, Groups())
    }

    constructor (policy: BundlePolicy)
      ensures Valid() && Indexed() && Groups() == [] && Stable() == [] && bundlePolicy == policy
    {
      bundlePolicy := policy;
      bundleGroups, stableBundleGroups, establishedByMid := [], [], map[];
    }

    method IndexGroup(group: ContentGroup)
      modifies this`establishedByMid
      ensures establishedByMid == PointAll(old(establishedByMid), group.contentNames, group)
    {
      var names := group.contentNames;
      for j := 0 to |names|
        invariant establishedByMid == PointAll(old(establishedByMid), names[..j], group)
      {
        PointAllAppend(old(establishedByMid), names, j, group);
        establishedByMid := establishedByMid[names[j] := group];
      }
      assert names[..|names|] == names;
    }

    method RefreshEstablishedBundleGroupsByMid()
      requires NoDuplicates(bundleGroups)
      modifies this`establishedByMid
      ensures Indexed() && forall m :: m in establishedByMid ==> establishedByMid[m] in bundleGroups
    {
      establishedByMid := map[];
      ghost var c := Groups();
      for i := 0 to |bundleGroups|
        invariant IndexMatches(establishedByMid, bundleGroups[..i], c[..i])
      {
        IndexGrows(establishedByMid, bundleGroups, c, i);
        IndexGroup(bundleGroups[i]);
      }
      assert c[..|bundleGroups|] == c && bundleGroups[..|bundleGroups|] == bundleGroups;
      IndexPointsInside(establishedByMid, bundleGroups, c);
    }

    /** Deep copies of the groups of `from`. */
    static method CopyGroups(from: seq<ContentGroup>) returns (copies: seq<ContentGroup>)
      ensures |copies| == |from| && NoDuplicates(copies)
      ensures forall i :: 0 <= i < |copies| ==> fresh(copies[i])
      ensures Contents(copies) == Contents(from)
    {
      copies := [];
      for i := 0 to |from|
        invariant |copies| == i && NoDuplicates(copies)
        invariant forall k :: 0 <= k < i ==> fresh(copies[k])
        invariant forall k :: 0 <= k < i ==> copies[k].contentNames == from[k].contentNames
      {
        var copy := new ContentGroup.Copy(from[i]);
        copies := copies + [copy];
      }
    }

    /** The BUNDLE groups of a description. */
    static method GetBundleGroups(description: seq<ContentGroup>) returns (r: seq<ContentGroup>)
      ensures r == BundleOnly(description)
    {
      r := [];
      for i := 0 to |description|
        invariant r == BundleOnly(description[..i])
      {
        assert description[..i + 1][..i] == description[..i];
        if description[i].semantics == GROUP_TYPE_BUNDLE {
          r := r + [description[i]];
        }
      }
      assert description[..|description|] == description;
    }

    static ghost function BundleOnly(description: seq<ContentGroup>): (r: seq<ContentGroup>)
      reads description
      ensures forall i :: 0 <= i < |r| ==> r[i] in description && r[i].semantics == GROUP_TYPE_BUNDLE
    {
      if description == [] then [] else
        var rest, g := BundleOnly(description[..|description| - 1]), description[|description| - 1];
        assert description == description[..|description| - 1] + [g];
        if g.semantics == GROUP_TYPE_BUNDLE then rest + [g] else rest
    }

    /** One round of the offer loop: overwrite the group of the first mid the index knows. */
    method ReplaceMatchingGroup(offered: ContentGroup, ghost before: seq<Names>) returns (replaced: bool)
      requires Valid() && offered !in bundleGroups && |before| == |bundleGroups|
      requires IndexMatches(establishedByMid, bundleGroups, before)
      modifies bundleGroups
      ensures Groups() == OfferOne(before, old(Groups()), old(offered.contentNames))
      ensures !replaced ==> Groups() == old(Groups())
    {
      var mids := offered.contentNames;
      for j := 0 to |mids|
        invariant Target(before, mids) == Target(before, mids[j..])
        invariant Groups() == old(Groups())
      {
        assert mids[j..][1..] == mids[j + 1..];
        assert MidMatches(establishedByMid, bundleGroups, before, mids[j]);
        if mids[j] in establishedByMid {
          establishedByMid[mids[j]].Assign(offered);
          return true;
        }
      }
      return false;
    }

    /** The offer branch of Update; the index stays that of the groups before the offer. */
    method MergeOffer(offered: seq<ContentGroup>) returns (changed: bool)
      requires Valid() && Indexed()
      requires Apart(offered, bundleGroups)
      modifies bundleGroups
      ensures Groups() == AfterOffer(old(Groups()), old(Contents(offered)))
      ensures !changed ==> Groups() == old(Groups())
    {
      changed := false;
      ghost var before, incoming := Groups(), Contents(offered);
      for k := 0 to |offered|
        invariant !changed ==> Groups() == before
        invariant Groups() == AfterOffer(before, incoming[..k])
        invariant Contents(offered) == incoming
      {
        assert incoming[..k + 1][..k] == incoming[..k];
        ghost var merged := Groups();
        var replaced := ReplaceMatchingGroup(offered[k], before);
        assert Groups() == OfferOne(before, merged, incoming[k]);
        assert forall i :: 0 <= i < |offered| ==> offered[i].contentNames == incoming[i];
        changed := changed || replaced;
      }
      assert incoming[..|offered|] == incoming;
    }

    /** Drop the current groups, copy the given ones, rebuild the index. */
    method ReplaceGroups(from: seq<ContentGroup>)
      requires Valid()
      modifies this`bundleGroups, this`establishedByMid
      ensures Valid() && Indexed() && Groups() == old(Contents(from)) && Stable() == old(Stable())
      ensures forall i :: 0 <= i < |bundleGroups| ==> fresh(bundleGroups[i])
    {
      bundleGroups := CopyGroups(from);
      RefreshEstablishedBundleGroupsByMid();
    }

    method Update(description: seq<ContentGroup>, sdpType: SdpType)
      requires Valid() && Indexed()
      requires Apart(description, bundleGroups)
      modifies this`bundleGroups, this`establishedByMid, bundleGroups
      ensures Valid() && Indexed() && Stable() == old(Stable())
      ensures bundleGroups == old(bundleGroups) || forall i :: 0 <= i < |bundleGroups| ==> fresh(bundleGroups[i])
      ensures Groups() ==
                if bundlePolicy == MaxBundle || sdpType == Answer then old(Contents(BundleOnly(description)))
                else if sdpType == Offer then AfterOffer(old(Groups()), old(Contents(BundleOnly(description))))
                else old(Groups())
    {
      var offered := GetBundleGroups(description);
      if bundlePolicy == MaxBundle || sdpType == Answer {
        ReplaceGroups(offered);
      } else if sdpType == Offer {
        var changed := MergeOffer(offered);
        if changed {
          RefreshEstablishedBundleGroupsByMid();
        }
      }
    }

    method FindGroup(group: ContentGroup) returns (i: nat)
      requires group in bundleGroups
      ensures i < |bundleGroups| && bundleGroups[i] == group
    {
      i := 0;
      while i < |bundleGroups| && bundleGroups[i] != group
        invariant i <= |bundleGroups| && group !in bundleGroups[..i]
      {
        i := i + 1;
      }
    }

    /** The source erases the iterator it finds: the mid has to be in the index. */
    method DeleteMid(group: ContentGroup, mid: string) returns (ghost i: nat)
      requires Valid() && group in bundleGroups && mid in establishedByMid
      modifies this`establishedByMid, group`contentNames
      ensures Valid() && Stable() == old(Stable())
      ensures i < |bundleGroups| && bundleGroups[i] == group
      ensures Groups() == WithoutMid(old(Groups()), i, mid)
      ensures establishedByMid == old(establishedByMid) - {mid}
      ensures old(Indexed()) ==> (Indexed() <==> forall k :: 0 <= k < |Groups()| ==> mid !in Groups()[k])
      ensures old(Indexed() && WellFormed(Groups()) && mid in group.contentNames) ==>
                Indexed() && WellFormed(Groups())
    {
      ghost var before := Groups();
      i := EraseMid(group, mid);
      if old(Indexed()) {
        IndexShrinks(old(establishedByMid), bundleGroups, before, i, mid);
        if WellFormed(before) && mid in before[i] {
          NowhereElse(before, i, mid);
        }
      }
    }

    /** The statements of DeleteMid. */
    method EraseMid(group: ContentGroup, mid: string) returns (i: nat)
      requires Valid() && group in bundleGroups && mid in establishedByMid
      modifies this`establishedByMid, group`contentNames
      ensures Valid() && Stable() == old(Stable())
      ensures i < |bundleGroups| && bundleGroups[i] == group
      ensures Groups() == WithoutMid(old(Groups()), i, mid)
      ensures establishedByMid == old(establishedByMid) - {mid}
    {
      i := FindGroup(group);
      var _ := bundleGroups[i].RemoveContentName(mid);
      establishedByMid := establishedByMid - {mid};
    }

    /** Erases every mid of the group from the index, so each has to be there when its turn comes. */
    method DeleteGroup(group: ContentGroup) returns (ghost i: nat)
      requires Valid() && group in bundleGroups
      requires NoDuplicates(group.contentNames)
      requires forall m :: m in group.contentNames ==> m in establishedByMid
      modifies this`bundleGroups, this`establishedByMid, group`contentNames
      ensures Stable() == old(Stable())
      ensures i < |old(bundleGroups)| && old(bundleGroups)[i] == group
      ensures bundleGroups == Without(old(bundleGroups), i)
      ensures Groups() == Without(old(Groups()), i)
      ensures establishedByMid == old(establishedByMid) - Mids(old(group.contentNames))
      ensures old(Indexed()) && WellFormed(old(Groups())) ==> Valid() && Indexed() && WellFormed(Groups())
    {
      ghost var before, index, all := Groups(), establishedByMid, bundleGroups;
      i := EraseGroup(group);
      if IndexMatches(index, all, before) && WellFormed(before) {
        WithoutGroupKeepsWellFormed(before, i);
        IndexDropsGroup(index, all, before, i);
        IndexPointsInside(establishedByMid, bundleGroups, Groups());
      }
    }

    /** The statements of DeleteGroup. */
    method EraseGroup(group: ContentGroup) returns (ghost i: nat)
      requires Valid() && group in bundleGroups
      requires NoDuplicates(group.contentNames)
      requires forall m :: m in group.contentNames ==> m in establishedByMid
      modifies this`bundleGroups, this`establishedByMid, group`contentNames
      ensures Stable() == old(Stable()) && NoDuplicates(bundleGroups) && Apart(stableBundleGroups, bundleGroups)
      ensures i < |old(bundleGroups)| && old(bundleGroups)[i] == group
      ensures bundleGroups == Without(old(bundleGroups), i)
      ensures Groups() == Without(old(Groups()), i)
      ensures establishedByMid == old(establishedByMid) - Mids(old(group.contentNames))
    {
      var k := FindGroup(group);
      i := k;
      ghost var before := Groups();
      DeleteMids(group, k);
      ContentsWithout(bundleGroups, k);
      StillApart(bundleGroups, stableBundleGroups, k);
      assert Without(before[k := []], k) == Without(before, k);
      bundleGroups := Without(bundleGroups, k);
    }

    /** The loop of DeleteGroup over a copy of the list it shortens. */
    method DeleteMids(group: ContentGroup, ghost i: nat)
      requires Valid() && i < |bundleGroups| && bundleGroups[i] == group
      requires NoDuplicates(group.contentNames)
      requires forall m :: m in group.contentNames ==> m in establishedByMid
      modifies this`establishedByMid, group`contentNames
      ensures Valid() && Stable() == old(Stable())
      ensures Groups() == old(Groups())[i := []]
      ensures establishedByMid == old(establishedByMid) - Mids(old(group.contentNames))
    {
      ghost var before, index := Groups(), establishedByMid;
      var midList := group.contentNames;
      for k := 0 to |midList|
        invariant Valid() && Stable() == old(Stable())
        invariant establishedByMid == index - Mids(midList[..k])
        invariant Groups() == before[i := midList[k..]]
      {
        MidsAppend(midList, k);
        EraseAdvances(before, i, midList, k, index);
        var _ := EraseMid(group, midList[k]);
      }
      assert midList[..|midList|] == midList;
    }

    /** Where index and groups agree, every erase of DeleteGroup finds its key. */
    lemma DeleteGroupFindsEveryMid(i: nat)
      requires Valid() && Indexed() && WellFormed(Groups()) && i < |bundleGroups|
      ensures NoDuplicates(bundleGroups[i].contentNames)
      ensures forall m :: m in bundleGroups[i].contentNames ==>
                m in establishedByMid && establishedByMid[m] == bundleGroups[i]
    {
      assert bundleGroups[i].contentNames == Groups()[i];
      forall m | m in Groups()[i] ensures m in establishedByMid && establishedByMid[m] == bundleGroups[i] {
        WellFormedListing(Groups(), m, i);
        assert MidMatches(establishedByMid, bundleGroups, Groups(), m);
      }
    }

    method Commit()
      requires Valid()
      modifies this`stableBundleGroups
      ensures Valid() && Stable() == Groups()
      ensures forall i :: 0 <= i < |stableBundleGroups| ==> fresh(stableBundleGroups[i])
    {
      stableBundleGroups := CopyGroups(bundleGroups);
    }

    method Rollback()
      requires Valid()
      modifies this`bundleGroups, this`establishedByMid
      ensures Valid() && Indexed() && Groups() == Stable() == old(Stable())
      ensures forall i :: 0 <= i < |bundleGroups| ==> fresh(bundleGroups[i])
    {
      ReplaceGroups(stableBundleGroups);
    }

    /** A mid outside every group leads itself; otherwise the first mid of the group does. */
    predicate IsFirstMidInGroup(mid: string)
      requires mid in establishedByMid ==> establishedByMid[mid].contentNames != []
      reads this, establishedByMid.Values
    {
      mid in establishedByMid ==> mid == establishedByMid[mid].contentNames[0]
    }

    /** Every group that is not empty has exactly one first mid. */
    lemma OneFirstMidPerGroup(i: nat)
      requires Valid() && Indexed() && WellFormed(Groups())
      requires i < |bundleGroups| && bundleGroups[i].contentNames != []
      ensures forall m :: m in establishedByMid ==> establishedByMid[m].contentNames != []
      ensures forall m :: m in Groups()[i] ==> (IsFirstMidInGroup(m) <==> m == Groups()[i][0])
    {
      forall m | m in establishedByMid ensures establishedByMid[m].contentNames != [] {
        assert MidMatches(establishedByMid, bundleGroups, Groups(), m);
        assert m in Groups()[LastListing(Groups(), m)];
      }
      forall m | m in Groups()[i] ensures IsFirstMidInGroup(m) <==> m == Groups()[i][0] {
        WellFormedListing(Groups(), m, i);
        assert MidMatches(establishedByMid, bundleGroups, Groups(), m);
      }
    }
  }
}
