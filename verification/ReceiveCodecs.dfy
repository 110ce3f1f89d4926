/** NonFlexfecReceiveCodecsHaveChanged: a reordered list of receive codecs is no change. */
module ReceiveCodecs {
  import opened Sequences
  import opened Sorting
  import opened VideoCodecs

  predicate EqualsDisregardingFlexfec(a: VideoCodecSettings, b: VideoCodecSettings) {
    a.codec == b.codec && a.ulpfec == b.ulpfec && a.rtxPayloadType == b.rtxPayloadType && a.rtxTime == b.rtxTime
  }

  /** What two settings have in common that are equal up to FlexFEC. */
  ghost function WithoutFlexfec(s: VideoCodecSettings): VideoCodecSettings {
    s.(flexfecPayloadType := -1)
  }

  predicate ByDescendingId(a: VideoCodecSettings, b: VideoCodecSettings) {
    a.codec.id > b.codec.id
  }

  ghost predicate IdsDiffer(s: seq<VideoCodecSettings>) {
    forall i, j :: 0 <= i < j < |s| ==> s[i].codec.id != s[j].codec.id
  }

  /** Lists that count as unchanged are permutations of each other up to FlexFEC. Every such permutation counts
      as unchanged where settings of one payload type are equal up to FlexFEC, as with unique payload types. */
  method NonFlexfecReceiveCodecsHaveChanged(before: seq<VideoCodecSettings>, after: seq<VideoCodecSettings>)
    returns (changed: bool)
    ensures !changed ==> multiset(Map(WithoutFlexfec, before)) == multiset(Map(WithoutFlexfec, after))
    ensures Decides(ByDescendingId, Map(WithoutFlexfec, before)) ==>
              (!changed <==> multiset(Map(WithoutFlexfec, before)) == multiset(Map(WithoutFlexfec, after)))
  {
    var sortedBefore := Sort(before, ByDescendingId);
    var sortedAfter := Sort(after, ByDescendingId);
    EqualListsArePermuted(before, after, sortedBefore, sortedAfter);
    if Decides(ByDescendingId, Map(WithoutFlexfec, before)) {
      SortedListsDecide(before, after, sortedBefore, sortedAfter);
    }
    if |sortedBefore| != |sortedAfter| {
      return true;
    }
    for i := 0 to |sortedBefore|
      invariant forall k :: 0 <= k < i ==> EqualsDisregardingFlexfec(sortedBefore[k], sortedAfter[k])
    {
      if !EqualsDisregardingFlexfec(sortedBefore[i], sortedAfter[i]) {
        return true;
      }
    }
    return false;
  }

  ghost predicate EqualLists(a: seq<VideoCodecSettings>, b: seq<VideoCodecSettings>) {
    |a| == |b| && forall k :: 0 <= k < |a| ==> EqualsDisregardingFlexfec(a[k], b[k])
  }

  lemma EqualListsMap(a: seq<VideoCodecSettings>, b: seq<VideoCodecSettings>)
    ensures EqualLists(a, b) <==> Map(WithoutFlexfec, a) == Map(WithoutFlexfec, b)
  {
    var ma, mb := Map(WithoutFlexfec, a), Map(WithoutFlexfec, b);
    forall k | 0 <= k < |a| && k < |b| ensures EqualsDisregardingFlexfec(a[k], b[k]) <==> ma[k] == mb[k] {}
  }

  /** Whatever the payload types, lists that sort to the same are permutations up to FlexFEC. */
  lemma EqualListsArePermuted(before: seq<VideoCodecSettings>, after: seq<VideoCodecSettings>,
                              sortedBefore: seq<VideoCodecSettings>, sortedAfter: seq<VideoCodecSettings>)
    requires IsSortOf(ByDescendingId, sortedBefore, before) && IsSortOf(ByDescendingId, sortedAfter, after)
    ensures EqualLists(sortedBefore, sortedAfter) ==>
              multiset(Map(WithoutFlexfec, before)) == multiset(Map(WithoutFlexfec, after))
  {
    MapKeepsMultisets(WithoutFlexfec, sortedBefore, before);
    MapKeepsMultisets(WithoutFlexfec, sortedAfter, after);
    EqualListsMap(sortedBefore, sortedAfter);
  }

  lemma SortedListsDecide(before: seq<VideoCodecSettings>, after: seq<VideoCodecSettings>,
                          sortedBefore: seq<VideoCodecSettings>, sortedAfter: seq<VideoCodecSettings>)
    requires Decides(ByDescendingId, Map(WithoutFlexfec, before))
    requires IsSortOf(ByDescendingId, sortedBefore, before) && IsSortOf(ByDescendingId, sortedAfter, after)
    ensures EqualLists(sortedBefore, sortedAfter) <==>
              multiset(Map(WithoutFlexfec, before)) == multiset(Map(WithoutFlexfec, after))
  {
    var b, a := Map(WithoutFlexfec, sortedBefore), Map(WithoutFlexfec, sortedAfter);
    MapKeepsMultisets(WithoutFlexfec, sortedBefore, before);
    MapKeepsMultisets(WithoutFlexfec, sortedAfter, after);
    EqualListsMap(sortedBefore, sortedAfter);
    if multiset(b) == multiset(a) {
      DecidesMembers(ByDescendingId, b, Map(WithoutFlexfec, before));
      SortIsUnique(ByDescendingId, b, a);
    }
  }

  lemma MembersDecide(s: seq<VideoCodecSettings>)
    requires IdsDiffer(s)
    ensures Decides(ByDescendingId, Map(WithoutFlexfec, s))
  {
    var m := Map(WithoutFlexfec, s);
    forall x, y | x in m && y in m && x != y ensures ByDescendingId(x, y) || ByDescendingId(y, x) {
      var i :| 0 <= i < |m| && m[i] == x;
      var j :| 0 <= j < |m| && m[j] == y;
      assert x.codec.id == s[i].codec.id && y.codec.id == s[j].codec.id && i != j;
    }
  }

  /** Where they are not, std::sort may leave a list and itself in different orders. */
  lemma UndecidedListMayCountAsChanged(s: seq<VideoCodecSettings>)
    requires !Decides(ByDescendingId, Map(WithoutFlexfec, s))
    ensures exists a, b :: IsSortOf(ByDescendingId, a, s) && IsSortOf(ByDescendingId, b, s) && !EqualLists(a, b)
  {
    var a := SortExists(ByDescendingId, s);
    var ma := Map(WithoutFlexfec, a);
    MapKeepsMultisets(WithoutFlexfec, a, s);
    DecidesMembers(ByDescendingId, ma, Map(WithoutFlexfec, s));
    var p, q := FindTied(ByDescendingId, ma);
    SwapMakesADifference(s, a, p, q);
    assert IsSortOf(ByDescendingId, a, s);
  }

  lemma SwapMakesADifference(s: seq<VideoCodecSettings>, a: seq<VideoCodecSettings>, p: nat, q: nat)
    requires IsSortOf(ByDescendingId, a, s) && p < q < |a|
    requires Tied(ByDescendingId, a[p], a[q]) && WithoutFlexfec(a[p]) != WithoutFlexfec(a[q])
    ensures IsSortOf(ByDescendingId, Swapped(a, p, q), s) && !EqualLists(a, Swapped(a, p, q))
  {
    SwapKeepsSort(ByDescendingId, a, p, q);
    assert Swapped(a, p, q)[p] == a[q];
    assert !EqualsDisregardingFlexfec(a[p], a[q]);
  }

  /** The lists MapCodecs returns have unique payload types. */
  lemma MappedIdsDiffer(codecs: seq<VideoCodec>)
    requires Accepts(codecs)
    ensures IdsDiffer(Mapped(codecs))
  {
    forall i: nat, j: nat | i < j < |Mapped(codecs)| ensures Mapped(codecs)[i].codec.id != Mapped(codecs)[j].codec.id {
      MappedSettingsAreSound(codecs, i, j);
    }
  }

  /** Some settings of the list are these, but for the FlexFEC payload type. */
  ghost predicate HasUpToFlexfec(list: seq<VideoCodecSettings>, s: VideoCodecSettings) {
    exists j :: 0 <= j < |list| && list[j] == s.(flexfecPayloadType := list[j].flexfecPayloadType)
  }

  ghost predicate SameUpToFlexfec(a: seq<VideoCodecSettings>, b: seq<VideoCodecSettings>) {
    && (forall i :: 0 <= i < |a| ==> HasUpToFlexfec(b, a[i]))
    && (forall i :: 0 <= i < |b| ==> HasUpToFlexfec(a, b[i]))
  }

  lemma MappedMembers(s: seq<VideoCodecSettings>, x: VideoCodecSettings)
    ensures WithoutFlexfec(x) in Map(WithoutFlexfec, s) <==> HasUpToFlexfec(s, x)
  {
    var m := Map(WithoutFlexfec, s);
    if WithoutFlexfec(x) in m {
      var j :| 0 <= j < |m| && m[j] == WithoutFlexfec(x);
      assert s[j] == x.(flexfecPayloadType := s[j].flexfecPayloadType);
    }
    if HasUpToFlexfec(s, x) {
      var j :| 0 <= j < |s| && s[j] == x.(flexfecPayloadType := s[j].flexfecPayloadType);
      assert m[j] == WithoutFlexfec(x);
    }
  }

  lemma MapHasNoDuplicates(s: seq<VideoCodecSettings>)
    requires IdsDiffer(s)
    ensures NoDuplicates(Map(WithoutFlexfec, s))
  {
    var m := Map(WithoutFlexfec, s);
    forall i, j | 0 <= i < j < |m| ensures m[i] != m[j] {
      assert m[i].codec == s[i].codec && m[j].codec == s[j].codec;
    }
  }

  /** With unique payload types, lists are permutations up to FlexFEC exactly when each has the settings of the other. */
  lemma PermutationsHaveTheSameSettings(a: seq<VideoCodecSettings>, b: seq<VideoCodecSettings>)
    requires IdsDiffer(a) && IdsDiffer(b)
    ensures multiset(Map(WithoutFlexfec, a)) == multiset(Map(WithoutFlexfec, b)) <==> SameUpToFlexfec(a, b)
  {
    var ma, mb := Map(WithoutFlexfec, a), Map(WithoutFlexfec, b);
    if multiset(ma) == multiset(mb) {
      SameMembers(ma, mb);
      forall i | 0 <= i < |a| ensures HasUpToFlexfec(b, a[i]) {
        assert ma[i] in mb;
        MappedMembers(b, a[i]);
      }
      forall i | 0 <= i < |b| ensures HasUpToFlexfec(a, b[i]) {
        assert mb[i] in ma;
        MappedMembers(a, b[i]);
      }
    }
    if SameUpToFlexfec(a, b) {
      SettingsAreMembers(a, b);
      SettingsAreMembers(b, a);
      MapHasNoDuplicates(a);
      MapHasNoDuplicates(b);
      SameSetSameMultiset(ma, mb);
    }
  }

  lemma SettingsAreMembers(a: seq<VideoCodecSettings>, b: seq<VideoCodecSettings>)
    requires forall i :: 0 <= i < |a| ==> HasUpToFlexfec(b, a[i])
    ensures forall x :: x in Map(WithoutFlexfec, a) ==> x in Map(WithoutFlexfec, b)
  {
    var ma := Map(WithoutFlexfec, a);
    forall x | x in ma ensures x in Map(WithoutFlexfec, b) {
      var i :| 0 <= i < |ma| && ma[i] == x;
      MappedMembers(b, a[i]);
    }
  }

  /** The receive side at the one place that asks, for codecs it supports: the ones in use and the new ones both
      come out of MapCodecs, and the codec settings change exactly when the lists are no permutations of each other
      up to FlexFEC. */
  method ReceiveCodecsChange(current: seq<VideoCodec>, params: seq<VideoCodec>)
    returns (changed: bool, mapped: seq<VideoCodecSettings>)
    requires Accepts(current)
    ensures mapped == if Accepts(params) then Mapped(params) else []
    ensures mapped == [] ==> !changed
    ensures mapped != [] ==>
              && (changed <==> multiset(Map(WithoutFlexfec, Mapped(current))) != multiset(Map(WithoutFlexfec, mapped)))
              && (changed <==> !SameUpToFlexfec(Mapped(current), mapped))
  {
    var recvCodecs := MapCodecs(current);
    mapped := MapCodecs(params);
    if mapped == [] {
      return false, mapped;
    }
    MappedIdsDiffer(current);
    MappedIdsDiffer(params);
    PermutationsHaveTheSameSettings(Mapped(current), mapped);
    MembersDecide(Mapped(current));
    changed := NonFlexfecReceiveCodecsHaveChanged(recvCodecs, mapped);
  }
}
