/** Validation and filtering of RTP header extensions. */
module RtpExtensions {
  import opened Sequences
  import opened Sorting

  datatype RtpExtension = RtpExtension(uri: string, id: int, encrypt: bool)

  /** Identifiers of a two-byte header (RFC 8285, section 4.3). */
  const MIN_ID := 1
  const MAX_ID := 255

  const ABS_SEND_TIME_URI := "http://www.webrtc.org/experiments/rtp-hdrext/abs-send-time"
  const TIMESTAMP_OFFSET_URI := "urn:ietf:params:rtp-hdrext:toffset"

  /* ---- validation ---- */

  ghost predicate IdsInRange(extensions: seq<RtpExtension>) {
    forall i :: 0 <= i < |extensions| ==> MIN_ID <= extensions[i].id <= MAX_ID
  }

  ghost predicate IdsUnique(extensions: seq<RtpExtension>) {
    forall i, j :: 0 <= i < j < |extensions| ==> extensions[i].id != extensions[j].id
  }

  method ValidateRtpExtensions(extensions: seq<RtpExtension>) returns (ok: bool)
    ensures ok <==> IdsInRange(extensions) && IdsUnique(extensions)
  {
    var idUsed := new bool[1 + MAX_ID](_ => false);
    for k := 0 to |extensions|
      invariant IdsInRange(extensions[..k]) && IdsUnique(extensions[..k])
      invariant forall id :: MIN_ID <= id <= MAX_ID ==>
                  (idUsed[id] <==> exists i :: 0 <= i < k && extensions[i].id == id)
    {
      var extension := extensions[k];
      if extension.id < MIN_ID || extension.id > MAX_ID {
        return false;
      }
      if idUsed[extension.id] {
        return false;
      }
      idUsed[extension.id] := true;
    }
    assert extensions[..|extensions|] == extensions;
    return true;
  }

  /* ---- the sort order ---- */

  predicate StringLess(a: string, b: string) {
    if b == [] then false
    else if a == [] then true
    else if a[0] != b[0] then a[0] < b[0]
    else StringLess(a[1..], b[1..])
  }

  lemma {:induction false} StringLessIsTotal(a: string, b: string)
    ensures StringLess(a, b) ==> !StringLess(b, a)
    ensures a != b ==> StringLess(a, b) || StringLess(b, a)
    ensures a == b ==> !StringLess(a, b)
  {
    if a != [] && b != [] && a[0] == b[0] {
      StringLessIsTotal(a[1..], b[1..]);
      assert a == [a[0]] + a[1..] && b == [b[0]] + b[1..];
    }
  }

  lemma {:induction false} StringLessIsTransitive(a: string, b: string, c: string)
    requires !StringLess(b, a) && !StringLess(c, b)
    ensures !StringLess(c, a)
  {
    if a != [] && b != [] && c != [] && a[0] == b[0] == c[0] {
      StringLessIsTransitive(a[1..], b[1..], c[1..]);
    }
  }

  /** Encrypted before plain, then by name. */
  predicate Precedes(a: RtpExtension, b: RtpExtension) {
    if a.encrypt == b.encrypt then StringLess(a.uri, b.uri) else a.encrypt && !b.encrypt
  }

  lemma PrecedesIsAnOrder()
    ensures StrictWeakOrder(Precedes)
  {
    forall x, y | Precedes(x, y) ensures !Precedes(y, x) {
      StringLessIsTotal(x.uri, y.uri);
    }
    forall x, y, z | !Precedes(y, x) && !Precedes(z, y) ensures !Precedes(z, x) {
      if x.encrypt == y.encrypt == z.encrypt {
        StringLessIsTransitive(x.uri, y.uri, z.uri);
      }
    }
  }

  predicate SameKey(a: RtpExtension, b: RtpExtension) {
    a.uri == b.uri && a.encrypt == b.encrypt
  }

  /* ---- filtering ---- */

  ghost function Supported(extensions: seq<RtpExtension>, supported: string -> bool): (r: seq<RtpExtension>)
    ensures forall x :: x in r <==> x in extensions && supported(x.uri)
  {
    if extensions == [] then [] else
      var n := |extensions| - 1;
      assert extensions == extensions[..n] + [extensions[n]];
      if supported(extensions[n].uri) then Supported(extensions[..n], supported) + [extensions[n]]
      else Supported(extensions[..n], supported)
  }

  /** The first of each run of equal keys. */
  ghost function Unique(s: seq<RtpExtension>): (r: seq<RtpExtension>)
    ensures s != [] ==> r != [] && SameKey(r[|r| - 1], s[|s| - 1])
  {
    if s == [] then [] else
      var u, last := Unique(s[..|s| - 1]), s[|s| - 1];
      if u != [] && SameKey(u[|u| - 1], last) then u else u + [last]
  }

  /** Position of the first extension with this URI, or the length. */
  ghost function FirstWith(s: seq<RtpExtension>, uri: string): (k: nat)
    ensures k <= |s| && (k < |s| ==> s[k].uri == uri)
    ensures forall i :: 0 <= i < k ==> s[i].uri != uri
  {
    if s == [] then 0 else if s[0].uri == uri then 0 else 1 + FirstWith(s[1..], uri)
  }

  /** Go down the priorities; once one was found, erase the first extension of each later one. */
  ghost function Discard(s: seq<RtpExtension>, uris: seq<string>, found: bool): seq<RtpExtension>
    decreases |uris|
  {
    if uris == [] then s else
      var k := FirstWith(s, uris[0]);
      if k == |s| then Discard(s, uris[1..], found)
      else if found then Discard(Without(s, k), uris[1..], true)
      else Discard(s, uris[1..], true)
  }

  method DiscardRedundantExtensions(extensions: seq<RtpExtension>, uris: seq<string>) returns (r: seq<RtpExtension>)
    ensures r == Discard(extensions, uris, false)
  {
    r := extensions;
    var found := false;
    for u := 0 to |uris|
      invariant Discard(r, uris[u..], found) == Discard(extensions, uris, false)
    {
      assert uris[u..][1..] == uris[u + 1..];
      var k := 0;
      while k < |r| && r[k].uri != uris[u]
        invariant k <= |r| && forall i :: 0 <= i < k ==> r[i].uri != uris[u]
      {
        k := k + 1;
      }
      assert k == FirstWith(r, uris[u]);
      if k != |r| {
        if found {
          r := r[..k] + r[k + 1..];
        }
        found := true;
      }
    }
  }

  const BWE_PRIORITIES := [ABS_SEND_TIME_URI, TIMESTAMP_OFFSET_URI]

  ghost function Reduced(sorted: seq<RtpExtension>, filterRedundant: bool): seq<RtpExtension> {
    if filterRedundant then Discard(Unique(sorted), BWE_PRIORITIES, false) else sorted
  }

  /** What FilterRtpExtensions may return, whichever way std::sort arranges equal keys. */
  ghost predicate IsFiltered(extensions: seq<RtpExtension>, supported: string -> bool, filterRedundant: bool,
                             r: seq<RtpExtension>)
  {
    exists sorted :: IsSortOf(Precedes, sorted, Supported(extensions, supported)) && r == Reduced(sorted, filterRedundant)
  }

  method FilterRtpExtensions(extensions: seq<RtpExtension>, supported: string -> bool, filterRedundant: bool)
    returns (r: seq<RtpExtension>)
    ensures IsFiltered(extensions, supported, filterRedundant, r)
  {
    r := [];
    for i := 0 to |extensions|
      invariant r == Supported(extensions[..i], supported)
    {
      assert extensions[..i + 1][..i] == extensions[..i];
      if supported(extensions[i].uri) {
        r := r + [extensions[i]];
      }
    }
    assert extensions[..|extensions|] == extensions;
    PrecedesIsAnOrder();
    var sorted := Sort(r, Precedes);
    r := sorted;
    if filterRedundant {
      r := EraseDuplicates(r);
      r := DiscardRedundantExtensions(r, BWE_PRIORITIES);
    }
    assert r == Reduced(sorted, filterRedundant);
  }

  /** std::unique and erase. */
  method EraseDuplicates(s: seq<RtpExtension>) returns (r: seq<RtpExtension>)
    ensures r == Unique(s)
  {
    r := [];
    for i := 0 to |s|
      invariant r == Unique(s[..i])
    {
      assert s[..i + 1][..i] == s[..i];
      if r == [] || !SameKey(r[|r| - 1], s[i]) {
        r := r + [s[i]];
      }
    }
    assert s[..|s|] == s;
  }

  /* ---- what the result promises ---- */

  ghost predicate KeysDistinct(s: seq<RtpExtension>) {
    forall i, j :: 0 <= i < j < |s| ==> !SameKey(s[i], s[j])
  }

  lemma {:induction false} SupportedKeepsMultisets(a: seq<RtpExtension>, b: seq<RtpExtension>, supported: string -> bool)
    requires multiset(a) == multiset(b)
    ensures multiset(Supported(a, supported)) == multiset(Supported(b, supported))
  {
    forall x ensures multiset(Supported(a, supported))[x] == multiset(Supported(b, supported))[x] {
      SupportedCounts(a, supported, x);
      SupportedCounts(b, supported, x);
    }
  }

  lemma {:induction false} SupportedCounts(s: seq<RtpExtension>, supported: string -> bool, x: RtpExtension)
    ensures multiset(Supported(s, supported))[x] == if supported(x.uri) then multiset(s)[x] else 0
  {
    if s != [] {
      SupportedCounts(s[..|s| - 1], supported, x);
      assert s == s[..|s| - 1] + [s[|s| - 1]];
    }
  }

  /** Permuted inputs whose supported extensions have distinct keys give the same list: reordering an
      offer never changes the filtered extensions. */
  lemma FilterIsCanonical(a: seq<RtpExtension>, b: seq<RtpExtension>, supported: string -> bool,
                          filterRedundant: bool, ra: seq<RtpExtension>, rb: seq<RtpExtension>)
    requires multiset(a) == multiset(b) && KeysDistinct(Supported(a, supported))
    requires IsFiltered(a, supported, filterRedundant, ra) && IsFiltered(b, supported, filterRedundant, rb)
    ensures ra == rb
  {
    var sa :| IsSortOf(Precedes, sa, Supported(a, supported)) && ra == Reduced(sa, filterRedundant);
    var sb :| IsSortOf(Precedes, sb, Supported(b, supported)) && rb == Reduced(sb, filterRedundant);
    SupportedKeepsMultisets(a, b, supported);
    DistinctKeysDecide(Supported(a, supported));
    SameMembers(sa, Supported(a, supported));
    SortIsUnique(Precedes, sa, sb);
  }

  lemma DistinctKeysDecide(s: seq<RtpExtension>)
    requires KeysDistinct(s)
    ensures Decides(Precedes, s)
  {
    forall x, y | x in s && y in s && x != y ensures Precedes(x, y) || Precedes(y, x) {
      var i :| 0 <= i < |s| && s[i] == x;
      var j :| 0 <= j < |s| && s[j] == y;
      assert !SameKey(s[if i < j then i else j], s[if i < j then j else i]);
      StringLessIsTotal(x.uri, y.uri);
    }
  }

  /** Two extensions with one key: the list depends on how std::sort leaves them. */
  lemma DuplicateKeysAreAmbiguous(uri: string, supported: string -> bool)
    requires supported(uri)
    ensures var a := [RtpExtension(uri, 1, false), RtpExtension(uri, 2, false)];
      && IdsInRange(a) && IdsUnique(a)
      && IsFiltered(a, supported, false, a) && IsFiltered(a, supported, false, [a[1], a[0]])
  {
    var x, y := RtpExtension(uri, 1, false), RtpExtension(uri, 2, false);
    SupportedPair(x, y, supported);
    StringLessIsTotal(uri, uri);
    SortedPair(x, y);
    SortedPair(y, x);
    assert multiset([y, x]) == multiset([x, y]);
    UnreducedIsFiltered([x, y], [x, y], supported);
    UnreducedIsFiltered([x, y], [y, x], supported);
  }

  lemma UnreducedIsFiltered(extensions: seq<RtpExtension>, sorted: seq<RtpExtension>, supported: string -> bool)
    requires IsSortOf(Precedes, sorted, Supported(extensions, supported))
    ensures IsFiltered(extensions, supported, false, sorted)
  {
    assert sorted == Reduced(sorted, false);
  }

  lemma SupportedPair(x: RtpExtension, y: RtpExtension, supported: string -> bool)
    requires supported(x.uri) && supported(y.uri)
    ensures Supported([x, y], supported) == [x, y]
  {
    assert [x, y][..1] == [x] && [x][..0] == [];
    assert Supported([x], supported) == [x];
  }

  lemma SortedPair(x: RtpExtension, y: RtpExtension)
    requires !Precedes(y, x)
    ensures SortedBy(Precedes, [x, y])
  {
  }

  /** `r` is part of `s`, copy by copy. */
  ghost predicate Within(r: seq<RtpExtension>, s: seq<RtpExtension>) {
    multiset(r) <= multiset(s)
  }

  lemma {:induction false} UniqueIsWithin(s: seq<RtpExtension>)
    ensures Within(Unique(s), s)
  {
    if s != [] {
      UniqueIsWithin(s[..|s| - 1]);
      assert s == s[..|s| - 1] + [s[|s| - 1]];
    }
  }

  lemma {:induction false} DiscardIsWithin(s: seq<RtpExtension>, uris: seq<string>, found: bool)
    ensures Within(Discard(s, uris, found), s)
    decreases |uris|
  {
    if uris != [] {
      var k := FirstWith(s, uris[0]);
      if k == |s| {
        DiscardIsWithin(s, uris[1..], found);
      } else {
        assert s == s[..k] + [s[k]] + s[k + 1..];
        DiscardIsWithin(if found then Without(s, k) else s, uris[1..], true);
      }
    }
  }

  lemma WithinKeepsIds(r: seq<RtpExtension>, s: seq<RtpExtension>)
    requires Within(r, s) && IdsInRange(s) && IdsUnique(s)
    ensures IdsInRange(r) && IdsUnique(r)
  {
    forall i | 0 <= i < |r| ensures MIN_ID <= r[i].id <= MAX_ID {
      assert r[i] in multiset(r) && r[i] in multiset(s);
      assert r[i] in s;
    }
    forall i, j | 0 <= i < j < |r| ensures r[i].id != r[j].id {
      assert r[i] in multiset(s) && r[j] in multiset(s);
      var k :| 0 <= k < |s| && s[k] == r[i];
      var l :| 0 <= l < |s| && s[l] == r[j];
      if k == l {
        TwiceInMultiset(r, i, j);
        OnceInMultiset(s, k);
        assert false;
      }
    }
  }

  lemma TwiceInMultiset(r: seq<RtpExtension>, i: nat, j: nat)
    requires i < j < |r| && r[i] == r[j]
    ensures multiset(r)[r[i]] >= 2
  {
    assert r == r[..j] + r[j..];
    assert r[i] in r[..j] && r[j] in r[j..];
  }

  lemma {:induction false} OnceInMultiset(s: seq<RtpExtension>, k: nat)
    requires k < |s| && IdsUnique(s)
    ensures multiset(s)[s[k]] == 1
  {
    assert s == s[..k] + [s[k]] + s[k + 1..];
    assert s[k] !in s[..k] && s[k] !in s[k + 1..];
  }

  /** The ids of a valid list stay unique and in range. */
  lemma FilterKeepsIdsValid(extensions: seq<RtpExtension>, supported: string -> bool, filterRedundant: bool,
                            r: seq<RtpExtension>)
    requires IdsInRange(extensions) && IdsUnique(extensions)
    requires IsFiltered(extensions, supported, filterRedundant, r)
    ensures IdsInRange(r) && IdsUnique(r)
    ensures forall x :: x in r ==> x in extensions && supported(x.uri)
  {
    var sorted :| IsSortOf(Precedes, sorted, Supported(extensions, supported)) && r == Reduced(sorted, filterRedundant);
    forall x ensures multiset(Supported(extensions, supported))[x] <= multiset(extensions)[x] {
      SupportedCounts(extensions, supported, x);
    }
    UniqueIsWithin(sorted);
    DiscardIsWithin(Unique(sorted), BWE_PRIORITIES, false);
    assert Within(r, sorted);
    assert Within(r, extensions);
    WithinKeepsIds(r, extensions);
    forall x | x in r ensures x in extensions && supported(x.uri) {
      assert x in multiset(r) && x in multiset(Supported(extensions, supported));
    }
  }

  /* ---- abs-send-time and toffset exclude each other, with one exception ---- */

  ghost predicate HasKey(s: seq<RtpExtension>, uri: string, encrypt: bool) {
    exists i :: 0 <= i < |s| && s[i].uri == uri && s[i].encrypt == encrypt
  }

  ghost predicate HasUri(s: seq<RtpExtension>, uri: string) {
    exists i :: 0 <= i < |s| && s[i].uri == uri
  }

  lemma HasKeyAppend(s: seq<RtpExtension>, x: RtpExtension, uri: string, encrypt: bool)
    ensures HasKey(s + [x], uri, encrypt) <==> HasKey(s, uri, encrypt) || (x.uri == uri && x.encrypt == encrypt)
  {
    var all := s + [x];
    if HasKey(s, uri, encrypt) {
      var i :| 0 <= i < |s| && s[i].uri == uri && s[i].encrypt == encrypt;
      assert all[i] == s[i];
    }
    assert all[|s|] == x;
  }

  lemma {:induction false} UniqueKeepsKeys(s: seq<RtpExtension>, uri: string, encrypt: bool)
    ensures HasKey(Unique(s), uri, encrypt) <==> HasKey(s, uri, encrypt)
  {
    if s != [] {
      var before, last := s[..|s| - 1], s[|s| - 1];
      UniqueKeepsKeys(before, uri, encrypt);
      assert s == before + [last];
      HasKeyAppend(before, last, uri, encrypt);
      HasKeyAppend(Unique(before), last, uri, encrypt);
    }
  }

  ghost predicate Climbs(s: seq<RtpExtension>) {
    forall i, j :: 0 <= i < j < |s| ==> Precedes(s[i], s[j])
  }

  lemma {:induction false} UniqueClimbs(s: seq<RtpExtension>)
    requires SortedBy(Precedes, s)
    ensures Climbs(Unique(s))
  {
    if s != [] {
      var before, x := s[..|s| - 1], s[|s| - 1];
      UniqueClimbs(before);
      var u := Unique(before);
      if u != [] && !SameKey(u[|u| - 1], x) {
        PrecedesIsAnOrder();
        var top := u[|u| - 1];
        assert SameKey(top, before[|before| - 1]);
        assert !Precedes(x, s[|s| - 2]);
        StringLessIsTotal(top.uri, x.uri);
        assert Precedes(top, x);
        forall i | 0 <= i < |u| ensures Precedes(u[i], x) {
          if i < |u| - 1 {
            assert Precedes(u[i], top) && !Precedes(x, top);
          }
        }
      }
    }
  }

  lemma ClimbingKeysDiffer(s: seq<RtpExtension>)
    requires Climbs(s)
    ensures KeysDistinct(s)
  {
    forall i, j | 0 <= i < j < |s| ensures !SameKey(s[i], s[j]) {
      StringLessIsTotal(s[i].uri, s[j].uri);
    }
  }

  /** Erasing the first extension of a URI leaves another one exactly if the URI came in both forms. */
  lemma EraseFirstOf(u: seq<RtpExtension>, uri: string)
    requires KeysDistinct(u) && FirstWith(u, uri) < |u|
    ensures HasUri(Without(u, FirstWith(u, uri)), uri) <==> HasKey(u, uri, true) && HasKey(u, uri, false)
  {
    var k := FirstWith(u, uri);
    var r := Without(u, k);
    if HasUri(r, uri) {
      var i :| 0 <= i < |r| && r[i].uri == uri;
      ErasedLeaves(u, uri, i);
    }
    if HasKey(u, uri, true) && HasKey(u, uri, false) {
      BothFormsLeaveOne(u, uri, k);
    }
  }

  lemma BothFormsLeaveOne(u: seq<RtpExtension>, uri: string, k: nat)
    requires HasKey(u, uri, true) && HasKey(u, uri, false)
    requires k < |u| && forall i :: 0 <= i < k ==> u[i].uri != uri
    ensures HasUri(Without(u, k), uri)
  {
    var i :| 0 <= i < |u| && u[i].uri == uri && u[i].encrypt == true;
    var j :| 0 <= j < |u| && u[j].uri == uri && u[j].encrypt == false;
    AnotherIsLeft(u, k, if i == k then j else i, uri);
  }

  lemma AnotherIsLeft(u: seq<RtpExtension>, k: nat, l: nat, uri: string)
    requires k < l < |u| && u[l].uri == uri
    ensures HasUri(Without(u, k), uri)
  {
    assert Without(u, k)[l - 1] == u[l];
  }

  lemma ErasedLeaves(u: seq<RtpExtension>, uri: string, i: nat)
    requires KeysDistinct(u) && FirstWith(u, uri) < |u|
    requires i < |u| - 1 && Without(u, FirstWith(u, uri))[i].uri == uri
    ensures HasKey(u, uri, true) && HasKey(u, uri, false)
  {
    var k := FirstWith(u, uri);
    var j := if i < k then i else i + 1;
    assert Without(u, k)[i] == u[j];
    assert j > k;
    assert !SameKey(u[k], u[j]);
    assert u[k].uri == uri && u[j].uri == uri;
    assert HasKey(u, uri, u[k].encrypt);
    assert HasKey(u, uri, u[j].encrypt);
  }

  lemma EraseKeepsOthers(u: seq<RtpExtension>, k: nat, other: string)
    requires k < |u| && u[k].uri != other
    ensures HasUri(Without(u, k), other) <==> HasUri(u, other)
  {
    var r := Without(u, k);
    if HasUri(u, other) {
      var i :| 0 <= i < |u| && u[i].uri == other;
      assert u[i] == r[if i < k then i else i - 1];
    }
    if HasUri(r, other) {
      var i :| 0 <= i < |r| && r[i].uri == other;
      assert r[i] == u[if i < k then i else i + 1];
    }
  }

  /** The send-side list keeps both abs-send-time and toffset exactly when toffset was offered both
      encrypted and plain beside an abs-send-time: only its first form is erased. */
  lemma RedundantPairSurvivesExactly(extensions: seq<RtpExtension>, supported: string -> bool, r: seq<RtpExtension>)
    requires IsFiltered(extensions, supported, true, r)
    ensures var all := Supported(extensions, supported);
      HasUri(r, ABS_SEND_TIME_URI) && HasUri(r, TIMESTAMP_OFFSET_URI) <==>
        HasUri(all, ABS_SEND_TIME_URI) && HasKey(all, TIMESTAMP_OFFSET_URI, true) && HasKey(all, TIMESTAMP_OFFSET_URI, false)
  {
    var all := Supported(extensions, supported);
    var sorted :| IsSortOf(Precedes, sorted, all) && r == Reduced(sorted, true);
    var u := Unique(sorted);
    UniqueClimbs(sorted);
    ClimbingKeysDiffer(u);
    SameKeys(sorted, all, ABS_SEND_TIME_URI);
    SameKeys(sorted, all, TIMESTAMP_OFFSET_URI);
    DiscardOfTwo(u, ABS_SEND_TIME_URI, TIMESTAMP_OFFSET_URI);
    FirstWithFinds(u, ABS_SEND_TIME_URI);
    FirstWithFinds(u, TIMESTAMP_OFFSET_URI);
    var k := FirstWith(u, TIMESTAMP_OFFSET_URI);
    if k < |u| {
      UrisDiffer();
      EraseFirstOf(u, TIMESTAMP_OFFSET_URI);
      EraseKeepsOthers(u, k, ABS_SEND_TIME_URI);
    }
    UriHasAKey(u, ABS_SEND_TIME_URI);
    UriHasAKey(u, TIMESTAMP_OFFSET_URI);
    UriHasAKey(all, ABS_SEND_TIME_URI);
  }

  /** A valid offer with toffset in both forms: the list keeps two mutually exclusive extensions. */
  lemma ToffsetInBothFormsStays(supported: string -> bool, r: seq<RtpExtension>)
    requires supported(ABS_SEND_TIME_URI) && supported(TIMESTAMP_OFFSET_URI)
    requires IsFiltered([RtpExtension(ABS_SEND_TIME_URI, 1, false), RtpExtension(TIMESTAMP_OFFSET_URI, 2, true),
                         RtpExtension(TIMESTAMP_OFFSET_URI, 3, false)], supported, true, r)
    ensures HasUri(r, ABS_SEND_TIME_URI) && HasUri(r, TIMESTAMP_OFFSET_URI)
  {
    var a := [RtpExtension(ABS_SEND_TIME_URI, 1, false), RtpExtension(TIMESTAMP_OFFSET_URI, 2, true),
              RtpExtension(TIMESTAMP_OFFSET_URI, 3, false)];
    var all := Supported(a, supported);
    assert a[0] in all && a[1] in all && a[2] in all;
    MemberHasKey(all, a[0]);
    MemberHasKey(all, a[1]);
    MemberHasKey(all, a[2]);
    UriHasAKey(all, ABS_SEND_TIME_URI);
    RedundantPairSurvivesExactly(a, supported, r);
  }

  lemma MemberHasKey(s: seq<RtpExtension>, x: RtpExtension)
    requires x in s
    ensures HasKey(s, x.uri, x.encrypt)
  {
  }

  lemma UrisDiffer()
    ensures ABS_SEND_TIME_URI != TIMESTAMP_OFFSET_URI
  {
    assert |ABS_SEND_TIME_URI| == 58 && |TIMESTAMP_OFFSET_URI| == 34;
  }

  lemma SameKeys(sorted: seq<RtpExtension>, all: seq<RtpExtension>, uri: string)
    requires multiset(sorted) == multiset(all)
    ensures forall encrypt :: HasKey(Unique(sorted), uri, encrypt) <==> HasKey(all, uri, encrypt)
  {
    SameMembers(sorted, all);
    forall encrypt ensures HasKey(Unique(sorted), uri, encrypt) <==> HasKey(all, uri, encrypt) {
      UniqueKeepsKeys(sorted, uri, encrypt);
      if HasKey(sorted, uri, encrypt) {
        var i :| 0 <= i < |sorted| && sorted[i].uri == uri && sorted[i].encrypt == encrypt;
        assert sorted[i] in all;
      }
      if HasKey(all, uri, encrypt) {
        var i :| 0 <= i < |all| && all[i].uri == uri && all[i].encrypt == encrypt;
        assert all[i] in sorted;
      }
    }
  }

  lemma UriHasAKey(s: seq<RtpExtension>, uri: string)
    ensures HasUri(s, uri) <==> HasKey(s, uri, true) || HasKey(s, uri, false)
  {
    if HasUri(s, uri) {
      var i :| 0 <= i < |s| && s[i].uri == uri;
      assert HasKey(s, uri, s[i].encrypt);
    }
  }

  lemma DiscardOfOne(u: seq<RtpExtension>, low: string, found: bool)
    ensures Discard(u, [low], found) ==
              var k := FirstWith(u, low); if found && k < |u| then Without(u, k) else u
  {
    var uris := [low];
    assert uris[1..] == [];
  }

  lemma DiscardOfTwo(u: seq<RtpExtension>, high: string, low: string)
    ensures Discard(u, [high, low], false) ==
              var k := FirstWith(u, low);
              if FirstWith(u, high) < |u| && k < |u| then Without(u, k) else u
  {
    var uris := [high, low];
    assert uris[0] == high && uris[1..] == [low];
    DiscardOfOne(u, low, FirstWith(u, high) < |u|);
  }

  lemma FirstWithFinds(u: seq<RtpExtension>, uri: string)
    ensures HasUri(u, uri) <==> FirstWith(u, uri) < |u|
  {
    if FirstWith(u, uri) < |u| {
      assert u[FirstWith(u, uri)].uri == uri;
    }
  }

  /* ---- which lists are determined ---- */

  /** Whatever the order of the input and whatever std::sort does, the result is the same. */
  ghost predicate Determined(a: seq<RtpExtension>, supported: string -> bool, filterRedundant: bool) {
    forall b, ra, rb ::
      multiset(a) == multiset(b) && IsFiltered(a, supported, filterRedundant, ra) && IsFiltered(b, supported, filterRedundant, rb)
      ==> ra == rb
  }

  /** `x` has the key that the reduction takes away: the first form of toffset beside an abs-send-time. */
  ghost predicate Erased(all: seq<RtpExtension>, x: RtpExtension) {
    && x.uri == TIMESTAMP_OFFSET_URI && HasUri(all, ABS_SEND_TIME_URI)
    && (x.encrypt || !HasKey(all, TIMESTAMP_OFFSET_URI, true))
  }

  /** Different extensions with one key occur only where the reduction erases that key. */
  ghost predicate ClashesErased(all: seq<RtpExtension>, filterRedundant: bool) {
    forall x, y :: x in all && y in all && x != y && SameKey(x, y) ==> filterRedundant && Erased(all, x)
  }

  lemma TiedMeansSameKey(x: RtpExtension, y: RtpExtension)
    ensures Tied(Precedes, x, y) <==> SameKey(x, y)
  {
    StringLessIsTotal(x.uri, y.uri);
  }

  lemma FilterIgnoresOrder(a: seq<RtpExtension>, b: seq<RtpExtension>, supported: string -> bool, filterRedundant: bool,
                           r: seq<RtpExtension>)
    requires multiset(a) == multiset(b) && IsFiltered(b, supported, filterRedundant, r)
    ensures IsFiltered(a, supported, filterRedundant, r)
  {
    SupportedKeepsMultisets(a, b, supported);
    var sorted :| IsSortOf(Precedes, sorted, Supported(b, supported)) && r == Reduced(sorted, filterRedundant);
    assert IsSortOf(Precedes, sorted, Supported(a, supported));
  }

  /* Clashing keys make two results. */

  lemma {:induction false} FirstOfKeyIsKept(s: seq<RtpExtension>, p: nat)
    requires p < |s| && forall i :: 0 <= i < p ==> !SameKey(s[i], s[p])
    ensures s[p] in Unique(s)
  {
    var n := |s| - 1;
    if p < n {
      FirstOfKeyIsKept(s[..n], p);
    } else if n > 0 {
      assert s[..n][n - 1] == s[n - 1];
    }
  }

  /** Positions of a key: its first one, and one where another extension has it. */
  lemma FindClash(s: seq<RtpExtension>, x: RtpExtension, y: RtpExtension) returns (p: nat, q: nat)
    requires x in s && y in s && x != y && SameKey(x, y)
    ensures p < q < |s| && SameKey(s[p], x) && SameKey(s[q], x) && s[p] != s[q]
    ensures forall i :: 0 <= i < p ==> !SameKey(s[i], x)
  {
    p := 0;
    while !SameKey(s[p], x)
      invariant p < |s| && x in s[p..]
      invariant forall i :: 0 <= i < p ==> !SameKey(s[i], x)
      decreases |s| - p
    {
      assert s[p..] == [s[p]] + s[p + 1..];
      p := p + 1;
    }
    q :| q < |s| && s[q] == if s[p] == x then y else x;
  }

  /** In a climbing list the encrypted form of a URI comes first. */
  lemma FirstFormIsEncrypted(u: seq<RtpExtension>, uri: string)
    requires Climbs(u) && FirstWith(u, uri) < |u|
    ensures u[FirstWith(u, uri)].encrypt <==> HasKey(u, uri, true)
  {
    var k := FirstWith(u, uri);
    if HasKey(u, uri, true) {
      var j :| 0 <= j < |u| && u[j].uri == uri && u[j].encrypt == true;
      assert k == j || Precedes(u[k], u[j]);
    }
  }

  /** What the reduction takes away from the distinct keys of `all`. */
  lemma ErasedIsFirst(u: seq<RtpExtension>, all: seq<RtpExtension>, sorted: seq<RtpExtension>)
    requires IsSortOf(Precedes, sorted, all) && u == Unique(sorted)
    ensures Climbs(u) && KeysDistinct(u)
    ensures Reduced(sorted, true) ==
              var k := FirstWith(u, TIMESTAMP_OFFSET_URI);
              if k < |u| && HasUri(all, ABS_SEND_TIME_URI) then Without(u, k) else u
    ensures var k := FirstWith(u, TIMESTAMP_OFFSET_URI);
      forall i :: 0 <= i < |u| ==> (Erased(all, u[i]) <==> i == k && HasUri(all, ABS_SEND_TIME_URI))
  {
    UniqueClimbs(sorted);
    ClimbingKeysDiffer(u);
    SameKeys(sorted, all, ABS_SEND_TIME_URI);
    SameKeys(sorted, all, TIMESTAMP_OFFSET_URI);
    UriHasAKey(u, ABS_SEND_TIME_URI);
    UriHasAKey(all, ABS_SEND_TIME_URI);
    DiscardOfTwo(u, ABS_SEND_TIME_URI, TIMESTAMP_OFFSET_URI);
    FirstWithFinds(u, ABS_SEND_TIME_URI);
    var k := FirstWith(u, TIMESTAMP_OFFSET_URI);
    if k < |u| {
      FirstFormIsEncrypted(u, TIMESTAMP_OFFSET_URI);
    }
    forall i | 0 <= i < |u|
      ensures Erased(all, u[i]) <==> i == k && HasUri(all, ABS_SEND_TIME_URI)
    {
      if u[i].uri == TIMESTAMP_OFFSET_URI {
        assert k <= i;
        assert k < i ==> !SameKey(u[k], u[i]);
        assert u[i].encrypt ==> HasKey(u, TIMESTAMP_OFFSET_URI, true);
      }
    }
  }

  /* ---- the result in terms of the input alone ---- */

  /** The names agree up to position `k`, where `a` has ended or has the smaller character. */
  ghost predicate LessAt(a: string, b: string, k: int) {
    && 0 <= k <= |a| && k < |b| && a[..k] == b[..k]
    && (k < |a| ==> a[k] < b[k])
  }

  lemma {:induction false} StringLessIsLexicographic(a: string, b: string)
    ensures StringLess(a, b) <==> exists k :: LessAt(a, b, k)
  {
    if a == [] || b == [] || a[0] != b[0] {
      forall k | LessAt(a, b, k) ensures StringLess(a, b) {
        PrefixesStartAlike(a, b, k);
      }
      if StringLess(a, b) {
        assert LessAt(a, b, 0);
      }
    } else {
      StringLessIsLexicographic(a[1..], b[1..]);
      if StringLess(a, b) {
        var k :| LessAt(a[1..], b[1..], k);
        assert a[..k + 1] == [a[0]] + a[1..][..k] && b[..k + 1] == [b[0]] + b[1..][..k];
        assert LessAt(a, b, k + 1);
      }
      if k :| LessAt(a, b, k) {
        LessBehind(a, b, k);
      }
    }
  }

  lemma PrefixesStartAlike(a: string, b: string, k: int)
    requires LessAt(a, b, k)
    ensures k > 0 ==> a[0] == b[0]
  {
    assert k > 0 ==> a[..k][0] == b[..k][0];
  }

  lemma LessBehind(a: string, b: string, k: int)
    requires LessAt(a, b, k) && a != [] && b != [] && a[0] == b[0]
    ensures k > 0 && LessAt(a[1..], b[1..], k - 1)
  {
    assert k != 0;
    assert a[..k][1..] == b[..k][1..];
    assert a[1..][..k - 1] == a[..k][1..] && b[1..][..k - 1] == b[..k][1..];
  }

  lemma ReducedClimbs(sorted: seq<RtpExtension>, all: seq<RtpExtension>)
    requires IsSortOf(Precedes, sorted, all)
    ensures Climbs(Reduced(sorted, true))
  {
    var u := Unique(sorted);
    ErasedIsFirst(u, all, sorted);
    if FirstWith(u, TIMESTAMP_OFFSET_URI) < |u| {
      EraseKeepsClimbing(u, FirstWith(u, TIMESTAMP_OFFSET_URI));
    }
  }

  lemma EraseKeepsClimbing(u: seq<RtpExtension>, k: nat)
    requires Climbs(u) && k < |u|
    ensures Climbs(Without(u, k))
  {
    var r := Without(u, k);
    forall i, j | 0 <= i < j < |r| ensures Precedes(r[i], r[j]) {
      assert r[i] == u[if i < k then i else i + 1] && r[j] == u[if j < k then j else j + 1];
    }
  }

  /** Encrypted extensions come first, and on each side names ascend, strictly where duplicates were removed. */
  lemma FilteredAscends(extensions: seq<RtpExtension>, supported: string -> bool, filterRedundant: bool,
                        r: seq<RtpExtension>, i: nat, j: nat)
    requires IsFiltered(extensions, supported, filterRedundant, r) && i < j < |r|
    ensures r[j].encrypt ==> r[i].encrypt
    ensures r[i].encrypt == r[j].encrypt ==>
              (exists k :: LessAt(r[i].uri, r[j].uri, k)) || (!filterRedundant && r[i].uri == r[j].uri)
  {
    var all := Supported(extensions, supported);
    var sorted :| IsSortOf(Precedes, sorted, all) && r == Reduced(sorted, filterRedundant);
    StringLessIsLexicographic(r[i].uri, r[j].uri);
    if filterRedundant {
      ReducedClimbs(sorted, all);
      assert Precedes(r[i], r[j]);
    } else {
      assert !Precedes(r[j], r[i]);
      StringLessIsTotal(r[i].uri, r[j].uri);
    }
  }

  /** Without the reduction: exactly the supported extensions, each as often as it came. */
  lemma FilteredIsSupported(extensions: seq<RtpExtension>, supported: string -> bool, r: seq<RtpExtension>, x: RtpExtension)
    requires IsFiltered(extensions, supported, false, r)
    ensures multiset(r)[x] == if supported(x.uri) then multiset(extensions)[x] else 0
  {
    SupportedCounts(extensions, supported, x);
  }

  lemma SupportedKey(extensions: seq<RtpExtension>, supported: string -> bool, uri: string, encrypt: bool)
    ensures HasKey(Supported(extensions, supported), uri, encrypt) <==>
              supported(uri) && HasKey(extensions, uri, encrypt)
  {
    var all := Supported(extensions, supported);
    if HasKey(all, uri, encrypt) {
      var i :| 0 <= i < |all| && all[i].uri == uri && all[i].encrypt == encrypt;
      assert all[i] in extensions;
      MemberHasKey(extensions, all[i]);
    }
    if supported(uri) && HasKey(extensions, uri, encrypt) {
      var i :| 0 <= i < |extensions| && extensions[i].uri == uri && extensions[i].encrypt == encrypt;
      assert extensions[i] in all;
      MemberHasKey(all, extensions[i]);
    }
  }

  /** With it: exactly the supported (uri, encrypt) pairs, save toffset beside a supported abs-send-time, of which
      the encrypted form goes, or the plain one if it is the only one. */
  lemma FilteredKeysExactly(extensions: seq<RtpExtension>, supported: string -> bool, r: seq<RtpExtension>,
                            uri: string, encrypt: bool)
    requires IsFiltered(extensions, supported, true, r)
    ensures HasKey(r, uri, encrypt) <==>
              && supported(uri) && HasKey(extensions, uri, encrypt)
              && !(&& uri == TIMESTAMP_OFFSET_URI
                   && supported(ABS_SEND_TIME_URI)
                   && (HasKey(extensions, ABS_SEND_TIME_URI, true) || HasKey(extensions, ABS_SEND_TIME_URI, false))
                   && (encrypt || !HasKey(extensions, TIMESTAMP_OFFSET_URI, true)))
  {
    var all := Supported(extensions, supported);
    var sorted :| IsSortOf(Precedes, sorted, all) && r == Reduced(sorted, true);
    SupportedKey(extensions, supported, uri, encrypt);
    SupportedKey(extensions, supported, ABS_SEND_TIME_URI, true);
    SupportedKey(extensions, supported, ABS_SEND_TIME_URI, false);
    SupportedKey(extensions, supported, TIMESTAMP_OFFSET_URI, true);
    UriHasAKey(all, ABS_SEND_TIME_URI);
    SameKeys(sorted, all, uri);
    ErasedIsFirst(Unique(sorted), all, sorted);
    KeysAfterErasing(Unique(sorted), r, FirstWith(Unique(sorted), TIMESTAMP_OFFSET_URI), all, uri, encrypt);
  }

  lemma KeysAfterErasing(u: seq<RtpExtension>, r: seq<RtpExtension>, k: nat, all: seq<RtpExtension>,
                         uri: string, encrypt: bool)
    requires r == if k < |u| && HasUri(all, ABS_SEND_TIME_URI) then Without(u, k) else u
    requires forall i :: 0 <= i < |u| ==> (Erased(all, u[i]) <==> i == k && HasUri(all, ABS_SEND_TIME_URI))
    ensures HasKey(r, uri, encrypt) <==> HasKey(u, uri, encrypt) && !Erased(all, RtpExtension(uri, 0, encrypt))
  {
    var erases := k < |u| && HasUri(all, ABS_SEND_TIME_URI);
    if HasKey(r, uri, encrypt) {
      var i :| 0 <= i < |r| && r[i].uri == uri && r[i].encrypt == encrypt;
      var j := if erases && i >= k then i + 1 else i;
      assert u[j] == r[i] && !Erased(all, u[j]);
    }
    if HasKey(u, uri, encrypt) && !Erased(all, RtpExtension(uri, 0, encrypt)) {
      var i :| 0 <= i < |u| && u[i].uri == uri && u[i].encrypt == encrypt;
      assert !Erased(all, u[i]);
      if erases {
        EraseKeepsMember(u, k, i);
      }
      MemberHasKey(r, u[i]);
    }
  }

  lemma OthersDiffer(u: seq<RtpExtension>, i: nat)
    requires KeysDistinct(u) && i < |u|
    ensures forall j :: 0 <= j < |u| && j != i ==> !SameKey(u[j], u[i])
  {
    forall j | 0 <= j < |u| && j != i ensures !SameKey(u[j], u[i]) {
      assert !SameKey(u[if i < j then i else j], u[if i < j then j else i]);
    }
  }

  lemma EraseKeepsMember(u: seq<RtpExtension>, k: nat, i: nat)
    requires k < |u| && i < |u| && i != k
    ensures u[i] in Without(u, k)
  {
    assert Without(u, k)[if i < k then i else i - 1] == u[i];
  }

  /** The first extension of a key that is not erased is in the result, and no other one of its key is. */
  lemma KeptStays(sorted: seq<RtpExtension>, all: seq<RtpExtension>, p: nat)
    requires IsSortOf(Precedes, sorted, all) && p < |sorted| && !Erased(all, sorted[p])
    requires forall i :: 0 <= i < p ==> !SameKey(sorted[i], sorted[p])
    ensures sorted[p] in Reduced(sorted, true)
    ensures forall x :: x in Reduced(sorted, true) && SameKey(x, sorted[p]) ==> x == sorted[p]
  {
    var u := Unique(sorted);
    FirstOfKeyIsKept(sorted, p);
    var i :| 0 <= i < |u| && u[i] == sorted[p];
    ErasedIsFirst(u, all, sorted);
    KeptInReduced(u, Reduced(sorted, true), FirstWith(u, TIMESTAMP_OFFSET_URI), i);
  }

  lemma KeptInReduced(u: seq<RtpExtension>, r: seq<RtpExtension>, k: nat, i: nat)
    requires KeysDistinct(u) && i < |u| && (r == u || (k < |u| && k != i && r == Without(u, k)))
    ensures u[i] in r
    ensures forall x :: x in r && SameKey(x, u[i]) ==> x == u[i]
  {
    OthersDiffer(u, i);
    if r != u {
      EraseKeepsMember(u, k, i);
    }
    forall x | x in r ensures x in u {}
  }

  lemma SortOfExtensions(all: seq<RtpExtension>) returns (s: seq<RtpExtension>)
    ensures IsSortOf(Precedes, s, all)
  {
    PrecedesIsAnOrder();
    s := SortExists(Precedes, all);
  }

  lemma SwapSameKeys(s: seq<RtpExtension>, all: seq<RtpExtension>, p: nat, q: nat)
    requires IsSortOf(Precedes, s, all) && p < q < |s| && SameKey(s[p], s[q])
    ensures IsSortOf(Precedes, Swapped(s, p, q), all)
  {
    PrecedesIsAnOrder();
    TiedMeansSameKey(s[p], s[q]);
    SwapKeepsSort(Precedes, s, p, q);
  }

  lemma ErasedByKey(all: seq<RtpExtension>, x: RtpExtension, y: RtpExtension)
    requires SameKey(x, y)
    ensures Erased(all, x) <==> Erased(all, y)
  {
  }

  lemma ClashMakesTwo(a: seq<RtpExtension>, supported: string -> bool, x: RtpExtension, y: RtpExtension)
    returns (ra: seq<RtpExtension>, rb: seq<RtpExtension>)
    requires x in Supported(a, supported) && y in Supported(a, supported) && x != y && SameKey(x, y)
    requires !Erased(Supported(a, supported), x)
    ensures IsFiltered(a, supported, true, ra) && IsFiltered(a, supported, true, rb) && ra != rb
  {
    var all := Supported(a, supported);
    var s := SortOfExtensions(all);
    SameMembers(s, all);
    var p, q := FindClash(s, x, y);
    var s' := Swapped(s, p, q);
    SwapSameKeys(s, all, p, q);
    ra, rb := Reduced(s, true), Reduced(s', true);
    ErasedByKey(all, x, s[p]);
    ErasedByKey(all, x, s[q]);
    FirstKeepsBeingFirst(s, p, q, x);
    KeptStays(s, all, p);
    KeptStays(s', all, p);
    assert s'[p] in rb && s'[p] !in ra;
  }

  lemma FirstKeepsBeingFirst(s: seq<RtpExtension>, p: nat, q: nat, x: RtpExtension)
    requires p < q < |s| && SameKey(s[p], x) && SameKey(s[q], x) && s[p] != s[q]
    requires forall i :: 0 <= i < p ==> !SameKey(s[i], x)
    ensures Swapped(s, p, q)[p] == s[q] != s[p] && SameKey(s[q], s[p])
    ensures forall i :: 0 <= i < p ==> !SameKey(s[i], s[p])
    ensures forall i :: 0 <= i < p ==> !SameKey(Swapped(s, p, q)[i], s[q])
  {
  }

  /* Without such clashes there is one. */

  /** The key of an extension, as an extension. */
  function KeyOf(x: RtpExtension): RtpExtension {
    x.(id := 0)
  }

  lemma KeysOfClimbing(u: seq<RtpExtension>, x: RtpExtension)
    requires Climbs(u)
    ensures SortedBy(Precedes, Map(KeyOf, u)) && NoDuplicates(Map(KeyOf, u)) && Decides(Precedes, Map(KeyOf, u))
    ensures x in Map(KeyOf, u) <==> x.id == 0 && HasKey(u, x.uri, x.encrypt)
  {
    var m := Map(KeyOf, u);
    ClimbingKeysDiffer(u);
    forall i, j | 0 <= i < j < |m| ensures !Precedes(m[j], m[i]) && m[i] != m[j] {
      assert Precedes(u[i], u[j]) && !SameKey(u[i], u[j]);
      StringLessIsTotal(u[i].uri, u[j].uri);
    }
    forall y, z | y in m && z in m && y != z ensures Precedes(y, z) || Precedes(z, y) {
      TiedMeansSameKey(y, z);
      assert y.id == 0 && z.id == 0;
    }
    if HasKey(u, x.uri, x.encrypt) && x.id == 0 {
      var i :| 0 <= i < |u| && u[i].uri == x.uri && u[i].encrypt == x.encrypt;
      assert m[i] == x;
    }
  }

  /** Climbing lists with the same keys have them at the same places. */
  lemma ClimbingKeysAgree(u: seq<RtpExtension>, v: seq<RtpExtension>)
    requires Climbs(u) && Climbs(v)
    requires forall uri, encrypt :: HasKey(u, uri, encrypt) <==> HasKey(v, uri, encrypt)
    ensures |u| == |v| && forall i :: 0 <= i < |u| ==> SameKey(u[i], v[i])
  {
    var mu, mv := Map(KeyOf, u), Map(KeyOf, v);
    forall x ensures x in mu <==> x in mv {
      KeysOfClimbing(u, x);
      KeysOfClimbing(v, x);
    }
    KeysOfClimbing(u, RtpExtension("", 0, false));
    KeysOfClimbing(v, RtpExtension("", 0, false));
    SameSetSameMultiset(mu, mv);
    SortIsUnique(Precedes, mu, mv);
    forall i | 0 <= i < |u| ensures SameKey(u[i], v[i]) {
      assert mu[i] == mv[i];
    }
  }

  lemma {:induction false} FirstWithAgrees(u: seq<RtpExtension>, v: seq<RtpExtension>, uri: string)
    requires |u| == |v| && forall i :: 0 <= i < |u| ==> u[i].uri == v[i].uri
    ensures FirstWith(u, uri) == FirstWith(v, uri)
  {
    var k, l := FirstWith(u, uri), FirstWith(v, uri);
    assert k < |u| ==> v[k].uri == uri;
    assert l < |u| ==> u[l].uri == uri;
  }

  lemma SameKeysAtPlaces(all: seq<RtpExtension>, sa: seq<RtpExtension>, sb: seq<RtpExtension>)
    requires IsSortOf(Precedes, sa, all) && IsSortOf(Precedes, sb, all)
    ensures |Unique(sa)| == |Unique(sb)|
    ensures forall i :: 0 <= i < |Unique(sa)| ==> SameKey(Unique(sa)[i], Unique(sb)[i])
  {
    var u, v := Unique(sa), Unique(sb);
    UniqueClimbs(sa);
    UniqueClimbs(sb);
    forall uri, encrypt ensures HasKey(u, uri, encrypt) <==> HasKey(v, uri, encrypt) {
      SameKeys(sa, all, uri);
      SameKeys(sb, all, uri);
    }
    ClimbingKeysAgree(u, v);
  }

  /** Lists that agree wherever they are not erased agree after the erase. */
  lemma EraseAgrees(u: seq<RtpExtension>, v: seq<RtpExtension>, k: nat, erase: bool)
    requires |u| == |v| && k <= |u|
    requires forall i :: 0 <= i < |u| && !(i == k && erase) ==> u[i] == v[i]
    ensures (if k < |u| && erase then Without(u, k) else u) == (if k < |v| && erase then Without(v, k) else v)
  {
  }

  lemma NoClashMakesOne(all: seq<RtpExtension>, sa: seq<RtpExtension>, sb: seq<RtpExtension>)
    requires ClashesErased(all, true) && IsSortOf(Precedes, sa, all) && IsSortOf(Precedes, sb, all)
    ensures Reduced(sa, true) == Reduced(sb, true)
  {
    var u, v := Unique(sa), Unique(sb);
    SameKeysAtPlaces(all, sa, sb);
    FirstWithAgrees(u, v, TIMESTAMP_OFFSET_URI);
    ErasedIsFirst(u, all, sa);
    ErasedIsFirst(v, all, sb);
    var k, erase := FirstWith(u, TIMESTAMP_OFFSET_URI), HasUri(all, ABS_SEND_TIME_URI);
    forall i | 0 <= i < |u| && !(i == k && erase) ensures u[i] == v[i] {
      UniqueMembers(sa, all);
      UniqueMembers(sb, all);
      assert u[i] in all && v[i] in all && SameKey(u[i], v[i]) && !Erased(all, u[i]);
    }
    EraseAgrees(u, v, k, erase);
  }

  lemma UniqueMembers(sorted: seq<RtpExtension>, all: seq<RtpExtension>)
    requires multiset(sorted) == multiset(all)
    ensures forall x :: x in Unique(sorted) ==> x in all
  {
    UniqueIsWithin(sorted);
    forall x | x in Unique(sorted) ensures x in all {
      assert x in multiset(Unique(sorted)) && x in multiset(all);
    }
  }

  /** The filtered list is determined exactly when different extensions share a key only where it is erased
      anyway. Without the reduction that means: when no two different ones share a key. */
  lemma FilterIsDeterminedExactly(a: seq<RtpExtension>, supported: string -> bool, filterRedundant: bool)
    ensures Determined(a, supported, filterRedundant) <==> ClashesErased(Supported(a, supported), filterRedundant)
  {
    if filterRedundant {
      ReducedIsDeterminedExactly(a, supported);
    } else {
      UnreducedIsDeterminedExactly(a, supported);
    }
  }

  lemma ReducedIsDeterminedExactly(a: seq<RtpExtension>, supported: string -> bool)
    ensures Determined(a, supported, true) <==> ClashesErased(Supported(a, supported), true)
  {
    var all := Supported(a, supported);
    if ClashesErased(all, true) {
      forall b, ra, rb | multiset(a) == multiset(b) && IsFiltered(a, supported, true, ra) && IsFiltered(b, supported, true, rb)
        ensures ra == rb
      {
        FilterIgnoresOrder(a, b, supported, true, rb);
        var sa :| IsSortOf(Precedes, sa, all) && ra == Reduced(sa, true);
        var sb :| IsSortOf(Precedes, sb, all) && rb == Reduced(sb, true);
        NoClashMakesOne(all, sa, sb);
      }
    } else {
      var x, y :| x in all && y in all && x != y && SameKey(x, y) && !Erased(all, x);
      var ra, rb := ClashMakesTwo(a, supported, x, y);
    }
  }

  lemma ClashesAreTies(all: seq<RtpExtension>)
    ensures ClashesErased(all, false) <==> Decides(Precedes, all)
  {
    forall x, y ensures Precedes(x, y) || Precedes(y, x) <==> !SameKey(x, y) {
      TiedMeansSameKey(x, y);
    }
  }

  lemma UnreducedIsDeterminedExactly(a: seq<RtpExtension>, supported: string -> bool)
    ensures Determined(a, supported, false) <==> ClashesErased(Supported(a, supported), false)
  {
    var all := Supported(a, supported);
    ClashesAreTies(all);
    PrecedesIsAnOrder();
    SortIsDeterminedExactly(Precedes, all);
    if ClashesErased(all, false) {
      forall b, ra, rb | multiset(a) == multiset(b) && IsFiltered(a, supported, false, ra) && IsFiltered(b, supported, false, rb)
        ensures ra == rb
      {
        FilterIgnoresOrder(a, b, supported, false, rb);
        assert IsSortOf(Precedes, ra, all) && IsSortOf(Precedes, rb, all);
      }
    } else {
      var ra, rb :| IsSortOf(Precedes, ra, all) && IsSortOf(Precedes, rb, all) && ra != rb;
      UnreducedIsFiltered(a, ra, supported);
      UnreducedIsFiltered(a, rb, supported);
    }
  }

  /** With unique ids, as the caller checks, two entries with one key always clash. */
  lemma UniqueIdsClash(a: seq<RtpExtension>, supported: string -> bool)
    requires IdsUnique(a)
    ensures ClashesErased(Supported(a, supported), false) <==> KeysDistinct(Supported(a, supported))
  {
    var all := Supported(a, supported);
    if KeysDistinct(all) {
      DistinctKeysDecide(all);
      ClashesAreTies(all);
    } else {
      var i, j :| 0 <= i < j < |all| && SameKey(all[i], all[j]);
      SupportedIsWithin(a, supported);
      if all[i] == all[j] {
        TwiceInMultiset(all, i, j);
        assert all[i] in multiset(a);
        var k :| 0 <= k < |a| && a[k] == all[i];
        OnceInMultiset(a, k);
        assert false;
      }
    }
  }

  lemma SupportedIsWithin(a: seq<RtpExtension>, supported: string -> bool)
    ensures Within(Supported(a, supported), a)
  {
    forall x ensures multiset(Supported(a, supported))[x] <= multiset(a)[x] {
      SupportedCounts(a, supported, x);
    }
  }
}
