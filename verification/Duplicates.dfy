/** Grouping certificates by fingerprint, `duplicates.go`, and the counts `main.go`
    collects while results stream in: both tell the same story. */
module Duplicates {
  import opened Common
  import opened Content
  import opened Ordering

  datatype Location = Location(path: string, entries: seq<string>, index: nat, keystore: Keystore)

  datatype Group = Group(certificate: Certificate, locations: seq<Location>)

  datatype Summary = Summary(matched: nat, unique: nat, duplicateOccurrences: nat)

  function KeyOf(c: Certificate): Key {
    Key(c.path, c.entries, c.index)
  }

  function LocationOf(c: Certificate): Location {
    Location(c.path, c.entries, c.index, c.keystore)
  }

  /** The SHA-256 fingerprint of a certificate. */
  type Fingerprint = Bytes -> string

  function Print(hash: Fingerprint, c: Certificate): string {
    hash(c.der)
  }

  // ----------------------------------------------------------------- what grouping is

  /** The certificates with a fingerprint, in their order. */
  function Having(s: seq<Certificate>, hash: Fingerprint, print_: string): seq<Certificate> {
    if s == [] then []
    else
      var last := s[|s| - 1];
      Having(s[..|s| - 1], hash, print_) + if Print(hash, last) == print_ then [last] else []
  }

  function Locations(s: seq<Certificate>): seq<Location> {
    seq(|s|, i requires 0 <= i < |s| => LocationOf(s[i]))
  }

  function TotalLocations(groups: seq<Group>): nat {
    if groups == [] then 0 else |groups[0].locations| + TotalLocations(groups[1..])
  }

  /** Every group has the certificates of one fingerprint: it shows the first of them and
      locates all of them in order. */
  predicate IsGroup(g: Group, s: seq<Certificate>, hash: Fingerprint) {
    var members := Having(s, hash, Print(hash, g.certificate));
    members != [] && g.certificate == members[0] && g.locations == Locations(members)
  }

  /** The first place of a fingerprint, or the length if it does not occur. */
  function FirstPlace(s: seq<Certificate>, hash: Fingerprint, print_: string): (i: nat)
    ensures i <= |s|
    ensures i < |s| ==> Print(hash, s[i]) == print_
    ensures forall k :: 0 <= k < i ==> Print(hash, s[k]) != print_
  {
    if s == [] then 0
    else
      var i := FirstPlace(s[..|s| - 1], hash, print_);
      if i < |s| - 1 || Print(hash, s[|s| - 1]) == print_ then i else |s|
  }

  predicate AllGroups(groups: seq<Group>, s: seq<Certificate>, hash: Fingerprint) {
    forall g :: 0 <= g < |groups| ==> IsGroup(groups[g], s, hash)
  }

  predicate DistinctPrints(groups: seq<Group>, hash: Fingerprint) {
    forall g, h :: 0 <= g < h < |groups| ==> Print(hash, groups[g].certificate) != Print(hash, groups[h].certificate)
  }

  predicate Covers(groups: seq<Group>, s: seq<Certificate>, hash: Fingerprint) {
    forall i :: 0 <= i < |s| ==>
      exists g :: 0 <= g < |groups| && Print(hash, groups[g].certificate) == Print(hash, s[i])
  }

  predicate InFirstOrder(groups: seq<Group>, s: seq<Certificate>, hash: Fingerprint) {
    forall g, h :: 0 <= g < h < |groups| ==>
      FirstPlace(s, hash, Print(hash, groups[g].certificate)) < FirstPlace(s, hash, Print(hash, groups[h].certificate))
  }

  /** Groups have distinct fingerprints, cover every certificate, stand in the order in
      which their fingerprints first occur, and together locate each certificate once. */
  predicate IsGrouping(groups: seq<Group>, s: seq<Certificate>, hash: Fingerprint) {
    && AllGroups(groups, s, hash) && DistinctPrints(groups, hash) && Covers(groups, s, hash)
    && InFirstOrder(groups, s, hash) && TotalLocations(groups) == |s|
  }

  // ----------------------------------------------------------------- one more certificate

  lemma {:induction false} TotalUpdate(groups: seq<Group>, i: nat, g: Group)
    requires i < |groups|
    ensures TotalLocations(groups[i := g]) + |groups[i].locations| == TotalLocations(groups) + |g.locations|
  {
    if i > 0 {
      assert groups[i := g][1..] == groups[1..][i - 1 := g];
      TotalUpdate(groups[1..], i - 1, g);
    } else {
      assert groups[i := g][1..] == groups[1..];
    }
  }

  lemma {:induction false} TotalAppend(groups: seq<Group>, g: Group)
    ensures TotalLocations(groups + [g]) == TotalLocations(groups) + |g.locations|
  {
    if groups != [] {
      assert (groups + [g])[1..] == groups[1..] + [g];
      TotalAppend(groups[1..], g);
    }
  }

  lemma HavingOneMore(s: seq<Certificate>, c: Certificate, hash: Fingerprint, print_: string)
    ensures Having(s + [c], hash, print_) == Having(s, hash, print_) + if Print(hash, c) == print_ then [c] else []
    ensures FirstPlace(s, hash, print_) < |s| ==> FirstPlace(s + [c], hash, print_) == FirstPlace(s, hash, print_)
  {
  }

  lemma {:induction false} HavingNone(s: seq<Certificate>, hash: Fingerprint, print_: string)
    ensures Having(s, hash, print_) == [] <==> forall i :: 0 <= i < |s| ==> Print(hash, s[i]) != print_
    ensures forall c <- Having(s, hash, print_) :: Print(hash, c) == print_
    decreases |s|
  {
    if s != [] {
      HavingNone(s[..|s| - 1], hash, print_);
    }
  }

  lemma NewGroup(s: seq<Certificate>, c: Certificate, hash: Fingerprint)
    requires forall i :: 0 <= i < |s| ==> Print(hash, s[i]) != Print(hash, c)
    ensures IsGroup(Group(c, [LocationOf(c)]), s + [c], hash)
  {
    HavingOneMore(s, c, hash, Print(hash, c));
    HavingNone(s, hash, Print(hash, c));
    assert Having(s + [c], hash, Print(hash, c)) == [c];
  }

  lemma {:induction false} GroupOccurs(g: Group, s: seq<Certificate>, hash: Fingerprint)
    requires IsGroup(g, s, hash)
    ensures FirstPlace(s, hash, Print(hash, g.certificate)) < |s|
  {
    hide FirstPlace, Having;
    HavingNone(s, hash, Print(hash, g.certificate));
  }

  /** The first places of the groups do not move when a certificate is added. */
  lemma PlacesStay(groups: seq<Group>, s: seq<Certificate>, c: Certificate, hash: Fingerprint)
    requires AllGroups(groups, s, hash)
    ensures forall g :: 0 <= g < |groups| ==>
      FirstPlace(s + [c], hash, Print(hash, groups[g].certificate)) ==
        FirstPlace(s, hash, Print(hash, groups[g].certificate)) < |s|
  {
    hide IsGroup, Having;
    forall g | 0 <= g < |groups|
      ensures FirstPlace(s + [c], hash, Print(hash, groups[g].certificate))
           == FirstPlace(s, hash, Print(hash, groups[g].certificate)) < |s|
    {
      GroupOccurs(groups[g], s, hash);
      HavingOneMore(s, c, hash, Print(hash, groups[g].certificate));
    }
  }

  lemma GroupsGrow(groups: seq<Group>, s: seq<Certificate>, c: Certificate, hash: Fingerprint, i: nat)
    requires AllGroups(groups, s, hash) && DistinctPrints(groups, hash)
    requires i < |groups| && Print(hash, groups[i].certificate) == Print(hash, c)
    ensures AllGroups(groups[i := groups[i].(locations := groups[i].locations + [LocationOf(c)])], s + [c], hash)
  {
  }

  lemma StillCovers(
    groups: seq<Group>, grown: seq<Group>, s: seq<Certificate>, c: Certificate, hash: Fingerprint, i: nat)
    requires Covers(groups, s, hash) && |groups| <= |grown| && i < |grown|
    requires forall g :: 0 <= g < |groups| ==> grown[g].certificate == groups[g].certificate
    requires Print(hash, grown[i].certificate) == Print(hash, c)
    ensures Covers(grown, s + [c], hash)
  {
  }

  lemma GroupingGrows(groups: seq<Group>, s: seq<Certificate>, c: Certificate, hash: Fingerprint, i: nat)
    requires IsGrouping(groups, s, hash) && i < |groups| && Print(hash, groups[i].certificate) == Print(hash, c)
    ensures IsGrouping(groups[i := groups[i].(locations := groups[i].locations + [LocationOf(c)])], s + [c], hash)
  {
    hide AllGroups, Covers, FirstPlace;
    var grown := groups[i := groups[i].(locations := groups[i].locations + [LocationOf(c)])];
    TotalUpdate(groups, i, grown[i]);
    GroupsGrow(groups, s, c, hash, i);
    PlacesStay(groups, s, c, hash);
    StillCovers(groups, grown, s, c, hash, i);
  }

  lemma NothingBefore(groups: seq<Group>, s: seq<Certificate>, c: Certificate, hash: Fingerprint)
    requires Covers(groups, s, hash)
    requires forall g :: 0 <= g < |groups| ==> Print(hash, groups[g].certificate) != Print(hash, c)
    ensures forall i :: 0 <= i < |s| ==> Print(hash, s[i]) != Print(hash, c)
    ensures FirstPlace(s + [c], hash, Print(hash, c)) == |s|
  {
  }

  lemma GroupsExtend(groups: seq<Group>, s: seq<Certificate>, c: Certificate, hash: Fingerprint)
    requires AllGroups(groups, s, hash) && IsGroup(Group(c, [LocationOf(c)]), s + [c], hash)
    requires forall g :: 0 <= g < |groups| ==> Print(hash, groups[g].certificate) != Print(hash, c)
    ensures AllGroups(groups + [Group(c, [LocationOf(c)])], s + [c], hash)
  {
  }

  lemma GroupingExtends(groups: seq<Group>, s: seq<Certificate>, c: Certificate, hash: Fingerprint)
    requires IsGrouping(groups, s, hash)
    requires forall g :: 0 <= g < |groups| ==> Print(hash, groups[g].certificate) != Print(hash, c)
    ensures IsGrouping(groups + [Group(c, [LocationOf(c)])], s + [c], hash)
  {
    hide AllGroups, Covers, FirstPlace, IsGroup, Print;
    var grown := groups + [Group(c, [LocationOf(c)])];
    TotalAppend(groups, Group(c, [LocationOf(c)]));
    NothingBefore(groups, s, c, hash);
    NewGroup(s, c, hash);
    GroupsExtend(groups, s, c, hash);
    PlacesStay(groups, s, c, hash);
    StillCovers(groups, grown, s, c, hash, |groups|);
  }

  // -------------------------------------------------------------------- the functions

  lemma NoGroups(s: seq<Certificate>, hash: Fingerprint)
    requires s == []
    ensures IsGrouping([], s, hash)
  {
  }

  /** `groupCertificates`: sorts the slice in place, then groups it in one pass. */
  method GroupCertificates(certificates: array<Certificate>, hash: Fingerprint) returns (groups: seq<Group>)
    modifies certificates
    ensures IsSortOf(certificates[..], old(certificates[..]), KeyOf)
    ensures IsGrouping(groups, certificates[..], hash)
  {
    hide IsGrouping, IsSortOf, Print;
    SortInPlace(certificates, KeyOf);
    groups := [];
    NoGroups(certificates[..0], hash);
    var groupByFingerprint: map<string, nat> := map[];
    var index := 0;
    while index < certificates.Length
      invariant 0 <= index <= certificates.Length
      invariant IsSortOf(certificates[..], old(certificates[..]), KeyOf)
      invariant IsGrouping(groups, certificates[..index], hash)
      invariant forall f <- groupByFingerprint ::
        groupByFingerprint[f] < |groups| && Print(hash, groups[groupByFingerprint[f]].certificate) == f
      invariant forall g :: 0 <= g < |groups| ==> Print(hash, groups[g].certificate) in groupByFingerprint
    {
      var certificate := certificates[index];
      assert certificates[..index + 1] == certificates[..index] + [certificate];
      var fingerprint := Print(hash, certificate);
      if fingerprint in groupByFingerprint {
        var groupIndex := groupByFingerprint[fingerprint];
        GroupingGrows(groups, certificates[..index], certificate, hash, groupIndex);
        var more := groups[groupIndex].locations + [LocationOf(certificate)];
        groups := groups[groupIndex := groups[groupIndex].(locations := more)];
      } else {
        GroupingExtends(groups, certificates[..index], certificate, hash);
        groupByFingerprint := groupByFingerprint[fingerprint := |groups|];
        groups := groups + [Group(certificate, [LocationOf(certificate)])];
      }
      index := index + 1;
    }
    assert certificates[..certificates.Length] == certificates[..];
  }

  /** `duplicateCertificateGroups`: the groups with more than one location, in order. */
  method DuplicateGroups(groups: seq<Group>) returns (duplicates: seq<Group>)
    ensures duplicates == Repeated(groups)
    ensures forall g :: g in duplicates <==> g in groups && |g.locations| > 1
  {
    duplicates := [];
    var index := 0;
    while index < |groups|
      invariant 0 <= index <= |groups|
      invariant duplicates == Repeated(groups[..index])
      invariant forall g :: g in duplicates <==> g in groups[..index] && |g.locations| > 1
    {
      assert groups[..index + 1][..index] == groups[..index];
      if |groups[index].locations| > 1 {
        duplicates := duplicates + [groups[index]];
      }
      index := index + 1;
    }
    assert groups[..|groups|] == groups;
  }

  function Repeated(groups: seq<Group>): seq<Group> {
    if groups == [] then []
    else
      var last := groups[|groups| - 1];
      Repeated(groups[..|groups| - 1]) + if |last.locations| > 1 then [last] else []
  }

  // ------------------------------------------------------------------ streaming counts

  function Occurrences(s: seq<Certificate>, hash: Fingerprint, print_: string): nat {
    |Having(s, hash, print_)|
  }

  /** The counts are those of the certificates that have arrived. */
  ghost predicate CountsOf(counts: map<string, nat>, arrived: seq<Certificate>, hash: Fingerprint) {
    && (forall i :: 0 <= i < |arrived| ==> Print(hash, arrived[i]) in counts)
    && (forall f <- counts :: counts[f] == Occurrences(arrived, hash, f) >= 1)
  }

  lemma NoneArrived(arrived: seq<Certificate>, hash: Fingerprint)
    requires arrived == []
    ensures CountsOf(map[], arrived, hash)
  {
  }

  /** The counting callback, once for every matching certificate in arrival order. */
  method CountIdentities(arrived: seq<Certificate>, hash: Fingerprint) returns (counts: map<string, nat>)
    ensures CountsOf(counts, arrived, hash)
  {
    hide Having, Print;
    counts := map[];
    NoneArrived(arrived[..0], hash);
    var index := 0;
    while index < |arrived|
      invariant 0 <= index <= |arrived|
      invariant CountsOf(counts, arrived[..index], hash)
    {
      var f := Print(hash, arrived[index]);
      assert arrived[..index + 1] == arrived[..index] + [arrived[index]];
      forall g: string
        ensures Occurrences(arrived[..index + 1], hash, g)
             == Occurrences(arrived[..index], hash, g) + if g == f then 1 else 0
      {
        HavingOneMore(arrived[..index], arrived[index], hash, g);
      }
      if f !in counts {
        HavingNone(arrived[..index], hash, f);
      }
      counts := counts[f := (if f in counts then counts[f] else 0) + 1];
      index := index + 1;
    }
    assert arrived[..|arrived|] == arrived;
  }

  /** The sum of the counts, and of what each has above one, in any order. */
  ghost function Matched(counts: map<string, nat>): nat {
    if counts == map[] then 0
    else
      var f :| f in counts;
      counts[f] + Matched(counts - {f})
  }

  ghost function Surplus(counts: map<string, nat>): nat {
    if counts == map[] then 0
    else
      var f :| f in counts;
      (if counts[f] > 1 then counts[f] - 1 else 0) + Surplus(counts - {f})
  }

  lemma {:induction false} MatchedRemove(counts: map<string, nat>, f: string)
    requires f in counts
    ensures Matched(counts) == counts[f] + Matched(counts - {f})
    decreases |counts|
  {
    var g :| g in counts && Matched(counts) == counts[g] + Matched(counts - {g});
    if g != f {
      MatchedRemove(counts - {g}, f);
      MatchedRemove(counts - {f}, g);
      assert counts - {g} - {f} == counts - {f} - {g};
    }
  }

  lemma {:induction false} SurplusRemove(counts: map<string, nat>, f: string)
    requires f in counts
    ensures Surplus(counts) == (if counts[f] > 1 then counts[f] - 1 else 0) + Surplus(counts - {f})
    decreases |counts|
  {
    var g :| g in counts && Surplus(counts) == (if counts[g] > 1 then counts[g] - 1 else 0) + Surplus(counts - {g});
    if g != f {
      SurplusRemove(counts - {g}, f);
      SurplusRemove(counts - {f}, g);
      assert counts - {g} - {f} == counts - {f} - {g};
    }
  }

  /** The counts of some fingerprints. */
  function Only(counts: map<string, nat>, prints: set<string>): map<string, nat> {
    map f | f in counts && f in prints :: counts[f]
  }

  lemma OnlyAll(counts: map<string, nat>)
    ensures Only(counts, counts.Keys) == counts && Matched(Only(counts, {})) == 0 && Surplus(Only(counts, {})) == 0
  {
    assert Only(counts, {}) == map[];
  }

  lemma OneFewer(counts: map<string, nat>, prints: set<string>, f: string)
    requires f in prints && f in counts
    ensures Matched(Only(counts, prints)) == counts[f] + Matched(Only(counts, prints - {f}))
    ensures Surplus(Only(counts, prints))
         == (if counts[f] > 1 then counts[f] - 1 else 0) + Surplus(Only(counts, prints - {f}))
  {
    hide Matched, Surplus;
    MatchedRemove(Only(counts, prints), f);
    SurplusRemove(Only(counts, prints), f);
    assert Only(counts, prints) - {f} == Only(counts, prints - {f});
  }

  /** `summarizeCertificateIdentities`, whatever order the map is ranged over in. */
  method Summarize(counts: map<string, nat>) returns (summary: Summary)
    ensures summary == Summary(Matched(counts), |counts|, Surplus(counts))
  {
    hide Matched, Surplus, Only;
    var matched, surplus: nat := 0, 0;
    var left := counts.Keys;
    OnlyAll(counts);
    while left != {}
      invariant left <= counts.Keys
      invariant Matched(counts) == matched + Matched(Only(counts, left))
      invariant Surplus(counts) == surplus + Surplus(Only(counts, left))
      decreases left
    {
      var f :| f in left;
      OneFewer(counts, left, f);
      matched := matched + counts[f];
      if counts[f] > 1 {
        surplus := surplus + counts[f] - 1;
      }
      left := left - {f};
    }
    return Summary(matched, |counts|, surplus);
  }

  // ------------------------------------------------------------------------ agreement

  lemma {:induction false} SurplusOfPositive(counts: map<string, nat>)
    requires forall f <- counts :: counts[f] >= 1
    ensures Surplus(counts) + |counts| == Matched(counts)
    decreases |counts|
  {
    if counts != map[] {
      var f :| f in counts;
      MatchedRemove(counts, f);
      SurplusRemove(counts, f);
      SurplusOfPositive(counts - {f});
      assert |counts - {f}| == |counts| - 1;
    }
  }

  ghost predicate KeysAre(counts: map<string, nat>, groups: seq<Group>, hash: Fingerprint) {
    && (forall f <- counts :: exists g :: 0 <= g < |groups| && Print(hash, groups[g].certificate) == f)
    && (forall g :: 0 <= g < |groups| ==> Print(hash, groups[g].certificate) in counts)
    && (forall g :: 0 <= g < |groups| ==> counts[Print(hash, groups[g].certificate)] == |groups[g].locations|)
  }

  lemma KeysOfRest(counts: map<string, nat>, groups: seq<Group>, hash: Fingerprint)
    requires groups != [] && KeysAre(counts, groups, hash) && DistinctPrints(groups, hash)
    ensures KeysAre(counts - {Print(hash, groups[0].certificate)}, groups[1..], hash) &&
            DistinctPrints(groups[1..], hash)
  {
  }

  /** The sum over the fingerprints of a list of groups. */
  lemma {:induction false} MatchedIsTotal(counts: map<string, nat>, groups: seq<Group>, hash: Fingerprint)
    requires KeysAre(counts, groups, hash) && DistinctPrints(groups, hash)
    ensures Matched(counts) == TotalLocations(groups) && |counts| == |groups|
    decreases |groups|
  {
    if groups == [] {
      assert counts == map[];
    } else {
      var f := Print(hash, groups[0].certificate);
      assert f in counts && counts[f] == |groups[0].locations|;
      MatchedRemove(counts, f);
      KeysOfRest(counts, groups, hash);
      MatchedIsTotal(counts - {f}, groups[1..], hash);
      assert |counts - {f}| == |counts| - 1;
    }
  }

  lemma {:induction false} HavingFilters(s: seq<Certificate>, hash: Fingerprint, print_: string)
    ensures forall c: Certificate ::
      multiset(Having(s, hash, print_))[c] == if Print(hash, c) == print_ then multiset(s)[c] else 0
    decreases |s|
  {
    if s != [] {
      HavingFilters(s[..|s| - 1], hash, print_);
      assert s == s[..|s| - 1] + [s[|s| - 1]];
    }
  }

  /** A fingerprint occurs equally often in every order of the same certificates. */
  lemma OccurrencesOfPermutation(s: seq<Certificate>, t: seq<Certificate>, hash: Fingerprint, print_: string)
    requires multiset(s) == multiset(t)
    ensures Occurrences(s, hash, print_) == Occurrences(t, hash, print_)
  {
    HavingFilters(s, hash, print_);
    HavingFilters(t, hash, print_);
    var a, b := Having(s, hash, print_), Having(t, hash, print_);
    assert multiset(a) == multiset(b);
    assert |a| == |multiset(a)| == |multiset(b)| == |b|;
  }

  lemma CountsFitGroups(
    counts: map<string, nat>, arrived: seq<Certificate>, sorted: seq<Certificate>, groups: seq<Group>,
    hash: Fingerprint)
    requires CountsOf(counts, arrived, hash) && multiset(arrived) == multiset(sorted)
    requires IsGrouping(groups, sorted, hash)
    ensures KeysAre(counts, groups, hash)
  {
    hide Print, FirstPlace;
    forall f <- counts ensures exists g :: 0 <= g < |groups| && Print(hash, groups[g].certificate) == f {
      OccurrencesOfPermutation(arrived, sorted, hash, f);
      HavingNone(sorted, hash, f);
      var i :| 0 <= i < |sorted| && Print(hash, sorted[i]) == f;
    }
    forall g | 0 <= g < |groups|
      ensures Print(hash, groups[g].certificate) in counts
      ensures counts[Print(hash, groups[g].certificate)] == |groups[g].locations|
    {
      var f := Print(hash, groups[g].certificate);
      assert IsGroup(groups[g], sorted, hash);
      OccurrencesOfPermutation(arrived, sorted, hash, f);
      HavingNone(arrived, hash, f);
    }
  }

  /** The summary built from counts of certificates in any arrival order agrees with the
      groups of the sorted certificates. */
  lemma SummaryAgreesWithGroups(
    counts: map<string, nat>, arrived: seq<Certificate>, sorted: seq<Certificate>, groups: seq<Group>,
    hash: Fingerprint)
    requires CountsOf(counts, arrived, hash) && multiset(arrived) == multiset(sorted)
    requires IsGrouping(groups, sorted, hash)
    ensures
      && Matched(counts) == TotalLocations(groups) == |arrived|
      && |counts| == |groups|
      && Surplus(counts) == |arrived| - |groups|
  {
    CountsFitGroups(counts, arrived, sorted, groups, hash);
    MatchedIsTotal(counts, groups, hash);
    SurplusOfPositive(counts);
    assert |arrived| == |multiset(arrived)| == |multiset(sorted)| == |sorted|;
  }

  // ------------------------------------------------- groups and counts by position

  /** The positions of the wanted elements, in order. */
  function Places<T>(s: seq<T>, wanted: T -> bool): seq<nat> {
    if s == [] then []
    else
      var last := |s| - 1;
      Places(s[..last], wanted) + if wanted(s[last]) then [last] else []
  }

  ghost predicate ArePlaces<T(!new)>(places: seq<nat>, s: seq<T>, wanted: T -> bool) {
    && (forall k, l :: 0 <= k < l < |places| ==> places[k] < places[l])
    && (forall i: nat :: i in places <==> i < |s| && wanted(s[i]))
  }

  lemma {:induction false} PlacesAre<T(!new)>(s: seq<T>, wanted: T -> bool)
    ensures ArePlaces(Places(s, wanted), s, wanted)
    decreases |s|
  {
    if s != [] {
      PlacesAre(s[..|s| - 1], wanted);
      OneMorePlace(Places(s[..|s| - 1], wanted), s, wanted);
    }
  }

  lemma OneMorePlace<T(!new)>(before: seq<nat>, s: seq<T>, wanted: T -> bool)
    requires s != [] && ArePlaces(before, s[..|s| - 1], wanted)
    ensures ArePlaces(before + if wanted(s[|s| - 1]) then [|s| - 1] else [], s, wanted)
  {
    var last := |s| - 1;
    forall k | 0 <= k < |before| ensures before[k] < last {
      assert before[k] in before;
    }
    forall i: nat ensures i in before <==> i < last && wanted(s[i]) {
      assert i < last ==> s[..last][i] == s[i];
    }
  }

  lemma {:induction false} HavingByPlace(s: seq<Certificate>, hash: Fingerprint, print_: string)
    ensures
      var places := Places(s, (c: Certificate) => hash(c.der) == print_);
      && |Having(s, hash, print_)| == |places|
      && forall k :: 0 <= k < |places| ==> places[k] < |s| && Having(s, hash, print_)[k] == s[places[k]]
    decreases |s|
  {
    if s != [] {
      HavingByPlace(s[..|s| - 1], hash, print_);
    }
  }

  /** A group of the certificates at some places: it shows the first of them and tells
      path, archive entries, index and keystore of each. */
  predicate ShowsPlaces(g: Group, s: seq<Certificate>, places: seq<nat>) {
    && 0 < |places| == |g.locations|
    && (forall k :: 0 <= k < |places| ==> places[k] < |s|)
    && g.certificate == s[places[0]]
    && forall k :: 0 <= k < |places| ==>
         && g.locations[k].path == s[places[k]].path && g.locations[k].entries == s[places[k]].entries
         && g.locations[k].index == s[places[k]].index && g.locations[k].keystore == s[places[k]].keystore
  }

  /** A group shows, in order, all certificates with one and the same SHA-256 fingerprint
      of their DER bytes; no two groups have the same one, no fingerprint is without a
      group, and the groups stand in the order of their first certificates. */
  lemma GroupsShowTheirPlaces(groups: seq<Group>, s: seq<Certificate>, hash: Fingerprint)
    requires IsGrouping(groups, s, hash)
    ensures forall g <- groups :: exists places ::
              ArePlaces(places, s, (c: Certificate) => hash(c.der) == hash(g.certificate.der))
              && ShowsPlaces(g, s, places)
    ensures forall i :: 0 <= i < |s| ==> exists g <- groups :: hash(g.certificate.der) == hash(s[i].der)
    ensures forall g, h :: 0 <= g < h < |groups| ==>
              && hash(groups[g].certificate.der) != hash(groups[h].certificate.der)
              && exists i :: 0 <= i < |s| && s[i] == groups[g].certificate
                   && forall j :: 0 <= j <= i ==> hash(s[j].der) != hash(groups[h].certificate.der)
  {
    hide Having, FirstPlace;
    forall g <- groups
      ensures exists places ::
        ArePlaces(places, s, (c: Certificate) => hash(c.der) == hash(g.certificate.der)) && ShowsPlaces(g, s, places)
    {
      GroupShowsItsPlaces(g, s, hash);
    }
    forall g, h | 0 <= g < h < |groups|
      ensures exists i :: 0 <= i < |s| && s[i] == groups[g].certificate
                && forall j :: 0 <= j <= i ==> hash(s[j].der) != hash(groups[h].certificate.der)
    {
      FirstIsFirst(s, hash, groups[g]);
      assert FirstPlace(s, hash, Print(hash, groups[g].certificate)) <
             FirstPlace(s, hash, Print(hash, groups[h].certificate));
    }
  }

  lemma GroupShowsItsPlaces(g: Group, s: seq<Certificate>, hash: Fingerprint)
    requires IsGroup(g, s, hash)
    ensures exists places ::
      ArePlaces(places, s, (c: Certificate) => hash(c.der) == hash(g.certificate.der)) && ShowsPlaces(g, s, places)
  {
    hide Having;
    var wanted := (c: Certificate) => hash(c.der) == hash(g.certificate.der);
    HavingByPlace(s, hash, hash(g.certificate.der));
    PlacesAre(s, wanted);
    assert ShowsPlaces(g, s, Places(s, wanted));
  }

  lemma FirstIsFirst(s: seq<Certificate>, hash: Fingerprint, g: Group)
    requires IsGroup(g, s, hash)
    ensures var i := FirstPlace(s, hash, Print(hash, g.certificate)); i < |s| && s[i] == g.certificate
  {
    hide Having, FirstPlace;
    var print_ := hash(g.certificate.der);
    HavingByPlace(s, hash, print_);
    var wanted := (c: Certificate) => hash(c.der) == print_;
    PlacesAre(s, wanted);
    var i := FirstPlace(s, hash, print_);
    var places := Places(s, wanted);
    assert i in places;
    var k :| 0 <= k < |places| && places[k] == i;
    assert places[0] in places;
    assert k == 0;
  }

  predicate Several(g: Group) {
    |g.locations| > 1
  }

  /** The duplicates are the groups with several locations, in their order. */
  lemma {:induction false} RepeatedByPlace(groups: seq<Group>)
    ensures
      var places := Places(groups, Several);
      && ArePlaces(places, groups, Several)
      && |Repeated(groups)| == |places|
      && forall k :: 0 <= k < |places| ==> places[k] < |groups| && Repeated(groups)[k] == groups[places[k]]
    decreases |groups|
  {
    hide ArePlaces;
    PlacesAre(groups, Several);
    if groups != [] {
      RepeatedByPlace(groups[..|groups| - 1]);
    }
  }

  lemma {:induction false} SizeOfPlaces(places: seq<nat>, all: set<nat>)
    requires forall k, l :: 0 <= k < l < |places| ==> places[k] < places[l]
    requires forall i :: i in all <==> i in places
    ensures |all| == |places|
    decreases |places|
  {
    if places == [] {
      assert all == {};
    } else {
      var last := |places| - 1;
      assert places[last] in all && places[last] !in places[..last];
      SizeOfPlaces(places[..last], all - {places[last]});
    }
  }

  lemma OccurrencesByPlace(s: seq<Certificate>, hash: Fingerprint, print_: string)
    ensures Occurrences(s, hash, print_) == |set i: nat | i < |s| && hash(s[i].der) == print_|
  {
    var wanted := (c: Certificate) => hash(c.der) == print_;
    HavingByPlace(s, hash, print_);
    PlacesAre(s, wanted);
    SizeOfPlaces(Places(s, wanted), set i: nat | i < |s| && hash(s[i].der) == print_);
  }

  /** The counts are the numbers of arrived certificates with a fingerprint. */
  lemma CountsByPlace(counts: map<string, nat>, arrived: seq<Certificate>, hash: Fingerprint)
    requires CountsOf(counts, arrived, hash)
    ensures forall f: string :: f in counts <==> exists i :: 0 <= i < |arrived| && hash(arrived[i].der) == f
    ensures forall f <- counts :: counts[f] == |set i: nat | i < |arrived| && hash(arrived[i].der) == f|
  {
    hide Having;
    forall f: string
      ensures f in counts ==> exists i :: 0 <= i < |arrived| && hash(arrived[i].der) == f
      ensures f in counts ==> counts[f] == |set i: nat | i < |arrived| && hash(arrived[i].der) == f|
    {
      HavingNone(arrived, hash, f);
      OccurrencesByPlace(arrived, hash, f);
    }
  }
}
