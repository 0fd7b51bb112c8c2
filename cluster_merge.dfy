/** Cluster metadata records and the merge pass that folds small "fragment"
    clusters into a cluster whose rectangle contains them
    (EnvironmentHeightMapController.MergeClusters). */
module ClusterMerge {
  import opened PixelBuffer

  /** An integer pixel rectangle, half-open: [begin, end). */
  datatype Rect = Rect(begin: Int2, end: Int2) {
    function Width(): int { end.x - begin.x }
    function Height(): int { end.y - begin.y }

    /** Unity's Rect.Contains: closed at the minimum edges, open at the maximum edges. */
    predicate Contains(p: Int2) {
      begin.x <= p.x < end.x && begin.y <= p.y < end.y
    }

    /** The four corners the merge pass tests: position, position + width to the
        right, position + height up, position + (width, height). */
    function Corners(): seq<Int2> {
      [begin,
       Int2(begin.x + Width(), begin.y),
       Int2(begin.x, begin.y + Height()),
       Int2(begin.x + Width(), begin.y + Height())]
    }
  }

  /** ClusterMetaData, with its bounds as a pixel rectangle. */
  datatype ClusterMetaData = ClusterMetaData(clusterId: byte, minValue: byte, maxValue: byte, bounds: Rect)

  /** A cluster at most `mergeThreshold.x` pixels wide or `mergeThreshold.y` pixels
      high is a fragment. */
  predicate IsFragment(c: ClusterMetaData, mergeThreshold: Int2) {
    c.bounds.Width() <= mergeThreshold.x || c.bounds.Height() <= mergeThreshold.y
  }

  /** All four corners of `inner` lie in `outer`. */
  predicate ContainsAll(outer: Rect, inner: Rect) {
    forall k :: 0 <= k < 4 ==> outer.Contains(inner.Corners()[k])
  }

  /** Because Contains is open at the maximum edges, a rectangle contains the
      corners of another exactly when it starts no later and ends strictly later
      on both axes: a fragment flush with its host's far edge is not contained. */
  lemma ContainsAllIff(outer: Rect, inner: Rect)
    requires inner.Width() >= 0 && inner.Height() >= 0
    ensures ContainsAll(outer, inner) <==>
      outer.begin.x <= inner.begin.x && inner.end.x < outer.end.x &&
      outer.begin.y <= inner.begin.y && inner.end.y < outer.end.y
  {
    var c := inner.Corners();
    if ContainsAll(outer, inner) {
      assert outer.Contains(c[0]) && outer.Contains(c[3]);
    }
  }

  /** The clusters that are not fragments, in list order. */
  function Hosts(cs: seq<ClusterMetaData>, mergeThreshold: Int2): seq<ClusterMetaData> {
    if cs == [] then []
    else
      var last := cs[|cs| - 1];
      Hosts(cs[..|cs| - 1], mergeThreshold) + (if IsFragment(last, mergeThreshold) then [] else [last])
  }

  /** The fragments, in list order. */
  function Fragments(cs: seq<ClusterMetaData>, mergeThreshold: Int2): seq<ClusterMetaData> {
    if cs == [] then []
    else
      var last := cs[|cs| - 1];
      Fragments(cs[..|cs| - 1], mergeThreshold) + (if IsFragment(last, mergeThreshold) then [last] else [])
  }

  /** Index of the first fragment whose corners all lie in `host`, or |frags|. */
  function FirstContained(host: Rect, frags: seq<ClusterMetaData>): (r: nat)
    ensures r <= |frags|
    ensures r < |frags| ==> ContainsAll(host, frags[r].bounds)
    ensures forall j :: 0 <= j < r ==> !ContainsAll(host, frags[j].bounds)
  {
    if frags == [] then 0
    else if ContainsAll(host, frags[0].bounds) then 0
    else 1 + FirstContained(host, frags[1..])
  }

  /** The host with its value range widened by the fragment's. */
  function Absorb(host: ClusterMetaData, frag: ClusterMetaData): ClusterMetaData {
    var widened := if host.minValue > frag.minValue then host.(minValue := frag.minValue) else host;
    if widened.maxValue < frag.maxValue then widened.(maxValue := frag.maxValue) else widened
  }

  /** Each host in turn takes the first remaining fragment it contains, if any. */
  function MergeFrom(hosts: seq<ClusterMetaData>, frags: seq<ClusterMetaData>): seq<ClusterMetaData> {
    if hosts == [] then []
    else
      var j := FirstContained(hosts[0].bounds, frags);
      if j < |frags| then [Absorb(hosts[0], frags[j])] + MergeFrom(hosts[1..], frags[..j] + frags[j + 1..])
      else [hosts[0]] + MergeFrom(hosts[1..], frags)
  }

  /** What MergeClusters leaves in the list. */
  function MergeResult(cs: seq<ClusterMetaData>, mergeThreshold: Int2): seq<ClusterMetaData> {
    MergeFrom(Hosts(cs, mergeThreshold), Fragments(cs, mergeThreshold))
  }

  lemma SplitStep(cs: seq<ClusterMetaData>, mergeThreshold: Int2, n: nat)
    requires n < |cs|
    ensures Hosts(cs[..n + 1], mergeThreshold) ==
      Hosts(cs[..n], mergeThreshold) + (if IsFragment(cs[n], mergeThreshold) then [] else [cs[n]])
    ensures Fragments(cs[..n + 1], mergeThreshold) ==
      Fragments(cs[..n], mergeThreshold) + (if IsFragment(cs[n], mergeThreshold) then [cs[n]] else [])
  {
    assert cs[..n + 1][..n] == cs[..n];
  }

  /** Host i's turn yields `merged` and leaves `remaining` for the hosts after it. */
  predicate IsTurn(host: ClusterMetaData, frags: seq<ClusterMetaData>,
                   merged: ClusterMetaData, remaining: seq<ClusterMetaData>) {
    var j := FirstContained(host.bounds, frags);
    if j < |frags| then merged == Absorb(host, frags[j]) && remaining == frags[..j] + frags[j + 1..]
    else merged == host && remaining == frags
  }

  lemma MergeStep(hosts: seq<ClusterMetaData>, i: nat, frags: seq<ClusterMetaData>,
                  merged: ClusterMetaData, remaining: seq<ClusterMetaData>)
    requires i < |hosts| && IsTurn(hosts[i], frags, merged, remaining)
    ensures MergeFrom(hosts[i..], frags) == [merged] + MergeFrom(hosts[i + 1..], remaining)
  {
    assert hosts[i..][0] == hosts[i] && hosts[i..][1..] == hosts[i + 1..];
  }

  /** The corner test of the merge pass: every corner of `inner`, in order,
      until one falls outside `outer`. */
  method ContainsAllCorners(outer: Rect, inner: Rect) returns (containsAll: bool)
    ensures containsAll == ContainsAll(outer, inner)
  {
    var points := inner.Corners();
    containsAll := true;
    var k := 0;
    while k < |points|
      invariant 0 <= k <= |points| == 4
      invariant containsAll ==> forall m :: 0 <= m < k ==> outer.Contains(points[m])
      invariant !containsAll ==> !ContainsAll(outer, inner)
    {
      if !outer.Contains(points[k]) {
        containsAll := false;
        break;
      }
      k := k + 1;
    }
  }

  /** One host's turn in the merge pass: scan the fragments in order, and at
      the first one whose corners the host contains, widen the host's value
      range by it and remove it from the list. */
  method AbsorbFirstContained(host: ClusterMetaData, toMergeList: seq<ClusterMetaData>)
    returns (mergeCandidate: ClusterMetaData, remaining: seq<ClusterMetaData>)
    ensures IsTurn(host, toMergeList, mergeCandidate, remaining)
  {
    mergeCandidate := host;
    remaining := toMergeList;
    var j := 0;
    while j < |toMergeList|
      invariant 0 <= j <= |toMergeList|
      invariant forall k :: 0 <= k < j ==> !ContainsAll(host.bounds, toMergeList[k].bounds)
    {
      var toMergeBound := toMergeList[j];
      var containsAll := ContainsAllCorners(host.bounds, toMergeBound.bounds);
      if containsAll {
        assert FirstContained(host.bounds, toMergeList) == j;
        remaining := toMergeList[..j] + toMergeList[j + 1..];
        if mergeCandidate.minValue > toMergeBound.minValue {
          mergeCandidate := mergeCandidate.(minValue := toMergeBound.minValue);
        }
        if mergeCandidate.maxValue < toMergeBound.maxValue {
          mergeCandidate := mergeCandidate.(maxValue := toMergeBound.maxValue);
        }
        return;
      }
      j := j + 1;
    }
    assert FirstContained(host.bounds, toMergeList) == |toMergeList|;
  }

  /** The first pass of MergeClusters: every fragment is removed from the list
      (RemoveAt, with the index stepped back) and appended to the merge list. */
  method SplitOffFragments(clustersMetadata: seq<ClusterMetaData>, mergeThreshold: Int2)
    returns (clusters: seq<ClusterMetaData>, toMergeList: seq<ClusterMetaData>)
    ensures clusters == Hosts(clustersMetadata, mergeThreshold)
    ensures toMergeList == Fragments(clustersMetadata, mergeThreshold)
  {
    clusters := clustersMetadata;
    toMergeList := [];
    var i := 0;
    while i < |clusters|
      invariant 0 <= i <= |clusters|
      invariant |clustersMetadata| == |clusters| + |toMergeList|
      invariant clusters[..i] == Hosts(clustersMetadata[..i + |toMergeList|], mergeThreshold)
      invariant toMergeList == Fragments(clustersMetadata[..i + |toMergeList|], mergeThreshold)
      invariant clusters[i..] == clustersMetadata[i + |toMergeList|..]
      decreases |clusters| - i
    {
      var clusterMeta := clusters[i];
      ghost var seen := i + |toMergeList|;
      ghost var prefix := clusters[..i];
      SplitStep(clustersMetadata, mergeThreshold, seen);
      assert clustersMetadata[seen] == clusters[i..][0] == clusterMeta;
      if IsFragment(clusterMeta, mergeThreshold) {
        clusters := clusters[..i] + clusters[i + 1..];
        toMergeList := toMergeList + [clusterMeta];
        assert clusters[..i] == prefix;
        assert clusters[i..] == clustersMetadata[seen + 1..];
        i := i - 1;
      } else {
        assert clusters[..i + 1] == prefix + [clusterMeta];
        assert clusters[i + 1..] == clustersMetadata[seen + 1..];
      }
      i := i + 1;
    }
    assert clustersMetadata[..i + |toMergeList|] == clustersMetadata;
    assert clusters[..i] == clusters;
  }

  /** MergeClusters: pull the fragments out of the list (RemoveAt with the index
      stepped back), then let each remaining cluster absorb the first fragment
      whose four corners it contains, removing that fragment. */
  method MergeClusters(clustersMetadata: seq<ClusterMetaData>, mergeThreshold: Int2)
    returns (merged: seq<ClusterMetaData>)
    ensures merged == MergeResult(clustersMetadata, mergeThreshold)
  {
    var clusters, toMergeList := SplitOffFragments(clustersMetadata, mergeThreshold);
    ghost var hosts := clusters;
    ghost var target := MergeFrom(hosts, toMergeList);
    assert hosts[0..] == hosts;
    var i := 0;
    while i < |clusters|
      invariant 0 <= i <= |clusters| == |hosts|
      invariant clusters[i..] == hosts[i..]
      invariant target == clusters[..i] + MergeFrom(hosts[i..], toMergeList)
    {
      assert clusters[i..][0] == clusters[i] && hosts[i..][0] == hosts[i];
      ghost var before, frags := clusters[..i], toMergeList;
      var mergeCandidate;
      mergeCandidate, toMergeList := AbsorbFirstContained(clusters[i], toMergeList);
      MergeStep(hosts, i, frags, mergeCandidate, toMergeList);
      assert target == before + [mergeCandidate] + MergeFrom(hosts[i + 1..], toMergeList);
      ReplaceAt(clusters, hosts, i, mergeCandidate);
      clusters := clusters[i := mergeCandidate];
      i := i + 1;
    }
    merged := clusters;
  }

  lemma ReplaceAt(clusters: seq<ClusterMetaData>, hosts: seq<ClusterMetaData>, i: nat, x: ClusterMetaData)
    requires i < |clusters| == |hosts| && clusters[i..] == hosts[i..]
    ensures clusters[i := x][..i + 1] == clusters[..i] + [x]
    ensures clusters[i := x][i + 1..] == hosts[i + 1..]
  {
    assert clusters[i + 1..] == clusters[i..][1..];
  }

  /** Absorbing a fragment keeps the host's id and bounds and widens its value
      range to the union of the two ranges. */
  lemma AbsorbWidens(host: ClusterMetaData, frag: ClusterMetaData)
    ensures Absorb(host, frag).clusterId == host.clusterId && Absorb(host, frag).bounds == host.bounds
    ensures Absorb(host, frag).minValue == if frag.minValue < host.minValue then frag.minValue else host.minValue
    ensures Absorb(host, frag).maxValue == if frag.maxValue > host.maxValue then frag.maxValue else host.maxValue
  {
  }

  /** Hosts are non-fragments of the list and fragments are fragments of it. */
  lemma {:induction false} SplitMembership(cs: seq<ClusterMetaData>, mergeThreshold: Int2)
    ensures forall c :: c in Hosts(cs, mergeThreshold) ==> c in cs && !IsFragment(c, mergeThreshold)
    ensures forall c :: c in Fragments(cs, mergeThreshold) ==> c in cs && IsFragment(c, mergeThreshold)
  {
    if cs != [] {
      var init, last := cs[..|cs| - 1], cs[|cs| - 1];
      SplitMembership(init, mergeThreshold);
      assert cs == init + [last];
    }
  }

  /** Together the hosts and the fragments are the input list rearranged:
      the first pass loses and duplicates nothing. */
  lemma {:induction false} SplitPermutes(cs: seq<ClusterMetaData>, mergeThreshold: Int2)
    ensures multiset(Hosts(cs, mergeThreshold)) + multiset(Fragments(cs, mergeThreshold)) == multiset(cs)
  {
    if cs != [] {
      var init, last := cs[..|cs| - 1], cs[|cs| - 1];
      SplitPermutes(init, mergeThreshold);
      var h, f := Hosts(init, mergeThreshold), Fragments(init, mergeThreshold);
      assert cs == init + [last];
      assert multiset(cs) == multiset(init) + multiset{last};
      if IsFragment(last, mergeThreshold) {
        assert Hosts(cs, mergeThreshold) == h + [];
        assert multiset(Fragments(cs, mergeThreshold)) == multiset(f) + multiset{last};
      } else {
        assert multiset(Hosts(cs, mergeThreshold)) == multiset(h) + multiset{last};
        assert Fragments(cs, mergeThreshold) == f + [];
      }
    }
  }

  /** A list with no fragment splits into itself and nothing to merge. */
  lemma {:induction false} SplitWithoutFragments(cs: seq<ClusterMetaData>, mergeThreshold: Int2)
    requires forall c :: c in cs ==> !IsFragment(c, mergeThreshold)
    ensures Hosts(cs, mergeThreshold) == cs && Fragments(cs, mergeThreshold) == []
  {
    if cs != [] {
      var init, last := cs[..|cs| - 1], cs[|cs| - 1];
      assert cs == init + [last];
      assert last in cs;
      SplitWithoutFragments(init, mergeThreshold);
    }
  }

  /** `r` is host `h` after its turn: same id and bounds, a value range no
      narrower, and either `h` itself or `h` widened by a fragment of `frags`
      whose corners it contains. */
  predicate Kept(r: ClusterMetaData, h: ClusterMetaData, frags: seq<ClusterMetaData>) {
    r.clusterId == h.clusterId && r.bounds == h.bounds &&
    r.minValue <= h.minValue && r.maxValue >= h.maxValue &&
    (r == h || exists f :: f in frags && ContainsAll(h.bounds, f.bounds) && r == Absorb(h, f))
  }

  lemma KeptAfterRemoval(r: ClusterMetaData, h: ClusterMetaData, frags: seq<ClusterMetaData>, j: nat)
    requires j < |frags| && Kept(r, h, frags[..j] + frags[j + 1..])
    ensures Kept(r, h, frags)
  {
    if r != h {
      var rest := frags[..j] + frags[j + 1..];
      var f :| f in rest && ContainsAll(h.bounds, f.bounds) && r == Absorb(h, f);
      var k :| 0 <= k < |rest| && rest[k] == f;
      if k < j {
        assert frags[k] == f;
      } else {
        assert frags[k + 1] == f;
      }
    }
  }

  lemma {:induction false} MergeLength(hosts: seq<ClusterMetaData>, frags: seq<ClusterMetaData>)
    ensures |MergeFrom(hosts, frags)| == |hosts|
  {
    if hosts != [] {
      var j := FirstContained(hosts[0].bounds, frags);
      if j < |frags| {
        MergeLength(hosts[1..], frags[..j] + frags[j + 1..]);
        assert MergeFrom(hosts, frags) == [Absorb(hosts[0], frags[j])] + MergeFrom(hosts[1..], frags[..j] + frags[j + 1..]);
      } else {
        MergeLength(hosts[1..], frags);
        assert MergeFrom(hosts, frags) == [hosts[0]] + MergeFrom(hosts[1..], frags);
      }
    }
  }

  /** Position by position, the merge pass keeps each host's id and bounds,
      and either leaves it as it was or widens it by one fragment it contains
      (a host absorbs at most one fragment: the scan stops at the first). */
  lemma {:induction false} MergeKeepsHostAt(hosts: seq<ClusterMetaData>, frags: seq<ClusterMetaData>, i: nat)
    requires i < |hosts|
    ensures |MergeFrom(hosts, frags)| == |hosts| && Kept(MergeFrom(hosts, frags)[i], hosts[i], frags)
  {
    MergeLength(hosts, frags);
    var j := FirstContained(hosts[0].bounds, frags);
    if i == 0 {
      if j < |frags| {
        AbsorbWidens(hosts[0], frags[j]);
        assert frags[j] in frags;
      }
    } else {
      var rest := if j < |frags| then frags[..j] + frags[j + 1..] else frags;
      MergeKeepsHostAt(hosts[1..], rest, i - 1);
      assert MergeFrom(hosts, frags)[i] == MergeFrom(hosts[1..], rest)[i - 1];
      if j < |frags| {
        KeptAfterRemoval(MergeFrom(hosts, frags)[i], hosts[i], frags, j);
      }
    }
  }

  lemma MergeKeepsHosts(hosts: seq<ClusterMetaData>, frags: seq<ClusterMetaData>)
    ensures |MergeFrom(hosts, frags)| == |hosts|
    ensures forall i :: 0 <= i < |hosts| ==> Kept(MergeFrom(hosts, frags)[i], hosts[i], frags)
  {
    MergeLength(hosts, frags);
    forall i | 0 <= i < |hosts|
      ensures Kept(MergeFrom(hosts, frags)[i], hosts[i], frags)
    {
      MergeKeepsHostAt(hosts, frags, i);
    }
  }

  /** With nothing to merge, the pass changes nothing. */
  lemma {:induction false} MergeNothing(hosts: seq<ClusterMetaData>)
    ensures MergeFrom(hosts, []) == hosts
  {
    if hosts != [] {
      MergeNothing(hosts[1..]);
    }
  }

  /** The result of MergeClusters is the list of non-fragment clusters, in
      their original order, with ids and bounds unchanged and value ranges only
      widened; no fragment survives, whether absorbed or dropped. */
  lemma MergeResultShape(cs: seq<ClusterMetaData>, mergeThreshold: Int2)
    ensures var r, hosts := MergeResult(cs, mergeThreshold), Hosts(cs, mergeThreshold);
      |r| == |hosts| &&
      (forall i :: 0 <= i < |r| ==>
        r[i].clusterId == hosts[i].clusterId && r[i].bounds == hosts[i].bounds &&
        r[i].minValue <= hosts[i].minValue && r[i].maxValue >= hosts[i].maxValue) &&
      forall c :: c in r ==> !IsFragment(c, mergeThreshold)
  {
    var r, hosts := MergeResult(cs, mergeThreshold), Hosts(cs, mergeThreshold);
    MergeKeepsHosts(hosts, Fragments(cs, mergeThreshold));
    SplitMembership(cs, mergeThreshold);
    forall c | c in r
      ensures !IsFragment(c, mergeThreshold)
    {
      var i :| 0 <= i < |r| && r[i] == c;
      assert hosts[i] in hosts;
    }
  }

  /** Merging an already merged list with the same threshold changes nothing. */
  lemma MergeIdempotent(cs: seq<ClusterMetaData>, mergeThreshold: Int2)
    ensures MergeResult(MergeResult(cs, mergeThreshold), mergeThreshold) == MergeResult(cs, mergeThreshold)
  {
    var r := MergeResult(cs, mergeThreshold);
    MergeResultShape(cs, mergeThreshold);
    SplitWithoutFragments(r, mergeThreshold);
    MergeNothing(r);
  }
}
