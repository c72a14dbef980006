# PixelBadModules: clusters of dead pixel modules and where they shadow the beam axis

This project is a Dafny model of the analysis in the `PixelBadModules` analyzer of the
CMS pixel tracker (`PixelTools/PixelBadModules/plugins/PixelBadModules.cc`). The model
covers the whole analysis:

- It reads the pixel quality record's list of bad components.
- It splits the list into barrel and endcap lists, sorted and without duplicates.
- It grows connected clusters of bad modules by a breadth-first flood fill. Barrel
  modules touch when they sit on ring-adjacent ladders or on consecutive modules of a
  ladder. Endcap modules touch when they share a disk and a side of z = 0 and their phi
  ranges overlap.
- It reduces every cluster to a `ClusterSpan`: a phi span, a z span, an r span, and a
  layer or a disk.
- It compares the spans pairwise. The comparison projects corner points of the (z, r)
  boxes of two clusters onto the beam axis (r = 0). A cluster gets grouped with the later
  clusters that overlap it in phi and whose projected z range comes within a threshold
  of z = 0.

Modules, one per stage:

| module | file | contents |
|---|---|---|
| `Geometry` | `geometry.dfy` | detector catalog, unsigned 32-bit arithmetic, `ClusterSpan`, the `(eps, -eps)` sentinel, extended reals |
| `SortedSets` | `sorted_sets.dfy` | sorted, duplicate-free sequences (`std::sort` + `std::unique`, `std::set`) |
| `PhiOverlap` | `phi_overlap.dfy` | the circular phi-range overlap test |
| `BadDets` | `bad_dets.dfy` | `getBadPixelDets`, `detWorks` |
| `Adjacency` | `adjacency.dfy` | `badAdjecentDetsBarrel`, `badAdjecentDetsEndcap` |
| `Clustering` | `clustering.dfy` | `reachableCluster`, `badClustersBarrel/Endcap` |
| `Spans` | `spans.dfy` | `phiMoreClockwise/Counterclockwise`, `getPhiSpanBarrel/Endcap`, `getZSpan`, `getRSpan`, `getSpan` |
| `Pipeline` | `pipeline.dfy` | `clusterSpans` |
| `Overlap` | `overlap.dfy` | `zAxisIntersection`, `getZAxisOverlapRange*`, `overlappingSpans` |

The code is modelled as written, including these behaviours:

- **Barrel discontinuity loop never iterates.** Ladders are numbered from 1, so the loop
  in `getPhiSpanBarrel` stops at once. Its sentinel branch is unreachable. The barrel phi
  span always runs from the least ladder of a cluster to the greatest, even for a cluster
  that wraps round the ring. `Spans.BarrelPhiFromExtremeLadders` proves this.
- **Asymmetric z and r spans.** The upper bound is the end of the member with the
  largest *start* (the last such member, as `std::minmax_element` picks it). It is not
  the largest end. `Spans.MinMaxSpanMeaning` states the bound, and
  `Spans.MinMaxSpanNotGreatestEnd` gives an example where it is not the largest end.
- **Endcap point D.** The closing projection in `getZAxisOverlapRangeEndcap` uses the
  further cluster's outer radius for point D. `Overlap.EndcapPointDInvertsRange` shows the
  effect. A further cluster at z (-30, -20), r (5, 10) and a nearer one at z (-10, -5),
  r (2, 4) get the inverted range (-7.5, -55), which a threshold of 0 rejects. With the
  nearer cluster's outer radius, the upper end would be 95.
- **No barrel–endcap pass.** `overlappingSpans` runs a barrel pass and an endcap pass
  only. `getZAxisOverlapRangeBarrelEndcap` is modelled but nothing calls it. The ensures
  of `Overlap.OverlappingSpans` and the lemma `Overlap.BarrelThenEndcap` state this.
- **The sentinel span still overlaps in phi.** The sentinel `(eps, -eps)` is an inverted
  range, so it overlaps every other inverted range and every range that starts at or
  below -eps or ends at or above eps. `PhiOverlap.SentinelOverlaps` proves this.
- **Tied starts end the endcap walk in the sentinel.** Two overlapping endcap members
  with the same phi start each count as further clockwise than the other. The walk in
  `getPhiSpanEndcap` moves back and forth between them until its counter passes the
  cluster size, so the cluster gets the sentinel phi span. `Spans.TiedStartsGiveSentinel`
  proves this.
- **The default threshold is infinite.** `overlappingSpans` takes
  `numeric_limits<float>::infinity()` by default, and that is the only value the analyzer
  passes. With it, every pair that overlaps in phi and gets a range is grouped. The
  threshold is therefore modelled as an extended real. `Overlap.DefaultThresholdAdmitsAll`,
  `Overlap.PartnerAtDefaultThreshold` and `Overlap.PartnersAtDefaultThreshold` state this.

## Model

| member | source | states |
|---|---|---|
| `Geometry.UModIsRemainder` | PixelTools/PixelBadModules/plugins/PixelBadModules.cc:538 | the repeated-subtraction model of unsigned `%` yields a value below `n` that differs from the dividend by a multiple of `n` |
| `SortedSets.InsertSorted` | PixelTools/PixelBadModules/plugins/PixelBadModules.cc:518-524 | inserting into a strictly sorted sequence keeps it strictly sorted and adds exactly the new element, like `std::set::insert` |
| `SortedSets.SortedUnique` | PixelTools/PixelBadModules/plugins/PixelBadModules.cc:165-170 | sort followed by unique-erase gives a strictly sorted sequence with the same members |
| `SortedSets.SortedEnds` | PixelTools/PixelBadModules/plugins/PixelBadModules.cc:524 | every member of a strictly sorted sequence lies between its first and its last entry |
| `PhiOverlap.PhiRangesOverlap` | PixelTools/PixelBadModules/plugins/PixelBadModules.cc:317-329 | the four-float overlap test; `OverlapIffSharedAngle` states it holds exactly when some angle lies on both arcs, and `PhiOverlapSymmetric`, `PhiOverlapReflexive` and `InvertedRangesOverlap` state its other properties |
| `PhiOverlap.PhiSpansOverlap` | PixelTools/PixelBadModules/plugins/PixelBadModules.cc:330-344 | the `Span_t` overload gives the same answer as the four-float overload; in both, the final `else false` is unreachable for reals |
| `PhiOverlap.OverlapIffSharedAngle` | PixelTools/PixelBadModules/plugins/PixelBadModules.cc:317-329 | two phi ranges overlap exactly when some angle lies on both arcs, an inverted arc running through the +pi/-pi seam |
| `PhiOverlap.PhiOverlapSymmetric` | PixelTools/PixelBadModules/plugins/PixelBadModules.cc:330-344 | the overlap test does not depend on the order of its arguments |
| `PhiOverlap.PhiOverlapReflexive` | PixelTools/PixelBadModules/plugins/PixelBadModules.cc:330-344 | every phi range overlaps itself |
| `PhiOverlap.InvertedRangesOverlap` | PixelTools/PixelBadModules/plugins/PixelBadModules.cc:339-340 | two inverted ranges always overlap |
| `PhiOverlap.SentinelOverlaps` | PixelTools/PixelBadModules/plugins/PixelBadModules.cc:330-344 | the sentinel `(eps, -eps)` overlaps every inverted range and every range that starts at or below `-eps` or ends at or above `eps`, so the test does not exclude it |
| `BadDets.OfSubdet` | PixelTools/PixelBadModules/plugins/PixelBadModules.cc:158-164 | keeps exactly the components of the given sub-detector |
| `BadDets.GetBadPixelDets` | PixelTools/PixelBadModules/plugins/PixelBadModules.cc:157-171 | the barrel and endcap lists are sorted and duplicate-free and hold exactly the listed components of their sub-detector |
| `BadDets.DetWorks` | PixelTools/PixelBadModules/plugins/PixelBadModules.cc:345-353 | a module works unless it is listed; `DetWorksIffNotListed` states that it is false exactly for an id on the barrel or the endcap list |
| `BadDets.DetWorksIffNotListed` | PixelTools/PixelBadModules/plugins/PixelBadModules.cc:345-353 | with the lists `getBadPixelDets` builds, a module works exactly when it is not a listed barrel or endcap component |
| `Adjacency.NextLadder` | PixelTools/PixelBadModules/plugins/PixelBadModules.cc:374 | the unsigned 32-bit next-ladder expression; `NextLadderValue` states it is the ring successor on 1..n, and `LadderRing` that it stays in range and inverts `PrevLadder` |
| `Adjacency.NextLadderValue` | PixelTools/PixelBadModules/plugins/PixelBadModules.cc:374 | for ladders 1..n the unsigned next-ladder expression is `ladder + 1`, wrapping `n` to 1 |
| `Adjacency.PrevLadder` | PixelTools/PixelBadModules/plugins/PixelBadModules.cc:375 | the unsigned 32-bit previous-ladder expression, underflow included; `PrevLadderValue` states it is the ring predecessor on 1..n, wrapping ladder 1 to n |
| `Adjacency.PrevLadderValue` | PixelTools/PixelBadModules/plugins/PixelBadModules.cc:375 | for ladders 1..n the unsigned previous-ladder expression is `ladder - 1`, wrapping 1 to `n` |
| `Adjacency.LadderRing` | PixelTools/PixelBadModules/plugins/PixelBadModules.cc:374-375 | both neighbour ladders lie in 1..n, and the next and previous ladders are inverse to each other on the ring |
| `Adjacency.KeepFlagged` | PixelTools/PixelBadModules/plugins/PixelBadModules.cc:389-391 | the erase-remove keeps exactly the candidates for which `detWorks` is false |
| `Adjacency.BuiltTouches` | PixelTools/PixelBadModules/plugins/PixelBadModules.cc:373-388 | an id built by `pxbDetId` from coordinates adjacent to a module is a barrel module touching it |
| `Adjacency.CandidatesShape` | PixelTools/PixelBadModules/plugins/PixelBadModules.cc:373-388 | the candidates are the same module on the next and previous ladders, plus `module + 1` only below 8 and `module - 1` only above 1 |
| `Adjacency.CandidatesTouch` | PixelTools/PixelBadModules/plugins/PixelBadModules.cc:354-388 | every candidate is a barrel module touching the module it was built from |
| `Adjacency.TouchingIsCandidate` | PixelTools/PixelBadModules/plugins/PixelBadModules.cc:354-388 | every barrel module touching a module is among its candidates |
| `Adjacency.BadAdjacentDetsBarrel` | PixelTools/PixelBadModules/plugins/PixelBadModules.cc:354-393 | the barrel neighbour list: candidates built from the ladder and module neighbours, filtered to those that do not work; `BarrelAdjacencyIff` states it holds exactly the touching barrel modules that do not work |
| `Adjacency.BarrelAdjacencyIff` | PixelTools/PixelBadModules/plugins/PixelBadModules.cc:354-393 | the result of `badAdjecentDetsBarrel` holds exactly the barrel modules that touch the given module and do not work |
| `Adjacency.BarrelTouchingSymmetric` | PixelTools/PixelBadModules/plugins/PixelBadModules.cc:373-388 | barrel touching is symmetric |
| `Adjacency.EndcapTouchingSymmetric` | PixelTools/PixelBadModules/plugins/PixelBadModules.cc:413-414 | the endcap test (another module, same disk, z starts of equal strict sign, phi overlap) is symmetric |
| `Adjacency.EndcapNeighbours` | PixelTools/PixelBadModules/plugins/PixelBadModules.cc:407-417 | holds exactly the entries of the endcap list that pass the endcap test |
| `Adjacency.BadAdjacentDetsEndcap` | PixelTools/PixelBadModules/plugins/PixelBadModules.cc:394-419 | the scan returns, in list order, exactly the endcap-list entries that pass the test against `det` |
| `Adjacency.NeighboursStayInList` | PixelTools/PixelBadModules/plugins/PixelBadModules.cc:430-436 | the neighbours of a listed barrel (endcap) module are on the barrel (endcap) list |
| `Adjacency.NeighboursSymmetric` | PixelTools/PixelBadModules/plugins/PixelBadModules.cc:430-436 | between listed modules of one list, adjacency is symmetric |
| `Clustering.NeighboursFlagged` | PixelTools/PixelBadModules/plugins/PixelBadModules.cc:430-436 | every neighbour the flood fill visits is a listed bad module |
| `Clustering.BadAdjacentDets` | PixelTools/PixelBadModules/plugins/PixelBadModules.cc:430-436 | the dispatch on the sub-detector returns the module's neighbours: barrel adjacency, endcap adjacency, or none |
| `Clustering.EnqueueUnfound` | PixelTools/PixelBadModules/plugins/PixelBadModules.cc:437-443 | appends the unfound neighbours to the cluster and the queue and marks them found; every neighbour is found afterwards and the cluster stays duplicate-free |
| `Clustering.ReachableCluster` | PixelTools/PixelBadModules/plugins/PixelBadModules.cc:420-446 | the cluster starts with the seed, is duplicate-free, adds only modules not found before, leaves every neighbour of its members found, and links each member to an earlier neighbour |
| `Clustering.VisitKeepsMembers` | PixelTools/PixelBadModules/plugins/PixelBadModules.cc:428-444 | one visit keeps the cluster's members fresh, found and among the listed modules, which bounds the loop |
| `Clustering.LinkedStaysInList` | PixelTools/PixelBadModules/plugins/PixelBadModules.cc:420-446 | a cluster grown from a listed module stays on that module's list |
| `Clustering.NewClusterClosed` | PixelTools/PixelBadModules/plugins/PixelBadModules.cc:428-444 | a newly grown cluster holds every bad neighbour of its members |
| `Clustering.BadClusters` | PixelTools/PixelBadModules/plugins/PixelBadModules.cc:447-466 | the clusters partition the list: every listed module is in exactly one cluster, none is empty or repeats an id, each is closed under adjacency, each starts with its least id, and the seeds increase |
| `Clustering.ClustersPartition` | PixelTools/PixelBadModules/plugins/PixelBadModules.cc:447-466 | after the whole list, a module is in some cluster exactly when it is listed |
| `Clustering.SeedIsLeastUnfound` | PixelTools/PixelBadModules/plugins/PixelBadModules.cc:450-453 | the seed of each cluster is the least listed module that no earlier cluster holds |
| `Spans.PhiMoreClockwise` | PixelTools/PixelBadModules/plugins/PixelBadModules.cc:468-487 | the clockwise comparison over cos and sin; `PhiComparisonsReflexive` states it is reflexive, and `CounterclockwiseIsConverse` relates it to the counterclockwise one |
| `Spans.PhiMoreCounterclockwise` | PixelTools/PixelBadModules/plugins/PixelBadModules.cc:488-507 | the counterclockwise comparison; `CounterclockwiseIsConverse` states it equals the clockwise comparison with its arguments swapped |
| `Spans.CounterclockwiseIsConverse` | PixelTools/PixelBadModules/plugins/PixelBadModules.cc:468-507 | `phiMoreCounterclockwise(a, b)` equals `phiMoreClockwise(b, a)` |
| `Spans.PhiComparisonsReflexive` | PixelTools/PixelBadModules/plugins/PixelBadModules.cc:468-507 | every angle is both more clockwise and more counterclockwise than itself |
| `Spans.Ladders` | PixelTools/PixelBadModules/plugins/PixelBadModules.cc:518-524 | the ladder vector is strictly sorted and holds exactly the ladders of the members |
| `Spans.LadderSet` | PixelTools/PixelBadModules/plugins/PixelBadModules.cc:520-524 | the insertion loop builds that ladder vector |
| `Spans.FirstBreak` | PixelTools/PixelBadModules/plugins/PixelBadModules.cc:534-547 | the first index from `i` on where a ladder does not follow its predecessor on the ring, or none |
| `Spans.GetPhiSpanBarrel` | PixelTools/PixelBadModules/plugins/PixelBadModules.cc:508-554 | an empty cluster gets the default span; otherwise layer and disk 0 are set and phi runs from the first discontinuity of the ladder vector, or is the sentinel when there is none |
| `Spans.RingPrevValue` | PixelTools/PixelBadModules/plugins/PixelBadModules.cc:538 | for ladders 1..n the unsigned expression `(n + l - 1) % n` equals `l - 1` |
| `Spans.LadderSetEnds` | PixelTools/PixelBadModules/plugins/PixelBadModules.cc:524 | the ends of the ladder vector are the least and the greatest ladder of the cluster |
| `Spans.MinLadder` | PixelTools/PixelBadModules/plugins/PixelBadModules.cc:548 | the least ladder among the members |
| `Spans.MaxLadder` | PixelTools/PixelBadModules/plugins/PixelBadModules.cc:549 | the greatest ladder among the members |
| `Spans.BarrelPhiFromExtremeLadders` | PixelTools/PixelBadModules/plugins/PixelBadModules.cc:533-553 | on a real detector the loop test is false at once and the sentinel is never written; phi runs from the start of (layer, least ladder, 1) to the end of (layer, greatest ladder, 1) |
| `Spans.FirstMove` | PixelTools/PixelBadModules/plugins/PixelBadModules.cc:570-586 | the first other member that overlaps the current one and lies further round; no earlier member qualifies |
| `Spans.Walk` | PixelTools/PixelBadModules/plugins/PixelBadModules.cc:568-587 | a walk that ends stops at a member that no other member overlaps further round |
| `Spans.FindMove` | PixelTools/PixelBadModules/plugins/PixelBadModules.cc:570-586 | the inner `for` loop finds that first move |
| `Spans.WalkBoundary` | PixelTools/PixelBadModules/plugins/PixelBadModules.cc:563-587 | the `while(!found)` loop with its move counter terminates and computes the walk |
| `Spans.GetPhiSpanEndcap` | PixelTools/PixelBadModules/plugins/PixelBadModules.cc:555-614 | only the phi span changes; it comes from the clockwise and the counterclockwise walk |
| `Spans.EndcapPhiFromBoundaries` | PixelTools/PixelBadModules/plugins/PixelBadModules.cc:555-614 | the endcap phi span is the sentinel, or runs from some member's start to some member's end, with no other member further round at either boundary |
| `Spans.SingleEndcapPhi` | PixelTools/PixelBadModules/plugins/PixelBadModules.cc:555-614 | a one-member cluster spans exactly that member's phi interval |
| `Spans.TiedStartsGiveSentinel` | PixelTools/PixelBadModules/plugins/PixelBadModules.cc:568-587 | two overlapping members with the same phi start make the clockwise walk move back and forth until the counter passes the cluster size, so the phi span is the sentinel |
| `Spans.FirstMinIndex` | PixelTools/PixelBadModules/plugins/PixelBadModules.cc:624 | the first index with the least start, as `std::minmax_element` picks the minimum |
| `Spans.LastMaxIndex` | PixelTools/PixelBadModules/plugins/PixelBadModules.cc:624 | the last index with the greatest start, as `std::minmax_element` picks the maximum |
| `Spans.MinMaxSpanMeaning` | PixelTools/PixelBadModules/plugins/PixelBadModules.cc:615-627 | the span starts at the least start of a member and ends at the end of some member |
| `Spans.MinMaxSpanOrdered` | PixelTools/PixelBadModules/plugins/PixelBadModules.cc:615-640 | when every member's interval is ordered, so is the span |
| `Spans.MinMaxSpanNotGreatestEnd` | PixelTools/PixelBadModules/plugins/PixelBadModules.cc:624-626 | for members (0, 10) and (1, 2) the span is (0, 2): the upper bound is not the greatest end |
| `Spans.GetZSpan` | PixelTools/PixelBadModules/plugins/PixelBadModules.cc:615-627 | only the z span changes, to the min/max span of the members' z intervals |
| `Spans.GetRSpan` | PixelTools/PixelBadModules/plugins/PixelBadModules.cc:628-640 | only the r span changes, to the min/max span of the members' r intervals |
| `Spans.GetSpan` | PixelTools/PixelBadModules/plugins/PixelBadModules.cc:641-657 | an empty cluster leaves the span unchanged; otherwise the sub-detector is set, barrel gets layer, disk 0 and barrel phi, endcap gets disk, layer 0 and endcap phi, others keep those fields; z and r are set |
| `Pipeline.LinkedOneLayer` | PixelTools/PixelBadModules/plugins/PixelBadModules.cc:354-393 | a cluster grown from a barrel module stays on the barrel list and on the seed's layer |
| `Pipeline.ClusterExtentsOk` | PixelTools/PixelBadModules/plugins/PixelBadModules.cc:615-640 | on a real detector the z and r spans of a non-empty cluster have positive extent |
| `Pipeline.BarrelClusterFacts` | PixelTools/PixelBadModules/plugins/PixelBadModules.cc:447-456 | each barrel cluster is a group of barrel modules on one layer |
| `Pipeline.EndcapClusterFacts` | PixelTools/PixelBadModules/plugins/PixelBadModules.cc:457-466 | each endcap cluster starts with an endcap module |
| `Pipeline.BarrelClusterSpan` | PixelTools/PixelBadModules/plugins/PixelBadModules.cc:664-666 | `getSpan` on a fresh span gives barrel, a layer in 1..4, disk 0, phi from the least to the greatest ladder, and the z/r min/max spans |
| `Pipeline.BarrelClustersFacts` | PixelTools/PixelBadModules/plugins/PixelBadModules.cc:447-456 | every barrel cluster is a non-empty group of barrel modules on one layer |
| `Pipeline.BarrelSpans` | PixelTools/PixelBadModules/plugins/PixelBadModules.cc:663-667 | one barrel span per barrel cluster, in order |
| `Pipeline.EndcapSpans` | PixelTools/PixelBadModules/plugins/PixelBadModules.cc:668-672 | one endcap span per endcap cluster, in order, with its disk, layer 0, endcap phi and the z/r min/max spans |
| `Pipeline.ClusterSpans` | PixelTools/PixelBadModules/plugins/PixelBadModules.cc:658-674 | both lists are partitioned into clusters as `badClusters` promises, and each span list matches its clusters one to one; barrel spans have a layer in 1..4 and disk 0, endcap spans layer 0, all have positive z and r extent, and a span list is empty exactly when its bad list is |
| `Overlap.ZAxisIntersection` | PixelTools/PixelBadModules/plugins/PixelBadModules.cc:676-678 | the result is the z at which the line through the two points reaches r = 0 |
| `Overlap.ZAxisIntersectionSymmetric` | PixelTools/PixelBadModules/plugins/PixelBadModules.cc:676-678 | the intersection does not depend on the order of the two points |
| `Overlap.OverlapRangeBarrel` | PixelTools/PixelBadModules/plugins/PixelBadModules.cc:679-726 | no range (`false`) exactly when the r spans meet; otherwise both ends are finite; the `something wrong` branch is unreachable |
| `Overlap.OverlapRangeBarrelSymmetric` | PixelTools/PixelBadModules/plugins/PixelBadModules.cc:679-726 | the barrel range does not depend on the order of the two clusters |
| `Overlap.OverlapRangeEndcap` | PixelTools/PixelBadModules/plugins/PixelBadModules.cc:727-811 | a range exists exactly when one cluster is further out on the same side with the z spans apart and reaches beyond the nearer one's inner edge; the bound towards z = 0 is infinite exactly when the further cluster also reaches below the nearer one's outer edge |
| `Overlap.EndcapRangeNone` | PixelTools/PixelBadModules/plugins/PixelBadModules.cc:727-811 | clusters on opposite sides or at z = 0, or with meeting z spans, give no range |
| `Overlap.EndcapPointDInvertsRange` | PixelTools/PixelBadModules/plugins/PixelBadModules.cc:748-756 | point D takes its r from the further cluster's outer edge; for one concrete pair this gives the inverted range (-7.5, -55), which fails the threshold test at 0, where the nearer cluster's outer edge would give an upper end of 95 |
| `Overlap.OverlapRangeBarrelEndcap` | PixelTools/PixelBadModules/plugins/PixelBadModules.cc:813-850 | a range exists exactly when the endcap cluster reaches beyond the barrel cluster's inner edge and lies wholly to one side in z; the open end is infinite exactly when it also reaches below the barrel cluster's outer edge |
| `Overlap.WithinThreshold` | PixelTools/PixelBadModules/plugins/PixelBadModules.cc:898-901 | the threshold test `-T <= range.second && range.first <= T` over extended reals; `DefaultThresholdAdmitsAll` states that every range passes at the default +infinity and exactly the ranges containing z = 0 pass at 0 |
| `Overlap.DefaultThresholdAdmitsAll` | PixelTools/PixelBadModules/plugins/PixelBadModules.cc:114 | at the default threshold, infinity, every range passes the test `-T <= range.second && range.first <= T`; at threshold 0 a range passes exactly when it contains z = 0 |
| `Overlap.PartnerAtDefaultThreshold` | PixelTools/PixelBadModules/plugins/PixelBadModules.cc:898-901 | at the default threshold a span is a partner exactly when the phi spans overlap and the range function returns true |
| `Overlap.PartnersAtDefaultThreshold` | PixelTools/PixelBadModules/plugins/PixelBadModules.cc:897-910 | at the default threshold the partners of an anchor are exactly the later spans that overlap it in phi and get a range |
| `Overlap.PartnersUpTo` | PixelTools/PixelBadModules/plugins/PixelBadModules.cc:897-910 | holds exactly the later spans that overlap the anchor in phi, get a range, and come within the threshold |
| `Overlap.AnchorGroup` | PixelTools/PixelBadModules/plugins/PixelBadModules.cc:896-910 | the inner loop builds the anchor's group: empty when no later span is a partner, otherwise the anchor followed by exactly its partners, in order |
| `Overlap.OverlappingPass` | PixelTools/PixelBadModules/plugins/PixelBadModules.cc:895-914 | the nested loops of one pass produce, in anchor order, the non-empty groups of an anchor followed by its partners |
| `Overlap.GroupsShape` | PixelTools/PixelBadModules/plugins/PixelBadModules.cc:895-914 | every group has at least two spans; it starts with its anchor, and the rest are exactly the anchor's later partners |
| `Overlap.PartnersReported` | PixelTools/PixelBadModules/plugins/PixelBadModules.cc:897-913 | every partner pair shows up in the group of the earlier span |
| `Overlap.GroupStays` | PixelTools/PixelBadModules/plugins/PixelBadModules.cc:911-913 | a non-empty group, once pushed, stays in the output of the pass |
| `Overlap.GroupMembersFromPass` | PixelTools/PixelBadModules/plugins/PixelBadModules.cc:895-914 | every member of a group is one of the pass's spans |
| `Overlap.PassOneSubdet` | PixelTools/PixelBadModules/plugins/PixelBadModules.cc:894-937 | a pass over spans of one sub-detector yields groups of two or more spans, all of that sub-detector |
| `Overlap.BarrelThenEndcap` | PixelTools/PixelBadModules/plugins/PixelBadModules.cc:894-937 | appending the endcap groups to the barrel groups gives groups that each keep to the sub-detector of their first span, with no barrel group after an endcap group |
| `Overlap.OverlappingSpans` | PixelTools/PixelBadModules/plugins/PixelBadModules.cc:888-942 | for any threshold, finite or infinite: the barrel groups come first and then the endcap groups, each from its own pass over the spans `clusterSpans` gives, whose clusters partition the bad lists with the shape `badClusters` promises; there is no mixed pass, so every group has two or more spans of one sub-detector |

## Left out

- Framework plumbing is not part of this model: the constructor, `analyze`, the event-setup fetches, `getPixelDetsBarrel/Endcap`, the timer and `DEFINE_FWK_MODULE`. The quality record's component list and the geometry are inputs instead.
- Logging and formatting are not part of this model: `detInfo`, `clusterSpanInfo`, the `print*` functions, and `compareClusterSpansBarrel`, which only logs.
- The topology and geometry services are abstract total functions (`Catalog`). A module id without a catalog entry is not modelled. `WellFormed` assumes three things. Every barrel id has layer 1..4, ladder 1..`NLadders(layer)` and module 1..8 (`ValidBarrelCoords`). `pxbDetId` inverts the barrel topology. Every surface has positive z and r extent. The first assumption meets the `NLadders(layer) > 0` requires of `Adjacency.BadAdjacentDetsBarrel`, and together with the second it makes the barrel discontinuity loop exit at once.
- Floats are reals. IEEE rounding, NaN and overflow to infinity are not modelled. `std::numeric_limits<float>::epsilon()` is the exact value 2^-23.
- `cos` and `sin` are abstract functions (`Trig`). The clockwise comparisons are modelled over their values, so nothing depends on trigonometry.
- `std::set`, `std::sort` with `std::unique`, and `std::minmax_element` are modelled by their results: sorted insertion, sort-and-dedupe, and the first-minimum/last-maximum index functions.
- The analyzer's member fields are not a class. `getBadPixelDets` returns the two bad lists as values, and later stages take them as parameters.
- `Pipeline.ClusterSpans` and `Overlap.OverlappingSpans` also return the clusters, as ghost outputs, so that their contracts can speak about them.
- `Overlap.ZAxisIntersection`: requires distinct r coordinates. The source divides by their difference unchecked.
- `Overlap.OverlapRangeBarrel`: requires ordered r spans, which the spans the pipeline builds always have. Without them, the divisions could be by zero.
- `Overlap.OverlapRangeEndcap`: requires strictly ordered r spans, for the same reason. Point D pairs the further cluster's inner and outer radius.
- `Adjacency.BadAdjacentDetsBarrel`: requires a barrel module's layer to have a positive ladder count, that is, layer 1..4. For other layers the source takes `% 0`.
- `Spans.GetSpan`: requires a barrel cluster's layer to be 1..4. For other layers the source takes `% 0`.
- `Spans.GetPhiSpanBarrel`: requires the same as `GetSpan`.
- `Spans.GetPhiSpanEndcap`: requires a non-empty cluster. The source dereferences the first member unconditionally, and `getSpan` calls it only for a non-empty cluster.
- `Spans.GetZSpan`: requires a non-empty cluster. The source dereferences the result of `std::minmax_element` unconditionally, and `getSpan` calls it only for a non-empty cluster.
- `Spans.GetRSpan`: requires a non-empty cluster, for the same reason as `GetZSpan`.
- `Overlap.OverlapRangeBarrelEndcap` is modelled and characterised, but no pass calls it, just as in the source.
- `PixelTools/PixelBadModules/plotting/plotDetectors.py` (plotting from log files), `PixelTools/PixelBadModules/python/ConfFile_cfg.py` (job configuration) and `DataFormats/L1TMuon/interface/EMTFTrack2016Extra.h` (getters and setters unrelated to this analysis) are not part of this model.
