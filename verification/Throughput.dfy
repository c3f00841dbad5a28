/** What comes out of a line of filter states, feature by feature: an independent account of what Metering computes list
    by list (FeatureFilterState.cpp, FeatureFilter.cpp, CollectionFilterState.cpp). */
module Throughput {
  import opened Basics
  import opened Metering

  // ----- what a push keeps

  /** A push keeps the order: the k-th item stands where those kept of the items before it end. */
  lemma {:induction false} KeptAt(items: seq<Datum>, k: nat)
    requires k < |items| && items[k].hasShapeData
    ensures var at := |Kept(items[..k])|; at < |Kept(items)| && Kept(items)[at] == items[k]
  {
    var n := |items| - 1;
    if k < n {
      KeptAt(items[..n], k);
      assert items[..n][..k] == items[..k];
    }
  }

  // ----- what a filter makes of a list

  /** The outputs for the k-th feature stand together, after those for the features before it. */
  lemma {:induction false} ProcessAt(process: Datum -> seq<Datum>, items: seq<Datum>, k: nat)
    requires k < |items|
    ensures var at := |Process(process, items[..k])|;
            && at + |process(items[k])| == |Process(process, items[..k + 1])| <= |Process(process, items)|
            && Process(process, items)[at..at + |process(items[k])|] == process(items[k])
  {
    var n := |items| - 1;
    if k < n {
      ProcessAt(process, items[..n], k);
      assert items[..n][..k] == items[..k] && items[..n][..k + 1] == items[..k + 1];
    } else {
      assert items[..k + 1] == items;
    }
  }

  // ----- what a line of filters makes of one feature

  /** What comes of one feature pushed at position k: all that comes of it, before anything that comes of another. */
  function Outputs(roles: seq<Role>, k: nat, d: Datum): seq<Datum>
    requires k <= |roles|
    decreases |roles| - k, 0
  {
    if k == |roles| then [d]
    else if !d.hasShapeData then []
    else match roles[k]
      case Collector(_, _) => [d]
      case FeatureFilter(process) => AllOutputs(roles, k + 1, process(d))
  }

  function AllOutputs(roles: seq<Role>, k: nat, items: seq<Datum>): seq<Datum>
    requires k <= |roles|
    decreases |roles| - k, 1 + |items|
  {
    if items == [] then []
    else AllOutputs(roles, k, items[..|items| - 1]) + Outputs(roles, k, items[|items| - 1])
  }

  lemma {:induction false} AllOutputsConcat(roles: seq<Role>, k: nat, a: seq<Datum>, b: seq<Datum>)
    requires k <= |roles|
    ensures AllOutputs(roles, k, a + b) == AllOutputs(roles, k, a) + AllOutputs(roles, k, b)
  {
    hide Outputs;
    if b == [] {
      assert a + b == a;
    } else {
      AllOutputsConcat(roles, k, a, b[..|b| - 1]);
      assert (a + b)[..|a + b| - 1] == a + b[..|b| - 1];
    }
  }

  /** Filtering the list stage by stage is filtering feature by feature. */
  lemma {:induction false} ThroughIsPerFeature(roles: seq<Role>, k: nat, items: seq<Datum>)
    requires k <= |roles|
    ensures Through(roles, k, Feature, items) == AllOutputs(roles, k, items)
    decreases |roles| - k
  {
    if k == |roles| {
      Unchanged(roles, items);
    } else {
      if roles[k].FeatureFilter? {
        ThroughIsPerFeature(roles, k + 1, Process(roles[k].process, Kept(items)));
      }
      OneStage(roles, k, items);
    }
  }

  lemma {:induction false} Unchanged(roles: seq<Role>, items: seq<Datum>)
    ensures AllOutputs(roles, |roles|, items) == items
  {
    if items != [] {
      Unchanged(roles, items[..|items| - 1]);
    }
  }

  lemma {:induction false} OneStage(roles: seq<Role>, k: nat, items: seq<Datum>)
    requires k < |roles|
    ensures AllOutputs(roles, k, items) ==
            match roles[k]
            case Collector(_, _) => Kept(items)
            case FeatureFilter(process) => AllOutputs(roles, k + 1, Process(process, Kept(items)))
  {
    if items != [] {
      var (init, last) := (items[..|items| - 1], items[|items| - 1]);
      OneStage(roles, k, init);
      assert !last.hasShapeData ==>
               Kept(items) == Kept(init) && AllOutputs(roles, k, items) == AllOutputs(roles, k, init);
      if roles[k].FeatureFilter? && last.hasShapeData {
        var process := roles[k].process;
        AllOutputsConcat(roles, k + 1, Process(process, Kept(init)), process(last));
        assert (Kept(init) + [last])[..|Kept(init)|] == Kept(init);
      }
    }
  }

  /** A filter that keeps shape data. */
  ghost predicate Keeps(role: Role) {
    role.FeatureFilter? ==> forall d: Datum, e :: d.hasShapeData && e in role.process(d) ==> e.hasShapeData
  }

  /** One filter before a collector: features with shape data come out as what the filter makes of each, nothing
      lost. */
  lemma {:induction false} OneFilterLosesNothing(roles: seq<Role>, k: nat, items: seq<Datum>)
    requires k + 1 < |roles| && roles[k].FeatureFilter? && roles[k + 1].Collector? && Keeps(roles[k])
    requires forall d :: d in items ==> d.hasShapeData
    ensures Through(roles, k, Feature, items) == Process(roles[k].process, items)
  {
    AllKept(items);
    ProcessKeeps(roles[k], items);
    AllKept(Process(roles[k].process, items));
  }

  lemma {:induction false} AllKept(items: seq<Datum>)
    requires forall d :: d in items ==> d.hasShapeData
    ensures Kept(items) == items
  {
    if items != [] {
      AllKept(items[..|items| - 1]);
    }
  }

  lemma {:induction false} ProcessKeeps(role: Role, items: seq<Datum>)
    requires role.FeatureFilter? && Keeps(role) && forall d :: d in items ==> d.hasShapeData
    ensures forall e :: e in Process(role.process, items) ==> e.hasShapeData
  {
    if items != [] {
      ProcessKeeps(role, items[..|items| - 1]);
      assert items[|items| - 1] in items;
    }
  }

  // ----- a checkpoint from one collector to the next

  /** A checkpoint of the collector at k brings the next collector, in the order of the keys, all that comes of the
      features buffered. Where there are none, and the next state is that collector, it gets the fragments, and where
      there are none of these the nodes; nothing else changes. */
  lemma CheckpointDelivers(roles: seq<Role>, bufs: seq<Buffers>, k: nat)
    requires k + 1 < |roles| == |bufs| && roles[k].Collector? && NextCollector(roles, k + 1) < |roles|
    ensures var (j, assign, held) := (NextCollector(roles, k + 1), roles[k].assign, bufs[k]);
            var (before, after) := (bufs[j], AtCheckpoint(roles, bufs, k)[j]);
            if held.features != [] then
              && after.features ==
                 before.features + AllOutputs(roles, k + 1, Delivered(assign, Feature, held.features))
              && after.fragments == before.fragments && after.nodes == before.nodes
            else if j == k + 1 && held.fragments != [] then
              && after.fragments == before.fragments + Delivered(assign, Fragment, held.fragments)
              && after.features == before.features && after.nodes == before.nodes
            else if j == k + 1 && held.nodes != [] then
              && after.nodes == before.nodes + Delivered(assign, Node, held.nodes)
              && after.features == before.features && after.fragments == before.fragments
            else after == before
  {
    hide Delivered, AllOutputs;
    NextCollectorReceives(roles, bufs, k);
    ThroughIsPerFeature(roles, k + 1, Delivered(roles[k].assign, Feature, bufs[k].features));
    if bufs[k].features != [] {
      hide Through;
    }
  }

  // ----- the batches it comes in

  lemma {:induction false} JoinedConcat(a: seq<seq<Datum>>, b: seq<seq<Datum>>)
    ensures Joined(a + b) == Joined(a) + Joined(b)
  {
    if a == [] {
      assert a + b == b;
    } else {
      JoinedConcat(a[1..], b);
      assert (a + b)[1..] == a[1..] + b && (a + b)[0] == a[0];
      Regroup(a[0], Joined(a[1..]), Joined(b));
    }
  }

  lemma Regroup(a: seq<Datum>, b: seq<Datum>, c: seq<Datum>)
    ensures a + (b + c) == (a + b) + c
  {
  }

  /** A batch of no more than this many items, all with one key. */
  ghost predicate Measured(assign: (Kind, Datum) -> string, kind: Kind, metering: nat, batch: seq<Datum>) {
    && (metering > 0 ==> 0 < |batch| <= metering)
    && forall x, y :: x in batch && y in batch ==> assign(kind, x) == assign(kind, y)
  }

  lemma {:induction false} JoinedHolds(batches: seq<seq<Datum>>, b: seq<Datum>)
    requires b in batches
    ensures forall x :: x in b ==> x in Joined(batches)
  {
    if batches[0] != b {
      JoinedHolds(batches[1..], b);
    }
  }

  lemma {:induction false} GroupsInBatches(assign: (Kind, Datum) -> string, kind: Kind, groups: seq<Group>,
                                           metering: nat)
    requires Keyed(assign, kind, groups)
    ensures Joined(AllBatches(groups, metering)) == Flattened(groups)
    ensures forall b :: b in AllBatches(groups, metering) ==> Measured(assign, kind, metering, b)
  {
    if groups != [] {
      assert groups[0] in groups && forall g :: g in groups[1..] ==> g in groups;
      var mine := Batches(groups[0].items, metering);
      GroupsInBatches(assign, kind, groups[1..], metering);
      BatchesCutInOrder(groups[0].items, metering);
      JoinedConcat(mine, AllBatches(groups[1..], metering));
      forall b | b in mine
        ensures Measured(assign, kind, metering, b)
      {
        JoinedHolds(mine, b);
      }
    }
  }

  /** What a checkpoint sends to the next state is all of what it delivers, in batches of one key, and no larger than a
      metering size that is positive. */
  lemma SentInBatches(role: Role, held: Buffers, next: Role, kind: Kind)
    requires role.Collector? && Chosen(held, next) == Some(kind)
    ensures Joined(Sent(role, held, next)) == Delivered(role.assign, kind, held.Of(kind))
    ensures 0 <= role.metering < WORD ==>
              forall b :: b in Sent(role, held, next) ==> Measured(role.assign, kind, role.metering, b)
  {
    GroupsAreSorted(role.assign, kind, held.Of(kind));
    GroupsInBatches(role.assign, kind, Grouped(role.assign, kind, held.Of(kind)), Unsigned(role.metering));
  }
}
