/** Collecting data at a checkpoint and metering it out in batches (CollectionFilterState.cpp), through a line of
    filter states that work one feature at a time (FeatureFilterState.cpp, FeatureFilter.cpp). */
module Metering {
  import opened Basics

  /** A feature, a fragment or a node, by identity. */
  datatype Datum = Datum(id: nat, hasShapeData: bool)

  datatype Kind = Feature | Fragment | Node

  datatype Buffers = Buffers(features: seq<Datum>, fragments: seq<Datum>, nodes: seq<Datum>) {
    function Of(kind: Kind): seq<Datum> {
      match kind
      case Feature => features
      case Fragment => fragments
      case Node => nodes
    }

    function Add(kind: Kind, items: seq<Datum>): Buffers {
      match kind
      case Feature => this.(features := features + items)
      case Fragment => this.(fragments := fragments + items)
      case Node => this.(nodes := nodes + items)
    }
  }

  const EMPTY := Buffers([], [], [])

  datatype Status = Fine | Error | NoData {
    predicate IsOK() { !Error? }
  }

  /** What a filter state runs: a filter that turns each feature into some features, or a collector. */
  datatype Role =
    | FeatureFilter(process: Datum -> seq<Datum>)
    | Collector(assign: (Kind, Datum) -> string, metering: int)

  // ----- what a line of filters does to the data, batches aside

  /** push drops features without shape data. */
  function Kept(items: seq<Datum>): seq<Datum> {
    if items == [] then []
    else
      var last := items[|items| - 1];
      Kept(items[..|items| - 1]) + if last.hasShapeData then [last] else []
  }

  function Accepted(kind: Kind, items: seq<Datum>): seq<Datum> {
    if kind.Feature? then Kept(items) else items
  }

  /** A feature filter applied to a list: the outputs for each feature, joined. */
  function Process(process: Datum -> seq<Datum>, items: seq<Datum>): seq<Datum> {
    if items == [] then [] else Process(process, items[..|items| - 1]) + process(items[|items| - 1])
  }

  /** The first collector at or after position k. */
  function NextCollector(roles: seq<Role>, k: nat): (j: nat)
    requires k <= |roles|
    ensures k <= j <= |roles| && (j < |roles| ==> roles[j].Collector?)
    ensures forall i :: k <= i < j ==> roles[i].FeatureFilter?
    decreases |roles| - k
  {
    if k < |roles| && roles[k].FeatureFilter? then NextCollector(roles, k + 1) else k
  }

  /** What comes into that collector of the data pushed at position k. */
  function Through(roles: seq<Role>, k: nat, kind: Kind, items: seq<Datum>): seq<Datum>
    requires k <= |roles|
    decreases |roles| - k
  {
    if k == |roles| then items
    else match roles[k]
      case Collector(_, _) => Accepted(kind, items)
      case FeatureFilter(process) => Through(roles, k + 1, Feature, Process(process, Kept(items)))
  }

  lemma {:induction false} KeptConcat(a: seq<Datum>, b: seq<Datum>)
    ensures Kept(a + b) == Kept(a) + Kept(b)
  {
    if b == [] {
      assert a + b == a;
    } else {
      KeptConcat(a, b[..|b| - 1]);
      assert (a + b)[..|a + b| - 1] == a + b[..|b| - 1];
    }
  }

  /** A push keeps each feature with shape data as often as it comes, and no other. */
  lemma {:induction false} KeptCount(items: seq<Datum>, d: Datum)
    ensures Count(Kept(items), d) == if d.hasShapeData then Count(items, d) else 0
  {
    if items != [] {
      var (init, last) := (items[..|items| - 1], items[|items| - 1]);
      KeptCount(init, d);
      assert items == init + [last];
      CountAppend(init, last, d);
      CountAppend(Kept(init), last, d);
      assert Kept(init) + [] == Kept(init);
    }
  }

  lemma KeptAfter(before: seq<Datum>, items: seq<Datum>)
    ensures forall d ::
              Count(before + Kept(items), d) == Count(before, d) + if d.hasShapeData then Count(items, d) else 0
  {
    hide Kept, Count;
    forall d
      ensures Count(before + Kept(items), d) == Count(before, d) + if d.hasShapeData then Count(items, d) else 0
    {
      KeptCount(items, d);
      CountConcat(before, Kept(items), d);
    }
  }

  lemma {:induction false} ProcessConcat(process: Datum -> seq<Datum>, a: seq<Datum>, b: seq<Datum>)
    ensures Process(process, a + b) == Process(process, a) + Process(process, b)
  {
    if b == [] {
      assert a + b == a;
    } else {
      ProcessConcat(process, a, b[..|b| - 1]);
      assert (a + b)[..|a + b| - 1] == a + b[..|b| - 1];
    }
  }

  /** Cutting the data in two on the way in makes no difference to what comes out. */
  lemma {:induction false} ThroughConcat(roles: seq<Role>, k: nat, kind: Kind, a: seq<Datum>, b: seq<Datum>)
    requires k <= |roles|
    ensures Through(roles, k, kind, a + b) == Through(roles, k, kind, a) + Through(roles, k, kind, b)
    decreases |roles| - k
  {
    KeptConcat(a, b);
    if k < |roles| && roles[k].FeatureFilter? {
      ProcessConcat(roles[k].process, Kept(a), Kept(b));
      ThroughConcat(roles, k + 1, Feature, Process(roles[k].process, Kept(a)), Process(roles[k].process, Kept(b)));
    }
  }

  lemma {:induction false} ThroughNone(roles: seq<Role>, k: nat, kind: Kind)
    requires k <= |roles|
    ensures Through(roles, k, kind, []) == []
    decreases |roles| - k
  {
    if k < |roles| && roles[k].FeatureFilter? {
      ThroughNone(roles, k + 1, Feature);
    }
  }

  /** The buffers after data is pushed and traversed at position k. */
  function Landed(roles: seq<Role>, bufs: seq<Buffers>, k: nat, kind: Kind, items: seq<Datum>): seq<Buffers>
    requires k <= |roles| == |bufs|
  {
    var j := NextCollector(roles, k);
    if j == |roles| then bufs
    else bufs[j := bufs[j].Add(if j == k then kind else Feature, Through(roles, k, kind, items))]
  }

  lemma LandedConcat(roles: seq<Role>, bufs: seq<Buffers>, k: nat, kind: Kind, a: seq<Datum>, b: seq<Datum>)
    requires k <= |roles| == |bufs|
    ensures Landed(roles, Landed(roles, bufs, k, kind, a), k, kind, b) == Landed(roles, bufs, k, kind, a + b)
  {
    ThroughConcat(roles, k, kind, a, b);
    var j := NextCollector(roles, k);
    if j < |roles| {
      var landing := if j == k then kind else Feature;
      AddTwice(bufs[j], landing, Through(roles, k, kind, a), Through(roles, k, kind, b));
      hide Through;
      assert Landed(roles, Landed(roles, bufs, k, kind, a), k, kind, b) == Landed(roles, bufs, k, kind, a + b);
    }
  }

  lemma AddTwice(b: Buffers, kind: Kind, x: seq<Datum>, y: seq<Datum>)
    ensures b.Add(kind, x).Add(kind, y) == b.Add(kind, x + y)
  {
    assert b.Of(kind) + x + y == b.Of(kind) + (x + y);
  }

  lemma AddNone(b: Buffers, kind: Kind)
    ensures b.Add(kind, []) == b
  {
    assert b.Of(kind) + [] == b.Of(kind);
  }

  lemma LandedNone(roles: seq<Role>, bufs: seq<Buffers>, k: nat, kind: Kind)
    requires k <= |roles| == |bufs|
    ensures Landed(roles, bufs, k, kind, []) == bufs
  {
    ThroughNone(roles, k, kind);
    var j := NextCollector(roles, k);
    if j < |roles| {
      AddNone(bufs[j], if j == k then kind else Feature);
    }
  }

  // ----- groups, as std::map keeps them

  datatype Group = Group(key: string, items: seq<Datum>)

  /** The order of std::string. */
  predicate Less(a: string, b: string) {
    b != [] && (a == [] || a[0] < b[0] || (a[0] == b[0] && Less(a[1..], b[1..])))
  }

  lemma {:induction false} LessIsTotal(a: string, b: string)
    ensures Less(a, b) || a == b || Less(b, a)
    ensures !(Less(a, b) && Less(b, a)) && !Less(a, a)
  {
    if a != [] && b != [] {
      LessIsTotal(a[1..], b[1..]);
      assert a == [a[0]] + a[1..] && b == [b[0]] + b[1..];
    }
    if a != [] {
      LessIsTotal(a[1..], a[1..]);
    }
  }

  lemma {:induction false} LessIsTransitive(a: string, b: string, c: string)
    requires Less(a, b) && Less(b, c)
    ensures Less(a, c)
  {
    if a != [] && a[0] == b[0] && b[0] == c[0] {
      LessIsTransitive(a[1..], b[1..], c[1..]);
    }
  }

  /** groups[key].push_back(item) */
  function AddToGroup(groups: seq<Group>, key: string, item: Datum): seq<Group> {
    if groups == [] then [Group(key, [item])]
    else if groups[0].key == key then [Group(key, groups[0].items + [item])] + groups[1..]
    else if Less(key, groups[0].key) then [Group(key, [item])] + groups
    else [groups[0]] + AddToGroup(groups[1..], key, item)
  }

  function Grouped(assign: (Kind, Datum) -> string, kind: Kind, items: seq<Datum>): seq<Group> {
    if items == [] then []
    else
      var last := items[|items| - 1];
      AddToGroup(Grouped(assign, kind, items[..|items| - 1]), assign(kind, last), last)
  }

  function Flattened(groups: seq<Group>): seq<Datum> {
    if groups == [] then [] else groups[0].items + Flattened(groups[1..])
  }

  /** The order in which a checkpoint sends out a buffer. */
  function Delivered(assign: (Kind, Datum) -> string, kind: Kind, items: seq<Datum>): seq<Datum> {
    Flattened(Grouped(assign, kind, items))
  }

  /** The items with a key, in their order. */
  function Select(assign: (Kind, Datum) -> string, kind: Kind, items: seq<Datum>, key: string): seq<Datum> {
    if items == [] then []
    else
      var last := items[|items| - 1];
      Select(assign, kind, items[..|items| - 1], key) + if assign(kind, last) == key then [last] else []
  }

  ghost predicate InKeyOrder(groups: seq<Group>) {
    forall i, j :: 0 <= i < j < |groups| ==> Less(groups[i].key, groups[j].key)
  }

  /** Each group holds items of its key, and some. */
  ghost predicate Keyed(assign: (Kind, Datum) -> string, kind: Kind, groups: seq<Group>) {
    forall g :: g in groups ==> g.items != [] && forall d :: d in g.items ==> assign(kind, d) == g.key
  }

  lemma {:induction false} AddKeepsOrder(assign: (Kind, Datum) -> string, kind: Kind, groups: seq<Group>, item: Datum)
    requires InKeyOrder(groups) && Keyed(assign, kind, groups)
    ensures var r := AddToGroup(groups, assign(kind, item), item);
            && InKeyOrder(r) && Keyed(assign, kind, r)
            && forall g :: g in r ==> g.key == assign(kind, item) || exists h :: h in groups && h.key == g.key
  {
    var key := assign(kind, item);
    AddToGroupCases(groups, key, item);
    hide Less, AddToGroup;
    if groups != [] {
      var (head, rest) := (groups[0], groups[1..]);
      RestIsKeyed(assign, kind, groups);
      if Less(key, head.key) && key != head.key {
        BelowAll(groups, key);
      } else if key != head.key {
        LessIsTotal(key, head.key);
        AddKeepsOrder(assign, kind, rest, item);
        forall g | g in AddToGroup(rest, key, item)
          ensures Less(head.key, g.key)
        {
          if g.key != key {
            var h :| h in rest && h.key == g.key;
          }
        }
      }
    }
  }

  lemma {:induction false} GroupsAreSorted(assign: (Kind, Datum) -> string, kind: Kind, items: seq<Datum>)
    ensures InKeyOrder(Grouped(assign, kind, items)) && Keyed(assign, kind, Grouped(assign, kind, items))
  {
    if items != [] {
      GroupsAreSorted(assign, kind, items[..|items| - 1]);
      AddKeepsOrder(assign, kind, Grouped(assign, kind, items[..|items| - 1]), items[|items| - 1]);
    }
  }

  lemma {:induction false} SelectConcat(assign: (Kind, Datum) -> string, kind: Kind, a: seq<Datum>, b: seq<Datum>,
                                        key: string)
    ensures Select(assign, kind, a + b, key) == Select(assign, kind, a, key) + Select(assign, kind, b, key)
  {
    if b == [] {
      assert a + b == a;
    } else {
      SelectConcat(assign, kind, a, b[..|b| - 1], key);
      assert (a + b)[..|a + b| - 1] == a + b[..|b| - 1];
    }
  }

  lemma {:induction false} SelectOne(assign: (Kind, Datum) -> string, kind: Kind, items: seq<Datum>, of: string,
                                     key: string)
    requires forall d :: d in items ==> assign(kind, d) == of
    ensures Select(assign, kind, items, key) == if of == key then items else []
  {
    hide Select;
    SelectEmpty(assign, kind, key);
    if items != [] {
      var (init, last) := (items[..|items| - 1], items[|items| - 1]);
      assert last in items && forall d :: d in init ==> d in items;
      SelectOne(assign, kind, init, of, key);
      SelectLast(assign, kind, init, last, key);
      assert items == init + [last];
    }
  }

  lemma SelectEmpty(assign: (Kind, Datum) -> string, kind: Kind, key: string)
    ensures Select(assign, kind, [], key) == []
  {
  }

  lemma SelectLast(assign: (Kind, Datum) -> string, kind: Kind, init: seq<Datum>, last: Datum, key: string)
    ensures Select(assign, kind, init + [last], key) ==
            Select(assign, kind, init, key) + if assign(kind, last) == key then [last] else []
  {
    assert (init + [last])[..|init|] == init;
  }

  lemma {:induction false} SelectAbsent(assign: (Kind, Datum) -> string, kind: Kind, groups: seq<Group>, key: string)
    requires Keyed(assign, kind, groups) && forall g :: g in groups ==> g.key != key
    ensures Select(assign, kind, Flattened(groups), key) == []
  {
    if groups != [] {
      assert groups[0] in groups && forall g :: g in groups[1..] ==> g in groups;
      SelectAbsent(assign, kind, groups[1..], key);
      SelectConcat(assign, kind, groups[0].items, Flattened(groups[1..]), key);
      SelectOne(assign, kind, groups[0].items, groups[0].key, key);
    }
  }

  predicate Holds(assign: (Kind, Datum) -> string, kind: Kind, g: Group) {
    forall d :: d in g.items ==> assign(kind, d) == g.key
  }

  lemma SelectCons(assign: (Kind, Datum) -> string, kind: Kind, g: Group, rest: seq<Group>, key: string)
    requires Holds(assign, kind, g)
    ensures Select(assign, kind, Flattened([g] + rest), key) ==
            (if g.key == key then g.items else []) + Select(assign, kind, Flattened(rest), key)
  {
    hide Select;
    assert ([g] + rest)[1..] == rest;
    SelectConcat(assign, kind, g.items, Flattened(rest), key);
    SelectOne(assign, kind, g.items, g.key, key);
  }

  /** A key below all the others is in no group. */
  lemma SelectBelow(assign: (Kind, Datum) -> string, kind: Kind, groups: seq<Group>, key: string)
    requires Keyed(assign, kind, groups) && forall g :: g in groups ==> Less(key, g.key)
    ensures Select(assign, kind, Flattened(groups), key) == []
  {
    hide Select, Flattened, Less;
    forall g | g in groups
      ensures g.key != key
    {
      LessIsTotal(key, g.key);
    }
    SelectAbsent(assign, kind, groups, key);
  }

  /** Adding to a group puts the item last among those of its key and moves no other. */
  lemma {:induction false} AddSelects(assign: (Kind, Datum) -> string, kind: Kind, groups: seq<Group>, item: Datum,
                                      key: string)
    requires InKeyOrder(groups) && Keyed(assign, kind, groups)
    ensures Select(assign, kind, Flattened(AddToGroup(groups, assign(kind, item), item)), key) ==
            Select(assign, kind, Flattened(groups), key) + if assign(kind, item) == key then [item] else []
  {
    var of := assign(kind, item);
    AddToGroupCases(groups, of, item);
    SelectNone(assign, kind, key);
    hide Select, Flattened, Less, AddToGroup;
    if groups == [] {
      SelectCons(assign, kind, Group(of, [item]), [], key);
    } else {
      var (head, rest) := (groups[0], groups[1..]);
      RestIsKeyed(assign, kind, groups);
      SelectCons(assign, kind, head, rest, key);
      if of == head.key {
        SelectCons(assign, kind, Group(of, head.items + [item]), rest, key);
        SelectBelow(assign, kind, rest, of);
      } else if Less(of, head.key) {
        BelowAll(groups, of);
        SelectCons(assign, kind, Group(of, [item]), groups, key);
        SelectBelow(assign, kind, groups, of);
      } else {
        AddSelects(assign, kind, rest, item, key);
        SelectCons(assign, kind, head, AddToGroup(rest, of, item), key);
      }
    }
  }

  lemma AddToGroupCases(groups: seq<Group>, key: string, item: Datum)
    ensures groups == [] ==> AddToGroup(groups, key, item) == [Group(key, [item])] + []
    ensures groups != [] ==> groups == [groups[0]] + groups[1..]
    ensures groups != [] && key == groups[0].key ==>
              AddToGroup(groups, key, item) == [Group(key, groups[0].items + [item])] + groups[1..]
    ensures groups != [] && key != groups[0].key ==>
              AddToGroup(groups, key, item) ==
              if Less(key, groups[0].key) then [Group(key, [item])] + groups
              else [groups[0]] + AddToGroup(groups[1..], key, item)
  {
    hide Less;
  }

  lemma BelowAll(groups: seq<Group>, key: string)
    requires InKeyOrder(groups) && groups != [] && Less(key, groups[0].key)
    ensures forall g :: g in groups ==> Less(key, g.key)
  {
    hide Less;
    forall j | 0 <= j < |groups|
      ensures Less(key, groups[j].key)
    {
      if j > 0 {
        LessIsTransitive(key, groups[0].key, groups[j].key);
      }
    }
  }

  lemma SelectNone(assign: (Kind, Datum) -> string, kind: Kind, key: string)
    ensures Select(assign, kind, Flattened([]), key) == []
  {
  }

  lemma RestIsKeyed(assign: (Kind, Datum) -> string, kind: Kind, groups: seq<Group>)
    requires InKeyOrder(groups) && Keyed(assign, kind, groups) && groups != []
    ensures InKeyOrder(groups[1..]) && Keyed(assign, kind, groups[1..]) && Holds(assign, kind, groups[0])
    ensures forall g :: g in groups[1..] ==> Less(groups[0].key, g.key)
  {
    hide Less;
    assert groups[0] in groups && forall g :: g in groups[1..] ==> g in groups;
  }

  /** Each buffered item goes out with the items of its key, in the order they came in. */
  lemma {:induction false} DeliveredIsStable(assign: (Kind, Datum) -> string, kind: Kind, items: seq<Datum>,
                                             key: string)
    ensures Select(assign, kind, Delivered(assign, kind, items), key) == Select(assign, kind, items, key)
  {
    if items != [] {
      var n := |items| - 1;
      DeliveredIsStable(assign, kind, items[..n], key);
      GroupsAreSorted(assign, kind, items[..n]);
      AddSelects(assign, kind, Grouped(assign, kind, items[..n]), items[n], key);
    }
  }

  /** The keys of what goes out never go down. */
  ghost predicate KeysAscend(assign: (Kind, Datum) -> string, kind: Kind, items: seq<Datum>) {
    forall i, j :: 0 <= i < j < |items| ==> !Less(assign(kind, items[j]), assign(kind, items[i]))
  }

  lemma {:induction false} FlattenedIn(groups: seq<Group>, d: Datum)
    requires d in Flattened(groups)
    ensures exists g :: g in groups && d in g.items
  {
    if d in groups[0].items {
      assert groups[0] in groups;
    } else {
      FlattenedIn(groups[1..], d);
      var g :| g in groups[1..] && d in g.items;
      assert g in groups;
    }
  }

  lemma {:induction false} FlattenedAscends(assign: (Kind, Datum) -> string, kind: Kind, groups: seq<Group>)
    requires InKeyOrder(groups) && Keyed(assign, kind, groups)
    ensures KeysAscend(assign, kind, Flattened(groups))
  {
    if groups != [] {
      var (head, rest) := (groups[0], groups[1..]);
      assert head in groups && forall g :: g in rest ==> g in groups;
      FlattenedAscends(assign, kind, rest);
      var all := Flattened(groups);
      forall i, j | 0 <= i < j < |all|
        ensures !Less(assign(kind, all[j]), assign(kind, all[i]))
      {
        LessIsTotal(assign(kind, all[j]), assign(kind, all[i]));
        if i < |head.items| {
          assert all[i] in head.items;
          if j < |head.items| {
            assert all[j] in head.items;
          } else {
            assert all[j] in Flattened(rest);
            FlattenedIn(rest, all[j]);
            var g :| g in rest && all[j] in g.items;
            LessIsTotal(head.key, g.key);
          }
        }
      }
    }
  }

  lemma {:induction false} SelectCounts(assign: (Kind, Datum) -> string, kind: Kind, items: seq<Datum>, d: Datum)
    ensures multiset(items)[d] == multiset(Select(assign, kind, items, assign(kind, d)))[d]
  {
    if items != [] {
      SelectCounts(assign, kind, items[..|items| - 1], d);
      assert items == items[..|items| - 1] + [items[|items| - 1]];
    }
  }

  /** A checkpoint sends out each buffered item exactly once, by key in the order of strings, and within a key in
      the order of the buffer: the one stable sort of the buffer by key. */
  lemma CheckpointDeliversAllInKeyOrder(assign: (Kind, Datum) -> string, kind: Kind, items: seq<Datum>)
    ensures multiset(Delivered(assign, kind, items)) == multiset(items)
    ensures KeysAscend(assign, kind, Delivered(assign, kind, items))
    ensures forall key :: Select(assign, kind, Delivered(assign, kind, items), key) == Select(assign, kind, items, key)
  {
    GroupsAreSorted(assign, kind, items);
    FlattenedAscends(assign, kind, Grouped(assign, kind, items));
    forall key {
      DeliveredIsStable(assign, kind, items, key);
    }
    forall d
      ensures multiset(Delivered(assign, kind, items))[d] == multiset(items)[d]
    {
      SelectCounts(assign, kind, items, d);
      SelectCounts(assign, kind, Delivered(assign, kind, items), d);
    }
  }

  // ----- batches

  const WORD := 0x1_0000_0000

  /** The metering size as the unsigned number the source turns it into. */
  function Unsigned(metering: int): nat {
    metering % WORD
  }

  function Least(a: nat, b: nat): nat { if b < a then b else a }

  /** The batches a list goes out in: one for a metering of zero, otherwise as many as it takes. */
  function Batches(source: seq<Datum>, metering: nat): seq<seq<Datum>> {
    if metering == 0 then [source]
    else if source == [] then []
    else
      var n := Least(|source|, metering);
      [source[..n]] + Batches(source[n..], metering)
  }

  function Joined(batches: seq<seq<Datum>>): seq<Datum> {
    if batches == [] then [] else batches[0] + Joined(batches[1..])
  }

  /** Batching loses, repeats and reorders nothing; a positive metering bounds the batches, all full but the last. */
  lemma {:induction false} BatchesCutInOrder(source: seq<Datum>, metering: nat)
    ensures Joined(Batches(source, metering)) == source
    ensures var b := Batches(source, metering);
            if metering > 0 then
              && (forall k :: 0 <= k < |b| ==> 0 < |b[k]| <= metering)
              && (forall k :: 0 <= k < |b| - 1 ==> |b[k]| == metering)
            else |b| == 1
  {
    if metering > 0 && source != [] {
      var n := Least(|source|, metering);
      BatchesCutInOrder(source[n..], metering);
      var rest := Batches(source[n..], metering);
      assert ([source[..n]] + rest)[1..] == rest;
    } else if metering == 0 {
      assert [source][1..] == [];
    }
  }

  function AllBatches(groups: seq<Group>, metering: nat): seq<seq<Datum>> {
    if groups == [] then [] else Batches(groups[0].items, metering) + AllBatches(groups[1..], metering)
  }

  // ----- the states

  /** A filter environment, by the number of states it has come through. */
  type Env = nat

  function Advance(env: Env): Env { env + 1 }

  /** A filter state: the buffers it fills until it is told to pass them on. */
  class FilterState {
    const role: Role
    var features: seq<Datum>
    var fragments: seq<Datum>
    var nodes: seq<Datum>
    /** The environment saved by a traversal, if there was one since the last checkpoint. */
    var currentEnv: Option<Env>
    /** Every list pushed so far. */
    ghost var received: seq<seq<Datum>>
    /** The buffers when the last checkpoint began. */
    ghost var atCheckpoint: Buffers

    constructor (role: Role)
      ensures this.role == role && Contents() == EMPTY && currentEnv == None && received == []
    {
      this.role := role;
      features, fragments, nodes, currentEnv, received, atCheckpoint := [], [], [], None, [], EMPTY;
    }

    function Contents(): Buffers
      reads this
    {
      Buffers(features, fragments, nodes)
    }

    method Push(kind: Kind, input: seq<Datum>)
      modifies this
      ensures Contents() == old(Contents()).Add(kind, Accepted(kind, input))
      ensures received == old(received) + [input] && currentEnv == old(currentEnv) && atCheckpoint == old(atCheckpoint)
      ensures kind.Feature? ==>
                forall d :: Count(features, d) ==
                            Count(old(features), d) + if d.hasShapeData then Count(input, d) else 0
      ensures kind.Fragment? ==> fragments == old(fragments) + input
      ensures kind.Node? ==> nodes == old(nodes) + input
    {
      hide Count;
      match kind {
        case Feature =>
          for i := 0 to |input|
            invariant features == old(features) + Kept(input[..i])
            invariant fragments == old(fragments) && nodes == old(nodes)
            invariant received == old(received) && currentEnv == old(currentEnv) && atCheckpoint == old(atCheckpoint)
          {
            assert input[..i + 1][..i] == input[..i];
            if input[i].hasShapeData {
              features := features + [input[i]];
            }
          }
          assert input[..|input|] == input;
          KeptAfter(old(features), input);
        case Fragment => fragments := fragments + input;
        case Node => nodes := nodes + input;
      }
      received := received + [input];
    }
  }

  /** filter->process on a list of features. */
  method ProcessFeatures(process: Datum -> seq<Datum>, input: seq<Datum>) returns (output: seq<Datum>)
    ensures output == Process(process, input)
  {
    output := [];
    for i := 0 to |input|
      invariant output == Process(process, input[..i])
    {
      assert input[..i + 1][..i] == input[..i];
      output := output + process(input[i]);
    }
    assert input[..|input|] == input;
  }

  /** The groups a map holds after push_back on each item's group. */
  method GroupItems(assign: (Kind, Datum) -> string, kind: Kind, items: seq<Datum>) returns (groups: seq<Group>)
    ensures groups == Grouped(assign, kind, items)
  {
    groups := [];
    for i := 0 to |items|
      invariant groups == Grouped(assign, kind, items[..i])
    {
      assert items[..i + 1][..i] == items[..i];
      groups := AddToGroup(groups, assign(kind, items[i]), items[i]);
    }
    assert items[..|items|] == items;
  }

  /** What a checkpoint sends on: features if there are any, else fragments, else nodes; only features reach a
      feature filter. */
  function Chosen(b: Buffers, next: Role): Option<Kind> {
    if b.features != [] then Some(Feature)
    else if next.FeatureFilter? then None
    else if b.fragments != [] then Some(Fragment)
    else if b.nodes != [] then Some(Node)
    else None
  }

  /** Feature filters in a line take features only, and hold none between traversals. */
  ghost predicate IdleFrom(roles: seq<Role>, bufs: seq<Buffers>, k: nat)
    requires |roles| == |bufs|
  {
    forall i :: k <= i < |roles| && roles[i].FeatureFilter? ==> bufs[i] == EMPTY
  }

  /** The buffers after the state at position k has metered out what it holds. */
  function Outgoing(roles: seq<Role>, bufs: seq<Buffers>, k: nat): (r: seq<Buffers>)
    requires k < |roles| == |bufs|
    ensures |r| == |bufs|
  {
    if roles[k].FeatureFilter? || k + 1 == |roles| then bufs
    else
      match Chosen(bufs[k], roles[k + 1])
      case None => bufs
      case Some(kind) => Landed(roles, bufs, k + 1, kind, Delivered(roles[k].assign, kind, bufs[k].Of(kind)))
  }

  /** The buffers as each collector from position k on begins its checkpoint. */
  function AtCheckpoint(roles: seq<Role>, bufs: seq<Buffers>, k: nat): (r: seq<Buffers>)
    requires k <= |roles| == |bufs|
    ensures |r| == |bufs|
    decreases |roles| - k
  {
    if k == |roles| then bufs else AtCheckpoint(roles, Outgoing(roles, bufs, k), k + 1)
  }

  lemma OutgoingOnward(roles: seq<Role>, bufs: seq<Buffers>, k: nat)
    requires k < |roles| == |bufs|
    ensures Outgoing(roles, bufs, k)[..k + 1] == bufs[..k + 1]
    ensures forall from :: 0 <= from && IdleFrom(roles, bufs, from) ==> IdleFrom(roles, Outgoing(roles, bufs, k), from)
  {
    hide Landed, Delivered, IdleFrom;
    if roles[k].Collector? && k + 1 < |roles| && Chosen(bufs[k], roles[k + 1]).Some? {
      var kind := Chosen(bufs[k], roles[k + 1]).value;
      var items := Delivered(roles[k].assign, kind, bufs[k].Of(kind));
      LandedElsewhere(roles, bufs, k + 1, kind, items, k, EMPTY);
      forall from: nat | IdleFrom(roles, bufs, from) {
        LandedKeepsIdle(roles, bufs, k + 1, kind, items, from);
      }
    }
  }

  lemma {:induction false} AtCheckpointBefore(roles: seq<Role>, bufs: seq<Buffers>, k: nat, i: nat)
    requires i <= k <= |roles| == |bufs| && i < |roles|
    ensures i < k || roles[k].Collector? ==> AtCheckpoint(roles, bufs, k)[i] == bufs[i]
    decreases |roles| - k
  {
    hide Outgoing;
    if k < |roles| {
      AtCheckpointBefore(roles, Outgoing(roles, bufs, k), k + 1, i);
      OutgoingOnward(roles, bufs, k);
      assert Outgoing(roles, bufs, k)[..k + 1][i] == bufs[..k + 1][i];
    }
  }

  lemma LandedElsewhere(roles: seq<Role>, bufs: seq<Buffers>, k: nat, kind: Kind, items: seq<Datum>, i: nat, x: Buffers)
    requires i < k <= |roles| == |bufs|
    ensures Landed(roles, bufs, k, kind, items)[i := x] == Landed(roles, bufs[i := x], k, kind, items)
    ensures Landed(roles, bufs, k, kind, items)[..k] == bufs[..k]
  {
    hide Through;
    assert Landed(roles, bufs, k, kind, items)[i := x] == Landed(roles, bufs[i := x], k, kind, items);
  }

  lemma LandedKeepsIdle(roles: seq<Role>, bufs: seq<Buffers>, k: nat, kind: Kind, items: seq<Datum>, from: nat)
    requires k <= |roles| == |bufs| && IdleFrom(roles, bufs, from)
    ensures IdleFrom(roles, Landed(roles, bufs, k, kind, items), from)
  {
    hide Through;
  }

  /** A line of filter states, each handing its output to the next. */
  class FilterLine {
    const states: seq<FilterState>

    ghost predicate Valid() {
      forall i, j :: 0 <= i < j < |states| ==> states[i] != states[j]
    }

    ghost function Roles(): (r: seq<Role>)
      ensures |r| == |states| && forall i :: 0 <= i < |r| ==> r[i] == states[i].role
    {
      seq(|states|, i requires 0 <= i < |states| => states[i].role)
    }

    ghost function Contents(): (r: seq<Buffers>)
      reads states
      ensures |r| == |states| && forall i :: 0 <= i < |r| ==> r[i] == states[i].Contents()
    {
      seq(|states|, i requires 0 <= i < |states| reads states => states[i].Contents())
    }

    /** Every collector with data, but for one, has an environment to pass on. */
    ghost predicate HasEnvs(except: nat)
      reads states
    {
      forall i :: 0 <= i < |states| && i != except && states[i].role.Collector? && states[i].Contents() != EMPTY ==>
        states[i].currentEnv.Some?
    }

    /** Ready for data at position k. */
    ghost predicate Ready(k: nat)
      reads states
    {
      Valid() && IdleFrom(Roles(), Contents(), k) && HasEnvs(|states|)
    }

    constructor (states: seq<FilterState>)
      ensures this.states == states
    {
      this.states := states;
    }

    /** Hands items to a state and has it pass on what it holds. */
    method PushAndTraverse(k: nat, kind: Kind, items: seq<Datum>, env: Env) returns (result: Status)
      requires k < |states| && Ready(k) && (states[k].role.FeatureFilter? ==> kind.Feature?)
      modifies states
      ensures Ready(k) && result.IsOK()
      ensures Contents() == Landed(Roles(), old(Contents()), k, kind, items)
      ensures states[k].received == old(states[k].received) + [items]
      ensures forall i :: 0 <= i < k ==> states[i].received == old(states[i].received)
      ensures states[k].currentEnv == Some(Advance(env))
      ensures forall i :: 0 <= i < k ==> states[i].currentEnv == old(states[i].currentEnv)
      ensures forall i :: 0 <= i < |states| ==> states[i].atCheckpoint == old(states[i].atCheckpoint)
      decreases |states| - k, 1
    {
      hide Landed, Through;
      ghost var before, roles := Contents(), Roles();
      states[k].Push(kind, items);
      assert Contents() == before[k := before[k].Add(kind, Accepted(kind, items))];
      LandsHere(roles, before, k, kind, items);
      LandedKeepsIdle(roles, before, k, kind, items, k);
      result := Traverse(k, env);
    }

    method Traverse(k: nat, env: Env) returns (result: Status)
      requires k < |states| && Valid() && IdleFrom(Roles(), Contents(), k + 1) && HasEnvs(k)
      requires states[k].role.FeatureFilter? ==> states[k].fragments == [] && states[k].nodes == []
      modifies states
      ensures HasEnvs(|states|) && result.IsOK()
      ensures Contents() == Traversed(Roles(), old(Contents()), k)
      ensures forall i :: 0 <= i <= k ==> states[i].received == old(states[i].received)
      ensures states[k].currentEnv == Some(Advance(env))
      ensures forall i :: 0 <= i < k ==> states[i].currentEnv == old(states[i].currentEnv)
      ensures forall i :: 0 <= i < |states| ==> states[i].atCheckpoint == old(states[i].atCheckpoint)
      decreases |states| - k, 0, 1
    {
      hide Landed, Through, Process;
      ghost var before, roles := Contents(), Roles();
      states[k].currentEnv := Some(Advance(env));
      assert Contents() == before;
      match states[k].role {
        case Collector(_, _) =>
          result := Fine;
        case FeatureFilter(process) =>
          result := PassOn(k, process);
      }
    }

    /** The feature filter's half of a traversal. */
    method PassOn(k: nat, process: Datum -> seq<Datum>) returns (result: Status)
      requires k < |states| && Ready(k + 1) && states[k].role == FeatureFilter(process)
      requires states[k].fragments == [] && states[k].nodes == [] && states[k].currentEnv.Some?
      modifies states
      ensures HasEnvs(|states|) && result.IsOK()
      ensures Contents() == Traversed(Roles(), old(Contents()), k)
      ensures forall i :: 0 <= i <= k ==> states[i].received == old(states[i].received)
      ensures forall i :: 0 <= i <= k ==> states[i].currentEnv == old(states[i].currentEnv)
      ensures forall i :: 0 <= i < |states| ==> states[i].atCheckpoint == old(states[i].atCheckpoint)
      decreases |states| - k, 0, 0
    {
      hide Landed, Through, Process, IdleFrom, Contents, Roles;
      ghost var before, roles := Contents(), Roles();
      var output := ProcessFeatures(process, states[k].features);
      result := Fine;
      LandedNone(roles, before, k + 1, Feature);
      LandedElsewhere(roles, before, k + 1, Feature, output, k, EMPTY);
      if k + 1 < |states| {
        if |output| > 0 {
          result := PushAndTraverse(k + 1, Feature, output, states[k].currentEnv.value);
        } else {
          result := NoData;
        }
      } else {
        LandsNowhere(roles, before, Feature, output);
      }
      assert Contents() == Landed(roles, before, k + 1, Feature, output);
      Clear(k);
    }

    /** A feature filter's buffer is emptied. */
    method Clear(k: nat)
      requires k < |states| && Valid() && states[k].role.FeatureFilter? && HasEnvs(|states|)
      requires states[k].fragments == [] && states[k].nodes == []
      modifies states[k]
      ensures Contents() == old(Contents())[k := EMPTY] && HasEnvs(|states|)
      ensures states[k].currentEnv == old(states[k].currentEnv)
      ensures states[k].received == old(states[k].received) && states[k].atCheckpoint == old(states[k].atCheckpoint)
    {
      states[k].features := [];
      assert Contents() == old(Contents())[k := EMPTY];
    }

    lemma ReadyAfterCollector(k: nat)
      requires k < |states| && states[k].role.Collector?
      ensures Ready(k) <==> Ready(k + 1)
    {
    }

    /** meterData: a list to one state, in batches. */
    method MeterData(k: nat, kind: Kind, source: seq<Datum>, metering: nat, env: Env) returns (result: Status)
      requires k < |states| && Ready(k) && (states[k].role.FeatureFilter? ==> kind.Feature?)
      modifies states
      ensures Ready(k) && result.IsOK()
      ensures Contents() == Landed(Roles(), old(Contents()), k, kind, source)
      ensures states[k].received == old(states[k].received) + Batches(source, metering)
      ensures forall i :: 0 <= i < k ==> states[i].received == old(states[i].received)
      ensures forall i :: 0 <= i < |states| ==> states[i].atCheckpoint == old(states[i].atCheckpoint)
    {
      hide Landed, Through, Contents, Roles, Ready, Batches, Least;
      ghost var before, roles, had := Contents(), Roles(), states[k].received;
      result := Fine;
      if metering == 0 {
        OneBatch(source);
        result := PushAndTraverse(k, kind, source, env);
      } else {
        var i := 0;
        LandedNone(roles, before, k, kind);
        while i < |source| && result.IsOK()
          invariant 0 <= i <= |source| && Ready(k) && result.IsOK()
          invariant Contents() == Landed(roles, before, k, kind, source[..i])
          invariant states[k].received + Batches(source[i..], metering) == had + Batches(source, metering)
          invariant forall i :: 0 <= i < k ==> states[i].received == old(states[i].received)
          invariant forall i :: 0 <= i < |states| ==> states[i].atCheckpoint == old(states[i].atCheckpoint)
        {
          var batchSize := Least(|source| - i, metering);
          BatchAhead(source, i, metering, states[k].received);
          var partial := source[i..i + batchSize];
          LandedConcat(roles, before, k, kind, source[..i], partial);
          assert source[..i] + partial == source[..i + batchSize];
          result := PushAndTraverse(k, kind, partial, env);
          i := i + batchSize;
        }
        assert source[..i] == source && source[i..] == [];
        NoBatch(metering);
      }
    }

    /** meterGroups: every group in turn, while the results are good. */
    method MeterGroups(k: nat, kind: Kind, groups: seq<Group>, metering: nat, env: Env)
      returns (result: Status)
      requires k < |states| && Ready(k) && (states[k].role.FeatureFilter? ==> kind.Feature?)
      modifies states
      ensures Ready(k) && result.IsOK()
      ensures Contents() == Landed(Roles(), old(Contents()), k, kind, Flattened(groups))
      ensures states[k].received == old(states[k].received) + AllBatches(groups, metering)
      ensures forall i :: 0 <= i < k ==> states[i].received == old(states[i].received)
      ensures forall i :: 0 <= i < |states| ==> states[i].atCheckpoint == old(states[i].atCheckpoint)
    {
      hide Landed, Through, Contents, Roles, Ready;
      ghost var before, roles, had := Contents(), Roles(), states[k].received;
      ghost var out: seq<Datum> := [];
      LandedNone(roles, before, k, kind);
      result := Fine;
      var i := 0;
      assert groups[0..] == groups && out + Flattened(groups) == Flattened(groups);
      while i < |groups| && result.IsOK()
        invariant 0 <= i <= |groups| && Ready(k) && result.IsOK()
        invariant Contents() == Landed(roles, before, k, kind, out)
        invariant out + Flattened(groups[i..]) == Flattened(groups)
        invariant states[k].received + AllBatches(groups[i..], metering) == had + AllBatches(groups, metering)
        invariant forall i :: 0 <= i < k ==> states[i].received == old(states[i].received)
        invariant forall i :: 0 <= i < |states| ==> states[i].atCheckpoint == old(states[i].atCheckpoint)
      {
        LandedConcat(roles, before, k, kind, out, groups[i].items);
        assert groups[i..][0] == groups[i] && groups[i..][1..] == groups[i + 1..];
        assert out + Flattened(groups[i..]) == (out + groups[i].items) + Flattened(groups[i + 1..]);
        GroupAhead(groups, i, metering, states[k].received);
        result := MeterData(k, kind, groups[i].items, metering, env);
        out := out + groups[i].items;
        i := i + 1;
      }
      assert groups[i..] == [] && out + [] == out;
    }

    /** A checkpoint reaches position k: a collector meters out what it has buffered, the checkpoint goes on to the
        next state, and the collector's buffers are emptied. */
    method SignalCheckpoint(k: nat) returns (result: Status)
      requires k < |states| && Ready(k)
      modifies states
      ensures Ready(k) && result.IsOK()
      ensures forall i :: k <= i < |states| ==> states[i].Contents() == EMPTY
      ensures forall i :: 0 <= i < k ==> states[i].Contents() == old(states[i].Contents())
      ensures forall i :: k <= i < |states| && states[i].role.Collector? ==>
                states[i].atCheckpoint == AtCheckpoint(Roles(), old(Contents()), k)[i]
      ensures forall i :: 0 <= i < k ==> states[i].atCheckpoint == old(states[i].atCheckpoint)
      ensures forall i :: 0 <= i <= k ==> states[i].received == old(states[i].received)
      ensures k + 1 < |states| ==>
                states[k + 1].received ==
                old(states[k + 1].received) + Sent(states[k].role, old(states[k].Contents()), states[k + 1].role)
      decreases |states| - k
    {
      match states[k].role {
        case FeatureFilter(_) =>
          result := Fine;
          if k + 1 < |states| {
            result := SignalCheckpoint(k + 1);
          }
        case Collector(assign, metering) =>
          result := Flush(k, assign, metering);
      }
    }

    method Flush(k: nat, assign: (Kind, Datum) -> string, metering: int) returns (result: Status)
      requires k < |states| && Ready(k) && states[k].role == Collector(assign, metering)
      modifies states
      ensures Ready(k) && result.IsOK()
      ensures forall i :: k <= i < |states| ==> states[i].Contents() == EMPTY
      ensures forall i :: 0 <= i < k ==> states[i].Contents() == old(states[i].Contents())
      ensures forall i :: k <= i < |states| && states[i].role.Collector? ==>
                states[i].atCheckpoint == AtCheckpoint(Roles(), old(Contents()), k)[i]
      ensures forall i :: 0 <= i < k ==> states[i].atCheckpoint == old(states[i].atCheckpoint)
      ensures forall i :: 0 <= i <= k ==> states[i].received == old(states[i].received)
      ensures k + 1 < |states| ==>
                states[k + 1].received ==
                old(states[k + 1].received) + Sent(states[k].role, old(states[k].Contents()), states[k + 1].role)
      decreases |states| - k, 0
    {
      hide Outgoing, Sent, IdleFrom, Contents, Roles;
      ghost var before, roles := Contents(), Roles();
      OutgoingOnward(roles, before, k);
      AtCheckpointBefore(roles, before, k, k);
      result := MeterOut(k, assign, metering);
      forall i | 0 <= i <= k
        ensures states[i].Contents() == before[i]
      {
        assert Outgoing(roles, before, k)[..k + 1][i] == before[..k + 1][i];
      }
      if k + 1 < |states| && result.IsOK() {
        ReadyAfterCollector(k);
        result := SignalCheckpoint(k + 1);
      }
      CleanUp(k);
      AllEmpty(k);
    }

    lemma AllEmpty(k: nat)
      requires k <= |states| && Valid() && HasEnvs(|states|)
      requires forall i :: k <= i < |states| ==> states[i].Contents() == EMPTY
      ensures Ready(k)
    {
    }

    /** The collector's half of a checkpoint that comes before the next state's. The environment it passes on is the one
        saved when its data came: there is one whenever there is data to send. */
    method MeterOut(k: nat, assign: (Kind, Datum) -> string, metering: int) returns (result: Status)
      requires k < |states| && Ready(k) && states[k].role == Collector(assign, metering)
      modifies states
      ensures Ready(k) && result.IsOK()
      ensures Contents() == Outgoing(Roles(), old(Contents()), k)
      ensures states[k].atCheckpoint == old(states[k].Contents())
      ensures forall i :: 0 <= i < |states| && i != k ==> states[i].atCheckpoint == old(states[i].atCheckpoint)
      ensures forall i :: 0 <= i <= k ==> states[i].received == old(states[i].received)
      ensures k + 1 < |states| ==>
                states[k + 1].received ==
                old(states[k + 1].received) + Sent(states[k].role, old(states[k].Contents()), states[k + 1].role)
    {
      hide Landed, Grouped, AllBatches, Flattened;
      ghost var before, roles := Contents(), Roles();
      states[k].atCheckpoint := states[k].Contents();
      assert Contents() == before;
      result := Fine;
      if k + 1 < |states| {
        match Chosen(states[k].Contents(), states[k + 1].role) {
          case Some(kind) =>
            var groups := GroupItems(assign, kind, states[k].Contents().Of(kind));
            ReadyAfterCollector(k);
            assert Contents() == before;
            result := MeterGroups(k + 1, kind, groups, Unsigned(metering), states[k].currentEnv.value);
            ReadyAfterCollector(k);
            assert Outgoing(roles, before, k) == Landed(roles, before, k + 1, kind, Flattened(groups));
          case None =>
            result := NoData;
        }
      }
    }

    /** A collector's buffers are emptied and its environment is given up. */
    method CleanUp(k: nat)
      requires k < |states| && Valid() && HasEnvs(|states|)
      modifies states[k]
      ensures states[k].Contents() == EMPTY && HasEnvs(|states|)
      ensures states[k].received == old(states[k].received) && states[k].atCheckpoint == old(states[k].atCheckpoint)
    {
      states[k].features, states[k].fragments, states[k].nodes, states[k].currentEnv := [], [], [], None;
    }
  }

  /** The batches a state sends to the next at a checkpoint. */
  function Sent(role: Role, held: Buffers, next: Role): seq<seq<Datum>> {
    if role.FeatureFilter? then []
    else
      match Chosen(held, next)
      case None => []
      case Some(kind) => AllBatches(Grouped(role.assign, kind, held.Of(kind)), Unsigned(role.metering))
  }

  lemma BatchAhead(source: seq<Datum>, i: nat, metering: nat, had: seq<seq<Datum>>)
    requires i < |source| && metering > 0
    ensures var n := Least(|source| - i, metering);
            && 0 < n <= |source| - i
            && had + Batches(source[i..], metering) == (had + [source[i..i + n]]) + Batches(source[i + n..], metering)
  {
    var n := Least(|source| - i, metering);
    assert source[i..][..n] == source[i..i + n] && source[i..][n..] == source[i + n..];
  }

  lemma NoBatch(metering: nat)
    requires metering > 0
    ensures Batches([], metering) == []
  {
  }

  lemma OneBatch(source: seq<Datum>)
    ensures Batches(source, 0) == [source]
  {
  }

  lemma GroupAhead(groups: seq<Group>, i: nat, metering: nat, had: seq<seq<Datum>>)
    requires i < |groups|
    ensures had + AllBatches(groups[i..], metering) ==
            (had + Batches(groups[i].items, metering)) + AllBatches(groups[i + 1..], metering)
  {
    assert groups[i..][1..] == groups[i + 1..];
  }

  /** The buffers after the state at position k passes on what it holds. */
  function Traversed(roles: seq<Role>, bufs: seq<Buffers>, k: nat): (r: seq<Buffers>)
    requires k < |roles| == |bufs|
    ensures |r| == |bufs|
  {
    match roles[k]
    case Collector(_, _) => bufs
    case FeatureFilter(process) =>
      Landed(roles, bufs[k := EMPTY], k + 1, Feature, Process(process, bufs[k].features))
  }

  lemma LandsNowhere(roles: seq<Role>, bufs: seq<Buffers>, kind: Kind, items: seq<Datum>)
    requires |roles| == |bufs|
    ensures Landed(roles, bufs, |roles|, kind, items) == bufs
  {
  }

  /** Landing at a state is filling its buffer and having it pass on what it holds. */
  lemma LandsHere(roles: seq<Role>, bufs: seq<Buffers>, k: nat, kind: Kind, items: seq<Datum>)
    requires k < |roles| == |bufs| && (roles[k].FeatureFilter? ==> kind.Feature? && bufs[k] == EMPTY)
    ensures Landed(roles, bufs, k, kind, items) ==
            Traversed(roles, bufs[k := bufs[k].Add(kind, Accepted(kind, items))], k)
  {
    var held := bufs[k := bufs[k].Add(kind, Accepted(kind, items))];
    if roles[k].FeatureFilter? {
      assert held[k].features == Kept(items);
      assert held[k := EMPTY] == bufs;
    }
  }

  // ----- what the sizes of the batches change: nothing

  /** Two lines that differ in nothing but the metering sizes of their collectors. */
  ghost predicate SameButMetering(a: seq<Role>, b: seq<Role>) {
    |a| == |b| && forall i :: 0 <= i < |a| ==>
      match a[i]
      case FeatureFilter(process) => b[i] == a[i]
      case Collector(assign, _) => b[i].Collector? && b[i].assign == assign
  }

  lemma {:induction false} SameThrough(a: seq<Role>, b: seq<Role>, k: nat, kind: Kind, items: seq<Datum>)
    requires SameButMetering(a, b) && k <= |a|
    ensures NextCollector(a, k) == NextCollector(b, k) && Through(a, k, kind, items) == Through(b, k, kind, items)
    decreases |a| - k
  {
    if k < |a| && a[k].FeatureFilter? {
      SameThrough(a, b, k + 1, Feature, Process(a[k].process, Kept(items)));
    }
  }

  /** Metering is transparent: what every collector has buffered when its checkpoint begins is the same for all
      metering sizes. */
  lemma {:induction false} MeteringIsTransparent(a: seq<Role>, b: seq<Role>, bufs: seq<Buffers>, k: nat)
    requires SameButMetering(a, b) && k <= |a| == |bufs|
    ensures AtCheckpoint(a, bufs, k) == AtCheckpoint(b, bufs, k)
    decreases |a| - k
  {
    if k < |a| {
      if a[k].Collector? && k + 1 < |a| && Chosen(bufs[k], a[k + 1]).Some? {
        var kind := Chosen(bufs[k], a[k + 1]).value;
        SameThrough(a, b, k + 1, kind, Delivered(a[k].assign, kind, bufs[k].Of(kind)));
      }
      assert Outgoing(a, bufs, k) == Outgoing(b, bufs, k);
      MeteringIsTransparent(a, b, Outgoing(a, bufs, k), k + 1);
    }
  }

  lemma {:induction false} FiltersPassCheckpoint(roles: seq<Role>, bufs: seq<Buffers>, k: nat)
    requires k <= |roles| == |bufs| && NextCollector(roles, k) < |roles|
    ensures AtCheckpoint(roles, bufs, k)[NextCollector(roles, k)] == bufs[NextCollector(roles, k)]
    decreases |roles| - k
  {
    if roles[k].FeatureFilter? {
      FiltersPassCheckpoint(roles, bufs, k + 1);
    } else {
      AtCheckpointBefore(roles, bufs, k, k);
    }
  }

  /** What comes to the next collector is what the filters between make of the whole buffer, sent in key order. */
  lemma NextCollectorReceives(roles: seq<Role>, bufs: seq<Buffers>, k: nat)
    requires k + 1 < |roles| == |bufs| && roles[k].Collector? && NextCollector(roles, k + 1) < |roles|
    ensures var j := NextCollector(roles, k + 1);
            AtCheckpoint(roles, bufs, k)[j] ==
            match Chosen(bufs[k], roles[k + 1])
            case None => bufs[j]
            case Some(kind) =>
              bufs[j].Add(kind, Through(roles, k + 1, kind, Delivered(roles[k].assign, kind, bufs[k].Of(kind))))
  {
    hide Through, Delivered;
    FiltersPassCheckpoint(roles, Outgoing(roles, bufs, k), k + 1);
  }
}
