/** The file cache of SmartReadCallback.cpp: nodes by name, and the same entries in the order of their last use. */
module SmartReadCallback {
  import opened Basics

  // ----- what the cache should hold

  function Without(names: seq<string>, name: string): seq<string> {
    if names == [] then []
    else Without(names[..|names| - 1], name) + if names[|names| - 1] == name then [] else [names[|names| - 1]]
  }

  /** The readable names of a request history, each once, the most recently requested last. */
  function MostRecent(history: seq<string>, readable: string -> bool): seq<string> {
    if history == [] then []
    else
      var before := MostRecent(history[..|history| - 1], readable);
      var name := history[|history| - 1];
      if readable(name) then Without(before, name) + [name] else before
  }

  function Last(names: seq<string>, n: nat): seq<string> {
    if |names| <= n then names else names[|names| - n..]
  }

  lemma {:induction false} WithoutFilters(names: seq<string>, name: string)
    ensures forall x :: x in Without(names, name) <==> x in names && x != name
    ensures Distinct(names) ==> Distinct(Without(names, name))
    ensures name !in names ==> Without(names, name) == names
  {
    if names != [] {
      var n := |names| - 1;
      WithoutFilters(names[..n], name);
      assert names == names[..n] + [names[n]];
      if Distinct(names) {
        assert Distinct(names[..n]) && names[n] !in names[..n];
      }
    }
  }

  lemma {:induction false} WithoutAt(names: seq<string>, k: nat)
    requires Distinct(names) && k < |names|
    ensures Without(names, names[k]) == names[..k] + names[k + 1..]
  {
    var n := |names| - 1;
    if k == n {
      WithoutFilters(names[..n], names[n]);
    } else {
      assert names[..n][k] == names[k];
      WithoutAt(names[..n], k);
      assert names[..n][k + 1..] + [names[n]] == names[k + 1..];
    }
  }

  /** Where a name was requested last. */
  function LastRequest(history: seq<string>, name: string): (k: nat)
    requires name in history
    ensures k < |history| && history[k] == name
  {
    var n := |history| - 1;
    if history[n] == name then n
    else
      assert history == history[..n] + [history[n]];
      LastRequest(history[..n], name)
  }

  /** The list is what it says: the readable names requested, none twice, in the order of their last requests. */
  lemma {:induction false} MostRecentIsByLastRequest(history: seq<string>, readable: string -> bool)
    ensures var r := MostRecent(history, readable);
            && Distinct(r)
            && (forall x :: x in r <==> x in history && readable(x))
            && (forall i, j :: 0 <= i < j < |r| ==> LastRequest(history, r[i]) < LastRequest(history, r[j]))
  {
    if history != [] {
      var (n, r) := (|history| - 1, MostRecent(history, readable));
      var (name, before) := (history[n], MostRecent(history[..n], readable));
      assert history == history[..n] + [name];
      MostRecentIsByLastRequest(history[..n], readable);
      WithoutFilters(before, name);
      if readable(name) {
        var rest := Without(before, name);
        forall i, j | 0 <= i < j < |r|
          ensures LastRequest(history, r[i]) < LastRequest(history, r[j])
        {
          assert r[i] == rest[i] && r[i] in rest && r[i] != name;
          assert LastRequest(history, r[i]) == LastRequest(history[..n], r[i]);
          if j < |rest| {
            assert r[j] in rest && r[j] != name;
            assert LastRequest(history, r[j]) == LastRequest(history[..n], r[j]);
            WithoutKeepsOrder(before, name, i, j, history[..n]);
          }
        }
      }
    }
  }

  lemma {:induction false} WithoutKeepsOrder(names: seq<string>, name: string, i: nat, j: nat, history: seq<string>)
    requires Distinct(names) && i < j < |Without(names, name)| && forall x :: x in names ==> x in history
    requires forall i, j :: 0 <= i < j < |names| ==> LastRequest(history, names[i]) < LastRequest(history, names[j])
    ensures var r := Without(names, name);
            r[i] in history && r[j] in history && LastRequest(history, r[i]) < LastRequest(history, r[j])
  {
    WithoutFilters(names, name);
    if k :| 0 <= k < |names| && names[k] == name {
      WithoutAt(names, k);
    }
  }

  // ----- the cache, one request at a time

  /** The entries in order of use after a request, before any is dropped: moved to the end if held, else added;
      unchanged for a file that cannot be read. */
  function Used(order: seq<string>, name: string, readable: bool): seq<string> {
    if name in order then Without(order, name) + [name] else if readable then order + [name] else order
  }

  /** The entries after a request, the oldest dropped if the cache is full. */
  function Cached(order: seq<string>, name: string, readable: bool, capacity: nat): seq<string> {
    var used := Used(order, name, readable);
    if |used| >= capacity && used != [] then used[1..] else used
  }

  /** A full cache has an oldest entry to drop, and it is not the one the answer is then read from. */
  ghost predicate AnswerOutlives(order: seq<string>, name: string, readable: bool, capacity: nat) {
    var used := Used(order, name, readable);
    |used| >= capacity ==> used != [] && (name in used ==> name in Cached(order, name, readable, capacity))
  }

  /** A capacity of two is the least that works: with less the very first request drops the entry its answer is read
      from, or for an unreadable file an entry that is not there; with two or more no request does. */
  lemma CapacityTwoIsLeast(capacity: nat)
    ensures capacity >= 2 <==>
            forall order: seq<string>, name: string, readable: bool ::
              Distinct(order) && (order == [] || |order| < capacity) ==> AnswerOutlives(order, name, readable, capacity)
    ensures capacity < 2 ==> forall name :: !AnswerOutlives([], name, true, capacity)
    ensures capacity == 0 ==> forall name :: !AnswerOutlives([], name, false, capacity)
  {
    if capacity >= 2 {
      forall order: seq<string>, name: string, readable: bool | Distinct(order) && |order| < capacity
        ensures AnswerOutlives(order, name, readable, capacity)
      {
        UsedEndsWith(order, name, readable);
      }
    } else {
      forall name: string
        ensures !AnswerOutlives([], name, true, capacity)
      {
        assert Used([], name, true) == [name];
      }
      assert !AnswerOutlives([], "name", true, capacity) && Distinct<string>([]);
    }
  }

  lemma CachedCutsUsed(order: seq<string>, name: string, readable: bool, capacity: nat)
    requires capacity >= 1
    ensures var used := Used(order, name, readable);
            if |used| >= capacity then used != [] && Cached(order, name, readable, capacity) == used[1..]
            else Cached(order, name, readable, capacity) == used
  {
  }

  lemma UsedEndsWith(order: seq<string>, name: string, readable: bool)
    requires Distinct(order)
    ensures var used := Used(order, name, readable);
            (name in used ==> used[|used| - 1] == name) && (readable ==> name in used)
  {
  }

  lemma {:induction false} WithoutConcat(a: seq<string>, b: seq<string>, name: string)
    ensures Without(a + b, name) == Without(a, name) + Without(b, name)
  {
    if b == [] {
      assert a + b == a;
    } else {
      WithoutConcat(a, b[..|b| - 1], name);
      assert (a + b)[..|a + b| - 1] == a + b[..|b| - 1];
    }
  }

  lemma LastOfConcat(a: seq<string>, b: seq<string>, n: nat)
    requires |b| >= n || a == []
    ensures Last(a + b, n) == Last(b, n)
  {
    if a == [] {
      assert a + b == b;
    }
  }

  lemma WithoutLength(names: seq<string>, name: string)
    requires Distinct(names) && name in names
    ensures |Without(names, name)| == |names| - 1
  {
    var k :| 0 <= k < |names| && names[k] == name;
    WithoutAt(names, k);
  }

  lemma HeldMoves(older: seq<string>, held: seq<string>, name: string)
    requires Distinct(older + held) && name in held
    ensures Without(older, name) + Without(held, name) + [name] == older + (Without(held, name) + [name])
    ensures Distinct(held)
  {
    var k :| 0 <= k < |held| && held[k] == name;
    forall i | 0 <= i < |older|
      ensures older[i] != name
    {
      assert (older + held)[i] != (older + held)[|older| + k];
    }
    forall i, j | 0 <= i < j < |held|
      ensures held[i] != held[j]
    {
      assert (older + held)[|older| + i] != (older + held)[|older| + j];
    }
    WithoutFilters(older, name);
  }

  lemma NoneWithout(names: seq<string>, name: string)
    ensures names == [] ==> Without(names, name) == []
  {
  }

  lemma MostRecentNext(history: seq<string>, name: string, readable: string -> bool)
    ensures MostRecent(history + [name], readable) ==
            var before := MostRecent(history, readable);
            if readable(name) then Without(before, name) + [name] else before
  {
    assert (history + [name])[..|history|] == history;
  }

  lemma HitMovesToEnd(older: seq<string>, held: seq<string>, name: string, m: nat)
    requires Distinct(older + held) && name in held && |held| <= m && (|held| == m || older == [])
    ensures Cached(held, name, true, m + 1) == Last(Without(older + held, name) + [name], m)
  {
    hide Without, Distinct, Last;
    HeldMoves(older, held, name);
    WithoutConcat(older, held, name);
    WithoutLength(held, name);
    var used := Without(held, name) + [name];
    LastOfConcat(older, used, m);
    LastOfAll(used, m);
  }

  lemma LastOfAll(names: seq<string>, n: nat)
    ensures |names| <= n ==> Last(names, n) == names
    ensures |names| == n + 1 ==> Last(names, n) == names[1..]
  {
  }

  lemma MissAdds(older: seq<string>, held: seq<string>, name: string, m: nat)
    requires name !in held && |held| <= m && m > 0 && (|held| == m || older == [])
    ensures Cached(held, name, true, m + 1) == Last(Without(older + held, name) + [name], m)
  {
    hide Without, Last;
    WithoutConcat(older, held, name);
    WithoutFilters(held, name);
    NoneWithout(older, name);
    var (rest, used) := (Without(older, name), held + [name]);
    assert rest + held + [name] == rest + used;
    LastOfConcat(rest, used, m);
    LastOfAll(used, m);
  }

  /** The cache of capacity M holds, after any requests, the M - 1 most recently requested readable names. */
  lemma CachedIsMostRecent(history: seq<string>, name: string, readable: string -> bool, capacity: nat)
    requires capacity >= 2
    ensures Cached(Last(MostRecent(history, readable), capacity - 1), name, readable(name), capacity) ==
            Last(MostRecent(history + [name], readable), capacity - 1)
  {
    hide Without, MostRecent, LastRequest, Cached, Last, Distinct;
    var (all, m) := (MostRecent(history, readable), capacity - 1);
    MostRecentIsByLastRequest(history, readable);
    MostRecentNext(history, name, readable);
    var older, held := SplitLast(all, m);
    assert forall x :: x in held ==> x in all;
    if name in held {
      HitMovesToEnd(older, held, name, m);
    } else if readable(name) {
      MissAdds(older, held, name, m);
    } else {
      CachedUnread(held, name, capacity);
    }
  }

  lemma SplitLast(all: seq<string>, m: nat) returns (older: seq<string>, held: seq<string>)
    ensures held == Last(all, m) && all == older + held && |held| <= m && (|held| == m || older == [])
  {
    held := Last(all, m);
    older := all[..|all| - |held|];
  }

  lemma LastIsShort(names: seq<string>, n: nat)
    ensures |Last(names, n)| <= n
  {
  }

  lemma CachedUnread(held: seq<string>, name: string, capacity: nat)
    requires name !in held && |held| < capacity
    ensures Cached(held, name, false, capacity) == held
  {
  }

  // ----- the cache as the source keeps it

  /** A scene graph node, by identity. */
  type Node = nat

  function Readable(read: string -> Option<Node>): string -> bool {
    name => read(name).Some?
  }

  class NodeRef {
    const name: string
    const node: Node
    var timestamp: int

    constructor (name: string, node: Node, timestamp: int)
      ensures this.name == name && this.node == node && this.timestamp == timestamp
    {
      this.name, this.node, this.timestamp := name, node, timestamp;
    }
  }

  function Names(refs: seq<NodeRef>): (names: seq<string>)
    ensures |names| == |refs| && forall i :: 0 <= i < |refs| ==> names[i] == refs[i].name
  {
    seq(|refs|, i requires 0 <= i < |refs| => refs[i].name)
  }

  /** The set of references is kept in the order of their timestamps, all different. */
  ghost predicate ByTime(refs: seq<NodeRef>)
    reads refs
  {
    forall i, j :: 0 <= i < j < |refs| ==> refs[i].timestamp < refs[j].timestamp
  }

  /** The map holds references by their names, those of the set among them. */
  ghost predicate Mapped(nodeMap: map<string, NodeRef>, refs: seq<NodeRef>) {
    && (forall i :: 0 <= i < |refs| ==> refs[i].name in nodeMap && nodeMap[refs[i].name] == refs[i])
    && (forall name :: name in nodeMap ==> nodeMap[name].name == name)
  }

  /** The map holds exactly the references of the set, by name. */
  ghost predicate SameEntries(nodeMap: map<string, NodeRef>, refs: seq<NodeRef>) {
    Mapped(nodeMap, refs) && forall name :: name in nodeMap ==> nodeMap[name] in refs
  }

  /** No reference of another name has the timestamp. */
  ghost predicate TickIsFree(refs: seq<NodeRef>, name: string, now: int)
    reads refs
  {
    forall i :: 0 <= i < |refs| && refs[i].name != name ==> refs[i].timestamp != now
  }

  ghost predicate Faithful(refs: seq<NodeRef>, read: string -> Option<Node>) {
    forall i :: 0 <= i < |refs| ==> read(refs[i].name) == Some(refs[i].node)
  }

  lemma NamesAreDistinct(nodeMap: map<string, NodeRef>, refs: seq<NodeRef>)
    requires SameEntries(nodeMap, refs) && ByTime(refs)
    ensures Distinct(Names(refs))
    ensures forall name :: name in nodeMap <==> name in Names(refs)
  {
    var names := Names(refs);
    forall i, j | 0 <= i < j < |names|
      ensures names[i] != names[j]
    {
      assert refs[i].timestamp < refs[j].timestamp;
    }
    forall name | name in nodeMap
      ensures name in names
    {
      var k :| 0 <= k < |refs| && refs[k] == nodeMap[name];
      assert names[k] == name;
    }
  }

  class ReadCallback {
    const capacity: nat
    var nodeMap: map<string, NodeRef>
    var mru: seq<NodeRef>
    /** All names requested so far, and the last tick of the timer. */
    ghost var history: seq<string>
    ghost var clock: int

    /** The entries hold what reading their files gives, and are named so in the order of use, none after a time. */
    ghost predicate Held(read: string -> Option<Node>, time: int, names: seq<string>)
      reads this`mru, this`nodeMap, mru
    {
      && ByTime(mru) && SameEntries(nodeMap, mru) && Faithful(mru, read)
      && (forall r :: r in mru ==> r.timestamp <= time) && Names(mru) == names
    }

    ghost predicate Valid(read: string -> Option<Node>)
      reads this, mru
    {
      capacity >= 2 && Held(read, clock, Last(MostRecent(history, Readable(read)), capacity - 1))
    }

    constructor (capacity: nat, read: string -> Option<Node>, clock: int)
      ensures (capacity >= 2 ==> Valid(read)) && nodeMap == map[] && mru == []
      ensures this.capacity == capacity && history == [] && this.clock == clock
    {
      this.capacity, nodeMap, mru, history, this.clock := capacity, map[], [], [], clock;
    }

    /** The set finds an entry by its timestamp. */
    method Find(n: NodeRef) returns (k: nat)
      requires ByTime(mru) && n in mru
      ensures k < |mru| && mru[k] == n
    {
      ghost var at :| 0 <= at < |mru| && mru[at] == n;
      k := 0;
      while mru[k].timestamp != n.timestamp
        invariant k <= at
        decreases at - k
      {
        k := k + 1;
      }
    }

    /** The set takes an entry in its place by timestamp, unless it has one with the same timestamp. */
    method Insert(n: NodeRef)
      requires ByTime(mru)
      modifies this`mru
      ensures ByTime(mru)
      ensures (exists r :: r in old(mru) && r.timestamp == n.timestamp) ==> mru == old(mru)
      ensures (forall r :: r in old(mru) ==> r.timestamp < n.timestamp) ==> mru == old(mru) + [n]
      ensures (forall r :: r in old(mru) ==> r.timestamp != n.timestamp) ==>
                exists k :: 0 <= k <= |old(mru)| && mru == old(mru)[..k] + [n] + old(mru)[k..]
    {
      var k := 0;
      while k < |mru| && mru[k].timestamp < n.timestamp
        invariant 0 <= k <= |mru|
        invariant forall i :: 0 <= i < k ==> mru[i].timestamp < n.timestamp
      {
        k := k + 1;
      }
      if k == |mru| || n.timestamp != mru[k].timestamp {
        mru := mru[..k] + [n] + mru[k..];
      }
    }

    /** Takes out of the set the entry with n's timestamp, which is n. */
    method Erase(n: NodeRef) returns (ghost k: nat)
      requires ByTime(mru) && n in mru
      modifies this`mru
      ensures k < |old(mru)| && old(mru)[k] == n && mru == old(mru)[..k] + old(mru)[k + 1..]
      ensures ByTime(mru) && n !in mru && forall r :: r in mru <==> r in old(mru) && r != n
    {
      var i := Find(n);
      k := i;
      ApartByTime(mru);
      TakenOut(mru, i);
      mru := mru[..i] + mru[i + 1..];
    }

    /** A hit: the entry is taken out, given the new time, and put back, which fails where another entry has that time.
        Map and set then no longer agree. */
    method Touch(filename: string, now: int) returns (n: NodeRef, ghost k: nat)
      requires ByTime(mru) && SameEntries(nodeMap, mru) && filename in nodeMap
      modifies this`mru, {nodeMap[filename]}
      ensures n == nodeMap[filename] && n.timestamp == now && ByTime(mru) && Mapped(nodeMap, mru)
      ensures SameEntries(nodeMap, mru) <==> old(TickIsFree(mru, filename, now))
      ensures k < |old(mru)| && old(mru)[k] == n && forall r :: r in mru ==> r in old(mru)
      ensures !SameEntries(nodeMap, mru) ==> |mru| < |old(mru)|
      ensures (forall r :: r in old(mru) && r != n ==> r.timestamp < now) ==>
                mru == old(mru)[..k] + old(mru)[k + 1..] + [n]
    {
      hide ByTime, SameEntries, Mapped, TickIsFree;
      MappedAt(nodeMap, mru, filename);
      ghost var before := mru;
      n := nodeMap[filename];
      k := Erase(n);
      ghost var rest := mru;
      FreeAmong(before, rest, filename, n, now);
      RestIsMapped(nodeMap, before, rest, n);
      n.timestamp := now;
      Insert(n);
      Agreement(nodeMap, rest, mru, n);
    }

    /** A miss on a readable file: a new entry in the map, and in the set if none there has its time. */
    method Add(filename: string, node: Node, now: int) returns (n: NodeRef)
      requires ByTime(mru) && SameEntries(nodeMap, mru) && filename !in nodeMap
      modifies this`mru, this`nodeMap
      ensures fresh(n) && n.name == filename && n.node == node && n.timestamp == now
      ensures nodeMap == old(nodeMap)[filename := n] && ByTime(mru) && Mapped(nodeMap, mru)
      ensures SameEntries(nodeMap, mru) <==> old(TickIsFree(mru, filename, now))
      ensures forall r :: r in mru ==> r in old(mru) || r == n
      ensures !SameEntries(nodeMap, mru) ==> mru == old(mru)
      ensures (forall r :: r in old(mru) ==> r.timestamp < now) ==> mru == old(mru) + [n]
    {
      hide ByTime, SameEntries, Mapped, TickIsFree;
      MappedNames(nodeMap, mru);
      ghost var before, known := mru, nodeMap;
      n := new NodeRef(filename, node, now);
      FreeAmong(before, before, filename, n, now);
      nodeMap := nodeMap[filename := n];
      NewIsMapped(known, before, n);
      Insert(n);
      Agreement(nodeMap, before, mru, n);
    }

    /** The oldest entry goes when the cache overflows, from both; that makes no difference to their agreeing. */
    method Evict()
      requires ByTime(mru) && Mapped(nodeMap, mru) && |mru| > 0
      modifies this`mru, this`nodeMap
      ensures mru == old(mru)[1..] && nodeMap == old(nodeMap) - {old(mru)[0].name}
      ensures ByTime(mru) && Mapped(nodeMap, mru)
      ensures SameEntries(nodeMap, mru) <==> old(SameEntries(nodeMap, mru))
    {
      hide SameEntries, Mapped;
      ApartByTime(mru);
      OldestIsInBoth(nodeMap, mru);
      var oldest := mru[0];
      nodeMap := nodeMap - {oldest.name};
      mru := mru[1..];
    }

    lemma HeldEntries(read: string -> Option<Node>, time: int, names: seq<string>)
      requires Held(read, time, names)
      ensures ByTime(mru) && Mapped(nodeMap, mru) && |mru| == |names| && Distinct(names)
      ensures forall name :: name in nodeMap ==> nodeMap[name] in mru
      ensures forall name :: name in nodeMap <==> name in names
      ensures forall name :: name in names ==> read(name).Some?
      ensures forall later :: time <= later ==> Held(read, later, names)
    {
      NamesAreDistinct(nodeMap, mru);
      forall name | name in names
        ensures read(name).Some?
      {
        var k :| 0 <= k < |names| && names[k] == name;
        assert read(mru[k].name) == Some(mru[k].node);
      }
    }

    /** With two entries or more, the oldest is not the one used last. */
    lemma OldestIsOther(read: string -> Option<Node>, time: int, names: seq<string>)
      requires Held(read, time, names)
      ensures |mru| == |names| && (|mru| >= 2 ==> mru[0].name != names[|names| - 1])
    {
      NamesAreDistinct(nodeMap, mru);
    }

    /** A hit keeps what the cache holds, moved to the end, where no other entry has the tick, and else loses it. */
    method Hit(filename: string, now: int, read: string -> Option<Node>, ghost time: int, ghost names: seq<string>)
      returns (n: NodeRef)
      requires Held(read, time, names) && time <= now && filename in nodeMap
      modifies this`mru, {nodeMap[filename]}
      ensures n == nodeMap[filename] && n.timestamp == now && read(filename) == Some(n.node)
      ensures ByTime(mru) && Mapped(nodeMap, mru)
      ensures old(TickIsFree(mru, filename, now)) ==> Held(read, now, Without(names, filename) + [filename])
      ensures !old(TickIsFree(mru, filename, now)) ==> !SameEntries(nodeMap, mru) && |mru| <= |old(mru)|
      ensures forall r :: r in mru ==> r in old(mru)
    {
      hide Without, ByTime, SameEntries, Mapped, TickIsFree;
      ghost var before, free := mru, TickIsFree(mru, filename, now);
      NamesAreDistinct(nodeMap, mru);
      MappedAt(nodeMap, mru, filename);
      FaithfulAt(mru, read, nodeMap[filename]);
      if free {
        LatestIfFree(mru, filename, nodeMap[filename], time, now);
      }
      ghost var k;
      n, k := Touch(filename, now);
      if free {
        TouchedNames(before, k, n);
        Retimed(nodeMap, before, k);
      }
    }

    lemma FaithfulAt(refs: seq<NodeRef>, read: string -> Option<Node>, n: NodeRef)
      requires Faithful(refs, read) && n in refs
      ensures read(n.name) == Some(n.node)
    {
    }

    /** Where no other entry has the tick, all others are older. */
    lemma LatestIfFree(refs: seq<NodeRef>, name: string, n: NodeRef, time: int, now: int)
      requires TickIsFree(refs, name, now) && time <= now && forall r :: r in refs ==> r.timestamp <= time
      requires forall i :: 0 <= i < |refs| ==> (refs[i].name == name <==> refs[i] == n)
      ensures forall r :: r in refs && r != n ==> r.timestamp < now
    {
    }

    /** A miss on a readable file adds its name at the end where no entry has the tick, and else parts map and set. */
    method Miss(filename: string, node: Node, now: int, read: string -> Option<Node>, ghost time: int,
                ghost names: seq<string>) returns (n: NodeRef)
      requires Held(read, time, names) && time <= now && filename !in nodeMap && read(filename) == Some(node)
      modifies this`mru, this`nodeMap
      ensures filename in nodeMap && n == nodeMap[filename] && n.timestamp == now && n.node == node
      ensures ByTime(mru) && Mapped(nodeMap, mru)
      ensures old(TickIsFree(mru, filename, now)) ==> Held(read, now, names + [filename])
      ensures !old(TickIsFree(mru, filename, now)) ==> !SameEntries(nodeMap, mru) && |mru| <= |old(mru)|
      ensures forall r :: r in mru ==> r in old(mru) || fresh(r)
    {
      hide ByTime, SameEntries, Mapped;
      ghost var before := mru;
      MappedNames(nodeMap, mru);
      n := Add(filename, node, now);
      AddedNames(before, n);
    }

    /** The oldest name goes. */
    method CutBack(read: string -> Option<Node>, ghost time: int, ghost names: seq<string>)
      requires ByTime(mru) && Mapped(nodeMap, mru) && |mru| > 0
      modifies this`mru, this`nodeMap
      ensures old(Held(read, time, names)) ==> Held(read, time, names[1..])
      ensures SameEntries(nodeMap, mru) <==> old(SameEntries(nodeMap, mru))
      ensures nodeMap == old(nodeMap) - {old(mru)[0].name}
      ensures forall r :: r in mru ==> r in old(mru)
    {
      hide ByTime, SameEntries, Mapped;
      DropFirst(mru);
      Evict();
    }

    /** The first half of a request: the entry of the file, if it can be read, with the new tick. */
    method Look(filename: string, now: int, read: string -> Option<Node>, ghost time: int, ghost names: seq<string>)
      returns (n: NodeRef?)
      requires Held(read, time, names) && time <= now
      modifies this`mru, this`nodeMap, mru
      ensures n == null <==> read(filename).None?
      ensures n != null ==>
                filename in nodeMap && nodeMap[filename] == n && n.timestamp == now && read(filename) == Some(n.node)
      ensures ByTime(mru) && Mapped(nodeMap, mru)
      ensures if read(filename).None? || old(TickIsFree(mru, filename, now)) then
                Held(read, now, Used(names, filename, read(filename).Some?))
              else !SameEntries(nodeMap, mru) && |mru| <= |old(mru)|
      ensures forall r :: r in mru ==> r in old(mru) || fresh(r)
    {
      hide Without, Held, Mapped, SameEntries, ByTime, TickIsFree;
      HeldEntries(read, time, names);
      n := null;
      if filename in nodeMap {
        n := Hit(filename, now, read, time, names);
      } else {
        var direct := read(filename);
        if direct.Some? {
          n := Miss(filename, direct.value, now, read, time, names);
        }
      }
    }

    /** The second half: a full cache is cut back. It keeps the entry just used. */
    method Trim(read: string -> Option<Node>, ghost time: int, ghost used: seq<string>, ghost name: string)
      requires capacity >= 2 && ByTime(mru) && Mapped(nodeMap, mru)
      requires if SameEntries(nodeMap, mru) then Held(read, time, used) else |mru| < capacity
      requires SameEntries(nodeMap, mru) && name in nodeMap ==> used != [] && used[|used| - 1] == name
      modifies this`mru, this`nodeMap
      ensures if old(SameEntries(nodeMap, mru)) then Held(read, time, if |used| >= capacity then used[1..] else used)
              else !SameEntries(nodeMap, mru)
      ensures name in old(nodeMap) ==> name in nodeMap && nodeMap[name] == old(nodeMap)[name]
      ensures forall r :: r in mru ==> r in old(mru)
    {
      hide Held, Mapped, SameEntries, ByTime;
      if SameEntries(nodeMap, mru) {
        OldestIsOther(read, time, used);
      }
      if |mru| >= capacity {
        CutBack(read, time, used);
      }
    }

    lemma HeldAgrees(read: string -> Option<Node>, time: int, names: seq<string>)
      requires Held(read, time, names)
      ensures SameEntries(nodeMap, mru)
    {
    }

    /** Reads a file through the cache, the timer not going back: the result is that of reading it directly. The cache
        then holds the capacity - 1 most recently requested readable names, in the order of their last requests, exactly
        when the file cannot be read or no entry of another name has the same tick; else its map and its set part. */
    method ReadNodeFile(filename: string, now: int, read: string -> Option<Node>) returns (node: Option<Node>)
      requires Valid(read) && clock <= now
      modifies this, mru
      ensures node == read(filename)
      ensures Valid(read) <==> read(filename).None? || old(TickIsFree(mru, filename, now))
      ensures !Valid(read) ==> !SameEntries(nodeMap, mru)
      ensures node.Some? ==> filename in nodeMap && nodeMap[filename].timestamp == now
      ensures history == old(history) + [filename] && clock == now
      ensures forall r :: r in mru ==> r in old(mru) || fresh(r)
    {
      hide Without, MostRecent, Last, Held, Mapped, SameEntries, ByTime, TickIsFree, Used, Cached;
      ghost var names := Last(MostRecent(history, Readable(read)), capacity - 1);
      ghost var used := Used(names, filename, read(filename).Some?);
      ghost var free := read(filename).None? || TickIsFree(mru, filename, now);
      CachedIsMostRecent(history, filename, Readable(read), capacity);
      HeldEntries(read, clock, names);
      LastIsShort(MostRecent(history, Readable(read)), capacity - 1);
      UsedEndsWith(names, filename, read(filename).Some?);
      CachedCutsUsed(names, filename, read(filename).Some?, capacity);
      var n := Look(filename, now, read, clock, names);
      if free {
        HeldAgrees(read, now, used);
        HeldEntries(read, now, used);
      }
      Trim(read, now, used, filename);
      history := history + [filename];
      clock := now;
      node := if n == null then None else Some(n.node);
      if !free {
        PartedIsInvalid(read);
      }
    }

    lemma PartedIsInvalid(read: string -> Option<Node>)
      requires !SameEntries(nodeMap, mru)
      ensures !Valid(read)
    {
    }
  }

  lemma ApartByTime(refs: seq<NodeRef>)
    requires ByTime(refs)
    ensures Distinct(refs)
  {
    forall i, j | 0 <= i < j < |refs|
      ensures refs[i] != refs[j]
    {
      assert refs[i].timestamp < refs[j].timestamp;
    }
  }

  lemma TakenOut(refs: seq<NodeRef>, i: nat)
    requires Distinct(refs) && i < |refs|
    ensures forall r :: r in refs[..i] + refs[i + 1..] <==> r in refs && r != refs[i]
  {
    var rest := refs[..i] + refs[i + 1..];
    assert forall j :: 0 <= j < |rest| ==> rest[j] == refs[if j < i then j else j + 1];
    forall r | r in refs && r != refs[i]
      ensures r in rest
    {
      var j :| 0 <= j < |refs| && refs[j] == r;
      assert rest[if j < i then j else j - 1] == r;
    }
  }

  /** The tick is free just when no entry but n has it. */
  lemma FreeAmong(refs: seq<NodeRef>, rest: seq<NodeRef>, name: string, n: NodeRef, now: int)
    requires forall r :: r in rest <==> r in refs && r != n
    requires forall r :: r in refs ==> (r.name == name <==> r == n)
    ensures TickIsFree(refs, name, now) <==> forall r :: r in rest ==> r.timestamp != now
  {
    if TickIsFree(refs, name, now) {
      forall r | r in rest
        ensures r.timestamp != now
      {
        var i :| 0 <= i < |refs| && refs[i] == r;
      }
    } else {
      var i :| 0 <= i < |refs| && refs[i].name != name && refs[i].timestamp == now;
      assert refs[i] in rest;
    }
  }

  lemma RestIsMapped(nodeMap: map<string, NodeRef>, refs: seq<NodeRef>, rest: seq<NodeRef>, n: NodeRef)
    requires SameEntries(nodeMap, refs) && n in refs && forall r :: r in rest <==> r in refs && r != n
    ensures n.name in nodeMap && nodeMap[n.name] == n && Mapped(nodeMap, rest)
    ensures forall name :: name in nodeMap && name != n.name ==> nodeMap[name] in rest
  {
    forall i | 0 <= i < |rest|
      ensures rest[i].name in nodeMap && nodeMap[rest[i].name] == rest[i]
    {
      assert rest[i] in rest;
    }
  }

  lemma NewIsMapped(nodeMap: map<string, NodeRef>, refs: seq<NodeRef>, n: NodeRef)
    requires SameEntries(nodeMap, refs) && n.name !in nodeMap
    ensures n !in refs && Mapped(nodeMap[n.name := n], refs)
    ensures var next := nodeMap[n.name := n]; forall name :: name in next && name != n.name ==> next[name] in refs
  {
  }

  lemma OldestIsInBoth(nodeMap: map<string, NodeRef>, refs: seq<NodeRef>)
    requires Mapped(nodeMap, refs) && Distinct(refs) && refs != []
    ensures var rest := nodeMap - {refs[0].name};
            Mapped(rest, refs[1..]) && (SameEntries(rest, refs[1..]) <==> SameEntries(nodeMap, refs))
  {
    var (rest, others, oldest) := (nodeMap - {refs[0].name}, refs[1..], refs[0]);
    assert forall i :: 0 <= i < |others| ==> others[i] == refs[i + 1] && others[i] != oldest;
    assert forall r :: r in refs <==> r == oldest || r in others;
    assert forall name :: name in nodeMap ==> (name in rest <==> nodeMap[name] != oldest);
  }

  /** After an entry is offered to a set that held all others of the map, the two agree just when it was taken. */
  lemma Agreement(nodeMap: map<string, NodeRef>, rest: seq<NodeRef>, refs: seq<NodeRef>, n: NodeRef)
    requires n.name in nodeMap && nodeMap[n.name] == n && n !in rest && Mapped(nodeMap, rest)
    requires forall name :: name in nodeMap && name != n.name ==> nodeMap[name] in rest
    requires refs == rest || exists k :: 0 <= k <= |rest| && refs == rest[..k] + [n] + rest[k..]
    ensures Mapped(nodeMap, refs) && (SameEntries(nodeMap, refs) <==> refs != rest)
    ensures forall r :: r in refs ==> r in rest || r == n
  {
    if refs == rest {
      assert nodeMap[n.name] !in refs;
    } else {
      PutIn(rest, refs, n);
      forall i | 0 <= i < |refs|
        ensures refs[i].name in nodeMap && nodeMap[refs[i].name] == refs[i]
      {
        assert refs[i] in refs;
      }
    }
  }

  lemma PutIn(rest: seq<NodeRef>, refs: seq<NodeRef>, n: NodeRef)
    requires exists k :: 0 <= k <= |rest| && refs == rest[..k] + [n] + rest[k..]
    ensures forall r :: r in refs <==> r in rest || r == n
  {
    var k :| 0 <= k <= |rest| && refs == rest[..k] + [n] + rest[k..];
    assert rest == rest[..k] + rest[k..];
  }

  lemma MappedAt(nodeMap: map<string, NodeRef>, refs: seq<NodeRef>, name: string)
    requires SameEntries(nodeMap, refs) && name in nodeMap
    ensures nodeMap[name] in refs && nodeMap[name].name == name
    ensures forall i :: 0 <= i < |refs| ==> (refs[i].name == name <==> refs[i] == nodeMap[name])
  {
  }

  lemma MappedNames(nodeMap: map<string, NodeRef>, refs: seq<NodeRef>)
    requires SameEntries(nodeMap, refs)
    ensures forall i :: 0 <= i < |refs| ==> refs[i].name in nodeMap
  {
  }

  /** Moving an entry to the end leaves the same entries. */
  lemma Retimed(nodeMap: map<string, NodeRef>, before: seq<NodeRef>, k: nat)
    requires SameEntries(nodeMap, before) && k < |before|
    ensures var after := before[..k] + before[k + 1..] + [before[k]];
            SameEntries(nodeMap, after) && forall r :: r in after <==> r in before
  {
    var after := before[..k] + before[k + 1..] + [before[k]];
    forall r | r in before
      ensures r in after
    {
      var i :| 0 <= i < |before| && before[i] == r;
      assert r == after[if i < k then i else if i == k then |after| - 1 else i - 1];
    }
  }

  lemma TouchedNames(before: seq<NodeRef>, k: nat, n: NodeRef)
    requires k < |before| && before[k] == n && Distinct(Names(before))
    ensures Names(before[..k] + before[k + 1..] + [n]) == Without(Names(before), n.name) + [n.name]
  {
    WithoutAt(Names(before), k);
  }

  lemma AddedNames(before: seq<NodeRef>, n: NodeRef)
    ensures Names(before + [n]) == Names(before) + [n.name]
  {
  }

  lemma DropFirst(refs: seq<NodeRef>)
    requires refs != []
    ensures Names(refs[1..]) == Names(refs)[1..]
  {
  }

  /** Two readable names requested at one tick: the second is in the map, and its entry not in the set. */
  method TwoNamesAtOneTick(capacity: nat, first: string, second: string, tick: int, read: string -> Option<Node>)
    returns (c: ReadCallback)
    requires capacity >= 2 && first != second && read(first).Some? && read(second).Some?
    ensures second in c.nodeMap && !SameEntries(c.nodeMap, c.mru) && !c.Valid(read)
  {
    hide SameEntries, ReadCallback.Valid;
    c := new ReadCallback(capacity, read, tick);
    var node := c.ReadNodeFile(first, tick, read);
    FirstHasTick(c, first, second, tick, read);
    assert forall r :: r in c.mru ==> fresh(r);
    assert forall i :: 0 <= i < |c.mru| ==> c.mru[i] in c.mru;
    node := c.ReadNodeFile(second, tick, read);
  }

  lemma FirstHasTick(c: ReadCallback, first: string, second: string, tick: int, read: string -> Option<Node>)
    requires c.Valid(read) && first in c.nodeMap && c.nodeMap[first].timestamp == tick && first != second
    ensures !TickIsFree(c.mru, second, tick)
  {
    var n := c.nodeMap[first];
    var i :| 0 <= i < |c.mru| && c.mru[i] == n;
  }

  /** What a valid cache holds: fewer entries than its capacity, as many by name as by time. */
  lemma ValidCacheHolds(c: ReadCallback, read: string -> Option<Node>)
    requires c.Valid(read)
    ensures |c.mru| < c.capacity && c.nodeMap.Keys == set name | name in Names(c.mru)
    ensures Distinct(Names(c.mru)) && |c.nodeMap| == |c.mru|
  {
    NamesAreDistinct(c.nodeMap, c.mru);
    DistinctCount(Names(c.mru));
  }

  lemma {:induction false} DistinctCount(names: seq<string>)
    requires Distinct(names)
    ensures |set name | name in names| == |names|
  {
    if names != [] {
      var n := |names| - 1;
      assert Distinct(names[..n]) && names[n] !in names[..n];
      DistinctCount(names[..n]);
      assert (set name | name in names) == (set name | name in names[..n]) + {names[n]};
    }
  }
}
