/**
 Automatic placement (`nodes-placement.ts`) and the capacity check made before a server is created
 (`nodes-capacity.ts`), over the same node, server and storage-pool rows.
 */
module Placement {
  import opened JsText
  import opened Sorting
  import Words

  const MAX_SAFE_INTEGER := 0x1F_FFFF_FFFF_FFFF

  type Id = string

  /** Sizes are database integers; zero or less means no limit on a node or pool. */
  datatype Server = Server(id: Id, memoryMb: int, diskMb: int, cpuLimit: int, storageId: Option<Id>)

  datatype Node = Node(
    id: Id, online: bool, deployable: bool, maintenanceMode: bool,
    memoryMb: int, memoryOverallocate: int, diskMb: int, diskOverallocate: int, cpuLimit: int, cpuOverallocate: int,
    servers: seq<Server>)

  datatype Pool = Pool(id: Id, enabled: bool, diskMb: int, nodes: set<Id>)

  /** `diskMb` and `cpuLimit` may be left out of a request. */
  datatype Request = Request(memoryMb: int, diskMb: Option<int>, cpuLimit: Option<int>)

  // ----- free resources -----

  /** `nodeAllocationBudget` */
  function AllocationBudget(limit: int, overallocatePercent: int): int
  {
    if limit <= 0 then 0 else limit * (100 + Max(0, Min(1000, overallocatePercent))) / 100
  }

  lemma {:induction false} FloorMeans(x: int, b: int)
    ensures b <= x / 100 <==> 100 * b <= x
  {
  }

  lemma {:induction false} PercentBounds(limit: int, percent: int)
    requires limit > 0 && 100 <= percent <= 1100
    ensures 100 * limit <= limit * percent <= 1100 * limit
  {
    Words.MulMonotone(100, percent, limit);
    Words.MulMonotone(percent, 1100, limit);
  }

  function Clamped(overallocatePercent: int): int
  {
    if overallocatePercent < 0 then 0 else if overallocatePercent > 1000 then 1000 else overallocatePercent
  }

  /**
   A limited resource may be given out up to the limit plus the stated percentage, of which 0 to
   1000 count: `b` fits the budget exactly when a hundred times `b` is at most that many hundredths.
   */
  lemma {:induction false} BudgetIsExact(limit: int, overallocatePercent: int, b: int)
    requires limit > 0
    ensures b <= AllocationBudget(limit, overallocatePercent) <==>
            100 * b <= limit * (100 + Clamped(overallocatePercent))
    ensures limit <= AllocationBudget(limit, overallocatePercent) <= 11 * limit
  {
    var percent := 100 + Clamped(overallocatePercent);
    var total := limit * percent;
    PercentBounds(limit, percent);
    BudgetIsFloor(limit, overallocatePercent);
    hide AllocationBudget, Clamped;
    FloorMeans(total, b);
    FloorMeans(total, limit);
    FloorMeans(total, 11 * limit + 1);
  }

  lemma {:induction false} BudgetIsFloor(limit: int, overallocatePercent: int)
    requires limit > 0
    ensures AllocationBudget(limit, overallocatePercent) == limit * (100 + Clamped(overallocatePercent)) / 100
  {
    assert Max(0, Min(1000, overallocatePercent)) == Clamped(overallocatePercent);
  }

  function MemoryUsed(servers: seq<Server>): int
  {
    if servers == [] then 0 else MemoryUsed(servers[..|servers| - 1]) + servers[|servers| - 1].memoryMb
  }

  function CpuUsed(servers: seq<Server>): int
  {
    if servers == [] then 0 else CpuUsed(servers[..|servers| - 1]) + servers[|servers| - 1].cpuLimit
  }

  /** Disk of the servers kept in one place: the data directory (`None`) or a pool. */
  function DiskUsed(servers: seq<Server>, place: Option<Id>): int
  {
    if servers == [] then 0
    else
      var s := servers[|servers| - 1];
      DiskUsed(servers[..|servers| - 1], place) + (if s.storageId == place then s.diskMb else 0)
  }

  function AvailableMemoryMb(node: Node): int
  {
    if node.memoryMb <= 0 then MAX_SAFE_INTEGER
    else Max(0, AllocationBudget(node.memoryMb, node.memoryOverallocate) - MemoryUsed(node.servers))
  }

  function AvailableCpu(node: Node): int
  {
    if node.cpuLimit <= 0 then MAX_SAFE_INTEGER
    else Max(0, AllocationBudget(node.cpuLimit, node.cpuOverallocate) - CpuUsed(node.servers))
  }

  function DataDirFreeMb(node: Node): int
  {
    if node.diskMb <= 0 then MAX_SAFE_INTEGER
    else Max(0, AllocationBudget(node.diskMb, node.diskOverallocate) - DiskUsed(node.servers, None))
  }

  function FindPool(pools: seq<Pool>, id: Id): (r: Option<Pool>)
    ensures r.Some? ==> r.value in pools && r.value.id == id
    ensures r.None? ==> forall p | p in pools :: p.id != id
  {
    if pools == [] then None else if pools[0].id == id then Some(pools[0]) else FindPool(pools[1..], id)
  }

  /** -1 when the pool cannot be used on this node. */
  function PoolFreeMbOnNode(node: Node, pools: seq<Pool>, storageId: Id): int
  {
    var pool := FindPool(pools, storageId);
    if pool.None? || !pool.value.enabled || node.id !in pool.value.nodes then -1
    else if pool.value.diskMb <= 0 then MAX_SAFE_INTEGER
    else Max(0, pool.value.diskMb - DiskUsed(node.servers, Some(storageId)))
  }

  // ----- ranking -----

  datatype StorageCandidate = StorageCandidate(storageId: Option<Id>, freeDiskMb: int)

  datatype Ranked = Ranked(nodeId: Id, storageId: Option<Id>, mem: int, cpu: int, storageFree: int)

  predicate Fits(free: int, wantDiskMb: Option<int>) { wantDiskMb.None? || free >= wantDiskMb.value }

  /** The comparator `(a, b) => b.freeDiskMb - a.freeDiskMb`. */
  predicate MoreDisk(a: StorageCandidate, b: StorageCandidate) { a.freeDiskMb >= b.freeDiskMb }

  /** `compareRank(a, b) <= 0` */
  predicate RanksBefore(a: Ranked, b: Ranked)
  {
    if a.mem != b.mem then a.mem > b.mem
    else if a.cpu != b.cpu then a.cpu > b.cpu
    else a.storageFree >= b.storageFree
  }

  /** The storage a pair of node and place would use, or nothing if it cannot be used. */
  function FreeAt(node: Node, pools: seq<Pool>, place: Option<Id>): Option<int>
  {
    if place.None? then Some(DataDirFreeMb(node))
    else
      var free := PoolFreeMbOnNode(node, pools, place.value);
      if free < 0 then None else Some(free)
  }

  /** What the caller asked for: any storage, the data directory, or one pool. */
  datatype StorageChoice = AnyStorage | DataDirectory | OnePool(id: Id)

  predicate Allows(choice: StorageChoice, place: Option<Id>)
  {
    match choice
    case AnyStorage => true
    case DataDirectory => place.None?
    case OnePool(id) => place == Some(id)
  }

  /** A node and a place on it that can take the request. */
  predicate Feasible(node: Node, pools: seq<Pool>, place: Option<Id>, request: Request, choice: StorageChoice)
  {
    && AvailableMemoryMb(node) >= request.memoryMb
    && (request.cpuLimit.Some? && request.cpuLimit.value > 0 ==> AvailableCpu(node) >= request.cpuLimit.value)
    && Allows(choice, place)
    && FreeAt(node, pools, place).Some?
    && Fits(FreeAt(node, pools, place).value, request.diskMb)
  }

  function RankOf(node: Node, pools: seq<Pool>, place: Option<Id>): Ranked
  {
    var free := FreeAt(node, pools, place);
    Ranked(node.id, place, AvailableMemoryMb(node), AvailableCpu(node), if free.Some? then free.value else -1)
  }

  /** `bestStorageOnNode`: the roomiest of the data directory and the pools usable on the node. */
  method BestStorageOnNode(node: Node, pools: seq<Pool>, wantDiskMb: Option<int>)
      returns (best: Option<StorageCandidate>)
    ensures best.Some? ==>
      && FreeAt(node, pools, best.value.storageId) == Some(best.value.freeDiskMb)
      && Fits(best.value.freeDiskMb, wantDiskMb)
    ensures forall place :: FreeAt(node, pools, place).Some? && Fits(FreeAt(node, pools, place).value, wantDiskMb) ==>
      best.Some? && best.value.freeDiskMb >= FreeAt(node, pools, place).value
  {
    var candidates: seq<StorageCandidate> := [];
    var dataDirFree := DataDirFreeMb(node);
    if Fits(dataDirFree, wantDiskMb) {
      candidates := candidates + [StorageCandidate(None, dataDirFree)];
    }
    for i := 0 to |pools|
      invariant forall c | c in candidates ::
                  FreeAt(node, pools, c.storageId) == Some(c.freeDiskMb) && Fits(c.freeDiskMb, wantDiskMb)
      invariant Fits(dataDirFree, wantDiskMb) ==> StorageCandidate(None, dataDirFree) in candidates
      invariant forall j | 0 <= j < i :: Listed(node, pools, pools[j].id, wantDiskMb, candidates)
    {
      var free := PoolFreeMbOnNode(node, pools, pools[i].id);
      if free >= 0 && Fits(free, wantDiskMb) {
        candidates := candidates + [StorageCandidate(Some(pools[i].id), free)];
      }
    }
    forall place | FreeAt(node, pools, place).Some? && Fits(FreeAt(node, pools, place).value, wantDiskMb)
      ensures StorageCandidate(place, FreeAt(node, pools, place).value) in candidates
    {
      if place.Some? {
        var j :| 0 <= j < |pools| && pools[j] == FindPool(pools, place.value).value;
        assert Listed(node, pools, pools[j].id, wantDiskMb, candidates);
      }
    }
    if candidates == [] {
      return None;
    }
    var sorted := Sort(candidates, MoreDisk);
    FirstIsBest(candidates, MoreDisk);
    best := Some(sorted[0]);
  }

  ghost predicate Listed(node: Node, pools: seq<Pool>, id: Id, wantDiskMb: Option<int>,
      candidates: seq<StorageCandidate>)
  {
    var free := PoolFreeMbOnNode(node, pools, id);
    free >= 0 && Fits(free, wantDiskMb) ==> StorageCandidate(Some(id), free) in candidates
  }

  lemma {:induction false} FirstIsBest<T(!new)>(s: seq<T>, le: (T, T) -> bool)
    requires TotalPreorder(le) && s != []
    ensures |Sort(s, le)| == |s| && Sort(s, le)[0] in s
    ensures forall x | x in s :: le(Sort(s, le)[0], x)
  {
    var r := Sort(s, le);
    SortPermutes(s, le);
    SortSorts(s, le);
    assert |multiset(r)| == |multiset(s)|;
    assert r[0] in multiset(r);
    forall x | x in s
      ensures le(r[0], x)
    {
      assert x in multiset(r);
      var i :| 0 <= i < |r| && r[i] == x;
      assert le(r[0], r[0]);
    }
  }

  /** `rankNode` */
  method RankNode(node: Node, pools: seq<Pool>, request: Request, choice: StorageChoice) returns (row: Option<Ranked>)
    ensures row.Some? ==>
      && row.value.nodeId == node.id
      && Feasible(node, pools, row.value.storageId, request, choice)
      && row.value == RankOf(node, pools, row.value.storageId)
    ensures forall place :: Feasible(node, pools, place, request, choice) ==>
      row.Some? && RanksBefore(row.value, RankOf(node, pools, place))
  {
    var mem := AvailableMemoryMb(node);
    if mem < request.memoryMb {
      return None;
    }
    var wantCpu := if request.cpuLimit.Some? then request.cpuLimit.value else 0;
    var cpu := AvailableCpu(node);
    if wantCpu > 0 && cpu < wantCpu {
      return None;
    }
    match choice {
      case DataDirectory =>
        var storageFree := DataDirFreeMb(node);
        if request.diskMb.Some? && storageFree < request.diskMb.value {
          return None;
        }
        return Some(Ranked(node.id, None, mem, cpu, storageFree));
      case OnePool(id) =>
        var storageFree := PoolFreeMbOnNode(node, pools, id);
        if storageFree < 0 {
          return None;
        }
        if request.diskMb.Some? && storageFree < request.diskMb.value {
          return None;
        }
        return Some(Ranked(node.id, Some(id), mem, cpu, storageFree));
      case AnyStorage =>
        var best := BestStorageOnNode(node, pools, request.diskMb);
        if best.None? {
          return None;
        }
        return Some(Ranked(node.id, best.value.storageId, mem, cpu, best.value.freeDiskMb));
    }
  }

  // ----- choosing the node -----

  datatype Db = Db(nodes: seq<Node>, pools: seq<Pool>)

  datatype Placement = Placed(nodeId: Id, storageId: Option<Id>) | StorageNotLinked | NoDeployableNode | NoRoom

  function Select(nodes: seq<Node>, keep: Node -> bool): (r: seq<Node>)
    ensures forall n :: n in r <==> n in nodes && keep(n)
  {
    if nodes == [] then [] else (if keep(nodes[0]) then [nodes[0]] else []) + Select(nodes[1..], keep)
  }

  predicate Linked(db: Db, choice: StorageChoice, nodeId: Id)
  {
    choice.OnePool? ==> exists p | p in db.pools :: p.id == choice.id && nodeId in p.nodes
  }

  /** The requested pool has no node at all, or does not exist. */
  predicate Unlinked(db: Db, choice: StorageChoice)
  {
    choice.OnePool? && forall p | p in db.pools && p.id == choice.id :: p.nodes == {}
  }

  predicate Deployable(node: Node) { node.deployable && !node.maintenanceMode }

  /** `loadPlacementNodes`: online nodes if there are any, otherwise all deployable ones. */
  function CandidateNodes(db: Db, choice: StorageChoice): seq<Node>
  {
    var deployable := Select(db.nodes, (n: Node) => Deployable(n) && Linked(db, choice, n.id));
    var online := Select(deployable, (n: Node) => n.online);
    if online != [] then online else deployable
  }

  /** The chosen pair is feasible on a candidate node and no feasible pair anywhere ranks above it. */
  ghost predicate IsBestPair(db: Db, request: Request, choice: StorageChoice, node: Node, place: Option<Id>)
  {
    && node in CandidateNodes(db, choice)
    && Feasible(node, db.pools, place, request, choice)
    && forall n, p | n in CandidateNodes(db, choice) && Feasible(n, db.pools, p, request, choice) ::
         RanksBefore(RankOf(node, db.pools, place), RankOf(n, db.pools, p))
  }

  /**
   The pair is feasible, its place is what was asked for, and no feasible pair has more free RAM, as
   much RAM and more CPU, or as much of both and more disk.
   */
  ghost predicate HasMost(db: Db, request: Request, choice: StorageChoice, node: Node, place: Option<Id>)
  {
    && Feasible(node, db.pools, place, request, choice)
    && (choice == DataDirectory ==> place == None) && (choice.OnePool? ==> place == Some(choice.id))
    && forall n, p | n in CandidateNodes(db, choice) && Feasible(n, db.pools, p, request, choice) ::
         && AvailableMemoryMb(node) >= AvailableMemoryMb(n)
         && (AvailableMemoryMb(node) == AvailableMemoryMb(n) ==>
               && AvailableCpu(node) >= AvailableCpu(n)
               && (AvailableCpu(node) == AvailableCpu(n) ==>
                     FreeAt(node, db.pools, place).value >= FreeAt(n, db.pools, p).value))
  }

  lemma {:induction false} BestHasMost(db: Db, request: Request, choice: StorageChoice, node: Node, place: Option<Id>)
    requires IsBestPair(db, request, choice, node, place)
    ensures HasMost(db, request, choice, node, place)
  {
    hide AvailableMemoryMb, AvailableCpu, FreeAt, CandidateNodes;
    forall n, p | n in CandidateNodes(db, choice) && Feasible(n, db.pools, p, request, choice)
      ensures && AvailableMemoryMb(node) >= AvailableMemoryMb(n)
              && (AvailableMemoryMb(node) == AvailableMemoryMb(n) ==>
                    && AvailableCpu(node) >= AvailableCpu(n)
                    && (AvailableCpu(node) == AvailableCpu(n) ==>
                          FreeAt(node, db.pools, place).value >= FreeAt(n, db.pools, p).value))
    {
      assert RanksBefore(RankOf(node, db.pools, place), RankOf(n, db.pools, p));
    }
  }

  /** Only online nodes are candidates if any suitable one is online; otherwise all suitable ones are. */
  lemma {:induction false} OnlineNodesFirst(db: Db, choice: StorageChoice, node: Node)
    ensures node in CandidateNodes(db, choice) <==>
            && node in db.nodes && node.deployable && !node.maintenanceMode
            && (choice.OnePool? ==> exists p | p in db.pools :: p.id == choice.id && node.id in p.nodes)
            && (node.online || forall n | n in db.nodes && n.deployable && !n.maintenanceMode && n.online ::
                                 choice.OnePool? && forall p | p in db.pools && p.id == choice.id :: n.id !in p.nodes)
  {
    var deployable := Select(db.nodes, (n: Node) => Deployable(n) && Linked(db, choice, n.id));
    var online := Select(deployable, (n: Node) => n.online);
    if online != [] {
      assert online[0] in online;
    }
  }

  ghost predicate SomeFeasible(db: Db, request: Request, choice: StorageChoice)
  {
    exists n, p :: n in CandidateNodes(db, choice) && Feasible(n, db.pools, p, request, choice)
  }

  /**
   `resolveCreatePlacement` without a requested node: best storage per node, then best node, and
   together the best pair overall. It fails exactly when no pair is feasible.
   */
  method ResolveCreatePlacement(db: Db, request: Request, choice: StorageChoice) returns (result: Placement)
    ensures result.Placed? <==> SomeFeasible(db, request, choice)
    ensures result.StorageNotLinked? <==>
            choice.OnePool? && forall p | p in db.pools && p.id == choice.id :: p.nodes == {}
    ensures result.NoDeployableNode? <==> !result.StorageNotLinked? && CandidateNodes(db, choice) == []
    ensures result.Placed? ==>
      exists node: Node ::
        && node.id == result.nodeId && IsBestPair(db, request, choice, node, result.storageId)
        && HasMost(db, request, choice, node, result.storageId)
  {
    hide Feasible, RankOf, RanksBefore, TotalPreorder, CandidateNodes;
    if Unlinked(db, choice) {
      NotLinkedIsNotFeasible(db, request, choice);
      return StorageNotLinked;
    }
    var nodes := CandidateNodes(db, choice);
    if nodes == [] {
      return NoDeployableNode;
    }
    var ranked: seq<Ranked> := [];
    ghost var from: seq<Node> := [];
    for i := 0 to |nodes|
      invariant |from| == |ranked|
                && forall k | 0 <= k < |ranked| :: RankedFrom(db, request, choice, ranked[k], from[k], nodes)
      invariant forall j, p | 0 <= j < i && Feasible(nodes[j], db.pools, p, request, choice) ::
                  Beaten(ranked, RankOf(nodes[j], db.pools, p))
    {
      var row := RankNode(nodes[i], db.pools, request, choice);
      ghost var before := ranked;
      if row.Some? {
        ranked := ranked + [row.value];
        from := from + [nodes[i]];
      }
      forall j, p | 0 <= j < i + 1 && Feasible(nodes[j], db.pools, p, request, choice)
        ensures Beaten(ranked, RankOf(nodes[j], db.pools, p))
      {
        if j < i {
          var k :| 0 <= k < |before| && RanksBefore(before[k], RankOf(nodes[j], db.pools, p));
          assert ranked[k] == before[k];
        } else {
          assert ranked[|ranked| - 1] == row.value;
        }
      }
    }
    if ranked == [] {
      forall n, p | n in nodes
        ensures !Feasible(n, db.pools, p, request, choice)
      {
        var j :| 0 <= j < |nodes| && nodes[j] == n;
        assert Feasible(nodes[j], db.pools, p, request, choice) ==> Beaten(ranked, RankOf(nodes[j], db.pools, p));
      }
      return NoRoom;
    }
    RanksAreOrdered();
    FirstIsBest(ranked, RanksBefore);
    var best := Sort(ranked, RanksBefore)[0];
    ghost var k :| 0 <= k < |ranked| && ranked[k] == best;
    result := Placed(best.nodeId, best.storageId);
    forall n, p | n in nodes && Feasible(n, db.pools, p, request, choice)
      ensures RanksBefore(best, RankOf(n, db.pools, p))
    {
      var j :| 0 <= j < |nodes| && nodes[j] == n;
      assert Beaten(ranked, RankOf(nodes[j], db.pools, p));
    }
    assert RankedFrom(db, request, choice, ranked[k], from[k], nodes);
    assert IsBestPair(db, request, choice, from[k], result.storageId);
    BestHasMost(db, request, choice, from[k], result.storageId);
  }

  ghost predicate RankedFrom(db: Db, request: Request, choice: StorageChoice, row: Ranked, node: Node, nodes: seq<Node>)
  {
    && node in nodes && row.nodeId == node.id
    && Feasible(node, db.pools, row.storageId, request, choice)
    && row == RankOf(node, db.pools, row.storageId)
  }

  ghost predicate Beaten(ranked: seq<Ranked>, row: Ranked)
  {
    exists k :: 0 <= k < |ranked| && RanksBefore(ranked[k], row)
  }

  lemma {:induction false} RanksAreOrdered()
    ensures TotalPreorder(RanksBefore)
  {
  }

  lemma {:induction false} NotLinkedIsNotFeasible(db: Db, request: Request, choice: StorageChoice)
    requires Unlinked(db, choice)
    ensures !SomeFeasible(db, request, choice)
  {
  }

  // ----- the capacity check -----

  datatype Verdict = Ok | Refused

  function FindNode(nodes: seq<Node>, id: Id): (r: Option<Node>)
    ensures r.Some? ==> r.value in nodes && r.value.id == id
    ensures r.None? ==> forall n | n in nodes :: n.id != id
  {
    if nodes == [] then None else if nodes[0].id == id then Some(nodes[0]) else FindNode(nodes[1..], id)
  }

  function Without(servers: seq<Server>, exclude: Option<Id>): seq<Server>
  {
    if servers == [] then []
    else
      var s := servers[|servers| - 1];
      Without(servers[..|servers| - 1], exclude) + (if Some(s.id) == exclude then [] else [s])
  }

  /** `assertNodeCapacity`; the reason of a refusal is not kept. */
  function AssertNodeCapacity(db: Db, nodeId: Id, request: Request, storageId: Option<Id>, exclude: Option<Id>,
      placement: bool): Verdict
  {
    var found := FindNode(db.nodes, nodeId);
    if found.None? then Refused
    else if placement && !Deployable(found.value) then Refused
    else
      var node, others := found.value, Without(found.value.servers, exclude);
      if node.memoryMb > 0
         && request.memoryMb > AllocationBudget(node.memoryMb, node.memoryOverallocate) - MemoryUsed(others)
      then Refused
      else if request.diskMb.Some? && DiskRefused(db, node, others, request.diskMb.value, storageId) then Refused
      else if request.cpuLimit.Some? && node.cpuLimit > 0
              && request.cpuLimit.value > AllocationBudget(node.cpuLimit, node.cpuOverallocate) - CpuUsed(others)
      then Refused
      else Ok
  }

  predicate DiskRefused(db: Db, node: Node, others: seq<Server>, wantDisk: int, storageId: Option<Id>)
  {
    if storageId.Some? then
      var pool := FindPool(db.pools, storageId.value);
      || pool.None? || node.id !in pool.value.nodes || !pool.value.enabled
      || (pool.value.diskMb > 0 && wantDisk > pool.value.diskMb - DiskUsed(others, storageId))
    else
      node.diskMb > 0 && wantDisk > AllocationBudget(node.diskMb, node.diskOverallocate) - DiskUsed(others, None)
  }

  lemma {:induction false} WithoutNobody(servers: seq<Server>)
    ensures Without(servers, None) == servers
  {
    if servers != [] {
      var n := |servers| - 1;
      WithoutNobody(servers[..n]);
      assert Without(servers, None) == Without(servers[..n], None) + [servers[n]];
      hide Without;
      assert servers == servers[..n] + [servers[n]];
    }
  }

  ghost predicate DistinctNodes(nodes: seq<Node>)
  {
    forall i, j | 0 <= i < j < |nodes| :: nodes[i].id != nodes[j].id
  }

  lemma {:induction false} FindsIt(nodes: seq<Node>, node: Node)
    requires DistinctNodes(nodes) && node in nodes
    ensures FindNode(nodes, node.id) == Some(node)
  {
    var found := FindNode(nodes, node.id);
    var i :| 0 <= i < |nodes| && nodes[i] == node;
    var j :| 0 <= j < |nodes| && nodes[j] == found.value;
  }

  /** More is allocated than the budget allows, as after lowering a limit. */
  predicate Overcommitted(limit: int, overallocate: int, used: int)
  {
    limit > 0 && used > AllocationBudget(limit, overallocate)
  }

  predicate PlaceOvercommitted(db: Db, node: Node, place: Option<Id>)
  {
    if place.None? then Overcommitted(node.diskMb, node.diskOverallocate, DiskUsed(node.servers, None))
    else
      var pool := FindPool(db.pools, place.value);
      pool.Some? && pool.value.diskMb > 0 && DiskUsed(node.servers, place) > pool.value.diskMb
  }

  predicate NonNegative(request: Request)
  {
    && request.memoryMb >= 0
    && (request.diskMb.Some? ==> request.diskMb.value >= 0)
    && (request.cpuLimit.Some? ==> request.cpuLimit.value >= 0)
  }

  /**
   The two checks differ only in how they clamp: a feasible pair passes the capacity check unless
   a resource the check looks at is already over-committed, which only a zero-size request can get
   past the placement.
   */
  lemma {:induction false} FeasiblePassesCapacity(db: Db, node: Node, place: Option<Id>, request: Request,
      choice: StorageChoice)
    requires DistinctNodes(db.nodes) && node in db.nodes && Deployable(node) && NonNegative(request)
    requires Feasible(node, db.pools, place, request, choice)
    ensures AssertNodeCapacity(db, node.id, request, place, None, true) == Ok <==>
            && !Overcommitted(node.memoryMb, node.memoryOverallocate, MemoryUsed(node.servers))
            && (request.diskMb.Some? ==> !PlaceOvercommitted(db, node, place))
            && (request.cpuLimit.Some? ==> !Overcommitted(node.cpuLimit, node.cpuOverallocate, CpuUsed(node.servers)))
    ensures request.memoryMb > 0 && (request.diskMb.Some? ==> request.diskMb.value > 0)
            && (request.cpuLimit.Some? ==> request.cpuLimit.value > 0)
            ==> AssertNodeCapacity(db, node.id, request, place, None, true) == Ok
  {
    hide AllocationBudget, MemoryUsed, CpuUsed, DiskUsed;
    FindsIt(db.nodes, node);
    WithoutNobody(node.servers);
  }

  /** Any automatically chosen pair passes the check made just before the server is created. */
  lemma {:induction false} ChosenPairPassesCapacity(db: Db, request: Request, choice: StorageChoice, node: Node,
      place: Option<Id>)
    requires DistinctNodes(db.nodes) && IsBestPair(db, request, choice, node, place)
    requires request.memoryMb > 0 && (request.diskMb.Some? ==> request.diskMb.value > 0)
    requires request.cpuLimit.Some? ==> request.cpuLimit.value > 0
    ensures AssertNodeCapacity(db, node.id, request, place, None, true) == Ok
  {
    FeasiblePassesCapacity(db, node, place, request, choice);
  }

  /**
   And what passes the capacity check is a node of the table, deployable, and feasible for automatic
   placement, whether the place is left open or asked for. Unlimited resources count as 2^53 - 1.
   */
  lemma {:induction false} CapacityIsFeasible(db: Db, nodeId: Id, place: Option<Id>, request: Request,
      choice: StorageChoice)
    requires NonNegative(request) && request.memoryMb <= 9_007_199_254_740_991
    requires request.diskMb.Some? && request.diskMb.value <= 9_007_199_254_740_991
    requires request.cpuLimit.Some? ==> request.cpuLimit.value <= 9_007_199_254_740_991
    requires choice == AnyStorage || (choice == DataDirectory && place == None)
             || (choice.OnePool? && place == Some(choice.id))
    requires AssertNodeCapacity(db, nodeId, request, place, None, true) == Ok
    ensures exists node :: node in db.nodes && node.id == nodeId && node.deployable && !node.maintenanceMode
              && Feasible(node, db.pools, place, request, choice)
  {
    var node := FindNode(db.nodes, nodeId).value;
    assert Allows(choice, place);
    hide AllocationBudget, MemoryUsed, CpuUsed, DiskUsed, Allows, FindPool, Feasible;
    RoomIsFeasible(db, node, place, request, choice);
  }

  lemma {:induction false} RoomIsFeasible(db: Db, node: Node, place: Option<Id>, request: Request,
      choice: StorageChoice)
    requires FindNode(db.nodes, node.id) == Some(node) && NonNegative(request) && Allows(choice, place)
    requires request.memoryMb <= 9_007_199_254_740_991
    requires request.diskMb.Some? && request.diskMb.value <= 9_007_199_254_740_991
    requires request.cpuLimit.Some? ==> request.cpuLimit.value <= 9_007_199_254_740_991
    requires AssertNodeCapacity(db, node.id, request, place, None, true) == Ok
    ensures Feasible(node, db.pools, place, request, choice)
  {
    WithoutNobody(node.servers);
    hide AllocationBudget, MemoryUsed, CpuUsed, DiskUsed, Allows, FindPool, FindNode, Without;
  }

  // ----- budgets over whole histories -----

  /** What is stored when a creation names no disk size; an unnamed CPU size is stored as zero. */
  const DEFAULT_DISK_MB := 10_240

  datatype Resource = Memory | Cpu | Disk

  /** No more of the resource is given out than the node's budget allows, nor more of any pool's disk. */
  ghost predicate NodeWithin(r: Resource, node: Node, pools: seq<Pool>)
  {
    match r
    case Memory => !Overcommitted(node.memoryMb, node.memoryOverallocate, MemoryUsed(node.servers))
    case Cpu => !Overcommitted(node.cpuLimit, node.cpuOverallocate, CpuUsed(node.servers))
    case Disk =>
      && !Overcommitted(node.diskMb, node.diskOverallocate, DiskUsed(node.servers, None))
      && forall p | p in pools && p.diskMb > 0 :: DiskUsed(node.servers, Some(p.id)) <= p.diskMb
  }

  ghost predicate WithinBudget(r: Resource, db: Db)
  {
    forall i | 0 <= i < |db.nodes| :: NodeWithin(r, db.nodes[i], db.pools)
  }

  predicate Sized(s: Server) { s.memoryMb >= 0 && s.diskMb >= 0 && s.cpuLimit >= 0 }

  ghost predicate SoundServers(servers: seq<Server>)
  {
    && (forall i | 0 <= i < |servers| :: Sized(servers[i]))
    && forall i, j | 0 <= i < j < |servers| :: servers[i].id != servers[j].id
  }

  ghost predicate DistinctPools(pools: seq<Pool>) { forall i, j | 0 <= i < j < |pools| :: pools[i].id != pools[j].id }

  ghost predicate SoundRows(db: Db)
  {
    DistinctNodes(db.nodes) && DistinctPools(db.pools)
      && forall i | 0 <= i < |db.nodes| :: SoundServers(db.nodes[i].servers)
  }

  /**
   A creation may leave out its disk and CPU sizes when it asks the check; a change of memory names
   memory only. A transfer asks for room in the data directory of the destination and keeps the pool.
   */
  datatype Change =
    | Create(nodeId: Id, server: Server, namesDisk: bool, namesCpu: bool)
    | ChangeMemory(nodeId: Id, serverId: Id, memoryMb: int)
    | Remove(nodeId: Id, serverId: Id)
    | Transfer(nodeId: Id, serverId: Id, toNodeId: Id)

  function RequestOf(s: Server, namesDisk: bool, namesCpu: bool): Request
  {
    Request(s.memoryMb, if namesDisk then Some(s.diskMb) else None, if namesCpu then Some(s.cpuLimit) else None)
  }

  /** Ids are unique in the table of servers. */
  predicate FreshOn(node: Node, s: Server) { forall other | other in node.servers :: other.id != s.id }

  predicate CreateAllowed(db: Db, node: Node, s: Server, namesDisk: bool, namesCpu: bool)
  {
    && Sized(s) && FreshOn(node, s) && (namesCpu || s.cpuLimit == 0)
    && AssertNodeCapacity(db, node.id, RequestOf(s, namesDisk, namesCpu), s.storageId, None, true) == Ok
  }

  predicate TransferAllowed(db: Db, to: Node, s: Server)
  {
    FreshOn(to, s) && AssertNodeCapacity(db, to.id, RequestOf(s, true, true), None, Some(s.id), true) == Ok
  }

  function WithMemory(servers: seq<Server>, id: Id, memoryMb: int): (r: seq<Server>)
    ensures |r| == |servers|
  {
    if servers == [] then []
    else
      var s := servers[|servers| - 1];
      WithMemory(servers[..|servers| - 1], id, memoryMb) + [if s.id == id then s.(memoryMb := memoryMb) else s]
  }

  function UpdateNode(nodes: seq<Node>, id: Id, servers: seq<Server>): (r: seq<Node>)
    ensures |r| == |nodes|
    ensures forall i | 0 <= i < |nodes| :: r[i] == if nodes[i].id == id then nodes[i].(servers := servers) else nodes[i]
  {
    seq(|nodes|, i requires 0 <= i < |nodes| => if nodes[i].id == id then nodes[i].(servers := servers) else nodes[i])
  }

  function FindServer(servers: seq<Server>, id: Id): (r: Option<Server>)
    ensures r.Some? ==> r.value in servers && r.value.id == id
  {
    if servers == [] then None else if servers[0].id == id then Some(servers[0]) else FindServer(servers[1..], id)
  }

  /** The servers of the node after a change that may be refused. */
  function ServersAfter(db: Db, node: Node, change: Change): seq<Server>
    requires !change.Transfer?
  {
    match change
    case Create(_, s, namesDisk, namesCpu) =>
      if CreateAllowed(db, node, s, namesDisk, namesCpu) then node.servers + [s] else node.servers
    case ChangeMemory(_, serverId, memoryMb) =>
      if memoryMb >= 0
         && AssertNodeCapacity(db, node.id, Request(memoryMb, None, None), None, Some(serverId), false) == Ok
      then WithMemory(node.servers, serverId, memoryMb) else node.servers
    case Remove(_, serverId) => Without(node.servers, Some(serverId))
  }

  /** Moves the server's row; refused when it is there already or the destination has no room. */
  function Moved(db: Db, from: Node, to: Node, serverId: Id): Db
  {
    var s := FindServer(from.servers, serverId);
    if s.None? || from.id == to.id || !TransferAllowed(db, to, s.value) then db
    else
      var left := UpdateNode(db.nodes, from.id, Without(from.servers, Some(serverId)));
      db.(nodes := UpdateNode(left, to.id, to.servers + [s.value]))
  }

  function Apply(db: Db, change: Change): Db
  {
    var found := FindNode(db.nodes, change.nodeId);
    if found.None? then db
    else if change.Transfer? then
      var to := FindNode(db.nodes, change.toNodeId);
      if to.None? then db else Moved(db, found.value, to.value, change.serverId)
    else db.(nodes := UpdateNode(db.nodes, change.nodeId, ServersAfter(db, found.value, change)))
  }

  function ApplyAll(db: Db, changes: seq<Change>): Db
  {
    if changes == [] then db else Apply(ApplyAll(db, changes[..|changes| - 1]), changes[|changes| - 1])
  }

  lemma {:induction false} UsedAfterAppend(servers: seq<Server>, s: Server, place: Option<Id>)
    ensures MemoryUsed(servers + [s]) == MemoryUsed(servers) + s.memoryMb
    ensures CpuUsed(servers + [s]) == CpuUsed(servers) + s.cpuLimit
    ensures DiskUsed(servers + [s], place) == DiskUsed(servers, place) + (if s.storageId == place then s.diskMb else 0)
  {
    assert (servers + [s])[..|servers|] == servers;
  }

  lemma {:induction false} LastIsNew(servers: seq<Server>)
    requires SoundServers(servers) && servers != []
    ensures var front, s := servers[..|servers| - 1], servers[|servers| - 1];
            servers == front + [s] && SoundServers(front) && Sized(s)
              && forall other | other in front :: other.id != s.id
  {
    var front, s := servers[..|servers| - 1], servers[|servers| - 1];
    forall other | other in front
      ensures other.id != s.id
    {
      var i :| 0 <= i < |front| && front[i] == other;
      assert servers[i].id != servers[|front|].id;
    }
  }

  lemma {:induction false} WithoutAppend(front: seq<Server>, s: Server, exclude: Option<Id>)
    ensures Without(front + [s], exclude) == Without(front, exclude) + (if Some(s.id) == exclude then [] else [s])
    ensures Without([], exclude) == []
  {
    assert (front + [s])[..|front|] == front;
  }

  lemma {:induction false} WithMemoryAppend(front: seq<Server>, s: Server, id: Id, memoryMb: int)
    ensures WithMemory(front + [s], id, memoryMb)
            == WithMemory(front, id, memoryMb) + [if s.id == id then s.(memoryMb := memoryMb) else s]
    ensures WithMemory([], id, memoryMb) == []
  {
    assert (front + [s])[..|front|] == front;
  }

  /** Leaving a server out frees what it uses. */
  lemma {:induction false} UsedWithout(servers: seq<Server>, exclude: Option<Id>, place: Option<Id>)
    requires SoundServers(servers)
    ensures MemoryUsed(Without(servers, exclude)) <= MemoryUsed(servers)
    ensures CpuUsed(Without(servers, exclude)) <= CpuUsed(servers)
    ensures DiskUsed(Without(servers, exclude), place) <= DiskUsed(servers, place)
  {
    hide SoundServers, Without, MemoryUsed, CpuUsed, DiskUsed;
    if servers == [] {
      WithoutAppend([], Server("", 0, 0, 0, None), exclude);
    } else {
      var front, s := servers[..|servers| - 1], servers[|servers| - 1];
      LastIsNew(servers);
      UsedWithout(front, exclude, place);
      WithoutAppend(front, s, exclude);
      UsedAfterAppend(front, s, place);
      if Some(s.id) == exclude {
        assert Without(front, exclude) + [] == Without(front, exclude);
      } else {
        UsedAfterAppend(Without(front, exclude), s, place);
      }
    }
  }

  lemma {:induction false} WithoutSound(servers: seq<Server>, exclude: Option<Id>)
    requires SoundServers(servers)
    ensures SoundServers(Without(servers, exclude)) && forall s | s in Without(servers, exclude) :: s in servers
  {
    if servers != [] {
      var front, s := servers[..|servers| - 1], servers[|servers| - 1];
      LastIsNew(servers);
      WithoutSound(front, exclude);
      WithoutAppend(front, s, exclude);
      hide Without;
      assert Without(front, exclude) + [] == Without(front, exclude);
    }
  }

  lemma {:induction false} AbsentUnchanged(servers: seq<Server>, id: Id, memoryMb: int)
    requires forall s | s in servers :: s.id != id
    ensures WithMemory(servers, id, memoryMb) == servers && Without(servers, Some(id)) == servers
  {
    if servers != [] {
      var front, s := servers[..|servers| - 1], servers[|servers| - 1];
      assert servers == front + [s];
      AbsentUnchanged(front, id, memoryMb);
    }
  }

  /** Changing one server's memory: at most the others' memory plus the new size, and nothing else moves. */
  lemma {:induction false} UsedWithMemory(servers: seq<Server>, id: Id, memoryMb: int, place: Option<Id>)
    requires SoundServers(servers) && memoryMb >= 0
    ensures MemoryUsed(WithMemory(servers, id, memoryMb)) <= MemoryUsed(Without(servers, Some(id))) + memoryMb
    ensures CpuUsed(WithMemory(servers, id, memoryMb)) == CpuUsed(servers)
    ensures DiskUsed(WithMemory(servers, id, memoryMb), place) == DiskUsed(servers, place)
  {
    hide SoundServers, WithMemory, Without, MemoryUsed, CpuUsed, DiskUsed;
    if servers == [] {
      var none := Server("", 0, 0, 0, None);
      WithoutAppend([], none, Some(id));
      WithMemoryAppend([], none, id, memoryMb);
    } else {
      var front, s := servers[..|servers| - 1], servers[|servers| - 1];
      LastIsNew(servers);
      UsedWithMemory(front, id, memoryMb, place);
      WithMemoryAppend(front, s, id, memoryMb);
      WithoutAppend(front, s, Some(id));
      UsedAfterAppend(WithMemory(front, id, memoryMb), if s.id == id then s.(memoryMb := memoryMb) else s, place);
      UsedAfterAppend(front, s, place);
      if s.id == id {
        AbsentUnchanged(front, id, memoryMb);
        assert Without(front, Some(id)) + [] == Without(front, Some(id));
      } else {
        UsedAfterAppend(Without(front, Some(id)), s, place);
      }
    }
  }

  lemma {:induction false} WithMemorySound(servers: seq<Server>, id: Id, memoryMb: int)
    requires SoundServers(servers) && memoryMb >= 0
    ensures SoundServers(WithMemory(servers, id, memoryMb))
  {
    WithMemoryAt(servers, id, memoryMb);
  }

  lemma {:induction false} WithMemoryAt(servers: seq<Server>, id: Id, memoryMb: int)
    ensures forall i | 0 <= i < |servers| ::
              WithMemory(servers, id, memoryMb)[i]
              == if servers[i].id == id then servers[i].(memoryMb := memoryMb) else servers[i]
  {
    if servers != [] {
      WithMemoryAt(servers[..|servers| - 1], id, memoryMb);
    }
  }

  /** The server's size fits what is left where it would go. */
  predicate RoomFor(r: Resource, pools: seq<Pool>, node: Node, s: Server)
  {
    match r
    case Memory => !Overcommitted(node.memoryMb, node.memoryOverallocate, MemoryUsed(node.servers) + s.memoryMb)
    case Cpu => !Overcommitted(node.cpuLimit, node.cpuOverallocate, CpuUsed(node.servers) + s.cpuLimit)
    case Disk =>
      if s.storageId.None? then
        !Overcommitted(node.diskMb, node.diskOverallocate, DiskUsed(node.servers, None) + s.diskMb)
      else
        var pool := FindPool(pools, s.storageId.value);
        pool.None? || pool.value.diskMb <= 0 || DiskUsed(node.servers, s.storageId) + s.diskMb <= pool.value.diskMb
  }

  lemma {:induction false} FindsPool(pools: seq<Pool>, p: Pool)
    requires DistinctPools(pools) && p in pools
    ensures FindPool(pools, p.id) == Some(p)
  {
    var found := FindPool(pools, p.id).value;
    var i :| 0 <= i < |pools| && pools[i] == found;
    var j :| 0 <= j < |pools| && pools[j] == p;
  }

  /** One more server keeps a node within its budgets exactly when there is room for it. */
  lemma {:induction false} AddedKeepsExactlyWhen(r: Resource, pools: seq<Pool>, node: Node, s: Server)
    requires DistinctPools(pools) && NodeWithin(r, node, pools)
    ensures NodeWithin(r, node.(servers := node.servers + [s]), pools) <==> RoomFor(r, pools, node, s)
  {
    hide AllocationBudget, MemoryUsed, CpuUsed, DiskUsed, FindPool;
    UsedAfterAppend(node.servers, s, None);
    forall p | p in pools
      ensures FindPool(pools, p.id) == Some(p)
      ensures DiskUsed(node.servers + [s], Some(p.id))
              == DiskUsed(node.servers, Some(p.id)) + (if s.storageId == Some(p.id) then s.diskMb else 0)
    {
      FindsPool(pools, p);
      UsedAfterAppend(node.servers, s, Some(p.id));
    }
  }

  /**
   A creation that passes the check keeps the node within its RAM and CPU budgets, and within those
   for disk if it names its disk. One that does not keeps them exactly when its size happens to fit.
   */
  lemma {:induction false} CreateKeepsNode(db: Db, node: Node, s: Server, namesDisk: bool, namesCpu: bool, r: Resource)
    requires SoundRows(db) && node in db.nodes && NodeWithin(r, node, db.pools)
    requires CreateAllowed(db, node, s, namesDisk, namesCpu)
    ensures NodeWithin(r, node.(servers := node.servers + [s]), db.pools) <==>
            (r.Disk? && !namesDisk ==> RoomFor(Disk, db.pools, node, s))
  {
    hide AllocationBudget, MemoryUsed, CpuUsed, DiskUsed, SoundServers, FreshOn;
    FindsIt(db.nodes, node);
    WithoutNobody(node.servers);
    AddedKeepsExactlyWhen(r, db.pools, node, s);
  }

  /**
   The check is not stricter than that: a creation that names its sizes is allowed exactly on a
   deployable node that it leaves within all budgets, in a pool that is enabled and linked if in any.
   */
  lemma {:induction false} CreateAllowedExactlyWhen(db: Db, node: Node, s: Server)
    requires SoundRows(db) && node in db.nodes && Sized(s) && FreshOn(node, s)
    requires forall r: Resource :: NodeWithin(r, node, db.pools)
    ensures CreateAllowed(db, node, s, true, true) <==>
            && node.deployable && !node.maintenanceMode
            && (forall r: Resource :: NodeWithin(r, node.(servers := node.servers + [s]), db.pools))
            && (s.storageId.Some? ==>
                  exists p :: p in db.pools && p.id == s.storageId.value && p.enabled && node.id in p.nodes)
  {
    hide NodeWithin, RoomFor, SoundServers;
    var after := node.(servers := node.servers + [s]);
    forall r: Resource
      ensures NodeWithin(r, after, db.pools) <==> RoomFor(r, db.pools, node, s)
      ensures RoomFor(Memory, db.pools, node, s) && RoomFor(Cpu, db.pools, node, s) && RoomFor(Disk, db.pools, node, s)
              ==> RoomFor(r, db.pools, node, s)
    {
      AddedKeepsExactlyWhen(r, db.pools, node, s);
      match r case Memory => case Cpu => case Disk =>
    }
    UsablePool(db.pools, node, s.storageId);
    hide DistinctPools;
    RoomIsAllowed(db, node, s);
  }

  /** The place is the data directory, or a pool that is enabled and linked to the node. */
  predicate Usable(pools: seq<Pool>, node: Node, place: Option<Id>)
  {
    place.Some? ==>
      var pool := FindPool(pools, place.value);
      pool.Some? && pool.value.enabled && node.id in pool.value.nodes
  }

  lemma {:induction false} UsablePool(pools: seq<Pool>, node: Node, place: Option<Id>)
    requires DistinctPools(pools)
    ensures Usable(pools, node, place) <==>
            (place.Some? ==> exists p :: p in pools && p.id == place.value && p.enabled && node.id in p.nodes)
  {
    forall p | p in pools
      ensures FindPool(pools, p.id) == Some(p)
    {
      FindsPool(pools, p);
    }
    hide FindPool;
  }

  lemma {:induction false} RoomIsAllowed(db: Db, node: Node, s: Server)
    requires DistinctNodes(db.nodes) && node in db.nodes && Sized(s) && FreshOn(node, s)
    ensures CreateAllowed(db, node, s, true, true) <==>
            && Deployable(node) && Usable(db.pools, node, s.storageId)
            && RoomFor(Memory, db.pools, node, s) && RoomFor(Cpu, db.pools, node, s) && RoomFor(Disk, db.pools, node, s)
  {
    FindsIt(db.nodes, node);
    WithoutNobody(node.servers);
    hide AllocationBudget, MemoryUsed, CpuUsed, DiskUsed, FindPool, FindNode, Without;
  }

  /**
   A transfer that passes the check keeps the destination within its RAM and CPU budgets. The check
   looks at the data directory, so a server in a pool keeps the disk budgets exactly when the
   destination's own use of the pool has room.
   */
  lemma {:induction false} TransferKeepsNode(db: Db, to: Node, s: Server, r: Resource)
    requires SoundRows(db) && to in db.nodes && NodeWithin(r, to, db.pools) && TransferAllowed(db, to, s)
    ensures NodeWithin(r, to.(servers := to.servers + [s]), db.pools) <==>
            (r.Disk? && s.storageId.Some? ==> RoomFor(Disk, db.pools, to, s))
  {
    FindsIt(db.nodes, to);
    AbsentUnchanged(to.servers, s.id, 0);
    hide AllocationBudget, MemoryUsed, CpuUsed, DiskUsed, SoundServers, FreshOn, Without;
    AddedKeepsExactlyWhen(r, db.pools, to, s);
  }

  lemma {:induction false} ChangeMemoryKeepsNode(db: Db, node: Node, serverId: Id, memoryMb: int, r: Resource)
    requires SoundRows(db) && node in db.nodes && NodeWithin(r, node, db.pools) && memoryMb >= 0
    requires AssertNodeCapacity(db, node.id, Request(memoryMb, None, None), None, Some(serverId), false) == Ok
    ensures NodeWithin(r, node.(servers := WithMemory(node.servers, serverId, memoryMb)), db.pools)
  {
    hide AllocationBudget, MemoryUsed, CpuUsed, DiskUsed, SoundServers, Without, WithMemory;
    FindsIt(db.nodes, node);
    var i :| 0 <= i < |db.nodes| && db.nodes[i] == node;
    UsedWithMemory(node.servers, serverId, memoryMb, None);
    forall p | p in db.pools
      ensures DiskUsed(WithMemory(node.servers, serverId, memoryMb), Some(p.id)) == DiskUsed(node.servers, Some(p.id))
    {
      UsedWithMemory(node.servers, serverId, memoryMb, Some(p.id));
    }
  }

  /** A change of memory is allowed exactly when it leaves the node within its RAM, deployable or not. */
  lemma {:induction false} MemoryChangeAllowedExactlyWhen(db: Db, node: Node, s: Server, memoryMb: int)
    requires SoundRows(db) && node in db.nodes && s in node.servers && memoryMb >= 0
    ensures AssertNodeCapacity(db, node.id, Request(memoryMb, None, None), None, Some(s.id), false) == Ok <==>
            NodeWithin(Memory, node.(servers := WithMemory(node.servers, s.id, memoryMb)), db.pools)
  {
    hide AllocationBudget, MemoryUsed, CpuUsed, DiskUsed, Without, WithMemory;
    FindsIt(db.nodes, node);
    var i :| 0 <= i < |db.nodes| && db.nodes[i] == node;
    hide SoundServers;
    ChangedMemory(node.servers, s, memoryMb);
  }

  lemma {:induction false} ChangedMemory(servers: seq<Server>, s: Server, memoryMb: int)
    requires SoundServers(servers) && s in servers
    ensures MemoryUsed(WithMemory(servers, s.id, memoryMb)) == MemoryUsed(Without(servers, Some(s.id))) + memoryMb
  {
    var front, last := servers[..|servers| - 1], servers[|servers| - 1];
    LastIsNew(servers);
    hide SoundServers, WithMemory, Without, MemoryUsed, CpuUsed, DiskUsed;
    WithMemoryAppend(front, last, s.id, memoryMb);
    WithoutAppend(front, last, Some(s.id));
    UsedAfterAppend(
      WithMemory(front, s.id, memoryMb), if last.id == s.id then last.(memoryMb := memoryMb) else last, None);
    if last.id == s.id {
      AbsentUnchanged(front, s.id, memoryMb);
      assert Without(front, Some(s.id)) + [] == Without(front, Some(s.id));
    } else {
      ChangedMemory(front, s, memoryMb);
      UsedAfterAppend(Without(front, Some(s.id)), last, None);
    }
  }

  lemma {:induction false} RemoveKeepsNode(node: Node, pools: seq<Pool>, serverId: Id, r: Resource)
    requires NodeWithin(r, node, pools) && SoundServers(node.servers)
    ensures NodeWithin(r, node.(servers := Without(node.servers, Some(serverId))), pools)
  {
    hide AllocationBudget, MemoryUsed, CpuUsed, DiskUsed, SoundServers, Without;
    UsedWithout(node.servers, Some(serverId), None);
    forall p | p in pools && p.diskMb > 0
      ensures DiskUsed(Without(node.servers, Some(serverId)), Some(p.id)) <= DiskUsed(node.servers, Some(p.id))
    {
      UsedWithout(node.servers, Some(serverId), Some(p.id));
    }
  }

  lemma {:induction false} ServersStaySound(db: Db, node: Node, change: Change)
    requires SoundServers(node.servers) && !change.Transfer?
    ensures SoundServers(ServersAfter(db, node, change))
  {
    hide AssertNodeCapacity, Without, WithMemory;
    match change
    case Create(_, s, _, _) =>
    case ChangeMemory(_, serverId, memoryMb) =>
      if memoryMb >= 0 {
        WithMemorySound(node.servers, serverId, memoryMb);
      }
    case Remove(_, serverId) => WithoutSound(node.servers, Some(serverId));
  }

  lemma {:induction false} OneNodeChanged(r: Resource, db: Db, node: Node, servers: seq<Server>)
    requires SoundRows(db) && node in db.nodes && SoundServers(servers)
    ensures var after := db.(nodes := UpdateNode(db.nodes, node.id, servers));
            && SoundRows(after)
            && (WithinBudget(r, db) && NodeWithin(r, node.(servers := servers), db.pools) ==> WithinBudget(r, after))
  {
    hide NodeWithin, SoundServers;
    var k :| 0 <= k < |db.nodes| && db.nodes[k] == node;
    assert forall i | 0 <= i < |db.nodes| && db.nodes[i].id == node.id :: i == k;
  }

  /** The check looks at every size the change adds: all but an unnamed disk and a transferred pool's. */
  predicate Checked(r: Resource, db: Db, change: Change)
  {
    r.Disk? ==>
      match change
      case Create(_, _, namesDisk, _) => namesDisk
      case ChangeMemory(_, _, _) => true
      case Remove(_, _) => true
      case Transfer(nodeId, serverId, _) =>
        var from := FindNode(db.nodes, nodeId);
        from.Some? ==>
          var s := FindServer(from.value.servers, serverId);
          s.Some? ==> s.value.storageId.None?
  }

  lemma {:induction false} ChangeKeepsNode(r: Resource, db: Db, node: Node, change: Change)
    requires SoundRows(db) && node in db.nodes && change.nodeId == node.id && !change.Transfer?
    requires SoundServers(node.servers) && NodeWithin(r, node, db.pools) && Checked(r, db, change)
    ensures NodeWithin(r, node.(servers := ServersAfter(db, node, change)), db.pools)
  {
    hide NodeWithin, SoundRows, SoundServers, AssertNodeCapacity, CreateAllowed, Without, WithMemory, RoomFor;
    assert node.(servers := node.servers) == node;
    match change
    case Create(_, s, namesDisk, namesCpu) =>
      if CreateAllowed(db, node, s, namesDisk, namesCpu) {
        CreateKeepsNode(db, node, s, namesDisk, namesCpu, r);
      }
    case ChangeMemory(_, serverId, memoryMb) =>
      if memoryMb >= 0
         && AssertNodeCapacity(db, node.id, Request(memoryMb, None, None), None, Some(serverId), false) == Ok {
        ChangeMemoryKeepsNode(db, node, serverId, memoryMb, r);
      }
    case Remove(_, serverId) => RemoveKeepsNode(node, db.pools, serverId, r);
  }

  /** Every change, refused or not, keeps all budgets for the resources the check looks at. */
  lemma {:induction false} ChangeKeepsBudgets(r: Resource, db: Db, change: Change)
    requires SoundRows(db)
    ensures SoundRows(Apply(db, change))
    ensures WithinBudget(r, db) && Checked(r, db, change) ==> WithinBudget(r, Apply(db, change))
  {
    hide NodeWithin, SoundServers, ServersAfter, Moved;
    var found := FindNode(db.nodes, change.nodeId);
    if found.Some? {
      var node := found.value;
      var k :| 0 <= k < |db.nodes| && db.nodes[k] == node;
      if change.Transfer? {
        var to := FindNode(db.nodes, change.toNodeId);
        if to.Some? {
          MoveKeepsBudgets(r, db, node, to.value, change.serverId);
        }
      } else {
        ServersStaySound(db, node, change);
        OneNodeChanged(r, db, node, ServersAfter(db, node, change));
        if WithinBudget(r, db) && Checked(r, db, change) {
          hide Checked;
          ChangeKeepsNode(r, db, node, change);
        }
      }
    }
  }

  lemma {:induction false} UpdateAt(nodes: seq<Node>, k: nat, servers: seq<Server>)
    requires DistinctNodes(nodes) && k < |nodes|
    ensures UpdateNode(nodes, nodes[k].id, servers) == nodes[k := nodes[k].(servers := servers)]
  {
  }

  lemma {:induction false} UpdatedRows(db: Db, k: nat, servers: seq<Server>)
    requires SoundRows(db) && k < |db.nodes| && SoundServers(servers)
    ensures SoundRows(db.(nodes := db.nodes[k := db.nodes[k].(servers := servers)]))
  {
    hide SoundServers;
  }

  lemma {:induction false} UpdatedWithin(r: Resource, db: Db, k: nat, servers: seq<Server>)
    requires WithinBudget(r, db) && k < |db.nodes| && NodeWithin(r, db.nodes[k].(servers := servers), db.pools)
    ensures WithinBudget(r, db.(nodes := db.nodes[k := db.nodes[k].(servers := servers)]))
  {
    hide NodeWithin;
  }

  lemma {:induction false} SoundAt(db: Db, k: nat)
    requires SoundRows(db) && k < |db.nodes|
    ensures SoundServers(db.nodes[k].servers)
  {
  }

  lemma {:induction false} AppendSound(node: Node, s: Server)
    requires SoundServers(node.servers) && Sized(s) && FreshOn(node, s)
    ensures SoundServers(node.servers + [s])
  {
  }

  /** What a transfer that is not refused does. */
  lemma {:induction false} MovedRows(db: Db, j: nat, k: nat, s: Server)
    requires SoundRows(db) && j < |db.nodes| && k < |db.nodes| && j != k
    requires FindServer(db.nodes[j].servers, s.id) == Some(s) && TransferAllowed(db, db.nodes[k], s)
    ensures var from, to := db.nodes[j], db.nodes[k];
            && SoundServers(from.servers) && SoundServers(to.servers) && s in from.servers && from.id != to.id
            && Moved(db, from, to, s.id)
               == db.(nodes := db.nodes[j := from.(servers := Without(from.servers, Some(s.id)))]
                                       [k := to.(servers := to.servers + [s])])
            && SoundRows(Moved(db, from, to, s.id))
  {
    var from, to := db.nodes[j], db.nodes[k];
    var left, more := Without(from.servers, Some(s.id)), to.servers + [s];
    SoundAt(db, j);
    SoundAt(db, k);
    WithoutSound(from.servers, Some(s.id));
    assert Sized(s) && FreshOn(to, s);
    AppendSound(to, s);
    UpdateAt(db.nodes, j, left);
    assert from.id != to.id;
    hide SoundServers, Without, AssertNodeCapacity, FreshOn, SoundRows, FindServer;
    var db1 := db.(nodes := db.nodes[j := from.(servers := left)]);
    UpdatedRows(db, j, left);
    assert DistinctNodes(db1.nodes) by { IdsStay(db, db1); }
    UpdateAt(db1.nodes, k, more);
    UpdatedRows(db1, k, more);
  }

  lemma {:induction false} IdsStay(db: Db, db1: Db)
    requires SoundRows(db1)
    ensures DistinctNodes(db1.nodes)
  {
  }

  lemma {:induction false} MoveKeepsBudgets(r: Resource, db: Db, from: Node, to: Node, serverId: Id)
    requires SoundRows(db) && from in db.nodes && to in db.nodes
    ensures SoundRows(Moved(db, from, to, serverId))
    ensures WithinBudget(r, db)
            && (var s := FindServer(from.servers, serverId); r.Disk? && s.Some? ==> s.value.storageId.None?)
            ==> WithinBudget(r, Moved(db, from, to, serverId))
  {
    hide NodeWithin, SoundServers, Without, TransferAllowed, FindServer, SoundRows;
    var found := FindServer(from.servers, serverId);
    if found.Some? && from.id != to.id && TransferAllowed(db, to, found.value) {
      var s := found.value;
      var j :| 0 <= j < |db.nodes| && db.nodes[j] == from;
      var k :| 0 <= k < |db.nodes| && db.nodes[k] == to;
      MovedRows(db, j, k, s);
      hide Moved;
      if WithinBudget(r, db) && (r.Disk? ==> s.storageId.None?) {
        assert NodeWithin(r, db.nodes[j], db.pools) && NodeWithin(r, db.nodes[k], db.pools);
        RemoveKeepsNode(from, db.pools, serverId, r);
        TransferKeepsNode(db, to, s, r);
        hide WithinBudget;
        var left := Without(from.servers, Some(s.id));
        UpdatedWithin(r, db, j, left);
        UpdatedWithin(r, db.(nodes := db.nodes[j := from.(servers := left)]), k, to.servers + [s]);
      }
    }
  }

  ghost predicate AllChecked(r: Resource, db: Db, changes: seq<Change>)
  {
    forall n | 0 <= n < |changes| :: Checked(r, ApplyAll(db, changes[..n]), changes[n])
  }

  /**
   No history of checked creations, changes of memory, deletions and transfers takes a node over its
   RAM or CPU budget, nor a node or its own use of a pool over their disk budgets as long as every
   creation names its disk and no server in a pool is transferred.
   */
  lemma {:induction false} BudgetsHoldForever(r: Resource, db: Db, changes: seq<Change>)
    requires SoundRows(db) && WithinBudget(r, db) && (r.Disk? ==> AllChecked(r, db, changes))
    ensures SoundRows(ApplyAll(db, changes)) && WithinBudget(r, ApplyAll(db, changes))
  {
    if changes != [] {
      var m := |changes| - 1;
      var front := changes[..m];
      assert forall n | 0 <= n <= m :: front[..n] == changes[..n];
      assert forall n | 0 <= n < m :: front[n] == changes[n];
      BudgetsHoldForever(r, db, front);
      assert Checked(r, ApplyAll(db, front), changes[m]);
      hide SoundRows, WithinBudget, Apply, Checked;
      ChangeKeepsBudgets(r, ApplyAll(db, front), changes[m]);
    }
  }

  lemma {:induction false} CreatedAt(db: Db, k: nat, s: Server, namesDisk: bool, namesCpu: bool)
    requires SoundRows(db) && k < |db.nodes| && CreateAllowed(db, db.nodes[k], s, namesDisk, namesCpu)
    ensures var after := Apply(db, Create(db.nodes[k].id, s, namesDisk, namesCpu));
            && SoundRows(after) && after.pools == db.pools && |after.nodes| == |db.nodes|
            && after.nodes[k] == db.nodes[k].(servers := db.nodes[k].servers + [s])
            && forall i | 0 <= i < |db.nodes| && i != k :: after.nodes[i] == db.nodes[i]
  {
    hide CreateAllowed, SoundServers;
    FindsIt(db.nodes, db.nodes[k]);
    UpdateAt(db.nodes, k, db.nodes[k].servers + [s]);
    ChangeKeepsBudgets(Memory, db, Create(db.nodes[k].id, s, namesDisk, namesCpu));
  }

  /**
   A creation that names no disk size stores the default unchecked: whenever less than that is left
   in the data directory, it takes the node over its disk budget.
   */
  lemma {:induction false} UnnamedDiskGoesOver(db: Db, node: Node, s: Server, namesCpu: bool)
    requires SoundRows(db) && node in db.nodes && WithinBudget(Disk, db)
    requires CreateAllowed(db, node, s, false, namesCpu) && s.storageId.None? && s.diskMb == DEFAULT_DISK_MB
    requires node.diskMb > 0
    requires AllocationBudget(node.diskMb, node.diskOverallocate) - DiskUsed(node.servers, None) < DEFAULT_DISK_MB
    ensures !WithinBudget(Disk, Apply(db, Create(node.id, s, false, namesCpu)))
  {
    hide AllocationBudget, DiskUsed, CreateAllowed, SoundRows, Apply, SoundServers, NodeWithin;
    var k :| 0 <= k < |db.nodes| && db.nodes[k] == node;
    assert NodeWithin(Disk, db.nodes[k], db.pools);
    CreateKeepsNode(db, node, s, false, namesCpu, Disk);
    CreatedAt(db, k, s, false, namesCpu);
  }

  /** Such a node and creation exist: a node with a small disk and room in RAM. */
  lemma {:induction false} UnnamedDiskGoesOverSomewhere(node: Node, s: Server)
    requires Deployable(node) && node.servers == [] && Sized(s) && s.cpuLimit == 0
    requires s.storageId.None? && s.diskMb == DEFAULT_DISK_MB
    requires node.memoryMb > 0 ==> s.memoryMb <= AllocationBudget(node.memoryMb, node.memoryOverallocate)
    requires 0 < node.diskMb && AllocationBudget(node.diskMb, node.diskOverallocate) < DEFAULT_DISK_MB
    ensures var db := Db([node], []);
            && SoundRows(db) && (forall r: Resource :: WithinBudget(r, db))
            && !WithinBudget(Disk, Apply(db, Create(node.id, s, false, false)))
  {
    var db := Db([node], []);
    BudgetBounds(node);
    FirstCreate(db, node, s);
    EmptyIsWithin(node);
    hide AllocationBudget, CreateAllowed, SoundRows, WithinBudget, Apply;
    assert DiskUsed(node.servers, None) == 0;
    UnnamedDiskGoesOver(db, node, s, false);
  }

  lemma {:induction false} EmptyIsWithin(node: Node)
    requires node.servers == []
    ensures SoundRows(Db([node], [])) && forall r: Resource :: WithinBudget(r, Db([node], []))
  {
    BudgetBounds(node);
    hide AllocationBudget;
    forall r: Resource
      ensures NodeWithin(r, node, [])
    {
    }
  }

  lemma {:induction false} FirstCreate(db: Db, node: Node, s: Server)
    requires SoundRows(db) && node in db.nodes && Deployable(node) && node.servers == [] && Sized(s) && s.cpuLimit == 0
    requires node.memoryMb > 0 ==> s.memoryMb <= AllocationBudget(node.memoryMb, node.memoryOverallocate)
    ensures CreateAllowed(db, node, s, false, false)
  {
    hide AllocationBudget, SoundServers;
    FindsIt(db.nodes, node);
    WithoutNobody(node.servers);
  }

  lemma {:induction false} BudgetBounds(node: Node)
    ensures AllocationBudget(node.memoryMb, node.memoryOverallocate) >= 0
    ensures AllocationBudget(node.cpuLimit, node.cpuOverallocate) >= 0
    ensures AllocationBudget(node.diskMb, node.diskOverallocate) >= 0
  {
    if node.memoryMb > 0 {
      BudgetIsExact(node.memoryMb, node.memoryOverallocate, 0);
    }
    if node.cpuLimit > 0 {
      BudgetIsExact(node.cpuLimit, node.cpuOverallocate, 0);
    }
    if node.diskMb > 0 {
      BudgetIsExact(node.diskMb, node.diskOverallocate, 0);
    }
  }

  // ----- the budget of a whole pool -----

  /** Disk given out of a pool on all nodes together; the checks count one node at a time. */
  function PoolUsed(nodes: seq<Node>, id: Id): int
  {
    if nodes == [] then 0 else PoolUsed(nodes[..|nodes| - 1], id) + DiskUsed(nodes[|nodes| - 1].servers, Some(id))
  }

  /** The pool can be used on the node. */
  predicate Serves(p: Pool, node: Node) { node.id in p.nodes && Deployable(node) }

  lemma {:induction false} DiskNonNegative(servers: seq<Server>, place: Option<Id>)
    requires forall i | 0 <= i < |servers| :: Sized(servers[i])
    ensures DiskUsed(servers, place) >= 0
  {
    if servers != [] {
      DiskNonNegative(servers[..|servers| - 1], place);
    }
  }

  /** Only nodes that serve the pool use it, each within the pool's budget. */
  ghost predicate UsedWhereServed(nodes: seq<Node>, p: Pool)
  {
    forall i | 0 <= i < |nodes| ::
      && 0 <= DiskUsed(nodes[i].servers, Some(p.id)) <= p.diskMb
      && (!Serves(p, nodes[i]) ==> DiskUsed(nodes[i].servers, Some(p.id)) == 0)
  }

  ghost predicate AtMostOneServes(nodes: seq<Node>, p: Pool)
  {
    forall i, j | 0 <= i < j < |nodes| :: !(Serves(p, nodes[i]) && Serves(p, nodes[j]))
  }

  lemma {:induction false} OnePlaceSums(nodes: seq<Node>, p: Pool)
    requires UsedWhereServed(nodes, p) && AtMostOneServes(nodes, p) && p.diskMb >= 0
    ensures 0 <= PoolUsed(nodes, p.id) <= p.diskMb
    ensures (forall i | 0 <= i < |nodes| :: !Serves(p, nodes[i])) ==> PoolUsed(nodes, p.id) == 0
  {
    if nodes != [] {
      var n := |nodes| - 1;
      var front := nodes[..n];
      assert forall i | 0 <= i < n :: front[i] == nodes[i];
      OnePlaceSums(front, p);
    }
  }

  /** Creations that name their disk, changes of memory and deletions. */
  predicate StaysPut(change: Change) { !change.Transfer? && (change.Create? ==> change.namesDisk) }

  /** Nodes keep their ids and settings, and pools are untouched. */
  ghost predicate SameSettings(a: Db, b: Db)
  {
    a.pools == b.pools && |a.nodes| == |b.nodes|
    && forall i | 0 <= i < |a.nodes| :: b.nodes[i] == a.nodes[i].(servers := b.nodes[i].servers)
  }

  lemma {:induction false} StepStaysPut(db: Db, p: Pool, change: Change)
    requires SoundRows(db) && p in db.pools && p.diskMb > 0 && UsedWhereServed(db.nodes, p) && StaysPut(change)
    ensures UsedWhereServed(Apply(db, change).nodes, p) && SameSettings(db, Apply(db, change))
  {
    hide ServersAfter, DiskUsed, SoundServers;
    var found := FindNode(db.nodes, change.nodeId);
    if found.Some? {
      var node := found.value;
      var k :| 0 <= k < |db.nodes| && db.nodes[k] == node;
      assert forall i | 0 <= i < |db.nodes| && db.nodes[i].id == node.id :: i == k;
      assert SoundServers(db.nodes[k].servers);
      NodeStaysPut(db, node, p, change);
    }
  }

  /** A creation in the pool that names its disk is allowed only where the pool is served and has room. */
  lemma {:induction false} PoolChecked(db: Db, node: Node, p: Pool, s: Server, namesCpu: bool)
    requires SoundRows(db) && node in db.nodes && p in db.pools && p.diskMb > 0
    requires CreateAllowed(db, node, s, true, namesCpu) && s.storageId == Some(p.id)
    ensures Serves(p, node) && 0 <= s.diskMb && DiskUsed(node.servers, Some(p.id)) + s.diskMb <= p.diskMb
  {
    hide DiskUsed, MemoryUsed, CpuUsed, AllocationBudget, SoundServers, FreshOn;
    FindsIt(db.nodes, node);
    FindsPool(db.pools, p);
    WithoutNobody(node.servers);
  }

  lemma {:induction false} NodeStaysPut(db: Db, node: Node, p: Pool, change: Change)
    requires SoundRows(db) && node in db.nodes && change.nodeId == node.id && p in db.pools && p.diskMb > 0
    requires SoundServers(node.servers) && StaysPut(change)
    requires 0 <= DiskUsed(node.servers, Some(p.id)) <= p.diskMb
    requires !Serves(p, node) ==> DiskUsed(node.servers, Some(p.id)) == 0
    ensures var used := DiskUsed(ServersAfter(db, node, change), Some(p.id));
            0 <= used <= p.diskMb && (!Serves(p, node) ==> used == 0)
  {
    hide DiskUsed, Without, WithMemory, AssertNodeCapacity, CreateAllowed, SoundRows, Serves;
    match change
    case Create(_, s, _, namesCpu) =>
      UsedAfterAppend(node.servers, s, Some(p.id));
      if CreateAllowed(db, node, s, true, namesCpu) && s.storageId == Some(p.id) {
        PoolChecked(db, node, p, s, namesCpu);
      }
    case ChangeMemory(_, serverId, memoryMb) =>
      if memoryMb >= 0 {
        UsedWithMemory(node.servers, serverId, memoryMb, Some(p.id));
      }
    case Remove(_, serverId) =>
      UsedWithout(node.servers, Some(serverId), Some(p.id));
      WithoutSound(node.servers, Some(serverId));
      DiskNonNegative(Without(node.servers, Some(serverId)), Some(p.id));
  }

  lemma {:induction false} RunStaysPut(db: Db, p: Pool, changes: seq<Change>)
    requires SoundRows(db) && p in db.pools && p.diskMb > 0 && UsedWhereServed(db.nodes, p)
    requires forall c | c in changes :: StaysPut(c)
    ensures var after := ApplyAll(db, changes);
            SoundRows(after) && UsedWhereServed(after.nodes, p) && SameSettings(db, after)
  {
    if changes != [] {
      var front, last := changes[..|changes| - 1], changes[|changes| - 1];
      assert last in changes && forall c | c in front :: c in changes;
      RunStaysPut(db, p, front);
      hide SoundRows, UsedWhereServed, Apply;
      ChangeKeepsBudgets(Memory, ApplyAll(db, front), last);
      StepStaysPut(ApplyAll(db, front), p, last);
    }
  }

  /** A panel without servers, where every deployable node could take one of `memoryMb`. */
  ghost predicate Empty(db: Db, memoryMb: nat)
  {
    && SoundRows(db) && (forall i | 0 <= i < |db.nodes| :: db.nodes[i].servers == [])
    && forall i | 0 <= i < |db.nodes| && Deployable(db.nodes[i]) && db.nodes[i].memoryMb > 0 ::
         memoryMb <= AllocationBudget(db.nodes[i].memoryMb, db.nodes[i].memoryOverallocate)
  }

  /** A server that takes all of the pool. */
  function Filling(p: Pool, id: Id, memoryMb: nat): Server { Server(id, memoryMb, p.diskMb, 0, Some(p.id)) }

  lemma {:induction false} FillingAllowed(db: Db, node: Node, p: Pool, id: Id, memoryMb: nat)
    requires SoundRows(db) && node in db.nodes && node.servers == [] && p in db.pools && p.enabled && p.diskMb > 0
    requires Serves(p, node)
    requires node.memoryMb > 0 ==> memoryMb <= AllocationBudget(node.memoryMb, node.memoryOverallocate)
    ensures CreateAllowed(db, node, Filling(p, id, memoryMb), true, true)
  {
    FindsIt(db.nodes, node);
    FindsPool(db.pools, p);
    BudgetBounds(node);
    hide AllocationBudget;
  }

  lemma {:induction false} PoolUsedBySome(nodes: seq<Node>, id: Id, k: nat)
    requires k < |nodes| && forall i | 0 <= i < |nodes| :: DiskUsed(nodes[i].servers, Some(id)) >= 0
    ensures PoolUsed(nodes, id) >= DiskUsed(nodes[k].servers, Some(id)) >= 0
  {
    var n := |nodes| - 1;
    var front := nodes[..n];
    assert forall i | 0 <= i < n :: front[i] == nodes[i];
    if k < n {
      PoolUsedBySome(front, id, k);
    } else if n > 0 {
      PoolUsedBySome(front, id, 0);
    }
  }

  lemma {:induction false} PoolUsedByTwo(nodes: seq<Node>, id: Id, j: nat, k: nat)
    requires j < k < |nodes| && forall i | 0 <= i < |nodes| :: DiskUsed(nodes[i].servers, Some(id)) >= 0
    ensures PoolUsed(nodes, id) >= DiskUsed(nodes[j].servers, Some(id)) + DiskUsed(nodes[k].servers, Some(id))
  {
    var n := |nodes| - 1;
    var front := nodes[..n];
    assert forall i | 0 <= i < n :: front[i] == nodes[i];
    if k < n {
      PoolUsedByTwo(front, id, j, k);
    } else {
      PoolUsedBySome(front, id, j);
    }
  }

  lemma {:induction false} ApplyAppend(db: Db, changes: seq<Change>, change: Change)
    ensures ApplyAll(db, changes + [change]) == Apply(ApplyAll(db, changes), change)
    ensures ApplyAll(db, []) == db
  {
    assert (changes + [change])[..|changes|] == changes;
  }

  lemma {:induction false} OthersUseNothing(nodes: seq<Node>, id: Id)
    requires forall i | 0 <= i < |nodes| :: SoundServers(nodes[i].servers)
    ensures forall i | 0 <= i < |nodes| :: DiskUsed(nodes[i].servers, Some(id)) >= 0
  {
    forall i | 0 <= i < |nodes|
      ensures DiskUsed(nodes[i].servers, Some(id)) >= 0
    {
      DiskNonNegative(nodes[i].servers, Some(id));
    }
  }

  /** Two nodes that serve the pool can each be given all of it. */
  lemma {:induction false} TwoNodesFillIt(db: Db, p: Pool, memoryMb: nat, j: nat, k: nat) returns (changes: seq<Change>)
    requires Empty(db, memoryMb) && p in db.pools && p.enabled && p.diskMb > 0
    requires j < k < |db.nodes| && Serves(p, db.nodes[j]) && Serves(p, db.nodes[k])
    ensures forall c | c in changes :: StaysPut(c)
    ensures PoolUsed(ApplyAll(db, changes).nodes, p.id) >= 2 * p.diskMb
  {
    hide AllocationBudget, CreateAllowed, SoundServers, Apply, ApplyAll, DiskUsed, PoolUsed;
    var a, b := Filling(p, "a", memoryMb), Filling(p, "b", memoryMb);
    FillingAllowed(db, db.nodes[j], p, "a", memoryMb);
    CreatedAt(db, j, a, true, true);
    var first, second := Create(db.nodes[j].id, a, true, true), Create(db.nodes[k].id, b, true, true);
    var db1 := Apply(db, first);
    FillingAllowed(db1, db1.nodes[k], p, "b", memoryMb);
    CreatedAt(db1, k, b, true, true);
    var db2 := Apply(db1, second);
    changes := [] + [first] + [second];
    ApplyAppend(db, [], first);
    ApplyAppend(db, [] + [first], second);
    assert db2.nodes[j].servers == [a] && db2.nodes[k].servers == [b];
    OneServerUses(a);
    OneServerUses(b);
    OthersUseNothing(db2.nodes, p.id);
    PoolUsedByTwo(db2.nodes, p.id, j, k);
  }

  lemma {:induction false} OneServerUses(s: Server)
    ensures DiskUsed([s], s.storageId) == s.diskMb
  {
    assert [s][..0] == [];
  }

  /**
   The disk size of a pool is a budget for the pool as a whole, but every check counts the servers of
   one node. It is kept by every history of checked creations, changes of memory and deletions if and
   only if at most one deployable node is linked to the pool.
   */
  lemma {:induction false} WholePoolHoldsExactlyWhen(db: Db, p: Pool, memoryMb: nat)
    requires Empty(db, memoryMb) && p in db.pools && p.enabled && p.diskMb > 0
    ensures (forall changes: seq<Change> | (forall c | c in changes :: StaysPut(c)) ::
               PoolUsed(ApplyAll(db, changes).nodes, p.id) <= p.diskMb)
            <==> AtMostOneServes(db.nodes, p)
  {
    if AtMostOneServes(db.nodes, p) {
      forall changes: seq<Change> | forall c | c in changes :: StaysPut(c)
        ensures PoolUsed(ApplyAll(db, changes).nodes, p.id) <= p.diskMb
      {
        assert UsedWhereServed(db.nodes, p);
        RunStaysPut(db, p, changes);
        hide UsedWhereServed, PoolUsed, ApplyAll;
        OnePlaceSums(ApplyAll(db, changes).nodes, p);
      }
    } else {
      var j, k :| 0 <= j < k < |db.nodes| && Serves(p, db.nodes[j]) && Serves(p, db.nodes[k]);
      hide ApplyAll, PoolUsed, Empty;
      var changes := TwoNodesFillIt(db, p, memoryMb, j, k);
      assert PoolUsed(ApplyAll(db, changes).nodes, p.id) > p.diskMb;
    }
  }

  // ----- with transfers -----

  predicate NamesItsDisk(change: Change) { change.Create? ==> change.namesDisk }

  /** No server could leave a node that serves the pool: no other node is deployable. */
  ghost predicate NowhereToGo(nodes: seq<Node>, p: Pool)
  {
    forall j, k | 0 <= j < |nodes| && 0 <= k < |nodes| && j != k :: !(Serves(p, nodes[j]) && Deployable(nodes[k]))
  }

  lemma {:induction false} ServerUsesAtMost(servers: seq<Server>, s: Server)
    requires SoundServers(servers) && s in servers
    ensures 0 <= s.diskMb <= DiskUsed(servers, s.storageId)
  {
    var front, last := servers[..|servers| - 1], servers[|servers| - 1];
    LastIsNew(servers);
    UsedAfterAppend(front, last, s.storageId);
    DiskNonNegative(front, s.storageId);
    hide DiskUsed, SoundServers;
    if s != last {
      ServerUsesAtMost(front, s);
    }
  }

  /** The only node that can lose a server to another one does not serve the pool, so it uses none of it. */
  lemma {:induction false} MoveUsesNothing(db: Db, p: Pool, j: nat, k: nat, s: Server)
    requires SoundRows(db) && UsedWhereServed(db.nodes, p) && NowhereToGo(db.nodes, p)
    requires j < |db.nodes| && k < |db.nodes| && j != k && s in db.nodes[j].servers
    requires TransferAllowed(db, db.nodes[k], s)
    ensures DiskUsed(Without(db.nodes[j].servers, Some(s.id)), Some(p.id)) == 0
            == DiskUsed(db.nodes[j].servers, Some(p.id))
    ensures DiskUsed(db.nodes[k].servers + [s], Some(p.id)) == DiskUsed(db.nodes[k].servers, Some(p.id))
  {
    var from, to := db.nodes[j], db.nodes[k];
    SoundAt(db, j);
    assert Deployable(to) by { FindsIt(db.nodes, to); }
    assert !Serves(p, from) && DiskUsed(from.servers, Some(p.id)) == 0;
    hide *;
    UsedWithout(from.servers, Some(s.id), Some(p.id));
    WithoutSound(from.servers, Some(s.id));
    SoundIsNonNegative(Without(from.servers, Some(s.id)), p.id);
    UsedAfterAppend(to.servers, s, Some(p.id));
    if s.storageId == Some(p.id) {
      ServerUsesAtMost(from.servers, s);
    }
  }

  lemma {:induction false} MoveStays(db: Db, p: Pool, j: nat, k: nat, s: Server)
    requires SoundRows(db) && UsedWhereServed(db.nodes, p) && NowhereToGo(db.nodes, p)
    requires j < |db.nodes| && k < |db.nodes| && j != k
    requires FindServer(db.nodes[j].servers, s.id) == Some(s) && TransferAllowed(db, db.nodes[k], s)
    ensures var after := Moved(db, db.nodes[j], db.nodes[k], s.id);
            UsedWhereServed(after.nodes, p) && SameSettings(db, after)
  {
    hide *;
    var left, more := Without(db.nodes[j].servers, Some(s.id)), db.nodes[k].servers + [s];
    MovedRows(db, j, k, s);
    MoveUsesNothing(db, p, j, k, s);
    SameUseStays(db.nodes, p, j, left);
    var nodes := db.nodes[j := db.nodes[j].(servers := left)];
    SameUseStays(nodes, p, k, more);
    OnlyServersChange(db, j, left, k, more);
  }

  lemma {:induction false} SameUseStays(nodes: seq<Node>, p: Pool, k: nat, servers: seq<Server>)
    requires UsedWhereServed(nodes, p) && k < |nodes|
    requires DiskUsed(servers, Some(p.id)) == DiskUsed(nodes[k].servers, Some(p.id))
    ensures UsedWhereServed(nodes[k := nodes[k].(servers := servers)], p)
  {
    hide DiskUsed;
  }

  lemma {:induction false} OnlyServersChange(db: Db, j: nat, left: seq<Server>, k: nat, more: seq<Server>)
    requires j < |db.nodes| && k < |db.nodes| && j != k
    ensures var from, to := db.nodes[j], db.nodes[k];
            SameSettings(db, db.(nodes := db.nodes[j := from.(servers := left)][k := to.(servers := more)]))
  {
  }

  lemma {:induction false} SettingsKeep(db: Db, after: Db, p: Pool)
    requires SameSettings(db, after) && NowhereToGo(db.nodes, p)
    ensures NowhereToGo(after.nodes, p) && AtMostOneServes(after.nodes, p)
  {
  }

  lemma {:induction false} SoundIsNonNegative(servers: seq<Server>, id: Id)
    requires SoundServers(servers)
    ensures DiskUsed(servers, Some(id)) >= 0
  {
    DiskNonNegative(servers, Some(id));
  }

  lemma {:induction false} StepStays(db: Db, p: Pool, change: Change)
    requires SoundRows(db) && p in db.pools && p.diskMb > 0 && UsedWhereServed(db.nodes, p)
    requires NowhereToGo(db.nodes, p) && NamesItsDisk(change)
    ensures UsedWhereServed(Apply(db, change).nodes, p) && SameSettings(db, Apply(db, change))
  {
    hide SoundRows, UsedWhereServed, NowhereToGo, Deployable, TransferAllowed;
    if change.Transfer? {
      var from, to := FindNode(db.nodes, change.nodeId), FindNode(db.nodes, change.toNodeId);
      if from.Some? && to.Some? {
        var s := FindServer(from.value.servers, change.serverId);
        if s.Some? && from.value.id != to.value.id && TransferAllowed(db, to.value, s.value) {
          var j :| 0 <= j < |db.nodes| && db.nodes[j] == from.value;
          var k :| 0 <= k < |db.nodes| && db.nodes[k] == to.value;
          hide FindServer, FindNode, Moved;
          MoveStays(db, p, j, k, s.value);
        }
      }
    } else {
      hide Apply;
      StepStaysPut(db, p, change);
    }
  }

  lemma {:induction false} RunStays(db: Db, p: Pool, changes: seq<Change>)
    requires SoundRows(db) && p in db.pools && p.diskMb > 0 && UsedWhereServed(db.nodes, p) && NowhereToGo(db.nodes, p)
    requires forall c | c in changes :: NamesItsDisk(c)
    ensures var after := ApplyAll(db, changes);
            SoundRows(after) && UsedWhereServed(after.nodes, p) && SameSettings(db, after)
  {
    if changes != [] {
      var front, last := changes[..|changes| - 1], changes[|changes| - 1];
      assert last in changes && forall c | c in front :: c in changes;
      RunStays(db, p, front);
      SettingsKeep(db, ApplyAll(db, front), p);
      hide SoundRows, UsedWhereServed, Apply, NowhereToGo;
      ChangeKeepsBudgets(Memory, ApplyAll(db, front), last);
      StepStays(ApplyAll(db, front), p, last);
    }
  }

  /** A server of one megabyte in the pool, created where the pool is served. */
  function Small(p: Pool, memoryMb: nat): Server { Server("s", memoryMb, 1, 0, Some(p.id)) }

  lemma {:induction false} SmallAllowed(db: Db, node: Node, p: Pool, memoryMb: nat)
    requires SoundRows(db) && node in db.nodes && node.servers == [] && p in db.pools && p.enabled && p.diskMb > 0
    requires Serves(p, node)
    requires node.memoryMb > 0 ==> memoryMb <= AllocationBudget(node.memoryMb, node.memoryOverallocate)
    ensures CreateAllowed(db, node, Small(p, memoryMb), true, true)
  {
    FindsIt(db.nodes, node);
    FindsPool(db.pools, p);
    BudgetBounds(node);
    hide AllocationBudget;
  }

  lemma {:induction false} SmallMoves(db: Db, to: Node, p: Pool, memoryMb: nat)
    requires SoundRows(db) && to in db.nodes && to.servers == [] && Deployable(to)
    requires to.memoryMb > 0 ==> memoryMb <= AllocationBudget(to.memoryMb, to.memoryOverallocate)
    ensures TransferAllowed(db, to, Small(p, memoryMb))
  {
    FindsIt(db.nodes, to);
    BudgetBounds(to);
    if to.diskMb > 0 {
      BudgetIsExact(to.diskMb, to.diskOverallocate, 1);
    }
    assert Without([], Some("s")) == [];
    hide AllocationBudget;
  }

  /** A server in the pool is moved to a node that need not be linked to it, and its place is given out again. */
  lemma {:induction false} TransferStretchesPool(db: Db, p: Pool, memoryMb: nat, j: nat, k: nat)
      returns (changes: seq<Change>)
    requires Empty(db, memoryMb) && p in db.pools && p.enabled && p.diskMb > 0
    requires j < |db.nodes| && k < |db.nodes| && j != k && Serves(p, db.nodes[j]) && Deployable(db.nodes[k])
    ensures forall c | c in changes :: NamesItsDisk(c)
    ensures PoolUsed(ApplyAll(db, changes).nodes, p.id) > p.diskMb
  {
    hide AllocationBudget, CreateAllowed, TransferAllowed, SoundServers, Apply, ApplyAll, DiskUsed, PoolUsed, Moved;
    var s, f := Small(p, memoryMb), Filling(p, "f", memoryMb);
    var here, there := db.nodes[j].id, db.nodes[k].id;
    SmallAllowed(db, db.nodes[j], p, memoryMb);
    CreatedAt(db, j, s, true, true);
    var first, move, last := Create(here, s, true, true), Transfer(here, "s", there), Create(here, f, true, true);
    var db1 := Apply(db, first);
    SmallMoves(db1, db1.nodes[k], p, memoryMb);
    MovedAway(db1, j, k, s);
    var db2 := Apply(db1, move);
    FillingAllowed(db2, db2.nodes[j], p, "f", memoryMb);
    CreatedAt(db2, j, f, true, true);
    var db3 := Apply(db2, last);
    changes := [] + [first] + [move] + [last];
    ApplyAppend(db, [], first);
    ApplyAppend(db, [] + [first], move);
    ApplyAppend(db, [] + [first] + [move], last);
    assert db3.nodes[j].servers == [f] && db3.nodes[k].servers == [s];
    OneServerUses(s);
    OneServerUses(f);
    OthersUseNothing(db3.nodes, p.id);
    if j < k {
      PoolUsedByTwo(db3.nodes, p.id, j, k);
    } else {
      PoolUsedByTwo(db3.nodes, p.id, k, j);
    }
  }

  lemma {:induction false} MovedAway(db: Db, j: nat, k: nat, s: Server)
    requires SoundRows(db) && j < |db.nodes| && k < |db.nodes| && j != k
    requires db.nodes[j].servers == [s] && db.nodes[k].servers == [] && TransferAllowed(db, db.nodes[k], s)
    ensures var after := Apply(db, Transfer(db.nodes[j].id, s.id, db.nodes[k].id));
            && SoundRows(after) && after.pools == db.pools && |after.nodes| == |db.nodes|
            && after.nodes[j] == db.nodes[j].(servers := [])
            && after.nodes[k] == db.nodes[k].(servers := [s])
  {
    hide TransferAllowed, SoundServers;
    assert FindServer(db.nodes[j].servers, s.id) == Some(s);
    MovedRows(db, j, k, s);
    var from, to := db.nodes[j], db.nodes[k];
    FindsIt(db.nodes, from);
    FindsIt(db.nodes, to);
    assert Without([s], Some(s.id)) == [] by {
      WithoutAppend([], s, Some(s.id));
      assert [] + [s] == [s];
    }
    assert [] + [s] == [s];
  }

  /**
   With transfers one linked node is not enough: the pool's budget is kept by every history if and
   only if no node is deployable besides a deployable one that is linked to the pool.
   */
  lemma {:induction false} WholePoolHoldsWithTransfersExactlyWhen(db: Db, p: Pool, memoryMb: nat)
    requires Empty(db, memoryMb) && p in db.pools && p.enabled && p.diskMb > 0
    ensures (forall changes: seq<Change> | (forall c | c in changes :: NamesItsDisk(c)) ::
               PoolUsed(ApplyAll(db, changes).nodes, p.id) <= p.diskMb)
            <==> NowhereToGo(db.nodes, p)
  {
    if NowhereToGo(db.nodes, p) {
      assert UsedWhereServed(db.nodes, p);
      forall changes: seq<Change> | forall c | c in changes :: NamesItsDisk(c)
        ensures PoolUsed(ApplyAll(db, changes).nodes, p.id) <= p.diskMb
      {
        RunStays(db, p, changes);
        SettingsKeep(db, ApplyAll(db, changes), p);
        hide UsedWhereServed, PoolUsed, ApplyAll, AtMostOneServes;
        OnePlaceSums(ApplyAll(db, changes).nodes, p);
      }
    } else {
      var j, k :| 0 <= j < |db.nodes| && 0 <= k < |db.nodes| && j != k
                  && Serves(p, db.nodes[j]) && Deployable(db.nodes[k]);
      hide ApplyAll, PoolUsed, Empty;
      var changes := TransferStretchesPool(db, p, memoryMb, j, k);
    }
  }
}
