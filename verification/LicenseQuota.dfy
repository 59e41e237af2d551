/** Load shedding in `license-quota.ts`: the per-server cap, then the largest-first pool cap. */
module LicenseQuota {
  import opened JsText
  import opened Sorting

  type Id = string

  datatype Status = RUNNING | STARTING | STOPPING | STOPPED | ERROR

  datatype Row = Row(id: Id, memoryMb: nat)

  type Statuses = map<Id, Status>

  predicate Active(s: Status) { s.RUNNING? || s.STARTING? || s.STOPPING? }

  ghost predicate DistinctIds(rows: seq<Row>)
  {
    forall i, j | 0 <= i < j < |rows| :: rows[i].id != rows[j].id
  }

  ghost predicate Covers(statuses: Statuses, rows: seq<Row>)
  {
    forall i | 0 <= i < |rows| :: rows[i].id in statuses
  }

  function Running(rows: seq<Row>, statuses: Statuses): (r: seq<Row>)
    requires Covers(statuses, rows)
    ensures forall x :: x in r <==> x in rows && Active(statuses[x.id])
  {
    if rows == [] then []
    else (if Active(statuses[rows[0].id]) then [rows[0]] else []) + Running(rows[1..], statuses)
  }

  function TotalMb(rows: seq<Row>): nat
  {
    if rows == [] then 0 else rows[0].memoryMb + TotalMb(rows[1..])
  }

  /** Memory freed by, and number of, the rows whose id is in `ids`. */
  function FreedMb(rows: seq<Row>, ids: set<Id>): nat
  {
    if rows == [] then 0
    else (if rows[0].id in ids then rows[0].memoryMb else 0) + FreedMb(rows[1..], ids)
  }

  function CountIn(rows: seq<Row>, ids: set<Id>): nat
  {
    if rows == [] then 0 else (if rows[0].id in ids then 1 else 0) + CountIn(rows[1..], ids)
  }

  // ----- the specification of the two phases -----

  /** Every listed server is told to stop; the daemon does so, or cannot be reached and the row says so. */
  function StopAll(statuses: Statuses, ids: set<Id>, unreachable: set<Id>): Statuses
  {
    map id | id in statuses ::
      if id !in ids then statuses[id] else if id in unreachable then ERROR else STOPPED
  }

  lemma {:induction false} StopAllTwice(statuses: Statuses, a: set<Id>, b: set<Id>, unreachable: set<Id>)
    ensures StopAll(StopAll(statuses, a, unreachable), b, unreachable) == StopAll(statuses, a + b, unreachable)
    ensures StopAll(statuses, {}, unreachable) == statuses
    ensures StopAll(statuses, a, unreachable).Keys == statuses.Keys
  {
  }

  function Ids(rows: seq<Row>): set<Id> { set i | 0 <= i < |rows| :: rows[i].id }

  predicate OverCap(row: Row, statuses: Statuses, maxPer: int)
    requires row.id in statuses
  {
    Active(statuses[row.id]) && row.memoryMb > maxPer
  }

  function CapTargets(rows: seq<Row>, statuses: Statuses, maxPer: int): set<Id>
    requires Covers(statuses, rows)
  {
    set i | 0 <= i < |rows| && OverCap(rows[i], statuses, maxPer) :: rows[i].id
  }

  /** The comparator `(a, b) => b.memoryMb - a.memoryMb`. */
  predicate LargerFirst(a: Row, b: Row) { a.memoryMb >= b.memoryMb }

  function LargestFirst(rows: seq<Row>): seq<Row> { Sort(rows, LargerFirst) }

  /** How many rows of `ordered` the pool phase tries to stop. */
  function Attempts(ordered: seq<Row>, used: int, maxTotal: int, unreachable: set<Id>): (n: nat)
    ensures n <= |ordered|
  {
    if ordered == [] || used <= maxTotal then 0
    else
      var freed := if ordered[0].id in unreachable then 0 else ordered[0].memoryMb;
      1 + Attempts(ordered[1..], used - freed, maxTotal, unreachable)
  }

  /** The servers the pool phase tries to stop. */
  function PoolTargets(running: seq<Row>, maxTotal: int, unreachable: set<Id>): set<Id>
  {
    var ordered := LargestFirst(running);
    Ids(ordered[..Attempts(ordered, TotalMb(running), maxTotal, unreachable)])
  }

  // ----- sums over permutations -----

  lemma {:induction false} InsertSums(x: Row, s: seq<Row>, le: (Row, Row) -> bool, ids: set<Id>)
    ensures TotalMb(Insert(x, s, le)) == TotalMb([x] + s)
    ensures FreedMb(Insert(x, s, le), ids) == FreedMb([x] + s, ids)
    ensures CountIn(Insert(x, s, le), ids) == CountIn([x] + s, ids)
  {
    assert ([x] + s)[1..] == s;
    if s != [] && !le(x, s[0]) {
      InsertSums(x, s[1..], le, ids);
      assert ([x] + s[1..])[1..] == s[1..];
    }
  }

  lemma {:induction false} SortSums(s: seq<Row>, le: (Row, Row) -> bool, ids: set<Id>)
    ensures TotalMb(Sort(s, le)) == TotalMb(s)
    ensures FreedMb(Sort(s, le), ids) == FreedMb(s, ids)
    ensures CountIn(Sort(s, le), ids) == CountIn(s, ids)
  {
    if s != [] {
      SortSums(s[1..], le, ids);
      InsertSums(s[0], Sort(s[1..], le), le, ids);
      assert s == [s[0]] + s[1..];
    }
  }

  lemma {:induction false} SortDistinct(s: seq<Row>, le: (Row, Row) -> bool)
    requires DistinctIds(s)
    ensures DistinctIds(Sort(s, le)) && Ids(Sort(s, le)) == Ids(s)
  {
    if s != [] {
      SortDistinct(s[1..], le);
      InsertDistinct(s[0], Sort(s[1..], le), le);
      assert s == [s[0]] + s[1..];
      IdsOfCons(s[0], s[1..]);
    }
  }

  lemma {:induction false} IdsOfCons(x: Row, s: seq<Row>)
    ensures Ids([x] + s) == {x.id} + Ids(s)
  {
    IdsOfConcat([x], s);
    assert [x][0].id == x.id && Ids([x]) == {x.id};
  }

  lemma {:induction false} IdsOfConcat(a: seq<Row>, b: seq<Row>)
    ensures Ids(a + b) == Ids(a) + Ids(b)
  {
    forall id | id in Ids(a) + Ids(b)
      ensures id in Ids(a + b)
    {
      if id in Ids(a) {
        var i :| 0 <= i < |a| && a[i].id == id;
        assert (a + b)[i].id == id;
      } else {
        var i :| 0 <= i < |b| && b[i].id == id;
        assert (a + b)[|a| + i].id == id;
      }
    }
  }

  lemma {:induction false} InsertDistinct(x: Row, s: seq<Row>, le: (Row, Row) -> bool)
    requires DistinctIds(s) && x.id !in Ids(s)
    ensures DistinctIds(Insert(x, s, le)) && Ids(Insert(x, s, le)) == {x.id} + Ids(s)
  {
    IdsOfCons(x, s);
    if s != [] && !le(x, s[0]) {
      assert s == [s[0]] + s[1..];
      IdsOfCons(s[0], s[1..]);
      InsertDistinct(x, s[1..], le);
      IdsOfCons(s[0], Insert(x, s[1..], le));
    }
  }

  lemma {:induction false} FreedAtMostTotal(rows: seq<Row>, ids: set<Id>)
    ensures FreedMb(rows, ids) <= TotalMb(rows)
    ensures Ids(rows) <= ids ==> FreedMb(rows, ids) == TotalMb(rows)
    ensures Ids(rows) !! ids ==> FreedMb(rows, ids) == 0 && CountIn(rows, ids) == 0
  {
    if rows != [] {
      IdsOfCons(rows[0], rows[1..]);
      assert rows == [rows[0]] + rows[1..];
      FreedAtMostTotal(rows[1..], ids);
    }
  }

  lemma {:induction false} FreedIgnores(rows: seq<Row>, ids: set<Id>, other: set<Id>)
    requires forall i | 0 <= i < |rows| :: rows[i].id in ids <==> rows[i].id in other
    ensures FreedMb(rows, ids) == FreedMb(rows, other) && CountIn(rows, ids) == CountIn(rows, other)
  {
    if rows != [] {
      FreedIgnores(rows[1..], ids, other);
    }
  }

  // ----- greedy, largest first -----

  /** The servers really stopped by the attempts on `ordered`. */
  function Stopped(ordered: seq<Row>, used: int, maxTotal: int, unreachable: set<Id>): set<Id>
  {
    Ids(ordered[..Attempts(ordered, used, maxTotal, unreachable)]) - unreachable
  }

  lemma {:induction false} StoppedStep(ordered: seq<Row>, used: int, maxTotal: int, unreachable: set<Id>)
    requires ordered != [] && DistinctIds(ordered) && used > maxTotal
    ensures var x := ordered[0];
            var freed := if x.id in unreachable then 0 else x.memoryMb;
            var rest := Stopped(ordered[1..], used - freed, maxTotal, unreachable);
            && Stopped(ordered, used, maxTotal, unreachable) == rest + ({x.id} - unreachable)
            && x.id !in rest
  {
    var x := ordered[0];
    var freed := if x.id in unreachable then 0 else x.memoryMb;
    var n := Attempts(ordered[1..], used - freed, maxTotal, unreachable);
    assert ordered[..n + 1] == [x] + ordered[1..][..n];
    IdsOfCons(x, ordered[1..][..n]);
  }

  /** Removing one stopped row from a set lowers its freed memory by that row alone. */
  lemma {:induction false} FreedWithout(rows: seq<Row>, ids: set<Id>, k: nat)
    requires DistinctIds(rows) && k < |rows| && rows[k].id in ids
    ensures FreedMb(rows, ids - {rows[k].id}) == FreedMb(rows, ids) - rows[k].memoryMb
    ensures CountIn(rows, ids - {rows[k].id}) == CountIn(rows, ids) - 1
  {
    if k == 0 {
      FreedIgnores(rows[1..], ids, ids - {rows[0].id});
    } else {
      assert rows[1..][k - 1] == rows[k];
      FreedWithout(rows[1..], ids, k - 1);
    }
  }

  lemma {:induction false} SomeFreed(rows: seq<Row>, ids: set<Id>) returns (k: nat)
    requires FreedMb(rows, ids) > 0
    ensures k < |rows| && rows[k].id in ids
  {
    if rows[0].id in ids {
      k := 0;
    } else {
      k := SomeFreed(rows[1..], ids);
      k := k + 1;
    }
  }

  ghost predicate Descending(ordered: seq<Row>)
  {
    forall i, j | 0 <= i < j < |ordered| :: ordered[i].memoryMb >= ordered[j].memoryMb
  }

  /**
   The exchange argument: any set of reachable servers that frees enough is at least as large as
   what the greedy order stops, and then the greedy order frees enough too.
   */
  lemma {:induction false} GreedyIsBest(ordered: seq<Row>, used: int, maxTotal: int, unreachable: set<Id>,
      others: set<Id>)
    requires DistinctIds(ordered) && Descending(ordered) && others !! unreachable
    requires used - FreedMb(ordered, others) <= maxTotal
    ensures var stopped := Stopped(ordered, used, maxTotal, unreachable);
            && |stopped| <= CountIn(ordered, others)
            && used - FreedMb(ordered, stopped) <= maxTotal
  {
    hide Stopped, Attempts, FreedMb, CountIn, Ids;
    var stopped := Stopped(ordered, used, maxTotal, unreachable);
    if used <= maxTotal {
      NothingToStop(ordered, used, maxTotal, unreachable);
    } else {
      ConsSums(ordered, others);
      var x, rest := ordered[0], ordered[1..];
      StoppedStep(ordered, used, maxTotal, unreachable);
      ConsSums(ordered, stopped);
      if x.id in unreachable {
        GreedyIsBest(rest, used, maxTotal, unreachable, others);
      } else {
        var left := used - x.memoryMb;
        var restStopped := Stopped(rest, left, maxTotal, unreachable);
        FreedIgnores(rest, restStopped, stopped);
        if x.id in others {
          GreedyIsBest(rest, left, maxTotal, unreachable, others);
        } else {
          var k := SomeFreed(rest, others);
          FreedWithout(rest, others, k);
          assert ordered[k + 1] == rest[k];
          GreedyIsBest(rest, left, maxTotal, unreachable, others - {rest[k].id});
        }
      }
    }
  }

  lemma {:induction false} NothingToStop(ordered: seq<Row>, used: int, maxTotal: int, unreachable: set<Id>)
    requires used <= maxTotal
    ensures Stopped(ordered, used, maxTotal, unreachable) == {}
  {
  }

  lemma {:induction false} ConsSums(rows: seq<Row>, ids: set<Id>)
    ensures rows == [] ==> FreedMb(rows, ids) == 0
    ensures rows != [] ==>
      && FreedMb(rows, ids) == (if rows[0].id in ids then rows[0].memoryMb else 0) + FreedMb(rows[1..], ids)
      && CountIn(rows, ids) == (if rows[0].id in ids then 1 else 0) + CountIn(rows[1..], ids)
  {
  }

  lemma {:induction false} LargestFirstDescends(rows: seq<Row>)
    ensures Descending(LargestFirst(rows))
  {
    SortSorts(rows, LargerFirst);
  }

  /**
   Largest-first is optimal, also when some daemons do not answer: if any set of reachable servers
   would bring the pool under its limit, the pool phase does so with as few stops as any such set.
   */
  lemma {:induction false} PoolPhaseIsOptimal(running: seq<Row>, maxTotal: int, unreachable: set<Id>, others: set<Id>)
    requires DistinctIds(running) && others !! unreachable
    requires TotalMb(running) - FreedMb(running, others) <= maxTotal
    ensures var stopped := PoolTargets(running, maxTotal, unreachable) - unreachable;
            && |stopped| <= CountIn(running, others)
            && TotalMb(running) - FreedMb(running, stopped) <= maxTotal
  {
    var stopped := PoolTargets(running, maxTotal, unreachable) - unreachable;
    SortSums(running, LargerFirst, others);
    SortSums(running, LargerFirst, stopped);
    SortDistinct(running, LargerFirst);
    LargestFirstDescends(running);
    GreedyIsBest(LargestFirst(running), TotalMb(running), maxTotal, unreachable, others);
  }

  // ----- the state after both phases -----

  function AfterCap(rows: seq<Row>, statuses: Statuses, maxPer: Option<int>, unreachable: set<Id>): (after: Statuses)
    requires Covers(statuses, rows)
    ensures Covers(after, rows)
  {
    if maxPer.None? then statuses else StopAll(statuses, CapTargets(rows, statuses, maxPer.value), unreachable)
  }

  /** `seen` is what the second phase reads, `statuses` what is so. */
  function AfterPool(
    rows: seq<Row>, seen: Statuses, statuses: Statuses, maxTotal: Option<int>, unreachable: set<Id>): (after: Statuses)
    requires Covers(seen, rows) && Covers(statuses, rows)
    ensures Covers(after, rows)
  {
    if maxTotal.None? then statuses
    else StopAll(statuses, PoolTargets(Running(rows, seen), maxTotal.value, unreachable), unreachable)
  }

  /**
   What the second phase reads when the writes of the first have not landed for the servers in
   `stale`. Those may show as stopping instead of as before, which makes no difference to the sweep.
   */
  function Seen(before: Statuses, mid: Statuses, stale: set<Id>): (seen: Statuses)
    ensures seen.Keys == mid.Keys
  {
    map id | id in mid :: if id in stale && id in before then before[id] else mid[id]
  }

  /** Both phases. */
  function AfterSweep(
    rows: seq<Row>, before: Statuses, maxPer: Option<int>, maxTotal: Option<int>, unreachable: set<Id>, stale: set<Id>)
    : (after: Statuses)
    requires Covers(before, rows)
    ensures Covers(after, rows)
  {
    var mid := AfterCap(rows, before, maxPer, unreachable);
    AfterPool(rows, Seen(before, mid, stale), mid, maxTotal, unreachable)
  }

  lemma {:induction false} RunningDistinct(rows: seq<Row>, statuses: Statuses)
    requires DistinctIds(rows) && Covers(statuses, rows)
    ensures DistinctIds(Running(rows, statuses))
  {
    if rows != [] {
      RunningDistinct(rows[1..], statuses);
      var tail := Running(rows[1..], statuses);
      forall j | 0 <= j < |tail|
        ensures tail[j].id != rows[0].id
      {
        assert tail[j] in rows[1..];
      }
    }
  }

  /** What is still running after stopping `ids` holds the memory that was not freed. */
  lemma {:induction false} RunningAfterStop(rows: seq<Row>, statuses: Statuses, ids: set<Id>, unreachable: set<Id>)
    requires Covers(statuses, rows)
    ensures Covers(StopAll(statuses, ids, unreachable), rows)
    ensures TotalMb(Running(rows, StopAll(statuses, ids, unreachable)))
            == TotalMb(Running(rows, statuses)) - FreedMb(Running(rows, statuses), ids)
  {
    if rows != [] {
      RunningAfterStop(rows[1..], statuses, ids, unreachable);
      var x, after := rows[0], StopAll(statuses, ids, unreachable);
      TotalOfCons(x, Running(rows[1..], statuses), ids);
      TotalOfCons(x, Running(rows[1..], after), ids);
      assert [] + Running(rows[1..], statuses) == Running(rows[1..], statuses);
      assert [] + Running(rows[1..], after) == Running(rows[1..], after);
    }
  }

  lemma {:induction false} TotalOfCons(x: Row, s: seq<Row>, ids: set<Id>)
    ensures TotalMb([x] + s) == x.memoryMb + TotalMb(s)
    ensures FreedMb([x] + s, ids) == (if x.id in ids then x.memoryMb else 0) + FreedMb(s, ids)
  {
    assert ([x] + s)[1..] == s;
  }

  lemma {:induction false} CapStops(rows: seq<Row>, statuses: Statuses, maxPer: int, unreachable: set<Id>, i: nat)
    requires Covers(statuses, rows) && i < |rows| && rows[i].memoryMb > maxPer
    ensures !Active(StopAll(statuses, CapTargets(rows, statuses, maxPer), unreachable)[rows[i].id])
  {
  }

  lemma {:induction false} PoolFits(rows: seq<Row>, statuses: Statuses, maxTotal: nat, unreachable: set<Id>)
    requires DistinctIds(rows) && Covers(statuses, rows) && Ids(rows) !! unreachable
    ensures TotalMb(Running(rows, AfterPool(rows, statuses, statuses, Some(maxTotal), unreachable))) <= maxTotal
  {
    hide StopAll, Attempts;
    var running := Running(rows, statuses);
    RunningDistinct(rows, statuses);
    var targets := PoolTargets(running, maxTotal, unreachable);
    FreedAtMostTotal(running, Ids(running));
    forall i | 0 <= i < |running|
      ensures running[i].id !in unreachable
    {
      assert running[i] in rows;
    }
    PoolPhaseIsOptimal(running, maxTotal, unreachable, Ids(running));
    FreedIgnores(running, targets, targets - unreachable);
    RunningAfterStop(rows, statuses, targets, unreachable);
  }

  lemma {:induction false} CapFits(rows: seq<Row>, before: Statuses, maxPer: int, maxTotal: Option<int>,
      unreachable: set<Id>, stale: set<Id>, x: Row)
    requires DistinctIds(rows) && Covers(before, rows)
    requires x in Running(rows, AfterSweep(rows, before, Some(maxPer), maxTotal, unreachable, stale))
    ensures x.memoryMb <= maxPer
  {
    var mid := AfterCap(rows, before, Some(maxPer), unreachable);
    var i :| 0 <= i < |rows| && rows[i] == x;
    assert Active(mid[x.id]);
    if x.memoryMb > maxPer {
      CapStops(rows, before, maxPer, unreachable, i);
    }
  }

  // ----- a stale second read -----

  /** How the first phase leaves a row, and what the second phase may read of it. */
  ghost predicate Told(row: Row, before: Statuses, mid: Statuses, seen: Statuses, maxPer: int, stale: set<Id>)
    requires row.id in before && row.id in mid && row.id in seen
  {
    if OverCap(row, before, maxPer) then !Active(mid[row.id]) && (Active(seen[row.id]) <==> row.id in stale)
    else seen[row.id] == mid[row.id] && (Active(mid[row.id]) ==> row.memoryMb <= maxPer)
  }

  /** The servers stopped by the first phase that the second still reads as running. */
  function StillSeen(rows: seq<Row>, before: Statuses, maxPer: int, stale: set<Id>): (r: seq<Row>)
    requires Covers(before, rows)
    ensures forall x :: x in r <==> x in rows && OverCap(x, before, maxPer) && x.id in stale
  {
    if rows == [] then []
    else
      (if OverCap(rows[0], before, maxPer) && rows[0].id in stale then [rows[0]] else [])
      + StillSeen(rows[1..], before, maxPer, stale)
  }

  lemma {:induction false} InsertHigh(x: Row, high: seq<Row>, low: seq<Row>, maxPer: int)
    requires x.memoryMb > maxPer && forall b | b in low :: b.memoryMb <= maxPer
    ensures Insert(x, high + low, LargerFirst) == Insert(x, high, LargerFirst) + low
  {
    if high == [] {
      assert high + low == low;
      assert low != [] ==> low[0] in low;
    } else if !LargerFirst(x, high[0]) {
      assert (high + low)[1..] == high[1..] + low;
      InsertHigh(x, high[1..], low, maxPer);
    }
  }

  lemma {:induction false} InsertLow(x: Row, high: seq<Row>, low: seq<Row>, maxPer: int)
    requires x.memoryMb <= maxPer && forall a | a in high :: a.memoryMb > maxPer
    ensures Insert(x, high + low, LargerFirst) == high + Insert(x, low, LargerFirst)
  {
    if high == [] {
      assert high + low == low;
    } else {
      assert high[0] in high && (high + low)[1..] == high[1..] + low && high == [high[0]] + high[1..];
      InsertLow(x, high[1..], low, maxPer);
    }
  }

  function ConsIf(there: bool, x: Row, s: seq<Row>): seq<Row> { if there then [x] + s else s }

  lemma {:induction false} Unfolded(rows: seq<Row>, before: Statuses, statuses: Statuses, maxPer: int, stale: set<Id>)
    requires rows != [] && Covers(before, rows) && Covers(statuses, rows)
    ensures var x, rest := rows[0], rows[1..];
            && Running(rows, statuses) == ConsIf(Active(statuses[x.id]), x, Running(rest, statuses))
            && StillSeen(rows, before, maxPer, stale)
               == ConsIf(OverCap(x, before, maxPer) && x.id in stale, x, StillSeen(rest, before, maxPer, stale))
  {
    assert [] + Running(rows[1..], statuses) == Running(rows[1..], statuses);
    assert [] + StillSeen(rows[1..], before, maxPer, stale) == StillSeen(rows[1..], before, maxPer, stale);
  }

  lemma {:induction false} ConsSorts(there: bool, x: Row, s: seq<Row>)
    ensures LargestFirst(ConsIf(there, x, s))
            == if there then Insert(x, LargestFirst(s), LargerFirst) else LargestFirst(s)
    ensures TotalMb(ConsIf(there, x, s)) == (if there then x.memoryMb else 0) + TotalMb(s)
  {
    assert ([x] + s)[1..] == s;
  }

  /** One more row in front, which is either larger than all of `low` or smaller than all of `high`. */
  lemma {:induction false} MergeStep(
    x: Row, inHigh: bool, inLow: bool, all: seq<Row>, high: seq<Row>, low: seq<Row>, maxPer: int)
    requires !(inHigh && inLow) && (inHigh ==> x.memoryMb > maxPer) && (inLow ==> x.memoryMb <= maxPer)
    requires (forall a | a in high :: a.memoryMb > maxPer) && forall b | b in low :: b.memoryMb <= maxPer
    requires LargestFirst(all) == LargestFirst(high) + LargestFirst(low) && TotalMb(all) == TotalMb(high) + TotalMb(low)
    ensures LargestFirst(ConsIf(inHigh || inLow, x, all))
            == LargestFirst(ConsIf(inHigh, x, high)) + LargestFirst(ConsIf(inLow, x, low))
    ensures TotalMb(ConsIf(inHigh || inLow, x, all))
            == TotalMb(ConsIf(inHigh, x, high)) + TotalMb(ConsIf(inLow, x, low))
  {
    SortMembers(high, LargerFirst);
    SortMembers(low, LargerFirst);
    hide TotalMb, ConsIf, Insert;
    ConsSorts(inHigh || inLow, x, all);
    ConsSorts(inHigh, x, high);
    ConsSorts(inLow, x, low);
    if inHigh {
      InsertHigh(x, LargestFirst(high), LargestFirst(low), maxPer);
    } else if inLow {
      InsertLow(x, LargestFirst(high), LargestFirst(low), maxPer);
    }
  }

  ghost predicate AllTold(
    rows: seq<Row>, before: Statuses, mid: Statuses, seen: Statuses, maxPer: int, stale: set<Id>)
    requires Covers(before, rows) && Covers(mid, rows) && Covers(seen, rows)
  {
    forall i | 0 <= i < |rows| :: Told(rows[i], before, mid, seen, maxPer, stale)
  }

  /** The servers that should be gone are larger than all others, so they come first and the rest keep their order. */
  lemma {:induction false} StaleComeFirst(
    rows: seq<Row>, before: Statuses, mid: Statuses, seen: Statuses, maxPer: int, stale: set<Id>)
    requires Covers(before, rows) && Covers(mid, rows) && Covers(seen, rows)
    requires AllTold(rows, before, mid, seen, maxPer, stale)
    ensures LargestFirst(Running(rows, seen))
            == LargestFirst(StillSeen(rows, before, maxPer, stale)) + LargestFirst(Running(rows, mid))
    ensures TotalMb(Running(rows, seen))
            == TotalMb(StillSeen(rows, before, maxPer, stale)) + TotalMb(Running(rows, mid))
  {
    if rows != [] {
      var x, rest := rows[0], rows[1..];
      assert forall i | 0 <= i < |rest| :: rest[i] == rows[i + 1];
      assert Told(x, before, mid, seen, maxPer, stale);
      var high, low := StillSeen(rest, before, maxPer, stale), Running(rest, mid);
      LowIsLow(rest, before, mid, seen, maxPer, stale);
      assert forall a | a in high :: a.memoryMb > maxPer;
      Unfolded(rows, before, mid, maxPer, stale);
      Unfolded(rows, before, seen, maxPer, stale);
      hide Running, StillSeen, LargestFirst, TotalMb, ConsIf, Covers;
      assert Covers(before, rest) && Covers(mid, rest) && Covers(seen, rest) by {
        CoversRest(rows, before);
        CoversRest(rows, mid);
        CoversRest(rows, seen);
      }
      StaleComeFirst(rest, before, mid, seen, maxPer, stale);
      MergeStep(x, OverCap(x, before, maxPer) && x.id in stale, Active(mid[x.id]),
                Running(rest, seen), high, low, maxPer);
    }
  }

  lemma {:induction false} CoversRest(rows: seq<Row>, statuses: Statuses)
    requires rows != [] && Covers(statuses, rows)
    ensures Covers(statuses, rows[1..])
  {
  }

  lemma {:induction false} LowIsLow(
    rows: seq<Row>, before: Statuses, mid: Statuses, seen: Statuses, maxPer: int, stale: set<Id>)
    requires Covers(before, rows) && Covers(mid, rows) && Covers(seen, rows)
    requires AllTold(rows, before, mid, seen, maxPer, stale)
    ensures forall b | b in Running(rows, mid) :: b.memoryMb <= maxPer
  {
    forall b | b in Running(rows, mid)
      ensures b.memoryMb <= maxPer
    {
      var i :| 0 <= i < |rows| && rows[i] == b;
      assert Told(rows[i], before, mid, seen, maxPer, stale);
    }
  }

  /** Stopping the first list either brings the pool under its limit or goes on with the second. */
  lemma {:induction false} AttemptsConcat(high: seq<Row>, low: seq<Row>, used: int, maxTotal: int, unreachable: set<Id>)
    requires forall x | x in high :: x.id !in unreachable
    ensures var n := Attempts(high + low, used, maxTotal, unreachable);
            || (n <= |high| && used - TotalMb(high) <= maxTotal)
            || n == |high| + Attempts(low, used - TotalMb(high), maxTotal, unreachable)
  {
    if high == [] {
      assert high + low == low;
    } else if used > maxTotal {
      assert high[0] in high && (high + low)[1..] == high[1..] + low;
      assert forall x | x in high[1..] :: x in high;
      AttemptsConcat(high[1..], low, used - high[0].memoryMb, maxTotal, unreachable);
    }
  }

  /** So what the pool phase stops beyond those servers is what it would stop anyway. */
  lemma {:induction false} SameTargets(high: seq<Row>, low: seq<Row>, maxTotal: int, unreachable: set<Id>)
    requires forall x | x in high :: x.id !in unreachable
    ensures var n := Attempts(high + low, TotalMb(high) + TotalMb(low), maxTotal, unreachable);
            var m := Attempts(low, TotalMb(low), maxTotal, unreachable);
            Ids(low[..m]) <= Ids((high + low)[..n]) <= Ids(high) + Ids(low[..m])
  {
    var used := TotalMb(high) + TotalMb(low);
    var n := Attempts(high + low, used, maxTotal, unreachable);
    var m := Attempts(low, TotalMb(low), maxTotal, unreachable);
    AttemptsConcat(high, low, used, maxTotal, unreachable);
    if n <= |high| && TotalMb(low) <= maxTotal {
      assert m == 0 && (high + low)[..n] == high[..n];
      IdsOfPrefix(high, n);
      assert Ids(low[..0]) == {};
    } else {
      assert (high + low)[..n] == high + low[..m];
      IdsOfConcat(high, low[..m]);
    }
  }

  lemma {:induction false} IdsOfPrefix(s: seq<Row>, n: nat)
    requires n <= |s|
    ensures Ids(s[..n]) <= Ids(s)
  {
    IdsOfConcat(s[..n], s[n..]);
    assert s[..n] + s[n..] == s;
  }

  lemma {:induction false} SweepTells(
    rows: seq<Row>, before: Statuses, maxPer: int, unreachable: set<Id>, stale: set<Id>, i: nat)
    requires DistinctIds(rows) && Covers(before, rows) && i < |rows|
    ensures var mid := AfterCap(rows, before, Some(maxPer), unreachable);
            Told(rows[i], before, mid, Seen(before, mid, stale), maxPer, stale)
  {
    var targets := CapTargets(rows, before, maxPer);
    assert OverCap(rows[i], before, maxPer) ==> rows[i].id in targets;
    if rows[i].id in targets {
      var k :| 0 <= k < |rows| && OverCap(rows[k], before, maxPer) && rows[k].id == rows[i].id;
      assert k == i;
    }
  }

  /**
   The panel does not wait for the status writes of the first phase. When every daemon answers it
   does not matter which of them the second phase reads: the servers that end up stopped are the
   same.
   */
  lemma {:induction false} StaleReadsAreHarmless(rows: seq<Row>, before: Statuses, maxPer: Option<int>,
      maxTotal: Option<int>, unreachable: set<Id>, stale: set<Id>)
    requires DistinctIds(rows) && Covers(before, rows) && Ids(rows) !! unreachable
    ensures var mid := AfterCap(rows, before, maxPer, unreachable);
            AfterSweep(rows, before, maxPer, maxTotal, unreachable, stale)
            == AfterPool(rows, mid, mid, maxTotal, unreachable)
  {
    var mid := AfterCap(rows, before, maxPer, unreachable);
    var seen := Seen(before, mid, stale);
    if maxPer.None? {
      assert seen == mid;
    } else if maxTotal.Some? {
      SameStops(rows, before, maxPer.value, maxTotal.value, unreachable, stale);
    }
  }

  lemma {:induction false} SameStops(rows: seq<Row>, before: Statuses, maxPer: int, maxTotal: int,
      unreachable: set<Id>, stale: set<Id>)
    requires DistinctIds(rows) && Covers(before, rows) && Ids(rows) !! unreachable
    ensures var mid := AfterCap(rows, before, Some(maxPer), unreachable);
            AfterPool(rows, Seen(before, mid, stale), mid, Some(maxTotal), unreachable)
            == AfterPool(rows, mid, mid, Some(maxTotal), unreachable)
  {
    hide Running, StillSeen, Attempts, AfterCap, Seen, TotalMb, Ids, Told, StopAll, DistinctIds, LargestFirst;
    var mid := AfterCap(rows, before, Some(maxPer), unreachable);
    var seen := Seen(before, mid, stale);
    assert Covers(seen, rows);
    forall i | 0 <= i < |rows|
      ensures Told(rows[i], before, mid, seen, maxPer, stale)
    {
      SweepTells(rows, before, maxPer, unreachable, stale, i);
    }
    StaleComeFirst(rows, before, mid, seen, maxPer, stale);
    var high := StillSeen(rows, before, maxPer, stale);
    var ordered, low := LargestFirst(high), LargestFirst(Running(rows, mid));
    SortedKeeps(high);
    SortedKeeps(Running(rows, mid));
    StoppedAlready(rows, before, maxPer, unreachable, stale, ordered);
    SameTargets(ordered, low, maxTotal, unreachable);
    StopsAddNothing(mid, PoolTargets(Running(rows, mid), maxTotal, unreachable),
                    PoolTargets(Running(rows, seen), maxTotal, unreachable), Ids(ordered), unreachable);
  }

  lemma {:induction false} SortedKeeps(s: seq<Row>)
    ensures TotalMb(LargestFirst(s)) == TotalMb(s) && forall x :: x in LargestFirst(s) <==> x in s
  {
    SortSums(s, LargerFirst, {});
    SortMembers(s, LargerFirst);
  }

  lemma {:induction false} StoppedAlready(rows: seq<Row>, before: Statuses, maxPer: int, unreachable: set<Id>,
      stale: set<Id>, ordered: seq<Row>)
    requires DistinctIds(rows) && Covers(before, rows) && Ids(rows) !! unreachable
    requires forall x | x in ordered :: x in StillSeen(rows, before, maxPer, stale)
    ensures forall x | x in ordered :: x.id !in unreachable
    ensures var mid := AfterCap(rows, before, Some(maxPer), unreachable);
            forall id | id in Ids(ordered) && id in mid :: mid[id] == STOPPED && id !in unreachable
  {
    forall x | x in ordered
      ensures x.id !in unreachable && x.id in CapTargets(rows, before, maxPer)
    {
      var i :| 0 <= i < |rows| && rows[i] == x;
      assert rows[i].id in Ids(rows);
    }
  }

  lemma {:induction false} StopsAddNothing(
    mid: Statuses, few: set<Id>, many: set<Id>, stopped: set<Id>, unreachable: set<Id>)
    requires few <= many <= stopped + few
    requires forall id | id in stopped && id in mid :: mid[id] == STOPPED && id !in unreachable
    ensures StopAll(mid, many, unreachable) == StopAll(mid, few, unreachable)
  {
  }

  /**
   That every daemon answers is needed: an oversized server that could not be stopped and is still
   read as running takes room in the pool, so a server that fits is stopped for it.
   */
  lemma {:induction false} StaleReadStopsMore(
    x: Row, y: Row, before: Statuses, maxPer: int, maxTotal: int, unreachable: set<Id>)
    requires x.id != y.id && x.id in before && y.id in before && Active(before[x.id]) && Active(before[y.id])
    requires y.memoryMb <= maxPer < x.memoryMb && y.memoryMb <= maxTotal < x.memoryMb + y.memoryMb
    requires x.id in unreachable && y.id !in unreachable
    ensures AfterSweep([x, y], before, Some(maxPer), Some(maxTotal), unreachable, {})[y.id] == before[y.id]
    ensures AfterSweep([x, y], before, Some(maxPer), Some(maxTotal), unreachable, {x.id})[y.id] == STOPPED
  {
    var rows := [x, y];
    var mid := AfterCap(rows, before, Some(maxPer), unreachable);
    assert rows[0] == x && rows[1] == y;
    assert x.id in CapTargets(rows, before, maxPer) && y.id !in CapTargets(rows, before, maxPer);
    assert mid[x.id] == ERROR && mid[y.id] == before[y.id];
    TwoRows(x, y, mid);
    TwoRows(x, y, Seen(before, mid, {x.id}));
    assert Seen(before, mid, {}) == mid;
    AttemptBoth(x, y, maxTotal, unreachable);
    assert PoolTargets([y], maxTotal, unreachable) == {};
    assert y.id in PoolTargets([x, y], maxTotal, unreachable);
  }

  lemma {:induction false} TwoRows(x: Row, y: Row, statuses: Statuses)
    requires x.id in statuses && y.id in statuses && Active(statuses[y.id])
    ensures Running([x, y], statuses) == if Active(statuses[x.id]) then [x, y] else [y]
  {
    assert [x, y][1..] == [y] && [y][1..] == [];
    assert Running([y], statuses) == [y] + Running([], statuses);
  }

  lemma {:induction false} AttemptBoth(x: Row, y: Row, maxTotal: int, unreachable: set<Id>)
    requires x.memoryMb >= y.memoryMb && y.memoryMb <= maxTotal < x.memoryMb + y.memoryMb && x.id in unreachable
    ensures y.id in PoolTargets([x, y], maxTotal, unreachable)
    ensures PoolTargets([y], maxTotal, unreachable) == {}
  {
    assert [x, y][1..] == [y] && [y][1..] == [] && [x] + [y] == [x, y];
    assert LargestFirst([y]) == Insert(y, LargestFirst([]), LargerFirst) == [y];
    assert LargestFirst([x, y]) == Insert(x, LargestFirst([y]), LargerFirst) == [x, y];
    assert TotalMb([y]) == y.memoryMb + TotalMb([]) && TotalMb([x, y]) == x.memoryMb + TotalMb([y]);
    var used := TotalMb([x, y]);
    assert Attempts([y], used, maxTotal, unreachable) >= 1;
    assert Attempts([x, y], used, maxTotal, unreachable) == 1 + Attempts([y], used, maxTotal, unreachable);
    assert [x, y][..2] == [x, y] && [x, y][1].id in Ids([x, y]);
  }

  /** When every stop succeeds, whatever still runs fits the per-server cap and the pool. */
  lemma {:induction false} EveryoneFits(rows: seq<Row>, before: Statuses, maxPer: Option<int>, maxTotal: Option<int>,
      unreachable: set<Id>, stale: set<Id>)
    requires DistinctIds(rows) && Covers(before, rows) && Ids(rows) !! unreachable
    requires maxTotal.Some? ==> maxTotal.value >= 0
    ensures var left := Running(rows, AfterSweep(rows, before, maxPer, maxTotal, unreachable, stale));
            && (maxPer.Some? ==> forall x | x in left :: x.memoryMb <= maxPer.value)
            && (maxTotal.Some? ==> TotalMb(left) <= maxTotal.value)
  {
    hide AfterCap, AfterPool, AfterSweep, Running, TotalMb;
    var mid := AfterCap(rows, before, maxPer, unreachable);
    if maxTotal.Some? {
      StaleReadsAreHarmless(rows, before, maxPer, maxTotal, unreachable, stale);
      PoolFits(rows, mid, maxTotal.value, unreachable);
    }
    if maxPer.Some? {
      forall x | x in Running(rows, AfterSweep(rows, before, maxPer, maxTotal, unreachable, stale))
        ensures x.memoryMb <= maxPer.value
      {
        CapFits(rows, before, maxPer.value, maxTotal, unreachable, stale, x);
      }
    }
  }

  /**
   What becomes of one server when every daemon answers: one that is neither running, starting nor
   stopping is left alone, and one that is and exceeds the per-server cap is stopped.
   */
  lemma {:induction false} SweepTouchesOnlyRunning(rows: seq<Row>, before: Statuses, maxPer: Option<int>,
      maxTotal: Option<int>, unreachable: set<Id>, stale: set<Id>, i: nat)
    requires DistinctIds(rows) && Covers(before, rows) && Ids(rows) !! unreachable && i < |rows|
    ensures var was := before[rows[i].id];
            var now := AfterSweep(rows, before, maxPer, maxTotal, unreachable, stale)[rows[i].id];
            && (was == STOPPED || was == ERROR ==> now == was)
            && (was == RUNNING || was == STARTING || was == STOPPING ==>
                  (now == was || now == STOPPED)
                  && (maxPer.Some? && rows[i].memoryMb > maxPer.value ==> now == STOPPED))
  {
    var mid := AfterCap(rows, before, maxPer, unreachable);
    assert rows[i].id in Ids(rows);
    if maxPer.Some? {
      var targets := CapTargets(rows, before, maxPer.value);
      assert OverCap(rows[i], before, maxPer.value) ==> rows[i].id in targets;
      if rows[i].id in targets {
        var k :| 0 <= k < |rows| && OverCap(rows[k], before, maxPer.value) && rows[k].id == rows[i].id;
        assert k == i;
      }
    }
    StaleReadsAreHarmless(rows, before, maxPer, maxTotal, unreachable, stale);
    if maxTotal.Some? {
      PoolStopsRunning(rows, mid, maxTotal.value, unreachable, i);
    }
  }

  lemma {:induction false} PoolStopsRunning(rows: seq<Row>, mid: Statuses, maxTotal: int, unreachable: set<Id>, i: nat)
    requires DistinctIds(rows) && Covers(mid, rows) && i < |rows|
    ensures rows[i].id in PoolTargets(Running(rows, mid), maxTotal, unreachable) ==> rows[i] in Running(rows, mid)
  {
    var running := Running(rows, mid);
    var ordered := LargestFirst(running);
    SortedKeeps(running);
    var n := Attempts(ordered, TotalMb(running), maxTotal, unreachable);
    if rows[i].id in Ids(ordered[..n]) {
      var k :| 0 <= k < n && ordered[..n][k].id == rows[i].id;
      assert ordered[k] in running;
      var m :| 0 <= m < |rows| && rows[m] == ordered[k];
      assert m == i;
    }
  }

  // ----- the panel's server table and the source's loops -----

  class Panel {
    const rows: seq<Row>
    /** Servers whose daemon does not answer during this sweep. */
    const unreachable: set<Id>
    var statuses: Statuses

    ghost predicate Valid()
      reads this
    {
      DistinctIds(rows) && Covers(statuses, rows)
    }

    constructor (rows: seq<Row>, unreachable: set<Id>, statuses: Statuses)
      requires DistinctIds(rows) && Covers(statuses, rows)
      ensures Valid() && this.rows == rows && this.unreachable == unreachable && this.statuses == statuses
    {
      this.rows, this.unreachable, this.statuses := rows, unreachable, statuses;
    }

    /** `processManager.stop` */
    method Stop(id: Id) returns (ok: bool)
      requires Valid() && id in statuses
      modifies this`statuses
      ensures Valid() && ok == (id !in unreachable)
      ensures statuses == StopAll(old(statuses), {id}, unreachable)
    {
      ok := id !in unreachable;
      statuses := statuses[id := if ok then STOPPED else ERROR];
    }

    /** `stale` are the servers whose status writes have not landed when the second phase reads. */
    method StopServersExceedingLicenseQuota(maxPer: Option<int>, maxTotal: Option<int>, stale: set<Id>) returns (n: nat)
      requires Valid()
      modifies this`statuses
      ensures Valid()
      ensures statuses == AfterSweep(rows, old(statuses), maxPer, maxTotal, unreachable, stale)
      ensures n == (if maxPer.None? then 0 else |CapTargets(rows, old(statuses), maxPer.value) - unreachable|)
                   + (if maxTotal.None? then 0
                      else
                        var mid := AfterCap(rows, old(statuses), maxPer, unreachable);
                        var running := Running(rows, Seen(old(statuses), mid, stale));
                        |PoolTargets(running, maxTotal.value, unreachable) - unreachable|)
    {
      n := 0;
      var before := statuses;
      if maxPer.Some? {
        n := StopOverCap(maxPer.value);
      }
      if maxTotal.Some? {
        var m := StopOverPool(Seen(before, statuses, stale), maxTotal.value);
        n := n + m;
      }
    }

    method StopOverCap(maxPer: int) returns (n: nat)
      requires Valid()
      modifies this`statuses
      ensures Valid()
      ensures statuses == StopAll(old(statuses), CapTargets(rows, old(statuses), maxPer), unreachable)
      ensures n == |CapTargets(rows, old(statuses), maxPer) - unreachable|
    {
      hide StopAll, CapTargets;
      var fetched := statuses;
      n := 0;
      NoTargets(rows, fetched, maxPer);
      StopAllTwice(fetched, {}, {}, unreachable);
      for i := 0 to |rows|
        invariant Valid()
        invariant statuses == StopAll(fetched, CapTargets(rows[..i], fetched, maxPer), unreachable)
        invariant n == |CapTargets(rows[..i], fetched, maxPer) - unreachable|
      {
        var s := rows[i];
        CapTargetsStep(rows, i, fetched, maxPer);
        ghost var before := CapTargets(rows[..i], fetched, maxPer);
        if OverCap(s, fetched, maxPer) {
          var ok := Stop(s.id);
          StopAllTwice(fetched, before, {s.id}, unreachable);
          OneMore(before, s.id, unreachable);
          if ok {
            n := n + 1;
          }
        } else {
          assert before + {} == before;
        }
      }
      assert rows[..|rows|] == rows;
    }

    /** `refreshed` is what the phase reads; `used` is always the memory of the servers it has not stopped. */
    method StopOverPool(refreshed: Statuses, maxTotal: int) returns (n: nat)
      requires Valid() && Covers(refreshed, rows) && refreshed.Keys == statuses.Keys
      modifies this`statuses
      ensures Valid()
      ensures var targets := PoolTargets(Running(rows, refreshed), maxTotal, unreachable);
              statuses == StopAll(old(statuses), targets, unreachable)
      ensures n == |PoolTargets(Running(rows, refreshed), maxTotal, unreachable) - unreachable|
    {
      hide PoolStatuses, PoolCount, PoolFreed, PoolPlan, PoolTargets, StopAll, Running, LargestFirst, TotalMb;
      PoolSetup(rows, refreshed, statuses, maxTotal, unreachable);
      var running := Running(rows, refreshed);
      var used: int := TotalMb(running);
      n := 0;
      var ordered := LargestFirst(running);
      ghost var initial := statuses;
      var k := 0;
      while k < |ordered| && used > maxTotal
        invariant k <= |ordered| && Valid() && statuses.Keys == initial.Keys
        invariant PoolPlan(ordered, 0, TotalMb(running), maxTotal, unreachable)
                  == PoolPlan(ordered, k, used, maxTotal, unreachable)
        invariant statuses == PoolStatuses(ordered, k, initial, unreachable)
        invariant n == PoolCount(ordered, k, unreachable)
        invariant used == TotalMb(running) - PoolFreed(ordered, k, unreachable)
      {
        var s := ordered[k];
        PoolStep(ordered, k, used, maxTotal, initial, unreachable);
        assert s in ordered;
        var ok := Stop(s.id);
        if ok {
          used := used - s.memoryMb;
          n := n + 1;
        }
        k := k + 1;
      }
      PoolEnd(rows, refreshed, initial, k, used, maxTotal, unreachable);
    }
  }

  // The state of the pool phase after its first `k` attempts.

  function PoolStatuses(ordered: seq<Row>, k: nat, initial: Statuses, unreachable: set<Id>): Statuses
    requires k <= |ordered|
  {
    StopAll(initial, Ids(ordered[..k]), unreachable)
  }

  function PoolCount(ordered: seq<Row>, k: nat, unreachable: set<Id>): nat
    requires k <= |ordered|
  {
    |Ids(ordered[..k]) - unreachable|
  }

  function PoolFreed(ordered: seq<Row>, k: nat, unreachable: set<Id>): nat
    requires k <= |ordered|
  {
    FreedMb(ordered, Ids(ordered[..k]) - unreachable)
  }

  function PoolPlan(ordered: seq<Row>, k: nat, used: int, maxTotal: int, unreachable: set<Id>): nat
    requires k <= |ordered|
  {
    k + Attempts(ordered[k..], used, maxTotal, unreachable)
  }

  lemma {:induction false} PoolSetup(rows: seq<Row>, refreshed: Statuses, statuses: Statuses, maxTotal: int,
      unreachable: set<Id>)
    requires DistinctIds(rows) && Covers(refreshed, rows) && refreshed.Keys == statuses.Keys
    ensures var ordered := LargestFirst(Running(rows, refreshed));
            && DistinctIds(ordered)
            && (forall x | x in ordered :: x.id in statuses)
            && statuses == PoolStatuses(ordered, 0, statuses, unreachable)
            && PoolCount(ordered, 0, unreachable) == 0 == PoolFreed(ordered, 0, unreachable)
  {
    var running := Running(rows, refreshed);
    var ordered := LargestFirst(running);
    RunningDistinct(rows, refreshed);
    SortDistinct(running, LargerFirst);
    SortMembers(running, LargerFirst);
    assert Ids(ordered[..0]) - unreachable == {};
    StopAllTwice(statuses, {}, {}, unreachable);
    FreedAtMostTotal(ordered, {});
  }

  lemma {:induction false} PoolStep(ordered: seq<Row>, k: nat, used: int, maxTotal: int, statuses: Statuses,
      unreachable: set<Id>)
    requires DistinctIds(ordered) && k < |ordered| && used > maxTotal
    ensures var x := ordered[k];
            var freed := if x.id in unreachable then 0 else x.memoryMb;
            && StopAll(PoolStatuses(ordered, k, statuses, unreachable), {x.id}, unreachable)
               == PoolStatuses(ordered, k + 1, statuses, unreachable)
            && PoolStatuses(ordered, k + 1, statuses, unreachable).Keys == statuses.Keys
            && PoolCount(ordered, k + 1, unreachable)
               == PoolCount(ordered, k, unreachable) + (if x.id in unreachable then 0 else 1)
            && PoolFreed(ordered, k + 1, unreachable) == PoolFreed(ordered, k, unreachable) + freed
            && PoolPlan(ordered, k, used, maxTotal, unreachable)
               == PoolPlan(ordered, k + 1, used - freed, maxTotal, unreachable)
  {
    hide StopAll, FreedMb, Ids;
    TriedStep(ordered, k);
    TriedFreed(ordered, k, unreachable);
    OneMore(Ids(ordered[..k]), ordered[k].id, unreachable);
    StopAllTwice(statuses, Ids(ordered[..k]), {ordered[k].id}, unreachable);
    StopAllTwice(statuses, Ids(ordered[..k + 1]), {}, unreachable);
  }

  lemma {:induction false} PoolEnd(rows: seq<Row>, refreshed: Statuses, statuses: Statuses, k: nat, used: int,
      maxTotal: int, unreachable: set<Id>)
    requires Covers(refreshed, rows)
    requires var running := Running(rows, refreshed);
             var ordered := LargestFirst(running);
             && k <= |ordered| && (k == |ordered| || used <= maxTotal)
             && PoolPlan(ordered, 0, TotalMb(running), maxTotal, unreachable)
                == PoolPlan(ordered, k, used, maxTotal, unreachable)
    ensures var running := Running(rows, refreshed);
            var ordered := LargestFirst(running);
            && StopAll(statuses, PoolTargets(running, maxTotal, unreachable), unreachable)
               == PoolStatuses(ordered, k, statuses, unreachable)
            && |PoolTargets(running, maxTotal, unreachable) - unreachable| == PoolCount(ordered, k, unreachable)
  {
    var ordered := LargestFirst(Running(rows, refreshed));
    assert ordered[0..] == ordered;
  }

  lemma {:induction false} NoTargets(rows: seq<Row>, statuses: Statuses, maxPer: int)
    requires Covers(statuses, rows)
    ensures CapTargets(rows[..0], statuses, maxPer) == {} == Ids(rows[..0])
  {
  }

  lemma {:induction false} OneMore(ids: set<Id>, id: Id, unreachable: set<Id>)
    requires id !in ids
    ensures |(ids + {id}) - unreachable| == |ids - unreachable| + (if id in unreachable then 0 else 1)
  {
    if id in unreachable {
      assert (ids + {id}) - unreachable == ids - unreachable;
    } else {
      assert (ids + {id}) - unreachable == (ids - unreachable) + {id};
    }
  }

  lemma {:induction false} CapTargetsStep(rows: seq<Row>, i: nat, statuses: Statuses, maxPer: int)
    requires Covers(statuses, rows) && DistinctIds(rows) && i < |rows|
    ensures CapTargets(rows[..i + 1], statuses, maxPer)
            == CapTargets(rows[..i], statuses, maxPer)
              + (if OverCap(rows[i], statuses, maxPer) then {rows[i].id} else {})
    ensures rows[i].id !in CapTargets(rows[..i], statuses, maxPer)
  {
    assert forall j | 0 <= j < i :: rows[..i + 1][j] == rows[..i][j];
    assert rows[..i + 1][i] == rows[i];
  }

  lemma {:induction false} SortMembers(s: seq<Row>, le: (Row, Row) -> bool)
    ensures forall x :: x in Sort(s, le) <==> x in s
  {
    SortPermutes(s, le);
    forall x
      ensures x in Sort(s, le) <==> x in s
    {
      assert x in Sort(s, le) <==> x in multiset(Sort(s, le));
    }
  }

  lemma {:induction false} TriedStep(ordered: seq<Row>, k: nat)
    requires DistinctIds(ordered) && k < |ordered|
    ensures Ids(ordered[..k + 1]) == Ids(ordered[..k]) + {ordered[k].id}
    ensures ordered[k].id !in Ids(ordered[..k])
    ensures ordered[k..][1..] == ordered[k + 1..]
  {
    assert ordered[..k + 1] == ordered[..k] + [ordered[k]];
    IdsOfConcat(ordered[..k], [ordered[k]]);
    assert Ids([ordered[k]]) == {ordered[k].id};
  }

  lemma {:induction false} TriedFreed(ordered: seq<Row>, k: nat, unreachable: set<Id>)
    requires DistinctIds(ordered) && k < |ordered|
    ensures FreedMb(ordered, Ids(ordered[..k + 1]) - unreachable)
            == FreedMb(ordered, Ids(ordered[..k]) - unreachable)
               + (if ordered[k].id in unreachable then 0 else ordered[k].memoryMb)
  {
    hide FreedMb, Ids;
    var before, after, x := Ids(ordered[..k]), Ids(ordered[..k + 1]), ordered[k];
    TriedStep(ordered, k);
    if x.id in unreachable {
      assert after - unreachable == before - unreachable;
    } else {
      FreedWithout(ordered, after - unreachable, k);
      assert (after - unreachable) - {x.id} == before - unreachable;
    }
  }
}
