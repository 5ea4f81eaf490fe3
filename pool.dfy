/**
 * The `SpawnerPool` reconciler: the list of Resalloc ticket ids it believes it
 * owns, how `start` grows that list, how `try_to_stop` shrinks it, and one
 * cycle of `loop`. The broker and the hooks are oracles passed in by the caller.
 */
module Pool {
  import opened Wrappers
  import opened PyText
  import opened Hooks

  type TicketId = int

  /** What `wait()` and `collect()` return, as the hooks receive it (`f"{data}"`). */
  type Payload = string

  /** The tags every ticket request carries (`self.tags`). */
  const Tags: seq<string> := ["arch_x86_64"]

  /** The cycle period in seconds (`SpawnerPool.sleep`). */
  const Period: int := 30

  /** One externally visible call into the broker or a hook, in the order made. */
  datatype Call =
    | NewTicket(tags: seq<string>, id: TicketId)
    | Wait(id: TicketId)
    | Take(data: Payload, returnCode: int)
    | Collect(id: TicketId)
    | Release(data: Payload, returnCode: int)
    | Close(id: TicketId)

  /**
   * The broker's payloads and the hooks' exit statuses during one call of
   * `start` or `try_to_stop`. Each ticket is waited for or collected, and has its
   * hook run, at most once per call, so giving the payload and the exit status
   * as functions of the ticket loses no generality. The exit status is also given
   * the payload the hook receives; two tickets with equal payloads may still see
   * different statuses, as separate `subprocess.run` calls can.
   */
  datatype Env = Env(
    wait: TicketId -> Payload,
    collect: TicketId -> Payload,
    take: (TicketId, Payload) -> int,
    release: (TicketId, Payload) -> int)
  {
    /** The take hook exits 0 on the payload of this new ticket. */
    predicate Takes(id: TicketId) {
      TakeResult(take(id, wait(id))).Returned?
    }

    /** The release hook exits 0 on the payload of this owned ticket. */
    predicate Releases(id: TicketId) {
      ReleaseResult(release(id, collect(id)))
    }
  }

  predicate Distinct(s: seq<TicketId>) {
    forall i, j :: 0 <= i < j < |s| ==> s[i] != s[j]
  }

  /** `a` is `b` with some elements deleted, the rest in their original order. */
  predicate IsSubsequence(a: seq<TicketId>, b: seq<TicketId>)
    decreases |b|
  {
    if b == [] then a == []
    else IsSubsequence(a, b[1..]) || (a != [] && a[0] == b[0] && IsSubsequence(a[1..], b[1..]))
  }

  lemma {:induction false} SubsequenceReflexive(s: seq<TicketId>)
    ensures IsSubsequence(s, s)
    decreases |s|
  {
    if s != [] {
      SubsequenceReflexive(s[1..]);
    }
  }

  /** A subsequence adds nothing: each of its elements comes from the original. */
  lemma {:induction false} SubsequenceElements(a: seq<TicketId>, b: seq<TicketId>)
    requires IsSubsequence(a, b)
    ensures |a| <= |b|
    ensures forall x :: x in a ==> x in b
    decreases |b|
  {
    if b != [] {
      if IsSubsequence(a, b[1..]) {
        SubsequenceElements(a, b[1..]);
      } else {
        SubsequenceElements(a[1..], b[1..]);
        assert a == [a[0]] + a[1..];
      }
    }
  }

  lemma {:induction false} SubsequenceDistinct(a: seq<TicketId>, b: seq<TicketId>)
    requires IsSubsequence(a, b) && Distinct(b)
    ensures Distinct(a)
    decreases |b|
  {
    if b != [] {
      if IsSubsequence(a, b[1..]) {
        SubsequenceDistinct(a, b[1..]);
      } else {
        SubsequenceDistinct(a[1..], b[1..]);
        SubsequenceElements(a[1..], b[1..]);
        forall i, j | 0 <= i < j < |a| ensures a[i] != a[j] {
          if i > 0 {
            assert a[i] == a[1..][i - 1] && a[j] == a[1..][j - 1];
          } else {
            assert a[j] in a[1..];
          }
        }
      }
    }
  }

  // ---------------------------------------------------------------------------
  // list.remove

  /** `list.remove(x)`: delete the first occurrence of `x`. */
  function RemoveFirst(s: seq<TicketId>, x: TicketId): (r: seq<TicketId>)
    ensures x in s ==> |r| == |s| - 1
  {
    if s == [] then []
    else if s[0] == x then s[1..]
    else [s[0]] + RemoveFirst(s[1..], x)
  }

  /** In a list without duplicates, removing the element at `i` deletes position `i`. */
  lemma {:induction false} RemoveFirstAt(s: seq<TicketId>, i: nat)
    requires Distinct(s) && i < |s|
    ensures RemoveFirst(s, s[i]) == s[..i] + s[i + 1..]
  {
    if i > 0 {
      assert s[0] != s[i];
      assert s[1..][i - 1] == s[i];
      RemoveFirstAt(s[1..], i - 1);
      assert s[1..][..i - 1] + s[1..][i..] == s[1..i] + s[i + 1..];
    }
  }

  /** The log after visiting `id`: the calls before, then collect and release. */
  lemma VisitLogged(before: seq<Call>, visited: seq<Call>, id: TicketId, env: Env)
    ensures ((before + visited) + [Collect(id)]) + [Release(env.collect(id), env.release(id, env.collect(id)))]
         == before + (visited + VisitCalls(id, env))
  {
  }

  lemma CloseLogged(before: seq<Call>, visited: seq<Call>, id: TicketId)
    ensures (before + visited) + [Close(id)] == before + (visited + [Close(id)])
  {
  }

  /** Walking past the head of `rest` moves it to the end of `kept`. */
  lemma PassOver(kept: seq<TicketId>, rest: seq<TicketId>)
    requires rest != []
    ensures kept + rest == (kept + [rest[0]]) + rest[1..]
  {
    assert rest == [rest[0]] + rest[1..];
  }

  /**
   * Removing the ticket just visited, at the boundary between the part walked past
   * and the rest, leaves both parts in place.
   */
  lemma RemoveVisited(kept: seq<TicketId>, rest: seq<TicketId>)
    requires rest != [] && Distinct(kept + rest)
    ensures RemoveFirst(kept + rest, rest[0]) == kept + rest[1..]
    ensures Distinct(kept + rest[1..])
  {
    var s := kept + rest;
    var i := |kept|;
    assert s[i] == rest[0];
    RemoveFirstAt(s, i);
    DistinctRemoveAt(s, i);
    assert s[..i] == kept && s[i + 1..] == rest[1..];
  }

  lemma DistinctRemoveAt(s: seq<TicketId>, i: nat)
    requires Distinct(s) && i < |s|
    ensures Distinct(s[..i] + s[i + 1..])
  {
    var r := s[..i] + s[i + 1..];
    forall a, b | 0 <= a < b < |r| ensures r[a] != r[b] {
      var a' := if a < i then a else a + 1;
      var b' := if b < i then b else b + 1;
      assert r[a] == s[a'] && r[b] == s[b'];
    }
  }

  // ---------------------------------------------------------------------------
  // try_to_stop, read on the list as it was when the call began

  /** What a call of `try_to_stop` leaves behind. */
  datatype StopRun = StopRun(kept: seq<TicketId>, calls: seq<Call>, stopped: nat)

  /** The broker and hook calls made on visiting a ticket: collect, then release. */
  function VisitCalls(id: TicketId, env: Env): seq<Call> {
    [Collect(id), Release(env.collect(id), env.release(id, env.collect(id)))]
  }

  /**
   * The effect of `try_to_stop` stated over the original list `ts`. The loop walks
   * the list with Python's index-based iterator and deletes the ticket it has just
   * visited when its release succeeds; the ticket that slides into the freed slot
   * is then never visited in this call. So: a ticket whose release fails is kept
   * and the walk moves to the next one; a released ticket is closed and dropped,
   * and the ticket after it is kept unvisited; once `stopped` reaches `toStop`
   * everything left is kept.
   */
  function Walk(ts: seq<TicketId>, stopped: nat, toStop: int, env: Env): StopRun
    decreases |ts|
  {
    if ts == [] then StopRun([], [], stopped)
    else if stopped >= toStop then StopRun(ts, [], stopped)
    else if !env.Releases(ts[0]) then
      var r := Walk(ts[1..], stopped, toStop, env);
      StopRun([ts[0]] + r.kept, VisitCalls(ts[0], env) + r.calls, r.stopped)
    else if |ts| == 1 then
      StopRun([], VisitCalls(ts[0], env) + [Close(ts[0])], stopped + 1)
    else
      var r := Walk(ts[2..], stopped + 1, toStop, env);
      StopRun([ts[1]] + r.kept, VisitCalls(ts[0], env) + [Close(ts[0])] + r.calls, r.stopped)
  }

  /**
   * Progress of the loop of `try_to_stop` against `total`, the walk of the whole
   * list: the walk of `rest`, the part of the list not yet walked past, completes
   * what is already kept and what calls were already made.
   */
  ghost predicate Walked(rest: seq<TicketId>, kept: seq<TicketId>, visited: seq<Call>,
                         stopped: nat, toStop: int, env: Env, total: StopRun)
  {
    && kept + Walk(rest, stopped, toStop, env).kept == total.kept
    && visited + Walk(rest, stopped, toStop, env).calls == total.calls
  }

  /** A ticket whose release fails is kept, and the walk goes on with the next one. */
  lemma WalkedKept(rest: seq<TicketId>, kept: seq<TicketId>, visited: seq<Call>,
                   stopped: nat, toStop: int, env: Env, total: StopRun)
    requires Walked(rest, kept, visited, stopped, toStop, env, total)
    requires rest != [] && stopped < toStop && !env.Releases(rest[0])
    ensures Walked(rest[1..], kept + [rest[0]], visited + VisitCalls(rest[0], env), stopped, toStop, env, total)
  {
    var r := Walk(rest[1..], stopped, toStop, env);
    assert kept + ([rest[0]] + r.kept) == (kept + [rest[0]]) + r.kept;
    assert visited + (VisitCalls(rest[0], env) + r.calls) == (visited + VisitCalls(rest[0], env)) + r.calls;
  }

  /** A released ticket goes; the one after it is kept unvisited, and the walk resumes past it. */
  lemma WalkedReleased(rest: seq<TicketId>, kept: seq<TicketId>, visited: seq<Call>,
                       stopped: nat, toStop: int, env: Env, total: StopRun)
    requires Walked(rest, kept, visited, stopped, toStop, env, total)
    requires |rest| > 1 && stopped < toStop && env.Releases(rest[0])
    ensures Walked(rest[2..], kept + [rest[1]], visited + VisitCalls(rest[0], env) + [Close(rest[0])],
                   stopped + 1, toStop, env, total)
  {
    var r := Walk(rest[2..], stopped + 1, toStop, env);
    assert kept + ([rest[1]] + r.kept) == (kept + [rest[1]]) + r.kept;
    assert visited + (VisitCalls(rest[0], env) + [Close(rest[0])] + r.calls)
        == (visited + VisitCalls(rest[0], env) + [Close(rest[0])]) + r.calls;
  }

  /** Releasing the last ticket ends the walk. */
  lemma WalkedReleasedLast(rest: seq<TicketId>, kept: seq<TicketId>, visited: seq<Call>,
                           stopped: nat, toStop: int, env: Env, total: StopRun)
    requires Walked(rest, kept, visited, stopped, toStop, env, total)
    requires |rest| == 1 && stopped < toStop && env.Releases(rest[0])
    ensures Walked([], kept, visited + VisitCalls(rest[0], env) + [Close(rest[0])], stopped + 1, toStop, env, total)
  {
  }

  /** Once the budget is spent or the list is exhausted, the rest is kept and no call remains. */
  lemma WalkedDone(rest: seq<TicketId>, kept: seq<TicketId>, visited: seq<Call>,
                   stopped: nat, toStop: int, env: Env, total: StopRun)
    requires Walked(rest, kept, visited, stopped, toStop, env, total)
    requires rest == [] || stopped >= toStop
    ensures kept + rest == total.kept && visited == total.calls
  {
  }

  /** At most `toStop` tickets go, and the tally counts exactly the tickets that went. */
  lemma {:induction false} WalkBudget(ts: seq<TicketId>, stopped: nat, toStop: int, env: Env)
    ensures var r := Walk(ts, stopped, toStop, env);
      && |r.kept| <= |ts|
      && r.stopped == stopped + (|ts| - |r.kept|)
      && r.stopped <= (if stopped >= toStop then stopped else toStop)
    decreases |ts|
  {
    if ts != [] && stopped < toStop {
      if !env.Releases(ts[0]) {
        WalkBudget(ts[1..], stopped, toStop, env);
      } else if |ts| > 1 {
        WalkBudget(ts[2..], stopped + 1, toStop, env);
      }
    }
  }

  /** The tickets kept are the original ones minus those removed, in the original order. */
  lemma {:induction false} WalkKeepsOrder(ts: seq<TicketId>, stopped: nat, toStop: int, env: Env)
    ensures IsSubsequence(Walk(ts, stopped, toStop, env).kept, ts)
    decreases |ts|
  {
    var r := Walk(ts, stopped, toStop, env);
    if ts == [] {
    } else if stopped >= toStop {
      SubsequenceReflexive(ts);
    } else if !env.Releases(ts[0]) {
      WalkKeepsOrder(ts[1..], stopped, toStop, env);
      assert r.kept[1..] == Walk(ts[1..], stopped, toStop, env).kept;
    } else if |ts| == 1 {
    } else {
      var rest := Walk(ts[2..], stopped + 1, toStop, env);
      WalkKeepsOrder(ts[2..], stopped + 1, toStop, env);
      assert ts[1..][1..] == ts[2..];
      assert r.kept[1..] == rest.kept;
      assert IsSubsequence(r.kept, ts[1..]);
    }
  }

  /** Every call made mentions a ticket of the list walked. */
  lemma {:induction false} WalkCallsMention(ts: seq<TicketId>, stopped: nat, toStop: int, env: Env)
    ensures forall x :: Collect(x) in Walk(ts, stopped, toStop, env).calls ==> x in ts
    ensures forall x :: Close(x) in Walk(ts, stopped, toStop, env).calls ==> x in ts
    decreases |ts|
  {
    if ts != [] && stopped < toStop {
      if !env.Releases(ts[0]) {
        WalkCallsMention(ts[1..], stopped, toStop, env);
      } else if |ts| > 1 {
        WalkCallsMention(ts[2..], stopped + 1, toStop, env);
      }
    }
  }

  /**
   * Removal is gated on release: a ticket that is gone was released and closed.
   */
  lemma {:induction false} WalkRemovesOnlyReleased(ts: seq<TicketId>, stopped: nat, toStop: int, env: Env)
    ensures var r := Walk(ts, stopped, toStop, env);
      forall x :: x in ts && x !in r.kept ==> env.Releases(x) && Close(x) in r.calls
    decreases |ts|
  {
    var r := Walk(ts, stopped, toStop, env);
    if ts != [] && stopped < toStop {
      if !env.Releases(ts[0]) {
        var tail := ts[1..];
        var t := Walk(tail, stopped, toStop, env);
        assert r.kept == [ts[0]] + t.kept && r.calls == VisitCalls(ts[0], env) + t.calls;
        WalkRemovesOnlyReleased(tail, stopped, toStop, env);
        forall x | x in ts && x !in r.kept ensures env.Releases(x) && Close(x) in r.calls {
          assert x in tail;
        }
      } else if |ts| > 1 {
        var tail := ts[2..];
        var t := Walk(tail, stopped + 1, toStop, env);
        assert r.kept == [ts[1]] + t.kept && r.calls == VisitCalls(ts[0], env) + [Close(ts[0])] + t.calls;
        WalkRemovesOnlyReleased(tail, stopped + 1, toStop, env);
        forall x | x in ts && x !in r.kept ensures env.Releases(x) && Close(x) in r.calls {
          if x != ts[0] {
            assert x in tail;
          }
        }
      }
    }
  }

  /** So a ticket whose release fails is never removed. */
  lemma WalkKeepsUnreleased(ts: seq<TicketId>, stopped: nat, toStop: int, env: Env)
    ensures var r := Walk(ts, stopped, toStop, env);
      forall x :: x in ts && !env.Releases(x) ==> x in r.kept
  {
    WalkRemovesOnlyReleased(ts, stopped, toStop, env);
  }

  /** Conversely, with distinct ids every ticket closed is gone from the list. */
  lemma {:induction false} WalkClosedAreRemoved(ts: seq<TicketId>, stopped: nat, toStop: int, env: Env)
    requires Distinct(ts)
    ensures var r := Walk(ts, stopped, toStop, env);
      forall x :: Close(x) in r.calls ==> x in ts && x !in r.kept
    decreases |ts|
  {
    var r := Walk(ts, stopped, toStop, env);
    WalkCallsMention(ts, stopped, toStop, env);
    if ts != [] && stopped < toStop {
      if !env.Releases(ts[0]) {
        WalkClosedAreRemoved(ts[1..], stopped, toStop, env);
        assert ts[0] !in ts[1..];
      } else if |ts| > 1 {
        var rest := Walk(ts[2..], stopped + 1, toStop, env);
        WalkClosedAreRemoved(ts[2..], stopped + 1, toStop, env);
        WalkKeepsOrder(ts[2..], stopped + 1, toStop, env);
        SubsequenceElements(rest.kept, ts[2..]);
        assert ts[0] !in ts[2..] && ts[1] !in ts[2..] && ts[0] != ts[1];
      }
    }
  }

  /**
   * The iteration-skip: with distinct ids, the ticket right after a removed one is
   * never collected or released in the same call, and so stays.
   */
  lemma {:induction false} WalkSkipsSuccessor(ts: seq<TicketId>, stopped: nat, toStop: int, env: Env)
    requires Distinct(ts)
    ensures var r := Walk(ts, stopped, toStop, env);
      forall j :: 0 <= j < |ts| - 1 && ts[j] !in r.kept ==> ts[j + 1] in r.kept && Collect(ts[j + 1]) !in r.calls
    decreases |ts|
  {
    var r := Walk(ts, stopped, toStop, env);
    if ts != [] && stopped < toStop {
      if !env.Releases(ts[0]) {
        var tail := ts[1..];
        WalkSkipsSuccessor(tail, stopped, toStop, env);
        forall j | 0 <= j < |ts| - 1 && ts[j] !in r.kept
          ensures ts[j + 1] in r.kept && Collect(ts[j + 1]) !in r.calls
        {
          assert j > 0;
          assert ts[j] == tail[j - 1] && ts[j + 1] == tail[j];
          assert ts[j + 1] != ts[0];
        }
      } else if |ts| > 1 {
        var tail := ts[2..];
        var rest := Walk(tail, stopped + 1, toStop, env);
        WalkSkipsSuccessor(tail, stopped + 1, toStop, env);
        WalkCallsMention(tail, stopped + 1, toStop, env);
        forall j | 0 <= j < |ts| - 1 && ts[j] !in r.kept
          ensures ts[j + 1] in r.kept && Collect(ts[j + 1]) !in r.calls
        {
          if j == 0 {
            assert ts[1] !in tail && ts[1] != ts[0];
          } else {
            assert j >= 2;
            assert ts[j] == tail[j - 2] && ts[j + 1] == tail[j - 1];
            assert ts[j + 1] != ts[0];
          }
        }
      }
    }
  }

  /**
   * When every release succeeds, the walk removes every other ticket until the
   * budget is spent: `min(toStop, ceil(|ts| / 2))` tickets, not `min(toStop, |ts|)`.
   */
  lemma {:induction false} WalkAllReleased(ts: seq<TicketId>, stopped: nat, toStop: int, env: Env)
    requires forall x :: x in ts ==> env.Releases(x)
    requires stopped <= toStop
    ensures var r := Walk(ts, stopped, toStop, env);
      var half := (|ts| + 1) / 2;
      r.stopped == stopped + (if toStop - stopped < half then toStop - stopped else half)
    decreases |ts|
  {
    if ts != [] && stopped < toStop && |ts| > 1 {
      assert forall x :: x in ts[2..] ==> x in ts;
      WalkAllReleased(ts[2..], stopped + 1, toStop, env);
    }
  }

  /**
   * What a whole call of `try_to_stop` does to the list: it keeps a subsequence,
   * removes at most `to_stop` tickets, and does nothing at all when there is
   * nothing to stop or nothing to walk.
   */
  lemma StopEffect(ts: seq<TicketId>, toStop: int, env: Env)
    ensures var r := Walk(ts, 0, toStop, env);
      && IsSubsequence(r.kept, ts)
      && |ts| - (if toStop > 0 then toStop else 0) <= |r.kept| <= |ts|
      && (toStop <= 0 || ts == [] ==> r.kept == ts && r.calls == [])
  {
    WalkBudget(ts, 0, toStop, env);
    WalkKeepsOrder(ts, 0, toStop, env);
  }

  /** Ids 1 to 5, releases failing for 1 to 3, three to stop: only 4 goes, 5 is skipped. */
  lemma SkipScenario(env: Env)
    requires forall id :: env.Releases(id) <==> id > 3
    ensures var r := Walk([1, 2, 3, 4, 5], 0, 3, env);
      r.kept == [1, 2, 3, 5] && r.stopped == 1
  {
    var ts := [1, 2, 3, 4, 5];
    assert ts[1..] == [2, 3, 4, 5] && ts[1..][1..] == [3, 4, 5];
    assert [3, 4, 5][1..] == [4, 5] && [4, 5][2..] == [];
    assert !env.Releases(1) && !env.Releases(2) && !env.Releases(3) && env.Releases(4);
  }

  // ---------------------------------------------------------------------------
  // start

  /** The broker hands every request a ticket id no other request got. */
  ghost predicate Injective(issue: nat -> TicketId) {
    forall a: nat, b: nat :: a != b ==> issue(a) != issue(b)
  }

  /** The first `n` ids the broker hands out during a call of `start`. */
  function Issued(issue: nat -> TicketId, n: nat): (ids: seq<TicketId>)
    ensures |ids| == n && forall j :: 0 <= j < n ==> ids[j] == issue(j)
  {
    seq(n, j requires 0 <= j => issue(j))
  }

  /** The index of the first new ticket whose take hook fails, or `|ids|` when none does. */
  function FirstTakeFailure(ids: seq<TicketId>, env: Env): (k: nat)
    ensures k <= |ids|
    ensures forall j :: 0 <= j < k ==> env.Takes(ids[j])
    ensures k < |ids| ==> !env.Takes(ids[k])
  {
    if ids == [] || !env.Takes(ids[0]) then 0
    else 1 + FirstTakeFailure(ids[1..], env)
  }

  /** The calls `start` makes for each new ticket: request, wait, take. */
  function StartCalls(ids: seq<TicketId>, env: Env): seq<Call> {
    if ids == [] then []
    else
      var id := ids[|ids| - 1];
      StartCalls(ids[..|ids| - 1], env) + [NewTicket(Tags, id), Wait(id), Take(env.wait(id), env.take(id, env.wait(id)))]
  }

  /** How many new tickets `start(count)` adds: all of them, or up to and including the failing one. */
  function Added(count: int, issue: nat -> TicketId, env: Env): (n: nat)
    ensures n <= (if count > 0 then count else 0)
    ensures n < (if count > 0 then count else 0) ==> 0 < n && !env.Takes(issue(n - 1))
    ensures forall j :: 0 <= j < n - 1 ==> env.Takes(issue(j))
  {
    var ids := Issued(issue, if count > 0 then count else 0);
    var k := FirstTakeFailure(ids, env);
    if k == |ids| then k else k + 1
  }

  /** The ids `start(count)` appends to the list. */
  function StartedIds(count: int, issue: nat -> TicketId, env: Env): seq<TicketId> {
    Issued(issue, Added(count, issue, env))
  }

  /** `start(count)` raises: some take hook among the `count` new tickets fails. */
  predicate StartRaises(count: int, issue: nat -> TicketId, env: Env) {
    var ids := Issued(issue, if count > 0 then count else 0);
    FirstTakeFailure(ids, env) < |ids|
  }

  /**
   * Either every requested ticket is added, or `start` raised and the list ends with
   * the ticket whose take failed.
   */
  lemma StartedIdsEffect(count: int, issue: nat -> TicketId, env: Env)
    ensures var ids := StartedIds(count, issue, env);
      && (!StartRaises(count, issue, env) ==> |ids| == (if count > 0 then count else 0))
      && (StartRaises(count, issue, env) ==>
            0 < |ids| <= (if count > 0 then count else 0) && !env.Takes(ids[|ids| - 1]))
      && forall j :: 0 <= j < |ids| - 1 ==> env.Takes(ids[j])
  {
    var all := Issued(issue, if count > 0 then count else 0);
    var k := FirstTakeFailure(all, env);
    var ids := StartedIds(count, issue, env);
    assert forall j :: 0 <= j < |ids| && j < |all| ==> ids[j] == all[j];
  }

  /** The first `n` of the first `c` ids issued are the first `n` ids issued. */
  lemma IssuedPrefix(issue: nat -> TicketId, c: nat, n: nat)
    requires n <= c
    ensures Issued(issue, c)[..n] == Issued(issue, n)
  {
  }

  /** The log after starting ticket `i`: request, wait and take follow the calls so far. */
  lemma StartLogged(before: seq<Call>, ids: seq<TicketId>, i: nat, env: Env)
    requires i < |ids|
    ensures var id := ids[i];
      (((before + StartCalls(ids[..i], env)) + [NewTicket(Tags, id)]) + [Wait(id)]) + [Take(env.wait(id), env.take(id, env.wait(id)))]
      == before + StartCalls(ids[..i + 1], env)
  {
    assert ids[..i + 1][..i] == ids[..i];
  }

  /** Appending ticket `i` to the list extends the prefix of new ids by one. */
  lemma AppendIssued(before: seq<TicketId>, ids: seq<TicketId>, i: nat)
    requires i < |ids|
    ensures (before + ids[..i]) + [ids[i]] == before + ids[..i + 1]
  {
    assert ids[..i + 1] == ids[..i] + [ids[i]];
  }

  /** `FirstTakeFailure` is the index of the first failing take. */
  lemma {:induction false} FirstTakeFailureIs(ids: seq<TicketId>, k: nat, env: Env)
    requires k <= |ids|
    requires forall j :: 0 <= j < k ==> env.Takes(ids[j])
    requires k < |ids| ==> !env.Takes(ids[k])
    ensures FirstTakeFailure(ids, env) == k
    decreases k
  {
    if k > 0 {
      assert forall j :: 0 <= j < k - 1 ==> ids[1..][j] == ids[j + 1];
      FirstTakeFailureIs(ids[1..], k - 1, env);
    }
  }

  lemma DistinctSnoc(s: seq<TicketId>, x: TicketId)
    requires Distinct(s) && x !in s
    ensures Distinct(s + [x])
  {
    forall i, j | 0 <= i < j < |s| + 1 ensures (s + [x])[i] != (s + [x])[j] {
      if j == |s| {
        assert (s + [x])[i] == s[i];
      }
    }
  }

  /** The `i`-th id issued is neither an id owned before the call nor one issued earlier in it. */
  lemma IssuedIsFresh(before: seq<TicketId>, issue: nat -> TicketId, ids: seq<TicketId>, i: nat)
    requires Injective(issue) && forall j: nat :: issue(j) !in before
    requires i < |ids| && forall j :: 0 <= j < |ids| ==> ids[j] == issue(j)
    ensures issue(i) !in before + ids[..i]
  {
    forall j | 0 <= j < i ensures ids[..i][j] != issue(i) {
      assert ids[..i][j] == issue(j);
    }
  }

  // ---------------------------------------------------------------------------
  // one cycle of loop

  /**
   * How long the loop sleeps after a cycle that began at `started` and finished
   * at `finished`: until one period after the start, or not at all when the cycle
   * overran.
   */
  function SleepDuration(started: int, finished: int): (d: nat)
    ensures d == 0 <==> finished - started >= Period
    ensures d > 0 ==> finished + d == started + Period
  {
    var took := finished - started;
    var sleep := Period - took;
    if sleep > 0 then sleep else 0
  }

  /**
   * The list after a cycle that read `desired` while owning `owned`: `start` the
   * missing tickets, `try_to_stop` the surplus, or leave it as it is.
   */
  function CycleTickets(owned: seq<TicketId>, desired: int, issue: nat -> TicketId, env: Env): seq<TicketId> {
    var todo := desired - |owned|;
    if todo > 0 then owned + StartedIds(todo, issue, env)
    else if todo < 0 then Walk(owned, 0, -todo, env).kept
    else owned
  }

  /** The broker and hook calls that cycle makes. */
  function CycleCalls(owned: seq<TicketId>, desired: int, issue: nat -> TicketId, env: Env): seq<Call> {
    var todo := desired - |owned|;
    if todo > 0 then StartCalls(StartedIds(todo, issue, env), env)
    else if todo < 0 then Walk(owned, 0, -todo, env).calls
    else []
  }

  /** That cycle raises out of `loop`: it had to start tickets and a take hook failed. */
  predicate CycleRaises(owned: seq<TicketId>, desired: int, issue: nat -> TicketId, env: Env) {
    var todo := desired - |owned|;
    todo > 0 && StartRaises(todo, issue, env)
  }

  lemma CycleStarts(owned: seq<TicketId>, desired: int, todo: int, issue: nat -> TicketId, env: Env)
    requires todo == desired - |owned| && todo > 0
    ensures CycleTickets(owned, desired, issue, env) == owned + StartedIds(todo, issue, env)
    ensures CycleCalls(owned, desired, issue, env) == StartCalls(StartedIds(todo, issue, env), env)
    ensures CycleRaises(owned, desired, issue, env) <==> StartRaises(todo, issue, env)
  {
  }

  lemma CycleStops(owned: seq<TicketId>, desired: int, todo: int, issue: nat -> TicketId, env: Env)
    requires todo == desired - |owned| && todo < 0
    ensures CycleTickets(owned, desired, issue, env) == Walk(owned, 0, -todo, env).kept
    ensures CycleCalls(owned, desired, issue, env) == Walk(owned, 0, -todo, env).calls
    ensures !CycleRaises(owned, desired, issue, env)
  {
  }

  lemma CycleSteady(owned: seq<TicketId>, desired: int, issue: nat -> TicketId, env: Env)
    requires desired == |owned|
    ensures CycleTickets(owned, desired, issue, env) == owned
    ensures CycleCalls(owned, desired, issue, env) == []
    ensures !CycleRaises(owned, desired, issue, env)
  {
  }

  /**
   * What one cycle achieves. A deficit is made up exactly unless a take hook fails;
   * a surplus is reduced to a subsequence of the list that still holds at least
   * `desired` tickets, though possibly more; a match changes nothing.
   */
  lemma CycleEffect(owned: seq<TicketId>, desired: int, issue: nat -> TicketId, env: Env)
    ensures var after := CycleTickets(owned, desired, issue, env);
      && (desired == |owned| ==> after == owned && CycleCalls(owned, desired, issue, env) == [])
      && (desired > |owned| ==> after[..|owned|] == owned)
      && (desired > |owned| && !CycleRaises(owned, desired, issue, env) ==> |after| == desired)
      && (desired > |owned| && CycleRaises(owned, desired, issue, env) ==> |owned| < |after| <= desired)
      && (desired < |owned| ==>
            && !CycleRaises(owned, desired, issue, env)
            && IsSubsequence(after, owned)
            && desired <= |after| <= |owned|)
  {
    var todo := desired - |owned|;
    if todo > 0 {
      StartedIdsEffect(todo, issue, env);
      var after := owned + StartedIds(todo, issue, env);
      assert after[..|owned|] == owned;
    } else if todo < 0 {
      StopEffect(owned, -todo, env);
    }
  }

  /** How a cycle of `loop` ends. */
  datatype CycleOutcome =
    | Converging                                    // converge-to yielded no count in the runs given: still retrying
    | TakeRaised(desired: int, error: TakeError)    // `start` raised: the exception leaves `loop`
    | Finished(desired: int, sleep: nat)            // the cycle acted on the drift, then slept this long

  // ---------------------------------------------------------------------------

  class SpawnerPool {
    /** The ids of the tickets this spawner believes it owns (`self.tickets`). */
    var tickets: seq<TicketId>
    /** The calls made so far into the broker and the take and release hooks. */
    var calls: seq<Call>

    /** Ids come from distinct broker requests, so the list has no duplicates. */
    ghost predicate Valid()
      reads this
    {
      Distinct(tickets)
    }

    constructor ()
      ensures Valid() && tickets == [] && calls == []
    {
      tickets := [];
      calls := [];
    }

    /**
     * One pass of the retry loop of `call_converge_to`: the count a run yields,
     * when it exits 0 and its output parses; None where the run failed or `int()`
     * raised the ValueError that the loop swallows.
     */
    method RunConvergeHook(result: Completed) returns (count: Option<int>)
      ensures count == AttemptValue(result)
    {
      count := None;
      if result.returnCode == 0 {
        count := StdoutValue(result.stdout);
      }
    }

    /**
     * `call_converge_to`: run the hook until a run exits 0 and prints an integer.
     * `attempts` are the runs in order; `used` is how many were made. When none
     * of them yields a count the source would go on retrying; the model returns None.
     */
    method CallConvergeTo(attempts: seq<Completed>) returns (desired: Option<int>, used: nat)
      ensures used <= |attempts|
      ensures desired == FirstCount(Readings(attempts))
      ensures desired.Some? ==> IsFirstCount(Readings(attempts), used - 1)
      ensures desired.None? ==> used == |attempts|
    {
      ghost var vs := Readings(attempts);
      used := 0;
      desired := None;
      while desired.None? && used < |attempts|
        invariant used <= |attempts|
        invariant desired.None? ==> forall j :: 0 <= j < used ==> vs[j].None?
        invariant desired.Some? ==> IsFirstCount(vs, used - 1) && desired == vs[used - 1]
      {
        ReadingAt(attempts, used);
        desired := RunConvergeHook(attempts[used]);
        used := used + 1;
      }
      FirstCountIsFirst(vs);
      FirstCountNone(vs);
    }

    /**
     * `start(count)`: request `count` tickets one at a time; each id joins the list
     * as soon as it is issued, before `wait()` and the take hook. A take failure
     * raises and ends the call with the failing ticket already in the list.
     */
    method Start(count: int, issue: nat -> TicketId, env: Env) returns (raised: Option<TakeError>)
      requires Valid()
      requires Injective(issue) && forall j: nat :: issue(j) !in tickets
      modifies this
      ensures Valid()
      ensures raised.None? <==> !StartRaises(count, issue, env)
      ensures var started := StartedIds(count, issue, env);
        && (raised.Some? ==> raised.value == CalledProcessError(env.take(started[|started| - 1], env.wait(started[|started| - 1]))))
        && tickets == old(tickets) + started
        && calls == old(calls) + StartCalls(started, env)
    {
      ghost var ids := Issued(issue, if count > 0 then count else 0);
      var i := 0;
      while i < count
        invariant 0 <= i <= |ids|
        invariant forall j :: 0 <= j < i ==> env.Takes(ids[j])
        invariant tickets == old(tickets) + ids[..i]
        invariant calls == old(calls) + StartCalls(ids[..i], env)
        invariant Distinct(tickets)
      {
        var id := issue(i);
        calls := calls + [NewTicket(Tags, id)];
        IssuedIsFresh(old(tickets), issue, ids, i);
        DistinctSnoc(tickets, id);
        AppendIssued(old(tickets), ids, i);
        tickets := tickets + [id];
        var data := env.wait(id);
        calls := calls + [Wait(id)];
        var returnCode := env.take(id, data);
        calls := calls + [Take(data, returnCode)];
        StartLogged(old(calls), ids, i, env);
        var taken := TakeResult(returnCode);
        if taken.Raised? {
          FirstTakeFailureIs(ids, i, env);
          IssuedPrefix(issue, |ids|, i + 1);
          return Some(taken.error);
        }
        i := i + 1;
      }
      FirstTakeFailureIs(ids, |ids|, env);
      assert ids[..|ids|] == ids;
      raised := None;
    }

    /**
     * `try_to_stop(to_stop)`: walk the list with an index, as Python's list iterator
     * does, releasing and closing tickets until `to_stop` are gone. `remove` deletes
     * the ticket just visited, and the index still advances.
     */
    method TryToStop(toStop: int, env: Env)
      requires Valid()
      modifies this
      ensures Valid()
      ensures tickets == Walk(old(tickets), 0, toStop, env).kept
      ensures calls == old(calls) + Walk(old(tickets), 0, toStop, env).calls
    {
      // `rest` is the part of the list not yet walked past, `kept` the part already
      // walked past that stays; the ticket at index `i` is `rest[0]`
      ghost var ts := tickets;
      ghost var total := Walk(ts, 0, toStop, env);
      ghost var kept: seq<TicketId> := [];
      ghost var visited: seq<Call> := [];
      ghost var rest := ts;
      var stopped: nat := 0;
      var i := 0;
      while i < |tickets|
        invariant Walked(rest, kept, visited, stopped, toStop, env, total)
        invariant tickets == kept + rest
        invariant i == |kept| || (i == |kept| + 1 && rest == [])
        invariant Distinct(tickets)
        invariant calls == old(calls) + visited
        decreases |tickets| - i
      {
        var ticketId := tickets[i];
        assert i == |kept| && ticketId == rest[0];
        i := i + 1;
        if stopped >= toStop {
          break;
        }
        var data := env.collect(ticketId);
        calls := calls + [Collect(ticketId)];
        var returnCode := env.release(ticketId, data);
        calls := calls + [Release(data, returnCode)];
        VisitLogged(old(calls), visited, ticketId, env);
        if !ReleaseResult(returnCode) {
          WalkedKept(rest, kept, visited, stopped, toStop, env, total);
          PassOver(kept, rest);
          kept := kept + [ticketId];
          visited := visited + VisitCalls(ticketId, env);
          rest := rest[1..];
          continue;
        }
        calls := calls + [Close(ticketId)];
        CloseLogged(old(calls), visited + VisitCalls(ticketId, env), ticketId);
        RemoveVisited(kept, rest);
        tickets := RemoveFirst(tickets, ticketId);
        if |rest| > 1 {
          WalkedReleased(rest, kept, visited, stopped, toStop, env, total);
          PassOver(kept, rest[1..]);
          kept := kept + [rest[1]];
          rest := rest[2..];
        } else {
          WalkedReleasedLast(rest, kept, visited, stopped, toStop, env, total);
          rest := [];
        }
        visited := visited + VisitCalls(ticketId, env) + [Close(ticketId)];
        stopped := stopped + 1;
      }
      WalkedDone(rest, kept, visited, stopped, toStop, env, total);
    }

    /**
     * The rest of one cycle of `loop` once the desired count is known: compare it
     * with the list, `start` the missing tickets or `try_to_stop` the surplus, and
     * sleep out the rest of the period. `started` and `finished` are the clock
     * readings around the work.
     */
    method Reconcile(desired: int, issue: nat -> TicketId, env: Env, started: int, finished: int)
      returns (outcome: CycleOutcome)
      requires Valid()
      requires Injective(issue) && forall j: nat :: issue(j) !in tickets
      modifies this
      ensures Valid()
      ensures !outcome.Converging? && outcome.desired == desired
      ensures tickets == CycleTickets(old(tickets), desired, issue, env)
      ensures calls == old(calls) + CycleCalls(old(tickets), desired, issue, env)
      ensures outcome.TakeRaised? <==> CycleRaises(old(tickets), desired, issue, env)
      ensures outcome.Finished? ==> outcome.sleep == SleepDuration(started, finished)
    {
      var todo := desired - |tickets|;
      if todo > 0 {
        CycleStarts(tickets, desired, todo, issue, env);
        var raised := Start(todo, issue, env);
        if raised.Some? {
          return TakeRaised(desired, raised.value);
        }
      } else if todo < 0 {
        CycleStops(tickets, desired, todo, issue, env);
        TryToStop(-todo, env);
      } else {
        CycleSteady(tickets, desired, issue, env);
      }
      outcome := Finished(desired, SleepDuration(started, finished));
    }

    /**
     * One cycle of `loop`: read the desired count with `call_converge_to`, then act
     * on it. When no run of the hook yields a count the cycle has not got past
     * reading it.
     */
    method RunCycle(attempts: seq<Completed>, issue: nat -> TicketId, env: Env, started: int, finished: int)
      returns (outcome: CycleOutcome)
      requires Valid()
      requires Injective(issue) && forall j: nat :: issue(j) !in tickets
      modifies this
      ensures Valid()
      ensures outcome.Converging? <==> FirstCount(Readings(attempts)).None?
      ensures outcome.Converging? ==> tickets == old(tickets) && calls == old(calls)
      ensures !outcome.Converging? ==>
        && FirstCount(Readings(attempts)) == Some(outcome.desired)
        && tickets == CycleTickets(old(tickets), outcome.desired, issue, env)
        && calls == old(calls) + CycleCalls(old(tickets), outcome.desired, issue, env)
        && (outcome.TakeRaised? <==> CycleRaises(old(tickets), outcome.desired, issue, env))
      ensures outcome.Finished? ==> outcome.sleep == SleepDuration(started, finished)
    {
      var desired, used := CallConvergeTo(attempts);
      if desired.None? {
        return Converging;
      }
      outcome := Reconcile(desired.value, issue, env, started, finished);
    }
  }
}
