/** The registrar's contents as a value: the live sessions, oldest first, and the
    operations the registrar performs on them (the expiry sweep, the per-user view,
    the list of durations). The linked structure in SessionsRegistrar is proved to
    keep exactly this value up to date. */
module SessionWindow {
  import opened SessionTypes

  /** The sweep: drops sessions from the oldest end for as long as the oldest one
      ended strictly before `threshold`, and stops at the first one that did not. */
  function Sweep(s: seq<Session>, threshold: int): (r: seq<Session>)
    ensures |r| <= |s|
    ensures r != [] ==> r[0].endTimestamp >= threshold
  {
    if s != [] && s[0].endTimestamp < threshold then Sweep(s[1..], threshold) else s
  }

  /** The sessions of user `u`, in the order they have in `s`. */
  function ForUser(s: seq<Session>, u: string): (r: seq<Session>)
    ensures |r| <= |s|
  {
    if s == [] then [] else (if s[0].userId == u then [s[0]] else []) + ForUser(s[1..], u)
  }

  /** A user's view holds exactly that user's sessions. */
  lemma {:induction false} ForUserMembers(s: seq<Session>, u: string)
    ensures forall x :: x in ForUser(s, u) <==> x in s && x.userId == u
  {
    if s != [] {
      ForUserMembers(s[1..], u);
      assert s == [s[0]] + s[1..];
    }
  }

  /** The durations of `s`, position by position. */
  function Durations(s: seq<Session>): (r: seq<int>)
    ensures |r| == |s|
    ensures forall i | 0 <= i < |s| :: r[i] == s[i].duration
  {
    if s == [] then [] else [s[0].duration] + Durations(s[1..])
  }

  /** Reference definition of the window: the sessions that ended at or after `threshold`,
      wherever they stand in `s`. */
  function Live(s: seq<Session>, threshold: int): (r: seq<Session>)
    ensures |r| <= |s|
  {
    if s == [] then []
    else (if s[0].endTimestamp >= threshold then [s[0]] else []) + Live(s[1..], threshold)
  }

  /** The window holds exactly the sessions that ended at or after the threshold. */
  lemma {:induction false} LiveMembers(s: seq<Session>, threshold: int)
    ensures forall x :: x in Live(s, threshold) <==> x in s && x.endTimestamp >= threshold
  {
    if s != [] {
      LiveMembers(s[1..], threshold);
      assert s == [s[0]] + s[1..];
    }
  }

  /** Sessions that arrive in order of their end time: each ends no earlier than the one
      before it. */
  ghost predicate NonDecreasing(s: seq<Session>) {
    |s| <= 1 || (s[0].endTimestamp <= s[1].endTimestamp && NonDecreasing(s[1..]))
  }

  /** `a` is `b` with some elements left out and the rest in their order. */
  ghost predicate IsSubsequence(a: seq<Session>, b: seq<Session>)
    decreases |b|
  {
    if a == [] then true
    else if b == [] then false
    else (a[0] == b[0] && IsSubsequence(a[1..], b[1..])) || IsSubsequence(a, b[1..])
  }

  /** When sessions arrive in order of their end time, the prefix sweep keeps exactly the
      sessions inside the window: the lazy sweep agrees with the reference definition. */
  lemma {:induction false} SweepOfNonDecreasing(s: seq<Session>, threshold: int)
    requires NonDecreasing(s)
    ensures Sweep(s, threshold) == Live(s, threshold)
  {
    if s == [] {
    } else {
      SweepOfNonDecreasing(s[1..], threshold);
      if s[0].endTimestamp >= threshold {
        if s[1..] != [] {
          assert s[1..][0].endTimestamp >= threshold;
        }
        assert Sweep(s[1..], threshold) == s[1..];
        assert s == [s[0]] + s[1..];
      }
    }
  }

  /** The sweep removes a prefix and nothing else: what is left is a suffix of `s`. */
  lemma {:induction false} SweepIsSuffix(s: seq<Session>, threshold: int)
    ensures Sweep(s, threshold) == s[|s| - |Sweep(s, threshold)|..]
  {
    if s != [] && s[0].endTimestamp < threshold {
      SweepIsSuffix(s[1..], threshold);
      assert s[1..][|s| - 1 - |Sweep(s[1..], threshold)|..] == s[|s| - |Sweep(s, threshold)|..];
    }
  }

  /** Everything the sweep removes ended strictly before the threshold. */
  lemma {:induction false} SweepDropsExpired(s: seq<Session>, threshold: int)
    ensures forall i | 0 <= i < |s| - |Sweep(s, threshold)| :: s[i].endTimestamp < threshold
  {
    if s != [] && s[0].endTimestamp < threshold {
      SweepDropsExpired(s[1..], threshold);
      assert forall i | 1 <= i < |s| :: s[i] == s[1..][i - 1];
    }
  }

  /** A session exactly at the threshold is kept: the sweep compares with strict `<`. */
  lemma {:induction false} SweepKeepsThreshold(s: seq<Session>, threshold: int)
    requires s != [] && s[0].endTimestamp == threshold
    ensures Sweep(s, threshold) == s
  {
  }

  /** Sweeping with a threshold and then with a later one is the same as sweeping with the
      later one alone. */
  lemma {:induction false} SweepTwice(s: seq<Session>, t1: int, t2: int)
    requires t1 <= t2
    ensures Sweep(Sweep(s, t1), t2) == Sweep(s, t2)
  {
    if s != [] && s[0].endTimestamp < t1 {
      SweepTwice(s[1..], t1, t2);
    }
  }

  /** Appending at the newest end and then sweeping: the new session survives behind the
      old survivors, or is swept on its own merits when none survive. */
  lemma {:induction false} SweepAppend(s: seq<Session>, x: Session, threshold: int)
    ensures Sweep(s + [x], threshold)
         == if Sweep(s, threshold) == [] then Sweep([x], threshold) else Sweep(s, threshold) + [x]
  {
    if s == [] {
      assert s + [x] == [x];
    } else {
      assert (s + [x])[1..] == s[1..] + [x];
      if s[0].endTimestamp < threshold {
        SweepAppend(s[1..], x, threshold);
      }
    }
  }

  /** Lazy expiry loses nothing: a registrar swept at an earlier time and then given a new
      session holds what sweeping the whole history at the later time would give. */
  lemma {:induction false} LazySweep(s: seq<Session>, x: Session, t1: int, t2: int)
    requires t1 <= t2
    ensures Sweep(Sweep(s, t1) + [x], t2) == Sweep(s + [x], t2)
  {
    SweepTwice(s + [x], t1, t2);
    SweepAppend(s, x, t1);
    if Sweep(s, t1) == [] {
      assert Sweep(s, t1) + [x] == [x];
      SweepTwice([x], t1, t2);
    }
  }

  /** Appending a session extends exactly its own user's view. */
  lemma {:induction false} ForUserAppend(s: seq<Session>, x: Session, u: string)
    ensures ForUser(s + [x], u) == ForUser(s, u) + (if x.userId == u then [x] else [])
  {
    if s == [] {
      assert s + [x] == [x];
    } else {
      assert (s + [x])[0] == s[0] && (s + [x])[1..] == s[1..] + [x];
      ForUserAppend(s[1..], x, u);
      var head := if s[0].userId == u then [s[0]] else [];
      var tail := if x.userId == u then [x] else [];
      assert ForUser(s + [x], u) == head + (ForUser(s[1..], u) + tail);
      assert head + (ForUser(s[1..], u) + tail) == (head + ForUser(s[1..], u)) + tail;
    }
  }

  /** The oldest session is the first one of its user, so removing it from the front of
      the whole list removes it from the front of its user's list and from no other. */
  lemma {:induction false} OldestIsUsersFirst(s: seq<Session>)
    requires s != []
    ensures ForUser(s, s[0].userId) != [] && ForUser(s, s[0].userId)[0] == s[0]
    ensures ForUser(s[1..], s[0].userId) == ForUser(s, s[0].userId)[1..]
    ensures forall v | v != s[0].userId :: ForUser(s[1..], v) == ForUser(s, v)
  {
  }

  /** The sweep takes a prefix off every user's list as well: what a user keeps is a suffix
      of what the user had, so the survivors keep their order. */
  lemma {:induction false} ForUserOfSweep(s: seq<Session>, threshold: int, u: string)
    ensures var before, after := ForUser(s, u), ForUser(Sweep(s, threshold), u);
      |after| <= |before| && after == before[|before| - |after|..]
  {
    if s != [] && s[0].endTimestamp < threshold {
      ForUserOfSweep(s[1..], threshold, u);
      assert Sweep(s, threshold) == Sweep(s[1..], threshold);
      if s[0].userId == u {
        SuffixOfTail(ForUser(s, u), ForUser(Sweep(s, threshold), u));
      }
    } else {
      assert ForUser(s, u)[0..] == ForUser(s, u);
    }
  }

  /** A suffix of the tail of `a` is a suffix of `a`. */
  lemma SuffixOfTail(a: seq<Session>, c: seq<Session>)
    requires a != [] && |c| <= |a| - 1 && c == a[1..][|a| - 1 - |c|..]
    ensures c == a[|a| - |c|..]
  {
  }

  /** A user's list is an ordered subsequence of the whole list. */
  lemma {:induction false} ForUserIsSubsequence(s: seq<Session>, u: string)
    ensures IsSubsequence(ForUser(s, u), s)
    decreases |s|
  {
    if s != [] {
      ForUserIsSubsequence(s[1..], u);
      var a := ForUser(s, u);
      if s[0].userId == u {
        assert a == [s[0]] + ForUser(s[1..], u);
        assert a[0] == s[0] && a[1..] == ForUser(s[1..], u);
      } else {
        assert a == ForUser(s[1..], u);
      }
    }
  }

  /** What the registrar is asked to do, in order: insert a session, or answer a query,
      each at its own current time. */
  datatype Access = Insert(session: Session, now: int) | Query(now: int)

  /** The registrar's contents after `ops`, starting empty: every access sweeps with
      threshold `now - statPeriod`, an insert appends its session first. */
  function Replay(ops: seq<Access>, statPeriod: int): seq<Session>
  {
    if ops == [] then [] else AfterAccess(Replay(ops[..|ops| - 1], statPeriod), ops[|ops| - 1], statPeriod)
  }

  /** The contents after one access: an insert appends its session and sweeps, a query
      only sweeps. */
  function AfterAccess(s: seq<Session>, op: Access, statPeriod: int): seq<Session> {
    match op
    case Insert(x, now) => Sweep(s + [x], now - statPeriod)
    case Query(now) => Sweep(s, now - statPeriod)
  }

  /** An access that inserts leaves the sweep of the earlier live sessions with the new one
      appended. */
  lemma AfterInsert(after: seq<Session>, before: seq<Session>, op: Access, statPeriod: int)
    requires op.Insert? && after == Sweep(before + [op.session], op.now - statPeriod)
    ensures after == AfterAccess(before, op, statPeriod)
  {
  }

  /** An access that queries leaves the sweep of the earlier live sessions. */
  lemma AfterQuery(after: seq<Session>, before: seq<Session>, op: Access, statPeriod: int)
    requires op.Query? && after == Sweep(before, op.now - statPeriod)
    ensures after == AfterAccess(before, op, statPeriod)
  {
  }

  /** Replaying one more access applies it to the contents so far. */
  lemma ReplayStep(ops: seq<Access>, i: int, statPeriod: int)
    requires 0 <= i < |ops|
    ensures Replay(ops[..i + 1], statPeriod) == AfterAccess(Replay(ops[..i], statPeriod), ops[i], statPeriod)
  {
    assert ops[..i + 1][..i] == ops[..i];
  }

  /** The sessions inserted by `ops`, in order. */
  function Inserted(ops: seq<Access>): (r: seq<Session>)
    ensures |r| <= |ops|
  {
    if ops == [] then []
    else Inserted(ops[..|ops| - 1]) + (if ops[|ops| - 1].Insert? then [ops[|ops| - 1].session] else [])
  }

  ghost predicate NowsNonDecreasing(ops: seq<Access>) {
    forall i, j | 0 <= i < j < |ops| :: ops[i].now <= ops[j].now
  }

  /** One access on contents that are a history swept at an earlier time is that history,
      with the inserted session if any, swept at the access's time. */
  lemma StepOfHistory(before: seq<Session>, hist: seq<Session>, t0: int, op: Access, statPeriod: int)
    requires before == Sweep(hist, t0) && t0 <= op.now - statPeriod
    ensures AfterAccess(before, op, statPeriod)
      == Sweep(hist + (if op.Insert? then [op.session] else []), op.now - statPeriod)
  {
    match op
    case Insert(x, now) =>
      LazySweep(hist, x, t0, now - statPeriod);
    case Query(now) =>
      assert hist + [] == hist;
      SweepTwice(hist, t0, now - statPeriod);
  }

  /** However inserts and queries interleave, as long as the clock does not go back the
      registrar holds the whole history swept once at the latest time. */
  lemma {:induction false} ReplayIsSweepOfHistory(ops: seq<Access>, statPeriod: int)
    requires ops != [] && NowsNonDecreasing(ops)
    ensures Replay(ops, statPeriod) == Sweep(Inserted(ops), ops[|ops| - 1].now - statPeriod)
  {
    var pre, op := ops[..|ops| - 1], ops[|ops| - 1];
    // the contents before `op`: the history before it swept at time `t0`
    var t0 := if pre == [] then op.now - statPeriod else pre[|pre| - 1].now - statPeriod;
    if pre != [] {
      assert NowsNonDecreasing(pre);
      ReplayIsSweepOfHistory(pre, statPeriod);
      assert pre[|pre| - 1] == ops[|ops| - 2];
    }
    StepOfHistory(Replay(pre, statPeriod), Inserted(pre), t0, op, statPeriod);
  }

  /** The expiry invariant: when sessions are inserted in order of their end time and the
      clock does not go back, a query returns exactly the sessions inside the window. */
  lemma {:induction false} ExpiryInvariant(ops: seq<Access>, statPeriod: int)
    requires ops != [] && NowsNonDecreasing(ops) && NonDecreasing(Inserted(ops))
    ensures Replay(ops, statPeriod) == Live(Inserted(ops), ops[|ops| - 1].now - statPeriod)
  {
    ReplayIsSweepOfHistory(ops, statPeriod);
    SweepOfNonDecreasing(Inserted(ops), ops[|ops| - 1].now - statPeriod);
  }
}
