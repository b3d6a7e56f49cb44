/** The sliding-window session registrar. Every completed session becomes one
    SessionRecord that sits in two circular doubly-linked lists at once, each anchored by a
    sentinel record: the global list, in insertion order, and the list of its user, rooted
    in that user's UserInfo bucket. Expired records are swept from the oldest end of the
    global list on every access.

    The ghost sequence `records` is the global list from oldest to newest; a user's list is
    the subsequence of `records` owned by that user (UserRecords). `Valid()` ties both to the
    pointer fields, and `Sessions()` gives the contents as values (SessionWindow). */
module SessionsRegistrar {
  import opened SessionTypes
  import opened SessionWindow

  class SessionRecord {
    var next: SessionRecord?
    var prev: SessionRecord?
    var nextUserRecord: SessionRecord?
    var prevUserRecord: SessionRecord?
    /** The owning bucket; null for a sentinel. Set once, when the record is created. */
    const userInfo: UserInfo?
    const endTimestamp: int
    const duration: int

    /** initSessionRecordAsLatest: a sentinel is a self-loop in both link pairs, so an
        empty list is the sentinel alone. */
    constructor InitAsLatest()
      ensures next == this && prev == this
      ensures nextUserRecord == this && prevUserRecord == this
      ensures userInfo == null && endTimestamp == 0 && duration == 0
    {
      userInfo := null;
      endTimestamp := 0;
      duration := 0;
      new;
      next := this;
      prev := this;
      nextUserRecord := this;
      prevUserRecord := this;
    }

    /** A fresh record for one session, not yet linked into either list. */
    constructor (userInfo: UserInfo, endTimestamp: int, duration: int)
      ensures this.userInfo == userInfo
      ensures this.endTimestamp == endTimestamp && this.duration == duration
      ensures next == null && prev == null && nextUserRecord == null && prevUserRecord == null
    {
      this.userInfo := userInfo;
      this.endTimestamp := endTimestamp;
      this.duration := duration;
      next := null;
      prev := null;
      nextUserRecord := null;
      prevUserRecord := null;
    }
  }

  /** The bucket of one user: the sentinel of the user's list and the user's id. */
  class UserInfo {
    const latest: SessionRecord
    const userId: string

    constructor (userId: string)
      ensures this.userId == userId && fresh(latest)
      ensures latest.userInfo == null
      ensures latest.next == latest && latest.prev == latest
      ensures latest.nextUserRecord == latest && latest.prevUserRecord == latest
    {
      latest := new SessionRecord.InitAsLatest();
      this.userId := userId;
    }
  }

  /** `r` is a record of user `u` (a sentinel belongs to no one). Reads only constants. */
  predicate Owns(u: string, r: SessionRecord) {
    r.userInfo != null && r.userInfo.userId == u
  }

  /** The session a record stands for. */
  ghost function AsSession(r: SessionRecord): Session {
    Session(if r.userInfo == null then "" else r.userInfo.userId, r.endTimestamp, r.duration)
  }

  ghost function SessionsOf(rs: seq<SessionRecord>): seq<Session> {
    seq(|rs|, i requires 0 <= i < |rs| => AsSession(rs[i]))
  }

  /** The records of user `u`, in their global order: what that user's list must hold. */
  ghost function UserRecords(rs: seq<SessionRecord>, u: string): seq<SessionRecord> {
    if rs == [] then [] else (if Owns(u, rs[0]) then [rs[0]] else []) + UserRecords(rs[1..], u)
  }

  ghost predicate Distinct(rs: seq<SessionRecord>) {
    forall i, j | 0 <= i < j < |rs| :: rs[i] != rs[j]
  }

  /** In the circle `sentinel` followed by `rs`, what comes after `rs[i]`. */
  ghost function Successor(sentinel: SessionRecord, rs: seq<SessionRecord>, i: int): SessionRecord
    requires 0 <= i < |rs|
  {
    if i + 1 < |rs| then rs[i + 1] else sentinel
  }

  /** In the same circle, what comes before `rs[i]`. */
  ghost function Predecessor(sentinel: SessionRecord, rs: seq<SessionRecord>, i: int): SessionRecord
    requires 0 <= i < |rs|
  {
    if i == 0 then sentinel else rs[i - 1]
  }

  /** One pair of link fields, read as the maps `nexts` and `prevs`, makes `sentinel`
      followed by `rs` a circular doubly-linked list; with `rs` empty the sentinel points
      to itself. */
  ghost predicate Circle(sentinel: SessionRecord, rs: seq<SessionRecord>,
                         nexts: map<SessionRecord, SessionRecord>, prevs: map<SessionRecord, SessionRecord>)
  {
    && sentinel in nexts && sentinel in prevs
    && nexts[sentinel] == (if rs == [] then sentinel else rs[0])
    && prevs[sentinel] == (if rs == [] then sentinel else rs[|rs| - 1])
    && (forall i {:trigger rs[i] in nexts} {:trigger nexts[rs[i]]} | 0 <= i < |rs| ::
          rs[i] in nexts && nexts[rs[i]] == Successor(sentinel, rs, i))
    && (forall i {:trigger rs[i] in prevs} {:trigger prevs[rs[i]]} | 0 <= i < |rs| ::
          rs[i] in prevs && prevs[rs[i]] == Predecessor(sentinel, rs, i))
  }

  /** The four assignments that insert `x` between the newest element and the sentinel
      append `x` to the circle. */
  lemma CircleAppend(sentinel: SessionRecord, rs: seq<SessionRecord>, x: SessionRecord,
                     nexts: map<SessionRecord, SessionRecord>, prevs: map<SessionRecord, SessionRecord>)
    requires Circle(sentinel, rs, nexts, prevs) && sentinel !in rs
    requires x !in rs && x != sentinel
    ensures var newest := prevs[sentinel];
      Circle(sentinel, rs + [x], nexts[newest := x][x := sentinel], prevs[x := newest][sentinel := x])
  {
    CircleDistinct(sentinel, rs, nexts, prevs);
    var newest := prevs[sentinel];
    var rs', nexts', prevs' := rs + [x], nexts[newest := x][x := sentinel], prevs[x := newest][sentinel := x];
    forall i | 0 <= i < |rs'| ensures nexts'[rs'[i]] == Successor(sentinel, rs', i) {
      if i < |rs| - 1 {
        assert nexts[rs[i]] == Successor(sentinel, rs, i);
      }
    }
    forall i | 0 <= i < |rs'| ensures prevs'[rs'[i]] == Predecessor(sentinel, rs', i) {
      if i < |rs| {
        assert prevs[rs[i]] == Predecessor(sentinel, rs, i);
      }
    }
  }

  /** The two assignments that make the sentinel and the second element point at each
      other remove the first element from the circle. */
  lemma CircleRemoveFirst(sentinel: SessionRecord, rs: seq<SessionRecord>,
                          nexts: map<SessionRecord, SessionRecord>, prevs: map<SessionRecord, SessionRecord>)
    requires Circle(sentinel, rs, nexts, prevs) && sentinel !in rs && rs != []
    ensures var second := nexts[rs[0]];
      Circle(sentinel, rs[1..], nexts[sentinel := second], prevs[second := sentinel])
  {
    CircleDistinct(sentinel, rs, nexts, prevs);
    var second := nexts[rs[0]];
    assert nexts[rs[0]] == Successor(sentinel, rs, 0);
    var rs', nexts', prevs' := rs[1..], nexts[sentinel := second], prevs[second := sentinel];
    forall i | 0 <= i < |rs'| ensures nexts'[rs'[i]] == Successor(sentinel, rs', i) {
      assert nexts[rs[i + 1]] == Successor(sentinel, rs, i + 1);
    }
    forall i | 0 <= i < |rs'| ensures prevs'[rs'[i]] == Predecessor(sentinel, rs', i) {
      assert prevs[rs[i + 1]] == Predecessor(sentinel, rs, i + 1);
    }
  }

  /** The elements of a circle that avoids its sentinel are distinct: two equal elements
      would have equal successors, and so on up to the last one, whose successor is the
      sentinel. */
  lemma CircleDistinct(sentinel: SessionRecord, rs: seq<SessionRecord>,
                       nexts: map<SessionRecord, SessionRecord>, prevs: map<SessionRecord, SessionRecord>)
    requires Circle(sentinel, rs, nexts, prevs) && sentinel !in rs
    ensures Distinct(rs)
  {
    forall i, j | 0 <= i < j < |rs| ensures rs[i] != rs[j] {
      CircleDistinctFrom(sentinel, rs, nexts, prevs, i, j);
    }
  }

  lemma {:induction false} CircleDistinctFrom(sentinel: SessionRecord, rs: seq<SessionRecord>,
                                              nexts: map<SessionRecord, SessionRecord>,
                                              prevs: map<SessionRecord, SessionRecord>, i: int, j: int)
    requires Circle(sentinel, rs, nexts, prevs) && sentinel !in rs && 0 <= i < j < |rs|
    ensures rs[i] != rs[j]
    decreases |rs| - j
  {
    assert nexts[rs[i]] == Successor(sentinel, rs, i);
    assert nexts[rs[j]] == Successor(sentinel, rs, j);
    if j + 1 < |rs| {
      CircleDistinctFrom(sentinel, rs, nexts, prevs, i + 1, j + 1);
    }
  }

  /** A circle only depends on the links of its own elements. */
  lemma CircleFrame(sentinel: SessionRecord, rs: seq<SessionRecord>,
                    nexts: map<SessionRecord, SessionRecord>, prevs: map<SessionRecord, SessionRecord>,
                    nexts': map<SessionRecord, SessionRecord>, prevs': map<SessionRecord, SessionRecord>)
    requires Circle(sentinel, rs, nexts, prevs)
    requires sentinel in nexts' && sentinel in prevs'
    requires nexts'[sentinel] == nexts[sentinel] && prevs'[sentinel] == prevs[sentinel]
    requires forall i | 0 <= i < |rs| ::
      rs[i] in nexts' && rs[i] in prevs' && nexts'[rs[i]] == nexts[rs[i]] && prevs'[rs[i]] == prevs[rs[i]]
    ensures Circle(sentinel, rs, nexts', prevs')
  {
    forall i | 0 <= i < |rs| ensures nexts'[rs[i]] == Successor(sentinel, rs, i) {
      assert nexts[rs[i]] == Successor(sentinel, rs, i);
    }
    forall i | 0 <= i < |rs| ensures prevs'[rs[i]] == Predecessor(sentinel, rs, i) {
      assert prevs[rs[i]] == Predecessor(sentinel, rs, i);
    }
  }

  /** A user's list holds only records of the global list, and only the user's. */
  lemma {:induction false} UserRecordsSound(rs: seq<SessionRecord>, u: string)
    ensures |UserRecords(rs, u)| <= |rs|
    ensures forall i | 0 <= i < |UserRecords(rs, u)| :: UserRecords(rs, u)[i] in rs && Owns(u, UserRecords(rs, u)[i])
  {
    if rs != [] {
      UserRecordsSound(rs[1..], u);
    }
  }

  /** The first record of the global list is the first record of its user's list. */
  lemma UserRecordsHead(rs: seq<SessionRecord>)
    requires rs != [] && rs[0].userInfo != null
    ensures var u := rs[0].userInfo.userId;
      && UserRecords(rs, u) != [] && UserRecords(rs, u)[0] == rs[0]
      && UserRecords(rs[1..], u) == UserRecords(rs, u)[1..]
      && forall v | v != u :: UserRecords(rs[1..], v) == UserRecords(rs, v)
  {
  }

  /** Appending a record at the tail of the global list appends it at the tail of its
      user's list and leaves every other user's list as it was. */
  lemma {:induction false} UserRecordsAppend(rs: seq<SessionRecord>, x: SessionRecord, u: string)
    ensures UserRecords(rs + [x], u) == UserRecords(rs, u) + (if Owns(u, x) then [x] else [])
  {
    var tail := if Owns(u, x) then [x] else [];
    if rs == [] {
      assert rs + [x] == [x];
      assert UserRecords([x], u) == tail + UserRecords([], u);
    } else {
      var head := if Owns(u, rs[0]) then [rs[0]] else [];
      assert (rs + [x])[0] == rs[0] && (rs + [x])[1..] == rs[1..] + [x];
      assert UserRecords(rs + [x], u) == head + UserRecords(rs[1..] + [x], u);
      UserRecordsAppend(rs[1..], x, u);
      assert head + (UserRecords(rs[1..], u) + tail) == (head + UserRecords(rs[1..], u)) + tail;
    }
  }

  /** A user's list is empty exactly when the user owns no record. */
  lemma {:induction false} UserRecordsEmpty(rs: seq<SessionRecord>, u: string)
    ensures UserRecords(rs, u) == [] <==> forall i | 0 <= i < |rs| :: !Owns(u, rs[i])
  {
    if rs != [] {
      UserRecordsEmpty(rs[1..], u);
    }
  }

  /** Every record of `u` in `rs` is in `u`'s list. */
  lemma {:induction false} UserRecordsComplete(rs: seq<SessionRecord>, u: string, x: SessionRecord)
    requires x in rs && Owns(u, x)
    ensures x in UserRecords(rs, u)
  {
    if rs[0] != x {
      assert x in rs[1..];
      UserRecordsComplete(rs[1..], u, x);
    }
  }

  lemma SessionsOfTail(rs: seq<SessionRecord>)
    requires rs != []
    ensures SessionsOf(rs)[0] == AsSession(rs[0]) && SessionsOf(rs)[1..] == SessionsOf(rs[1..])
  {
  }

  lemma SessionsOfAppend(rs: seq<SessionRecord>, x: SessionRecord)
    ensures SessionsOf(rs + [x]) == SessionsOf(rs) + [AsSession(x)]
  {
  }

  /** Durations read off the records are the durations of the sessions they stand for. */
  lemma DurationsOfRecords(rs: seq<SessionRecord>, ds: seq<int>)
    requires |ds| == |rs| && forall k | 0 <= k < |rs| :: ds[k] == rs[k].duration
    ensures ds == Durations(SessionsOf(rs))
  {
  }

  /** A user's list, read as sessions, is that user's view of all sessions. */
  lemma {:induction false} SessionsOfUserRecords(rs: seq<SessionRecord>, u: string)
    requires forall r | r in rs :: r.userInfo != null
    ensures SessionsOf(UserRecords(rs, u)) == ForUser(SessionsOf(rs), u)
  {
    if rs != [] {
      SessionsOfUserRecords(rs[1..], u);
      assert SessionsOf(rs)[1..] == SessionsOf(rs[1..]);
      assert SessionsOf(rs)[0] == AsSession(rs[0]);
      if Owns(u, rs[0]) {
        assert SessionsOf([rs[0]] + UserRecords(rs[1..], u))
            == [AsSession(rs[0])] + SessionsOf(UserRecords(rs[1..], u));
      }
    }
  }

  /** The four link fields of the registrar's records, read as maps. */
  datatype Links = Links(nexts: map<SessionRecord, SessionRecord>, prevs: map<SessionRecord, SessionRecord>,
                         nextUsers: map<SessionRecord, SessionRecord>, prevUsers: map<SessionRecord, SessionRecord>)

  /** Every live record is owned by the bucket that `users` holds for its user, and the
      sentinels are told apart from the records, from the global sentinel and, through
      `bucketOf`, from each other. */
  ghost predicate WellOwned(latest: SessionRecord, records: seq<SessionRecord>, users: map<string, UserInfo>,
                            bucketOf: map<SessionRecord, string>, repr: set<SessionRecord>)
  {
    && latest in repr && latest.userInfo == null
    && (forall i | 0 <= i < |records| ::
          && records[i] in repr && records[i].userInfo != null
          && records[i].userInfo.userId in users && users[records[i].userInfo.userId] == records[i].userInfo)
    && (forall u {:trigger users[u]} | u in users ::
          && users[u].userId == u && users[u].latest in repr && users[u].latest.userInfo == null
          && users[u].latest != latest
          && users[u].latest in bucketOf && bucketOf[users[u].latest] == u)
  }

  /** Each bucket's user links make a circle of its user's records. */
  ghost predicate UserCircles(records: seq<SessionRecord>, users: map<string, UserInfo>,
                              nextUsers: map<SessionRecord, SessionRecord>, prevUsers: map<SessionRecord, SessionRecord>)
  {
    forall u {:trigger UserRecords(records, u)} | u in users :: Circle(users[u].latest, UserRecords(records, u), nextUsers, prevUsers)
  }

  /** The global links make a circle of `records`, and the user links one per bucket. */
  ghost predicate WellLinked(latest: SessionRecord, records: seq<SessionRecord>, users: map<string, UserInfo>,
                             links: Links)
  {
    Circle(latest, records, links.nexts, links.prevs) && UserCircles(records, users, links.nextUsers, links.prevUsers)
  }

  /** No bucket is empty. */
  ghost predicate AllLive(records: seq<SessionRecord>, users: map<string, UserInfo>) {
    forall u {:trigger UserRecords(records, u)} | u in users :: UserRecords(records, u) != []
  }

  /** The links of a new sentinel `s`, which points to itself in both pairs. */
  ghost function SelfLoop(links: Links, s: SessionRecord): Links {
    Links(links.nexts[s := s], links.prevs[s := s], links.nextUsers[s := s], links.prevUsers[s := s])
  }

  /** The links after `x` is made the newest element of the global circle through `latest`
      and of the user circle through `sentinel`. */
  ghost function Appended(links: Links, latest: SessionRecord, sentinel: SessionRecord, x: SessionRecord): Links
    requires latest in links.prevs && sentinel in links.prevUsers
  {
    var newest, newestOfUser := links.prevs[latest], links.prevUsers[sentinel];
    Links(links.nexts[newest := x][x := latest], links.prevs[x := newest][latest := x],
          links.nextUsers[newestOfUser := x][x := sentinel], links.prevUsers[x := newestOfUser][sentinel := x])
  }

  /** The links after the oldest record is unlinked from the global circle. */
  ghost function GlobalUnlinked(links: Links, latest: SessionRecord, second: SessionRecord): Links {
    links.(nexts := links.nexts[latest := second], prevs := links.prevs[second := latest])
  }

  /** The links after the oldest record of a user is unlinked from that user's circle. */
  ghost function UserUnlinked(links: Links, sentinel: SessionRecord, second: SessionRecord): Links {
    links.(nextUsers := links.nextUsers[sentinel := second], prevUsers := links.prevUsers[second := sentinel])
  }

  /** Redirecting the next link of a record outside a circle keeps the circle. */
  lemma CircleNextElsewhere(sentinel: SessionRecord, rs: seq<SessionRecord>,
                            nexts: map<SessionRecord, SessionRecord>, prevs: map<SessionRecord, SessionRecord>,
                            k: SessionRecord, v: SessionRecord)
    requires Circle(sentinel, rs, nexts, prevs) && k != sentinel && k !in rs
    ensures Circle(sentinel, rs, nexts[k := v], prevs)
  {
    CircleFrame(sentinel, rs, nexts, prevs, nexts[k := v], prevs);
  }

  /** Redirecting the previous link of a record outside a circle keeps the circle. */
  lemma CirclePrevElsewhere(sentinel: SessionRecord, rs: seq<SessionRecord>,
                            nexts: map<SessionRecord, SessionRecord>, prevs: map<SessionRecord, SessionRecord>,
                            k: SessionRecord, v: SessionRecord)
    requires Circle(sentinel, rs, nexts, prevs) && k != sentinel && k !in rs
    ensures Circle(sentinel, rs, nexts, prevs[k := v])
  {
    CircleFrame(sentinel, rs, nexts, prevs, nexts, prevs[k := v]);
  }

  /** The first element of a circle is its only one exactly when its next link leads back
      to the sentinel. */
  lemma CircleSingleton(sentinel: SessionRecord, rs: seq<SessionRecord>,
                        nexts: map<SessionRecord, SessionRecord>, prevs: map<SessionRecord, SessionRecord>)
    requires Circle(sentinel, rs, nexts, prevs) && sentinel !in rs && rs != []
    ensures nexts[rs[0]] == sentinel <==> |rs| == 1
  {
    assert nexts[rs[0]] == Successor(sentinel, rs, 0);
  }

  /** A new user `info` with a fresh sentinel keeps the ownership facts. */
  lemma OwnedNewBucket(latest: SessionRecord, records: seq<SessionRecord>, users: map<string, UserInfo>,
                       bucketOf: map<SessionRecord, string>, repr: set<SessionRecord>, info: UserInfo)
    requires WellOwned(latest, records, users, bucketOf, repr)
    requires info.userId !in users && info.latest !in repr && info.latest.userInfo == null
    ensures WellOwned(latest, records, users[info.userId := info], bucketOf[info.latest := info.userId],
                      repr + {info.latest})
  {
  }

  /** A new record of a user with a bucket keeps the ownership facts. */
  lemma OwnedAppend(latest: SessionRecord, records: seq<SessionRecord>, users: map<string, UserInfo>,
                    bucketOf: map<SessionRecord, string>, repr: set<SessionRecord>, x: SessionRecord)
    requires WellOwned(latest, records, users, bucketOf, repr)
    requires x.userInfo != null && x.userInfo.userId in users && users[x.userInfo.userId] == x.userInfo
    ensures WellOwned(latest, records + [x], users, bucketOf, repr + {x})
  {
  }

  /** Dropping the oldest record keeps the ownership facts, and so does dropping the bucket
      of a user that then has no record left. */
  lemma OwnedTail(latest: SessionRecord, records: seq<SessionRecord>, users: map<string, UserInfo>,
                  bucketOf: map<SessionRecord, string>, repr: set<SessionRecord>, u: string)
    requires WellOwned(latest, records, users, bucketOf, repr) && records != []
    ensures WellOwned(latest, records[1..], users, bucketOf, repr)
    ensures UserRecords(records[1..], u) == [] ==> WellOwned(latest, records[1..], users - {u}, bucketOf, repr)
  {
    UserRecordsEmpty(records[1..], u);
  }

  /** A new bucket whose sentinel is no record and no other bucket's sentinel leaves every
      user circle as it was, and its own (empty) circle is the sentinel alone. */
  lemma UserCirclesNewBucket(records: seq<SessionRecord>, users: map<string, UserInfo>,
                             nextUsers: map<SessionRecord, SessionRecord>, prevUsers: map<SessionRecord, SessionRecord>,
                             info: UserInfo)
    requires UserCircles(records, users, nextUsers, prevUsers) && UserRecords(records, info.userId) == []
    requires forall u | u in users :: users[u].latest != info.latest
    requires forall i | 0 <= i < |records| :: records[i] != info.latest
    ensures var s := info.latest;
      UserCircles(records, users[info.userId := info], nextUsers[s := s], prevUsers[s := s])
  {
    var s := info.latest;
    forall v | v in users[info.userId := info]
      ensures Circle(users[info.userId := info][v].latest, UserRecords(records, v), nextUsers[s := s], prevUsers[s := s])
    {
      if v != info.userId {
        UserRecordsSound(records, v);
        CircleNextElsewhere(users[v].latest, UserRecords(records, v), nextUsers, prevUsers, s, s);
        CirclePrevElsewhere(users[v].latest, UserRecords(records, v), nextUsers[s := s], prevUsers, s, s);
      }
    }
  }

  /** The user circle of `v` survives appending `x` to another user's circle through `s`,
      whose newest record was `a`. */
  lemma OtherCircleAppend(sv: SessionRecord, list: seq<SessionRecord>, v: string,
                          nextUsers: map<SessionRecord, SessionRecord>, prevUsers: map<SessionRecord, SessionRecord>,
                          s: SessionRecord, a: SessionRecord, x: SessionRecord)
    requires Circle(sv, list, nextUsers, prevUsers) && forall i | 0 <= i < |list| :: Owns(v, list[i])
    requires !Owns(v, s) && !Owns(v, a) && !Owns(v, x) && s != sv && a != sv && x != sv
    ensures Circle(sv, list, nextUsers[a := x][x := s], prevUsers[x := a][s := x])
  {
    CircleNextElsewhere(sv, list, nextUsers, prevUsers, a, x);
    CircleNextElsewhere(sv, list, nextUsers[a := x], prevUsers, x, s);
    CirclePrevElsewhere(sv, list, nextUsers[a := x][x := s], prevUsers, x, a);
    CirclePrevElsewhere(sv, list, nextUsers[a := x][x := s], prevUsers[x := a], s, x);
  }

  /** Appending `x` to the circle of its user keeps the circle of user `v`, whether `v`
      is that user or another. */
  lemma UserCircleAppendOne(records: seq<SessionRecord>, users: map<string, UserInfo>,
                            nextUsers: map<SessionRecord, SessionRecord>, prevUsers: map<SessionRecord, SessionRecord>,
                            bucketOf: map<SessionRecord, string>, x: SessionRecord, v: string)
    requires x.userInfo != null && x.userInfo.userId in users && users[x.userInfo.userId] == x.userInfo
    requires v in users && Circle(users[v].latest, UserRecords(records, v), nextUsers, prevUsers)
    requires users[v].latest.userInfo == null && x.userInfo.latest.userInfo == null
    requires users[v].latest in bucketOf && bucketOf[users[v].latest] == v
    requires x.userInfo.latest in bucketOf && bucketOf[x.userInfo.latest] == x.userInfo.userId
    requires forall i | 0 <= i < |records| :: records[i] != x
    requires x.userInfo.latest in prevUsers
    requires var s := x.userInfo.latest; prevUsers[s] == s || Owns(x.userInfo.userId, prevUsers[s])
    ensures var s := x.userInfo.latest; var a := prevUsers[s];
      Circle(users[v].latest, UserRecords(records + [x], v), nextUsers[a := x][x := s], prevUsers[x := a][s := x])
  {
    var u, s := x.userInfo.userId, x.userInfo.latest;
    var a := prevUsers[s];
    UserRecordsAppend(records, x, v);
    UserRecordsSound(records, v);
    if v == u {
      CircleAppend(s, UserRecords(records, u), x, nextUsers, prevUsers);
    } else {
      OtherCircleAppend(users[v].latest, UserRecords(records, v), v, nextUsers, prevUsers, s, a, x);
    }
  }

  /** Appending `x` to the circle of its user keeps every user circle. */
  lemma UserCirclesAppend(records: seq<SessionRecord>, users: map<string, UserInfo>,
                          nextUsers: map<SessionRecord, SessionRecord>, prevUsers: map<SessionRecord, SessionRecord>,
                          bucketOf: map<SessionRecord, string>, x: SessionRecord)
    requires UserCircles(records, users, nextUsers, prevUsers)
    requires x.userInfo != null && x.userInfo.userId in users && users[x.userInfo.userId] == x.userInfo
    requires forall u | u in users :: users[u].latest.userInfo == null
    requires forall u | u in users :: users[u].latest in bucketOf && bucketOf[users[u].latest] == u
    requires forall i | 0 <= i < |records| :: records[i] != x
    requires x.userInfo.latest in prevUsers
    ensures var s := x.userInfo.latest; var a := prevUsers[s];
      UserCircles(records + [x], users, nextUsers[a := x][x := s], prevUsers[x := a][s := x])
  {
    var u, s := x.userInfo.userId, x.userInfo.latest;
    var list := UserRecords(records, u);
    UserRecordsSound(records, u);
    var a := prevUsers[s];
    assert a == s || Owns(u, a);
    forall v | v in users
      ensures Circle(users[v].latest, UserRecords(records + [x], v), nextUsers[a := x][x := s], prevUsers[x := a][s := x])
    {
      UserCircleAppendOne(records, users, nextUsers, prevUsers, bucketOf, x, v);
    }
  }

  /** Dropping the oldest record, together with the bucket of its user, keeps every other
      user circle. */
  lemma UserCirclesEvictLast(records: seq<SessionRecord>, users: map<string, UserInfo>,
                             nextUsers: map<SessionRecord, SessionRecord>, prevUsers: map<SessionRecord, SessionRecord>)
    requires UserCircles(records, users, nextUsers, prevUsers) && records != [] && records[0].userInfo != null
    ensures UserCircles(records[1..], users - {records[0].userInfo.userId}, nextUsers, prevUsers)
  {
    UserRecordsHead(records);
  }

  /** Dropping the oldest record and unlinking it from the front of its user's circle keeps
      every user circle. */
  lemma UserCirclesEvict(records: seq<SessionRecord>, users: map<string, UserInfo>,
                         nextUsers: map<SessionRecord, SessionRecord>, prevUsers: map<SessionRecord, SessionRecord>,
                         bucketOf: map<SessionRecord, string>)
    requires UserCircles(records, users, nextUsers, prevUsers) && records != [] && records[0].userInfo != null
    requires records[0].userInfo.userId in users && users[records[0].userInfo.userId] == records[0].userInfo
    requires forall u | u in users :: users[u].latest.userInfo == null
    requires forall u | u in users :: users[u].latest in bucketOf && bucketOf[users[u].latest] == u
    requires records[0] in nextUsers
    ensures var s, second := records[0].userInfo.latest, nextUsers[records[0]];
      UserCircles(records[1..], users, nextUsers[s := second], prevUsers[second := s])
  {
    var x, u, s := records[0], records[0].userInfo.userId, records[0].userInfo.latest;
    var list := UserRecords(records, u);
    UserRecordsHead(records);
    UserRecordsSound(records, u);
    var second := nextUsers[x];
    assert second == Successor(s, list, 0);
    CircleRemoveFirst(s, list, nextUsers, prevUsers);
    forall v | v in users && v != u
      ensures Circle(users[v].latest, UserRecords(records[1..], v), nextUsers[s := second], prevUsers[second := s])
    {
      UserRecordsSound(records, v);
      CircleNextElsewhere(users[v].latest, UserRecords(records, v), nextUsers, prevUsers, s, second);
      CirclePrevElsewhere(users[v].latest, UserRecords(records, v), nextUsers[s := second], prevUsers, second, s);
    }
  }

  /** A bucket for a user without one, whose sentinel is new, keeps the shape; its user has
      no records yet. */
  lemma NewBucketKeepsShape(latest: SessionRecord, records: seq<SessionRecord>, users: map<string, UserInfo>,
                            bucketOf: map<SessionRecord, string>, repr: set<SessionRecord>, links: Links, info: UserInfo)
    requires WellOwned(latest, records, users, bucketOf, repr) && WellLinked(latest, records, users, links)
    requires info.userId !in users && info.latest !in repr && info.latest.userInfo == null
    ensures var users', s := users[info.userId := info], info.latest;
      && WellOwned(latest, records, users', bucketOf[s := info.userId], repr + {s})
      && WellLinked(latest, records, users', SelfLoop(links, s))
  {
    var s := info.latest;
    UserRecordsEmpty(records, info.userId);
    OwnedNewBucket(latest, records, users, bucketOf, repr, info);
    assert latest != s && s !in records;
    CircleNextElsewhere(latest, records, links.nexts, links.prevs, s, s);
    CirclePrevElsewhere(latest, records, links.nexts[s := s], links.prevs, s, s);
    UserCirclesNewBucket(records, users, links.nextUsers, links.prevUsers, info);
  }

  /** A new record of a user with a bucket, appended at the newest end of both circles,
      keeps the shape. */
  lemma AppendKeepsShape(latest: SessionRecord, records: seq<SessionRecord>, users: map<string, UserInfo>,
                         bucketOf: map<SessionRecord, string>, repr: set<SessionRecord>, links: Links, x: SessionRecord)
    requires WellOwned(latest, records, users, bucketOf, repr) && WellLinked(latest, records, users, links)
    requires x !in repr && x.userInfo != null && x.userInfo.userId in users && users[x.userInfo.userId] == x.userInfo
    requires x.userInfo.latest in links.prevUsers
    ensures var links' := Appended(links, latest, x.userInfo.latest, x);
      && WellOwned(latest, records + [x], users, bucketOf, repr + {x})
      && WellLinked(latest, records + [x], users, links')
  {
    OwnedAppend(latest, records, users, bucketOf, repr, x);
    assert latest !in records && x !in records;
    CircleAppend(latest, records, x, links.nexts, links.prevs);
    UserCirclesAppend(records, users, links.nextUsers, links.prevUsers, bucketOf, x);
  }

  /** Unlinking the oldest record from the global circle, and removing its user's bucket
      when that record is the user's only one, keeps the shape and no bucket is empty. */
  lemma EvictLastKeepsShape(latest: SessionRecord, records: seq<SessionRecord>, users: map<string, UserInfo>,
                            bucketOf: map<SessionRecord, string>, repr: set<SessionRecord>, links: Links)
    requires WellOwned(latest, records, users, bucketOf, repr) && WellLinked(latest, records, users, links)
    requires AllLive(records, users) && records != [] && records[0] in links.nexts && records[0] in links.nextUsers
    requires links.nextUsers[records[0]] == records[0].userInfo.latest
    ensures var u, second := records[0].userInfo.userId, links.nexts[records[0]];
      && WellOwned(latest, records[1..], users - {u}, bucketOf, repr)
      && WellLinked(latest, records[1..], users - {u}, GlobalUnlinked(links, latest, second))
      && AllLive(records[1..], users - {u})
  {
    var u := records[0].userInfo.userId;
    var list := UserRecords(records, u);
    UserRecordsHead(records);
    UserRecordsSound(records, u);
    CircleSingleton(users[u].latest, list, links.nextUsers, links.prevUsers);
    OwnedTail(latest, records, users, bucketOf, repr, u);
    assert latest !in records;
    CircleRemoveFirst(latest, records, links.nexts, links.prevs);
    UserCirclesEvictLast(records, users, links.nextUsers, links.prevUsers);
  }

  /** Unlinking the oldest record from the global circle and from its user's circle, when
      the user has more records, keeps the shape and no bucket is empty. */
  lemma EvictKeepsShape(latest: SessionRecord, records: seq<SessionRecord>, users: map<string, UserInfo>,
                        bucketOf: map<SessionRecord, string>, repr: set<SessionRecord>, links: Links)
    requires WellOwned(latest, records, users, bucketOf, repr) && WellLinked(latest, records, users, links)
    requires AllLive(records, users) && records != [] && records[0] in links.nexts && records[0] in links.nextUsers
    requires links.nextUsers[records[0]] != records[0].userInfo.latest
    ensures var x, second := records[0], links.nexts[records[0]];
      var links' := UserUnlinked(GlobalUnlinked(links, latest, second), x.userInfo.latest, links.nextUsers[x]);
      && WellOwned(latest, records[1..], users, bucketOf, repr)
      && WellLinked(latest, records[1..], users, links')
      && AllLive(records[1..], users)
  {
    var u := records[0].userInfo.userId;
    var list := UserRecords(records, u);
    UserRecordsHead(records);
    UserRecordsSound(records, u);
    CircleSingleton(users[u].latest, list, links.nextUsers, links.prevUsers);
    OwnedTail(latest, records, users, bucketOf, repr, u);
    assert latest !in records;
    CircleRemoveFirst(latest, records, links.nexts, links.prevs);
    UserCirclesEvict(records, users, links.nextUsers, links.prevUsers, bucketOf);
  }

  /** Appending a record of a user with a bucket leaves no bucket empty, given that the
      other buckets were not. */
  lemma AllLiveAppend(records: seq<SessionRecord>, users: map<string, UserInfo>, x: SessionRecord)
    requires x.userInfo != null && x.userInfo.userId in users
    requires forall u {:trigger UserRecords(records, u)} | u in users && u != x.userInfo.userId ::
      UserRecords(records, u) != []
    ensures AllLive(records + [x], users)
  {
    forall u | u in users ensures UserRecords(records + [x], u) != [] {
      UserRecordsAppend(records, x, u);
    }
  }

  /** The oldest record's successor in its user's circle is a record or sentinel of the
      registrar. */
  lemma UserSuccessorOwned(latest: SessionRecord, records: seq<SessionRecord>, users: map<string, UserInfo>,
                           bucketOf: map<SessionRecord, string>, repr: set<SessionRecord>, links: Links)
    requires WellOwned(latest, records, users, bucketOf, repr) && WellLinked(latest, records, users, links)
    requires records != []
    ensures records[0] in links.nextUsers && links.nextUsers[records[0]] in repr
  {
    var u := records[0].userInfo.userId;
    var list := UserRecords(records, u);
    UserRecordsHead(records);
    UserRecordsSound(records, u);
    assert links.nextUsers[list[0]] == Successor(users[u].latest, list, 0);
  }

  class SessionsRecords {
    var users: map<string, UserInfo>
    /** The sentinel of the global list. */
    const latest: SessionRecord
    /** The retention period, in the unit of the timestamps. */
    const statPeriod: int

    /** The global list, oldest first. */
    ghost var records: seq<SessionRecord>
    /** The records and sentinels the registrar owns. */
    ghost var Repr: set<SessionRecord>
    /** The user whose bucket each sentinel heads. */
    ghost var bucketOf: map<SessionRecord, string>
    /** The four link fields of every element of Repr, as maps. */
    ghost var nexts: map<SessionRecord, SessionRecord>
    ghost var prevs: map<SessionRecord, SessionRecord>
    ghost var nextUsers: map<SessionRecord, SessionRecord>
    ghost var prevUsers: map<SessionRecord, SessionRecord>

    ghost predicate NextsMirror(rs: set<SessionRecord>)
      reads this`nexts, rs`next
    {
      forall r {:trigger r.next} | r in rs :: r in nexts && r.next == nexts[r]
    }

    ghost predicate PrevsMirror(rs: set<SessionRecord>)
      reads this`prevs, rs`prev
    {
      forall r {:trigger r.prev} | r in rs :: r in prevs && r.prev == prevs[r]
    }

    ghost predicate NextUsersMirror(rs: set<SessionRecord>)
      reads this`nextUsers, rs`nextUserRecord
    {
      forall r {:trigger r.nextUserRecord} | r in rs :: r in nextUsers && r.nextUserRecord == nextUsers[r]
    }

    ghost predicate PrevUsersMirror(rs: set<SessionRecord>)
      reads this`prevUsers, rs`prevUserRecord
    {
      forall r {:trigger r.prevUserRecord} | r in rs :: r in prevUsers && r.prevUserRecord == prevUsers[r]
    }

    /** The link maps are the link fields. */
    ghost predicate Mirrored()
      reads this`Repr, this`nexts, this`prevs, this`nextUsers, this`prevUsers
      reads Repr`next, Repr`prev, Repr`nextUserRecord, Repr`prevUserRecord
    {
      NextsMirror(Repr) && PrevsMirror(Repr) && NextUsersMirror(Repr) && PrevUsersMirror(Repr)
    }

    ghost predicate Valid()
      reads this, Repr
    {
      && WellOwned(latest, records, users, bucketOf, Repr)
      && WellLinked(latest, records, users, Links(nexts, prevs, nextUsers, prevUsers))
      && AllLive(records, users) && Mirrored()
    }

    /** The live sessions, oldest first. */
    ghost function Sessions(): seq<Session>
      reads this`records
    {
      SessionsOf(records)
    }

    /** The registrar as sessionsRegistrar starts it: no users, and the global sentinel
        alone. */
    constructor (statPeriod: int)
      ensures Valid() && fresh(Repr)
      ensures Sessions() == [] && users == map[] && this.statPeriod == statPeriod
    {
      users := map[];
      latest := new SessionRecord.InitAsLatest();
      this.statPeriod := statPeriod;
      records := [];
      bucketOf := map[];
      new;
      Repr := {latest};
      nexts, prevs := map[latest := latest], map[latest := latest];
      nextUsers, prevUsers := map[latest := latest], map[latest := latest];
    }

    /** The buckets are exactly the users that have a live session. */
    lemma BucketsAreLiveUsers()
      requires Valid()
      ensures forall u :: u in users <==> ForUser(Sessions(), u) != []
    {
      forall u ensures u in users <==> ForUser(Sessions(), u) != [] {
        SessionsOfUserRecords(records, u);
        UserRecordsSound(records, u);
        if UserRecords(records, u) != [] {
          var x := UserRecords(records, u)[0];
          assert x in records && Owns(u, x);
        }
      }
    }

    /** removeExpiredRecords: unlinks records from the head of the global list while they
        ended before `now - statPeriod`, unlinking each from the front of its user's list
        too and dropping the bucket when that list becomes empty. `now` replaces the
        clock. */
    method RemoveExpiredRecords(now: int)
      requires Valid()
      modifies this, Repr
      ensures Valid() && Repr == old(Repr)
      ensures Sessions() == Sweep(old(Sessions()), now - statPeriod)
      ensures forall u | u in users :: u in old(users) && users[u] == old(users)[u]
    {
      var timestampThreshold := now - statPeriod;
      var oldest := latest.next;
      while oldest != latest && oldest.endTimestamp < timestampThreshold
        invariant Valid() && Repr == old(Repr)
        invariant oldest == latest.next
        invariant Sweep(Sessions(), timestampThreshold) == Sweep(old(Sessions()), timestampThreshold)
        invariant forall u | u in users :: u in old(users) && users[u] == old(users)[u]
        decreases |records|
      {
        ghost var before := Sessions();
        SessionsOfTail(records);
        oldest := EvictOldest();
        assert Sessions() == before[1..];
      }
      if records != [] {
        SessionsOfTail(records);
      }
      assert Sweep(Sessions(), timestampThreshold) == Sessions();
    }

    /** One iteration of removeExpiredRecords' loop; returns the new oldest record. */
    method EvictOldest() returns (nextOldest: SessionRecord)
      requires Valid() && records != []
      modifies this, Repr
      ensures Valid() && Repr == old(Repr)
      ensures records == old(records)[1..] && nextOldest == latest.next
      ensures forall u | u in users :: u in old(users) && users[u] == old(users)[u]
    {
      ghost var links := Links(nexts, prevs, nextUsers, prevUsers);
      var oldest := latest.next;
      assert oldest == records[0];
      nextOldest := oldest.next;
      assert nextOldest == Successor(latest, records, 0);
      UnlinkOldest(nextOldest);
      var userInfo := oldest.userInfo;
      var nextOldestUserRecord := oldest.nextUserRecord;
      if nextOldestUserRecord == userInfo.latest {
        ReadyToDropBucket(userInfo.userId, old(records), links);
        DropBucket(userInfo.userId);
      } else {
        UserSuccessorOwned(latest, old(records), users, bucketOf, Repr, links);
        ReadyToUnlinkFromUser(userInfo.latest, nextOldestUserRecord, old(records), links);
        UnlinkFromUser(userInfo.latest, nextOldestUserRecord);
      }
    }

    /** Halfway through one iteration of removeExpiredRecords: the oldest record of `rs`,
        the list before the iteration, is unlinked from the global list but not yet from
        its user's; `links` are the links before the iteration. */
    ghost predicate HalfEvicted(rs: seq<SessionRecord>, links: Links)
      reads this, Repr
    {
      && WellOwned(latest, rs, users, bucketOf, Repr) && WellLinked(latest, rs, users, links)
      && AllLive(rs, users) && rs != [] && rs[0] in links.nexts && rs[0] in links.nextUsers
      && records == rs[1..] && Mirrored()
      && Links(nexts, prevs, nextUsers, prevUsers) == GlobalUnlinked(links, latest, links.nexts[rs[0]])
    }

    /** Halfway through the case where the evicted record was its user's last: the state
        is well formed but for the bucket of `userId`. */
    ghost predicate BucketDropReady(userId: string)
      reads this, Repr
    {
      && WellOwned(latest, records, users - {userId}, bucketOf, Repr)
      && WellLinked(latest, records, users - {userId}, Links(nexts, prevs, nextUsers, prevUsers))
      && AllLive(records, users - {userId}) && Mirrored()
    }

    /** With the oldest record of `rs` unlinked from the global list and its user left with
        no other record, only the bucket stands in the way of a well-formed state. */
    lemma ReadyToDropBucket(userId: string, rs: seq<SessionRecord>, links: Links)
      requires HalfEvicted(rs, links) && rs[0].userInfo.userId == userId
      requires links.nextUsers[rs[0]] == rs[0].userInfo.latest
      ensures BucketDropReady(userId)
    {
      EvictLastKeepsShape(latest, rs, users, bucketOf, Repr, links);
    }

    /** removeExpiredRecords' bucket deletion, when the evicted record was its user's
        last. */
    method DropBucket(userId: string)
      requires BucketDropReady(userId)
      modifies this`users
      ensures Valid() && users == old(users) - {userId} && records == old(records) && Repr == old(Repr)
    {
      users := users - {userId};
    }

    /** Halfway through the other case: the links are those after the user part is
        done, but for the two writes to `sentinel` and `second`. */
    ghost predicate UserUnlinkReady(sentinel: SessionRecord, second: SessionRecord)
      reads this, Repr
    {
      && WellOwned(latest, records, users, bucketOf, Repr)
      && WellLinked(latest, records, users, UserUnlinked(Links(nexts, prevs, nextUsers, prevUsers), sentinel, second))
      && AllLive(records, users) && Mirrored()
    }

    /** With the oldest record of `rs` unlinked from the global list and `second` the next
        record of its user, only the two user-list writes stand in the way of a well-formed
        state. */
    lemma ReadyToUnlinkFromUser(sentinel: SessionRecord, second: SessionRecord, rs: seq<SessionRecord>, links: Links)
      requires HalfEvicted(rs, links) && sentinel == rs[0].userInfo.latest
      requires second == links.nextUsers[rs[0]] && second != sentinel
      ensures UserUnlinkReady(sentinel, second)
    {
      EvictKeepsShape(latest, rs, users, bucketOf, Repr, links);
    }

    /** removeExpiredRecords' unlinking of the evicted record from the front of its user's
        list, whose sentinel is `sentinel`, when the user has more records. */
    method UnlinkFromUser(sentinel: SessionRecord, second: SessionRecord)
      requires UserUnlinkReady(sentinel, second) && sentinel in Repr && second in Repr
      modifies this`nextUsers, this`prevUsers, second`prevUserRecord, sentinel`nextUserRecord
      ensures Valid() && records == old(records) && users == old(users) && Repr == old(Repr)
    {
      UnlinkOldestOfUser(sentinel, second);
    }

    /** The two writes of removeExpiredRecords that unlink the oldest record from the
        global list, whose next record is `nextOldest`. */
    method UnlinkOldest(nextOldest: SessionRecord)
      requires Mirrored() && latest in Repr && nextOldest in Repr && records != []
      modifies this`nexts, this`prevs, this`records, nextOldest`prev, latest`next
      ensures Mirrored() && records == old(records)[1..]
      ensures nexts == old(nexts)[latest := nextOldest] && prevs == old(prevs)[nextOldest := latest]
    {
      nextOldest.prev := latest;
      latest.next := nextOldest;
      records, nexts, prevs := records[1..], nexts[latest := nextOldest], prevs[nextOldest := latest];
      forall r | r in Repr ensures r in nexts && r.next == nexts[r] {
        if r != latest {
          assert r.next == old(r.next);
        }
      }
      forall r | r in Repr ensures r in prevs && r.prev == prevs[r] {
        if r != nextOldest {
          assert r.prev == old(r.prev);
        }
      }
      forall r | r in Repr ensures r in nextUsers && r.nextUserRecord == nextUsers[r] {
        assert old(r.nextUserRecord) == r.nextUserRecord;
      }
      forall r | r in Repr ensures r in prevUsers && r.prevUserRecord == prevUsers[r] {
        assert old(r.prevUserRecord) == r.prevUserRecord;
      }
    }

    /** The two writes of removeExpiredRecords that unlink the oldest record of a user from
        the user's list through `sentinel`, when `second` is the user's next record. */
    method UnlinkOldestOfUser(sentinel: SessionRecord, second: SessionRecord)
      requires Mirrored() && sentinel in Repr && second in Repr
      modifies this`nextUsers, this`prevUsers, second`prevUserRecord, sentinel`nextUserRecord
      ensures Mirrored()
      ensures nextUsers == old(nextUsers)[sentinel := second] && prevUsers == old(prevUsers)[second := sentinel]
    {
      second.prevUserRecord := sentinel;
      sentinel.nextUserRecord := second;
      nextUsers, prevUsers := nextUsers[sentinel := second], prevUsers[second := sentinel];
      forall r | r in Repr ensures r in nextUsers && r.nextUserRecord == nextUsers[r] {
        if r != sentinel {
          assert r.nextUserRecord == old(r.nextUserRecord);
        }
      }
      forall r | r in Repr ensures r in prevUsers && r.prevUserRecord == prevUsers[r] {
        if r != second {
          assert r.prevUserRecord == old(r.prevUserRecord);
        }
      }
      forall r | r in Repr ensures r in nexts && r.next == nexts[r] {
        assert old(r.next) == r.next;
      }
      forall r | r in Repr ensures r in prevs && r.prev == prevs[r] {
        assert old(r.prev) == r.prev;
      }
    }

    /** processSession: creates the user's bucket if the user has none, appends the new
        record as the newest element of the global list and of the user's list, then
        sweeps. */
    method ProcessSession(session: Session, now: int)
      requires Valid()
      modifies this, Repr
      ensures Valid() && fresh(Repr - old(Repr))
      ensures Sessions() == Sweep(old(Sessions()) + [session], now - statPeriod)
      ensures forall u | u in users && u in old(users) :: users[u] == old(users)[u]
      ensures forall u | u in users :: u in old(users) || u == session.userId
    {
      AddSession(session);
      RemoveExpiredRecords(now);
    }

    /** processSession before its closing sweep. */
    method AddSession(session: Session)
      requires Valid()
      modifies this, Repr
      ensures Valid() && fresh(Repr - old(Repr))
      ensures Sessions() == old(Sessions()) + [session]
      ensures session.userId in users && users == old(users)[session.userId := users[session.userId]]
      ensures session.userId in old(users) ==> users == old(users)
    {
      if session.userId !in users {
        AddBucket(session.userId);
      }
      var sessionRecord := AppendRecord(session);
    }

    /** The state is well formed but for an empty bucket of `userId`, which the next
        record is about to fill. */
    ghost predicate ReadyToAppend(userId: string)
      reads this, Repr
    {
      && WellOwned(latest, records, users, bucketOf, Repr)
      && WellLinked(latest, records, users, Links(nexts, prevs, nextUsers, prevUsers)) && Mirrored()
      && userId in users
      && forall u {:trigger UserRecords(records, u)} | u in users && u != userId :: UserRecords(records, u) != []
    }

    /** The bucket creation of processSession: the new bucket's sentinel alone makes the
        user's (empty) list. */
    method AddBucket(userId: string)
      requires Valid() && userId !in users
      modifies this
      ensures userId in users && ReadyToAppend(userId) && users == old(users)[userId := users[userId]]
      ensures records == old(records) && Repr == old(Repr) + {users[userId].latest} && fresh(users[userId].latest)
      ensures fresh(Repr - old(Repr))
    {
      var userInfo := new UserInfo(userId);
      NewBucketKeepsShape(latest, records, users, bucketOf, Repr, Links(nexts, prevs, nextUsers, prevUsers), userInfo);
      users := users[userId := userInfo];
      AddSentinel(userInfo.latest, userId);
      assert Repr - old(Repr) <= {userInfo.latest};
    }

    /** A new sentinel, which points to itself, joins Repr and the link maps as the head of
        the bucket of `userId`. */
    ghost method AddSentinel(s: SessionRecord, userId: string)
      requires Mirrored() && s !in Repr
      requires s.next == s && s.prev == s && s.nextUserRecord == s && s.prevUserRecord == s
      modifies this`Repr, this`bucketOf, this`nexts, this`prevs, this`nextUsers, this`prevUsers
      ensures Mirrored() && Repr == old(Repr) + {s} && bucketOf == old(bucketOf)[s := userId]
      ensures nexts == old(nexts)[s := s] && prevs == old(prevs)[s := s]
      ensures nextUsers == old(nextUsers)[s := s] && prevUsers == old(prevUsers)[s := s]
      ensures records == old(records)
    {
      Repr, bucketOf := Repr + {s}, bucketOf[s := userId];
      nexts, prevs := nexts[s := s], prevs[s := s];
      nextUsers, prevUsers := nextUsers[s := s], prevUsers[s := s];
      forall r | r in Repr ensures r in nexts && r.next == nexts[r] {
        if r != s {
          assert r in old(Repr) && old(r.next) == r.next;
        }
      }
      forall r | r in Repr ensures r in prevs && r.prev == prevs[r] {
        if r != s {
          assert r in old(Repr) && old(r.prev) == r.prev;
        }
      }
      forall r | r in Repr ensures r in nextUsers && r.nextUserRecord == nextUsers[r] {
        if r != s {
          assert r in old(Repr) && old(r.nextUserRecord) == r.nextUserRecord;
        }
      }
      forall r | r in Repr ensures r in prevUsers && r.prevUserRecord == prevUsers[r] {
        if r != s {
          assert r in old(Repr) && old(r.prevUserRecord) == r.prevUserRecord;
        }
      }
    }

    /** The linking of processSession: a new record for `session` becomes the newest
        element of the global list and of its user's list. */
    method AppendRecord(session: Session) returns (sessionRecord: SessionRecord)
      requires ReadyToAppend(session.userId)
      modifies this, Repr
      ensures Valid() && users == old(users) && Repr == old(Repr) + {sessionRecord} && fresh(sessionRecord)
      ensures records == old(records) + [sessionRecord] && Sessions() == old(Sessions()) + [session]
    {
      var userInfo := users[session.userId];
      sessionRecord := new SessionRecord(userInfo, session.endTimestamp, session.duration);
      ghost var list := UserRecords(records, session.userId);
      UserRecordsSound(records, session.userId);
      AppendKeepsShape(latest, records, users, bucketOf, Repr, Links(nexts, prevs, nextUsers, prevUsers), sessionRecord);
      assert latest.prev == if records == [] then latest else records[|records| - 1];
      assert userInfo.latest.prevUserRecord == if list == [] then userInfo.latest else list[|list| - 1];
      AllLiveAppend(records, users, sessionRecord);
      SessionsOfAppend(records, sessionRecord);
      LinkValid(userInfo.latest, sessionRecord, records + [sessionRecord],
                Appended(Links(nexts, prevs, nextUsers, prevUsers), latest, userInfo.latest, sessionRecord));
    }

    /** Link, when the records and links it produces are known to be well formed. */
    method LinkValid(sentinel: SessionRecord, x: SessionRecord, ghost rs: seq<SessionRecord>, ghost links: Links)
      requires Mirrored() && latest in Repr && latest.prev in Repr
      requires sentinel in Repr && sentinel.prevUserRecord in Repr && x !in Repr
      requires rs == records + [x] && links == Appended(Links(nexts, prevs, nextUsers, prevUsers), latest, sentinel, x)
      requires WellOwned(latest, rs, users, bucketOf, Repr + {x}) && WellLinked(latest, rs, users, links)
      requires AllLive(rs, users)
      modifies this`nexts, this`prevs, this`nextUsers, this`prevUsers, this`records, this`Repr
      modifies latest.prev`next, x`prev, x`next, latest`prev
      modifies sentinel.prevUserRecord`nextUserRecord, x`prevUserRecord, x`nextUserRecord, sentinel`prevUserRecord
      ensures Valid() && Repr == old(Repr) + {x} && records == rs && users == old(users)
    {
      Link(sentinel, x);
    }

    /** The eight writes of processSession that make `x` the newest record of the global
        list and of the list through `sentinel`; `x` joins the records. */
    method Link(sentinel: SessionRecord, x: SessionRecord)
      requires Mirrored() && latest in Repr && latest.prev in Repr
      requires sentinel in Repr && sentinel.prevUserRecord in Repr && x !in Repr
      modifies this`nexts, this`prevs, this`nextUsers, this`prevUsers, this`records, this`Repr
      modifies latest.prev`next, x`prev, x`next, latest`prev
      modifies sentinel.prevUserRecord`nextUserRecord, x`prevUserRecord, x`nextUserRecord, sentinel`prevUserRecord
      ensures Mirrored() && Repr == old(Repr) + {x} && records == old(records) + [x]
      ensures nexts == old(nexts[prevs[latest] := x][x := latest])
      ensures prevs == old(prevs[x := prevs[latest]][latest := x])
      ensures nextUsers == old(nextUsers[prevUsers[sentinel] := x][x := sentinel])
      ensures prevUsers == old(prevUsers[x := prevUsers[sentinel]][sentinel := x])
    {
      LinkAsNewest(x);
      LinkAsNewestOfUser(sentinel, x);
      records, Repr := records + [x], Repr + {x};
    }

    /** The four writes of processSession that make `x` the newest element of the global
        list. */
    method LinkAsNewest(x: SessionRecord)
      requires NextsMirror(Repr) && PrevsMirror(Repr) && latest in Repr && latest.prev in Repr && x !in Repr
      modifies this`nexts, this`prevs, latest.prev`next, x`prev, x`next, latest`prev
      ensures NextsMirror(Repr + {x}) && PrevsMirror(Repr + {x})
      ensures nexts == old(nexts[prevs[latest] := x][x := latest])
      ensures prevs == old(prevs[x := prevs[latest]][latest := x])
    {
      ghost var newest := latest.prev;
      latest.prev.next := x;
      x.prev := latest.prev;
      x.next := latest;
      latest.prev := x;
      nexts, prevs := nexts[newest := x][x := latest], prevs[x := newest][latest := x];
      forall r | r in Repr + {x} ensures r in nexts && r.next == nexts[r] {
        if r != x && r != newest {
          assert r.next == old(r.next);
        }
      }
      forall r | r in Repr + {x} ensures r in prevs && r.prev == prevs[r] {
        if r != x && r != latest {
          assert r.prev == old(r.prev);
        }
      }
    }

    /** The four writes of processSession that make `x` the newest element of the list of
        the user whose sentinel is `sentinel`. */
    method LinkAsNewestOfUser(sentinel: SessionRecord, x: SessionRecord)
      requires NextUsersMirror(Repr) && PrevUsersMirror(Repr)
      requires sentinel in Repr && sentinel.prevUserRecord in Repr && x !in Repr
      modifies this`nextUsers, this`prevUsers, sentinel.prevUserRecord`nextUserRecord
      modifies x`prevUserRecord, x`nextUserRecord, sentinel`prevUserRecord
      ensures NextUsersMirror(Repr + {x}) && PrevUsersMirror(Repr + {x})
      ensures nextUsers == old(nextUsers[prevUsers[sentinel] := x][x := sentinel])
      ensures prevUsers == old(prevUsers[x := prevUsers[sentinel]][sentinel := x])
    {
      ghost var newest := sentinel.prevUserRecord;
      sentinel.prevUserRecord.nextUserRecord := x;
      x.prevUserRecord := sentinel.prevUserRecord;
      x.nextUserRecord := sentinel;
      sentinel.prevUserRecord := x;
      nextUsers, prevUsers := nextUsers[newest := x][x := sentinel], prevUsers[x := newest][sentinel := x];
      forall r | r in Repr + {x} ensures r in nextUsers && r.nextUserRecord == nextUsers[r] {
        if r != x && r != newest {
          assert r.nextUserRecord == old(r.nextUserRecord);
        }
      }
      forall r | r in Repr + {x} ensures r in prevUsers && r.prevUserRecord == prevUsers[r] {
        if r != x && r != sentinel {
          assert r.prevUserRecord == old(r.prevUserRecord);
        }
      }
    }

    /** createAllDurationsList: sweeps, then collects the durations of the global list. */
    method CreateAllDurationsList(now: int) returns (result: seq<int>)
      requires Valid()
      modifies this, Repr
      ensures Valid() && Repr == old(Repr)
      ensures Sessions() == Sweep(old(Sessions()), now - statPeriod)
      ensures forall u | u in users :: u in old(users) && users[u] == old(users)[u]
      ensures result == Durations(Sessions())
    {
      RemoveExpiredRecords(now);
      result := AllDurations();
    }

    /** The walk of createAllDurationsList: the global list from oldest to newest. */
    method AllDurations() returns (result: seq<int>)
      requires Valid()
      ensures result == Durations(Sessions())
    {
      result := [];
      var sessionRecord := latest.next;
      ghost var i := 0;
      while sessionRecord != latest
        invariant 0 <= i <= |records|
        invariant sessionRecord == if i < |records| then records[i] else latest
        invariant |result| == i && forall k | 0 <= k < i :: result[k] == records[k].duration
        decreases |records| - i
      {
        result := result + [sessionRecord.duration];
        sessionRecord := sessionRecord.next;
        i := i + 1;
      }
      DurationsOfRecords(records, result);
    }

    /** createDurationsList: sweeps, then returns nothing for a user without a bucket (the
        source also deletes that absent key, which leaves the map as it is), and otherwise
        collects the durations of that user's list. */
    method CreateDurationsList(userId: string, now: int) returns (result: seq<int>)
      requires Valid()
      modifies this, Repr
      ensures Valid() && Repr == old(Repr)
      ensures Sessions() == Sweep(old(Sessions()), now - statPeriod)
      ensures forall u | u in users :: u in old(users) && users[u] == old(users)[u]
      ensures result == Durations(ForUser(Sessions(), userId))
      ensures userId !in users ==> result == []
    {
      RemoveExpiredRecords(now);
      if userId !in users {
        BucketsAreLiveUsers();
        return [];
      }
      result := UserDurations(userId);
    }

    /** The walk of createDurationsList: one user's list from oldest to newest. */
    method UserDurations(userId: string) returns (result: seq<int>)
      requires Valid() && userId in users
      ensures result == Durations(ForUser(Sessions(), userId))
    {
      result := [];
      var userInfo := users[userId];
      ghost var list := UserRecords(records, userId);
      UserRecordsSound(records, userId);
      var sessionRecord := userInfo.latest.nextUserRecord;
      ghost var i := 0;
      while sessionRecord != userInfo.latest
        invariant 0 <= i <= |list|
        invariant sessionRecord == if i < |list| then list[i] else userInfo.latest
        invariant |result| == i && forall k | 0 <= k < i :: result[k] == list[k].duration
        decreases |list| - i
      {
        result := result + [sessionRecord.duration];
        sessionRecord := sessionRecord.nextUserRecord;
        i := i + 1;
      }
      DurationsOfRecords(list, result);
      SessionsOfUserRecords(records, userId);
    }

    /** One access of the registrar's loop: an insert is processed, a query answered with
        all durations. */
    method Apply(op: Access)
      requires Valid()
      modifies this, Repr
      ensures Valid() && fresh(Repr - old(Repr))
      ensures Sessions() == AfterAccess(old(Sessions()), op, statPeriod)
    {
      ghost var before := Sessions();
      match op
      case Insert(x, now) =>
        ProcessSession(x, now);
        AfterInsert(Sessions(), before, op, statPeriod);
      case Query(now) =>
        var durations := CreateAllDurationsList(now);
        AfterQuery(Sessions(), before, op, statPeriod);
    }

    /** The dispatch of one request in the registrar's loop: an empty user id asks for the
        durations of all live sessions, any other for that user's. */
    method Serve(request: SessionsInfo, now: int) returns (response: SessionsInfo)
      requires Valid()
      modifies this, Repr
      ensures Valid() && Repr == old(Repr)
      ensures Sessions() == Sweep(old(Sessions()), now - statPeriod)
      ensures forall u | u in users :: u in old(users) && users[u] == old(users)[u]
      ensures response.userId == request.userId
      ensures response.durations
           == if |request.userId| == 0 then Durations(Sessions())
              else Durations(ForUser(Sessions(), request.userId))
    {
      var durations;
      if |request.userId| == 0 {
        durations := CreateAllDurationsList(now);
      } else {
        durations := CreateDurationsList(request.userId, now);
      }
      response := request.(durations := durations);
    }
  }

  /** The registrar's loop over a sequence of accesses, starting from an empty registrar:
      each insert is a processSession and each query a createAllDurationsList at its own
      time. The registrar then holds what Replay gives, and so, when the clock does not go
      back and sessions arrive in order of end time, exactly the sessions inside the
      window. */
  method RunAccesses(ops: seq<Access>, statPeriod: int) returns (r: SessionsRecords)
    ensures r.Valid() && r.statPeriod == statPeriod
    ensures r.Sessions() == Replay(ops, statPeriod)
    ensures ops != [] && NowsNonDecreasing(ops) && NonDecreasing(Inserted(ops)) ==>
      r.Sessions() == Live(Inserted(ops), ops[|ops| - 1].now - statPeriod)
  {
    r := new SessionsRecords(statPeriod);
    for i := 0 to |ops|
      invariant r.Valid() && fresh(r.Repr) && r.statPeriod == statPeriod
      invariant r.Sessions() == Replay(ops[..i], statPeriod)
    {
      ReplayStep(ops, i, statPeriod);
      r.Apply(ops[i]);
    }
    assert ops[..|ops|] == ops;
    if ops != [] && NowsNonDecreasing(ops) && NonDecreasing(Inserted(ops)) {
      ExpiryInvariant(ops, statPeriod);
    }
  }
}
