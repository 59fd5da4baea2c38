/** The read state of notices: direct ones, each of one user, and broadcasts, which all share. */
module Notices {
  import opened Wrappers

  datatype NoticeType = Custom | CustomBroadcast | System

  datatype Notice = Notice(
    kind: NoticeType,
    userId: Option<nat>,
    createdBy: Option<nat>,
    ref: Option<(nat, nat)>,         // the type and the id of what it is about
    readAt: Option<int>,
    dismissedBy: set<nat>,
    expiresAt: Option<int>,
    updatedAt: int)

  /** What every stored notice is validated to be. */
  predicate IsValid(n: Notice) {
    && (n.kind.Custom? ==> n.createdBy.Some?)
    && (if n.kind.CustomBroadcast? then n.userId.None? && n.readAt.None?
        else n.userId.Some? && (n.readAt.Some? ==> n.userId.value in n.dismissedBy))
  }

  predicate IsUnexpired(n: Notice, now: int) { n.expiresAt.None? || now < n.expiresAt.value }

  /** Whether a notice is among those a user sees: broadcast, or sent to the user. */
  predicate IsFor(n: Notice, user: nat) { n.userId.None? || n.userId == Some(user) }

  predicate IsReadBy(n: Notice, user: nat) { user in n.dismissedBy }

  // ---- one notice's changes ----

  function WithReadStatus(n: Notice, user: nat, isRead: bool, now: int): Notice {
    var dismissed := if isRead then n.dismissedBy + {user} else n.dismissedBy - {user};
    if n.kind.CustomBroadcast? then n.(dismissedBy := dismissed, updatedAt := now)
    else n.(dismissedBy := dismissed, updatedAt := now, readAt := if isRead then Some(now) else None)
  }

  /** A notice cleared: a broadcast is expired, and a direct one also read by its recipient. */
  function WithCleared(n: Notice, now: int): Notice {
    if n.kind.CustomBroadcast? || n.userId.None? then n.(expiresAt := Some(now), updatedAt := now)
    else n.(dismissedBy := n.dismissedBy + {n.userId.value}, readAt := Some(now), expiresAt := Some(now), updatedAt := now)
  }

  // ---- the store's update of many ----

  function Updated(notices: map<nat, Notice>, matches: Notice -> bool, change: Notice -> Notice): map<nat, Notice> {
    map id | id in notices :: if matches(notices[id]) then change(notices[id]) else notices[id]
  }

  function Matched(notices: map<nat, Notice>, matches: Notice -> bool): set<nat> {
    set id | id in notices && matches(notices[id])
  }

  /** What an update of many counts: the records it changes. */
  function Changed(notices: map<nat, Notice>, matches: Notice -> bool, change: Notice -> Notice): set<nat> {
    set id | id in notices && matches(notices[id]) && change(notices[id]) != notices[id]
  }

  // ---- the filters ----

  function OfUser(user: nat, isRead: bool, now: int): Notice -> bool {
    (n: Notice) => IsUnexpired(n, now) && IsFor(n, user) && IsReadBy(n, user) == isRead
  }

  function Unread(refs: map<nat, set<nat>>, now: int): Notice -> bool {
    (n: Notice) => IsUnexpired(n, now) && n.readAt.None? && n.ref.Some? && n.ref.value.0 in refs
                   && n.ref.value.1 in refs[n.ref.value.0] && (n.expiresAt.None? || n.expiresAt.value >= now)
  }

  function Broadcast(matches: Notice -> bool): Notice -> bool { (n: Notice) => matches(n) && n.kind.CustomBroadcast? }

  function Direct(matches: Notice -> bool): Notice -> bool { (n: Notice) => matches(n) && !n.kind.CustomBroadcast? }

  function To(matches: Notice -> bool, user: nat): Notice -> bool { (n: Notice) => matches(n) && n.userId == Some(user) }

  function ToAnyOf(matches: Notice -> bool, users: set<nat>): Notice -> bool {
    (n: Notice) => matches(n) && n.userId.Some? && n.userId.value in users
  }

  function SettingRead(user: nat, isRead: bool, now: int): Notice -> Notice {
    (n: Notice) => WithReadStatus(n, user, isRead, now)
  }

  function Clearing(now: int): Notice -> Notice { (n: Notice) => WithCleared(n, now) }

  function ExpiringBroadcast(now: int): Notice -> Notice {
    (n: Notice) => n.(expiresAt := Some(now), updatedAt := now)
  }

  function MarkingRead(user: nat, now: int): Notice -> Notice {
    (n: Notice) => n.(dismissedBy := n.dismissedBy + {user}, readAt := Some(now), expiresAt := Some(now), updatedAt := now)
  }

  /** Whether two updates, one after the other, change each notice of a filter once. */
  ghost predicate Halves(p: Notice -> bool, first: Notice -> Notice, q: Notice -> bool, second: Notice -> Notice,
                         all: Notice -> bool, change: Notice -> Notice)
  {
    && (forall n: Notice :: all(n) <==> p(n) || q(n))
    && (forall n: Notice :: p(n) ==> !q(n) && !q(first(n)) && first(n) == change(n) && first(n) != n)
    && (forall n: Notice :: q(n) ==> second(n) == change(n) && second(n) != n)
  }

  lemma HalvesMakeWhole(notices: map<nat, Notice>, p: Notice -> bool, first: Notice -> Notice, q: Notice -> bool,
                        second: Notice -> Notice, all: Notice -> bool, change: Notice -> Notice)
    requires Halves(p, first, q, second, all, change)
    ensures var between := Updated(notices, p, first);
      && Updated(between, q, second) == Updated(notices, all, change)
      && |Matched(notices, p)| == |Changed(notices, p, first)|
      && |Changed(notices, p, first)| + |Changed(between, q, second)| == |Matched(notices, all)|
  {
    var between := Updated(notices, p, first);
    assert Changed(notices, p, first) == Matched(notices, p);
    assert Changed(between, q, second) == Matched(notices, q);
    HalvesAreParts(notices, p, q, all);
    assert Updated(between, q, second) == Updated(notices, all, change);
  }

  lemma HalvesAreParts(notices: map<nat, Notice>, p: Notice -> bool, q: Notice -> bool, all: Notice -> bool)
    requires (forall n: Notice :: all(n) <==> p(n) || q(n)) && forall n: Notice :: p(n) ==> !q(n)
    ensures |Matched(notices, p)| + |Matched(notices, q)| == |Matched(notices, all)|
  {
    var a, b := Matched(notices, p), Matched(notices, q);
    assert a + b == Matched(notices, all) && a !! b;
  }

  lemma ReadHalves(user: nat, isRead: bool, now: int)
    ensures var filter, change := OfUser(user, !isRead, now), SettingRead(user, isRead, now);
      Halves(Broadcast(filter), change, Direct(filter), change, filter, change)
  {
    var filter, change := OfUser(user, !isRead, now), SettingRead(user, isRead, now);
    forall n: Notice | filter(n) ensures change(n) != n && change(n).kind == n.kind {
      assert IsReadBy(change(n), user) == isRead;
    }
  }

  lemma ClearHalves(refs: map<nat, set<nat>>, now: int)
    ensures var filter := Unread(refs, now);
      Halves(Broadcast(filter), ExpiringBroadcast(now), Direct(filter), Clearing(now), filter, Clearing(now))
  {
  }

  /** Filters of direct notices that have not expired. */
  ghost predicate IsDirectFilter(filter: Notice -> bool, now: int) {
    forall n: Notice :: filter(n) ==> !n.kind.CustomBroadcast? && IsUnexpired(n, now)
  }

  lemma UserHalves(filter: Notice -> bool, users: set<nat>, user: nat, now: int)
    requires user !in users && IsDirectFilter(filter, now)
    ensures Halves(ToAnyOf(filter, users), Clearing(now), To(filter, user), MarkingRead(user, now),
                   ToAnyOf(filter, users + {user}), Clearing(now))
  {
    forall n: Notice | filter(n) && n.userId.Some? ensures !filter(WithCleared(n, now)) && WithCleared(n, now) != n {
      assert !IsUnexpired(WithCleared(n, now), now);
    }
  }

  /** The users a filter's notices are sent to. */
  function Recipients(notices: map<nat, Notice>, filter: Notice -> bool): set<nat> {
    set id | id in notices && filter(notices[id]) && notices[id].userId.Some? :: notices[id].userId.value
  }

  /** The notices of a filter, once those of some users are cleared. */
  ghost function ClearedOf(notices: map<nat, Notice>, filter: Notice -> bool, users: set<nat>, now: int): map<nat, Notice> {
    Updated(notices, ToAnyOf(filter, users), Clearing(now))
  }

  ghost function CountOf(notices: map<nat, Notice>, filter: Notice -> bool, users: set<nat>): nat {
    |Matched(notices, ToAnyOf(filter, users))|
  }

  lemma NoUser(notices: map<nat, Notice>, filter: Notice -> bool, now: int)
    ensures ClearedOf(notices, filter, {}, now) == notices && Matched(notices, ToAnyOf(filter, {})) == {}
  {
  }

  lemma NextUser(notices: map<nat, Notice>, filter: Notice -> bool, users: set<nat>, user: nat, now: int)
    requires user !in users && IsDirectFilter(filter, now)
    ensures var before := ClearedOf(notices, filter, users, now);
      && Updated(before, To(filter, user), MarkingRead(user, now)) == ClearedOf(notices, filter, users + {user}, now)
      && |Matched(notices, ToAnyOf(filter, users))| + |Changed(before, To(filter, user), MarkingRead(user, now))|
         == |Matched(notices, ToAnyOf(filter, users + {user}))|
  {
    UserHalves(filter, users, user, now);
    HalvesMakeWhole(notices, ToAnyOf(filter, users), Clearing(now), To(filter, user), MarkingRead(user, now),
                    ToAnyOf(filter, users + {user}), Clearing(now));
  }

  lemma AllUsers(notices: map<nat, Notice>, filter: Notice -> bool, now: int)
    requires forall id :: id in notices && filter(notices[id]) ==> notices[id].userId.Some?
    ensures ClearedOf(notices, filter, Recipients(notices, filter), now) == Updated(notices, filter, Clearing(now))
    ensures Matched(notices, ToAnyOf(filter, Recipients(notices, filter))) == Matched(notices, filter)
  {
  }

  lemma OneLess(all: set<nat>, left: set<nat>, user: nat)
    requires left <= all && user in left
    ensures all - (left - {user}) == all - left + {user}
  {
  }

  lemma NoneLess(all: set<nat>)
    ensures all - all == {} && all - {} == all
  {
  }

  class NoticeService {
    var notices: map<nat, Notice>

    predicate Valid()
      reads this
    {
      forall id :: id in notices ==> IsValid(notices[id])
    }

    /** Sets whether a user has read a notice, or finds none of the id to read. */
    method SetReadStatus(id: nat, user: nat, isRead: bool, now: int) returns (r: Result<Notice>)
      requires Valid()
      modifies this
      ensures Valid()
      ensures var isFound := id in old(notices) && IsUnexpired(old(notices)[id], now) && IsFor(old(notices)[id], user);
        if !isFound then r == Err(NotFound) && notices == old(notices)
        else
          && notices == old(notices)[id := WithReadStatus(old(notices)[id], user, isRead, now)]
          && r == Ok(notices[id]) && (IsReadBy(notices[id], user) <==> isRead)
    {
      var isFound := id in notices && IsUnexpired(notices[id], now) && IsFor(notices[id], user);
      if isFound && notices[id].kind.CustomBroadcast? {
        var dismissed := if isRead then notices[id].dismissedBy + {user} else notices[id].dismissedBy - {user};
        notices := notices[id := notices[id].(dismissedBy := dismissed, updatedAt := now)];
        return Ok(notices[id]);
      }
      if isFound && !notices[id].kind.CustomBroadcast? {
        var dismissed := if isRead then notices[id].dismissedBy + {user} else notices[id].dismissedBy - {user};
        notices := notices[id := notices[id].(
          dismissedBy := dismissed, updatedAt := now, readAt := if isRead then Some(now) else None)];
        return Ok(notices[id]);
      }
      return Err(NotFound);
    }

    method UpdateMany(matches: Notice -> bool, change: Notice -> Notice) returns (count: nat)
      modifies this
      ensures notices == Updated(old(notices), matches, change)
      ensures count == |Changed(old(notices), matches, change)|
    {
      count := |Changed(notices, matches, change)|;
      notices := Updated(notices, matches, change);
    }

    /** Marks all of a user's notices, and counts those it marked: every one was marked otherwise. */
    method SetReadStatusMany(user: nat, isRead: bool, now: int) returns (count: nat)
      requires Valid()
      modifies this
      ensures Valid()
      ensures notices == Updated(old(notices), OfUser(user, !isRead, now), SettingRead(user, isRead, now))
      ensures count == |Matched(old(notices), OfUser(user, !isRead, now))|
    {
      var filter, change := OfUser(user, !isRead, now), SettingRead(user, isRead, now);
      ReadHalves(user, isRead, now);
      HalvesMakeWhole(notices, Broadcast(filter), change, Direct(filter), change, filter, change);
      var broadcasts := UpdateMany(Broadcast(filter), change);
      var directs := UpdateMany(Direct(filter), change);
      count := broadcasts + directs;
    }

    method MarkRecipient(filter: Notice -> bool, user: nat, now: int, ghost before: map<nat, Notice>,
                         ghost all: set<nat>, ghost left: set<nat>)
      returns (count: nat)
      requires IsDirectFilter(filter, now) && left <= all && user in left
      requires notices == ClearedOf(before, filter, all - left, now)
      modifies this
      ensures notices == ClearedOf(before, filter, all - (left - {user}), now)
      ensures CountOf(before, filter, all - left) + count == CountOf(before, filter, all - (left - {user}))
    {
      OneLess(all, left, user);
      NextUser(before, filter, all - left, user, now);
      count := UpdateMany(To(filter, user), MarkingRead(user, now));
    }

    method MarkDirectNoticesRead(filter: Notice -> bool, now: int) returns (count: nat)
      requires IsDirectFilter(filter, now) && forall id :: id in notices && filter(notices[id]) ==> notices[id].userId.Some?
      modifies this
      ensures notices == Updated(old(notices), filter, Clearing(now))
      ensures count == |Matched(old(notices), filter)|
    {
      var userIds := Recipients(notices, filter);
      ghost var before, all := notices, userIds;
      count := 0;
      NoUser(before, filter, now);
      NoneLess(all);
      while userIds != {}
        invariant userIds <= all
        invariant notices == ClearedOf(before, filter, all - userIds, now)
        invariant count == CountOf(before, filter, all - userIds)
        decreases userIds
      {
        var user :| user in userIds;
        var n := MarkRecipient(filter, user, now, before, all, userIds);
        count := count + n;
        userIds := userIds - {user};
      }
      NoneLess(all);
      AllUsers(before, filter, now);
    }

    /** Clears the unread notices about the references: every one once, and no other. */
    method ClearNoticesByReference(refs: map<nat, set<nat>>, now: int) returns (count: nat)
      requires Valid()
      modifies this
      ensures Valid()
      ensures notices == Updated(old(notices), Unread(refs, now), Clearing(now))
      ensures count == |Matched(old(notices), Unread(refs, now))|
    {
      var filter := Unread(refs, now);
      if refs == map[] {
        assert Matched(notices, filter) == {};
        assert notices == Updated(notices, filter, Clearing(now));
        return 0;
      }
      ghost var before := notices;
      ClearHalves(refs, now);
      HalvesMakeWhole(before, Broadcast(filter), ExpiringBroadcast(now), Direct(filter), Clearing(now), filter, Clearing(now));
      count := UpdateMany(Broadcast(filter), ExpiringBroadcast(now));
      ClearedAreAll(notices, Direct(filter), now);
      var directs := MarkDirectNoticesRead(Direct(filter), now);
      count := count + directs;
      ClearingKeepsValid(before, filter, now);
    }
  }

  lemma ClearedAreAll(notices: map<nat, Notice>, filter: Notice -> bool, now: int)
    requires IsDirectFilter(filter, now)
    ensures Changed(notices, filter, Clearing(now)) == Matched(notices, filter)
  {
  }

  lemma ClearingKeepsValid(notices: map<nat, Notice>, filter: Notice -> bool, now: int)
    requires forall id :: id in notices ==> IsValid(notices[id])
    ensures forall id :: id in notices ==> IsValid(Updated(notices, filter, Clearing(now))[id])
  {
  }

  /** After all of a user's notices are marked read, or unread, none of theirs is marked otherwise. */
  lemma NoneIsLeft(notices: map<nat, Notice>, user: nat, isRead: bool, now: int)
    ensures Matched(Updated(notices, OfUser(user, !isRead, now), SettingRead(user, isRead, now)), OfUser(user, !isRead, now)) == {}
  {
    forall n: Notice | OfUser(user, !isRead, now)(n)
      ensures !OfUser(user, !isRead, now)(WithReadStatus(n, user, isRead, now))
    {
      assert IsReadBy(WithReadStatus(n, user, isRead, now), user) == isRead;
    }
  }

  // ---- every run ----

  datatype Action =
    | SetOne(id: nat, user: nat, isRead: bool)
    | SetMany(user: nat, isRead: bool)
    | Clear(refs: map<nat, set<nat>>)
    | Publish(id: nat, notice: Notice)
    | Delete(id: nat)

  datatype Timed = Timed(at: int, action: Action)

  function Next(notices: map<nat, Notice>, t: Timed): map<nat, Notice> {
    match t.action
    case SetOne(id, user, isRead) =>
      if id in notices && IsUnexpired(notices[id], t.at) && IsFor(notices[id], user)
      then notices[id := WithReadStatus(notices[id], user, isRead, t.at)] else notices
    case SetMany(user, isRead) => Updated(notices, OfUser(user, !isRead, t.at), SettingRead(user, isRead, t.at))
    case Clear(refs) => Updated(notices, Unread(refs, t.at), Clearing(t.at))
    case Publish(id, n) => if IsValid(n) then notices[id := n] else notices
    case Delete(id) => notices - {id}
  }

  function Run(actions: seq<Timed>): map<nat, Notice> {
    if actions == [] then map[] else Next(Run(actions[..|actions| - 1]), actions[|actions| - 1])
  }

  /** Every stored notice stays valid, over every run: no broadcast is ever read or anyone's, and
      a direct notice that is read holds its own recipient among those who dismissed it. */
  lemma {:induction false} NoticesStayValid(actions: seq<Timed>)
    ensures forall id :: id in Run(actions) ==> IsValid(Run(actions)[id])
  {
    if actions != [] {
      NoticesStayValid(actions[..|actions| - 1]);
    }
  }

  /** Marking all read and then all unread gives every other user the same notices as before, and
      this user none that is read. */
  lemma OthersAreLeftAlone(notices: map<nat, Notice>, user: nat, other: nat, isRead: bool, now: int)
    requires user != other
    ensures var after := Updated(notices, OfUser(user, !isRead, now), SettingRead(user, isRead, now));
      && after.Keys == notices.Keys
      && forall id :: id in notices ==>
           && (IsFor(after[id], other) <==> IsFor(notices[id], other))
           && (IsReadBy(after[id], other) <==> IsReadBy(notices[id], other))
           && after[id].expiresAt == notices[id].expiresAt
           && (notices[id].userId == Some(other) ==> after[id] == notices[id])
  {
  }

  /** Clearing what is about some references leaves nothing of it to clear, nor for anyone to see. */
  lemma ClearedIsGone(notices: map<nat, Notice>, refs: map<nat, set<nat>>, now: int)
    ensures var after := Updated(notices, Unread(refs, now), Clearing(now));
      && Matched(after, Unread(refs, now)) == {}
      && forall id, later :: id in Matched(notices, Unread(refs, now)) && now <= later ==> !IsUnexpired(after[id], later)
  {
  }
}
