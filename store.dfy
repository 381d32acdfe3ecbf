/** The persisted-notification store of the manager as a value: the persisted
    notifications, the per-key read sets, and the expiration monitors with
    their abort flags. Each operation of the store is a function from the old
    store to the new store and the events it fires; the Manager class proves
    its methods against these functions. */
module PersistedStore {
  import opened NotificationTypes

  /** Identifies one expiration monitor (one goroutine and its abort channel). */
  type MonitorId = nat

  /** A persisted notification and the monitor that will clear it on expiry. */
  datatype Entry = Entry(notification: Notification, monitor: MonitorId)

  /** An expiration monitor: the key it clears on expiry (that of the
      notification it watches) and whether its abort channel is closed. */
  datatype Monitor = Monitor(key: Key, aborted: bool)

  datatype Store = Store(
    persisted: map<Key, Entry>,
    read: map<Key, set<Address>>,
    monitors: map<MonitorId, Monitor>,  // every monitor started so far
    nextMonitor: MonitorId)

  /** The new store and, in order, the events fired on the way. */
  datatype Outcome = Outcome(store: Store, events: seq<Event>)

  /** The monitor is running: started and its abort channel not yet closed. */
  predicate IsOpen(s: Store, m: MonitorId) {
    m in s.monitors && !s.monitors[m].aborted
  }

  /** Both maps have the same keys; every entry sits under its own
      notification's key; every entry has its own running monitor, and every
      running monitor belongs to the entry under its key. */
  ghost predicate Valid(s: Store) {
    && s.persisted.Keys == s.read.Keys
    && (forall k :: k in s.persisted ==> s.persisted[k].notification.key == Some(k))
    && (forall k :: k in s.persisted ==>
          s.persisted[k].monitor in s.monitors && s.monitors[s.persisted[k].monitor] == Monitor(k, false))
    && (forall m :: m in s.monitors ==> m < s.nextMonitor)
    && (forall m :: m in s.monitors && !s.monitors[m].aborted ==>
          s.monitors[m].key in s.persisted && s.persisted[s.monitors[m].key].monitor == m)
  }

  /** `t` has the same entries and read sets as `s` on every key outside `keys`. */
  ghost predicate AgreeOutside(s: Store, t: Store, keys: set<Key>) {
    forall k :: k !in keys ==>
      && (k in t.persisted <==> k in s.persisted)
      && (k in t.read <==> k in s.read)
      && (k in s.persisted ==> t.persisted[k] == s.persisted[k])
      && (k in s.read ==> t.read[k] == s.read[k])
  }

  /** The store of a new manager. */
  function Empty(): (s: Store)
    ensures Valid(s) && s.persisted == map[] && s.read == map[]
  {
    Store(map[], map[], map[], 0)
  }

  /** Closes a running monitor's abort channel. Closing a channel twice panics,
      so the monitor must still be running. */
  function CancelMonitor(s: Store, m: MonitorId): Store
    requires IsOpen(s, m)
  {
    s.(monitors := s.monitors[m := s.monitors[m].(aborted := true)])
  }

  /** Removes `key` from both maps, cancelling its monitor and firing one
      cleared event, when it is persisted; otherwise changes nothing. */
  function Clear(s: Store, key: Key): (r: Outcome)
    requires Valid(s)
    ensures Valid(r.store)
    ensures key !in r.store.persisted && key !in r.store.read
    ensures key !in s.persisted ==> r == Outcome(s, [])
    ensures key in s.persisted ==>
      && r.events == [Cleared(key)]
      && r.store.monitors == CancelMonitor(s, s.persisted[key].monitor).monitors
    ensures AgreeOutside(s, r.store, {key})
    ensures r.store.nextMonitor == s.nextMonitor
  {
    if key in s.persisted then
      Outcome(Detach(s, key), [Cleared(key)])
    else
      assert s.read - {key} == s.read;
      Outcome(s.(read := s.read - {key}), [])
  }

  /** Cancels the monitor of the entry under `key` and removes the entry from
      both maps. */
  function Detach(s: Store, key: Key): (r: Store)
    requires Valid(s) && key in s.persisted
    ensures Valid(r)
  {
    var m := s.persisted[key].monitor;
    var t := CancelMonitor(s, m);
    var r := t.(persisted := t.persisted - {key}, read := t.read - {key});
    assert forall m' :: IsOpen(r, m') ==> IsOpen(s, m') && m' != m;
    r
  }

  /** Persists a notification that has a persistency key, superseding the
      entry under that key: the old monitor is cancelled, and when the old
      entry was for a different recipient it is cleared first. The new entry
      starts with an empty read set and a fresh monitor. */
  function Persist(s: Store, n: Notification): (r: Outcome)
    requires Valid(s)
    ensures Valid(r.store)
    ensures n.key.None? ==> r == Outcome(s, [])
    ensures n.key.Some? ==>
      var k := n.key.value;
      && k in r.store.persisted && r.store.persisted[k].notification == n
      && r.store.read[k] == {}
      && r.store.persisted[k].monitor !in s.monitors
      && (k in s.persisted ==>
            var m := s.persisted[k].monitor;
            IsOpen(s, m) && m in r.store.monitors && r.store.monitors[m].aborted)
      && r.events == (if k in s.persisted && s.persisted[k].notification.recipient.ID() != n.recipient.ID()
                      then [Cleared(k)] else [])
      && AgreeOutside(s, r.store, {k})
  {
    match n.key
    case None => Outcome(s, [])
    case Some(k) =>
      var before := Release(s, n);
      InsertValid(before.store, n);
      Outcome(Insert(before.store, n), before.events)
  }

  /** The first half of superseding: the entry under the notification's key,
      if any, loses its monitor, and is cleared when it was for a different
      recipient. */
  function Release(s: Store, n: Notification): (r: Outcome)
    requires Valid(s) && n.key.Some?
    ensures Valid(r.store) && n.key.value !in r.store.persisted
    ensures r.store.nextMonitor == s.nextMonitor
    ensures n.key.value in s.persisted ==> r.store.monitors == CancelMonitor(s, s.persisted[n.key.value].monitor).monitors
    ensures n.key.value !in s.persisted ==> r.store.monitors == s.monitors
    ensures r.events == (if n.key.value in s.persisted && s.persisted[n.key.value].notification.recipient.ID() != n.recipient.ID()
                         then [Cleared(n.key.value)] else [])
    ensures AgreeOutside(s, r.store, {n.key.value})
  {
    var k := n.key.value;
    if k !in s.persisted then Outcome(s, [])
    else if s.persisted[k].notification.recipient.ID() != n.recipient.ID() then Clear(s, k)
    else Outcome(Detach(s, k), [])
  }

  /** Persisting as the code does it in place: the superseded entry keeps its
      slot until it is overwritten when the recipient is unchanged. */
  lemma PersistInPlace(s: Store, n: Notification)
    requires Valid(s) && n.key.Some?
    ensures
      var k := n.key.value;
      var t := if k !in s.persisted then s
               else if s.persisted[k].notification.recipient.ID() != n.recipient.ID() then Clear(s, k).store
               else CancelMonitor(s, s.persisted[k].monitor);
      Persist(s, n).store == Insert(t, n)
  {
    var k := n.key.value;
    if k in s.persisted && s.persisted[k].notification.recipient.ID() == n.recipient.ID() {
      var t := CancelMonitor(s, s.persisted[k].monitor);
      var d := Detach(s, k);
      assert Insert(d, n).persisted == Insert(t, n).persisted;
      assert Insert(d, n).read == Insert(t, n).read;
    }
  }

  /** The second half: the notification goes in under its key with an empty
      read set and a freshly started monitor. */
  function Insert(t: Store, n: Notification): Store
    requires n.key.Some?
  {
    var k := n.key.value;
    var m := t.nextMonitor;
    Store(t.persisted[k := Entry(n, m)], t.read[k := {}], t.monitors[m := Monitor(k, false)], m + 1)
  }

  lemma InsertValid(t: Store, n: Notification)
    requires Valid(t) && n.key.Some? && n.key.value !in t.persisted
    ensures Valid(Insert(t, n))
  {
    var r := Insert(t, n);
    var k, m := n.key.value, t.nextMonitor;
    assert m !in t.monitors;
    forall m' | m' in r.monitors && !r.monitors[m'].aborted
      ensures r.monitors[m'].key in r.persisted && r.persisted[r.monitors[m'].key].monitor == m'
    {
      if m' != m {
        assert IsOpen(t, m');
        assert t.monitors[m'].key != k;
      }
    }
  }

  /** Records that `user` has read the notification under `key` and fires the
      user-read event; clears the entry once its recipient is fully contained
      within the users that have read it. Does nothing for an absent or
      anonymous user or a key that is not persisted. */
  function MarkAsRead(s: Store, key: Key, user: User): (r: Outcome)
    requires Valid(s)
    ensures Valid(r.store)
    ensures !IsKnown(user) || key !in s.persisted ==> r == Outcome(s, [])
    ensures IsKnown(user) && key in s.persisted ==>
      var readers := s.read[key] + {user.address};
      var complete := s.persisted[key].notification.recipient.FullyContainedWithin(readers);
      && (complete <==> key !in r.store.persisted)
      && (complete ==> r.events == [UserRead(user.address, key), Cleared(key)])
      && (!complete ==> r.events == [UserRead(user.address, key)] && r.store.read[key] == readers
                        && r.store.persisted == s.persisted && r.store.monitors == s.monitors)
      && AgreeOutside(s, r.store, {key})
  {
    if !IsKnown(user) || key !in s.persisted || key !in s.read then
      Outcome(s, [])
    else
      var readers := s.read[key] + {user.address};
      var t := s.(read := s.read[key := readers]);
      var fired := [UserRead(user.address, key)];
      if s.persisted[key].notification.recipient.FullyContainedWithin(readers) then
        var c := Clear(t, key);
        Outcome(c.store, fired + c.events)
      else
        Outcome(t, fired)
  }

  /** The persisted keys that start with `prefix`. */
  function PrefixedKeys(s: Store, prefix: string): set<Key> {
    set k | k in s.persisted && prefix <= k
  }

  /** The monitors of the entries under `keys`. */
  function MonitorsOf(s: Store, keys: set<Key>): set<MonitorId> {
    set k | k in keys && k in s.persisted :: s.persisted[k].monitor
  }

  /** Removes the entries under `keys` from both maps and cancels their monitors. */
  function ClearKeys(s: Store, keys: set<Key>): Store {
    Store(s.persisted - keys, s.read - keys, Abort(s.monitors, MonitorsOf(s, keys)), s.nextMonitor)
  }

  /** Closes the abort channels of the monitors in `ms`. */
  function Abort(monitors: map<MonitorId, Monitor>, ms: set<MonitorId>): map<MonitorId, Monitor> {
    map m | m in monitors :: if m in ms then monitors[m].(aborted := true) else monitors[m]
  }

  lemma AbortStep(monitors: map<MonitorId, Monitor>, ms: set<MonitorId>, m: MonitorId)
    requires m in monitors
    ensures m in Abort(monitors, ms)
    ensures Abort(monitors, ms)[m := monitors[m].(aborted := true)] == Abort(monitors, ms + {m})
  {
  }

  /** Clearing a prefix clears exactly the keys having it. */
  lemma ClearPrefixIsClearKeys(s: Store, prefix: string)
    requires Valid(s)
    ensures ClearPrefix(s, prefix) == ClearKeys(s, PrefixedKeys(s, prefix))
  {
  }

  /** Clearing no key changes nothing. */
  lemma ClearKeysNone(s: Store)
    ensures ClearKeys(s, {}) == s
  {
    assert MonitorsOf(s, {}) == {};
    assert ClearKeys(s, {}).monitors == s.monitors;
  }

  lemma ClearKeysValid(s: Store, keys: set<Key>)
    requires Valid(s)
    ensures Valid(ClearKeys(s, keys))
    ensures AgreeOutside(s, ClearKeys(s, keys), keys)
  {
    var r := ClearKeys(s, keys);
    var cancelled := MonitorsOf(s, keys);
    forall m | m in r.monitors && !r.monitors[m].aborted
      ensures r.monitors[m].key in r.persisted && r.persisted[r.monitors[m].key].monitor == m
    {
      var k := s.monitors[m].key;
      assert k in s.persisted && s.persisted[k].monitor == m;
    }
  }

  /** Clears every persisted key that starts with `prefix` and nothing else. */
  function ClearPrefix(s: Store, prefix: string): (r: Store)
    requires Valid(s)
    ensures Valid(r)
    ensures forall k :: k in r.persisted <==> k in s.persisted && !(prefix <= k)
    ensures AgreeOutside(s, r, PrefixedKeys(s, prefix))
    ensures forall k :: k in s.persisted && prefix <= k ==>
      s.persisted[k].monitor in r.monitors && r.monitors[s.persisted[k].monitor].aborted
  {
    var keys := PrefixedKeys(s, prefix);
    ClearKeysValid(s, keys);
    var r := ClearKeys(s, keys);
    assert forall k :: k in s.persisted && prefix <= k ==> s.persisted[k].monitor in MonitorsOf(s, keys);
    r
  }

  /** Clearing one more key after a set of keys is the same as clearing the
      larger set: the prefix clear's loop of single clears reaches ClearKeys. */
  lemma ClearKeysStep(s: Store, done: set<Key>, k: Key)
    requires Valid(s) && k in s.persisted && k !in done
    ensures Valid(ClearKeys(s, done))
    ensures Clear(ClearKeys(s, done), k) == Outcome(ClearKeys(s, done + {k}), [Cleared(k)])
  {
    ClearKeysValid(s, done);
    var t := ClearKeys(s, done);
    var m := s.persisted[k].monitor;
    MonitorsOfStep(s, done, k);
    AbortStep(s.monitors, MonitorsOf(s, done), m);
    RemoveOneMore(s.persisted, done, k);
    RemoveOneMore(s.read, done, k);
  }

  lemma MonitorsOfStep(s: Store, done: set<Key>, k: Key)
    requires Valid(s) && k in s.persisted && k !in done
    ensures MonitorsOf(s, done + {k}) == MonitorsOf(s, done) + {s.persisted[k].monitor}
    ensures s.persisted[k].monitor !in MonitorsOf(s, done)
  {
    assert MonitorsOf(s, done + {k}) == MonitorsOf(s, done) + {s.persisted[k].monitor};
  }

  lemma RemoveOneMore<V>(mp: map<Key, V>, done: set<Key>, k: Key)
    ensures mp - done - {k} == mp - (done + {k})
  {
  }

  /** A monitor that was not aborted fires on expiry and clears the key of the
      notification it watches; an aborted monitor exits without effect. */
  function Expire(s: Store, m: MonitorId): (r: Outcome)
    requires Valid(s)
    ensures Valid(r.store)
    ensures !IsOpen(s, m) ==> r == Outcome(s, [])
    ensures IsOpen(s, m) ==>
      var k := s.monitors[m].key;
      && k in s.persisted && s.persisted[k].monitor == m
      && k !in r.store.persisted && r.events == [Cleared(k)]
      && AgreeOutside(s, r.store, {k})
  {
    if IsOpen(s, m) then Clear(s, s.monitors[m].key) else Outcome(s, [])
  }

  /** Clearing is idempotent: a second clear of the same key changes nothing
      and fires nothing. */
  lemma ClearIdempotent(s: Store, key: Key)
    requires Valid(s)
    ensures Clear(Clear(s, key).store, key) == Outcome(Clear(s, key).store, [])
  {
  }

  /** Replay selection: a persisted notification is replayed to a known user
      it is addressed to and who has not read it. */
  predicate Replayable(s: Store, user: User, key: Key) {
    && IsKnown(user)
    && key in s.persisted
    && s.persisted[key].notification.recipient.ContainsUser(user)
    && !(key in s.read && user.address in s.read[key])
  }

  /** The notifications under `keys` that are replayed to `user`. */
  function ReplayedFrom(s: Store, user: User, keys: set<Key>): set<Notification> {
    set k | k in keys && k in s.persisted && Replayable(s, user, k) :: s.persisted[k].notification
  }

  /** The notifications replayed to `user` when it subscribes: each is
      addressed to the user, and is the current one under its own key, which
      the user has not read. An absent or anonymous user is replayed nothing. */
  function ReplaySet(s: Store, user: User): (r: set<Notification>)
    requires Valid(s)
    ensures !IsKnown(user) ==> r == {}
    ensures forall n :: n in r ==>
      && n.recipient.ContainsUser(user) && n.key.Some?
      && n.key.value in s.persisted && s.persisted[n.key.value].notification == n
      && user.address !in s.read[n.key.value]
  {
    ReplayedFrom(s, user, s.persisted.Keys)
  }

  /** Entries carry their own key, so looking at one more key adds at most
      one new notification to the replay. */
  lemma ReplayedFromStep(s: Store, user: User, done: set<Key>, k: Key)
    requires Valid(s) && k in s.persisted && k !in done
    ensures multiset(ReplayedFrom(s, user, done + {k})) ==
      multiset(ReplayedFrom(s, user, done)) +
      (if Replayable(s, user, k) then multiset{s.persisted[k].notification} else multiset{})
  {
    var before := ReplayedFrom(s, user, done);
    var n := s.persisted[k].notification;
    if Replayable(s, user, k) {
      assert ReplayedFrom(s, user, done + {k}) == before + {n};
      assert n !in before;
    } else {
      assert ReplayedFrom(s, user, done + {k}) == before;
    }
  }

  /** Replay completeness: a freshly persisted notification is replayed to
      every user it is addressed to. */
  lemma PersistThenReplay(s: Store, n: Notification, user: User)
    requires Valid(s) && n.key.Some? && n.recipient.ContainsUser(user)
    ensures n in ReplaySet(Persist(s, n).store, user)
  {
    var t := Persist(s, n).store;
    assert Replayable(t, user, n.key.value);
  }

  /** Once a user has marked a key as read it is no longer replayed to it. */
  lemma MarkAsReadEndsReplay(s: Store, key: Key, user: User)
    requires Valid(s) && IsKnown(user)
    ensures !Replayable(MarkAsRead(s, key, user).store, user, key)
  {
  }

  /** Marking as read never makes a notification replayable to anyone. */
  lemma MarkAsReadShrinksReplay(s: Store, key: Key, reader: User, user: User)
    requires Valid(s)
    ensures ReplaySet(MarkAsRead(s, key, reader).store, user) <= ReplaySet(s, user)
  {
    var t := MarkAsRead(s, key, reader).store;
    forall n | n in ReplaySet(t, user) ensures n in ReplaySet(s, user) {
      var k :| k in t.persisted && Replayable(t, user, k) && t.persisted[k].notification == n;
      assert Replayable(s, user, k);
    }
  }

  /** A notification for the group {a, b}: after a reads it stays persisted,
      after b reads it too it is cleared with exactly one cleared event. */
  lemma FullReadConvergence(s: Store, key: Key, name: string, a: Address, b: Address)
    requires Valid(s) && key in s.persisted && s.read[key] == {} && a != b
    requires s.persisted[key].notification.recipient == GroupRecipient(name, {a, b})
    ensures
      var first := MarkAsRead(s, key, KnownUser(a));
      var second := MarkAsRead(first.store, key, KnownUser(b));
      && key in first.store.persisted && first.events == [UserRead(a, key)]
      && key !in second.store.persisted && second.events == [UserRead(b, key), Cleared(key)]
  {
    var first := MarkAsRead(s, key, KnownUser(a));
    assert first.store.read[key] == {a};
    assert !({a, b} <= {a});
  }

  /** One operation on the persisted store, as issued by Notify, MarkAsRead,
      the two clears and the expiry of a monitor. */
  datatype Op =
    | PersistOp(n: Notification)
    | MarkAsReadOp(key: Key, user: User)
    | ClearOp(key: Key)
    | ClearPrefixOp(prefix: string)
    | ExpireOp(monitor: MonitorId)

  function Apply(s: Store, op: Op): (r: Store)
    requires Valid(s)
    ensures Valid(r)
  {
    match op
    case PersistOp(n) => Persist(s, n).store
    case MarkAsReadOp(key, user) => MarkAsRead(s, key, user).store
    case ClearOp(key) => Clear(s, key).store
    case ClearPrefixOp(prefix) => ClearPrefix(s, prefix)
    case ExpireOp(m) => Expire(s, m).store
  }

  /** Any sequence of operations keeps the store valid; in particular the
      persisted notifications and the read sets always have the same keys. */
  function Run(s: Store, ops: seq<Op>): (r: Store)
    requires Valid(s)
    ensures Valid(r)
    ensures r.persisted.Keys == r.read.Keys
    decreases |ops|
  {
    if ops == [] then s else Run(Apply(s, ops[0]), ops[1..])
  }

  /** The abort channels that maybePersistNotification closes, in order, as
      written: when the superseded entry has a different recipient, the clear
      closes its channel and then the superseding code closes it again. */
  function PersistClosesAsWritten(s: Store, n: Notification): (closes: seq<MonitorId>)
    ensures n.key.None? || n.key.value !in s.persisted ==> closes == []
    ensures n.key.Some? && n.key.value in s.persisted ==>
      && (forall i :: 0 <= i < |closes| ==> closes[i] == s.persisted[n.key.value].monitor)
      && |closes| == if s.persisted[n.key.value].notification.recipient.ID() != n.recipient.ID() then 2 else 1
  {
    match n.key
    case None => []
    case Some(k) =>
      if k !in s.persisted then []
      else
        var m := s.persisted[k].monitor;
        var byClear := if s.persisted[k].notification.recipient.ID() != n.recipient.ID() then [m] else [];
        byClear + [m]
  }

  /** Every channel in `closes` is open in `s` and is closed once only. */
  predicate ClosesEachOpenChannelOnce(s: Store, closes: seq<MonitorId>) {
    forall i :: 0 <= i < |closes| ==>
      IsOpen(s, closes[i]) && forall j :: 0 <= j < i ==> closes[j] != closes[i]
  }

  /** As written, superseding an entry for another recipient closes the same
      abort channel twice, which panics. */
  lemma RecipientChangeClosesTwice(s: Store, n: Notification)
    requires Valid(s) && n.key.Some? && n.key.value in s.persisted
    requires s.persisted[n.key.value].notification.recipient.ID() != n.recipient.ID()
    ensures !ClosesEachOpenChannelOnce(s, PersistClosesAsWritten(s, n))
  {
    var closes := PersistClosesAsWritten(s, n);
    assert closes[0] == closes[1];
  }

  /** A concrete case: a group notification under "k" superseded by a
      single-user notification under "k". */
  lemma DoubleCloseExample()
    ensures
      var first := Notification(GroupRecipient("g", {"a"}), Some("k"), "");
      var second := Notification(UserRecipient(KnownUser("a")), Some("k"), "");
      var s := Persist(Empty(), first).store;
      Valid(s) && PersistClosesAsWritten(s, second) == [0, 0]
  {
  }

  /** Corrected: the superseded monitor is the only one cancelled, once, and
      it was still running. */
  lemma PersistCancelsOnce(s: Store, n: Notification, m: MonitorId)
    requires Valid(s) && n.key.Some? && m in s.monitors
    ensures var r := Persist(s, n).store;
      && m in r.monitors
      && (r.monitors[m] != s.monitors[m] <==>
            n.key.value in s.persisted && m == s.persisted[n.key.value].monitor)
      && (r.monitors[m] != s.monitors[m] ==> IsOpen(s, m) && r.monitors[m].aborted)
  {
  }
}
