/** The notification manager: the recipient-group registry and the
    persisted-notification store as fields updated in place, with every
    outgoing event firing appended to `fired`. Each method is proved against
    the functions of RecipientRegistry and PersistedStore, whose own
    contracts and lemmas state what the manager promises. */
module NotificationManager {
  import opened NotificationTypes
  import PS = PersistedStore
  import RR = RecipientRegistry

  class Manager {
    // recipient-group registry
    var recipients: map<RecipientID, RR.Container>
    var recipientAddedCallbacks: map<RR.HookId, User>    // each live subscription's hook, by the user it subscribes
    var recipientAddedCallbacksIdx: RR.HookId
    var cleanupGroups: map<RR.HookId, set<RecipientID>>  // the groups each subscription's cleanup detaches from

    // persisted notifications and read tracking
    var persistedNotifications: map<Key, PS.Entry>
    var readNotifications: map<Key, set<Address>>
    var monitors: map<PS.MonitorId, PS.Monitor>         // expiration monitors started so far
    var nextMonitor: PS.MonitorId

    // every Notify call on onSingleUser, onUserRead, onNotificationCleared and the group events, in order
    var fired: seq<Event>

    function RegistryView(): RR.Registry
      reads this`recipients, this`recipientAddedCallbacks, this`recipientAddedCallbacksIdx, this`cleanupGroups
    {
      RR.Registry(recipients, recipientAddedCallbacks, recipientAddedCallbacksIdx, cleanupGroups)
    }

    function StoreView(): PS.Store
      reads this`persistedNotifications, this`readNotifications, this`monitors, this`nextMonitor
    {
      PS.Store(persistedNotifications, readNotifications, monitors, nextMonitor)
    }

    ghost predicate Valid()
      reads this
    {
      RR.Valid(RegistryView()) && PS.Valid(StoreView())
    }

    /** NewManager. */
    constructor ()
      ensures Valid()
      ensures RegistryView() == RR.Empty() && StoreView() == PS.Empty() && fired == []
    {
      recipients, recipientAddedCallbacks, recipientAddedCallbacksIdx, cleanupGroups := map[], map[], 0, map[];
      persistedNotifications, readNotifications, monitors, nextMonitor := map[], map[], map[], 0;
      fired := [];
    }

    /** The loop of monitor: addRecipient runs on every registry group, and
        each group containing `user` gains a subscriber; returns those
        groups, which the subscription's cleanup detaches from. */
    method AddToContainingGroups(user: User) returns (cleanup: set<RecipientID>)
      modifies this`recipients
      ensures cleanup == RR.ContainingExcept(old(recipients), user, {})
      ensures recipients == RR.Bump(old(recipients), cleanup)
    {
      ghost var r0 := recipients;
      cleanup := {};
      var todo := recipients.Keys;
      RR.BumpNone(r0);
      while todo != {}
        invariant todo <= r0.Keys
        invariant cleanup == RR.ContainingExcept(r0, user, todo)
        invariant recipients == RR.Bump(r0, cleanup)
        decreases todo
      {
        var id :| id in todo;
        var r := recipients[id];
        RR.ContainingExceptStep(r0, user, todo, id);
        if r.recipient.ContainsUser(user) {
          RR.BumpStep(r0, cleanup, id);
          recipients := recipients[id := r.(subs := r.subs + 1)];
          cleanup := cleanup + {id};
        }
        todo := todo - {id};
      }
    }

    /** Subscribes `user` to the registry groups that contain it and registers
        its hook; returns the handle its cleanup takes. */
    method Monitor(user: User) returns (h: RR.HookId)
      requires Valid()
      modifies this`recipients, this`recipientAddedCallbacks, this`recipientAddedCallbacksIdx, this`cleanupGroups
      ensures Valid()
      ensures h == old(recipientAddedCallbacksIdx) && h !in old(recipientAddedCallbacks)
      ensures RegistryView() == RR.Subscribe(old(RegistryView()), user)
    {
      ghost var g0 := RegistryView();
      var cleanup := AddToContainingGroups(user);
      assert cleanup == RR.Containing(g0, user);
      h := recipientAddedCallbacksIdx;
      recipientAddedCallbacks := recipientAddedCallbacks[h := user];
      recipientAddedCallbacksIdx := recipientAddedCallbacksIdx + 1;
      cleanupGroups := cleanupGroups[h := cleanup];
      assert StoreView() == old(StoreView());
      assert RegistryView() == RR.Subscribe(g0, user);
    }

    /** The cleanup functions of a subscription run in turn: each group in
        `fns` loses a subscriber and is deleted once it has none. */
    method RemoveFromGroups(fns: set<RecipientID>)
      requires fns <= recipients.Keys
      modifies this`recipients
      ensures recipients == RR.Drop(old(recipients), fns)
    {
      ghost var r0 := recipients;
      var todo := fns;
      ghost var done: set<RecipientID> := {};
      RR.DropNone(r0);
      while todo != {}
        invariant todo !! done && todo + done == fns
        invariant recipients == RR.Drop(r0, done)
        decreases todo
      {
        var id :| id in todo;
        RR.DropStep(r0, done, id);
        var r := recipients[id];
        r := r.(subs := r.subs - 1);
        recipients := recipients[id := r];
        if r.subs <= 0 {
          recipients := recipients - {id};
        }
        todo := todo - {id};
        done := done + {id};
      }
    }

    /** The cleanup `monitor` returns: removes the subscription's hook and
        detaches it from its groups, deleting those left without subscribers. */
    method Unsubscribe(h: RR.HookId)
      requires Valid() && h in recipientAddedCallbacks
      modifies this`recipients, this`recipientAddedCallbacks, this`cleanupGroups
      ensures Valid()
      ensures RegistryView() == RR.Unsubscribe(old(RegistryView()), h)
    {
      ghost var g0 := RegistryView();
      assert RR.HookOk(g0, h);
      recipientAddedCallbacks := recipientAddedCallbacks - {h};
      RemoveFromGroups(cleanupGroups[h]);
      cleanupGroups := cleanupGroups - {h};
      assert StoreView() == old(StoreView());
      assert RegistryView() == RR.Unsubscribe(g0, h);
    }

    /** Collects, as the replay goroutine delivers them, the persisted
        notifications addressed to `user` that it has not read. */
    method Replay(user: User) returns (replayed: seq<Notification>)
      requires Valid()
      ensures multiset(replayed) == multiset(PS.ReplaySet(StoreView(), user))
    {
      replayed := [];
      if !IsKnown(user) {
        assert PS.ReplaySet(StoreView(), user) == {};
        return;
      }
      var keys := persistedNotifications.Keys;
      ghost var done: set<Key> := {};
      while keys != {}
        invariant keys !! done && keys + done == persistedNotifications.Keys
        invariant multiset(replayed) == multiset(PS.ReplayedFrom(StoreView(), user, done))
        decreases keys
      {
        var key :| key in keys;
        var p := persistedNotifications[key];
        PS.ReplayedFromStep(StoreView(), user, done, key);
        if p.notification.recipient.ContainsUser(user) {
          if !(key in readNotifications && user.address in readNotifications[key]) {
            replayed := replayed + [p.notification];
          }
        }
        ShiftKey(keys, done, key);
        keys := keys - {key};
        done := done + {key};
      }
    }

    /** SubscribeToNotificationsForUser: subscribes first, then replays. */
    method SubscribeToNotificationsForUser(user: User) returns (h: RR.HookId, replayed: seq<Notification>)
      requires Valid()
      modifies this`recipients, this`recipientAddedCallbacks, this`recipientAddedCallbacksIdx, this`cleanupGroups
      ensures Valid()
      ensures h == old(recipientAddedCallbacksIdx)
      ensures RegistryView() == RR.Subscribe(old(RegistryView()), user)
      ensures multiset(replayed) == multiset(PS.ReplaySet(StoreView(), user))
    {
      h := Monitor(user);
      replayed := Replay(user);
    }

    /** Closes a running monitor's abort channel; a second close would panic. */
    method CancelMonitor(m: PS.MonitorId)
      requires PS.IsOpen(StoreView(), m)
      modifies this`monitors
      ensures StoreView() == PS.CancelMonitor(old(StoreView()), m)
    {
      monitors := monitors[m := monitors[m].(aborted := true)];
    }

    /** ClearPersistedNotification: takes the lock and clears `key`. */
    method ClearPersistedNotification(key: Key)
      requires Valid()
      modifies this`persistedNotifications, this`readNotifications, this`monitors, this`fired
      ensures Valid()
      ensures StoreView() == PS.Clear(old(StoreView()), key).store
      ensures fired == old(fired) + PS.Clear(old(StoreView()), key).events
    {
      ClearInsideMutex(key);
    }

    /** clearPersistedNotificationInsideMutex: a persisted entry under `key`
        has its monitor cancelled, is removed and fires the cleared event;
        the read set under `key` is dropped in any case. */
    method ClearInsideMutex(key: Key)
      requires PS.Valid(StoreView())
      modifies this`persistedNotifications, this`readNotifications, this`monitors, this`fired
      ensures StoreView() == PS.Clear(old(StoreView()), key).store
      ensures fired == old(fired) + PS.Clear(old(StoreView()), key).events
    {
      ghost var s0 := StoreView();
      if key in persistedNotifications {
        var existing := persistedNotifications[key];
        CancelMonitor(existing.monitor);
        persistedNotifications := persistedNotifications - {key};
        fired := fired + [Cleared(key)];
      }
      readNotifications := readNotifications - {key};
      ghost var r := PS.Clear(s0, key);
      if key in s0.persisted {
        assert r.store == PS.Detach(s0, key);
      }
      assert StoreView() == r.store;
    }

    /** maybePersistNotification, with the superseded monitor cancelled once:
        by the clear when the recipient changes, directly otherwise. */
    method MaybePersistNotification(n: Notification)
      requires PS.Valid(StoreView())
      modifies this`persistedNotifications, this`readNotifications, this`monitors, this`nextMonitor, this`fired
      ensures StoreView() == PS.Persist(old(StoreView()), n).store
      ensures fired == old(fired) + PS.Persist(old(StoreView()), n).events
    {
      ghost var s0 := StoreView();
      if n.key.None? {
        return;
      }
      var key := n.key.value;
      PS.PersistInPlace(s0, n);
      if key in persistedNotifications {
        var existing := persistedNotifications[key];
        if existing.notification.recipient.ID() != n.recipient.ID() {
          ClearInsideMutex(key);
        } else {
          CancelMonitor(existing.monitor);
        }
      }
      PersistEntry(n);
    }

    /** The new entry under the notification's key: an empty read set and a
        freshly started expiration monitor. */
    method PersistEntry(n: Notification)
      requires n.key.Some?
      modifies this`persistedNotifications, this`readNotifications, this`monitors, this`nextMonitor
      ensures StoreView() == PS.Insert(old(StoreView()), n)
    {
      var key := n.key.value;
      var m := nextMonitor;
      nextMonitor := nextMonitor + 1;
      monitors := monitors[m := PS.Monitor(key, false)];
      persistedNotifications := persistedNotifications[key := PS.Entry(n, m)];
      readNotifications := readNotifications[key := {}];
    }

    /** The loop of Notify over the recipient-added callbacks for a group
        container just created under `id`: each subscription whose user the
        group contains counts towards it and is attached to it. */
    method RunRecipientAddedCallbacks(id: RecipientID)
      requires id in recipients && recipientAddedCallbacks.Keys <= cleanupGroups.Keys
      modifies this`recipients, this`cleanupGroups
      ensures id in recipients && recipients == old(recipients)[id := recipients[id]]
      ensures recipients[id] == old(recipients)[id].(subs := old(recipients)[id].subs +
                                  |RR.MatchingExcept(recipientAddedCallbacks, old(recipients)[id].recipient, {})|)
      ensures cleanupGroups == RR.Attach(old(cleanupGroups), RR.MatchingExcept(recipientAddedCallbacks, old(recipients)[id].recipient, {}), id)
    {
      ghost var r0, c, groups0 := recipients, recipients[id], cleanupGroups;
      var r := recipients[id];
      var todo := recipientAddedCallbacks.Keys;
      RR.AttachNone(groups0, id);
      while todo != {}
        invariant todo <= recipientAddedCallbacks.Keys
        invariant recipients == r0
        invariant r == c.(subs := c.subs + |RR.MatchingExcept(recipientAddedCallbacks, c.recipient, todo)|)
        invariant cleanupGroups == RR.Attach(groups0, RR.MatchingExcept(recipientAddedCallbacks, c.recipient, todo), id)
        decreases todo
      {
        var h :| h in todo;
        RR.MatchingExceptStep(recipientAddedCallbacks, c.recipient, todo, h);
        if r.recipient.ContainsUser(recipientAddedCallbacks[h]) {
          RR.AttachStep(groups0, RR.MatchingExcept(recipientAddedCallbacks, c.recipient, todo), id, h);
          r := r.(subs := r.subs + 1);
          cleanupGroups := cleanupGroups[h := cleanupGroups[h] + {id}];
        }
        todo := todo - {h};
      }
      ghost var matching := RR.MatchingExcept(recipientAddedCallbacks, c.recipient, {});
      assert todo == {};
      assert r == c.(subs := c.subs + |matching|);
      assert cleanupGroups == RR.Attach(groups0, matching, id);
      recipients := recipients[id := r];
    }

    /** The group path of Notify when the group has no container: one is
        created and offered to every subscription through its
        recipient-added callback; it is fired when some subscription took it
        and dropped again otherwise. */
    method AddGroupAndFire(n: Notification)
      requires n.recipient.GroupRecipient? && n.recipient.ID() !in recipients
      requires recipientAddedCallbacks.Keys <= cleanupGroups.Keys
      modifies this`recipients, this`cleanupGroups, this`fired
      ensures var m := RR.Matching(recipientAddedCallbacks, n.recipient);
        && (m == {} ==> recipients == old(recipients) && cleanupGroups == old(cleanupGroups) && fired == old(fired))
        && (m != {} ==> recipients == old(recipients)[n.recipient.ID() := RR.Container(n.recipient, |m|)]
                        && cleanupGroups == RR.Attach(old(cleanupGroups), m, n.recipient.ID())
                        && fired == old(fired) + [GroupFired(n.recipient.ID(), n)])
    {
      ghost var r0, a0 := recipients, cleanupGroups;
      var recipient := n.recipient;
      var id := recipient.ID();
      recipients := recipients[id := RR.Container(recipient, 0)];
      RunRecipientAddedCallbacks(id);
      RR.MatchingExceptNone(recipientAddedCallbacks, recipient);
      if recipients[id].subs != 0 {
        RR.UpdateTwice(r0, id, RR.Container(recipient, 0), recipients[id]);
        fired := fired + [GroupFired(id, n)];
      } else {
        ghost var c := recipients[id];
        recipients := recipients - {id};
        RR.AddThenRemove(r0, id, c);
        RR.AttachNone(a0, id);
      }
    }

    /** Delivers a notification once it is persisted: a single-user
        notification is fired under its user's direct key, a group
        notification on the group's container, created first when missing. */
    method Deliver(n: Notification)
      requires RR.Valid(RegistryView())
      modifies this`recipients, this`cleanupGroups, this`fired
      ensures RegistryView() == RR.Route(old(RegistryView()), n).registry
      ensures fired == old(fired) + RR.Route(old(RegistryView()), n).events
    {
      var recipient := n.recipient;
      if recipient.UserRecipient? {
        fired := fired + [SingleUserFired(DirectKey(recipient.forUser), n)];
        return;
      }
      var id := recipient.ID();
      if id in recipients {
        fired := fired + [GroupFired(id, n)];
        return;
      }
      ghost var g0 := RegistryView();
      RR.AddGroupFields(g0, recipient);
      AddGroupAndFire(n);
      assert RegistryView() == RR.AddGroup(g0, recipient);
    }

    /** Persists the notification if it has a key, then delivers it. */
    method Notify(n: Notification)
      requires Valid()
      modifies this`persistedNotifications, this`readNotifications, this`monitors, this`nextMonitor
      modifies this`recipients, this`cleanupGroups, this`fired
      ensures Valid()
      ensures StoreView() == PS.Persist(old(StoreView()), n).store
      ensures RegistryView() == RR.Route(old(RegistryView()), n).registry
      ensures fired == old(fired) + PS.Persist(old(StoreView()), n).events + RR.Route(old(RegistryView()), n).events
    {
      MaybePersistNotification(n);
      Deliver(n);
    }

    /** Records a read by `user`, firing the user-read event, and clears the
        entry once every user it is addressed to has read it. */
    method MarkAsRead(key: Key, user: User)
      requires PS.Valid(StoreView())
      modifies this`persistedNotifications, this`readNotifications, this`monitors, this`fired
      ensures StoreView() == PS.MarkAsRead(old(StoreView()), key, user).store
      ensures fired == old(fired) + PS.MarkAsRead(old(StoreView()), key, user).events
    {
      if !IsKnown(user) {
        return;
      }
      if key !in persistedNotifications {
        return;
      }
      ghost var s0 := StoreView();
      var p := persistedNotifications[key];
      if key in readNotifications {
        readNotifications := readNotifications[key := readNotifications[key] + {user.address}];
        var usersThatRead := readNotifications[key];
        fired := fired + [UserRead(user.address, key)];
        ghost var t := StoreView();
        assert t == s0.(read := s0.read[key := usersThatRead]);
        if p.notification.recipient.FullyContainedWithin(usersThatRead) {
          ClearInsideMutex(key);
          assert PS.MarkAsRead(s0, key, user) == PS.Outcome(PS.Clear(t, key).store, [UserRead(user.address, key)] + PS.Clear(t, key).events);
          AppendAssoc(old(fired), [UserRead(user.address, key)], PS.Clear(t, key).events);
        } else {
          assert PS.MarkAsRead(s0, key, user) == PS.Outcome(t, [UserRead(user.address, key)]);
        }
      }
    }

    /** Clears every persisted notification whose key starts with `prefix`,
        one key at a time. */
    method ClearPersistedNotificationsHavingKeyPrefix(prefix: string)
      requires Valid()
      modifies this`persistedNotifications, this`readNotifications, this`monitors, this`fired
      ensures Valid()
      ensures StoreView() == PS.ClearPrefix(old(StoreView()), prefix)
      ensures |old(fired)| <= |fired| && fired[..|old(fired)|] == old(fired)
      ensures multiset(fired[|old(fired)|..]) == ClearedEvents(PS.PrefixedKeys(old(StoreView()), prefix))
    {
      ghost var s0 := StoreView();
      ghost var order := ClearPrefixedKeys(prefix);
      PS.ClearPrefixIsClearKeys(s0, prefix);
      AppendSuffix(old(fired), ClearedSeq(order));
      ClearedSeqEvents(order, PS.PrefixedKeys(s0, prefix));
    }

    /** The loop of the prefix clear: visits every persisted key once and
        clears those having the prefix, in the order `order`. */
    method ClearPrefixedKeys(prefix: string) returns (ghost order: seq<Key>)
      requires PS.Valid(StoreView())
      modifies this`persistedNotifications, this`readNotifications, this`monitors, this`fired
      ensures StoreView() == PS.ClearKeys(old(StoreView()), PS.PrefixedKeys(old(StoreView()), prefix))
      ensures fired == old(fired) + ClearedSeq(order)
      ensures Elems(order) == PS.PrefixedKeys(old(StoreView()), prefix) && NoDup(order)
    {
      ghost var s0 := StoreView();
      ghost var done: set<Key> := {};
      order := [];
      ghost var target := PS.PrefixedKeys(s0, prefix);
      PS.ClearKeysNone(s0);
      var keys := persistedNotifications.Keys;
      while keys != {}
        invariant keys <= s0.persisted.Keys
        invariant done == target - keys
        invariant StoreView() == PS.ClearKeys(s0, done)
        invariant fired == old(fired) + ClearedSeq(order)
        invariant Elems(order) == done && NoDup(order)
        decreases keys
      {
        var key :| key in keys;
        MoveKey(target, keys, key);
        if prefix <= key {
          assert key in target;
          ClearOneOf(s0, done, key);
          ClearedSeqSnoc(order, key);
          AppendAssoc(old(fired), ClearedSeq(order), [Cleared(key)]);
          ElemsSnoc(order, key);
          done := done + {key};
          order := order + [key];
        }
        keys := keys - {key};
      }
      assert done == target;
    }

    /** One iteration of the prefix clear: clears `key`, a key of the original
        store `s0` not cleared yet. */
    method ClearOneOf(ghost s0: PS.Store, ghost done: set<Key>, key: Key)
      requires PS.Valid(s0)
      requires StoreView() == PS.ClearKeys(s0, done) && key in s0.persisted && key !in done
      modifies this`persistedNotifications, this`readNotifications, this`monitors, this`fired
      ensures StoreView() == PS.ClearKeys(s0, done + {key})
      ensures fired == old(fired) + [Cleared(key)]
    {
      PS.ClearKeysStep(s0, done, key);
      ClearInsideMutex(key);
    }

    /** The expiry of monitor `m`: a monitor whose abort channel is still open
        clears the key of the notification it watches. */
    method Expire(m: PS.MonitorId)
      requires Valid()
      modifies this`persistedNotifications, this`readNotifications, this`monitors, this`fired
      ensures Valid()
      ensures StoreView() == PS.Expire(old(StoreView()), m).store
      ensures fired == old(fired) + PS.Expire(old(StoreView()), m).events
    {
      if m in monitors && !monitors[m].aborted {
        ClearPersistedNotification(monitors[m].key);
      }
    }

    /** The number of group containers, which is the number of groups some
        live subscription is attached to. */
    method CountRecipients() returns (c: int)
      requires Valid()
      ensures c == |recipients|
      ensures c == |RR.AttachedGroups(RegistryView())|
    {
      RR.RecipientsAreAttachedGroups(RegistryView());
      c := |recipients|;
      assert recipients.Keys == RR.AttachedGroups(RegistryView());
    }
  }

  lemma ShiftKey(keys: set<Key>, done: set<Key>, key: Key)
    requires key in keys && keys !! done
    ensures (keys - {key}) !! (done + {key}) && (keys - {key}) + (done + {key}) == keys + done
  {
  }

  lemma MoveKey(t: set<Key>, keys: set<Key>, key: Key)
    requires key in keys
    ensures key in t ==> (t - keys) + {key} == t - (keys - {key})
    ensures key !in t ==> t - keys == t - (keys - {key})
  {
  }

  lemma AppendAssoc(a: seq<Event>, b: seq<Event>, c: seq<Event>)
    ensures a + b + c == a + (b + c)
  {
  }

  lemma AppendSuffix(a: seq<Event>, b: seq<Event>)
    ensures |a| <= |a + b| && (a + b)[..|a|] == a && (a + b)[|a|..] == b
  {
  }

  /** One cleared event per key. */
  ghost function ClearedEvents(keys: set<Key>): multiset<Event> {
    multiset(set k | k in keys :: Cleared(k))
  }

  lemma ClearedEventsInsert(keys: set<Key>, k: Key)
    requires k !in keys
    ensures ClearedEvents(keys + {k}) == ClearedEvents(keys) + multiset{Cleared(k)}
  {
    var a := set k' | k' in keys :: Cleared(k');
    assert (set k' | k' in keys + {k} :: Cleared(k')) == a + {Cleared(k)};
    assert Cleared(k) !in a;
  }

  /** The cleared events of `order`, in that order. */
  function ClearedSeq(order: seq<Key>): (r: seq<Event>)
    ensures |r| == |order|
  {
    if order == [] then [] else ClearedSeq(order[..|order| - 1]) + [Cleared(order[|order| - 1])]
  }

  lemma ClearedSeqSnoc(order: seq<Key>, k: Key)
    ensures ClearedSeq(order + [k]) == ClearedSeq(order) + [Cleared(k)]
  {
    assert (order + [k])[..|order|] == order;
  }

  /** The keys listed in `order`. */
  ghost function Elems(order: seq<Key>): set<Key> {
    if order == [] then {} else Elems(order[..|order| - 1]) + {order[|order| - 1]}
  }

  /** No key is listed twice in `order`. */
  ghost predicate NoDup(order: seq<Key>) {
    order == [] || (NoDup(order[..|order| - 1]) && order[|order| - 1] !in Elems(order[..|order| - 1]))
  }

  lemma ElemsSnoc(order: seq<Key>, k: Key)
    ensures Elems(order + [k]) == Elems(order) + {k}
    ensures NoDup(order + [k]) <==> NoDup(order) && k !in Elems(order)
  {
    assert (order + [k])[..|order|] == order;
  }

  /** Clearing the keys of `keys` one by one, in any order that lists each
      once, fires one cleared event per key. */
  lemma {:induction false} ClearedSeqEvents(order: seq<Key>, keys: set<Key>)
    requires Elems(order) == keys && NoDup(order)
    ensures multiset(ClearedSeq(order)) == ClearedEvents(keys)
    decreases |order|
  {
    if order == [] {
      assert ClearedEvents(keys) == multiset{};
    } else {
      var init, k := order[..|order| - 1], order[|order| - 1];
      ClearedSeqEvents(init, Elems(init));
      ClearedEventsInsert(Elems(init), k);
    }
  }
}
