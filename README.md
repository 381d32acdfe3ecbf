# Notification manager

A Dafny model of the notification manager of the JungleTV server
(`server/components/notificationmanager/manager.go`). The manager routes
notifications to the users they are for. It also keeps the persistent ones until every user they address has
read them, until they expire, or until they are cleared.

The model has four modules:

- `NotificationTypes` (types.dfy): users, recipients (a single user or a
  named group of addresses), recipient IDs, notifications with their
  optional persistency key, and the `Event` record of one firing of one
  of the manager's event channels (`onSingleUser`, a group container's
  event, `onUserRead`, `onNotificationCleared`).
- `RecipientRegistry` (registry.dfy): the recipients map of group
  containers with their subscriber counts, plus the recipient-added hooks
  of the live subscriptions. It also records the groups whose cleanup
  function each subscription holds. `Valid` is the invariant the
  manager keeps: each container counts exactly the subscriptions whose
  user it contains, and it has at least one. Each subscription is
  attached to exactly the registered groups that contain its user. Subscribing,
  cleaning up and routing a notification are functions on this value.
- `PersistedStore` (store.dfy): the persisted notifications, the per-key
  sets of users who have read them, and the expiration monitors with the
  state of their abort channels. Persisting, marking as read, clearing,
  prefix clearing, expiry and the replay to a new subscriber are functions
  on this value. `Valid` says that every entry has its own running monitor
  and that every running monitor belongs to the entry under its key.
- `NotificationManager` (manager.dfy): the `Manager` class. Its fields are
  the maps of the Go struct, updated in place. An event log `fired`
  records every `Notify` call on the event channels. Each method is
  proved against the registry and store functions. The class invariant is
  `RR.Valid(RegistryView()) && PS.Valid(StoreView())`.

## Model

| member | source | states |
|---|---|---|
| NotificationTypes.DirectKeyReachesAddressee | server/components/notificationmanager/manager.go:118 | a single-user notification is published under exactly the key with which its addressee subscribed |
| NotificationTypes.FullyContainedWithinMonotone | server/components/notificationmanager/manager.go:234-244 | once a recipient is fully read, further reads keep it fully read |
| NotificationTypes.FullyContainedWithinMembers | server/components/notificationmanager/manager.go:241 | a recipient that addresses someone is fully read exactly when every user it contains has read it |
| PersistedStore.Empty | server/components/notificationmanager/manager.go:41-52 | a new manager has no persisted notifications and no read sets, and satisfies the store invariant |
| PersistedStore.Clear | server/components/notificationmanager/manager.go:265-272 | the key is gone from both maps afterwards. A persisted entry has its running monitor aborted and fires exactly one cleared event. A key that is not persisted changes nothing and fires nothing. All other keys are untouched and the invariant is kept |
| PersistedStore.Persist | server/components/notificationmanager/manager.go:188-210 | a notification without a key changes nothing. Otherwise it is stored under its key with an empty read set and a new monitor. The superseded entry's monitor was running and is aborted. A cleared event fires exactly when the superseded entry had another recipient ID. Other keys are untouched and the invariant is kept |
| PersistedStore.Release | server/components/notificationmanager/manager.go:197-202 | the entry under the key is removed and its monitor aborted. It is cleared, with an event, only when the recipient ID changes. Nothing else changes |
| PersistedStore.PersistInPlace | server/components/notificationmanager/manager.go:197-208 | the in-place order of the code gives the same store as Persist: abort (or clear), then overwrite |
| PersistedStore.InsertValid | server/components/notificationmanager/manager.go:203-208 | inserting a fresh entry with a fresh monitor under a free key keeps the store invariant |
| PersistedStore.MarkAsRead | server/components/notificationmanager/manager.go:222-247 | an anonymous or absent user, or a key that is not persisted, changes nothing. Otherwise the reader joins the read set and the user-read event fires. The entry is cleared, firing the cleared event too, exactly when its recipient is then fully read |
| PersistedStore.ClearPrefix | server/components/notificationmanager/manager.go:255-263 | exactly the persisted keys without the prefix remain. Every cleared entry's monitor is aborted, the rest of the store is untouched and the invariant is kept |
| PersistedStore.ClearKeysStep | server/components/notificationmanager/manager.go:258-261 | one more single clear inside the prefix-clear loop equals clearing the larger set of keys, with one cleared event |
| PersistedStore.Expire | server/components/notificationmanager/manager.go:212-220 | taken as one atomic step: a monitor aborted by then does nothing. A running one clears the key of the entry it watches, firing one cleared event, and nothing else |
| PersistedStore.ClearIdempotent | server/components/notificationmanager/manager.go:265-272 | clearing a key a second time changes nothing and fires nothing |
| PersistedStore.ReplaySet | server/components/notificationmanager/manager.go:63-71 | the replay selection: nothing for an absent or anonymous user. Otherwise, only notifications addressed to the user, each current under its own key and not read by the user |
| PersistedStore.ReplayedFromStep | server/components/notificationmanager/manager.go:67-78 | each key visited by the replay loop adds its notification once if it is replayable and nothing otherwise |
| PersistedStore.PersistThenReplay | server/components/notificationmanager/manager.go:63-81 | a notification just persisted is replayed to every user it addresses |
| PersistedStore.MarkAsReadEndsReplay | server/components/notificationmanager/manager.go:71 | after a user marks a key as read, that key is no longer replayed to them |
| PersistedStore.MarkAsReadShrinksReplay | server/components/notificationmanager/manager.go:222-247 | marking as read never adds a notification to anyone's replay |
| PersistedStore.FullReadConvergence | server/components/notificationmanager/manager.go:234-244 | a notification for the group {a, b} survives a's read and is cleared with one cleared event when b reads it |
| PersistedStore.Run | server/components/notificationmanager/manager.go:20-22 | any sequence of persists, reads, clears, prefix clears and expiries keeps the store invariant, in particular equal key sets in the two maps |
| PersistedStore.PersistClosesAsWritten | server/components/notificationmanager/manager.go:197-201 | as written: nothing is closed when no entry is superseded. Otherwise only the superseded monitor's channel is closed: twice when the recipient ID changes, once when it does not |
| PersistedStore.RecipientChangeClosesTwice | server/components/notificationmanager/manager.go:197-201 | as written, superseding an entry that has another recipient closes the same abort channel twice |
| PersistedStore.DoubleCloseExample | server/components/notificationmanager/manager.go:197-201 | a concrete store and notification for which the channels closed, as written, are monitor 0 twice |
| PersistedStore.PersistCancelsOnce | server/components/notificationmanager/manager.go:197-203 | corrected: only the superseded monitor changes, it was running, and it ends aborted |
| RecipientRegistry.Empty | server/components/notificationmanager/manager.go:41-52 | a new manager has no containers and no hooks, and satisfies the registry invariant |
| RecipientRegistry.Subscribe | server/components/notificationmanager/manager.go:89-118 | the hook goes under the next free index. Exactly the groups containing the user gain one subscriber, and the subscription is attached to exactly them. The registry invariant is kept |
| RecipientRegistry.Unsubscribe | server/components/notificationmanager/manager.go:120-128 | the hook is removed. Each attached group loses one subscriber and is deleted exactly when none is left. Other groups are untouched and the invariant is kept |
| RecipientRegistry.AddGroup | server/components/notificationmanager/manager.go:167-184 | a new group container is kept exactly when some live subscription's user is in the group. It then counts those subscriptions, which get attached to it. Otherwise the registry is unchanged |
| RecipientRegistry.AddGroupDiscardsIffNoMatch | server/components/notificationmanager/manager.go:176-184 | the new group's container is discarded, leaving the registry as it was, exactly when no live subscription's user is in the group |
| RecipientRegistry.AttachedIffContains | server/components/notificationmanager/manager.go:95-112 | a subscription holds a group's cleanup exactly when the group is registered and contains its user |
| RecipientRegistry.Route | server/components/notificationmanager/manager.go:152-186 | a single-user notification fires once under the addressee's direct key and leaves the registry alone. A group notification fires on an existing container. A new group is fired only if created. A live subscription receives it exactly when its user is in the group |
| RecipientRegistry.RouteReachesAddressee | server/components/notificationmanager/manager.go:157-160 | a single-user notification reaches every live subscription of its addressee |
| RecipientRegistry.RouteDirectExactly | server/components/notificationmanager/manager.go:131-136 | both directions of direct routing. A notification for a known user reaches a known subscriber exactly when it is that user. Absent and anonymous subscribers all share the empty key, and a known user with an empty address collides with them |
| RecipientRegistry.RecipientsAreAttachedGroups | server/components/notificationmanager/manager.go:179-184 | the registry holds exactly the groups some live subscription is attached to: no container without subscribers is kept |
| RecipientRegistry.LastUnsubscribeRemovesGroup | server/components/notificationmanager/manager.go:103-105 | cleaning up the last subscription attached to a group removes its container |
| NotificationManager.Manager.constructor | server/components/notificationmanager/manager.go:41-52 | the new manager has the empty registry and store, no firings, and satisfies the invariant |
| NotificationManager.Manager.AddToContainingGroups | server/components/notificationmanager/manager.go:110-112 | the loop returns exactly the groups containing the user, and each of them has gained one subscriber |
| NotificationManager.Manager.Monitor | server/components/notificationmanager/manager.go:89-118 | the new registry is Subscribe of the old one, the handle is the fresh index, and the invariant is kept |
| NotificationManager.Manager.RemoveFromGroups | server/components/notificationmanager/manager.go:103-105 | running the cleanup functions gives Drop: one subscriber fewer per group, and empty groups deleted |
| NotificationManager.Manager.Unsubscribe | server/components/notificationmanager/manager.go:120-128 | the new registry is Unsubscribe of the old one and the invariant is kept |
| NotificationManager.Manager.Replay | server/components/notificationmanager/manager.go:63-81 | the notifications delivered are, as a multiset, exactly the persisted notifications that address the user and that the user has not read |
| NotificationManager.Manager.SubscribeToNotificationsForUser | server/components/notificationmanager/manager.go:57-87 | subscribes first (Subscribe), then replays exactly the user's unread persisted notifications |
| NotificationManager.Manager.CancelMonitor | server/components/notificationmanager/manager.go:201 | closes a running monitor's abort channel and nothing else |
| NotificationManager.Manager.ClearPersistedNotification | server/components/notificationmanager/manager.go:249-253 | store and firings are those of Clear and the invariant is kept |
| NotificationManager.Manager.ClearInsideMutex | server/components/notificationmanager/manager.go:265-272 | store and firings are those of Clear |
| NotificationManager.Manager.MaybePersistNotification | server/components/notificationmanager/manager.go:188-210 | store and firings are those of Persist, with each superseded channel closed once |
| NotificationManager.Manager.PersistEntry | server/components/notificationmanager/manager.go:203-209 | writes the entry with an empty read set and starts a new monitor under the next id |
| NotificationManager.Manager.RunRecipientAddedCallbacks | server/components/notificationmanager/manager.go:176-178 | the new container counts exactly the subscriptions whose user the group contains, and exactly those get attached to it |
| NotificationManager.Manager.AddGroupAndFire | server/components/notificationmanager/manager.go:167-184 | with no matching subscription nothing changes and nothing fires. Otherwise the container is kept with that count, the matching subscriptions are attached, and the group event fires once |
| NotificationManager.Manager.Deliver | server/components/notificationmanager/manager.go:155-185 | registry and firings are those of Route |
| NotificationManager.Manager.Notify | server/components/notificationmanager/manager.go:152-186 | persists as Persist, then delivers as Route; firings come in that order and the invariant is kept |
| NotificationManager.Manager.MarkAsRead | server/components/notificationmanager/manager.go:222-247 | store and firings are those of the store's MarkAsRead |
| NotificationManager.Manager.ClearPersistedNotificationsHavingKeyPrefix | server/components/notificationmanager/manager.go:255-263 | the store becomes ClearPrefix of the old one. Earlier firings are kept, and the new ones are exactly one cleared event per prefixed persisted key, in some order. The invariant is kept |
| NotificationManager.Manager.ClearPrefixedKeys | server/components/notificationmanager/manager.go:258-262 | the loop clears exactly the prefixed keys, each once, firing their cleared events in the order visited |
| NotificationManager.Manager.ClearOneOf | server/components/notificationmanager/manager.go:259-261 | one iteration clears one more key of the original store, with one cleared event |
| NotificationManager.Manager.Expire | server/components/notificationmanager/manager.go:212-220 | store and firings are those of the store's Expire and the invariant is kept |
| NotificationManager.Manager.CountRecipients | server/components/notificationmanager/manager.go:275-280 | the count is the number of containers, which equals the number of groups some live subscription is attached to |
| NotificationManager.ClearedSeqEvents | server/components/notificationmanager/manager.go:258-261 | visiting each key of a set once fires, as a multiset, exactly one cleared event per key |

## Left out

- The event library (`event.Keyed`, `event.Event`, buffering, the
  `SubscribeUsingCallback` plumbing) is not part of this model. Each
  `Notify` on an event channel is appended to `fired`. Delivery to a
  subscriber is the predicate `RecipientRegistry.Reaches` (a matching
  direct key, or attachment to the group).
- Goroutines, the two mutexes and every interleaving are left out: each
  method runs atomically.
- The replay goroutine is modelled as `Replay`, which returns the
  replayed notifications as a sequence. Its abort channel (closed by the
  returned cleanup) and the concurrent callback invocations are not
  modelled.
- Time: the expiry goroutine's timer is not modelled. The expiry of
  monitor `m` is the step `Expire(m)`, which may happen at any time.
- NotificationManager.Manager.Unsubscribe: a subscription is cleaned up at
  most once, since the method requires a live hook. In the code a second
  call of the function returned by `SubscribeToNotificationsForUser` panics
  when it closes the already closed replay abort channel (line 84). Were
  that call to get through, the decrement closures would run a second
  time. The model does not capture that second cleanup.
- PersistedStore.Expire: checking that the monitor is still running and
  clearing its key is one atomic step here. In the code the timer branch of
  the `select` is taken first, and the lock is taken later inside
  `ClearPersistedNotification`. Meanwhile `maybePersistNotification` may
  close that abort channel and store a newer entry under the same key.
  `select` may also pick the timer when the abort channel is closed at the
  same moment. Such a stale monitor then clears whatever is under its key.
  `NotificationManager.Manager.Expire` shares this gap. That
  stale clear is the step `ClearOp(key)`, which `PersistedStore.Run`
  covers, but `Expire` itself does not promise anything about it.
- `SubscribeToReadsForUser` only subscribes callbacks to two event
  channels and holds no manager state; with the event library it is left
  out.
- `SerializeDataForAPI` and the payload are opaque (`data: string`).
- `NotificationManager.Manager.Monitor`: the hook index is unbounded; the
  `uint64` wrap-around of `recipientAddedCallbacksIdx` is not modelled.
- The read set of a key is a set of addresses; the slice of
  address-only users built from it is not materialised.
- The `r.event != nil` test in Notify is always true for a stored
  container, so the branch where it fails is not modelled.
- The `Recipient` implementations are not part of this model. User and group
  recipients are modelled by their evident meaning: a user recipient
  contains its known user, and a group contains its member addresses.
  Groups are finite address sets, so no group contains an anonymous user,
  and an empty group counts as fully read after any read.
  `NotificationTypes.FullyContainedWithinMonotone` and
  `NotificationTypes.FullyContainedWithinMembers` are facts about this
  assumed implementation.
- server/auth/application_authorizer.go and server/user_cache.go are not
  part of this model. A user is absent, unknown, or known by address.
- A subscription's `cleanupFns` are modelled as the set of group IDs it
  holds plus its hook index. The `onSingleUser` subscription is not stored;
  it is the user's direct key.
- Container aliasing: Notify keeps a local reference to a new container
  while the callbacks update it; the model writes the local copy back
  after the loop.
- `NotificationManager.Manager.ClearInsideMutex`,
  `NotificationManager.Manager.MaybePersistNotification` and
  `NotificationManager.Manager.MarkAsRead` require and state only the store
  part of the invariant. The registry part is untouched by their frames,
  which `Notify` relies on.

## Findings

| source | as written | input that shows it | evidently intended | confidence | as-written member | corrected member |
|---|---|---|---|---|---|---|
| server/components/notificationmanager/manager.go:197-201 | when a persisted notification is superseded by one with another recipient ID, the clear at line 199 closes the old abort channel (line 267) and line 201 closes it again, which panics | persist a notification for group "g" {"a"} under key "k", then one for the known user "a" under key "k" | close the superseded monitor's channel exactly once | not executed | PersistedStore.PersistClosesAsWritten (shown by PersistedStore.RecipientChangeClosesTwice and PersistedStore.DoubleCloseExample) | PersistedStore.Persist (with PersistedStore.PersistCancelsOnce), used by NotificationManager.Manager.MaybePersistNotification |
