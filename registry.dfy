/** The recipient-group registry of the manager as a value: the group
    containers with their subscriber counts, the recipient-added hooks of the
    live subscriptions (each hook stands for the user it subscribes), and the
    groups each subscription has attached to and will detach from on cleanup.
    The Manager class proves its methods against the functions here. */
module RecipientRegistry {
  import opened NotificationTypes

  /** Index of a live subscription's hook; also identifies the subscription. */
  type HookId = nat

  /** A group container: the recipient it was created for and the number of
      subscriptions attached to its event. */
  datatype Container = Container(recipient: Recipient, subs: int)

  datatype Registry = Registry(
    recipients: map<RecipientID, Container>,
    hooks: map<HookId, User>,
    hooksIdx: HookId,
    attachments: map<HookId, set<RecipientID>>)

  /** The registry groups whose recipient contains `user`. */
  function Containing(g: Registry, user: User): set<RecipientID> {
    set id | id in g.recipients && g.recipients[id].recipient.ContainsUser(user)
  }

  /** The live subscriptions whose user `rec` contains. */
  function Matching(hooks: map<HookId, User>, rec: Recipient): set<HookId> {
    set h | h in hooks && rec.ContainsUser(hooks[h])
  }

  /** A container is kept under its recipient's ID, is for a group, and counts
      exactly the subscriptions whose user it contains, of which there is at
      least one. */
  ghost predicate ContainerOk(g: Registry, id: RecipientID)
    requires id in g.recipients
  {
    var c := g.recipients[id];
    && c.recipient.GroupRecipient?
    && c.recipient.ID() == id
    && c.subs == |Matching(g.hooks, c.recipient)|
    && c.subs > 0
  }

  /** A live subscription has an index below the next one and is attached
      to exactly the registry groups that contain its user. */
  ghost predicate HookOk(g: Registry, h: HookId)
    requires h in g.hooks
  {
    h < g.hooksIdx && h in g.attachments && g.attachments[h] == Containing(g, g.hooks[h])
  }

  /** Every live subscription is attached to exactly the registry groups that
      contain its user, and every container is in order. */
  ghost predicate Valid(g: Registry) {
    && g.hooks.Keys == g.attachments.Keys
    && (forall h {:trigger HookOk(g, h)} :: h in g.hooks ==> HookOk(g, h))
    && (forall id {:trigger ContainerOk(g, id)} :: id in g.recipients ==> ContainerOk(g, id))
  }

  /** The registry of a new manager. */
  function Empty(): (g: Registry)
    ensures Valid(g) && g.recipients == map[] && g.hooks == map[]
  {
    Registry(map[], map[], 0, map[])
  }

  lemma MatchingInsert(hooks: map<HookId, User>, h: HookId, user: User, rec: Recipient)
    requires h !in hooks
    ensures Matching(hooks[h := user], rec) == Matching(hooks, rec) + (if rec.ContainsUser(user) then {h} else {})
    ensures |Matching(hooks[h := user], rec)| == |Matching(hooks, rec)| + (if rec.ContainsUser(user) then 1 else 0)
  {
    assert Matching(hooks[h := user], rec) == Matching(hooks, rec) + (if rec.ContainsUser(user) then {h} else {});
  }

  lemma MatchingRemove(hooks: map<HookId, User>, h: HookId, rec: Recipient)
    requires h in hooks
    ensures Matching(hooks - {h}, rec) == Matching(hooks, rec) - {h}
    ensures |Matching(hooks - {h}, rec)| == |Matching(hooks, rec)| - (if rec.ContainsUser(hooks[h]) then 1 else 0)
  {
    assert Matching(hooks - {h}, rec) == Matching(hooks, rec) - {h};
  }

  /** The groups of `recipients` outside `todo` whose recipient contains `user`. */
  function ContainingExcept(recipients: map<RecipientID, Container>, user: User, todo: set<RecipientID>): set<RecipientID> {
    set id | id in recipients && id !in todo && recipients[id].recipient.ContainsUser(user)
  }

  lemma ContainingExceptStep(recipients: map<RecipientID, Container>, user: User, todo: set<RecipientID>, id: RecipientID)
    requires id in todo && id in recipients
    ensures ContainingExcept(recipients, user, todo - {id}) ==
      ContainingExcept(recipients, user, todo) + if recipients[id].recipient.ContainsUser(user) then {id} else {}
  {
    assert ContainingExcept(recipients, user, todo - {id}) ==
      ContainingExcept(recipients, user, todo) + if recipients[id].recipient.ContainsUser(user) then {id} else {};
  }

  /** Every container in `ids` gains one subscriber. */
  function Bump(recipients: map<RecipientID, Container>, ids: set<RecipientID>): map<RecipientID, Container> {
    map id | id in recipients :: recipients[id].(subs := recipients[id].subs + if id in ids then 1 else 0)
  }

  lemma BumpNone(recipients: map<RecipientID, Container>)
    ensures Bump(recipients, {}) == recipients
  {
    assert Bump(recipients, {}) == recipients;
  }

  lemma BumpStep(recipients: map<RecipientID, Container>, ids: set<RecipientID>, id: RecipientID)
    requires id in recipients && id !in ids
    ensures Bump(recipients, ids + {id}) == Bump(recipients, ids)[id := recipients[id].(subs := recipients[id].subs + 1)]
  {
    assert Bump(recipients, ids + {id}) == Bump(recipients, ids)[id := recipients[id].(subs := recipients[id].subs + 1)];
  }

  /** Every container in `ids` loses one subscriber, and those left without
      any are deleted. */
  function Drop(recipients: map<RecipientID, Container>, ids: set<RecipientID>): map<RecipientID, Container> {
    map id | id in recipients && !(id in ids && recipients[id].subs <= 1) ::
      if id in ids then recipients[id].(subs := recipients[id].subs - 1) else recipients[id]
  }

  lemma DropNone(recipients: map<RecipientID, Container>)
    ensures Drop(recipients, {}) == recipients
  {
    assert Drop(recipients, {}) == recipients;
  }

  lemma DropStep(recipients: map<RecipientID, Container>, ids: set<RecipientID>, id: RecipientID)
    requires id in recipients && id !in ids
    ensures id in Drop(recipients, ids) && Drop(recipients, ids)[id] == recipients[id]
    ensures
      var c := recipients[id].(subs := recipients[id].subs - 1);
      Drop(recipients, ids + {id}) ==
        if c.subs <= 0 then Drop(recipients, ids)[id := c] - {id} else Drop(recipients, ids)[id := c]
  {
    var c := recipients[id].(subs := recipients[id].subs - 1);
    if c.subs <= 0 {
      assert Drop(recipients, ids + {id}) == Drop(recipients, ids)[id := c] - {id};
    } else {
      assert Drop(recipients, ids + {id}) == Drop(recipients, ids)[id := c];
    }
  }

  /** The live subscriptions outside `todo` whose user `rec` contains. */
  function MatchingExcept(hooks: map<HookId, User>, rec: Recipient, todo: set<HookId>): set<HookId> {
    set h | h in hooks && h !in todo && rec.ContainsUser(hooks[h])
  }

  lemma MatchingExceptStep(hooks: map<HookId, User>, rec: Recipient, todo: set<HookId>, h: HookId)
    requires h in todo && h in hooks
    ensures rec.ContainsUser(hooks[h]) ==>
      && MatchingExcept(hooks, rec, todo - {h}) == MatchingExcept(hooks, rec, todo) + {h}
      && |MatchingExcept(hooks, rec, todo - {h})| == |MatchingExcept(hooks, rec, todo)| + 1
    ensures !rec.ContainsUser(hooks[h]) ==> MatchingExcept(hooks, rec, todo - {h}) == MatchingExcept(hooks, rec, todo)
  {
    if rec.ContainsUser(hooks[h]) {
      assert MatchingExcept(hooks, rec, todo - {h}) == MatchingExcept(hooks, rec, todo) + {h};
    } else {
      assert MatchingExcept(hooks, rec, todo - {h}) == MatchingExcept(hooks, rec, todo);
    }
  }

  lemma MatchingExceptNone(hooks: map<HookId, User>, rec: Recipient)
    ensures MatchingExcept(hooks, rec, {}) == Matching(hooks, rec)
  {
  }

  lemma UpdateTwice(recipients: map<RecipientID, Container>, id: RecipientID, a: Container, b: Container)
    ensures recipients[id := a][id := b] == recipients[id := b]
  {
  }

  /** Adding a group's container and removing it again leaves the map as it was. */
  lemma AddThenRemove(recipients: map<RecipientID, Container>, id: RecipientID, c: Container)
    requires id !in recipients
    ensures recipients[id := c] - {id} == recipients
  {
  }

  /** Every subscription in `hs` is also attached to group `id`. */
  function Attach(attachments: map<HookId, set<RecipientID>>, hs: set<HookId>, id: RecipientID): map<HookId, set<RecipientID>> {
    map h | h in attachments :: attachments[h] + if h in hs then {id} else {}
  }

  lemma AttachNone(attachments: map<HookId, set<RecipientID>>, id: RecipientID)
    ensures Attach(attachments, {}, id) == attachments
  {
    forall h | h in attachments ensures Attach(attachments, {}, id)[h] == attachments[h] {
      assert attachments[h] + {} == attachments[h];
    }
  }

  lemma AttachStep(attachments: map<HookId, set<RecipientID>>, hs: set<HookId>, id: RecipientID, h: HookId)
    requires h in attachments
    ensures Attach(attachments, hs + {h}, id) == Attach(attachments, hs, id)[h := Attach(attachments, hs, id)[h] + {id}]
  {
    var a, b := Attach(attachments, hs + {h}, id), Attach(attachments, hs, id)[h := Attach(attachments, hs, id)[h] + {id}];
    assert a.Keys == b.Keys;
    forall k | k in a ensures a[k] == b[k] {
      if k == h {
      } else {
      }
    }
  }

  /** Every live subscription's index lies below the next index to hand out. */
  lemma HooksBelowIdx(g: Registry)
    requires Valid(g)
    ensures forall h :: h in g.hooks ==> h < g.hooksIdx
  {
    forall h | h in g.hooks ensures h < g.hooksIdx {
      assert HookOk(g, h);
    }
  }

  /** A subscription is attached to a group exactly when the group has a
      container and the subscription's user is in the group. */
  lemma AttachedIffContains(g: Registry, id: RecipientID)
    requires Valid(g)
    ensures forall h :: h in g.hooks ==>
      (id in g.attachments[h] <==> id in g.recipients && g.recipients[id].recipient.ContainsUser(g.hooks[h]))
  {
    forall h | h in g.hooks
      ensures id in g.attachments[h] <==> id in g.recipients && g.recipients[id].recipient.ContainsUser(g.hooks[h])
    {
      assert HookOk(g, h);
    }
  }

  /** Subscribing `user` (monitor): every group containing the user gains one
      subscriber and the new subscription is attached to exactly those
      groups; the subscription's hook is registered under the next index. */
  function Subscribe(g: Registry, user: User): (r: Registry)
    requires Valid(g)
    ensures Valid(r)
    ensures g.hooksIdx !in g.hooks && r.hooks == g.hooks[g.hooksIdx := user] && r.hooksIdx == g.hooksIdx + 1
    ensures r.attachments == g.attachments[g.hooksIdx := Containing(g, user)]
    ensures r.recipients == Bump(g.recipients, Containing(g, user))
    ensures r.recipients.Keys == g.recipients.Keys
    ensures forall id :: id in g.recipients ==>
      r.recipients[id] == g.recipients[id].(subs := g.recipients[id].subs +
                                              if g.recipients[id].recipient.ContainsUser(user) then 1 else 0)
  {
    var h := g.hooksIdx;
    var c := Containing(g, user);
    var r := Registry(Bump(g.recipients, c), g.hooks[h := user], h + 1, g.attachments[h := c]);
    HooksBelowIdx(g);
    forall u ensures Containing(r, u) == Containing(g, u) {
      assert Containing(r, u) == Containing(g, u);
    }
    forall id | id in r.recipients ensures ContainerOk(r, id) {
      assert ContainerOk(g, id);
      MatchingInsert(g.hooks, h, user, g.recipients[id].recipient);
    }
    forall h' | h' in r.hooks ensures HookOk(r, h') {
      if h' != h {
        assert HookOk(g, h');
      }
    }
    r
  }

  /** Cleaning up subscription `h`: its hook is removed and each group it was
      attached to loses one subscriber, the group being deleted when that
      leaves no subscriber; no other group changes. */
  function Unsubscribe(g: Registry, h: HookId): (r: Registry)
    requires Valid(g) && h in g.hooks
    ensures Valid(r)
    ensures r.hooks == g.hooks - {h} && r.attachments == g.attachments - {h} && r.hooksIdx == g.hooksIdx
    ensures forall id :: id in g.recipients && id !in g.attachments[h] ==>
      id in r.recipients && r.recipients[id] == g.recipients[id]
    ensures forall id :: id in g.attachments[h] ==>
      && (id in r.recipients <==> g.recipients[id].subs > 1)
      && (id in r.recipients ==> r.recipients[id] == g.recipients[id].(subs := g.recipients[id].subs - 1))
    ensures r.recipients.Keys <= g.recipients.Keys
    ensures r.recipients == Drop(g.recipients, g.attachments[h])
  {
    var gone := g.attachments[h];
    var r := Registry(Drop(g.recipients, gone), g.hooks - {h}, g.hooksIdx, g.attachments - {h});
    assert HookOk(g, h);
    forall id | id in r.recipients ensures ContainerOk(r, id) {
      assert ContainerOk(g, id);
      MatchingRemove(g.hooks, h, g.recipients[id].recipient);
    }
    forall h' | h' in r.hooks ensures HookOk(r, h') {
      assert HookOk(g, h');
      forall id | id in g.recipients && id !in r.recipients
        ensures !g.recipients[id].recipient.ContainsUser(g.hooks[h'])
      {
        var rec := g.recipients[id].recipient;
        assert ContainerOk(g, id);
        assert h in Matching(g.hooks, rec);
        SingletonOfSizeOne(Matching(g.hooks, rec), h);
      }
      assert r.attachments[h'] == Containing(r, r.hooks[h']);
    }
    r
  }

  lemma SingletonOfSizeOne(s: set<HookId>, h: HookId)
    requires h in s && |s| <= 1
    ensures s == {h}
  {
    assert |s - {h}| == |s| - 1;
    assert s == (s - {h}) + {h};
  }

  /** No subscription matches exactly when no live subscription's user is in
      the group. */
  lemma MatchingEmpty(hooks: map<HookId, User>, rec: Recipient)
    ensures Matching(hooks, rec) == {} <==> forall h :: h in hooks ==> !rec.ContainsUser(hooks[h])
  {
    if Matching(hooks, rec) == {} {
      forall h | h in hooks ensures !rec.ContainsUser(hooks[h]) {
        assert h !in Matching(hooks, rec);
      }
    }
  }

  /** Creating a container for a new group (the group path of Notify when no
      container exists): the hooks of all subscriptions are run, and the
      container is kept, attached to the matching subscriptions, only when
      some subscription's user is in the group. */
  function AddGroup(g: Registry, rec: Recipient): (r: Registry)
    requires Valid(g) && rec.GroupRecipient? && rec.ID() !in g.recipients
    ensures Valid(r)
    ensures r.hooks == g.hooks && r.hooksIdx == g.hooksIdx
    ensures Matching(g.hooks, rec) == {} ==> r == g
    ensures Matching(g.hooks, rec) != {} ==>
      && r.recipients == g.recipients[rec.ID() := Container(rec, |Matching(g.hooks, rec)|)]
      && r.attachments == Attach(g.attachments, Matching(g.hooks, rec), rec.ID())
      && forall h :: h in g.attachments ==>
           r.attachments[h] == g.attachments[h] + (if h in Matching(g.hooks, rec) then {rec.ID()} else {})
  {
    var m := Matching(g.hooks, rec);
    if m == {} then
      MatchingEmpty(g.hooks, rec);
      g
    else
      var id := rec.ID();
      var r := Registry(g.recipients[id := Container(rec, |m|)], g.hooks, g.hooksIdx, Attach(g.attachments, m, id));
      forall h | h in r.hooks ensures HookOk(r, h) {
        assert HookOk(g, h);
        assert Containing(r, r.hooks[h]) == Containing(g, g.hooks[h]) + if h in m then {id} else {};
      }
      forall id' | id' in r.recipients ensures ContainerOk(r, id') {
        if id' != id {
          assert ContainerOk(g, id');
        }
      }
      r
  }

  /** AddGroup spelled out field by field. */
  lemma AddGroupFields(g: Registry, rec: Recipient)
    requires Valid(g) && rec.GroupRecipient? && rec.ID() !in g.recipients
    ensures var m := Matching(g.hooks, rec);
      AddGroup(g, rec) == if m == {} then g
        else Registry(g.recipients[rec.ID() := Container(rec, |m|)], g.hooks, g.hooksIdx, Attach(g.attachments, m, rec.ID()))
  {
  }

  /** Whether the event `e` reaches the callback of subscription `h`: a
      single-user firing reaches the subscriptions whose direct key is its
      key, a group firing the subscriptions attached to that group. */
  ghost predicate Reaches(g: Registry, h: HookId, e: Event) {
    match e
    case SingleUserFired(key, _) => h in g.hooks && DirectKey(g.hooks[h]) == key
    case GroupFired(id, _) => h in g.attachments && id in g.attachments[h]
    case _ => false
  }

  /** The recipient a group notification is matched against: that of the
      container already registered under its ID, or its own. */
  function Target(g: Registry, n: Notification): Recipient {
    var id := n.recipient.ID();
    if id in g.recipients then g.recipients[id].recipient else n.recipient
  }

  datatype Routed = Routed(registry: Registry, events: seq<Event>)

  /** Delivery of a notification (Notify after persisting): a single-user
      notification is fired under the user's direct key and the registry is
      left alone; a group notification is fired on the group's container,
      which is created first when missing and discarded again when no
      subscription's user is in the group. */
  function Route(g: Registry, n: Notification): (r: Routed)
    requires Valid(g)
    ensures Valid(r.registry)
    ensures r.registry.hooks == g.hooks
    ensures n.recipient.UserRecipient? ==>
      r.registry == g && r.events == [SingleUserFired(DirectKey(n.recipient.forUser), n)]
    ensures n.recipient.GroupRecipient? ==>
      var id := n.recipient.ID();
      && (r.events == [] || r.events == [GroupFired(id, n)])
      && (id in g.recipients ==> r.registry == g && r.events == [GroupFired(id, n)])
      && (r.events == [] ==> r.registry == g)
      && forall h :: h in g.hooks ==>
           (Target(g, n).ContainsUser(g.hooks[h]) <==> r.events != [] && Reaches(r.registry, h, r.events[0]))
  {
    if n.recipient.UserRecipient? then
      Routed(g, [SingleUserFired(DirectKey(n.recipient.forUser), n)])
    else
      var id := n.recipient.ID();
      if id in g.recipients then
        AttachedIffContains(g, id);
        Routed(g, [GroupFired(id, n)])
      else
        var r := AddGroup(g, n.recipient);
        MatchingEmpty(g.hooks, n.recipient);
        AttachedIffContains(g, id);
        if id in r.recipients then Routed(r, [GroupFired(id, n)]) else Routed(r, [])
  }

  /** A single-user notification reaches every live subscription of the user
      it is addressed to. */
  lemma RouteReachesAddressee(g: Registry, n: Notification, h: HookId)
    requires Valid(g) && n.recipient.UserRecipient? && h in g.hooks
    requires n.recipient.ContainsUser(g.hooks[h])
    ensures Reaches(Route(g, n).registry, h, Route(g, n).events[0])
  {
    DirectKeyReachesAddressee(n.recipient.forUser, g.hooks[h]);
  }

  /** Direct routing in both directions. A single-user notification for a
      known user reaches a subscription of a known user exactly when the two
      users are the same. Every subscription of an absent or anonymous user
      shares the empty key, so it receives every single-user notification for
      an absent or anonymous user and, for a known user, only when that
      user's address is empty. */
  lemma RouteDirectExactly(g: Registry, n: Notification, h: HookId)
    requires Valid(g) && n.recipient.UserRecipient? && h in g.hooks
    ensures var r := Route(g, n);
      var v, u := n.recipient.forUser, g.hooks[h];
      && (IsKnown(v) && IsKnown(u) ==> (Reaches(r.registry, h, r.events[0]) <==> u == v))
      && (IsKnown(v) && !IsKnown(u) ==> (Reaches(r.registry, h, r.events[0]) <==> v.address == ""))
      && (!IsKnown(v) ==> (Reaches(r.registry, h, r.events[0]) <==> !IsKnown(u) || u.address == ""))
  {
    var r := Route(g, n);
    assert r.registry == g && r.events[0] == SingleUserFired(DirectKey(n.recipient.forUser), n);
  }

  /** The group path of Notify discards the container it created, leaving the
      registry as it was, exactly when no live subscription's user is in the
      group. */
  lemma AddGroupDiscardsIffNoMatch(g: Registry, rec: Recipient)
    requires Valid(g) && rec.GroupRecipient? && rec.ID() !in g.recipients
    ensures AddGroup(g, rec) == g <==> forall h :: h in g.hooks ==> !rec.ContainsUser(g.hooks[h])
  {
    MatchingEmpty(g.hooks, rec);
    if Matching(g.hooks, rec) != {} {
      assert rec.ID() in AddGroup(g, rec).recipients;
    }
  }

  /** The groups some live subscription is attached to. */
  ghost function AttachedGroups(g: Registry): set<RecipientID> {
    set h, id | h in g.attachments && id in g.attachments[h] :: id
  }

  /** No empty container is kept: the registry holds exactly the groups some
      live subscription is attached to. */
  lemma RecipientsAreAttachedGroups(g: Registry)
    requires Valid(g)
    ensures g.recipients.Keys == AttachedGroups(g)
  {
    forall id | id in g.recipients ensures id in AttachedGroups(g) {
      var rec := g.recipients[id].recipient;
      assert ContainerOk(g, id);
      var h :| h in Matching(g.hooks, rec);
      AttachedIffContains(g, id);
      assert id in g.attachments[h];
    }
    forall h, id | h in g.attachments && id in g.attachments[h] ensures id in g.recipients {
      assert HookOk(g, h);
    }
  }

  /** Once the last subscription attached to a group is cleaned up, the group's
      container is gone, so the next notification for it creates a new one. */
  lemma LastUnsubscribeRemovesGroup(g: Registry, h: HookId, id: RecipientID)
    requires Valid(g) && h in g.hooks && id in g.attachments[h]
    requires forall h' :: h' in g.hooks && h' != h ==> id !in g.attachments[h']
    ensures id !in Unsubscribe(g, h).recipients
  {
    AttachedIffContains(g, id);
    assert ContainerOk(g, id);
    var rec := g.recipients[id].recipient;
    assert Matching(g.hooks, rec) == {h};
  }
}
