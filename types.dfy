/** Values the notification manager works on: users, recipients, notifications
    and the firings it hands to its event channels. */
module NotificationTypes {

  datatype Option<+T> = None | Some(value: T)

  /** A user's address (the key of keyed events and of read tracking). */
  type Address = string

  /** A persistency key: at most one notification is current under each. */
  type Key = string

  /** A possibly absent, possibly anonymous user. */
  datatype User =
    | NoUser                     // a nil user
    | UnknownUser                // a user for whom IsUnknown() holds
    | KnownUser(address: Address)

  predicate IsKnown(u: User) {
    u.KnownUser?
  }

  /** The key under which single-user notifications for `u` are published and
      subscribed: the user's address, or the empty string for an absent or
      anonymous user. */
  function DirectKey(u: User): string {
    if IsKnown(u) then u.address else ""
  }

  /** Identity used to deduplicate recipient groups. */
  datatype RecipientID =
    | UserRecipientID(directKey: string)
    | GroupRecipientID(name: string)

  /** Who a notification is for: one user, or a named group of addresses. */
  datatype Recipient =
    | UserRecipient(forUser: User)
    | GroupRecipient(name: string, members: set<Address>)
  {
    function ID(): RecipientID {
      match this
      case UserRecipient(u) => UserRecipientID(DirectKey(u))
      case GroupRecipient(name, _) => GroupRecipientID(name)
    }

    predicate ContainsUser(u: User) {
      && IsKnown(u)
      && match this
         case UserRecipient(v) => IsKnown(v) && v.address == u.address
         case GroupRecipient(_, members) => u.address in members
    }

    /** True when every user this recipient addresses is among `readers`. */
    predicate FullyContainedWithin(readers: set<Address>) {
      match this
      case UserRecipient(v) => IsKnown(v) && v.address in readers
      case GroupRecipient(_, members) => members <= readers
    }
  }

  /** A notification: its recipient, its persistency key if it is persistent,
      and the payload serialised for clients. */
  datatype Notification = Notification(recipient: Recipient, key: Option<Key>, data: string)

  /** One call to the Notify method of one of the manager's event channels. */
  datatype Event =
    | SingleUserFired(directKey: string, notification: Notification)  // onSingleUser
    | GroupFired(id: RecipientID, notification: Notification)         // a group container's event
    | UserRead(address: Address, key: Key)                            // onUserRead
    | Cleared(key: Key)                                               // onNotificationCleared

  /** A single-user notification is published under exactly the key that every
      user it is addressed to subscribes with, so none of them misses it. */
  lemma DirectKeyReachesAddressee(v: User, u: User)
    requires UserRecipient(v).ContainsUser(u)
    ensures DirectKey(u) == DirectKey(v) == u.address
  {
  }

  /** Reading can only complete a recipient: once fully contained within a set
      of readers, it stays so as more users read. */
  lemma FullyContainedWithinMonotone(r: Recipient, a: set<Address>, b: set<Address>)
    requires a <= b && r.FullyContainedWithin(a)
    ensures r.FullyContainedWithin(b)
  {
  }

  /** A recipient that addresses someone is fully contained within the readers
      exactly when every user it contains has read. (A user recipient for an
      absent or anonymous user contains nobody and is never fully read.) */
  lemma FullyContainedWithinMembers(r: Recipient, readers: set<Address>)
    requires r.GroupRecipient? || IsKnown(r.forUser)
    ensures r.FullyContainedWithin(readers) <==>
      forall u :: r.ContainsUser(u) ==> u.address in readers
  {
    match r
    case UserRecipient(v) =>
      if r.FullyContainedWithin(readers) {
      } else {
        assert r.ContainsUser(v);
      }
    case GroupRecipient(_, members) =>
      if !(members <= readers) {
        var a :| a in members && a !in readers;
        assert r.ContainsUser(KnownUser(a));
      }
  }
}
