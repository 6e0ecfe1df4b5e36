/** The bottom navigation bar: which tab is active, and the unread badge of
    the inbox tab, kept by a per-session counter that is seeded by a count
    query, raised by live insert events and drained by visiting the inbox. */
module Navbar {
  import opened Base
  import opened Store

  const InboxPath := "/inbox"
  const SettingsPath := "/settings"

  datatype Tabs = Tabs(home: bool, inbox: bool, settings: bool)

  /** Each tab is active when the pathname is exactly its path, so no two
      tabs are active at once. */
  function ActiveTabs(pathname: string): (t: Tabs)
    ensures !(t.home && t.inbox) && !(t.home && t.settings) && !(t.inbox && t.settings)
    ensures t.home <==> pathname == DashboardPath
    ensures t.inbox <==> pathname == InboxPath
    ensures t.settings <==> pathname == SettingsPath
  {
    Tabs(pathname == DashboardPath, pathname == InboxPath, pathname == SettingsPath)
  }

  const Overflow := "99+"

  /** The badge: hidden at zero, `99+` above 99, and otherwise the count
      written in decimal (reading the label back gives the count). */
  function BadgeLabel(count: nat): (badge: Option<string>)
    ensures badge.None? <==> count == 0
    ensures badge == Some(Overflow) <==> count > 99
    ensures badge.Some? && count <= 99 ==>
              AllDigits(badge.value) && DigitsValue(badge.value) == count && badge.value[0] != '0'
  {
    if count == 0 then None
    else if count > 99 then Some(Overflow)
    else
      DecimalRoundTrip(count);
      Some(NatToString(count))
  }

  /** The component's two refs, `unreadCountRef` and `hasNewMessage`, for the
      profile id it was rendered with. */
  class UnreadTracker {
    const profileId: string
    var unreadCount: nat
    var hasNewMessage: bool

    /** The "new" flag is only up while there is something unread, and with
        no profile id nothing is ever counted. */
    ghost predicate Valid()
      reads this
    {
      (hasNewMessage ==> unreadCount > 0)
      && (profileId == [] ==> unreadCount == 0 && !hasNewMessage)
    }

    constructor (profileId: string)
      ensures Valid() && this.profileId == profileId
      ensures unreadCount == 0 && !hasNewMessage
    {
      this.profileId := profileId;
      unreadCount := 0;
      hasNewMessage := false;
    }

    /** The first effect: with a profile id, seed the counter from the
        profile's unread count (0 when the query fails and `count` is null)
        and raise the flag when it is positive; without one, do nothing. */
    method Bootstrap(table: ConfessionTable, queryFails: bool)
      requires Valid()
      modifies this
      ensures Valid()
      ensures profileId == [] ==> unchanged(this)
      ensures profileId != [] ==>
                unreadCount == (if queryFails then 0 else UnreadCount(table.rows, profileId))
                && (hasNewMessage <==> unreadCount > 0)
    {
      if profileId != [] {
        var count := table.CountUnread(profileId, queryFails);
        unreadCount := if count.Some? then count.value else 0;
        hasNewMessage := count.Some? && count.value > 0;
      }
    }

    /** The live insert handler. The subscription exists only with a profile
        id and is filtered on `profile_id`; each delivered event adds exactly
        one and raises the flag. */
    method OnInsert(row: Confession)
      requires Valid()
      modifies this
      ensures Valid()
      ensures profileId != [] && row.profileId == profileId ==>
                unreadCount == old(unreadCount) + 1 && hasNewMessage
      ensures !(profileId != [] && row.profileId == profileId) ==> unchanged(this)
    {
      if profileId != [] && row.profileId == profileId {
        unreadCount := unreadCount + 1;
        hasNewMessage := true;
      }
    }

    /** The third effect, run with the current pathname: on the inbox with a
        positive counter it resets the counter and the flag first, then marks
        the profile's unread rows read; otherwise it changes nothing and
        issues no update. */
    method OnPathname(pathname: string, table: ConfessionTable)
      requires Valid()
      modifies this, table
      ensures Valid()
      ensures ActiveTabs(pathname).inbox && old(unreadCount) > 0 ==>
                unreadCount == 0 && !hasNewMessage && table.rows == MarkRead(old(table.rows), profileId)
      ensures !(ActiveTabs(pathname).inbox && old(unreadCount) > 0) ==> unchanged(this) && unchanged(table)
    {
      if ActiveTabs(pathname).inbox && unreadCount > 0 {
        unreadCount := 0;
        hasNewMessage := false;
        table.MarkAllRead(profileId);
      }
    }

    /** What the badge shows now. */
    function Badge(): (badge: Option<string>)
      reads this
      ensures badge.Some? <==> unreadCount > 0
    {
      BadgeLabel(unreadCount)
    }
  }

  /** A bootstrap on the current table followed by a live insert event for a
      new unread row of the profile leaves the counter at the profile's
      unread count of the table with that row appended, and the badge shown. */
  method BootstrapThenInsert(tracker: UnreadTracker, table: ConfessionTable, row: Confession)
    requires tracker.Valid() && tracker.profileId != [] && IsUnreadOf(row, tracker.profileId)
    modifies tracker
    ensures tracker.Valid() && tracker.unreadCount == UnreadCount(table.rows + [row], tracker.profileId)
    ensures tracker.Badge().Some?
  {
    tracker.Bootstrap(table, false);
    tracker.OnInsert(row);
    UnreadCountAppend(table.rows, row, tracker.profileId);
  }

  /** A bootstrap followed at once by a visit to the inbox leaves the counter
      at zero and every one of the profile's rows read, and no other
      profile's unread count changes. */
  method BootstrapThenVisitInbox(tracker: UnreadTracker, table: ConfessionTable, other: string)
    requires tracker.Valid() && tracker.profileId != [] && other != tracker.profileId
    modifies tracker, table
    ensures tracker.Valid() && tracker.unreadCount == 0 && tracker.Badge().None?
    ensures forall c :: c in table.rows && c.profileId == tracker.profileId ==> c.isRead
    ensures UnreadCount(table.rows, other) == UnreadCount(old(table.rows), other)
  {
    tracker.Bootstrap(table, false);
    ghost var before := table.rows;
    tracker.OnPathname(InboxPath, table);
    if table.rows != before {
      MarkReadDrains(before, tracker.profileId);
      MarkReadKeepsOthers(before, tracker.profileId, other);
    }
  }
}
