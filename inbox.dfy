/** The inbox page: it loads the signed-in user's messages newest first,
    marks them read in the datastore when one of them was unread, shows the
    number of messages, and puts live inserts at the front of the list. */
module Inbox {
  import opened Base
  import opened Store


  /** The count line of the header: the number of messages in decimal, a
      space, and `message` for exactly one, `messages` otherwise. */
  function CountLabel(n: nat): (text: string)
    ensures exists k :: 0 < k < |text| && text[k] == ' ' && AllDigits(text[..k]) && DigitsValue(text[..k]) == n
                        && (text[0] == '0' ==> k == 1)
                        && (n == 1 ==> text[k + 1..] == "message")
                        && (n != 1 ==> text[k + 1..] == "messages")
  {
    var digits := NatToString(n);
    var text := digits + " " + (if n == 1 then "message" else "messages");
    DecimalRoundTrip(n);
    assert text[..|digits|] == digits && text[|digits| + 1..] == (if n == 1 then "message" else "messages");
    text
  }

  /** The live insert handler as written: `getUser()` is not awaited, so its
      Promise is destructured, `data` is undefined and reading `user` from it
      throws before the row is looked at; the list never changes. */
  function LiveInsertAsWritten(shown: seq<Confession>, row: Confession): (r: seq<Confession>)
    ensures r == shown
  {
    shown
  }

  /** The handler as intended: a row of the signed-in user's profile goes to
      the front and every other entry keeps its place; a row of another
      profile, or any row while nobody is signed in, is ignored. */
  function LiveInsert(shown: seq<Confession>, row: Confession, userId: Option<string>): (r: seq<Confession>)
    ensures userId.Some? && row.profileId == userId.value ==> |r| == |shown| + 1 && r[0] == row && r[1..] == shown
    ensures !(userId.Some? && row.profileId == userId.value) ==> r == shown
  {
    if userId.Some? && row.profileId == userId.value then [row] + shown else shown
  }

  /** The written handler drops the user's own new message that the intended
      one shows: from an empty inbox, one shows nothing and the other the row. */
  lemma LiveInsertAsWrittenLosesRow(row: Confession, userId: string)
    requires row.profileId == userId
    ensures LiveInsertAsWritten([], row) == []
    ensures LiveInsert([], row, Some(userId)) == [row]
  {
  }

  /** A row newer than every entry keeps the list newest first when it is
      put in front. */
  lemma LiveInsertKeepsOrder(shown: seq<Confession>, row: Confession, userId: Option<string>)
    requires NewestFirstOrder(shown)
    requires forall k :: 0 <= k < |shown| ==> shown[k].createdAt <= row.createdAt
    ensures NewestFirstOrder(LiveInsert(shown, row, userId))
  {
  }

  /** The page's state: the list shown, the two spinners, and the
      destinations pushed to the router. */
  class InboxPage {
    var confessions: seq<Confession>
    var loading: bool
    var refreshing: bool
    var pushed: seq<string>

    constructor ()
      ensures confessions == [] && loading && !refreshing && pushed == []
    {
      confessions := [];
      loading := true;
      refreshing := false;
      pushed := [];
    }

    /** `fetchConfessions`. With nobody signed in it only goes to the
        dashboard. Otherwise it shows the profile's rows newest first (none
        when the query fails), stops both spinners, and then, if one of the
        rows it fetched was unread, marks the profile's unread rows read; the
        list keeps the flags it was fetched with. */
    method FetchConfessions(userId: Option<string>, table: ConfessionTable, queryFails: bool)
      modifies this, table
      ensures userId.None? ==>
                pushed == old(pushed) + [DashboardPath] && confessions == old(confessions)
                && loading == old(loading) && refreshing == old(refreshing) && unchanged(table)
      ensures userId.Some? ==> pushed == old(pushed) && !loading && !refreshing
      ensures userId.Some? && queryFails ==> confessions == [] && unchanged(table)
      ensures userId.Some? && !queryFails ==>
                confessions == NewestFirst(OfProfile(old(table.rows), userId.value))
                && table.rows == (if HasUnread(confessions) then MarkRead(old(table.rows), userId.value) else old(table.rows))
                && (HasUnread(confessions) <==> UnreadCount(old(table.rows), userId.value) > 0)
    {
      if userId.None? {
        pushed := pushed + [DashboardPath];
        return;
      }
      var data := table.SelectNewestFirst(userId.value, queryFails);
      confessions := if data.Some? then data.value else [];
      loading := false;
      refreshing := false;
      SomeUnreadIffCount(table.rows, userId.value);
      if data.Some? && HasUnread(data.value) {
        table.MarkAllRead(userId.value);
      }
    }

    /** `handleRefresh`: the refresh spinner is started, then the list is
        fetched again; with nobody signed in it keeps spinning. */
    method HandleRefresh(userId: Option<string>, table: ConfessionTable, queryFails: bool)
      modifies this, table
      ensures userId.None? ==>
                refreshing && pushed == old(pushed) + [DashboardPath] && confessions == old(confessions)
                && loading == old(loading) && unchanged(table)
      ensures userId.Some? ==> pushed == old(pushed) && !loading && !refreshing
      ensures userId.Some? && queryFails ==> confessions == [] && unchanged(table)
      ensures userId.Some? && !queryFails ==>
                confessions == NewestFirst(OfProfile(old(table.rows), userId.value))
                && table.rows == (if UnreadCount(old(table.rows), userId.value) > 0
                                  then MarkRead(old(table.rows), userId.value) else old(table.rows))
    {
      refreshing := true;
      FetchConfessions(userId, table, queryFails);
    }

    /** The realtime insert handler as written (see `LiveInsertAsWritten`). */
    method OnLiveInsertAsWritten(row: Confession)
      modifies this
      ensures confessions == LiveInsertAsWritten(old(confessions), row)
      ensures loading == old(loading) && refreshing == old(refreshing) && pushed == old(pushed)
    {
      confessions := LiveInsertAsWritten(confessions, row);
    }

    /** The realtime insert handler as intended, given the signed-in user. */
    method OnLiveInsert(row: Confession, userId: Option<string>)
      modifies this
      ensures confessions == LiveInsert(old(confessions), row, userId)
      ensures loading == old(loading) && refreshing == old(refreshing) && pushed == old(pushed)
    {
      if userId.Some? && row.profileId == userId.value {
        confessions := [row] + confessions;
      }
    }
  }
}
