/** The two datastore tables the core reads and writes, as in-memory state:
    `profiles` (primary key `id`, unique `slug`) and `confessions`. The query
    builder calls of the client library become methods of the two classes;
    what a query returns is given by the functions of this module. */
module Store {
  import opened Base

  /** A row of `profiles`. The profile id is the account id. */
  datatype Profile = Profile(id: string, email: string, username: string, slug: string)

  /** A row of `confessions`. `createdAt` stands for the creation timestamp
      (the ISO text orders like the time it denotes). */
  datatype Confession = Confession(id: string, profileId: string, message: string, createdAt: int, isRead: bool)

  /** The SQLSTATE of a unique-constraint violation. */
  const UniqueViolation := "23505"

  // ---------------------------------------------------------------------------
  // profiles

  function Slugs(rows: seq<Profile>): set<string> { set p | p in rows :: p.slug }

  function Ids(rows: seq<Profile>): set<string> { set p | p in rows :: p.id }

  /** The table's constraints: no two rows share an id or a slug. */
  ghost predicate UniqueKeys(rows: seq<Profile>)
  {
    forall i, j :: 0 <= i < j < |rows| ==> rows[i].id != rows[j].id && rows[i].slug != rows[j].slug
  }

  /** Appending a row whose id and slug are both new keeps the keys unique. */
  lemma AppendKeepsUnique(rows: seq<Profile>, p: Profile)
    requires UniqueKeys(rows) && p.id !in Ids(rows) && p.slug !in Slugs(rows)
    ensures UniqueKeys(rows + [p])
  {
    forall i, j | 0 <= i < j < |rows + [p]|
      ensures (rows + [p])[i].id != (rows + [p])[j].id && (rows + [p])[i].slug != (rows + [p])[j].slug
    {
      if j == |rows| {
        assert rows[i] in rows;
      }
    }
  }

  class ProfileTable {
    var rows: seq<Profile>

    ghost predicate Valid()
      reads this
    {
      UniqueKeys(rows)
    }

    constructor (rows: seq<Profile>)
      requires UniqueKeys(rows)
      ensures Valid() && this.rows == rows
    {
      this.rows := rows;
    }

    /** `select('id').eq('slug', slug).maybeSingle()`: the id of the row with
        that slug, or none. */
    method FindBySlug(slug: string) returns (id: Option<string>)
      ensures id.Some? <==> slug in Slugs(rows)
      ensures id.Some? ==> exists p :: p in rows && p.slug == slug && p.id == id.value
    {
      if slug in Slugs(rows) {
        var p :| p in rows && p.slug == slug;
        id := Some(p.id);
      } else {
        id := None;
      }
    }

    /** `insert(p)`: the row is appended exactly when the insert reports no error. */
    method Insert(p: Profile, fault: Option<Error>) returns (err: Option<Error>)
      requires Valid()
      modifies this
      ensures Valid()
      ensures err == InsertError(old(rows), p, fault)
      ensures rows == if err.None? then old(rows) + [p] else old(rows)
    {
      err := InsertError(rows, p, fault);
      if err.None? {
        AppendKeepsUnique(rows, p);
        rows := rows + [p];
      }
    }
  }

  /** What the datastore answers to inserting `p`. A failure of the request
      (`fault`) is reported as it is; otherwise a row whose id or slug is
      already present is refused with a unique violation; any other row is
      accepted. */
  function InsertError(rows: seq<Profile>, p: Profile, fault: Option<Error>): (err: Option<Error>)
    ensures err.None? <==> fault.None? && p.id !in Ids(rows) && p.slug !in Slugs(rows)
    ensures fault.Some? ==> err == fault
    ensures fault.None? && err.Some? ==> err.value.code == UniqueViolation
  {
    if fault.Some? then fault
    else if p.id in Ids(rows) || p.slug in Slugs(rows) then Some(Error("duplicate key value violates unique constraint", UniqueViolation))
    else None
  }

  // ---------------------------------------------------------------------------
  // confessions

  predicate IsUnreadOf(c: Confession, profileId: string) { c.profileId == profileId && !c.isRead }

  /** The rows of one profile, in table order (`eq('profile_id', id)`). */
  function OfProfile(rows: seq<Confession>, profileId: string): (r: seq<Confession>)
    ensures forall k :: 0 <= k < |r| ==> r[k].profileId == profileId
    ensures forall c :: multiset(r)[c] == if c.profileId == profileId then multiset(rows)[c] else 0
  {
    if rows == [] then []
    else
      assert rows == [rows[0]] + rows[1..];
      (if rows[0].profileId == profileId then [rows[0]] else []) + OfProfile(rows[1..], profileId)
  }

  /** The `count` of `eq('profile_id', id).eq('is_read', false)`. */
  function UnreadCount(rows: seq<Confession>, profileId: string): (n: nat)
    ensures n <= |rows|
    ensures n > 0 <==> exists c :: c in rows && IsUnreadOf(c, profileId)
  {
    if rows == [] then 0
    else (if IsUnreadOf(rows[0], profileId) then 1 else 0) + UnreadCount(rows[1..], profileId)
  }

  lemma {:induction false} UnreadCountAppend(rows: seq<Confession>, c: Confession, profileId: string)
    ensures UnreadCount(rows + [c], profileId)
            == UnreadCount(rows, profileId) + if IsUnreadOf(c, profileId) then 1 else 0
  {
    if rows != [] {
      assert (rows + [c])[1..] == rows[1..] + [c];
      UnreadCountAppend(rows[1..], c, profileId);
    }
  }

  /** `update({ is_read: true }).eq('profile_id', id).eq('is_read', false)`:
      exactly the profile's unread rows become read; every other row, and every
      other field, is kept. */
  function MarkRead(rows: seq<Confession>, profileId: string): (r: seq<Confession>)
    ensures |r| == |rows|
    ensures forall k :: 0 <= k < |rows| && IsUnreadOf(rows[k], profileId) ==> r[k] == rows[k].(isRead := true)
    ensures forall k :: 0 <= k < |rows| && !IsUnreadOf(rows[k], profileId) ==> r[k] == rows[k]
  {
    if rows == [] then []
    else [if IsUnreadOf(rows[0], profileId) then rows[0].(isRead := true) else rows[0]]
         + MarkRead(rows[1..], profileId)
  }

  /** After the update the profile has no unread row left. */
  lemma MarkReadDrains(rows: seq<Confession>, profileId: string)
    ensures UnreadCount(MarkRead(rows, profileId), profileId) == 0
  {
  }

  /** Every other profile's unread count is what it was. */
  lemma {:induction false} MarkReadKeepsOthers(rows: seq<Confession>, profileId: string, other: string)
    requires other != profileId
    ensures UnreadCount(MarkRead(rows, profileId), other) == UnreadCount(rows, other)
  {
    if rows != [] {
      var r := MarkRead(rows, profileId);
      assert r[1..] == MarkRead(rows[1..], profileId);
      MarkReadKeepsOthers(rows[1..], profileId, other);
    }
  }

  /** Newest first: `order('created_at', { ascending: false })`. */
  ghost predicate NewestFirstOrder(s: seq<Confession>)
  {
    forall i, j :: 0 <= i < j < |s| ==> s[i].createdAt >= s[j].createdAt
  }

  /** A row at least as new as the head of a newest-first list can go in front. */
  lemma ConsNewestFirst(c: Confession, s: seq<Confession>)
    requires NewestFirstOrder(s) && (s == [] || s[0].createdAt <= c.createdAt)
    ensures NewestFirstOrder([c] + s)
  {
    forall i, j | 0 <= i < j < |[c] + s|
      ensures ([c] + s)[i].createdAt >= ([c] + s)[j].createdAt
    {
      if i == 0 {
        assert ([c] + s)[j] == s[j - 1];
        assert s[0].createdAt >= s[j - 1].createdAt;
      }
    }
  }

  function InsertByTime(c: Confession, s: seq<Confession>): (r: seq<Confession>)
    requires NewestFirstOrder(s)
    ensures NewestFirstOrder(r)
    ensures multiset(r) == multiset(s) + multiset{c}
    ensures |r| == |s| + 1
    ensures r[0] == c || (s != [] && r[0] == s[0])
  {
    if s == [] || s[0].createdAt <= c.createdAt then
      ConsNewestFirst(c, s);
      [c] + s
    else
      assert s == [s[0]] + s[1..];
      var rest := InsertByTime(c, s[1..]);
      ConsNewestFirst(s[0], rest);
      [s[0]] + rest
  }

  /** The rows ordered newest first (rows with equal timestamps in an order the
      datastore leaves open; this one is fixed by insertion). */
  function NewestFirst(s: seq<Confession>): (r: seq<Confession>)
    ensures NewestFirstOrder(r)
    ensures multiset(r) == multiset(s)
  {
    if s == [] then []
    else
      assert s == [s[0]] + s[1..];
      InsertByTime(s[0], NewestFirst(s[1..]))
  }

  predicate HasUnread(s: seq<Confession>) { exists c :: c in s && !c.isRead }

  /** The inbox's "some fetched row is unread" test agrees with the badge's
      unread count: both read the same rows of the table. */
  lemma SomeUnreadIffCount(rows: seq<Confession>, profileId: string)
    ensures HasUnread(NewestFirst(OfProfile(rows, profileId))) <==> UnreadCount(rows, profileId) > 0
  {
    var mine := OfProfile(rows, profileId);
    var shown := NewestFirst(mine);
    if HasUnread(shown) {
      var c :| c in shown && !c.isRead;
      assert c in multiset(shown);
      assert c in multiset(rows);
      assert IsUnreadOf(c, profileId);
    }
    if UnreadCount(rows, profileId) > 0 {
      var c :| c in rows && IsUnreadOf(c, profileId);
      assert c in multiset(rows);
      assert c in multiset(shown);
    }
  }

  class ConfessionTable {
    var rows: seq<Confession>

    constructor (rows: seq<Confession>)
      ensures this.rows == rows
    {
      this.rows := rows;
    }

    /** The head-only exact count query; `fails` stands for a failed request,
        whose `count` is null. */
    method CountUnread(profileId: string, fails: bool) returns (count: Option<nat>)
      ensures fails <==> count.None?
      ensures count.Some? ==> (count.value > 0 <==> exists c :: c in rows && IsUnreadOf(c, profileId))
      ensures count.Some? ==> count.value == UnreadCount(rows, profileId)
    {
      count := if fails then None else Some(UnreadCount(rows, profileId));
    }

    /** The inbox query; `fails` stands for a failed request, whose `data` is null. */
    method SelectNewestFirst(profileId: string, fails: bool) returns (data: Option<seq<Confession>>)
      ensures fails <==> data.None?
      ensures data.Some? ==> NewestFirstOrder(data.value)
      ensures data.Some? ==> forall c :: c in data.value <==> c in rows && c.profileId == profileId
      ensures data.Some? ==> data.value == NewestFirst(OfProfile(rows, profileId))
    {
      if fails {
        data := None;
      } else {
        var s := NewestFirst(OfProfile(rows, profileId));
        forall c ensures c in s <==> c in rows && c.profileId == profileId {
          assert c in s <==> c in multiset(s);
          assert c in rows <==> c in multiset(rows);
        }
        data := Some(s);
      }
    }

    method MarkAllRead(profileId: string)
      modifies this
      ensures rows == MarkRead(old(rows), profileId)
    {
      rows := MarkRead(rows, profileId);
    }
  }
}
