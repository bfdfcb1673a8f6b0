/** The two tables of the hosted database the pages read and write:
    `api_keys`, one row per stored credential, and `key_audit`, the
    append-only log of reveal, copy and update actions. The queries the
    pages issue are modelled as functions on the table contents; the
    database itself is a class whose fields are the two tables. */
module Store {
  import opened Wrappers
  import opened Seqs

  /** Milliseconds since the epoch. */
  type Instant = int

  /** A row of `api_keys`. */
  datatype ApiKeyRecord = ApiKeyRecord(
    id: string,
    userId: string,
    name: string,
    provider: string,
    environment: string,
    encryptedSecret: string,
    tags: seq<string>,
    notes: string,
    expiresAt: Option<Instant>,
    lastUsedAt: Option<Instant>,
    createdAt: Instant,
    isDeleted: bool)

  datatype AuditAction = Reveal | Copy | Update

  /** The `metadata` column: a timestamp and, for an update, whether the
      secret was rotated. */
  datatype AuditMetadata = Stamp(timestamp: Instant) | UpdateStamp(timestamp: Instant, secretRotated: bool)

  /** A row of `key_audit`. */
  datatype AuditEntry = AuditEntry(keyId: string, userId: string, action: AuditAction, metadata: AuditMetadata)

  /** The columns an edit writes (`updateData` in EditKey.tsx); the secret
      column only when the secret is rotated, the expiry as the date-input
      string or null. */
  datatype KeyUpdate = KeyUpdate(
    name: string,
    provider: string,
    environment: string,
    tags: seq<string>,
    notes: string,
    expiresAt: Option<string>,
    encryptedSecret: Option<string>)

  // ------------------------------------------------------------ queries

  /** The filter `.eq("user_id", userId).eq("is_deleted", false)`. */
  predicate IsActiveOf(userId: string, r: ApiKeyRecord)
  {
    r.userId == userId && !r.isDeleted
  }

  function ActiveFilter(userId: string): ApiKeyRecord -> bool
  {
    (r: ApiKeyRecord) => IsActiveOf(userId, r)
  }

  /** The rows of `userId` that are not soft-deleted, in table order. */
  function ActiveOf(rows: seq<ApiKeyRecord>, userId: string): (r: seq<ApiKeyRecord>)
    ensures forall k :: k in r <==> k in rows && IsActiveOf(userId, k)
  {
    Filter(rows, ActiveFilter(userId))
  }

  /** `.order("created_at", { ascending: false })`. */
  predicate NewestFirstOrder(rs: seq<ApiKeyRecord>)
  {
    forall i, j :: 0 <= i < j < |rs| ==> rs[i].createdAt >= rs[j].createdAt
  }

  function InsertByAge(x: ApiKeyRecord, rs: seq<ApiKeyRecord>): (r: seq<ApiKeyRecord>)
    requires NewestFirstOrder(rs)
    ensures NewestFirstOrder(r)
    ensures multiset(r) == multiset(rs) + multiset{x}
    ensures forall k :: k in r ==> k == x || k in rs
  {
    if rs == [] || rs[0].createdAt <= x.createdAt then
      [x] + rs
    else
      var tail := InsertByAge(x, rs[1..]);
      assert rs == [rs[0]] + rs[1..];
      assert forall k :: k in tail ==> k.createdAt <= rs[0].createdAt;
      ConsNewestFirst(rs[0], tail);
      [rs[0]] + tail
  }

  lemma ConsNewestFirst(h: ApiKeyRecord, t: seq<ApiKeyRecord>)
    requires NewestFirstOrder(t)
    requires forall k :: k in t ==> k.createdAt <= h.createdAt
    ensures NewestFirstOrder([h] + t)
  {
    var r := [h] + t;
    forall i, j | 0 <= i < j < |r| ensures r[i].createdAt >= r[j].createdAt {
      assert r[j] == t[j - 1];
      if i > 0 { assert r[i] == t[i - 1]; } else { assert r[j] in t; }
    }
  }

  /** The rows sorted newest first; rows created at the same instant keep
      no promised order in the database, and here keep the insertion-sort
      order. */
  function NewestFirst(rs: seq<ApiKeyRecord>): (r: seq<ApiKeyRecord>)
    ensures NewestFirstOrder(r)
    ensures multiset(r) == multiset(rs)
  {
    if rs == [] then []
    else
      assert rs == [rs[0]] + rs[1..];
      InsertByAge(rs[0], NewestFirst(rs[1..]))
  }

  /** The query of `fetchKeys` in Keys.tsx: the user's rows that are not
      soft-deleted, newest first. */
  function KeysQuery(rows: seq<ApiKeyRecord>, userId: string): (r: seq<ApiKeyRecord>)
    ensures NewestFirstOrder(r)
    ensures multiset(r) == multiset(ActiveOf(rows, userId))
    ensures forall k :: k in r <==> k in rows && IsActiveOf(userId, k)
  {
    var r := NewestFirst(ActiveOf(rows, userId));
    assert forall k :: k in r <==> k in multiset(r);
    r
  }

  // ------------------------------------------------------------ updates

  /** `.update({ is_deleted: true }).eq("id", id)`: the flag is set on the
      rows with that id and nothing else changes; no row is removed. */
  function MarkDeleted(rows: seq<ApiKeyRecord>, id: string): (r: seq<ApiKeyRecord>)
    ensures |r| == |rows|
    ensures forall i :: 0 <= i < |rows| && rows[i].id == id ==> r[i] == rows[i].(isDeleted := true)
    ensures forall i :: 0 <= i < |rows| && rows[i].id != id ==> r[i] == rows[i]
  {
    seq(|rows|, i requires 0 <= i < |rows| => if rows[i].id == id then rows[i].(isDeleted := true) else rows[i])
  }

  /** One row after `.update(updateData)`: the edited columns take the new
      values, the secret only when `updateData` carries one; identity,
      owner, creation time, last use and the deletion flag are kept. */
  function Patched(r: ApiKeyRecord, u: KeyUpdate, toInstant: string -> Instant): (p: ApiKeyRecord)
    ensures p.id == r.id && p.userId == r.userId && p.createdAt == r.createdAt
    ensures p.lastUsedAt == r.lastUsedAt && p.isDeleted == r.isDeleted
    ensures p.name == u.name && p.provider == u.provider && p.environment == u.environment
    ensures p.tags == u.tags && p.notes == u.notes
    ensures p.expiresAt.None? <==> u.expiresAt.None?
    ensures u.expiresAt.Some? ==> p.expiresAt == Some(toInstant(u.expiresAt.value))
    ensures p.encryptedSecret == if u.encryptedSecret.Some? then u.encryptedSecret.value else r.encryptedSecret
  {
    r.(name := u.name, provider := u.provider, environment := u.environment, tags := u.tags, notes := u.notes,
       expiresAt := if u.expiresAt.Some? then Some(toInstant(u.expiresAt.value)) else None,
       encryptedSecret := if u.encryptedSecret.Some? then u.encryptedSecret.value else r.encryptedSecret)
  }

  /** `.update(updateData).eq("id", id)`. */
  function ApplyUpdate(rows: seq<ApiKeyRecord>, id: string, u: KeyUpdate, toInstant: string -> Instant): (r: seq<ApiKeyRecord>)
    ensures |r| == |rows|
    ensures forall i :: 0 <= i < |rows| && rows[i].id == id ==> r[i] == Patched(rows[i], u, toInstant)
    ensures forall i :: 0 <= i < |rows| && rows[i].id != id ==> r[i] == rows[i]
  {
    seq(|rows|, i requires 0 <= i < |rows| => if rows[i].id == id then Patched(rows[i], u, toInstant) else rows[i])
  }

  function OtherId(id: string): ApiKeyRecord -> bool
  {
    (k: ApiKeyRecord) => k.id != id
  }

  /** After a soft delete, the active rows are the former ones less those
      with the deleted id, in the same order. */
  lemma {:induction false} MarkDeletedActive(rows: seq<ApiKeyRecord>, id: string, userId: string)
    ensures ActiveOf(MarkDeleted(rows, id), userId) == Filter(ActiveOf(rows, userId), OtherId(id))
  {
    if rows != [] {
      var m := MarkDeleted(rows, id);
      assert m[1..] == MarkDeleted(rows[1..], id);
      MarkDeletedActive(rows[1..], id, userId);
    }
  }

  /** A soft-deleted key drops out of every later fetch, and every other key
      of the user is still fetched. */
  lemma DeletedKeyNotFetched(rows: seq<ApiKeyRecord>, id: string, userId: string)
    ensures forall k :: k in KeysQuery(MarkDeleted(rows, id), userId) ==> k.id != id
    ensures forall k :: k in KeysQuery(rows, userId) && k.id != id ==> k in KeysQuery(MarkDeleted(rows, id), userId)
    ensures multiset(KeysQuery(MarkDeleted(rows, id), userId)) == multiset(Filter(ActiveOf(rows, userId), OtherId(id)))
  {
    MarkDeletedActive(rows, id, userId);
  }

  // ------------------------------------------------------------ the tables

  class Database {
    /** The `api_keys` table. */
    var rows: seq<ApiKeyRecord>
    /** The `key_audit` table. */
    var audit: seq<AuditEntry>
    /** How the database turns the string of a date input into the instant
        it stores; date parsing is not part of this model. */
    const toInstant: string -> Instant

    constructor (rows: seq<ApiKeyRecord>, audit: seq<AuditEntry>, toInstant: string -> Instant)
      ensures this.rows == rows && this.audit == audit && this.toInstant == toInstant
    {
      this.rows := rows;
      this.audit := audit;
      this.toInstant := toInstant;
    }

    method SoftDelete(id: string)
      modifies this`rows
      ensures rows == MarkDeleted(old(rows), id)
    {
      rows := MarkDeleted(rows, id);
    }

    method Update(id: string, u: KeyUpdate)
      modifies this`rows
      ensures rows == ApplyUpdate(old(rows), id, u, toInstant)
    {
      rows := ApplyUpdate(rows, id, u, toInstant);
    }

    /** An insert into `key_audit`; entries are only ever appended. */
    method Append(e: AuditEntry)
      modifies this`audit
      ensures audit == old(audit) + [e]
    {
      audit := audit + [e];
    }
  }
}
