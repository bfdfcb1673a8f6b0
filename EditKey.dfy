/** The edit form of one key (src/pages/dashboard/EditKey.tsx): the
    `keySchema` validation, the comma-separated tag parser, the update
    record with its "rotate only a new and different secret" rule, and the
    page's submit handler, which writes the update and then one audit
    entry. */
module EditKey {
  import opened Wrappers
  import opened Seqs
  import opened Text
  import opened SecretCodec
  import opened Store

  /** The seven fields the form submits, each as the string the browser
      reports for it. */
  datatype KeyForm = KeyForm(
    name: string,
    provider: string,
    environment: string,
    secret: string,
    tags: string,
    notes: string,
    expiresAt: string)

  // ------------------------------------------------------------ validation

  /** The checks of `keySchema`; `secret`, `tags` and `expires_at` accept
      any string. */
  datatype Rule = NameMin | NameMax | ProviderMin | ProviderMax | EnvironmentEnum | NotesMax

  /** The order in which the schema reports failed checks: field by field
      in declaration order, a field's checks in the order written. */
  const SchemaRules: seq<Rule> := [NameMin, NameMax, ProviderMin, ProviderMax, EnvironmentEnum, NotesMax]

  predicate IsEnvironment(env: string)
  {
    env == "production" || env == "development" || env == "staging"
  }

  predicate Violates(f: KeyForm, rule: Rule)
  {
    match rule
    case NameMin => |f.name| < 1
    case NameMax => |f.name| > 100
    case ProviderMin => |f.provider| < 1
    case ProviderMax => |f.provider| > 100
    case EnvironmentEnum => !IsEnvironment(f.environment)
    case NotesMax => |f.notes| > 1000
  }

  function ViolationOf(f: KeyForm): Rule -> bool
  {
    (rule: Rule) => Violates(f, rule)
  }

  /** The issues the schema collects, in reporting order. */
  function Issues(f: KeyForm): seq<Rule>
  {
    Filter(SchemaRules, ViolationOf(f))
  }

  /** What the schema accepts. */
  predicate Valid(f: KeyForm)
  {
    1 <= |f.name| <= 100 && 1 <= |f.provider| <= 100 && IsEnvironment(f.environment) && |f.notes| <= 1000
  }

  /** The message of an issue: the schema's own text for the two minimum
      lengths, the library's default text for the others. */
  function Message(rule: Rule, f: KeyForm): string
  {
    match rule
    case NameMin => "Name is required"
    case NameMax => "String must contain at most 100 character(s)"
    case ProviderMin => "Provider is required"
    case ProviderMax => "String must contain at most 100 character(s)"
    case EnvironmentEnum =>
      "Invalid enum value. Expected 'production' | 'development' | 'staging', received '" + f.environment + "'"
    case NotesMax => "String must contain at most 1000 character(s)"
  }

  /** `keySchema.parse(data)`, with a failure reported by the message of its
      first issue (`error.errors[0].message`). */
  function Validate(f: KeyForm): (r: Result<KeyForm, string>)
    ensures r.Ok? <==> Valid(f)
    ensures r.Ok? ==> r.value == f
  {
    if |f.name| < 1 then Err(Message(NameMin, f))
    else if |f.name| > 100 then Err(Message(NameMax, f))
    else if |f.provider| < 1 then Err(Message(ProviderMin, f))
    else if |f.provider| > 100 then Err(Message(ProviderMax, f))
    else if !IsEnvironment(f.environment) then Err(Message(EnvironmentEnum, f))
    else if |f.notes| > 1000 then Err(Message(NotesMax, f))
    else Ok(f)
  }

  /** The form is accepted exactly when the schema collects no issue, and a
      rejection carries the message of the first issue collected. */
  lemma ValidateReportsFirstIssue(f: KeyForm)
    ensures Validate(f).Ok? <==> Issues(f) == []
    ensures Validate(f).Err? ==> Issues(f) != [] && Validate(f).error == Message(Issues(f)[0], f)
  {
    var p, rs := ViolationOf(f), SchemaRules;
    FilterFrom(rs, 0, p);
    assert rs[0..] == rs;
    if Violates(f, NameMin) {
      assert Issues(f)[0] == NameMin;
      return;
    }
    FilterFrom(rs, 1, p);
    if Violates(f, NameMax) {
      assert Issues(f)[0] == NameMax;
      return;
    }
    FilterFrom(rs, 2, p);
    if Violates(f, ProviderMin) {
      assert Issues(f)[0] == ProviderMin;
      return;
    }
    FilterFrom(rs, 3, p);
    if Violates(f, ProviderMax) {
      assert Issues(f)[0] == ProviderMax;
      return;
    }
    FilterFrom(rs, 4, p);
    if Violates(f, EnvironmentEnum) {
      assert Issues(f)[0] == EnvironmentEnum;
      return;
    }
    FilterFrom(rs, 5, p);
    assert rs[6..] == [];
  }

  // ------------------------------------------------------------ tags

  function NonBlank(): string -> bool
  {
    (t: string) => |t| > 0
  }

  function TrimOne(): string -> string
  {
    (t: string) => Trim(t)
  }

  /** `parts.map(t => t.trim())`. */
  function TrimAll(parts: seq<string>): (r: seq<string>)
    ensures |r| == |parts|
    ensures forall i :: 0 <= i < |parts| ==> r[i] == Trim(parts[i])
  {
    Map(parts, TrimOne())
  }

  /** Trimming removes characters and adds none. */
  lemma TrimKeepsOut(s: string, c: char)
    requires c !in s
    ensures c !in Trim(s)
  {
    var i, j :| 0 <= i <= j <= |s| && Trim(s) == s[i..j];
    forall k | 0 <= k < j - i ensures s[i..j][k] != c {
      assert s[i..j][k] == s[i + k];
    }
  }

  /** Tags the parser can produce. */
  predicate WellFormedTag(t: string)
  {
    t != "" && Trimmed(t) && ',' !in t
  }

  /** The tag parser: split at commas, trim each segment, drop the blank ones. */
  function ParseTags(s: string): (r: seq<string>)
    ensures forall i :: 0 <= i < |r| ==> WellFormedTag(r[i])
  {
    var segments := Split(s);
    var parts := TrimAll(segments);
    var r := Filter(parts, NonBlank());
    forall i | 0 <= i < |r| ensures WellFormedTag(r[i]) {
      assert r[i] in parts && r[i] != "";
      var j :| 0 <= j < |parts| && parts[j] == r[i];
      TrimKeepsOut(segments[j], ',');
    }
    r
  }

  /** The parsed tags are the trimmed segments in segment order, with
      exactly the blank ones left out. */
  lemma ParseTagsKeepsSegments(s: string)
    ensures Subsequence(ParseTags(s), TrimAll(Split(s)))
    ensures forall t :: t in ParseTags(s) <==> t in TrimAll(Split(s)) && t != ""
    ensures |ParseTags(s)| == |Positions(TrimAll(Split(s)), NonBlank())|
  {
    FilterIsSubsequence(TrimAll(Split(s)), NonBlank());
    FilterLengthIsPositionCount(TrimAll(Split(s)), NonBlank());
  }

  /** The segments before a comma are parsed before those after it. */
  lemma ParseTagsAtComma(a: string, b: string)
    ensures ParseTags(a + "," + b) == ParseTags(a) + ParseTags(b)
  {
    SplitAtComma(a, b);
    MapConcat(Split(a), Split(b), TrimOne());
    FilterConcat(TrimAll(Split(a)), TrimAll(Split(b)), NonBlank());
  }

  lemma SpaceHasNoComma(w: string)
    requires AllSpace(w)
    ensures ',' !in w
  {
    forall i | 0 <= i < |w| ensures w[i] != ',' {
      assert IsJsSpace(w[i]);
    }
  }

  /** White space alone parses to no tags. */
  lemma ParseSpace(w: string)
    requires AllSpace(w)
    ensures ParseTags(w) == []
  {
    SpaceHasNoComma(w);
    SplitNoComma(w);
    TrimAllSpace(w);
    assert TrimAll([w]) == [""];
  }

  /** White space and one well-formed tag parse to that tag. */
  lemma ParseOneTag(w: string, t: string)
    requires AllSpace(w) && WellFormedTag(t)
    ensures ParseTags(w + t) == [t]
  {
    SpaceHasNoComma(w);
    assert ',' !in w + t by {
      forall k | 0 <= k < |w + t| ensures (w + t)[k] != ',' {
        if k < |w| { assert (w + t)[k] == w[k]; } else { assert (w + t)[k] == t[k - |w|]; }
      }
    }
    SplitNoComma(w + t);
    TrimAfterSpace(w, t);
    assert TrimAll([w + t]) == [t];
  }

  lemma {:induction false} ParseJoinAfterSpace(w: string, tags: seq<string>)
    requires AllSpace(w)
    requires forall i :: 0 <= i < |tags| ==> WellFormedTag(tags[i])
    ensures ParseTags(w + Join(tags, ", ")) == tags
    decreases |tags|
  {
    if tags == [] {
      assert w + Join(tags, ", ") == w;
      ParseSpace(w);
    } else if |tags| == 1 {
      assert w + Join(tags, ", ") == w + tags[0];
      ParseOneTag(w, tags[0]);
    } else {
      var t, rest := tags[0], tags[1..];
      assert Join(tags, ", ") == t + ", " + Join(rest, ", ");
      assert w + Join(tags, ", ") == (w + t) + "," + (" " + Join(rest, ", "));
      ParseTagsAtComma(w + t, " " + Join(rest, ", "));
      ParseOneTag(w, t);
      assert AllSpace(" ");
      ParseJoinAfterSpace(" ", rest);
      assert tags == [t] + rest;
    }
  }

  /** The tags field starts out as the stored tags joined by ", "; submitting
      it unchanged gives back the same tags. */
  lemma ParseJoinedTags(tags: seq<string>)
    requires forall i :: 0 <= i < |tags| ==> WellFormedTag(tags[i])
    ensures ParseTags(Join(tags, ", ")) == tags
  {
    ParseJoinAfterSpace("", tags);
    assert "" + Join(tags, ", ") == Join(tags, ", ");
  }

  // ------------------------------------------------------------ the update record

  /** A submitted secret replaces the stored one only when it is not empty
      and differs from the secret the page decoded. */
  predicate RotationWanted(secret: string, current: string)
  {
    secret != "" && secret != current
  }

  /** `updateData` for a validated form, or the encoder's failure. */
  function UpdateRecord(v: KeyForm, current: string): (r: Result<KeyUpdate, CodecError>)
    ensures r.Err? <==> RotationWanted(v.secret, current) && !IsByteString(v.secret)
    ensures r.Ok? ==> && r.value.name == v.name && r.value.provider == v.provider
                      && r.value.environment == v.environment && r.value.notes == v.notes
                      && r.value.tags == ParseTags(v.tags)
    ensures r.Ok? ==> r.value.expiresAt == if v.expiresAt == "" then None else Some(v.expiresAt)
    ensures r.Ok? ==> (r.value.encryptedSecret.Some? <==> RotationWanted(v.secret, current))
    ensures r.Ok? && r.value.encryptedSecret.Some? ==>
              EncryptSecret(v.secret) == Ok(r.value.encryptedSecret.value)
              && DecryptSecret(r.value.encryptedSecret.value) == v.secret
  {
    var fields := KeyUpdate(v.name, v.provider, v.environment, ParseTags(v.tags), v.notes,
                            if v.expiresAt == "" then None else Some(v.expiresAt), None);
    if RotationWanted(v.secret, current) then
      match EncryptSecret(v.secret)
      case Ok(token) =>
        RoundTrip(v.secret);
        Ok(fields.(encryptedSecret := Some(token)))
      case Err(e) => Err(e)
    else
      Ok(fields)
  }

  /** The construction of `updateData`: the fixed columns first, the secret
      column added only on rotation. */
  method BuildUpdate(v: KeyForm, current: string) returns (r: Result<KeyUpdate, CodecError>)
    ensures r == UpdateRecord(v, current)
  {
    var update := KeyUpdate(v.name, v.provider, v.environment, ParseTags(v.tags), v.notes, None, None);
    if v.expiresAt != "" {
      update := update.(expiresAt := Some(v.expiresAt));
    }
    if v.secret != "" && v.secret != current {
      var token := EncryptSecret(v.secret);
      if token.Err? {
        return Err(token.error);
      }
      update := update.(encryptedSecret := Some(token.value));
    }
    return Ok(update);
  }

  /** After an update that carries a new token, every row with the key's id
      holds that token. */
  lemma RotatedRowsHoldToken(rows: seq<ApiKeyRecord>, id: string, u: KeyUpdate, toInstant: string -> Instant)
    requires u.encryptedSecret.Some?
    ensures forall i :: 0 <= i < |rows| && rows[i].id == id ==>
              ApplyUpdate(rows, id, u, toInstant)[i].encryptedSecret == u.encryptedSecret.value
  {
  }

  /** An update without a token leaves every stored token as it was. */
  lemma UnrotatedRowsKeepToken(rows: seq<ApiKeyRecord>, id: string, u: KeyUpdate, toInstant: string -> Instant)
    requires u.encryptedSecret.None?
    ensures forall i :: 0 <= i < |rows| ==> ApplyUpdate(rows, id, u, toInstant)[i].encryptedSecret == rows[i].encryptedSecret
  {
  }

  // ------------------------------------------------------------ the page

  /** How a submission ends: rejected by the schema with its message, failed
      ("Failed to update API key") or saved. */
  datatype SubmitOutcome = Rejected(message: string) | Failed | Saved(rotated: bool)

  function SameKey(id: string, userId: string): ApiKeyRecord -> bool
  {
    (r: ApiKeyRecord) => r.id == id && r.userId == userId
  }

  class EditKeyPage {
    const db: Database
    /** The `id` route parameter. */
    const keyId: string
    const userId: string
    var key: Option<ApiKeyRecord>
    var decryptedSecret: string

    constructor (db: Database, keyId: string, userId: string)
      ensures this.db == db && this.keyId == keyId && this.userId == userId
      ensures key == None && decryptedSecret == ""
    {
      this.db := db;
      this.keyId := keyId;
      this.userId := userId;
      key := None;
      decryptedSecret := "";
    }

    /** `fetchKey`: the single row with the route's id owned by the user
        (soft-deleted or not); the query fails when it is missing or not
        unique, or when `fails` reports an error, and the page is left. */
    method FetchKey(fails: bool) returns (found: bool)
      modifies this`key, this`decryptedSecret
      ensures found <==> !fails && |Filter(db.rows, SameKey(keyId, userId))| == 1
      ensures found ==> && key.Some? && key.value in db.rows
                        && key.value.id == keyId && key.value.userId == userId
                        && decryptedSecret == DecryptSecret(key.value.encryptedSecret)
      ensures !found ==> key == old(key) && decryptedSecret == old(decryptedSecret)
    {
      var matches := Filter(db.rows, SameKey(keyId, userId));
      if fails || |matches| != 1 {
        return false;
      }
      key := Some(matches[0]);
      decryptedSecret := DecryptSecret(matches[0].encryptedSecret);
      return true;
    }

    /** The store update followed by the "update" audit entry. */
    method Save(u: KeyUpdate, rotated: bool, now: Instant)
      modifies db`rows, db`audit
      ensures db.rows == ApplyUpdate(old(db.rows), keyId, u, db.toInstant)
      ensures db.audit == old(db.audit) + [AuditEntry(keyId, userId, Update, UpdateStamp(now, rotated))]
      ensures u.encryptedSecret.Some? ==>
        forall i :: 0 <= i < |db.rows| && db.rows[i].id == keyId ==> db.rows[i].encryptedSecret == u.encryptedSecret.value
      ensures u.encryptedSecret.None? ==>
        forall i :: 0 <= i < |db.rows| ==> db.rows[i].encryptedSecret == old(db.rows)[i].encryptedSecret
    {
      if u.encryptedSecret.Some? {
        RotatedRowsHoldToken(db.rows, keyId, u, db.toInstant);
      } else {
        UnrotatedRowsKeepToken(db.rows, keyId, u, db.toInstant);
      }
      db.Update(keyId, u);
      db.Append(AuditEntry(keyId, userId, Update, UpdateStamp(now, rotated)));
    }

    /** `handleSubmit`. `storeFails` stands for an error reported by the
        update; the audit insert is not checked by the page. */
    method HandleSubmit(form: KeyForm, storeFails: bool, now: Instant) returns (outcome: SubmitOutcome)
      modifies db`rows, db`audit
      ensures outcome.Rejected? <==> !Valid(form)
      ensures outcome.Rejected? ==> outcome.message == Validate(form).error
      ensures outcome == Failed <==> Valid(form) && (UpdateRecord(form, decryptedSecret).Err? || storeFails)
      ensures !outcome.Saved? ==> db.rows == old(db.rows) && db.audit == old(db.audit)
      ensures outcome.Saved? ==>
        var u := UpdateRecord(form, decryptedSecret).value;
        && db.rows == ApplyUpdate(old(db.rows), keyId, u, db.toInstant)
        && db.audit == old(db.audit) + [AuditEntry(keyId, userId, Update, UpdateStamp(now, outcome.rotated))]
        && (outcome.rotated <==> u.encryptedSecret.Some?)
      ensures outcome == Saved(true) ==>
        forall i :: 0 <= i < |db.rows| && db.rows[i].id == keyId ==> DecryptSecret(db.rows[i].encryptedSecret) == form.secret
      ensures outcome == Saved(false) ==>
        forall i :: 0 <= i < |db.rows| ==> db.rows[i].encryptedSecret == old(db.rows)[i].encryptedSecret
    {
      var validated := Validate(form);
      if validated.Err? {
        return Rejected(validated.error);
      }
      var v := validated.value;
      var update := BuildUpdate(v, decryptedSecret);
      if update.Err? || storeFails {
        return Failed;
      }
      var u := update.value;
      var rotated := v.secret != "" && v.secret != decryptedSecret;
      assert rotated <==> u.encryptedSecret.Some?;
      assert rotated ==> DecryptSecret(u.encryptedSecret.value) == form.secret;
      Save(u, rotated, now);
      return Saved(rotated);
    }
  }
}
