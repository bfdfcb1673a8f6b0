/** The key list page (src/pages/dashboard/Keys.tsx): the search filter, the
    masked secret cell, the tag badges and the environment badge as
    functions, and the page's state (the fetched keys, the revealed
    secrets, the reveal dialog, the pending delete) as a class whose
    methods are the page's event handlers. */
module Keys {
  import opened Wrappers
  import opened Seqs
  import opened Text
  import opened SecretCodec
  import opened Store

  // ------------------------------------------------------------ search

  /** The test of `filteredKeys`: the lower-cased name, provider or one of
      the lower-cased tags contains the lower-cased search term. */
  predicate MatchesSearch(k: ApiKeyRecord, term: string)
  {
    var t := Lower(term);
    Includes(Lower(k.name), t) || Includes(Lower(k.provider), t)
    || exists i :: 0 <= i < |k.tags| && Includes(Lower(k.tags[i]), t)
  }

  function SearchFilter(term: string): ApiKeyRecord -> bool
  {
    (k: ApiKeyRecord) => MatchesSearch(k, term)
  }

  /** `filteredKeys`: the keys the table shows for a search term. */
  function FilteredKeys(keys: seq<ApiKeyRecord>, term: string): (r: seq<ApiKeyRecord>)
    ensures |r| <= |keys|
    ensures forall k :: k in r <==> k in keys && MatchesSearch(k, term)
  {
    Filter(keys, SearchFilter(term))
  }

  /** The shown keys are the listed ones with some left out, in list order. */
  lemma FilteredKeysInOrder(keys: seq<ApiKeyRecord>, term: string)
    ensures Subsequence(FilteredKeys(keys, term), keys)
  {
    FilterIsSubsequence(keys, SearchFilter(term));
  }

  /** An empty search term shows every key. */
  lemma EmptySearchShowsAll(keys: seq<ApiKeyRecord>)
    ensures FilteredKeys(keys, "") == keys
  {
    forall i | 0 <= i < |keys| ensures MatchesSearch(keys[i], "") {
      IncludesEmpty(Lower(keys[i].name));
    }
    FilterKeepsAll(keys, SearchFilter(""));
  }

  /** The search does not depend on the case of the term's ASCII letters. */
  lemma SearchIgnoresCase(keys: seq<ApiKeyRecord>, term: string)
    ensures FilteredKeys(keys, Lower(term)) == FilteredKeys(keys, term)
  {
    LowerIdempotent(term);
    FilterCongruent(keys, SearchFilter(Lower(term)), SearchFilter(term));
  }

  // ------------------------------------------------------------ the secret cell

  /** Eight bullets (U+2022). */
  const Bullets: string := ['\U{2022}', '\U{2022}', '\U{2022}', '\U{2022}', '\U{2022}', '\U{2022}', '\U{2022}', '\U{2022}']

  /** `maskSecret`: eight bullets alone for a short value, otherwise the
      first four characters, eight bullets and the last four. */
  function MaskSecret(secret: string): (r: string)
    ensures |r| == if |secret| <= 8 then 8 else 16
    ensures |secret| <= 8 ==> r == Bullets
    ensures |secret| > 8 ==> r[..4] == secret[..4] && r[4..12] == Bullets && r[12..] == secret[|secret| - 4..]
  {
    if |secret| <= 8 then Bullets
    else secret[..4] + Bullets + secret[|secret| - 4..]
  }

  /** The mask tells apart two values only by their length class, their
      first four and their last four characters. */
  lemma MaskShowsOnlyEnds(s: string, t: string)
    requires (|s| <= 8 && |t| <= 8) || (|s| > 8 && |t| > 8 && s[..4] == t[..4] && s[|s| - 4..] == t[|t| - 4..])
    ensures MaskSecret(s) == MaskSecret(t)
  {
  }

  /** `revealedSecrets[key.id]` is present and not the empty string (the
      truthiness test of the secret cell and of the row's buttons). */
  predicate ShowsRevealed(revealed: map<string, string>, key: ApiKeyRecord)
  {
    key.id in revealed && revealed[key.id] != ""
  }

  /** The secret cell: `revealedSecrets[key.id] || maskSecret(key.encrypted_secret)`. */
  function DisplayedSecret(revealed: map<string, string>, key: ApiKeyRecord): (r: string)
    ensures ShowsRevealed(revealed, key) ==> r == revealed[key.id]
    ensures !ShowsRevealed(revealed, key) ==> r == MaskSecret(key.encryptedSecret) && |r| in {8, 16}
  {
    if ShowsRevealed(revealed, key) then revealed[key.id] else MaskSecret(key.encryptedSecret)
  }

  datatype RowButtons = HideAndCopy | RevealOnly

  /** The eye-off and copy buttons stand in a row exactly when its secret
      cell shows a revealed value; otherwise the eye button does. */
  function RowActions(revealed: map<string, string>, key: ApiKeyRecord): (b: RowButtons)
    ensures b == HideAndCopy <==> ShowsRevealed(revealed, key)
    ensures b == RevealOnly ==> DisplayedSecret(revealed, key) == MaskSecret(key.encryptedSecret)
  {
    if ShowsRevealed(revealed, key) then HideAndCopy else RevealOnly
  }

  // ------------------------------------------------------------ badges

  datatype BadgeVariant = Destructive | Default | Secondary

  /** `getEnvironmentColor`. */
  function EnvironmentColor(env: string): (v: BadgeVariant)
    ensures v == Destructive <==> env == "production"
    ensures v == Secondary <==> env == "development"
    ensures v == Default <==> env != "production" && env != "development"
  {
    if env == "production" then Destructive
    else if env == "staging" then Default
    else if env == "development" then Secondary
    else Default
  }

  /** The tag cell: the first two tags as badges, and a "+k" badge when
      more are left. */
  datatype TagSummary = TagSummary(shown: seq<string>, more: Option<nat>)

  function SummarizeTags(tags: seq<string>): (r: TagSummary)
    ensures |r.shown| <= 2 && r.shown <= tags
    ensures r.shown == tags[..if |tags| < 2 then |tags| else 2]
    ensures r.more.Some? <==> |tags| > 2
    ensures r.more.Some? ==> r.more.value == |tags| - 2
    ensures |r.shown| + (if r.more.Some? then r.more.value else 0) == |tags|
    ensures r.more.Some? ==> r.more.value >= 1
  {
    var shown := if |tags| <= 2 then tags else tags[..2];
    TagSummary(shown, if |tags| > 2 then Some(|tags| - 2) else None)
  }

  /** Every tag is either a badge or counted in the "+k" badge: the badges
      followed by the tags they leave out are the whole list, and k is the
      number of those left out. */
  lemma SummaryAccountsForEveryTag(tags: seq<string>)
    ensures var r := SummarizeTags(tags);
            && r.shown + tags[|r.shown|..] == tags
            && (r.more.Some? <==> tags[|r.shown|..] != [])
            && (r.more.Some? ==> r.more.value == |tags[|r.shown|..]|)
  {
    var r := SummarizeTags(tags);
    assert r.shown + tags[|r.shown|..] == tags[..|r.shown|] + tags[|r.shown|..];
  }

  // ------------------------------------------------------------ reveal dialog

  datatype RevealDialog = RevealDialog(open: bool, keyId: Option<string>, password: string)

  const ClosedDialog := RevealDialog(false, None, "")

  /** The key the dialog is about, if `revealDialog.keyId` is truthy. */
  function DialogTarget(d: RevealDialog): (t: Option<string>)
    ensures t.Some? <==> d.keyId.Some? && d.keyId.value != ""
    ensures t.Some? ==> t == d.keyId
  {
    if d.keyId.Some? && d.keyId.value != "" then d.keyId else None
  }

  /** `keys.find(k => k.id === id)`: the first key with that id. */
  function FindKey(keys: seq<ApiKeyRecord>, id: string): (r: Option<ApiKeyRecord>)
    ensures r.None? <==> forall i :: 0 <= i < |keys| ==> keys[i].id != id
    ensures r.Some? ==> r.value.id == id && exists i :: 0 <= i < |keys| && keys[i] == r.value
                                              && forall j :: 0 <= j < i ==> keys[j].id != id
  {
    if keys == [] then None
    else if keys[0].id == id then Some(keys[0])
    else
      var r := FindKey(keys[1..], id);
      assert forall i :: 0 < i < |keys| ==> keys[i] == keys[1..][i - 1];
      r
  }

  datatype RevealOutcome = NoTarget | IncorrectPassword | NotListed | Revealed

  // ------------------------------------------------------------ the page

  class KeysPage {
    const db: Database
    /** The signed-in user (`user.id`). */
    const userId: string
    var keys: seq<ApiKeyRecord>
    var searchTerm: string
    /** The key the delete confirmation is open for. */
    var deleteKey: Option<string>
    var revealDialog: RevealDialog
    var revealedSecrets: map<string, string>

    constructor (db: Database, userId: string)
      ensures this.db == db && this.userId == userId
      ensures keys == [] && searchTerm == "" && deleteKey == None
      ensures revealDialog == ClosedDialog && revealedSecrets == map[]
    {
      this.db := db;
      this.userId := userId;
      keys := [];
      searchTerm := "";
      deleteKey := None;
      revealDialog := ClosedDialog;
      revealedSecrets := map[];
    }

    /** The rows the table shows. */
    function Shown(): seq<ApiKeyRecord>
      reads this
    {
      FilteredKeys(keys, searchTerm)
    }

    /** `fetchKeys`; `fails` stands for an error reported by the query, after
        which the list is left as it was. */
    method FetchKeys(fails: bool)
      modifies this`keys
      ensures keys == if fails then old(keys) else KeysQuery(db.rows, userId)
      ensures !fails ==> NewestFirstOrder(keys) && forall k :: k in keys <==> k in db.rows && IsActiveOf(userId, k)
    {
      if !fails {
        keys := KeysQuery(db.rows, userId);
      }
    }

    method SetSearchTerm(term: string)
      modifies this`searchTerm
      ensures searchTerm == term
    {
      searchTerm := term;
    }

    /** `handleReveal`: open the dialog for one key with an empty password. */
    method HandleReveal(keyId: string)
      modifies this`revealDialog
      ensures revealDialog == RevealDialog(true, Some(keyId), "")
    {
      revealDialog := RevealDialog(true, Some(keyId), "");
    }

    /** Typing in the dialog's password field. */
    method EnterPassword(password: string)
      modifies this`revealDialog
      ensures revealDialog == old(revealDialog).(password := password)
    {
      revealDialog := revealDialog.(password := password);
    }

    /** The dialog's Cancel button, or dismissing it. */
    method CloseReveal()
      modifies this`revealDialog
      ensures revealDialog == ClosedDialog
    {
      revealDialog := ClosedDialog;
    }

    /** `confirmReveal`. `authenticated` is the answer of the re-authentication
        with the user's e-mail and the dialog's password; it is asked for
        before anything is decoded or logged. */
    method ConfirmReveal(authenticated: bool, now: Instant) returns (outcome: RevealOutcome)
      modifies this`revealedSecrets, this`revealDialog, db`audit
      ensures outcome == NoTarget <==> DialogTarget(old(revealDialog)).None?
      ensures outcome == IncorrectPassword <==> DialogTarget(old(revealDialog)).Some? && !authenticated
      ensures outcome == NotListed <==> DialogTarget(old(revealDialog)).Some? && authenticated
                                        && FindKey(keys, DialogTarget(old(revealDialog)).value).None?
      ensures outcome != Revealed ==> revealedSecrets == old(revealedSecrets) && revealDialog == old(revealDialog)
                                      && db.audit == old(db.audit)
      ensures outcome == Revealed ==>
        var key := FindKey(keys, DialogTarget(old(revealDialog)).value).value;
        && key in keys
        && revealedSecrets == old(revealedSecrets)[key.id := DecryptSecret(key.encryptedSecret)]
        && db.audit == old(db.audit) + [AuditEntry(key.id, userId, Reveal, Stamp(now))]
        && revealDialog == ClosedDialog
        && forall k: ApiKeyRecord :: k.id != key.id ==> DisplayedSecret(revealedSecrets, k) == DisplayedSecret(old(revealedSecrets), k)
      ensures old(db.audit) <= db.audit
    {
      var target := DialogTarget(revealDialog);
      if target.None? {
        return NoTarget;
      }
      if !authenticated {
        return IncorrectPassword;
      }
      var found := FindKey(keys, target.value);
      if found.None? {
        return NotListed;
      }
      var key := found.value;
      var decrypted := DecryptSecret(key.encryptedSecret);
      revealedSecrets := revealedSecrets[key.id := decrypted];
      db.Append(AuditEntry(key.id, userId, Reveal, Stamp(now)));
      revealDialog := ClosedDialog;
      outcome := Revealed;
    }

    /** The eye-off button of a row: forget that key's revealed secret. */
    method Hide(keyId: string)
      modifies this`revealedSecrets
      ensures revealedSecrets == old(revealedSecrets) - {keyId}
      ensures forall id :: id in old(revealedSecrets) && id != keyId ==> id in revealedSecrets && revealedSecrets[id] == old(revealedSecrets)[id]
      ensures forall k: ApiKeyRecord :: k.id == keyId ==> DisplayedSecret(revealedSecrets, k) == MaskSecret(k.encryptedSecret)
      ensures Shown() == old(Shown())
    {
      revealedSecrets := revealedSecrets - {keyId};
    }

    /** `handleCopy`: the clipboard write, then one "copy" entry. The
        clipboard itself is not modelled; `clipboardFails` stands for a
        rejected write, which ends the handler before anything is logged. */
    method HandleCopy(keyId: string, secret: string, clipboardFails: bool, now: Instant)
      modifies db`audit
      ensures db.audit == if clipboardFails then old(db.audit) else old(db.audit) + [AuditEntry(keyId, userId, Copy, Stamp(now))]
      ensures revealedSecrets == old(revealedSecrets) && keys == old(keys) && db.rows == old(db.rows)
    {
      if clipboardFails {
        return;
      }
      db.Append(AuditEntry(keyId, userId, Copy, Stamp(now)));
    }

    /** The trash button of a row: ask for confirmation. */
    method RequestDelete(keyId: string)
      modifies this`deleteKey
      ensures deleteKey == Some(keyId)
    {
      deleteKey := Some(keyId);
    }

    /** Dismissing the delete confirmation. */
    method CancelDelete()
      modifies this`deleteKey
      ensures deleteKey == None
    {
      deleteKey := None;
    }

    /** `handleDelete`: a soft delete, then a fresh fetch when it succeeded.
        `updateFails` and `fetchFails` stand for errors reported by the two
        calls. */
    method HandleDelete(keyId: string, updateFails: bool, fetchFails: bool)
      modifies db`rows, this`keys, this`deleteKey
      ensures db.rows == if updateFails then old(db.rows) else MarkDeleted(old(db.rows), keyId)
      ensures keys == if updateFails || fetchFails then old(keys) else KeysQuery(db.rows, userId)
      ensures db.audit == old(db.audit)
      ensures deleteKey == None
      ensures !updateFails && !fetchFails ==> forall k :: k in keys ==> k.id != keyId
      ensures !updateFails && !fetchFails ==> forall k :: k in Shown() ==> k.id != keyId && k in keys
    {
      if !updateFails {
        db.SoftDelete(keyId);
        DeletedKeyNotFetched(old(db.rows), keyId, userId);
        FetchKeys(fetchFails);
      }
      deleteKey := None;
    }
  }
}
