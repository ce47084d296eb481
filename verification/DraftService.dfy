/** The draft handlers: what is validated on every write passes again when the draft is published. */
module DraftService {
  import opened Core
  import opened Tables
  import opened TransactionProtocol
  import opened SerialTransactions
  import opened Repositories
  import opened NodeJson
  import T = Text
  import Codecs

  datatype ServiceError =
    | InvalidArgument(field: string)
    | InvalidNode(fault: NodeError)
    | ContentTooLarge(actual: nat, max: nat)
    | PermissionDenied
    | EmptyUpdateMask
    | UnallowedMaskPath(path: string)
    | AccountNotFound
    | AccountDeleted
    | Refused(error: RepoError)

  predicate IsValidation(e: ServiceError) {
    e.InvalidArgument? || e.InvalidNode? || e.ContentTooLarge?
  }

  /** The URL parser (an http or https URL), the serialised length of a JSON value, and the size cap. */
  datatype Limits = Limits(isHttpUrl: string -> bool, serializedLen: Json -> nat, contentMaxBytes: nat)

  // ----- Field validators ----------------------------------------------------------------------------

  function ValidateTitle(raw: string): Result<string, ServiceError> {
    var trimmed := T.Trim(raw);
    if 1 <= |trimmed| <= 256 then Ok(trimmed) else Err(InvalidArgument("title"))
  }

  function ValidateAuthorName(raw: string): Result<string, ServiceError> {
    if |raw| > 128 then Err(InvalidArgument("author_name")) else Ok(raw)
  }

  /** `str::len`: bytes in UTF-8. */
  function Utf8Len(s: string): nat {
    if s == "" then 0
    else
      var c := s[0] as int;
      (if c < 0x80 then 1 else if c < 0x800 then 2 else if c < 0x1_0000 then 3 else 4) + Utf8Len(s[1..])
  }

  function ValidateAuthorUrl(lim: Limits, raw: string): Result<string, ServiceError> {
    if raw == "" then Ok("")
    else if Utf8Len(raw) > 512 || !lim.isHttpUrl(raw) then Err(InvalidArgument("author_url"))
    else Ok(raw)
  }

  predicate ContentOk(lim: Limits, nodes: seq<Node>) {
    nodes != [] && NodesOk(nodes) && lim.serializedLen(NodesToJson(nodes)) <= lim.contentMaxBytes
  }

  method ValidateAndEncodeContent(lim: Limits, content: seq<Node>) returns (r: Result<Json, ServiceError>)
    ensures r.Ok? <==> ContentOk(lim, content)
    ensures r.Ok? ==> r.value == NodesToJson(content)
    ensures r.Err? ==> IsValidation(r.error)
    ensures r.Err? ==>
              if content == [] then r.error == InvalidArgument("content")
              else if NodesOk(content) then
                r.error == ContentTooLarge(lim.serializedLen(NodesToJson(content)), lim.contentMaxBytes)
              else r.error.InvalidNode? && exists i :: 0 <= i < |content| && NodesOk(content[..i])
                                                       && Fault(content[i], r.error.fault)
  {
    if content == [] {
      return Err(InvalidArgument("content"));
    }
    for i := 0 to |content|
      invariant NodesOk(content[..i])
    {
      var checked := ValidateNode(content[i]);
      if checked.Err? {
        assert content[i] in content;
        return Err(InvalidNode(checked.error));
      }
      assert content[..i + 1] == content[..i] + [content[i]];
    }
    assert content[..|content|] == content;
    var json := EncodeNodes(content);
    var len := lim.serializedLen(json);
    if len > lim.contentMaxBytes {
      return Err(ContentTooLarge(len, lim.contentMaxBytes));
    }
    return Ok(json);
  }

  lemma {:induction false} Utf8LenAdds(a: string, b: string)
    ensures Utf8Len(a + b) == Utf8Len(a) + Utf8Len(b)
    decreases |a|
  {
    if a == "" {
      assert a + b == b;
    } else {
      Utf8LenAdds(a[1..], b);
      assert (a + b)[1..] == a[1..] + b;
    }
  }

  /** The limits of the fields: characters of the trimmed title and of the author's name, bytes of the URL. */
  lemma FieldLimits(lim: Limits, raw: string)
    ensures ValidateTitle(raw) == if 1 <= |T.Trim(raw)| <= 256 then Ok(T.Trim(raw)) else Err(InvalidArgument("title"))
    ensures ValidateAuthorName(raw) == if |raw| <= 128 then Ok(raw) else Err(InvalidArgument("author_name"))
    ensures ValidateAuthorUrl(lim, raw)
         == if raw == "" || (Utf8Len(raw) <= 512 && lim.isHttpUrl(raw)) then Ok(raw) else Err(InvalidArgument("author_url"))
  {
  }

  /** One to four bytes a character. */
  lemma Utf8LenOfOne(c: char)
    ensures Utf8Len([c]) == if c as int <= 0x7F then 1 else if c as int <= 0x7FF then 2
                            else if c as int <= 0xFFFF then 3 else 4
  {
    assert [c][1..] == "";
  }

  // ----- Stored drafts ---------------------------------------------------------------------------------

  /** A stored draft passes the validators that publishing runs. */
  predicate Revalidates(lim: Limits, d: DraftRow) {
    && ValidateTitle(d.title).Ok? && ValidateAuthorName(d.authorName.GetOr("")).Ok?
    && ValidateAuthorUrl(lim, d.authorUrl.GetOr("")).Ok? && ContentOk(lim, JsonToNodes(d.content))
  }

  /** The content is the JSON of the nodes it reads back as. */
  predicate Encoded(content: Json) {
    NodesToJson(JsonToNodes(content)) == content
  }

  ghost predicate DraftsValid(lim: Limits, db: Db) {
    forall id :: id in db.drafts ==> Revalidates(lim, db.drafts[id]) && Encoded(db.drafts[id].content)
  }

  /** What a handler passes to the repository: values the validators let through. */
  predicate EntryOk(lim: Limits, entry: NewEntry) {
    && ValidateTitle(entry.title) == Ok(entry.title) && ValidateAuthorName(entry.authorName).Ok?
    && ValidateAuthorUrl(lim, entry.authorUrl).Ok?
    && ContentOk(lim, JsonToNodes(entry.content)) && Encoded(entry.content)
  }

  predicate EditOk(lim: Limits, edit: Edit) {
    && (edit.title.Some? ==> ValidateTitle(edit.title.value).Ok?)
    && (edit.authorName.Some? ==> ValidateAuthorName(edit.authorName.value).Ok?)
    && (edit.authorUrl.Some? ==> ValidateAuthorUrl(lim, edit.authorUrl.value).Ok?)
    && (edit.content.Some? ==> ContentOk(lim, JsonToNodes(edit.content.value)) && Encoded(edit.content.value))
  }

  /** Draft writes come from the handlers; everything else is free. */
  predicate OpOk(lim: Limits, op: Op) {
    match op
    case CreateDraft(_, entry) => EntryOk(lim, entry)
    case UpdateDraft(_, edit) => EditOk(lim, edit)
    case _ => true
  }

  /** A validated title is already trimmed, so it validates again as itself. */
  lemma TitleValidatesAgain(raw: string)
    ensures ValidateTitle(raw).Ok? ==> ValidateTitle(ValidateTitle(raw).value) == ValidateTitle(raw)
  {
    T.TrimTrims(raw);
    T.TrimTrims(T.Trim(raw));
  }

  /** Where the drafts after a transaction come from. */
  lemma DraftAfter(db: Db, op: Op, now: Time, id: Uuid)
    requires id in After(db, op, now).drafts
    ensures var d := After(db, op, now).drafts[id];
            || (id in db.drafts && d == db.drafts[id])
            || (op.CreateDraft? && d == NewDraftRow(op.entry, now))
            || (op.UpdateDraft? && id in db.drafts && d == UpdatedDraft(db.drafts[id], op.edit, now))
  {
    hide FirstVersion, NextVersion, Redacted, NewDraftRow, UpdatedDraft, DraftVersion;
  }

  lemma CreatedDraftIsValid(lim: Limits, entry: NewEntry, now: Time)
    requires EntryOk(lim, entry)
    ensures Revalidates(lim, NewDraftRow(entry, now)) && Encoded(NewDraftRow(entry, now).content)
  {
    hide ValidateTitle, ValidateAuthorName, ContentOk, Encoded, JsonToNodes;
  }

  lemma UpdatedDraftIsValid(lim: Limits, d: DraftRow, edit: Edit, now: Time)
    requires Revalidates(lim, d) && Encoded(d.content) && EditOk(lim, edit)
    ensures Revalidates(lim, UpdatedDraft(d, edit, now)) && Encoded(UpdatedDraft(d, edit, now).content)
  {
    hide ValidateTitle, ValidateAuthorName, ContentOk, Encoded, JsonToNodes;
  }

  lemma OperationKeepsDraftsValid(lim: Limits, db: Db, op: Op, now: Time)
    requires DraftsValid(lim, db) && OpOk(lim, op)
    ensures DraftsValid(lim, After(db, op, now))
  {
    hide Revalidates, Encoded, EntryOk, EditOk, After, NewDraftRow, UpdatedDraft;
    forall id | id in After(db, op, now).drafts
      ensures Revalidates(lim, After(db, op, now).drafts[id]) && Encoded(After(db, op, now).drafts[id].content)
    {
      DraftAfter(db, op, now, id);
      if op.CreateDraft? {
        CreatedDraftIsValid(lim, op.entry, now);
      } else if op.UpdateDraft? && id in db.drafts {
        UpdatedDraftIsValid(lim, db.drafts[id], op.edit, now);
      }
    }
  }

  datatype Write = Write(op: Op, now: Time)

  function AfterAll(db: Db, writes: seq<Write>): Db
    decreases |writes|
  {
    if writes == [] then db
    else AfterAll(After(db, writes[0].op, writes[0].now), writes[1..])
  }

  /** From tables whose drafts are valid, empty ones for a start, every run of writes leaves only drafts that
      pass the checks of publishing. */
  lemma {:induction false} EveryDraftRevalidates(lim: Limits, db: Db, writes: seq<Write>)
    requires DraftsValid(lim, db) && forall w :: w in writes ==> OpOk(lim, w.op)
    ensures DraftsValid(lim, AfterAll(db, writes))
    decreases |writes|
  {
    hide DraftsValid, After;
    if writes != [] {
      assert writes[0] in writes;
      OperationKeepsDraftsValid(lim, db, writes[0].op, writes[0].now);
      EveryDraftRevalidates(lim, After(db, writes[0].op, writes[0].now), writes[1..]);
    }
  }

  /** A valid draft passes under another cap exactly when its content fits that cap. */
  lemma ValidUnderCapIff(lim: Limits, db: Db, id: Uuid, cap: nat)
    requires DraftsValid(lim, db) && id in db.drafts
    ensures Revalidates(lim.(contentMaxBytes := cap), db.drafts[id])
            <==> lim.serializedLen(db.drafts[id].content) <= cap
  {
    hide ValidateTitle, ValidateAuthorName, NodesToJson, JsonToNodes, NodesOk, Utf8Len;
  }

  /** When the cap is changed, every draft stored by any run of creations, updates and other writes passes the
      checks of publishing if and only if its content fits the new cap. */
  lemma RevalidatesUnderCapIff(lim: Limits, db: Db, writes: seq<Write>, id: Uuid, cap: nat)
    requires DraftsValid(lim, db) && forall w :: w in writes ==> OpOk(lim, w.op)
    requires id in AfterAll(db, writes).drafts
    ensures var d := AfterAll(db, writes).drafts[id];
            Revalidates(lim.(contentMaxBytes := cap), d) <==> lim.serializedLen(d.content) <= cap
  {
    EveryDraftRevalidates(lim, db, writes);
    ValidUnderCapIff(lim, AfterAll(db, writes), id, cap);
  }

  // ----- The handlers ------------------------------------------------------------------------------------

  /** The answer of the account repository. */
  datatype AccountStatus = Missing | Active | Deleted

  /** `CreateDraftRequest` and the draft of `UpdateDraftRequest`, whose `id` or account is read as text. */
  datatype DraftFields = DraftFields(title: string, authorName: string, authorUrl: string, content: seq<Node>)

  const ALLOWED_MASK_PATHS := {"title", "author_name", "author_url", "content"}

  predicate FieldsOk(lim: Limits, f: DraftFields) {
    && ValidateTitle(f.title).Ok? && ValidateAuthorName(f.authorName).Ok? && ValidateAuthorUrl(lim, f.authorUrl).Ok?
    && ContentOk(lim, f.content)
  }

  function EntryOf(accountId: Uuid, f: DraftFields): NewEntry {
    NewEntry(accountId, T.Trim(f.title), f.authorName, f.authorUrl, NodesToJson(f.content))
  }

  /** The masked fields that are wrong make the update wrong; the others are not looked at. */
  predicate MaskedOk(lim: Limits, mask: seq<string>, f: DraftFields) {
    && ("title" in mask ==> ValidateTitle(f.title).Ok?)
    && ("author_name" in mask ==> ValidateAuthorName(f.authorName).Ok?)
    && ("author_url" in mask ==> ValidateAuthorUrl(lim, f.authorUrl).Ok?)
    && ("content" in mask ==> ContentOk(lim, f.content))
  }

  function EditOf(mask: seq<string>, f: DraftFields): Edit {
    Edit(if "title" in mask then Some(T.Trim(f.title)) else None,
         if "author_name" in mask then Some(f.authorName) else None,
         if "author_url" in mask then Some(f.authorUrl) else None,
         if "content" in mask then Some(NodesToJson(f.content)) else None)
  }

  lemma EntryOfIsOk(lim: Limits, accountId: Uuid, f: DraftFields)
    requires FieldsOk(lim, f)
    ensures EntryOk(lim, EntryOf(accountId, f)) && JsonToNodes(EntryOf(accountId, f).content) == f.content
  {
    TitleValidatesAgain(f.title);
    JsonRoundTrips(f.content);
    hide NodesToJson, JsonToNodes, Utf8Len, NodesOk;
  }

  lemma EditOfIsOk(lim: Limits, mask: seq<string>, f: DraftFields)
    requires MaskedOk(lim, mask, f)
    ensures EditOk(lim, EditOf(mask, f))
  {
    TitleValidatesAgain(f.title);
    JsonRoundTrips(f.content);
    hide NodesToJson, JsonToNodes, Utf8Len, NodesOk;
  }

  lemma UpdateIsOk(lim: Limits, id: Uuid, edit: Edit)
    requires EditOk(lim, edit)
    ensures OpOk(lim, Op.UpdateDraft(id, edit))
  {
  }

  lemma MaskedColumns(d: DraftRow, mask: seq<string>, f: DraftFields, now: Time)
    ensures var row := UpdatedDraft(d, EditOf(mask, f), now);
            && row.accountId == d.accountId && row.createdAt == d.createdAt && row.updatedAt == now
            && row.title == (if "title" in mask then T.Trim(f.title) else d.title)
            && row.authorName == (if "author_name" !in mask then d.authorName
                                  else if f.authorName == "" then None else Some(f.authorName))
            && row.authorUrl == (if "author_url" !in mask then d.authorUrl
                                 else if f.authorUrl == "" then None else Some(f.authorUrl))
            && (if "content" in mask then JsonToNodes(row.content) == f.content else row.content == d.content)
  {
    hide NodesToJson, JsonToNodes;
    JsonRoundTrips(f.content);
  }

  lemma PublishedDraftReadsBack(db: Db, id: Uuid, now: Time)
    ensures var s := Serial(db, Op.PublishDraft(id), now);
            s.Ok? ==> GetView(s.value, id).Ok?
  {
  }

  class DraftServiceImpl {
    const drafts: PgDraftRepo
    const lim: Limits

    constructor (drafts: PgDraftRepo, lim: Limits)
      ensures this.drafts == drafts && this.lim == lim
    {
      this.drafts, this.lim := drafts, lim;
    }

    /** `allowed` is the outcome of the authorization check and `newId` the UUID minted for the draft. */
    method CreateDraft(accountId: string, allowed: bool, f: DraftFields, account: AccountStatus, newId: Uuid, now: Time)
      returns (r: Result<DraftRow, ServiceError>)
      modifies drafts.db
      ensures r.Ok? <==> Codecs.ParseUuid(accountId).Some? && allowed && FieldsOk(lim, f) && account.Active?
                         && newId !in old(drafts.db.drafts)
      ensures r.Ok? ==> var op := Op.CreateDraft(newId, EntryOf(Codecs.ParseUuid(accountId).value, f));
                        OpOk(lim, op) && drafts.db.Tables() == After(old(drafts.db.Tables()), op, now)
                        && newId in drafts.db.drafts && r.value == drafts.db.drafts[newId]
      ensures r.Err? ==> drafts.db.Tables() == old(drafts.db.Tables())
      ensures r.Ok? ==> && r.value.accountId == Codecs.ParseUuid(accountId).value && r.value.title == T.Trim(f.title)
                        && r.value.authorName == (if f.authorName == "" then None else Some(f.authorName))
                        && r.value.authorUrl == (if f.authorUrl == "" then None else Some(f.authorUrl))
                        && JsonToNodes(r.value.content) == f.content && r.value.createdAt == r.value.updatedAt == now
      ensures r.Err? ==>
                if Codecs.ParseUuid(accountId).None? then r.error == InvalidArgument("account_id")
                else if !allowed then r.error == PermissionDenied
                else if !FieldsOk(lim, f) then IsValidation(r.error)
                else if account.Missing? then r.error == AccountNotFound
                else if account.Deleted? then r.error == AccountDeleted
                else r.error == Refused(RepoError.Internal)
    {
      hide ContentOk, NodesToJson, Utf8Len, Codecs.ParseUuid;
      var id := Codecs.ParseUuid(accountId);
      if id.None? { return Err(InvalidArgument("account_id")); }
      if !allowed { return Err(PermissionDenied); }
      var title := ValidateTitle(f.title);
      if title.Err? { return Err(title.error); }
      var authorName := ValidateAuthorName(f.authorName);
      if authorName.Err? { return Err(authorName.error); }
      var authorUrl := ValidateAuthorUrl(lim, f.authorUrl);
      if authorUrl.Err? { return Err(authorUrl.error); }
      var content := ValidateAndEncodeContent(lim, f.content);
      if content.Err? { return Err(content.error); }
      if account.Missing? { return Err(AccountNotFound); }
      if account.Deleted? { return Err(AccountDeleted); }
      EntryOfIsOk(lim, id.value, f);
      var created := drafts.Create(newId, NewEntry(id.value, title.value, authorName.value, authorUrl.value, content.value), now);
      if created.Err? { return Err(Refused(created.error)); }
      return Ok(created.value);
    }

    method UpdateDraft(draftId: string, mask: Option<seq<string>>, allowed: bool, f: DraftFields, now: Time)
      returns (r: Result<DraftRow, ServiceError>)
      modifies drafts.db
      ensures r.Ok? <==> && Codecs.ParseUuid(draftId).Some? && Codecs.ParseUuid(draftId).value in old(drafts.db.drafts)
                         && mask.Some? && mask.value != [] && (forall p :: p in mask.value ==> p in ALLOWED_MASK_PATHS)
                         && allowed && MaskedOk(lim, mask.value, f)
      ensures r.Ok? ==> var id := Codecs.ParseUuid(draftId).value;
                        var op := Op.UpdateDraft(id, EditOf(mask.value, f));
                        OpOk(lim, op) && drafts.db.Tables() == After(old(drafts.db.Tables()), op, now)
                        && id in drafts.db.drafts && r.value == drafts.db.drafts[id]
      ensures r.Ok? ==> var mask, d := mask.value, old(drafts.db.drafts)[Codecs.ParseUuid(draftId).value];
                        && r.value.accountId == d.accountId && r.value.createdAt == d.createdAt && r.value.updatedAt == now
                        && r.value.title == (if "title" in mask then T.Trim(f.title) else d.title)
                        && r.value.authorName == (if "author_name" !in mask then d.authorName
                                                  else if f.authorName == "" then None else Some(f.authorName))
                        && r.value.authorUrl == (if "author_url" !in mask then d.authorUrl
                                                 else if f.authorUrl == "" then None else Some(f.authorUrl))
                        && (if "content" in mask then JsonToNodes(r.value.content) == f.content
                            else r.value.content == d.content)
      ensures r.Err? ==> drafts.db.Tables() == old(drafts.db.Tables())
      ensures r.Err? ==>
                var id := Codecs.ParseUuid(draftId);
                if id.None? then r.error == InvalidArgument("draft.id")
                else if mask.None? || mask.value == [] then r.error == EmptyUpdateMask
                else if exists p :: p in mask.value && p !in {"title", "author_name", "author_url", "content"} then
                  r.error.UnallowedMaskPath? && r.error.path in mask.value
                  && r.error.path !in {"title", "author_name", "author_url", "content"}
                else if id.value !in old(drafts.db.drafts) || !allowed then r.error == Refused(DraftNotFound)
                else IsValidation(r.error)
    {
      hide ContentOk, NodesToJson, JsonToNodes, Utf8Len, Codecs.ParseUuid, MaskedOk, UpdatedDraft, OpOk;
      var id := Codecs.ParseUuid(draftId);
      if id.None? { return Err(InvalidArgument("draft.id")); }
      if mask.None? || mask.value == [] { return Err(EmptyUpdateMask); }
      var paths := CheckMask(mask.value);
      if paths.Err? { return Err(paths.error); }
      if id.value !in drafts.db.drafts { return Err(Refused(DraftNotFound)); }
      if !allowed { return Err(Refused(DraftNotFound)); }
      var update := ReadMasked(mask.value, f);
      if update.Err? { return Err(update.error); }
      EditOfIsOk(lim, mask.value, f);
      UpdateIsOk(lim, id.value, EditOf(mask.value, f));
      MaskedColumns(drafts.db.drafts[id.value], mask.value, f, now);
      var updated := drafts.Update(id.value, update.value, now);
      return Ok(updated.value);
    }

    /** The first path outside the four stops the update. */
    static method CheckMask(mask: seq<string>) returns (r: Result<(), ServiceError>)
      ensures r.Ok? <==> forall p :: p in mask ==> p in ALLOWED_MASK_PATHS
      ensures r.Err? ==> exists i :: 0 <= i < |mask| && r.error == UnallowedMaskPath(mask[i])
                                     && mask[i] !in {"title", "author_name", "author_url", "content"}
                                     && forall p :: p in mask[..i] ==> p in ALLOWED_MASK_PATHS
    {
      for i := 0 to |mask|
        invariant forall p :: p in mask[..i] ==> p in ALLOWED_MASK_PATHS
      {
        if mask[i] !in ALLOWED_MASK_PATHS {
          assert mask[i] in mask;
          return Err(UnallowedMaskPath(mask[i]));
        }
        assert mask[..i + 1] == mask[..i] + [mask[i]];
      }
      assert mask[..|mask|] == mask;
      return Ok(());
    }

    /** The masked fields, each validated; the others are not looked at. */
    method ReadMasked(mask: seq<string>, f: DraftFields) returns (r: Result<Edit, ServiceError>)
      ensures r.Ok? <==> MaskedOk(lim, mask, f)
      ensures r.Ok? ==> r.value == EditOf(mask, f)
      ensures r.Err? ==> IsValidation(r.error)
    {
      hide ContentOk, NodesToJson, Utf8Len;
      var update := Edit(None, None, None, None);
      if "title" in mask {
        var title := ValidateTitle(f.title);
        if title.Err? { return Err(title.error); }
        update := update.(title := Some(title.value));
      }
      if "author_name" in mask {
        var authorName := ValidateAuthorName(f.authorName);
        if authorName.Err? { return Err(authorName.error); }
        update := update.(authorName := Some(authorName.value));
      }
      if "author_url" in mask {
        var authorUrl := ValidateAuthorUrl(lim, f.authorUrl);
        if authorUrl.Err? { return Err(authorUrl.error); }
        update := update.(authorUrl := Some(authorUrl.value));
      }
      if "content" in mask {
        var content := ValidateAndEncodeContent(lim, f.content);
        if content.Err? { return Err(content.error); }
        update := update.(content := Some(content.value));
      }
      return Ok(update);
    }

    /** Among valid drafts the second validation never refuses. */
    method PublishDraft(draftId: string, allowed: bool, account: AccountStatus, now: Time)
      returns (r: Result<Article, ServiceError>)
      modifies drafts.db
      ensures var id := Codecs.ParseUuid(draftId);
              var before := old(drafts.db.Tables());
              && (r.Ok? <==> id.Some? && id.value in before.drafts && allowed && account.Active?
                             && Revalidates(lim, before.drafts[id.value]) && Serial(before, Op.PublishDraft(id.value), now).Ok?)
              && (r.Ok? ==> drafts.db.Tables() == After(before, Op.PublishDraft(id.value), now)
                            && GetView(drafts.db.Tables(), id.value) == Ok(r.value))
              && (r.Err? ==> drafts.db.Tables() == before)
              && (r.Err? && IsValidation(r.error) && id.Some? ==> !DraftsValid(lim, before))
      ensures r.Ok? ==>
                var id := Codecs.ParseUuid(draftId).value;
                var d, a := old(drafts.db.drafts)[id], r.value.summary;
                && id !in drafts.db.drafts
                && a.id == id && a.accountId == d.accountId && a.state == Live && a.currentVersion == Some(1)
                && a.title == Some(d.title) && a.authorName == Some(d.authorName.GetOr(""))
                && a.authorUrl == Some(d.authorUrl.GetOr("")) && !a.redacted && r.value.content == Some(d.content)
      ensures r.Err? ==>
                var id := Codecs.ParseUuid(draftId);
                if id.None? then r.error == InvalidArgument("id")
                else if id.value !in old(drafts.db.drafts) || !allowed then r.error == Refused(DraftNotFound)
                else if account.Missing? then r.error == AccountNotFound
                else if account.Deleted? then r.error == AccountDeleted
                else if !Revalidates(lim, old(drafts.db.drafts)[id.value]) then IsValidation(r.error)
                else r.error.Refused? && Serial(old(drafts.db.Tables()), Op.PublishDraft(id.value), now) == Err(r.error.error)
    {
      hide ContentOk, JsonToNodes, Utf8Len, Codecs.ParseUuid, PublishDraftSerial, GetView;
      var id := Codecs.ParseUuid(draftId);
      if id.None? { return Err(InvalidArgument("id")); }
      if id.value !in drafts.db.drafts { return Err(Refused(DraftNotFound)); }
      var draft := drafts.db.drafts[id.value];
      if !allowed { return Err(Refused(DraftNotFound)); }
      if account.Missing? { return Err(AccountNotFound); }
      if account.Deleted? { return Err(AccountDeleted); }
      var title := ValidateTitle(draft.title);
      if title.Err? { return Err(title.error); }
      var authorName := ValidateAuthorName(draft.authorName.GetOr(""));
      if authorName.Err? { return Err(authorName.error); }
      var authorUrl := ValidateAuthorUrl(lim, draft.authorUrl.GetOr(""));
      if authorUrl.Err? { return Err(authorUrl.error); }
      var content := ValidateAndEncodeContent(lim, JsonToNodes(draft.content));
      if content.Err? { return Err(content.error); }
      PublishedDraftReadsBack(drafts.db.Tables(), id.value, now);
      var published := drafts.Publish(id.value, now);
      if published.Err? { return Err(Refused(published.error)); }
      return Ok(published.value);
    }
  }
}
