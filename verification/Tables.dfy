/** The five tables behind articles and drafts, each a map from its primary key to a row. */
module Tables {
  import opened Core

  datatype ArticleState = Live | Tombstone

  datatype ArticleRow = ArticleRow(accountId: Uuid, state: ArticleState, createdAt: Time)

  datatype LiveRow = LiveRow(currentVersion: int, publishedAt: Time, updatedAt: Time)

  datatype TombstoneRow = TombstoneRow(reason: Option<string>, tombstonedAt: Time)

  datatype VersionRow = VersionRow(
    title: string,
    authorName: Option<string>,
    authorUrl: Option<string>,
    content: Option<Json>,
    redactedAt: Option<Time>,
    redactionReason: Option<string>,
    createdAt: Time)

  datatype DraftRow = DraftRow(
    accountId: Uuid,
    title: string,
    authorName: Option<string>,
    authorUrl: Option<string>,
    content: Json,
    createdAt: Time,
    updatedAt: Time)

  datatype Db = Db(
    articles: map<Uuid, ArticleRow>,
    live: map<Uuid, LiveRow>,
    tombstones: map<Uuid, TombstoneRow>,
    versions: map<(Uuid, int), VersionRow>,
    drafts: map<Uuid, DraftRow>)

  const EMPTY_DB := Db(map[], map[], map[], map[], map[])

  /** `NewArticle` and `NewDraft`: an empty author field means the field is absent. */
  datatype NewEntry = NewEntry(
    accountId: Uuid,
    title: string,
    authorName: string,
    authorUrl: string,
    content: Json)

  /** `ArticleEdit` and `DraftUpdate`: the fields outside the mask are `None`. */
  datatype Edit = Edit(
    title: Option<string>,
    authorName: Option<string>,
    authorUrl: Option<string>,
    content: Option<Json>)

  datatype RepoError =
    | ArticleNotFound
    | ArticleTombstoned
    | VersionNotFound
    | VersionAlreadyRedacted
    | DraftNotFound
    | Internal

  /** The largest value of the `integer` column `article_versions.version`. */
  const MAX_VERSION: int := 0x7FFF_FFFF

  /** An empty author string is stored as NULL. */
  function NonEmpty(s: string): Option<string> {
    if s == "" then None else Some(s)
  }

  function FirstVersion(entry: NewEntry, now: Time): VersionRow {
    VersionRow(entry.title, NonEmpty(entry.authorName), NonEmpty(entry.authorUrl), Some(entry.content), None, None, now)
  }

  /** The row an edit inserts on top of `base`: masked fields replace, the others carry over,
      and a base whose content was redacted carries over the empty document. */
  function NextVersion(base: VersionRow, edit: Edit, now: Time): VersionRow {
    VersionRow(
      edit.title.GetOr(base.title),
      NonEmpty(edit.authorName.Or(base.authorName).GetOr("")),
      NonEmpty(edit.authorUrl.Or(base.authorUrl).GetOr("")),
      Some(edit.content.Or(base.content).GetOr(Array([]))),
      None, None, now)
  }

  function Redacted(row: VersionRow, reason: string, now: Time): VersionRow {
    row.(content := None, redactedAt := Some(now), redactionReason := Some(reason))
  }

  /** Version 1 of an article published from a draft keeps the draft's columns as they are. */
  function DraftVersion(d: DraftRow, now: Time): VersionRow {
    VersionRow(d.title, d.authorName, d.authorUrl, Some(d.content), None, None, now)
  }

  function NewDraftRow(entry: NewEntry, now: Time): DraftRow {
    DraftRow(entry.accountId, entry.title, NonEmpty(entry.authorName), NonEmpty(entry.authorUrl), entry.content, now, now)
  }
}
