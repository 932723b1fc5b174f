# Entry logic of a single-author Flask blog

This project models the logic of `app.py`, a small Flask blog. The author
logs in with one shared password. They create and edit entries, which are
drafts or published. Anonymous readers see only the published entries.

The model covers:

- **Slug derivation** (module `Slug`, `slug.dfy`). When an entry is saved
  without a slug, one is derived from its title. The title is lowercased.
  Each maximal run of non-word characters becomes one `-`. Leading and
  trailing `-` are stripped. The model follows the three library steps
  (`str.lower`, `re.sub(r'[^\w]+', '-', …)`, `str.strip('-')`). It proves
  that the result equals an independent definition: the lowercase runs of
  word characters, joined by single `-`.
- **The entry table and its full-text side table** (module `Store`,
  `store.dfy`). `Db` is a value holding both tables as maps keyed by row
  id. `SaveDb` is the pure meaning of `Entry.save` inside
  `database.atomic()`. The class `EntryStore` holds the same maps as
  fields. Its `Save` and `UpdateSearchIndex` methods change them in place.
  `Save` is proved to leave exactly the tables `SaveDb` describes.
  `Public` and `Drafts` are the two filters on the `published` flag.
- **Request handlers** (module `Views`, `views.dfy`). These are `login`,
  `logout`, the `login_required` guard, `_create_or_edit` with `create`
  and `edit`, `drafts` and `detail`. Each is a function from the request,
  the session's `logged_in` flag and the tables to a `Response`. A
  response holds the outcome (a rendered page, a redirect, or not found),
  the new tables and the new session. `CreateOrEditOn` runs the same
  workflow against an `EntryStore` object.
- **`clean_querystring`** (module `QueryString`, `querystring.dfy`). Its
  key handling is a loop over a copy of the request arguments.
- **Worked scenarios** (module `Scenarios`, `scenarios.dfy`). The title
  "Hello, World!" becomes the draft `hello-world`. A second entry with the
  same title is refused. The draft is hidden from anonymous readers. It is
  then published through its edit page.

The model follows the code on these points:

- `published` is set from the form value's truthiness
  (`request.form.get('published') or False`). A field that is present but
  empty counts as false, so "present" alone is not enough.
- Entries are `Entry(title, slug, content, published, timestamp)`. peewee
  leaves a new entry's `slug` and `published` as `None`. The model uses
  `""` and `false` instead; the code tests both only for truthiness.
- `\w` and `lower()` are taken in their ASCII sense. `\w` is
  `[A-Za-z0-9_]`, which is what Python 2's `re` means without the
  `UNICODE` flag (the file is Python 2 code, as `urllib.urlencode` shows).
  Lowercasing maps only `A`–`Z`. A non-ASCII character is treated as a
  non-word character. This differs from the code only for the few
  non-ASCII characters whose lowercase form is ASCII.
- Database ids are taken from a counter `nextId` that only grows. Rows are
  never deleted, and a failed insert is rolled back before it uses an id.
  So the counter yields SQLite's next rowid.

## Model

| member | source | states |
|---|---|---|
| `Slug.Lower` | app.py:47 | an upper-case letter becomes the letter at the same position of the lowercase alphabet; any other character is unchanged; the result is never upper-case and keeps word-character status |
| `Slug.LowerStr` | app.py:47 | `title.lower()` keeps the length and lowercases position by position (each character is `Lower` of the input's), so it keeps word-character status, leaves no upper-case letter, and is the identity on lowercase text |
| `Slug.NonWordRun` | app.py:47 | the greedy match of `[^\w]+` at the front: every character in it is non-word and the next one, if any, is a word character |
| `Slug.WordRun` | app.py:47 | the longest prefix of word characters (the complement run used by the reference definition) |
| `Slug.TrimStart` | app.py:47 | `lstrip('-')`: the result is a suffix of the input, everything removed was `-`, and it does not start with `-` |
| `Slug.TrimEnd` | app.py:47 | `rstrip('-')`: the result is a prefix of the input, everything removed was `-`, and it does not end with `-` |
| `Slug.SubNonWord` | app.py:47 | `re.sub(r'[^\w]+', '-', s)` never makes the text longer (each replaced run has at least one character); its full meaning is `Slug.SubNonWordIsJoinedWords` |
| `Slug.Strip` | app.py:47 | `strip('-')`: the result is a contiguous piece of the input with only `-` before and after it, neither starts nor ends with `-`, and is the input itself when that has no `-` at either end |
| `Slug.Slugify` | app.py:47 | the derived slug is never longer than the title and has no `-` at either end; `Slug.SlugifyIsJoinedWords` gives its full meaning |
| `Slug.WordsEmpty` | app.py:47 | a string has no word runs exactly when it has no word character |
| `Slug.SubWordPrefix` | app.py:47 | `re.sub` copies a leading run of word characters unchanged |
| `Slug.SubNonWordIsJoinedWords` | app.py:47 | `re.sub(r'[^\w]+', '-', s)` equals the word runs joined by `-`, plus one `-` in front when `s` starts with a non-word character and one at the back when it ends with one after a word |
| `Slug.JoinIsSlug` | app.py:47 | joining lowercase word runs with `-` gives slug-shaped text, empty only when there are no runs |
| `Slug.StripAround` | app.py:47 | `strip('-')` removes exactly the `-` that `re.sub` left at the ends |
| `Slug.SlugifyIsJoinedWords` | app.py:47 | reference definition: the derived slug is the lowercased title's maximal word runs joined by single `-` |
| `Slug.SlugifyIsSlug` | app.py:47 | a derived slug has only lowercase word characters and `-`, no `-` at either end, never two `-` side by side |
| `Slug.SlugifyEmpty` | app.py:47 | the derived slug is empty exactly when the title has no word character |
| `Slug.SubNonWordFixed` | app.py:47 | `re.sub` leaves text made of slug characters without adjacent `-` unchanged |
| `Slug.SlugFixedPoint` | app.py:47 | deriving a slug from a slug-shaped string returns it unchanged |
| `Slug.SlugifyIdempotent` | app.py:47 | deriving again from a derived slug returns the same slug |
| `Store.IndexText` | app.py:54 | the index text is the title, one newline, then the content: slicing at `|title|` gives back the title, the newline and the content |
| `Store.WithSlug` | app.py:46-47 | save changes only the slug; it keeps a non-empty slug and replaces an empty one by the slug derived from the title, which is slug-shaped |
| `Store.SaveDb` | app.py:45-58 | save fails exactly when another row holds the slug. On success: the row is stored under the entry's id or a fresh one, the tables stay consistent, the index row is `title + "\n" + content`, and no other row or index row changes |
| `Store.WriteRowConsistent` | app.py:52-58 | writing a row and its index row under a slug no other row holds keeps the slug column unique and the index in step with every entry |
| `Store.Public` | app.py:60-62 | exactly the rows with `published` set, unchanged |
| `Store.Drafts` | app.py:64-66 | exactly the rows with `published` clear, unchanged |
| `Store.PublicDraftsPartition` | app.py:60-66 | public entries and drafts are disjoint and together are the whole table |
| `Store.SaveKeepsSlug` | app.py:46-47 | saving an entry that has a slug never changes it, even when the title changed |
| `Store.DuplicateSlugFails` | app.py:32 | a save whose slug another row holds raises the integrity error |
| `Store.EntryStore.constructor` | app.py:174 | the tables start empty and consistent |
| `Store.EntryStore.UpdateSearchIndex` | app.py:52-58 | after the update-or-insert, the index has exactly one row for the id, holding the title and content; other rows are untouched |
| `Store.EntryStore.Save` | app.py:45-50 | the in-place save leaves the tables `SaveDb` describes. On a duplicate slug it writes nothing (the `atomic()` rollback). It keeps the consistency invariant |
| `Views.Field` | app.py:115-117 | `form.get(key) or ''`: the field's value when present; a non-empty result always is the field's value |
| `Views.NextUrl` | app.py:84 | the `next` query argument wins when non-empty, otherwise the `next` form field; empty only when both are missing or empty |
| `Views.PasswordAccepted` | app.py:85-87 | accepted exactly for a POST whose `password` field is present and equals `ADMIN_PASSWORD` |
| `Views.Login` | app.py:82-94 | `logged_in` becomes set only by a POST of a non-empty password equal to `ADMIN_PASSWORD`. That POST redirects to `next` or the index. A wrong non-empty password re-renders the login page, carrying `next`, with "Incorrect password.". A GET or an empty password re-renders it with no message. Both leave the session alone |
| `Views.Logout` | app.py:96-101 | a POST clears the session and redirects to the create page; a GET renders the confirmation and changes nothing |
| `Views.LoginRequired` | app.py:74-80 | without `logged_in`, the result is a redirect to login carrying the request path, with tables and session unchanged; with it, the wrapped handler's result |
| `Views.Submitted` | app.py:115-117 | the entry's title and content become the form's `title` and `content` fields (empty when missing), `published` becomes the truthiness of the `published` field, and slug and timestamp are kept |
| `Views.CreateOrEdit` | app.py:113-134 | see the last two paragraphs of this section |
| `Views.Create` | app.py:136-138 | creating never changes or removes an existing row. At most one row is added, stamped with the request time, and only on a successful save. A POST with a title whose derived slug no row holds does add a row |
| `Views.FindBySlug` | app.py:158 | finds the row holding the slug, or reports that no row holds it |
| `Views.Edit` | app.py:155-159 | for a logged-in session, an unknown slug is not found and changes nothing, and a known slug runs `CreateOrEdit` on the row holding it, with the edit template. Editing never adds or removes rows and changes only the row with the requested slug; only a logged-in POST changes anything |
| `Views.DraftsView` | app.py:140-144 | when logged in, the listing holds exactly the unpublished rows, each with its stored value; otherwise the result is a redirect to login |
| `Views.Detail` | app.py:146-153 | an entry is shown exactly when a row has the slug and is published or the session is logged in; otherwise the result is not found |
| `Views.GuardedHandlersRedirect` | app.py:74-80 | `edit` and `drafts` without `logged_in` only redirect to login with `next` = the path and change nothing |
| `Views.EditKeepsSlugs` | app.py:155-159 | an edit never changes any stored slug, whatever the new title |
| `Views.LogoutHidesDrafts` | app.py:146-153 | after a logout POST, a draft's detail page is not found |
| `Views.CreateOrEditOn` | app.py:113-134 | the workflow run against an `EntryStore` object has the outcome and the new tables that `CreateOrEdit` describes |
| `QueryString.CleanQuerystring` | app.py:161-166 | keeps every original key that is neither removed nor re-supplied, with its value. Every new value overrides. A removed key appears only if it is re-supplied |
| `Scenarios.SlugifyTwoWords` | app.py:47 | a title made of a word, separators, a word and separators derives the two lowercased words joined by one `-` |
| `Scenarios.HelloWorldSlug` | app.py:47 | "Hello, World!" derives "hello-world" |
| `Scenarios.CreateDraftScenario` | app.py:136-138 | creating the draft stores it as row 1 with slug "hello-world" and its index row, and redirects to its edit page. It is a draft, not public |
| `Scenarios.DuplicateTitleScenario` | app.py:121-125 | a second entry with the same title gets "this name is already in use" and no row or index row |
| `Scenarios.DraftVisibilityScenario` | app.py:146-153 | the draft's page is not found when logged out and shown when logged in |
| `Scenarios.PublishScenario` | app.py:155-159 | publishing through the edit page shows the done page, keeps id and slug, and moves the entry from drafts to public |

`Views.CreateOrEdit` covers every outcome of the create/edit workflow:
- A GET only renders the form.
- A POST with an empty title re-renders with "Name is required." and saves nothing.
- "This name is already in use" appears exactly when another row holds the slug. The form is then re-rendered with the same template and the submitted entry, its slug derived from the title when it had none. A re-rendered form never changes the tables.
- A POST with a non-empty title whose slug no other row holds is saved. The response is the done page when the submitted entry is published, and otherwise a redirect to the edit page for its slug.
- Conversely, the done page and the redirect come only from such a save. The save has stored the submitted entry, with its index row `title + "\n" + content`, under the edited id when there is one.
- Only the saved row changes: an edit adds no row, and a create adds at most one.

## Left out

- Markdown and oEmbed rendering (`html_content`): foreign calls into
  `markdown` and `micawber`, including outbound HTTP and a cache.
- The `index` route: the plain listing is `Public` plus ordering and
  pagination. The search branch calls `Entry.search`, which `app.py` does
  not define, because `Entry` is a plain model rather than a full-text
  model. Full-text matching and ranking belong to SQLite's FTS extension.
  Only the index contents are modelled.
- Ordering by `timestamp` descending and `object_list` pagination on the
  listings. `Drafts` and `DraftsView` return the matching rows as a map,
  without order.
- `datetime.now`: the creation time is the `now` parameter of
  `Views.Create`.
- Persistence, `create_tables` and SQLite transactions. `atomic()` is
  modelled as all-or-nothing: the slug check runs before anything is
  written.
- Percent-encoding by `urllib.urlencode`: `CleanQuerystring` returns the
  map that is encoded. Multi-valued request arguments are reduced to their
  first value, as `request_args.items()` does.
- Flask routing, templates, redirects as HTTP responses, URL building for
  `next` (the guard carries the raw path), cookie signing and
  `session.permanent`.
- Flash messages on success ("Succefully Logged In.", "Registered saved
  successfully."). Outcomes carry only the error messages.
- The in-memory `entry` object that `_create_or_edit` mutates lives for
  one request. It is modelled as a value, so aliasing of that object is
  not captured.
- Full Unicode behaviour of `\w` and `lower()` (see above).
