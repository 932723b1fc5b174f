/** The request handlers of the blog: `login`, `logout`, the `login_required`
    guard, the shared create/edit workflow, `drafts` and `detail`. Each
    handler maps a request, the session flag and the tables to an outcome,
    the new tables and the new session. */
module Views {
  import opened Store

  const AdminPassword: string := "iushduii"
  /** `url_for('index')` and `url_for('create')`. */
  const IndexUrl: string := "/index"
  const CreateUrl: string := "/"

  datatype Method = Get | Post

  /** The parts of a request the handlers look at: the HTTP method `verb`,
      the path, the query arguments and the form fields (first value per
      key). */
  datatype Request = Request(verb: Method, path: string, args: map<string, string>, form: map<string, string>)

  /** The only session key the application uses is `logged_in`. */
  datatype Session = Session(loggedIn: bool)

  datatype Template = CreateTemplate | EditTemplate

  /** The error messages flashed before a form is re-rendered. */
  datatype Flash = NameRequired | NameInUse | IncorrectPassword

  datatype Outcome =
    | RenderForm(template: Template, entry: Entry, error: Option<Flash>)
    | RenderDone(entry: Entry)
    | RedirectToEdit(slug: string)
    | RedirectToLogin(next: string)
    | RenderLogin(nextUrl: string, error: Option<Flash>)
    | Redirect(url: string)
    | RenderLogout
    | RenderDetail(entry: Entry)
    | RenderDrafts(entries: map<Id, Entry>)
    | NotFound

  datatype Response = Response(outcome: Outcome, db: Db, session: Session)

  /** `fields.get(key) or ''`: a missing field reads as the empty string. */
  function Field(fields: map<string, string>, key: string): (r: string)
    ensures key in fields ==> r == fields[key]
    ensures r != "" ==> key in fields && fields[key] == r
  {
    if key in fields then fields[key] else ""
  }

  /** `request.args.get('next') or request.form.get('next')`, with a
      missing value read as the empty string. */
  function NextUrl(req: Request): (r: string)
    ensures Field(req.args, "next") != "" ==> r == req.args["next"]
    ensures Field(req.args, "next") == "" ==> r == Field(req.form, "next")
    ensures r == "" <==> Field(req.args, "next") == "" && Field(req.form, "next") == ""
  {
    if Field(req.args, "next") != "" then req.args["next"] else Field(req.form, "next")
  }

  /** A POST carrying a non-empty password equal to the admin password. */
  predicate PasswordAccepted(req: Request): (b: bool)
    ensures b <==> req.verb == Post && "password" in req.form && req.form["password"] == AdminPassword
  {
    req.verb == Post && Field(req.form, "password") != "" && Field(req.form, "password") == AdminPassword
  }

  /** `login`: only a POST with the right password sets `logged_in`, then
      redirects to `next` or the index; anything else renders the login
      form again and leaves the session as it was. */
  function Login(req: Request, s: Session, db: Db): (r: Response)
    ensures r.db == db
    ensures r.session.loggedIn <==> s.loggedIn || PasswordAccepted(req)
    ensures PasswordAccepted(req) ==> r.outcome == Redirect(if NextUrl(req) != "" then NextUrl(req) else IndexUrl)
    ensures !PasswordAccepted(req) ==>
              && r.session == s
              && r.outcome == RenderLogin(NextUrl(req), if req.verb == Post && Field(req.form, "password") != ""
                                                        then Some(IncorrectPassword) else None)
  {
    var next := NextUrl(req);
    if req.verb == Post && Field(req.form, "password") != "" then
      if req.form["password"] == AdminPassword then
        Response(Redirect(if next != "" then next else IndexUrl), db, Session(true))
      else
        Response(RenderLogin(next, Some(IncorrectPassword)), db, s)
    else
      Response(RenderLogin(next, None), db, s)
  }

  /** `logout`: a POST clears the session and redirects to the create page;
      a GET only renders the confirmation page. */
  function Logout(req: Request, s: Session, db: Db): (r: Response)
    ensures r.db == db
    ensures req.verb == Post ==> !r.session.loggedIn && r.outcome == Redirect(CreateUrl)
    ensures req.verb != Post ==> r.session == s && r.outcome == RenderLogout
  {
    if req.verb == Post then Response(Redirect(CreateUrl), db, Session(false))
    else Response(RenderLogout, db, s)
  }

  /** `login_required`: the wrapped handler's response when logged in,
      otherwise a redirect to the login page carrying the request path. */
  function LoginRequired(req: Request, s: Session, db: Db, handler: Response): (r: Response)
    ensures s.loggedIn ==> r == handler
    ensures !s.loggedIn ==> r.outcome == RedirectToLogin(req.path) && r.db == db && r.session == s
  {
    if s.loggedIn then handler else Response(RedirectToLogin(req.path), db, s)
  }

  /** The entry with the form's title, content and published flag: the
      three assignments at the top of `_create_or_edit`. */
  function Submitted(entry: Entry, req: Request): (e: Entry)
    ensures e.title == Field(req.form, "title") && e.content == Field(req.form, "content")
    ensures e.slug == entry.slug && e.timestamp == entry.timestamp
    ensures e.published <==> Field(req.form, "published") != ""
  {
    entry.(title := Field(req.form, "title"),
           content := Field(req.form, "content"),
           published := Field(req.form, "published") != "")
  }

  /** `_create_or_edit`: a GET renders the form; a POST with an empty title
      re-renders it with "Name is required."; otherwise the entry is saved
      atomically, a duplicate slug re-renders the form with "this name is
      already in use", and a successful save shows the done page for a
      published entry or redirects to the edit page of a draft. */
  function CreateOrEdit(req: Request, s: Session, db: Db, entry: Entry, self: Option<Id>, template: Template): (r: Response)
    requires Consistent(db)
    requires self.Some? ==> self.value in db.entries
    ensures r.session == s && Consistent(r.db)
    ensures req.verb != Post ==> r.outcome == RenderForm(template, entry, None) && r.db == db
    ensures req.verb == Post && Field(req.form, "title") == "" ==>
              r.outcome == RenderForm(template, Submitted(entry, req), Some(NameRequired)) && r.db == db
    ensures r.outcome.RenderForm? ==> r.db == db
    ensures r.outcome.RenderForm? && r.outcome.error == Some(NameInUse) <==>
              && req.verb == Post && Field(req.form, "title") != ""
              && SlugTaken(db.entries, WithSlug(Submitted(entry, req)).slug, self)
    ensures && req.verb == Post && Field(req.form, "title") != ""
            && SlugTaken(db.entries, WithSlug(Submitted(entry, req)).slug, self) ==>
              r.outcome == RenderForm(template, WithSlug(Submitted(entry, req)), Some(NameInUse))
    ensures && req.verb == Post && Field(req.form, "title") != ""
            && !SlugTaken(db.entries, WithSlug(Submitted(entry, req)).slug, self) ==>
              r.outcome == (if Submitted(entry, req).published then RenderDone(WithSlug(Submitted(entry, req)))
                            else RedirectToEdit(WithSlug(Submitted(entry, req)).slug))
    ensures r.outcome.RenderDone? || r.outcome.RedirectToEdit? ==>
              && req.verb == Post && Field(req.form, "title") != ""
              && exists id :: id in r.db.entries && r.db.entries[id] == WithSlug(Submitted(entry, req))
                                 && r.db.index[id] == r.db.entries[id].title + "\n" + r.db.entries[id].content
                                 && (self.Some? ==> id == self.value)
    ensures forall id :: id in db.entries && self != Some(id) ==> id in r.db.entries && r.db.entries[id] == db.entries[id]
    ensures self.Some? ==> r.db.entries.Keys == db.entries.Keys
    ensures forall id :: id in r.db.entries && id !in db.entries ==> self.None? && r.db.entries.Keys == db.entries.Keys + {id}
    ensures r.outcome.RenderDone? ==> r.outcome.entry.published
    ensures r.outcome.RedirectToEdit? ==> r.outcome.slug == WithSlug(Submitted(entry, req)).slug
                                          && !Submitted(entry, req).published
  {
    if req.verb == Post then
      var e := Submitted(entry, req);
      if e.title == "" then Response(RenderForm(template, e, Some(NameRequired)), db, s)
      else match SaveDb(db, e, self)
        case IntegrityError => Response(RenderForm(template, WithSlug(e), Some(NameInUse)), db, s)
        case Saved(id, saved, db') =>
          Response(if saved.published then RenderDone(saved) else RedirectToEdit(saved.slug), db', s)
    else Response(RenderForm(template, entry, None), db, s)
  }

  /** `create`: the workflow on a fresh entry with empty title and content,
      stamped with the time of the request. */
  function Create(req: Request, s: Session, db: Db, now: int): (r: Response)
    requires Consistent(db)
    ensures Consistent(r.db) && r.session == s
    ensures forall id :: id in db.entries ==> id in r.db.entries && r.db.entries[id] == db.entries[id]
    ensures forall id :: id in r.db.entries && id !in db.entries ==>
              && r.db.entries.Keys == db.entries.Keys + {id}
              && r.db.entries[id].timestamp == now
              && (r.outcome.RenderDone? || r.outcome.RedirectToEdit?)
    ensures && req.verb == Post && Field(req.form, "title") != ""
            && !SlugTaken(db.entries, WithSlug(Submitted(Entry("", "", "", false, now), req)).slug, None) ==>
              exists id :: id in r.db.entries && id !in db.entries
  {
    CreateOrEdit(req, s, db, Entry("", "", "", false, now), None, CreateTemplate)
  }

  /** The id of the row holding `slug`, if any (`get_object_or_404`). */
  function FindBySlug(entries: map<Id, Entry>, slug: string): (r: Option<Id>)
    requires SlugsUnique(entries)
    ensures r.Some? ==> r.value in entries && entries[r.value].slug == slug
    ensures r.None? ==> forall id :: id in entries ==> entries[id].slug != slug
  {
    if exists id :: id in entries && entries[id].slug == slug then
      var id :| id in entries && entries[id].slug == slug;
      Some(id)
    else None
  }

  /** `edit`: guarded by `login_required`; an unknown slug is not found,
      otherwise the workflow runs on the stored entry. */
  function Edit(req: Request, s: Session, db: Db, slug: string): (r: Response)
    requires Consistent(db)
    ensures Consistent(r.db) && r.session == s
    ensures r.db.entries.Keys == db.entries.Keys
    ensures forall id :: id in db.entries && db.entries[id].slug != slug ==> r.db.entries[id] == db.entries[id]
    ensures r.db != db ==> s.loggedIn && req.verb == Post
    ensures s.loggedIn && (forall id :: id in db.entries ==> db.entries[id].slug != slug) ==>
              r.outcome == NotFound && r.db == db
    ensures forall id :: s.loggedIn && id in db.entries && db.entries[id].slug == slug ==>
              r == CreateOrEdit(req, s, db, db.entries[id], Some(id), EditTemplate)
  {
    LoginRequired(req, s, db,
      match FindBySlug(db.entries, slug)
      case None => Response(NotFound, db, s)
      case Some(id) => CreateOrEdit(req, s, db, db.entries[id], Some(id), EditTemplate))
  }

  /** `drafts`: guarded by `login_required`, lists the unpublished entries. */
  function DraftsView(req: Request, s: Session, db: Db): (r: Response)
    ensures r.db == db && r.session == s
    ensures s.loggedIn ==> r.outcome.RenderDrafts?
    ensures s.loggedIn ==> forall id :: id in r.outcome.entries <==> id in db.entries && !db.entries[id].published
    ensures s.loggedIn ==> forall id :: id in r.outcome.entries ==> r.outcome.entries[id] == db.entries[id]
    ensures !s.loggedIn ==> r.outcome == RedirectToLogin(req.path)
  {
    LoginRequired(req, s, db, Response(RenderDrafts(Drafts(db.entries)), db, s))
  }

  /** `detail`: a logged-in session may see every entry, anyone else only
      published ones; a slug that matches no visible entry is not found. */
  function Detail(s: Session, db: Db, slug: string): (r: Response)
    requires SlugsUnique(db.entries)
    ensures r.db == db && r.session == s
    ensures r.outcome.RenderDetail? <==>
              exists id :: id in db.entries && db.entries[id].slug == slug && (s.loggedIn || db.entries[id].published)
    ensures r.outcome.RenderDetail? ==>
              && r.outcome.entry in db.entries.Values && r.outcome.entry.slug == slug
              && (s.loggedIn || r.outcome.entry.published)
    ensures !r.outcome.RenderDetail? ==> r.outcome == NotFound
  {
    var visible := if s.loggedIn then db.entries else Public(db.entries);
    match FindBySlug(visible, slug)
    case None => Response(NotFound, db, s)
    case Some(id) => Response(RenderDetail(visible[id]), db, s)
  }

  // ---------------------------------------------------------------------
  // Properties of the workflows

  /** Guarded handlers do nothing but redirect to login when the session is
      not logged in. */
  lemma GuardedHandlersRedirect(req: Request, s: Session, db: Db, slug: string)
    requires Consistent(db)
    requires !s.loggedIn
    ensures Edit(req, s, db, slug) == Response(RedirectToLogin(req.path), db, s)
    ensures DraftsView(req, s, db) == Response(RedirectToLogin(req.path), db, s)
  {
  }

  /** Editing never changes the slug of any stored entry, even when the
      title changes, as long as the edited entry already had a slug. */
  lemma EditKeepsSlugs(req: Request, s: Session, db: Db, slug: string)
    requires Consistent(db)
    requires slug != ""
    ensures forall id :: id in db.entries ==>
              id in Edit(req, s, db, slug).db.entries &&
              Edit(req, s, db, slug).db.entries[id].slug == db.entries[id].slug
  {
    var r := Edit(req, s, db, slug);
    if s.loggedIn {
      var found := FindBySlug(db.entries, slug);
      if found.Some? && req.verb == Post {
        var e := Submitted(db.entries[found.value], req);
        if e.title != "" {
          var saved := SaveDb(db, e, found);
          if saved.Saved? {
            assert r.db == saved.db;
            assert saved.entry.slug == slug;
          }
        }
      }
    }
  }

  /** Logging out hides drafts again: after a logout POST the detail page
      of a draft is not found. */
  lemma LogoutHidesDrafts(req: Request, s: Session, db: Db, id: Id)
    requires SlugsUnique(db.entries)
    requires req.verb == Post
    requires id in db.entries && !db.entries[id].published
    ensures Detail(Logout(req, s, db).session, db, db.entries[id].slug).outcome == NotFound
  {
  }

  /** The store a save runs against in place: the workflow applied to an
      `EntryStore`, with the same outcome and the same new tables as
      `CreateOrEdit`. */
  method CreateOrEditOn(store: EntryStore, req: Request, s: Session, entry: Entry, self: Option<Id>, template: Template)
    returns (o: Outcome)
    requires store.Valid()
    requires self.Some? ==> self.value in store.entries
    modifies store
    ensures store.Valid()
    ensures o == CreateOrEdit(req, s, old(store.Snapshot()), entry, self, template).outcome
    ensures store.Snapshot() == CreateOrEdit(req, s, old(store.Snapshot()), entry, self, template).db
  {
    var e := entry;
    if req.verb == Post {
      e := Submitted(entry, req);
      if e.title == "" {
        return RenderForm(template, e, Some(NameRequired));
      }
      var id := store.Save(e, self);
      var saved := WithSlug(e);
      if id.None? {
        return RenderForm(template, saved, Some(NameInUse));
      }
      if saved.published {
        return RenderDone(saved);
      }
      return RedirectToEdit(saved.slug);
    }
    o := RenderForm(template, e, None);
  }
}
