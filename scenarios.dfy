/** Concrete walks through the workflows: a draft is created from the title
    "Hello, World!", a second entry with the same title is refused, the
    draft is hidden from anonymous readers, then published through the
    edit page. */
module Scenarios {
  import opened Slug
  import opened Store
  import opened Views

  /** Every character of `w` is a word character. */
  predicate AllWord(w: seq<char>) {
    forall i :: 0 <= i < |w| ==> IsWordChar(w[i])
  }

  /** No character of `p` is a word character. */
  predicate NoWord(p: seq<char>) {
    forall i :: 0 <= i < |p| ==> !IsWordChar(p[i])
  }

  /** The word run at the front of `w + rest` is exactly `w`. */
  lemma {:induction false} WordRunOf(w: seq<char>, rest: seq<char>)
    requires AllWord(w)
    requires rest == [] || !IsWordChar(rest[0])
    ensures WordRun(w + rest) == |w|
  {
    if w != [] {
      assert (w + rest)[1..] == w[1..] + rest;
      WordRunOf(w[1..], rest);
    }
  }

  /** The non-word run at the front of `p + rest` is exactly `p`. */
  lemma {:induction false} NonWordRunOf(p: seq<char>, rest: seq<char>)
    requires NoWord(p)
    requires rest == [] || IsWordChar(rest[0])
    ensures NonWordRun(p + rest) == |p|
  {
    if p != [] {
      assert (p + rest)[1..] == p[1..] + rest;
      NonWordRunOf(p[1..], rest);
    }
  }

  /** A leading word is the first of the words. */
  lemma WordsCons(w: seq<char>, rest: seq<char>)
    requires |w| > 0 && AllWord(w)
    requires rest == [] || !IsWordChar(rest[0])
    ensures Words(w + rest) == [w] + Words(rest)
  {
    WordRunOf(w, rest);
    assert (w + rest)[..|w|] == w && (w + rest)[|w|..] == rest;
  }

  /** A leading run of non-word characters contributes no word. */
  lemma WordsSkip(p: seq<char>, rest: seq<char>)
    requires |p| > 0 && NoWord(p)
    requires rest == [] || IsWordChar(rest[0])
    ensures Words(p + rest) == Words(rest)
  {
    NonWordRunOf(p, rest);
    assert (p + rest)[|p|..] == rest;
  }

  /** Lowercasing works character by character, so it distributes over `+`. */
  lemma LowerStrAppend(x: seq<char>, y: seq<char>)
    ensures LowerStr(x + y) == LowerStr(x) + LowerStr(y)
  {
    var l, r := LowerStr(x + y), LowerStr(x) + LowerStr(y);
    forall i | 0 <= i < |l| ensures l[i] == r[i] {
      if i < |x| { assert (x + y)[i] == x[i]; } else { assert (x + y)[i] == y[i - |x|]; }
    }
  }

  /** Two words, each followed by separators, are the two words. */
  lemma WordsOfTwo(a: seq<char>, p: seq<char>, b: seq<char>, q: seq<char>)
    requires |a| > 0 && AllWord(a) && |b| > 0 && AllWord(b)
    requires |p| > 0 && NoWord(p) && |q| > 0 && NoWord(q)
    ensures Words(a + (p + (b + q))) == [a, b]
  {
    WordsSkip(q, []);
    assert q + [] == q;
    assert Words([]) == [];
    WordsCons(b, q);
    WordsSkip(p, b + q);
    WordsCons(a, p + (b + q));
  }

  /** A title made of a word, separators, a word and separators derives
      the two lowercased words joined by `-`. */
  lemma SlugifyTwoWords(a: seq<char>, p: seq<char>, b: seq<char>, q: seq<char>)
    requires |a| > 0 && AllWord(a) && |b| > 0 && AllWord(b)
    requires |p| > 0 && NoWord(p) && |q| > 0 && NoWord(q)
    ensures Slugify(a + p + b + q) == LowerStr(a) + "-" + LowerStr(b)
  {
    var la, lp, lb, lq := LowerStr(a), LowerStr(p), LowerStr(b), LowerStr(q);
    LowerStrAppend(b, q);
    LowerStrAppend(p, b + q);
    LowerStrAppend(a, p + (b + q));
    Assoc(a, p, b);
    Assoc(a, p + b, q);
    Assoc(p, b, q);
    WordsOfTwo(la, lp, lb, lq);
    SlugifyIsJoinedWords(a + p + b + q);
    JoinTwo(la, lb);
  }

  /** Joining two words puts one `-` between them. */
  lemma JoinTwo(x: seq<char>, y: seq<char>)
    ensures Join([x, y]) == x + "-" + y
  {
    assert [x, y][1..] == [y];
  }

  lemma HelloParts()
    ensures "Hello" + ", " + "World" + "!" == "Hello, World!"
  {
  }

  lemma LowerWords()
    ensures LowerStr("Hello") == "hello" && LowerStr("World") == "world"
  {
  }

  lemma JoinedHello()
    ensures "hello" + "-" + "world" == "hello-world"
  {
  }

  /** The comma, the space and the `!` collapse into one `-` or vanish. */
  lemma HelloWorldSlug()
    ensures Slugify("Hello, World!") == "hello-world"
  {
    SlugifyTwoWords("Hello", ", ", "World", "!");
    HelloParts();
    LowerWords();
    JoinedHello();
  }

  /** Saving an entry titled "Hello, World!" without a slug gives it the
      slug "hello-world". */
  lemma WithSlugHello(e: Entry)
    requires e.title == "Hello, World!" && e.slug == ""
    ensures WithSlug(e) == e.(slug := "hello-world")
  {
    HelloWorldSlug();
  }

  const Empty: Db := Db(map[], map[], 1)

  function HelloForm(published: string): map<string, string> {
    map["title" := "Hello, World!", "content" := "# Hi", "published" := published]
  }

  function CreateHello(published: string): Request {
    Request(Post, "/", map[], HelloForm(published))
  }

  function HelloDraft(now: int): Entry {
    Entry("Hello, World!", "hello-world", "# Hi", false, now)
  }

  function AfterCreate(now: int): Db {
    Db(map[1 := HelloDraft(now)], map[1 := IndexText(HelloDraft(now))], 2)
  }

  /** Creating an unpublished entry titled "Hello, World!" stores it under
      the slug "hello-world" with its index row, and redirects to its edit
      page; it is a draft, not a public entry. */
  lemma CreateDraftScenario(s: Session, now: int)
    ensures Create(CreateHello(""), s, Empty, now) == Response(RedirectToEdit("hello-world"), AfterCreate(now), s)
    ensures 1 in Drafts(AfterCreate(now).entries) && 1 !in Public(AfterCreate(now).entries)
  {
    var e := Submitted(Entry("", "", "", false, now), CreateHello(""));
    assert e == Entry("Hello, World!", "", "# Hi", false, now);
    WithSlugHello(e);
    assert !SlugTaken(Empty.entries, "hello-world", None);
    assert SaveDb(Empty, e, None) == Saved(1, HelloDraft(now), AfterCreate(now));
  }

  /** A second entry with the same title is refused: the form comes back
      with "this name is already in use" and the tables are untouched. */
  lemma DuplicateTitleScenario(s: Session, now: int, later: int)
    ensures Consistent(AfterCreate(now))
    ensures Create(CreateHello(""), s, AfterCreate(now), later)
            == Response(RenderForm(CreateTemplate, HelloDraft(later), Some(NameInUse)), AfterCreate(now), s)
  {
    var db := AfterCreate(now);
    AfterCreateConsistent(now);
    var e := Submitted(Entry("", "", "", false, later), CreateHello(""));
    assert e == Entry("Hello, World!", "", "# Hi", false, later);
    WithSlugHello(e);
    assert WithSlug(e) == HelloDraft(later);
    assert SlugTaken(db.entries, "hello-world", None) by {
      assert db.entries[1].slug == "hello-world";
    }
    assert SaveDb(db, e, None).IntegrityError?;
  }

  /** The tables after the first create are consistent. */
  lemma AfterCreateConsistent(now: int)
    ensures Consistent(AfterCreate(now))
  {
    var db := AfterCreate(now);
    assert db.entries.Keys == {1} && db.index.Keys == {1};
  }

  /** The draft's page is not found for an anonymous reader and shown to
      the logged-in author. */
  lemma DraftVisibilityScenario(now: int)
    ensures Detail(Session(false), AfterCreate(now), "hello-world").outcome == NotFound
    ensures Detail(Session(true), AfterCreate(now), "hello-world").outcome == RenderDetail(HelloDraft(now))
  {
    assert AfterCreate(now).entries[1].slug == "hello-world";
  }

  /** Publishing the draft through its edit page shows the done page, keeps
      the slug and id, and moves the entry from the drafts to the public
      entries. */
  lemma PublishScenario(now: int)
    ensures var r := Edit(Request(Post, "/hello-world/edit/", map[], HelloForm("y")), Session(true), AfterCreate(now), "hello-world");
            && r.outcome == RenderDone(HelloDraft(now).(published := true))
            && r.db.entries == map[1 := HelloDraft(now).(published := true)]
            && 1 in Public(r.db.entries) && 1 !in Drafts(r.db.entries)
  {
    var db := AfterCreate(now);
    assert db.entries[1].slug == "hello-world";
    assert FindBySlug(db.entries, "hello-world") == Some(1);
    var e := Submitted(HelloDraft(now), Request(Post, "/hello-world/edit/", map[], HelloForm("y")));
    assert e == HelloDraft(now).(published := true);
    assert !SlugTaken(db.entries, "hello-world", Some(1));
  }
}
