/** Slug derivation of `Entry.save`: the title is lowercased, every maximal
    run of non-word characters becomes one `-`, and leading and trailing `-`
    are stripped. Characters are restricted to the ASCII meaning of `\w`
    (letters, digits, underscore) and of lowercasing. */
module Slug {

  /** `\w` without the UNICODE flag: ASCII letters, digits and `_`. */
  predicate IsWordChar(c: char) {
    ('a' <= c <= 'z') || ('A' <= c <= 'Z') || ('0' <= c <= '9') || c == '_'
  }

  predicate IsUpper(c: char) {
    'A' <= c <= 'Z'
  }

  /** A character a slug may hold: a lowercase word character or `-`. */
  predicate IsSlugChar(c: char) {
    c == '-' || (IsWordChar(c) && !IsUpper(c))
  }

  /** The shape every derived slug has: only slug characters, no `-` at
      either end and never two `-` side by side. */
  predicate IsSlug(s: seq<char>) {
    && (forall i :: 0 <= i < |s| ==> IsSlugChar(s[i]))
    && (|s| > 0 ==> s[0] != '-' && s[|s| - 1] != '-')
    && (forall i :: 0 <= i < |s| - 1 ==> s[i] != '-' || s[i + 1] != '-')
  }

  /** A non-empty run of lowercase word characters. */
  predicate IsSlugWord(w: seq<char>) {
    |w| > 0 && forall i :: 0 <= i < |w| ==> IsWordChar(w[i]) && !IsUpper(w[i])
  }

  predicate NoUpper(s: seq<char>) {
    forall i :: 0 <= i < |s| ==> !IsUpper(s[i])
  }

  /** ASCII lowercasing of one character. */
  function Lower(c: char): (r: char)
    ensures !IsUpper(r)
    ensures IsWordChar(r) == IsWordChar(c)
    ensures !IsUpper(c) ==> r == c
    ensures IsUpper(c) ==> r == "abcdefghijklmnopqrstuvwxyz"[c as int - 'A' as int]
  {
    if IsUpper(c) then (c as int - 'A' as int + 'a' as int) as char else c
  }

  /** `str.lower()`, character by character. */
  function LowerStr(s: seq<char>): (r: seq<char>)
    ensures |r| == |s|
    ensures NoUpper(r)
    ensures forall i :: 0 <= i < |s| ==> IsWordChar(r[i]) == IsWordChar(s[i])
    ensures NoUpper(s) ==> r == s
    ensures forall i :: 0 <= i < |s| ==> r[i] == Lower(s[i])
  {
    seq(|s|, i requires 0 <= i < |s| => Lower(s[i]))
  }

  /** Length of the longest prefix of `s` made of non-word characters: the
      greedy match of `[^\w]+` at the front of `s`. */
  function NonWordRun(s: seq<char>): (n: nat)
    ensures n <= |s|
    ensures forall i :: 0 <= i < n ==> !IsWordChar(s[i])
    ensures n < |s| ==> IsWordChar(s[n])
  {
    if s == [] || IsWordChar(s[0]) then 0 else 1 + NonWordRun(s[1..])
  }

  /** Length of the longest prefix of `s` made of word characters. */
  function WordRun(s: seq<char>): (n: nat)
    ensures n <= |s|
    ensures forall i :: 0 <= i < n ==> IsWordChar(s[i])
    ensures n < |s| ==> !IsWordChar(s[n])
  {
    if s == [] || !IsWordChar(s[0]) then 0 else 1 + WordRun(s[1..])
  }

  /** `re.sub(r'[^\w]+', '-', s)`: scanning left to right, each maximal run
      of non-word characters is replaced by a single `-`. */
  function SubNonWord(s: seq<char>): (r: seq<char>)
    ensures |r| <= |s|
    decreases |s|
  {
    if s == [] then []
    else if IsWordChar(s[0]) then [s[0]] + SubNonWord(s[1..])
    else "-" + SubNonWord(s[NonWordRun(s)..])
  }

  /** `s.lstrip('-')`. */
  function TrimStart(s: seq<char>): (r: seq<char>)
    ensures |r| <= |s| && r == s[|s| - |r|..]
    ensures forall i :: 0 <= i < |s| - |r| ==> s[i] == '-'
    ensures |r| > 0 ==> r[0] != '-'
  {
    if |s| > 0 && s[0] == '-' then TrimStart(s[1..]) else s
  }

  /** `s.rstrip('-')`. */
  function TrimEnd(s: seq<char>): (r: seq<char>)
    ensures |r| <= |s| && r == s[..|r|]
    ensures forall i :: |r| <= i < |s| ==> s[i] == '-'
    ensures |r| > 0 ==> r[|r| - 1] != '-'
  {
    if |s| > 0 && s[|s| - 1] == '-' then TrimEnd(s[..|s| - 1]) else s
  }

  /** `r` is `s[i..]` cut to `|r|` characters, and everything of `s` before
      and after that part is `-`. */
  predicate StrippedAt(s: seq<char>, r: seq<char>, i: int) {
    && 0 <= i <= |s| - |r| && r == s[i..i + |r|]
    && (forall k :: 0 <= k < i ==> s[k] == '-')
    && (forall k :: i + |r| <= k < |s| ==> s[k] == '-')
  }

  /** A prefix `r` of a suffix `t` of `s`, where only `-` was cut off on
      either side, sits in `s` at `|s| - |t|`. */
  lemma InfixAt(s: seq<char>, t: seq<char>, r: seq<char>)
    requires |t| <= |s| && t == s[|s| - |t|..]
    requires forall k :: 0 <= k < |s| - |t| ==> s[k] == '-'
    requires |r| <= |t| && r == t[..|r|]
    requires forall k :: |r| <= k < |t| ==> t[k] == '-'
    ensures StrippedAt(s, r, |s| - |t|)
  {
    var i := |s| - |t|;
    assert r == s[i..i + |r|];
    forall k | i + |r| <= k < |s| ensures s[k] == '-' {
      assert s[k] == t[k - i];
    }
  }

  /** Trimming both ends keeps the middle of `s` and removes only `-`. */
  lemma TrimBoth(s: seq<char>)
    ensures StrippedAt(s, TrimEnd(TrimStart(s)), |s| - |TrimStart(s)|)
  {
    InfixAt(s, TrimStart(s), TrimEnd(TrimStart(s)));
  }

  /** `s.strip('-')`. */
  function Strip(s: seq<char>): (r: seq<char>)
    ensures |r| <= |s|
    ensures |r| > 0 ==> r[0] != '-' && r[|r| - 1] != '-'
    ensures |s| > 0 && s[0] != '-' && s[|s| - 1] != '-' ==> r == s
    ensures exists i :: StrippedAt(s, r, i)
  {
    TrimBoth(s);
    TrimEnd(TrimStart(s))
  }

  /** The expression of `Entry.save` that derives a slug from a title. */
  function Slugify(title: seq<char>): (r: seq<char>)
    ensures |r| <= |title|
    ensures |r| > 0 ==> r[0] != '-' && r[|r| - 1] != '-'
  {
    Strip(SubNonWord(LowerStr(title)))
  }

  // ---------------------------------------------------------------------
  // Reference definition: the maximal runs of word characters, joined by `-`

  /** The maximal runs of word characters of `s`, in order. */
  function Words(s: seq<char>): (ws: seq<seq<char>>)
    decreases |s|
  {
    if s == [] then []
    else if !IsWordChar(s[0]) then Words(s[NonWordRun(s)..])
    else [s[..WordRun(s)]] + Words(s[WordRun(s)..])
  }

  /** Every word is a non-empty run of word characters taken from `s`, so a
      lowercase `s` has lowercase words. */
  lemma {:induction false} WordsAreSlugWords(s: seq<char>)
    requires NoUpper(s)
    ensures forall k :: 0 <= k < |Words(s)| ==> IsSlugWord(Words(s)[k])
    decreases |s|
  {
    if s != [] {
      if !IsWordChar(s[0]) {
        var n := NonWordRun(s);
        assert NoUpper(s[n..]);
        WordsAreSlugWords(s[n..]);
      } else {
        var k := WordRun(s);
        assert NoUpper(s[k..]);
        WordsAreSlugWords(s[k..]);
        assert IsSlugWord(s[..k]);
        var ws := Words(s);
        assert ws == [s[..k]] + Words(s[k..]);
        forall m | 0 <= m < |ws| ensures IsSlugWord(ws[m]) {
          if m > 0 { assert ws[m] == Words(s[k..])[m - 1]; }
        }
      }
    }
  }

  /** `'-'.join(ws)`. */
  function Join(ws: seq<seq<char>>): seq<char> {
    if ws == [] then []
    else if |ws| == 1 then ws[0]
    else ws[0] + "-" + Join(ws[1..])
  }

  /** What `re.sub` leaves around the joined words: a `-` at the front when
      `s` starts with a non-word character ... */
  function Lead(s: seq<char>): seq<char> {
    if |s| > 0 && !IsWordChar(s[0]) then "-" else ""
  }

  /** ... and a `-` at the back when a word is followed by non-word
      characters up to the end of `s`. */
  function Trail(s: seq<char>): seq<char> {
    if |s| > 0 && Words(s) != [] && !IsWordChar(s[|s| - 1]) then "-" else ""
  }

  /** A string has no words exactly when it has no word character. */
  lemma {:induction false} WordsEmpty(s: seq<char>)
    ensures Words(s) == [] <==> forall i :: 0 <= i < |s| ==> !IsWordChar(s[i])
    decreases |s|
  {
    if s != [] && !IsWordChar(s[0]) {
      var n := NonWordRun(s);
      WordsEmpty(s[n..]);
      forall i | n <= i < |s| ensures s[i] == s[n..][i - n] {}
    } else if s != [] {
      assert IsWordChar(s[0]);
    }
  }

  /** `re.sub` copies a prefix of word characters unchanged. */
  lemma {:induction false} SubWordPrefix(s: seq<char>, k: nat)
    requires k <= |s|
    requires forall i :: 0 <= i < k ==> IsWordChar(s[i])
    ensures SubNonWord(s) == s[..k] + SubNonWord(s[k..])
    decreases k
  {
    if k > 0 {
      SubWordPrefix(s[1..], k - 1);
      assert s[1..][k - 1..] == s[k..];
      assert [s[0]] + s[1..][..k - 1] == s[..k];
      assert SubNonWord(s) == [s[0]] + SubNonWord(s[1..]);
      Assoc([s[0]], s[1..][..k - 1], SubNonWord(s[k..]));
    }
  }

  lemma JoinCons(w: seq<char>, ws: seq<seq<char>>)
    requires ws != []
    ensures Join([w] + ws) == w + "-" + Join(ws)
  {
    assert ([w] + ws)[1..] == ws;
  }

  /** Concatenation is associative; stated once so that the case lemmas
      below need not rediscover it on long concatenations (without this
      hint their proofs exceed the resource limit). */
  lemma Assoc(a: seq<char>, b: seq<char>, c: seq<char>)
    ensures a + (b + c) == a + b + c
  {
  }

  /** The case of `SubNonWordIsJoinedWords` where `s` starts with a word. */
  lemma {:induction false} SubAfterWord(s: seq<char>, k: nat)
    requires 0 < k == WordRun(s) < |s|
    requires SubNonWord(s[k..]) == Lead(s[k..]) + Join(Words(s[k..])) + Trail(s[k..])
    ensures SubNonWord(s) == Lead(s) + Join(Words(s)) + Trail(s)
  {
    SubWordPrefix(s, k);
    assert Words(s) == [s[..k]] + Words(s[k..]);
    if Words(s[k..]) == [] {
      SubAfterLastWord(s, k);
    } else {
      SubBeforeMoreWords(s, k);
    }
  }

  /** ... when no word follows the first one. */
  lemma SubAfterLastWord(s: seq<char>, k: nat)
    requires 0 < k == WordRun(s) < |s|
    requires SubNonWord(s[k..]) == Lead(s[k..]) + Join(Words(s[k..])) + Trail(s[k..])
    requires SubNonWord(s) == s[..k] + SubNonWord(s[k..])
    requires Words(s) == [s[..k]] + Words(s[k..]) && Words(s[k..]) == []
    ensures SubNonWord(s) == Lead(s) + Join(Words(s)) + Trail(s)
  {
    var t, w := s[k..], s[..k];
    assert Trail(s) == "-" by {
      WordsEmpty(t);
      assert s[|s| - 1] == t[|t| - 1];
    }
    assert SubNonWord(t) == "-" by {
      assert Lead(t) == "-" && Trail(t) == "" && Join(Words(t)) == [];
      assert "-" + [] + "" == "-";
    }
    assert Lead(s) == "";
    assert Join(Words(s)) == w by {
      assert Words(s) == [w];
    }
    assert SubNonWord(s) == w + "-";
    LastWordShape(SubNonWord(s), Lead(s), Join(Words(s)), Trail(s), w);
  }

  /** The concatenation step of the case of `SubAfterLastWord`, over plain sequences.
      Kept apart from the facts about `SubNonWord`, `Words` and `Join`:
      proved together with them, the step exceeds the resource limit. */
  lemma LastWordShape(sub: seq<char>, lead: seq<char>, j: seq<char>, trail: seq<char>, w: seq<char>)
    requires sub == w + "-" && lead == "" && j == w && trail == "-"
    ensures sub == lead + j + trail
  {
  }

  /** ... when more words follow the first one. */
  lemma SubBeforeMoreWords(s: seq<char>, k: nat)
    requires 0 < k == WordRun(s) < |s|
    requires SubNonWord(s[k..]) == Lead(s[k..]) + Join(Words(s[k..])) + Trail(s[k..])
    requires SubNonWord(s) == s[..k] + SubNonWord(s[k..])
    requires Words(s) == [s[..k]] + Words(s[k..]) && Words(s[k..]) != []
    ensures SubNonWord(s) == Lead(s) + Join(Words(s)) + Trail(s)
  {
    var t := s[k..];
    var w := s[..k];
    LeadsAroundWord(s, k);
    TrailAfterWord(s, k);
    JoinCons(w, Words(t));
    MoreWordsShape(SubNonWord(s), SubNonWord(t), Lead(s), Lead(t), Join(Words(s)), Join(Words(t)),
                   Trail(s), Trail(t), w);
  }

  /** A leading word leaves no `-` at the front; the non-word run after it
      leaves one. */
  lemma LeadsAroundWord(s: seq<char>, k: nat)
    requires 0 < k == WordRun(s) < |s|
    ensures Lead(s) == "" && Lead(s[k..]) == "-"
  {
    assert !IsWordChar(s[k]);
  }

  /** After a leading word the rest of `s` ends the way `s` does. */
  lemma TrailAfterWord(s: seq<char>, k: nat)
    requires 0 < k == WordRun(s) < |s|
    requires Words(s) != [] && Words(s[k..]) != []
    ensures Trail(s) == Trail(s[k..])
  {
    assert s[|s| - 1] == s[k..][|s| - k - 1];
  }

  /** The concatenation step of the case of `SubBeforeMoreWords`, over plain sequences.
      Kept apart from the facts about `SubNonWord`, `Words` and `Join`:
      proved together with them, the step exceeds the resource limit. */
  lemma MoreWordsShape(sub: seq<char>, subt: seq<char>, lead: seq<char>, leadt: seq<char>,
                       j: seq<char>, jt: seq<char>, trail: seq<char>, trailt: seq<char>, w: seq<char>)
    requires sub == w + subt && subt == leadt + jt + trailt && leadt == "-"
    requires j == w + "-" + jt && lead == "" && trail == trailt
    ensures sub == lead + j + trail
  {
    calc {
      sub;
      w + ("-" + jt + trailt);
      { Assoc(w, "-" + jt, trailt); Assoc(w, "-", jt); }
      lead + j + trail;
    }
  }

  /** The case of `SubNonWordIsJoinedWords` where `s` starts with a
      non-word character. */
  lemma {:induction false} SubAfterNonWord(s: seq<char>, n: nat)
    requires 0 < n == NonWordRun(s)
    requires n < |s| ==> SubNonWord(s[n..]) == Lead(s[n..]) + Join(Words(s[n..])) + Trail(s[n..])
    ensures SubNonWord(s) == Lead(s) + Join(Words(s)) + Trail(s)
  {
    var u := s[n..];
    assert SubNonWord(s) == "-" + SubNonWord(u);
    assert Words(s) == Words(u);
    assert Lead(s) == "-";
    if n < |s| {
      assert IsWordChar(u[0]);
      assert Lead(u) == "";
      assert s[|s| - 1] == u[|u| - 1];
      assert Trail(s) == Trail(u);
      var j, tr := Join(Words(u)), Trail(u);
      assert SubNonWord(u) == j + tr;
      Assoc("-", j, tr);
    } else {
      assert u == [] && Words(u) == [];
      assert SubNonWord(s) == "-" && Trail(s) == "";
      assert "-" + Join([]) + "" == "-";
    }
  }

  /** The case of `SubNonWordIsJoinedWords` where `s` is one word. */
  lemma SubAllWord(s: seq<char>)
    requires s != [] && IsWordChar(s[0]) && WordRun(s) == |s|
    ensures SubNonWord(s) == Lead(s) + Join(Words(s)) + Trail(s)
  {
    var k := |s|;
    assert SubNonWord(s) == s by {
      SubWordPrefix(s, k);
      assert s[..k] == s && s[k..] == [];
    }
    assert Join(Words(s)) == s by {
      assert s[..k] == s && s[k..] == [];
      assert Words(s) == [s];
    }
    assert Lead(s) == "";
    assert Trail(s) == "" by {
      assert IsWordChar(s[|s| - 1]);
    }
    OneWordShape(SubNonWord(s), Lead(s), Join(Words(s)), Trail(s), s);
  }

  /** The concatenation step of the case of `SubAllWord`, over plain sequences.
      Kept apart from the facts about `SubNonWord`, `Words` and `Join`:
      proved together with them, the step exceeds the resource limit. */
  lemma OneWordShape(sub: seq<char>, lead: seq<char>, j: seq<char>, trail: seq<char>, w: seq<char>)
    requires sub == w && lead == "" && j == w && trail == ""
    ensures sub == lead + j + trail
  {
  }

  /** `re.sub` yields the joined words, with at most one `-` on each side. */
  lemma {:induction false} SubNonWordIsJoinedWords(s: seq<char>)
    ensures SubNonWord(s) == Lead(s) + Join(Words(s)) + Trail(s)
    decreases |s|
  {
    if s == [] {
    } else if IsWordChar(s[0]) {
      var k := WordRun(s);
      if k == |s| {
        SubAllWord(s);
      } else {
        SubNonWordIsJoinedWords(s[k..]);
        SubAfterWord(s, k);
      }
    } else {
      var n := NonWordRun(s);
      if n < |s| {
        SubNonWordIsJoinedWords(s[n..]);
      }
      SubAfterNonWord(s, n);
    }
  }

  /** Joining slug words gives a slug, and an empty result only for no words. */
  lemma {:induction false} JoinIsSlug(ws: seq<seq<char>>)
    requires forall k :: 0 <= k < |ws| ==> IsSlugWord(ws[k])
    ensures IsSlug(Join(ws))
    ensures Join(ws) == [] <==> ws == []
  {
    if |ws| > 1 {
      JoinIsSlug(ws[1..]);
      var w, j := ws[0], Join(ws[1..]);
      var s := w + "-" + j;
      assert IsSlugWord(w);
      forall i | 0 <= i < |s| ensures IsSlugChar(s[i]) {
        if i > |w| { assert s[i] == j[i - |w| - 1]; }
      }
      forall i | 0 <= i < |s| - 1 ensures s[i] != '-' || s[i + 1] != '-' {
        if i > |w| { assert s[i] == j[i - |w| - 1] && s[i + 1] == j[i - |w|]; }
      }
      assert s[|s| - 1] == j[|j| - 1];
    }
  }

  lemma TrimStartAround(j: seq<char>, a: seq<char>, b: seq<char>)
    requires a == "" || a == "-"
    requires j == [] ==> b == ""
    requires |j| > 0 ==> j[0] != '-'
    ensures TrimStart(a + j + b) == j + b
  {
    if a == "-" {
      assert (a + j + b)[1..] == j + b;
      assert TrimStart(a + j + b) == TrimStart(j + b);
    } else {
      assert a + j + b == j + b;
    }
  }

  lemma TrimEndAround(j: seq<char>, b: seq<char>)
    requires b == "" || b == "-"
    requires |j| > 0 ==> j[|j| - 1] != '-'
    ensures TrimEnd(j + b) == j
  {
    if b == "-" {
      var x := j + b;
      assert |x| > 0 && x[|x| - 1] == '-';
      assert x[..|x| - 1] == j;
      assert TrimEnd(x) == TrimEnd(j);
      assert TrimEnd(j) == j;
    } else {
      assert j + b == j;
    }
  }

  /** Stripping removes exactly the `-` that `re.sub` left around the words. */
  lemma StripAround(j: seq<char>, a: seq<char>, b: seq<char>)
    requires a == "" || a == "-"
    requires b == "" || b == "-"
    requires j == [] ==> b == ""
    requires |j| > 0 ==> j[0] != '-' && j[|j| - 1] != '-'
    ensures Strip(a + j + b) == j
  {
    TrimStartAround(j, a, b);
    TrimEndAround(j, b);
  }

  /** Reference definition: the slug is the lowercased title's maximal runs
      of word characters joined by single `-`. */
  lemma SlugifyIsJoinedWords(title: seq<char>)
    ensures Slugify(title) == Join(Words(LowerStr(title)))
  {
    var s := LowerStr(title);
    SubNonWordIsJoinedWords(s);
    WordsAreSlugWords(s);
    JoinIsSlug(Words(s));
    if Words(s) == [] {
      assert Trail(s) == "";
    }
    StripAround(Join(Words(s)), Lead(s), Trail(s));
  }

  /** Every derived slug has the slug shape. */
  lemma SlugifyIsSlug(title: seq<char>)
    ensures IsSlug(Slugify(title))
  {
    SlugifyIsJoinedWords(title);
    WordsAreSlugWords(LowerStr(title));
    JoinIsSlug(Words(LowerStr(title)));
  }

  /** A title yields the empty slug exactly when it has no word character. */
  lemma SlugifyEmpty(title: seq<char>)
    ensures Slugify(title) == [] <==> forall i :: 0 <= i < |title| ==> !IsWordChar(title[i])
  {
    var s := LowerStr(title);
    SlugifyIsJoinedWords(title);
    WordsAreSlugWords(s);
    JoinIsSlug(Words(s));
    WordsEmpty(s);
  }

  /** `re.sub` leaves a string of slug characters without adjacent `-` alone. */
  lemma {:induction false} SubNonWordFixed(s: seq<char>)
    requires forall i :: 0 <= i < |s| ==> IsSlugChar(s[i])
    requires forall i :: 0 <= i < |s| - 1 ==> s[i] != '-' || s[i + 1] != '-'
    ensures SubNonWord(s) == s
    decreases |s|
  {
    if s != [] {
      if !IsWordChar(s[0]) {
        assert |s| > 1 ==> IsSlugChar(s[1]) && s[1] != '-';
        assert NonWordRun(s) == 1;
      }
      SubNonWordFixed(s[1..]);
    }
  }

  /** A slug is a fixed point of derivation. */
  lemma SlugFixedPoint(s: seq<char>)
    requires IsSlug(s)
    ensures Slugify(s) == s
  {
    assert NoUpper(s) by {
      forall i | 0 <= i < |s| ensures !IsUpper(s[i]) { assert IsSlugChar(s[i]); }
    }
    assert LowerStr(s) == s;
    SubNonWordFixed(s);
    assert Strip(s) == s;
  }

  /** Deriving again from a derived slug returns it unchanged. */
  lemma SlugifyIdempotent(title: seq<char>)
    ensures Slugify(Slugify(title)) == Slugify(title)
  {
    SlugifyIsSlug(title);
    SlugFixedPoint(Slugify(title));
  }
}
