/** The article repository (src/services/articleDB.ts): statements against
    the tables `articles` and `visits`, and the join of `articles` with
    users_and_admins on `articles.user_id = users_and_admins.id`.

    As in the user repository, `dbFails` stands for the store raising an
    error. Instants (the `timestamp` column, the bounds of a range, the time
    of a visit) are integer milliseconds since the epoch; the text the source
    sends for them is `SqlTimestamp` of the ISO string. */
module Articles {
  import opened DbStatus
  import opened Tables
  import opened Strings
  import Users

  /** A row of `articles`, columns in the order of the INSERT. `content` is
      the stored markup. */
  datatype Article = Article(id: int, timestamp: int, userId: int, title: string, content: string, category: string)

  /** A row of `visits`: store-assigned id, the article viewed, and when. */
  datatype Visit = Visit(id: int, articleId: int, viewedAt: int)

  /** Row shapes of the different column lists. */

  /** `SELECT *` over the join: both rows whole. (In the driver's row objects
      the user's `id` column would shadow the article's.) */
  datatype Joined = Joined(article: Article, author: Users.User)
  /** `articles.id, title, category, timestamp` */
  datatype Summary = Summary(id: int, title: string, category: string, timestamp: int)
  /** `id, title, content, timestamp, category` */
  datatype Listing = Listing(id: int, title: string, content: string, timestamp: int, category: string)
  /** `title, content, category, timestamp` */
  datatype Body = Body(title: string, content: string, category: string, timestamp: int)
  /** `articles.id, title, content, category, timestamp, full_name` */
  datatype View = View(id: int, title: string, content: string, category: string, timestamp: int, fullName: string)

  function JoinedOf(a: Article, u: Users.User): Joined {
    Joined(a, u)
  }

  function SummaryOf(a: Article, u: Users.User): Summary {
    Summary(a.id, a.title, a.category, a.timestamp)
  }

  function ListingOf(a: Article): Listing {
    Listing(a.id, a.title, a.content, a.timestamp, a.category)
  }

  function BodyOf(a: Article, u: Users.User): Body {
    Body(a.title, a.content, a.category, a.timestamp)
  }

  function ViewOf(a: Article, u: Users.User): View {
    View(a.id, a.title, a.content, a.category, a.timestamp, u.fullName)
  }

  /** The primary key. */
  function ArticleId(a: Article): int {
    a.id
  }

  /** The primary key of `visits`. */
  function VisitId(v: Visit): int {
    v.id
  }

  const Succeeded := "Query run succeded"
  const Failed := "Query run failed"

  // ---------------------------------------------------------------------
  // Content markup

  const ParagraphBreak := "</p><p>"

  /** How addOne stores paragraphs: `"<p>" + content.join("</p><p>") + "</p>"`. */
  function Paragraphs(content: seq<string>): (r: string)
    ensures |r| >= 7 && r[..3] == "<p>" && r[|r| - 4..] == "</p>"
    ensures content == [] ==> r == "<p></p>"
  {
    "<p>" + Join(content, ParagraphBreak) + "</p>"
  }

  /** Each paragraph wrapped in its own tag, one after another. */
  function EachWrapped(content: seq<string>): string {
    if content == [] then ""
    else "<p>" + content[0] + "</p>" + EachWrapped(content[1..])
  }

  /** The join-based serialisation wraps every paragraph in its own tag; the
      empty list alone differs, becoming one empty paragraph. */
  lemma {:induction false} ParagraphsWrapEach(content: seq<string>)
    requires content != []
    ensures Paragraphs(content) == EachWrapped(content)
  {
    if |content| > 1 {
      ParagraphsWrapEach(content[1..]);
      var x, rest := content[0], Join(content[1..], ParagraphBreak);
      calc {
        Paragraphs(content);
        "<p>" + (x + ParagraphBreak + rest) + "</p>";
        ("<p>" + x + "</p>") + ("<p>" + rest + "</p>");
        EachWrapped(content);
      }
    }
  }

  lemma ParagraphsExamples()
    ensures Paragraphs(["a", "b"]) == "<p>a</p><p>b</p>"
    ensures Paragraphs([]) == "<p></p>"
  {
    assert Join(["a", "b"], ParagraphBreak) == "a</p><p>b" by {
      assert ["a", "b"][1..] == ["b"];
    }
  }

  /** updateArticle accepts either a paragraph list or a single string. */
  datatype ContentInput = ParagraphList(paragraphs: seq<string>) | Markup(text: string)

  /** updateArticle's markup: a list as addOne stores it, a string wrapped in
      one paragraph. */
  function ProcessedContent(c: ContentInput): (r: string)
    ensures |r| >= 7 && r[..3] == "<p>" && r[|r| - 4..] == "</p>"
    ensures c.Markup? ==> r[3..|r| - 4] == c.text
    ensures c.ParagraphList? ==> r == Paragraphs(c.paragraphs)
  {
    match c
    case ParagraphList(ps) => Paragraphs(ps)
    case Markup(t) => "<p>" + t + "</p>"
  }

  /** A one-paragraph list and the same text passed as a string store the
      same markup. */
  lemma ProcessedContentAgrees(t: string)
    ensures ProcessedContent(ParagraphList([t])) == ProcessedContent(Markup(t))
  {
  }

  // ---------------------------------------------------------------------
  // Timestamp text

  /** `iso.split("T").join(" ").split("Z").join("")`: the text sent for an
      instant, from its ISO-8601 form. */
  function SqlTimestamp(iso: string): (r: string)
    ensures 'T' !in r && 'Z' !in r
  {
    var spaced := Substitute(iso, 'T', " ");
    SplitJoin(iso, 'T', " ");
    SplitJoin(spaced, 'Z', "");
    SubstituteOccurrences(iso, 'T', " ", 'T');
    SubstituteOccurrences(spaced, 'Z', "", 'T');
    SubstituteOccurrences(spaced, 'Z', "", 'Z');
    Join(Split(Join(Split(iso, 'T'), " "), 'Z'), "")
  }

  /** The rewrite turns every `T` into a space and drops every `Z`, so
      neither letter is left. */
  lemma SqlTimestampRewrites(iso: string)
    ensures SqlTimestamp(iso) == Substitute(Substitute(iso, 'T', " "), 'Z', "")
    ensures 'T' !in SqlTimestamp(iso) && 'Z' !in SqlTimestamp(iso)
  {
    SplitJoin(iso, 'T', " ");
    SplitJoin(Substitute(iso, 'T', " "), 'Z', "");
  }

  predicate IsDigit(c: char) {
    '0' <= c <= '9'
  }

  /** The shape `Date.prototype.toISOString` produces for four-digit years:
      `YYYY-MM-DDTHH:mm:ss.sssZ`. */
  predicate IsoShaped(s: string) {
    && |s| == 24
    && s[4] == '-' && s[7] == '-' && s[10] == 'T'
    && s[13] == ':' && s[16] == ':' && s[19] == '.' && s[23] == 'Z'
    && forall i :: 0 <= i < 24 && i !in {4, 7, 10, 13, 16, 19, 23} ==> IsDigit(s[i])
  }

  /** An ISO string is its date, `T`, its time and `Z`, and neither letter
      occurs in the date or the time. */
  lemma IsoPieces(s: string)
    requires IsoShaped(s)
    ensures s == s[..10] + ['T'] + s[11..23] + ['Z']
    ensures 'T' !in s[..10] && 'Z' !in s[..10] && 'T' !in s[11..23] && 'Z' !in s[11..23]
  {
    var date, time := s[..10], s[11..23];
    forall i | 0 <= i < |date|
      ensures date[i] != 'T' && date[i] != 'Z'
    {
      assert date[i] == s[i];
    }
    forall i | 0 <= i < |time|
      ensures time[i] != 'T' && time[i] != 'Z'
    {
      assert time[i] == s[i + 11];
    }
  }

  /** An ISO string of 24 characters becomes `YYYY-MM-DD HH:mm:ss.sss`: 23
      characters with the space at index 10. */
  lemma SqlTimestampOfIso(s: string)
    requires IsoShaped(s)
    ensures SqlTimestamp(s) == s[..10] + " " + s[11..23]
    ensures |SqlTimestamp(s)| == 23 && SqlTimestamp(s)[10] == ' '
  {
    var date, time := s[..10], s[11..23];
    IsoPieces(s);
    SqlTimestampRewrites(s);
    SubstituteBetween(date, 'T', time, 'Z', 'T', " ");
    assert Substitute(s, 'T', " ") == date + [' '] + time + ['Z'];
    SubstituteBetween(date, ' ', time, 'Z', 'Z', "");
  }

  // ---------------------------------------------------------------------
  // SELECT variants

  /** `MAX(timestamp)` over all articles; NULL for an empty table. */
  function MaxTimestamp(articles: seq<Article>): (m: Option<int>)
    ensures m.None? <==> articles == []
    ensures m.Some? ==> forall a :: a in articles ==> a.timestamp <= m.value
    ensures m.Some? ==> exists a :: a in articles && a.timestamp == m.value
  {
    if articles == [] then None
    else
      match MaxTimestamp(articles[1..])
      case None => Some(articles[0].timestamp)
      case Some(t) => Some(if articles[0].timestamp < t then t else articles[0].timestamp)
  }

  function NewestOn(articles: seq<Article>): (Article, Users.User) -> bool {
    (a: Article, u: Users.User) => a.userId == u.id && Some(a.timestamp) == MaxTimestamp(articles)
  }

  /** findNewestArticle: the first joined row whose timestamp is the maximum
      over the whole `articles` table (so an empty answer when the newest
      article has no matching user). */
  function FindNewestArticle(articles: seq<Article>, users: seq<Users.User>, dbFails: bool): (s: Status<Joined>)
    ensures dbFails ==> s == Status(1, "Query run failed.", False)
    ensures !dbFails ==> s.status == 0 && s.message == "Query run successfully." && s.rows.Selected?
    ensures !dbFails ==> |s.rows.records| <= 1
    ensures !dbFails ==> forall j :: j in s.rows.records ==>
      && j.article in articles && j.author in users && j.article.userId == j.author.id
      && forall a :: a in articles ==> a.timestamp <= j.article.timestamp
    ensures !dbFails ==> forall a, u :: a in articles && u in users && a.userId == u.id && Some(a.timestamp) == MaxTimestamp(articles) ==>
      s.rows.records != []
  {
    if dbFails then Status(1, "Query run failed.", False)
    else
      var joined := JoinSelect(articles, users, NewestOn(articles), JoinedOf);
      var rows := Limit(joined, 1);
      forall j | j in rows
        ensures j.article in articles && j.author in users && j.article.userId == j.author.id
        ensures forall a :: a in articles ==> a.timestamp <= j.article.timestamp
      {
        assert j in joined;
        var a, u :| a in articles && u in users && NewestOn(articles)(a, u) && j == JoinedOf(a, u);
        assert j.article == a && MaxTimestamp(articles) == Some(a.timestamp);
      }
      assert forall a, u :: a in articles && u in users && NewestOn(articles)(a, u) ==> joined != [] by {
        forall a, u | a in articles && u in users && NewestOn(articles)(a, u)
          ensures joined != []
        {
          assert JoinedOf(a, u) in joined;
        }
      }
      Status(0, "Query run successfully.", Selected(rows))
  }

  function InRange(from: int, to: int): Article -> bool {
    (a: Article) => from <= a.timestamp <= to
  }

  /** find100Random: despite its name, every article in the closed range,
      with no limit and no randomness. */
  function Find100Random(articles: seq<Article>, from: int, to: int, dbFails: bool): (s: Status<Article>)
    ensures dbFails ==> s == Status(1, "Query run failed.", False)
    ensures !dbFails ==> s.status == 0 && s.message == "Query run successfully." && s.rows.Selected?
    ensures !dbFails ==> forall a :: a in s.rows.records <==> a in articles && from <= a.timestamp <= to
  {
    if dbFails then Status(1, "Query run failed.", False)
    else Status(0, "Query run successfully.", Selected(Filter(articles, InRange(from, to))))
  }

  function ByAuthorOn(fullName: string): (Article, Users.User) -> bool {
    (a: Article, u: Users.User) => a.userId == u.id && u.fullName == fullName
  }

  /** listAllByUserFullName: a summary of every article whose author has that
      name (active or not). Its failure carries `null`. */
  function ListAllByUserFullName(articles: seq<Article>, users: seq<Users.User>, fullName: string, dbFails: bool): (s: Status<Summary>)
    ensures dbFails ==> s == Status(1, Failed, Null)
    ensures !dbFails ==> s.status == 0 && s.message == Succeeded && s.rows.Selected?
    ensures !dbFails ==> forall a, u :: a in articles && u in users && a.userId == u.id && u.fullName == fullName ==>
      Summary(a.id, a.title, a.category, a.timestamp) in s.rows.records
    ensures !dbFails ==> forall v :: v in s.rows.records ==> exists a, u ::
      a in articles && u in users && a.userId == u.id && u.fullName == fullName && v == Summary(a.id, a.title, a.category, a.timestamp)
  {
    if dbFails then Status(1, Failed, Null)
    else Status(0, Succeeded, Selected(JoinSelect(articles, users, ByAuthorOn(fullName), SummaryOf)))
  }

  function CategoryIs(category: string): Article -> bool {
    (a: Article) => a.category == category
  }

  /** findAllByCategory: exact match on the category. */
  function FindAllByCategory(articles: seq<Article>, category: string, dbFails: bool): (s: Status<Listing>)
    ensures dbFails ==> s == Status(1, Failed, False)
    ensures !dbFails ==> s.status == 0 && s.message == Succeeded && s.rows.Selected?
    ensures !dbFails ==> forall a :: a in articles && a.category == category ==> ListingOf(a) in s.rows.records
    ensures !dbFails ==> forall v :: v in s.rows.records ==> v.category == category && exists a :: a in articles && v == ListingOf(a)
  {
    if dbFails then Status(1, Failed, False)
    else Status(0, Succeeded, Selected(Select(articles, CategoryIs(category), ListingOf)))
  }

  function ByAuthorAndCategoryOn(fullName: string, category: string): (Article, Users.User) -> bool {
    (a: Article, u: Users.User) => a.userId == u.id && u.fullName == fullName && a.category == category
  }

  /** findAllByUserFullNameAndCategory. */
  function FindAllByUserFullNameAndCategory(articles: seq<Article>, users: seq<Users.User>, fullName: string, category: string, dbFails: bool): (s: Status<Body>)
    ensures dbFails ==> s == Status(1, Failed, False)
    ensures !dbFails ==> s.status == 0 && s.message == Succeeded && s.rows.Selected?
    ensures !dbFails ==> forall a, u :: a in articles && u in users && a.userId == u.id && u.fullName == fullName && a.category == category ==>
      BodyOf(a, u) in s.rows.records
    ensures !dbFails ==> forall v :: v in s.rows.records ==> v.category == category && exists a, u ::
      a in articles && u in users && a.userId == u.id && u.fullName == fullName && v == BodyOf(a, u)
  {
    if dbFails then Status(1, Failed, False)
    else Status(0, Succeeded, Selected(JoinSelect(articles, users, ByAuthorAndCategoryOn(fullName, category), BodyOf)))
  }

  function TitleLike(title: string): Article -> bool {
    (a: Article) => Contains(a.title, title)
  }

  /** findAllByTitle: `title LIKE '%t%'`, read as substring containment. */
  function FindAllByTitle(articles: seq<Article>, title: string, dbFails: bool): (s: Status<Article>)
    ensures dbFails ==> s == Status(1, Failed, False)
    ensures !dbFails ==> s.status == 0 && s.message == Succeeded && s.rows.Selected?
    ensures !dbFails ==> forall a :: a in s.rows.records <==> a in articles && Contains(a.title, title)
  {
    if dbFails then Status(1, Failed, False)
    else Status(0, Succeeded, Selected(Filter(articles, TitleLike(title))))
  }

  function TitleAndCategoryOn(title: string, category: string): (Article, Users.User) -> bool {
    (a: Article, u: Users.User) => a.userId == u.id && Contains(a.title, title) && a.category == category
  }

  /** findByTitleAndCategory: title contains the term, category matches. */
  function FindByTitleAndCategory(articles: seq<Article>, users: seq<Users.User>, title: string, category: string, dbFails: bool): (s: Status<View>)
    ensures dbFails ==> s == Status(1, Failed, False)
    ensures !dbFails ==> s.status == 0 && s.message == Succeeded && s.rows.Selected?
    ensures !dbFails ==> forall a, u :: a in articles && u in users && a.userId == u.id && Contains(a.title, title) && a.category == category ==>
      ViewOf(a, u) in s.rows.records
    ensures !dbFails ==> forall v :: v in s.rows.records ==> exists a, u ::
      a in articles && u in users && a.userId == u.id && Contains(a.title, title) && a.category == category && v == ViewOf(a, u)
  {
    if dbFails then Status(1, Failed, False)
    else Status(0, Succeeded, Selected(JoinSelect(articles, users, TitleAndCategoryOn(title, category), ViewOf)))
  }

  function IdOn(id: int): (Article, Users.User) -> bool {
    (a: Article, u: Users.User) => a.userId == u.id && a.id == id
  }

  /** The rows of findById's SELECT: at most one, the view of the article
      with that id joined with its author; none when either is missing. */
  function FindByIdRows(articles: seq<Article>, users: seq<Users.User>, id: int): (r: seq<View>)
    ensures |r| <= 1
    ensures forall v :: v in r ==> exists a, u :: a in articles && u in users && a.userId == u.id && a.id == id && v == ViewOf(a, u)
    ensures forall a, u :: a in articles && u in users && a.userId == u.id && a.id == id ==> r != []
  {
    var joined := JoinSelect(articles, users, IdOn(id), ViewOf);
    assert forall a, u :: a in articles && u in users && IdOn(id)(a, u) ==> joined != [] by {
      forall a, u | a in articles && u in users && IdOn(id)(a, u)
        ensures joined != []
      {
        assert ViewOf(a, u) in joined;
      }
    }
    Limit(joined, 1)
  }

  /** findOneRandom: `rows[0].getId()` is called on a plain row object (and
      on `undefined` when nothing matched), so it throws before the visit is
      recorded and every call ends in the failure path. */
  function FindOneRandom(articles: seq<Article>, from: int, to: int): (s: Status<Article>)
    ensures s.IsFailure() && s.message == Failed && s.rows == False
  {
    Status(1, Failed, False)
  }

  /** findLastPosted: `MAX()` inside WHERE is rejected by the store, so every
      call fails. */
  function FindLastPosted(articles: seq<Article>): (s: Status<Article>)
    ensures s.IsFailure() && s.message == Failed && s.rows == False
  {
    Status(1, Failed, False)
  }

  // ---------------------------------------------------------------------
  // The tables the writes leave behind

  function IdIs(id: int): Article -> bool {
    (a: Article) => a.id == id
  }

  function Rewrite(title: string, content: string, category: string): Article -> Article {
    (a: Article) => a.(title := title, content := content, category := category)
  }

  /** updateArticle's UPDATE: title, content and category are overwritten on
      the row with that id; its id, timestamp and author, and every other
      row, stay as they were. */
  function UpdateArticleRows(table: seq<Article>, id: int, title: string, content: string, category: string): (r: seq<Article>)
    ensures |r| == |table|
    ensures forall i :: 0 <= i < |table| ==>
      r[i].id == table[i].id && r[i].timestamp == table[i].timestamp && r[i].userId == table[i].userId
    ensures forall i :: 0 <= i < |table| && table[i].id != id ==> r[i] == table[i]
    ensures forall i :: 0 <= i < |table| && table[i].id == id ==>
      r[i].title == title && r[i].content == content && r[i].category == category
  {
    Update(table, IdIs(id), Rewrite(title, content, category))
  }

  /** deleteArticle's DELETE: exactly the rows with that id go; the rest stay
      in order. */
  function DeleteArticleRows(table: seq<Article>, id: int): (r: seq<Article>)
    ensures forall a :: a in r <==> a in table && a.id != id
    ensures |r| + |Filter(table, IdIs(id))| == |table|
  {
    FilterComplement(table, IdIs(id));
    Filter(table, Not(IdIs(id)))
  }

  /** The delete goes through the table row by row: the rows it keeps from
      `a + b` are those it keeps from `a` followed by those it keeps from `b`. */
  lemma DeleteArticleRowsAppend(a: seq<Article>, b: seq<Article>, id: int)
    ensures DeleteArticleRows(a + b, id) == DeleteArticleRows(a, id) + DeleteArticleRows(b, id)
  {
    FilterAppend(a, b, Not(IdIs(id)));
  }

  /** Row by row: a row is dropped exactly when it has that id, and a kept row
      stays behind the rows kept before it (no reordering, no duplication). */
  lemma DeleteArticleRowsSnoc(a: seq<Article>, x: Article, id: int)
    ensures DeleteArticleRows(a + [x], id) == DeleteArticleRows(a, id) + (if x.id == id then [] else [x])
  {
    DeleteArticleRowsAppend(a, [x], id);
    assert [x][1..] == [];
  }

  /** After a delete, reading the article by id finds nothing. */
  lemma DeleteThenFindById(table: seq<Article>, users: seq<Users.User>, id: int)
    ensures FindByIdRows(DeleteArticleRows(table, id), users, id) == []
  {
    var kept := DeleteArticleRows(table, id);
    forall i, j | 0 <= i < |kept| && 0 <= j < |users|
      ensures !IdOn(id)(kept[i], users[j])
    {
      assert kept[i] in kept;
    }
    JoinSelectNone(kept, users, IdOn(id), ViewOf);
  }

  /** A freshly published article is what a read by its id returns, joined
      with its author. */
  lemma PublishThenFindById(table: seq<Article>, users: seq<Users.User>, a: Article, u: Users.User)
    requires forall b :: b in table ==> b.id != a.id
    requires Users.UniqueIds(users) && u in users && u.id == a.userId
    ensures FindByIdRows(table + [a], users, a.id) == [ViewOf(a, u)]
  {
    var r := FindByIdRows(table + [a], users, a.id);
    assert a in table + [a];
    assert |r| == 1;
    assert r[0] in r;
    var a', u' :| a' in table + [a] && u' in users && a'.userId == u'.id && a'.id == a.id && r[0] == ViewOf(a', u');
    assert a' == a;
    var i :| 0 <= i < |users| && users[i] == u;
    var j :| 0 <= j < |users| && users[j] == u';
    assert Users.Id(users[i]) == Users.Id(users[j]);
  }

  /** How many visits an article has. */
  function VisitCount(visits: seq<Visit>, articleId: int): nat {
    |Filter(visits, (v: Visit) => v.articleId == articleId)|
  }

  /** Recording a visit raises that article's count by one and leaves every
      other article's count alone. */
  lemma VisitCountAppend(visits: seq<Visit>, v: Visit, articleId: int)
    ensures VisitCount(visits + [v], articleId) == VisitCount(visits, articleId) + if v.articleId == articleId then 1 else 0
  {
    FilterAppend(visits, [v], (w: Visit) => w.articleId == articleId);
  }

  // ---------------------------------------------------------------------
  // The tables as a mutable object

  /** `articles` and `visits`, with their AUTO_INCREMENT counters. */
  class ArticleStore {
    var articles: seq<Article>
    var visits: seq<Visit>
    var nextArticleId: int
    var nextVisitId: int

    ghost predicate Valid()
      reads this
    {
      && UniqueKeys(articles, ArticleId)
      && (forall a :: a in articles ==> a.id < nextArticleId)
      && UniqueKeys(visits, VisitId)
      && (forall v :: v in visits ==> v.id < nextVisitId)
    }

    constructor ()
      ensures Valid() && articles == [] && visits == []
    {
      articles, visits := [], [];
      nextArticleId, nextVisitId := 1, 1;
    }

    /** addOne: stores one article under a fresh id, with the paragraphs
        turned into markup and `now` as its timestamp. */
    method AddOne(userId: int, title: string, content: seq<string>, category: string, now: int, dbFails: bool) returns (s: Status<Article>)
      requires Valid()
      modifies this
      ensures Valid()
      ensures visits == old(visits) && nextVisitId == old(nextVisitId)
      ensures dbFails ==> s == Status(1, "Article not added", False) && articles == old(articles) && nextArticleId == old(nextArticleId)
      ensures !dbFails ==> s == Status(0, "Article Added.", Written(1, old(nextArticleId)))
      ensures !dbFails ==> articles == old(articles) + [Article(old(nextArticleId), now, userId, title, Paragraphs(content), category)]
      ensures !dbFails ==> nextArticleId > old(nextArticleId) && forall a :: a in old(articles) ==> a.id != old(nextArticleId)
    {
      var processed := Paragraphs(content);
      if dbFails {
        return Status(1, "Article not added", False);
      }
      var a := Article(nextArticleId, now, userId, title, processed, category);
      var grown := articles + [a];
      assert UniqueKeys(grown, ArticleId) by {
        forall i, j | 0 <= i < j < |grown|
          ensures ArticleId(grown[i]) != ArticleId(grown[j])
        {
          assert grown[i] in articles;
          if j < |articles| {
            assert grown[i] == articles[i] && grown[j] == articles[j];
          }
        }
      }
      articles := grown;
      s := Status(0, "Article Added.", Written(1, nextArticleId));
      nextArticleId := nextArticleId + 1;
    }

    /** updateArticle. */
    method UpdateArticle(id: int, title: string, category: string, content: ContentInput, dbFails: bool) returns (s: Status<Article>)
      requires Valid()
      modifies this
      ensures Valid()
      ensures visits == old(visits) && nextVisitId == old(nextVisitId) && nextArticleId == old(nextArticleId)
      ensures dbFails ==> s == Status(1, Failed, False) && articles == old(articles)
      ensures !dbFails ==> articles == UpdateArticleRows(old(articles), id, title, ProcessedContent(content), category)
      ensures !dbFails ==> s == Status(0, Succeeded, Written(|Filter(old(articles), IdIs(id))|, 0))
    {
      if dbFails {
        return Status(1, Failed, False);
      }
      var matched := |Filter(articles, IdIs(id))|;
      var processed := ProcessedContent(content);
      UpdateKeepsKeys(articles, IdIs(id), Rewrite(title, processed, category), ArticleId);
      var r := UpdateArticleRows(articles, id, title, processed, category);
      assert forall a :: a in r ==> a.id < nextArticleId by {
        forall a | a in r
          ensures a.id < nextArticleId
        {
          var i :| 0 <= i < |r| && r[i] == a;
          assert articles[i] in articles;
        }
      }
      articles := r;
      s := Status(0, Succeeded, Written(matched, 0));
    }

    /** deleteArticle: a hard delete; the visits of the article are kept. */
    method DeleteArticle(id: int, dbFails: bool) returns (s: Status<Article>)
      requires Valid()
      modifies this
      ensures Valid()
      ensures visits == old(visits) && nextVisitId == old(nextVisitId) && nextArticleId == old(nextArticleId)
      ensures dbFails ==> s == Status(1, Failed, False) && articles == old(articles)
      ensures !dbFails ==> articles == DeleteArticleRows(old(articles), id)
      ensures !dbFails ==> s == Status(0, Succeeded, Written(|Filter(old(articles), IdIs(id))|, 0))
    {
      if dbFails {
        return Status(1, Failed, False);
      }
      var matched := |Filter(articles, IdIs(id))|;
      FilterKeepsUniqueKeys(articles, Not(IdIs(id)), ArticleId);
      articles := DeleteArticleRows(articles, id);
      s := Status(0, Succeeded, Written(matched, 0));
    }

    /** addArticleViewCount: appends one visit stamped `now`. */
    method AddArticleViewCount(articleId: int, now: int, visitFails: bool) returns (s: Status<Visit>)
      requires Valid()
      modifies this
      ensures Valid()
      ensures articles == old(articles) && nextArticleId == old(nextArticleId)
      ensures visitFails ==> s == Status(1, Failed, False) && visits == old(visits) && nextVisitId == old(nextVisitId)
      ensures !visitFails ==> s == Status(0, Succeeded, Written(1, old(nextVisitId)))
      ensures !visitFails ==> visits == old(visits) + [Visit(old(nextVisitId), articleId, now)] && nextVisitId == old(nextVisitId) + 1
    {
      if visitFails {
        return Status(1, Failed, False);
      }
      var grown := visits + [Visit(nextVisitId, articleId, now)];
      assert UniqueKeys(grown, VisitId) by {
        forall i, j | 0 <= i < j < |grown|
          ensures VisitId(grown[i]) != VisitId(grown[j])
        {
          assert grown[i] in visits;
          if j < |visits| {
            assert grown[i] == visits[i] && grown[j] == visits[j];
          }
        }
      }
      visits := grown;
      s := Status(0, Succeeded, Written(1, nextVisitId));
      nextVisitId := nextVisitId + 1;
    }

    /** findById: reads the article joined with its author, then records a
        visit to that id whether or not a row came back. The visit opens its
        own connection outside its own `try` but inside findById's, so a
        failure to connect for the visit turns the whole call into findById's
        failure, after a successful read and with no visit recorded. A failing
        visit insert, caught inside addArticleViewCount, does not change the
        answer. A failing read records no visit. */
    method FindById(users: seq<Users.User>, articleId: int, now: int, dbFails: bool, visitConnectFails: bool, visitInsertFails: bool)
      returns (s: Status<View>)
      requires Valid()
      modifies this
      ensures Valid()
      ensures articles == old(articles) && nextArticleId == old(nextArticleId)
      ensures dbFails || visitConnectFails ==> s == Status(1, Failed, False) && visits == old(visits) && nextVisitId == old(nextVisitId)
      ensures !dbFails && !visitConnectFails ==> s == Status(0, Succeeded, Selected(FindByIdRows(old(articles), users, articleId)))
      ensures !dbFails && !visitConnectFails && visitInsertFails ==> visits == old(visits) && nextVisitId == old(nextVisitId)
      ensures !dbFails && !visitConnectFails && !visitInsertFails ==> visits == old(visits) + [Visit(old(nextVisitId), articleId, now)]
      ensures !dbFails && !visitConnectFails && !visitInsertFails ==> nextVisitId == old(nextVisitId) + 1
    {
      if dbFails {
        return Status(1, Failed, False);
      }
      var rows := FindByIdRows(articles, users, articleId);
      if visitConnectFails {
        return Status(1, Failed, False);
      }
      var _ := AddArticleViewCount(articleId, now, visitInsertFails);
      s := Status(0, Succeeded, Selected(rows));
    }
  }
}
