/**
 * The `quotes` app's tables: `Quote` rows and the anonymous `Favorite`
 * ledger keyed by (quote, client id), with the denormalised `like_count`.
 */
module QuoteModels {
  import opened Wrappers
  import opened Calendar
  import Sorting

  /** `Quote.CATEGORY_CHOICES`. */
  datatype Category = Classic | Drama | Comedy | Love | Horror | Other

  /** The stored value of each category choice. */
  function CategoryCode(c: Category): string {
    match c
    case Classic => "classic"
    case Drama => "drama"
    case Comedy => "comedy"
    case Love => "love"
    case Horror => "horror"
    case Other => "other"
  }

  /** The category a stored value denotes; `None` for a value outside the choices. */
  function CategoryFromCode(s: string): (r: Option<Category>)
    ensures r.Some? ==> CategoryCode(r.value) == s
  {
    if s == "classic" then Some(Classic)
    else if s == "drama" then Some(Drama)
    else if s == "comedy" then Some(Comedy)
    else if s == "love" then Some(Love)
    else if s == "horror" then Some(Horror)
    else if s == "other" then Some(Other)
    else None
  }

  /** Every choice is recognised from its stored value, so the codes are distinct. */
  lemma CategoryCodeRoundTrip(c: Category)
    ensures CategoryFromCode(CategoryCode(c)) == Some(c)
  {
  }

  /** One `Quote` row (the fields before the author split of migration 0002). */
  datatype Quote = Quote(
    id: nat,
    text: string,
    author: string,
    category: Category,
    tags: string,
    publishDate: Date,
    isPublicDomain: bool,
    amazonKey: string,
    bgImageUrl: string,
    likeCount: nat)

  /** A quote created with every defaulted field left at its default. */
  function NewQuote(id: nat, text: string, publishDate: Date): Quote {
    Quote(id, text, "", Other, "", publishDate, false, "", "", 0)
  }

  /** One `Favorite` row: the pair that `unique_together` makes unique. */
  datatype Favorite = Favorite(quoteId: nat, clientId: string)

  /**
   * The two tables. `favorites` is in creation order, so its last row has
   * the greatest `created_at`.
   */
  datatype Db = Db(quotes: seq<Quote>, favorites: seq<Favorite>)

  /** The primary key is unique. */
  ghost predicate UniqueIds(quotes: seq<Quote>) {
    forall i, j :: 0 <= i < j < |quotes| ==> quotes[i].id != quotes[j].id
  }

  /** `unique_together = ("quote", "client_id")`. */
  ghost predicate UniqueFavorites(favorites: seq<Favorite>) {
    forall i, j :: 0 <= i < j < |favorites| ==> favorites[i] != favorites[j]
  }

  predicate HasQuote(quotes: seq<Quote>, id: nat) {
    exists i :: 0 <= i < |quotes| && quotes[i].id == id
  }

  /** The foreign key: every favorite points at an existing quote. */
  ghost predicate FavoritesReferToQuotes(db: Db) {
    forall i :: 0 <= i < |db.favorites| ==> HasQuote(db.quotes, db.favorites[i].quoteId)
  }

  /** What the database schema itself guarantees of any state. */
  ghost predicate WellFormed(db: Db) {
    && UniqueIds(db.quotes)
    && UniqueFavorites(db.favorites)
    && FavoritesReferToQuotes(db)
  }

  /** Number of favorite rows that point at quote `id`. */
  function LikesOf(favorites: seq<Favorite>, id: nat): nat {
    if |favorites| == 0 then 0
    else (if favorites[0].quoteId == id then 1 else 0) + LikesOf(favorites[1..], id)
  }

  /** The denormalised counter equals the size of the quote's favorite set. */
  ghost predicate CountersInSync(db: Db) {
    forall i :: 0 <= i < |db.quotes| ==> db.quotes[i].likeCount == LikesOf(db.favorites, db.quotes[i].id)
  }

  /** The application invariant on top of the schema's guarantees. */
  ghost predicate Valid(db: Db) {
    WellFormed(db) && CountersInSync(db)
  }

  /** `Quote.objects.get(pk=id)`: the row with that primary key, if any. */
  function FindQuote(quotes: seq<Quote>, id: nat): (r: Option<Quote>)
    ensures r.Some? <==> HasQuote(quotes, id)
    ensures r.Some? ==> r.value in quotes && r.value.id == id
  {
    if |quotes| == 0 then None
    else if quotes[0].id == id then Some(quotes[0])
    else
      var r := FindQuote(quotes[1..], id);
      assert HasQuote(quotes, id) ==> HasQuote(quotes[1..], id) by {
        if HasQuote(quotes, id) {
          var i :| 0 <= i < |quotes| && quotes[i].id == id;
          assert quotes[1..][i - 1].id == id;
        }
      }
      r
  }

  /** With unique ids, the row found is the only row with that id. */
  lemma FindQuoteUnique(quotes: seq<Quote>, i: int)
    requires UniqueIds(quotes)
    requires 0 <= i < |quotes|
    ensures FindQuote(quotes, quotes[i].id) == Some(quotes[i])
  {
    var r := FindQuote(quotes, quotes[i].id);
    var j :| 0 <= j < |quotes| && quotes[j] == r.value;
  }

  // ---------------------------------------------------------------------
  // Counting favorites

  lemma {:induction false} LikesOfAppend(favorites: seq<Favorite>, f: Favorite, id: nat)
    ensures LikesOf(favorites + [f], id) == LikesOf(favorites, id) + (if f.quoteId == id then 1 else 0)
    decreases |favorites|
  {
    if |favorites| > 0 {
      assert (favorites + [f])[1..] == favorites[1..] + [f];
      LikesOfAppend(favorites[1..], f, id);
    }
  }

  /** The favorite rows other than `f`, in their original order. */
  function Without(favorites: seq<Favorite>, f: Favorite): (r: seq<Favorite>)
    ensures f !in r
    ensures forall g :: g in r <==> g in favorites && g != f
    ensures |r| <= |favorites|
  {
    if |favorites| == 0 then []
    else if favorites[0] == f then Without(favorites[1..], f)
    else [favorites[0]] + Without(favorites[1..], f)
  }

  lemma {:induction false} LikesOfWithout(favorites: seq<Favorite>, f: Favorite, id: nat)
    requires UniqueFavorites(favorites)
    ensures LikesOf(Without(favorites, f), id)
      == LikesOf(favorites, id) - (if f in favorites && f.quoteId == id then 1 else 0)
    decreases |favorites|
  {
    if |favorites| > 0 {
      var rest := favorites[1..];
      UniqueTail(favorites);
      LikesOfWithout(rest, f, id);
      if favorites[0] == f {
        WithoutAbsent(rest, f);
      } else {
        assert ([favorites[0]] + Without(rest, f))[1..] == Without(rest, f);
        assert f in favorites <==> f in rest;
      }
    }
  }

  /** Dropping the oldest row keeps the rows unique, and that row occurs nowhere else. */
  lemma UniqueTail(favorites: seq<Favorite>)
    requires UniqueFavorites(favorites)
    requires |favorites| > 0
    ensures UniqueFavorites(favorites[1..])
    ensures favorites[0] !in favorites[1..]
  {
    var rest := favorites[1..];
    forall i, j | 0 <= i < j < |rest| ensures rest[i] != rest[j] {
      assert rest[i] == favorites[i + 1] && rest[j] == favorites[j + 1];
    }
    forall k | 0 <= k < |rest| ensures rest[k] != favorites[0] {
      assert rest[k] == favorites[k + 1];
    }
  }

  lemma {:induction false} WithoutAbsent(favorites: seq<Favorite>, f: Favorite)
    requires f !in favorites
    ensures Without(favorites, f) == favorites
    decreases |favorites|
  {
    if |favorites| > 0 {
      WithoutAbsent(favorites[1..], f);
      assert favorites == [favorites[0]] + favorites[1..];
    }
  }

  lemma {:induction false} WithoutKeepsUnique(favorites: seq<Favorite>, f: Favorite)
    requires UniqueFavorites(favorites)
    ensures UniqueFavorites(Without(favorites, f))
    decreases |favorites|
  {
    if |favorites| > 0 {
      var rest := favorites[1..];
      UniqueTail(favorites);
      WithoutKeepsUnique(rest, f);
      if favorites[0] != f {
        var r := [favorites[0]] + Without(rest, f);
        forall i, j | 0 <= i < j < |r| ensures r[i] != r[j] {
          if i == 0 {
            assert r[j] in Without(rest, f);
          } else {
            assert r[i] == Without(rest, f)[i - 1];
            assert r[j] == Without(rest, f)[j - 1];
          }
        }
      }
    }
  }

  // ---------------------------------------------------------------------
  // Counter updates and cascading deletes

  /**
   * `Quote.objects.filter(pk=id).update(like_count=F("like_count") + delta)`
   * for a delta that keeps the counter non-negative.
   */
  function BumpLikeCount(quotes: seq<Quote>, id: nat, delta: int): seq<Quote>
    requires forall i :: 0 <= i < |quotes| && quotes[i].id == id ==> quotes[i].likeCount + delta >= 0
  {
    seq(|quotes|, i requires 0 <= i < |quotes| =>
      if quotes[i].id == id then quotes[i].(likeCount := quotes[i].likeCount + delta) else quotes[i])
  }

  /** Deleting quote `id`; `on_delete=CASCADE` deletes its favorites with it. */
  function DeleteQuote(db: Db, id: nat): (r: Db)
    ensures !HasQuote(r.quotes, id)
    ensures forall q :: q in r.quotes <==> q in db.quotes && q.id != id
    ensures forall f :: f in r.favorites <==> f in db.favorites && f.quoteId != id
  {
    Db(KeepQuotesOtherThan(db.quotes, id), KeepFavoritesOtherThan(db.favorites, id))
  }

  function KeepQuotesOtherThan(quotes: seq<Quote>, id: nat): (r: seq<Quote>)
    ensures forall q :: q in r <==> q in quotes && q.id != id
    ensures forall i :: 0 <= i < |r| ==> r[i].id != id
  {
    if |quotes| == 0 then []
    else if quotes[0].id == id then KeepQuotesOtherThan(quotes[1..], id)
    else [quotes[0]] + KeepQuotesOtherThan(quotes[1..], id)
  }

  function KeepFavoritesOtherThan(favorites: seq<Favorite>, id: nat): (r: seq<Favorite>)
    ensures forall f :: f in r <==> f in favorites && f.quoteId != id
  {
    if |favorites| == 0 then []
    else if favorites[0].quoteId == id then KeepFavoritesOtherThan(favorites[1..], id)
    else [favorites[0]] + KeepFavoritesOtherThan(favorites[1..], id)
  }

  /** The cascade leaves every other quote's favorite count as it was. */
  lemma {:induction false} LikesOfKeepOthers(favorites: seq<Favorite>, id: nat, other: nat)
    requires other != id
    ensures LikesOf(KeepFavoritesOtherThan(favorites, id), other) == LikesOf(favorites, other)
    decreases |favorites|
  {
    if |favorites| > 0 {
      LikesOfKeepOthers(favorites[1..], id, other);
      if favorites[0].quoteId != id {
        assert ([favorites[0]] + KeepFavoritesOtherThan(favorites[1..], id))[1..]
          == KeepFavoritesOtherThan(favorites[1..], id);
      }
    }
  }

  /** The rows after the first of a table with unique ids have unique ids, none equal to the first row's. */
  lemma UniqueIdsTail(quotes: seq<Quote>)
    requires UniqueIds(quotes)
    requires |quotes| > 0
    ensures UniqueIds(quotes[1..])
    ensures forall q :: q in quotes[1..] ==> q.id != quotes[0].id
  {
    var rest := quotes[1..];
    forall i, j | 0 <= i < j < |rest| ensures rest[i].id != rest[j].id {
      assert rest[i] == quotes[i + 1] && rest[j] == quotes[j + 1];
    }
    forall q | q in rest ensures q.id != quotes[0].id {
      var k :| 0 <= k < |rest| && rest[k] == q;
      assert rest[k] == quotes[k + 1];
    }
  }

  lemma {:induction false} KeepQuotesUnique(quotes: seq<Quote>, id: nat)
    requires UniqueIds(quotes)
    ensures UniqueIds(KeepQuotesOtherThan(quotes, id))
    decreases |quotes|
  {
    if |quotes| > 0 {
      var rest := quotes[1..];
      UniqueIdsTail(quotes);
      KeepQuotesUnique(rest, id);
      if quotes[0].id != id {
        var kept := KeepQuotesOtherThan(rest, id);
        var r := [quotes[0]] + kept;
        forall i, j | 0 <= i < j < |r| ensures r[i].id != r[j].id {
          assert r[j] == kept[j - 1];
          if i == 0 {
            assert kept[j - 1] in rest;
          } else {
            assert r[i] == kept[i - 1];
          }
        }
      }
    }
  }

  lemma {:induction false} KeepFavoritesUnique(favorites: seq<Favorite>, id: nat)
    requires UniqueFavorites(favorites)
    ensures UniqueFavorites(KeepFavoritesOtherThan(favorites, id))
    decreases |favorites|
  {
    if |favorites| > 0 {
      var rest := favorites[1..];
      UniqueTail(favorites);
      KeepFavoritesUnique(rest, id);
      if favorites[0].quoteId != id {
        var kept := KeepFavoritesOtherThan(rest, id);
        var r := [favorites[0]] + kept;
        forall i, j | 0 <= i < j < |r| ensures r[i] != r[j] {
          if i == 0 {
            assert r[j] in kept;
          } else {
            assert r[i] == kept[i - 1] && r[j] == kept[j - 1];
          }
        }
      }
    }
  }

  /** Deleting a quote, with its cascade, keeps the schema guarantees and the counters. */
  lemma DeleteQuotePreservesValid(db: Db, id: nat)
    requires Valid(db)
    ensures Valid(DeleteQuote(db, id))
    ensures forall i :: 0 <= i < |DeleteQuote(db, id).favorites| ==> DeleteQuote(db, id).favorites[i].quoteId != id
  {
    var r := DeleteQuote(db, id);
    KeepQuotesUnique(db.quotes, id);
    KeepFavoritesUnique(db.favorites, id);
    forall i | 0 <= i < |r.favorites| ensures HasQuote(r.quotes, r.favorites[i].quoteId) {
      var f := r.favorites[i];
      assert f in db.favorites;
      var k :| 0 <= k < |db.favorites| && db.favorites[k] == f;
      var j :| 0 <= j < |db.quotes| && db.quotes[j].id == f.quoteId;
      assert db.quotes[j] in r.quotes;
    }
    forall i | 0 <= i < |r.quotes| ensures r.quotes[i].likeCount == LikesOf(r.favorites, r.quotes[i].id) {
      var q := r.quotes[i];
      assert q in db.quotes;
      var j :| 0 <= j < |db.quotes| && db.quotes[j] == q;
      LikesOfKeepOthers(db.favorites, id, q.id);
    }
  }

  lemma {:induction false} LikesOfUnreferenced(favorites: seq<Favorite>, id: nat)
    requires forall i :: 0 <= i < |favorites| ==> favorites[i].quoteId != id
    ensures LikesOf(favorites, id) == 0
    decreases |favorites|
  {
    if |favorites| > 0 {
      LikesOfUnreferenced(favorites[1..], id);
    }
  }

  /**
   * Inserting a quote with a fresh id and the default `like_count` of 0
   * keeps the invariant: nothing can have favorited it yet.
   */
  lemma AddQuotePreservesValid(db: Db, id: nat, text: string, publishDate: Date)
    requires Valid(db)
    requires !HasQuote(db.quotes, id)
    ensures Valid(Db(db.quotes + [NewQuote(id, text, publishDate)], db.favorites))
  {
    var q := NewQuote(id, text, publishDate);
    var quotes := db.quotes + [q];
    forall i | 0 <= i < |db.favorites| ensures db.favorites[i].quoteId != id {
      var j :| 0 <= j < |db.quotes| && db.quotes[j].id == db.favorites[i].quoteId;
    }
    LikesOfUnreferenced(db.favorites, id);
    forall i | 0 <= i < |db.favorites| ensures HasQuote(quotes, db.favorites[i].quoteId) {
      var j :| 0 <= j < |db.quotes| && db.quotes[j].id == db.favorites[i].quoteId;
      assert quotes[j] == db.quotes[j];
    }
    forall i | 0 <= i < |quotes| ensures quotes[i].likeCount == LikesOf(db.favorites, quotes[i].id) {
      if i < |db.quotes| {
        assert quotes[i] == db.quotes[i];
      }
    }
  }

  // ---------------------------------------------------------------------
  // Default ordering

  /** `Meta.ordering = ["-publish_date", "-id"]`: later dates first, then larger ids. */
  predicate ListedBefore(a: Quote, b: Quote) {
    Before(b.publishDate, a.publishDate) || (a.publishDate == b.publishDate && a.id >= b.id)
  }

  lemma ListedBeforeIsTotalPreorder()
    ensures Sorting.TotalPreorder(ListedBefore)
  {
    forall a: Quote, b: Quote ensures ListedBefore(a, b) || ListedBefore(b, a) {
      OnOrBeforeIsTotalOrder(a.publishDate, b.publishDate, b.publishDate);
    }
    forall a: Quote, b: Quote, c: Quote | ListedBefore(a, b) && ListedBefore(b, c)
      ensures ListedBefore(a, c)
    {
      OnOrBeforeIsTotalOrder(c.publishDate, b.publishDate, a.publishDate);
      OnOrBeforeIsTotalOrder(a.publishDate, c.publishDate, b.publishDate);
    }
  }

  /** `Quote.objects.all()`: the table in its default ordering. */
  function DefaultOrdering(quotes: seq<Quote>): (r: seq<Quote>)
    ensures multiset(r) == multiset(quotes)
    ensures Sorting.SortedBy(r, ListedBefore)
  {
    ListedBeforeIsTotalPreorder();
    Sorting.SortBySorted(quotes, ListedBefore);
    Sorting.SortBy(quotes, ListedBefore)
  }
}
