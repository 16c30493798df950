/**
 * The public quote endpoints: today's quote, the quote of an explicit date,
 * the favorite toggle and the favorite list. Each view is a pure function
 * from the tables and the request to a reply (and, for the toggle, the new
 * tables). "Today" and the random pick of `order_by("?")` are parameters.
 */
module QuoteViews {
  import opened Wrappers
  import opened Calendar
  import opened QuoteModels

  /** An HTTP reply: a body with status 200, or one of the error statuses the views produce. */
  datatype Reply<T> = Ok(body: T) | BadRequest | NotFound | ServerError

  /** A serialized quote with the caller's `liked` flag. */
  datatype QuoteBody = QuoteBody(quote: Quote, liked: bool)

  /** The toggle's reply: the new liked state and the re-read counter. */
  datatype ToggleBody = ToggleBody(liked: bool, likeCount: nat)

  /** A reply together with the tables after the request. */
  datatype Outcome<T> = Outcome(reply: Reply<T>, db: Db)

  /**
   * `get_client_id_from_request`: the `X-Client-Id` header, else the
   * `client_id` query parameter, else the empty string.
   */
  function ClientIdFromRequest(header: Option<string>, query: Option<string>): (cid: string)
    ensures cid != "" <==> Truthy(header) || Truthy(query)
    ensures Truthy(header) ==> cid == header.value
    ensures !Truthy(header) && Truthy(query) ==> cid == query.value
  {
    if Truthy(header) then header.value
    else if Truthy(query) then query.value
    else ""
  }

  /** The toggle's own lookup order: request body, then header, then query. */
  function ToggleClientId(body: Option<string>, header: Option<string>, query: Option<string>): (cid: string)
    ensures cid != "" <==> Truthy(body) || Truthy(header) || Truthy(query)
    ensures Truthy(body) ==> cid == body.value
    ensures !Truthy(body) ==> cid == ClientIdFromRequest(header, query)
  {
    if Truthy(body) then body.value else ClientIdFromRequest(header, query)
  }

  /** `liked`: false for an anonymous caller, else whether the caller's favorite row exists. */
  predicate Liked(db: Db, quote: Quote, cid: string): (b: bool)
    ensures b <==> cid != "" && exists f :: f in db.favorites && f.quoteId == quote.id && f.clientId == cid
    ensures b ==> LikesOf(db.favorites, quote.id) >= 1
  {
    if cid != "" && Favorite(quote.id, cid) in db.favorites then
      LikesOfMember(db.favorites, Favorite(quote.id, cid));
      true
    else false
  }

  // ---------------------------------------------------------------------
  // Date lookups

  /** No two quotes share a `publish_date`, which the schema does not enforce. */
  ghost predicate AtMostOnePerDate(quotes: seq<Quote>) {
    forall i, j :: 0 <= i < j < |quotes| ==> quotes[i].publishDate != quotes[j].publishDate
  }

  /** `Quote.objects.filter(publish_date=d)` in table order. */
  function OnDate(quotes: seq<Quote>, d: Date): (r: seq<Quote>)
    ensures forall q :: q in r <==> q in quotes && q.publishDate == d
    ensures |r| <= |quotes|
  {
    if |quotes| == 0 then []
    else if quotes[0].publishDate == d then [quotes[0]] + OnDate(quotes[1..], d)
    else OnDate(quotes[1..], d)
  }

  lemma {:induction false} OnDateTwice(quotes: seq<Quote>, d: Date)
    requires |OnDate(quotes, d)| >= 2
    ensures !AtMostOnePerDate(quotes)
    decreases |quotes|
  {
    var rest := quotes[1..];
    if quotes[0].publishDate == d {
      assert OnDate(quotes, d)[1] in OnDate(rest, d);
      var k :| 0 <= k < |rest| && rest[k] == OnDate(quotes, d)[1];
      assert quotes[0].publishDate == quotes[k + 1].publishDate;
    } else {
      OnDateTwice(rest, d);
      var i, j :| 0 <= i < j < |rest| && rest[i].publishDate == rest[j].publishDate;
      assert quotes[i + 1] == rest[i] && quotes[j + 1] == rest[j];
    }
  }

  /** The three outcomes of `Quote.objects.get(publish_date=d)`. */
  datatype DateLookup = Found(quote: Quote) | DoesNotExist | MultipleObjectsReturned

  function GetByDate(quotes: seq<Quote>, d: Date): (r: DateLookup)
    ensures r.Found? ==> r.quote in quotes && r.quote.publishDate == d
    ensures r.Found? ==> forall q :: q in quotes && q.publishDate == d ==> q == r.quote
    ensures r.DoesNotExist? <==> forall q :: q in quotes ==> q.publishDate != d
    ensures r.MultipleObjectsReturned? ==> !AtMostOnePerDate(quotes)
  {
    var matches := OnDate(quotes, d);
    if |matches| == 0 then DoesNotExist
    else if |matches| == 1 then
      assert forall q :: q in matches ==> q == matches[0];
      Found(matches[0])
    else
      OnDateTwice(quotes, d);
      assert matches[0] in quotes;
      MultipleObjectsReturned
  }

  /** `q` is a quote with the greatest date on or before `d`. */
  ghost predicate IsLatestOnOrBefore(quotes: seq<Quote>, q: Quote, d: Date) {
    && q in quotes
    && OnOrBefore(q.publishDate, d)
    && forall p :: p in quotes && OnOrBefore(p.publishDate, d) ==> OnOrBefore(p.publishDate, q.publishDate)
  }

  /**
   * `Quote.objects.filter(publish_date__lte=d).order_by("-publish_date").first()`:
   * a quote with the greatest date on or before `d`. The order among equal
   * dates is not fixed by the query; the model takes the first in table order.
   */
  function LatestOnOrBefore(quotes: seq<Quote>, d: Date): (r: Option<Quote>)
    ensures r.Some? ==> IsLatestOnOrBefore(quotes, r.value, d)
    ensures r.None? <==> forall q :: q in quotes ==> !OnOrBefore(q.publishDate, d)
  {
    if |quotes| == 0 then None
    else
      var rest := LatestOnOrBefore(quotes[1..], d);
      assert forall q :: q in quotes ==> q == quotes[0] || q in quotes[1..];
      if !OnOrBefore(quotes[0].publishDate, d) then rest
      else if rest.None? || OnOrBefore(rest.value.publishDate, quotes[0].publishDate) then Some(quotes[0])
      else rest
  }

  // ---------------------------------------------------------------------
  // Views

  /**
   * `TodayQuoteView.get`. The exact-date quote, else the latest quote on or
   * before today, else the quote `pick` selects, else 404. Campaigns are
   * not consulted.
   */
  function TodayQuote(db: Db, header: Option<string>, query: Option<string>, today: Date, pick: nat)
    : (r: Reply<QuoteBody>)
    ensures r == NotFound <==> |db.quotes| == 0
    ensures r.Ok? ==> r.body.quote in db.quotes
    ensures r.Ok? ==> (r.body.liked <==> Liked(db, r.body.quote, ClientIdFromRequest(header, query)))
    ensures r.Ok? && (exists q :: q in db.quotes && q.publishDate == today) ==>
      r.body.quote.publishDate == today
    ensures (&& r.Ok?
             && (forall q :: q in db.quotes ==> q.publishDate != today)
             && (exists q :: q in db.quotes && OnOrBefore(q.publishDate, today)))
            ==> IsLatestOnOrBefore(db.quotes, r.body.quote, today)
    ensures r.Ok? && (forall q :: q in db.quotes ==> !OnOrBefore(q.publishDate, today)) ==>
      r.body.quote == db.quotes[pick % |db.quotes|]
    ensures r == ServerError ==> !AtMostOnePerDate(db.quotes)
    ensures AtMostOnePerDate(db.quotes) && |db.quotes| > 0 ==> r.Ok?
  {
    var cid := ClientIdFromRequest(header, query);
    match GetByDate(db.quotes, today)
    case MultipleObjectsReturned => ServerError
    case Found(q) => Ok(QuoteBody(q, Liked(db, q, cid)))
    case DoesNotExist =>
      var latest := LatestOnOrBefore(db.quotes, today);
      if latest.Some? then Ok(QuoteBody(latest.value, Liked(db, latest.value, cid)))
      else if |db.quotes| > 0 then
        var q := db.quotes[pick % |db.quotes|];
        Ok(QuoteBody(q, Liked(db, q, cid)))
      else
        NotFound
  }

  /**
   * `QuoteByDateView.get`: 400 for a missing or unparsable `date`, else the
   * quote of exactly that date, else 404. `parse` is `date.fromisoformat`.
   */
  function QuoteByDate(db: Db, header: Option<string>, query: Option<string>,
                       dateParam: Option<string>, parse: string -> Option<Date>)
    : (r: Reply<QuoteBody>)
    ensures r == BadRequest <==> !Truthy(dateParam) || parse(dateParam.value).None?
    ensures r.Ok? ==> && r.body.quote in db.quotes
                      && r.body.quote.publishDate == parse(dateParam.value).value
    ensures r.Ok? ==> (r.body.liked <==> Liked(db, r.body.quote, ClientIdFromRequest(header, query)))
    ensures r == NotFound <==>
      (Truthy(dateParam) && parse(dateParam.value).Some?
       && forall q :: q in db.quotes ==> q.publishDate != parse(dateParam.value).value)
    ensures r == ServerError ==> !AtMostOnePerDate(db.quotes)
  {
    var cid := ClientIdFromRequest(header, query);
    if !Truthy(dateParam) then BadRequest
    else match parse(dateParam.value)
      case None => BadRequest
      case Some(d) =>
        match GetByDate(db.quotes, d)
        case DoesNotExist => NotFound
        case MultipleObjectsReturned => ServerError
        case Found(q) => Ok(QuoteBody(q, Liked(db, q, cid)))
  }

  /**
   * When a single quote carries today's date, today's quote and the
   * by-date lookup of today's date give the same reply.
   */
  lemma TodayAgreesWithByDate(db: Db, header: Option<string>, query: Option<string>, today: Date, pick: nat,
                              dateParam: string, parse: string -> Option<Date>)
    requires AtMostOnePerDate(db.quotes)
    requires exists q :: q in db.quotes && q.publishDate == today
    requires dateParam != "" && parse(dateParam) == Some(today)
    ensures TodayQuote(db, header, query, today, pick) == QuoteByDate(db, header, query, Some(dateParam), parse)
  {
    var t := TodayQuote(db, header, query, today, pick);
    var b := QuoteByDate(db, header, query, Some(dateParam), parse);
    var i :| 0 <= i < |db.quotes| && db.quotes[i] == t.body.quote;
    var j :| 0 <= j < |db.quotes| && db.quotes[j] == b.body.quote;
    assert i == j;
  }

  /**
   * Without a quote on the date itself, today's quote falls back to an
   * earlier one while the by-date lookup of the same date answers 404.
   */
  lemma ByDateHasNoFallback(db: Db, header: Option<string>, query: Option<string>, today: Date, pick: nat,
                            dateParam: string, parse: string -> Option<Date>)
    requires forall q :: q in db.quotes ==> q.publishDate != today
    requires exists q :: q in db.quotes && OnOrBefore(q.publishDate, today)
    requires dateParam != "" && parse(dateParam) == Some(today)
    ensures TodayQuote(db, header, query, today, pick).Ok?
    ensures QuoteByDate(db, header, query, Some(dateParam), parse) == NotFound
  {
  }

  /** Every row with the id of a row of a table with unique ids is that row. */
  lemma RowsWithSameId(quotes: seq<Quote>, q: Quote)
    requires UniqueIds(quotes)
    requires q in quotes
    ensures forall i :: 0 <= i < |quotes| && quotes[i].id == q.id ==> quotes[i] == q
  {
  }

  /**
   * `ToggleFavoriteView.post`: 400 without a client id, 404 for an unknown
   * quote; otherwise, in one transaction, create the favorite and add 1 to
   * `like_count`, or delete it and subtract 1, then re-read the counter.
   * Subtracting from a counter already at 0 violates the column's
   * non-negativity and rolls the transaction back (500).
   */
  function ToggleFavorite(db: Db, pk: nat, body: Option<string>, header: Option<string>, query: Option<string>)
    : (o: Outcome<ToggleBody>)
    requires WellFormed(db)
    ensures ToggleClientId(body, header, query) == "" ==> o == Outcome(BadRequest, db)
    ensures ToggleClientId(body, header, query) != "" && !HasQuote(db.quotes, pk) ==> o == Outcome(NotFound, db)
    ensures !o.reply.Ok? ==> o.db == db
    ensures WellFormed(o.db)
    ensures o.reply.Ok? ==>
      var f := Favorite(pk, ToggleClientId(body, header, query));
      && ToggleClientId(body, header, query) != ""
      && (o.reply.body.liked <==> f !in db.favorites)
      && (o.reply.body.liked ==> o.db.favorites == db.favorites + [f])
      && (!o.reply.body.liked ==> o.db.favorites == Without(db.favorites, f))
    ensures o.reply.Ok? ==>
      && FindQuote(db.quotes, pk).Some?
      && FindQuote(o.db.quotes, pk).Some?
      && o.reply.body.likeCount == FindQuote(o.db.quotes, pk).value.likeCount
      && o.reply.body.likeCount == FindQuote(db.quotes, pk).value.likeCount + (if o.reply.body.liked then 1 else -1)
    ensures |o.db.quotes| == |db.quotes|
    ensures forall i :: 0 <= i < |db.quotes| ==>
      && (db.quotes[i].id != pk ==> o.db.quotes[i] == db.quotes[i])
      && (db.quotes[i].id == pk && o.reply.Ok? ==>
            o.db.quotes[i] == db.quotes[i].(likeCount := o.reply.body.likeCount))
  {
    var cid := ToggleClientId(body, header, query);
    if cid == "" then Outcome(BadRequest, db)
    else match FindQuote(db.quotes, pk)
      case None => Outcome(NotFound, db)
      case Some(q) =>
        var f := Favorite(pk, cid);
        if f !in db.favorites then
          Outcome(Ok(ToggleBody(true, q.likeCount + 1)), WriteToggle(db, q, db.favorites + [f], 1))
        else if q.likeCount == 0 then
          Outcome(ServerError, db)
        else
          WithoutKeepsUnique(db.favorites, f);
          Outcome(Ok(ToggleBody(false, q.likeCount - 1)), WriteToggle(db, q, Without(db.favorites, f), -1))
  }

  /**
   * The transaction's writes: the new favorite rows and
   * `like_count = F("like_count") + delta` on quote `q`.
   */
  function WriteToggle(db: Db, q: Quote, favorites: seq<Favorite>, delta: int): (r: Db)
    requires WellFormed(db)
    requires q in db.quotes
    requires q.likeCount + delta >= 0
    requires UniqueFavorites(favorites)
    requires forall g :: g in favorites ==> g in db.favorites || g.quoteId == q.id
    ensures WellFormed(r)
    ensures r.favorites == favorites
    ensures |r.quotes| == |db.quotes|
    ensures forall i :: 0 <= i < |db.quotes| ==>
      r.quotes[i] == if db.quotes[i].id == q.id then q.(likeCount := q.likeCount + delta) else db.quotes[i]
    ensures FindQuote(r.quotes, q.id) == Some(q.(likeCount := q.likeCount + delta))
  {
    RowsWithSameId(db.quotes, q);
    var quotes := BumpLikeCount(db.quotes, q.id, delta);
    var bumped := q.(likeCount := q.likeCount + delta);
    var k := IndexOf(db.quotes, q);
    assert quotes[k] == bumped;
    assert HasQuote(db.quotes, q.id) by { assert db.quotes[k].id == q.id; }
    UpdateKeepsWellFormed(db, quotes, favorites);
    FindQuoteUnique(quotes, k);
    Db(quotes, favorites)
  }

  lemma AppendKeepsUnique(favorites: seq<Favorite>, f: Favorite)
    requires UniqueFavorites(favorites)
    requires f !in favorites
    ensures UniqueFavorites(favorites + [f])
  {
    var r := favorites + [f];
    forall i, j | 0 <= i < j < |r| ensures r[i] != r[j] {
      assert r[i] == favorites[i];
    }
  }

  /**
   * Rewriting the quote rows without touching their ids, and replacing the
   * favorites by unique rows that each point at an existing quote, keeps
   * the schema guarantees.
   */
  lemma UpdateKeepsWellFormed(db: Db, quotes: seq<Quote>, favorites: seq<Favorite>)
    requires WellFormed(db)
    requires |quotes| == |db.quotes|
    requires forall i :: 0 <= i < |quotes| ==> quotes[i].id == db.quotes[i].id
    requires UniqueFavorites(favorites)
    requires forall g :: g in favorites ==> g in db.favorites || HasQuote(db.quotes, g.quoteId)
    ensures WellFormed(Db(quotes, favorites))
  {
    forall i, j | 0 <= i < j < |quotes| ensures quotes[i].id != quotes[j].id {
      assert db.quotes[i].id != db.quotes[j].id;
    }
    forall i | 0 <= i < |favorites| ensures HasQuote(quotes, favorites[i].quoteId) {
      var g := favorites[i];
      if g in db.favorites {
        var m :| 0 <= m < |db.favorites| && db.favorites[m] == g;
      }
      var j :| 0 <= j < |db.quotes| && db.quotes[j].id == g.quoteId;
      assert quotes[j].id == g.quoteId;
    }
  }

  function IndexOf(quotes: seq<Quote>, q: Quote): (i: nat)
    requires q in quotes
    ensures i < |quotes| && quotes[i] == q
  {
    if quotes[0] == q then 0 else 1 + IndexOf(quotes[1..], q)
  }

  // ---------------------------------------------------------------------
  // The ledger invariant

  lemma {:induction false} LikesOfMember(favorites: seq<Favorite>, f: Favorite)
    requires f in favorites
    ensures LikesOf(favorites, f.quoteId) >= 1
    decreases |favorites|
  {
    if favorites[0] != f {
      LikesOfMember(favorites[1..], f);
    }
  }

  /** Any valid state can be toggled, and the toggle keeps every counter equal to its favorite count. */
  lemma ToggleKeepsValid(db: Db, pk: nat, body: Option<string>, header: Option<string>, query: Option<string>)
    requires Valid(db)
    ensures Valid(ToggleFavorite(db, pk, body, header, query).db)
    ensures ToggleFavorite(db, pk, body, header, query).reply != ServerError
  {
    var o := ToggleFavorite(db, pk, body, header, query);
    var cid := ToggleClientId(body, header, query);
    if cid != "" && HasQuote(db.quotes, pk) {
      var q := FindQuote(db.quotes, pk).value;
      var f := Favorite(pk, cid);
      var k := IndexOf(db.quotes, q);
      if f in db.favorites {
        LikesOfMember(db.favorites, f);
        assert q.likeCount >= 1;
      }
      assert o.reply.Ok?;
      var liked := o.reply.body.liked;
      ToggleSetsCount(db, pk, body, header, query);
      RowsWithSameId(db.quotes, q);
      forall i | 0 <= i < |o.db.quotes| ensures o.db.quotes[i].likeCount == LikesOf(o.db.favorites, o.db.quotes[i].id) {
        var id := db.quotes[i].id;
        assert o.db.quotes[i].id == id;
        if liked {
          LikesOfAppend(db.favorites, f, id);
        } else {
          LikesOfWithout(db.favorites, f, id);
        }
      }
    }
  }

  /**
   * Toggling twice for the same client and quote restores the quote rows
   * and the set of favorites, and flips `liked` twice. A favorite that was
   * absent is restored exactly; one that was present comes back as the
   * newest row.
   */
  lemma ToggleTwiceRestores(db: Db, pk: nat, body: Option<string>, header: Option<string>, query: Option<string>)
    requires Valid(db)
    ensures
      var o1 := ToggleFavorite(db, pk, body, header, query);
      var o2 := ToggleFavorite(o1.db, pk, body, header, query);
      && o2.db.quotes == db.quotes
      && (forall g :: g in o2.db.favorites <==> g in db.favorites)
      && (o1.reply.Ok? <==> o2.reply.Ok?)
      && (o1.reply.Ok? ==> o2.reply.body.liked == !o1.reply.body.liked)
      && (o1.reply.Ok? && o1.reply.body.liked ==> o2.db == db)
  {
    if ToggleFavorite(db, pk, body, header, query).reply.Ok? {
      UndoToggle(db, pk, body, header, query);
    }
  }

  /** The second toggle of a successful first one undoes it. */
  lemma UndoToggle(db: Db, pk: nat, body: Option<string>, header: Option<string>, query: Option<string>)
    requires WellFormed(db)
    requires ToggleFavorite(db, pk, body, header, query).reply.Ok?
    ensures
      var o1 := ToggleFavorite(db, pk, body, header, query);
      var o2 := ToggleFavorite(o1.db, pk, body, header, query);
      && o2.reply.Ok?
      && o2.db.quotes == db.quotes
      && (forall g :: g in o2.db.favorites <==> g in db.favorites)
      && o2.reply.body.liked == !o1.reply.body.liked
      && (o1.reply.body.liked ==> o2.db == db)
  {
    var o1 := ToggleFavorite(db, pk, body, header, query);
    var o2 := ToggleFavorite(o1.db, pk, body, header, query);
    var f := Favorite(pk, ToggleClientId(body, header, query));
    var c0 := FindQuote(db.quotes, pk).value.likeCount;
    var c1 := FindQuote(o1.db.quotes, pk).value.likeCount;
    assert HasQuote(o1.db.quotes, pk) && c1 == o1.reply.body.likeCount;
    if o1.reply.body.liked {
      assert o1.db.favorites == db.favorites + [f] && c1 == c0 + 1;
      ToggleRemoves(o1.db, pk, body, header, query);
      assert o2.reply.body.likeCount + 1 == c1;
      WithoutAppend(db.favorites, f);
      assert o2.db.favorites == db.favorites;
    } else {
      assert o1.db.favorites == Without(db.favorites, f) && f in db.favorites && c1 + 1 == c0;
      ToggleAdds(o1.db, pk, body, header, query);
      assert o2.reply.body.likeCount == c1 + 1;
      assert o2.db.favorites == Without(db.favorites, f) + [f];
    }
    assert o2.reply.Ok? && o2.reply.body.likeCount == c0;
    ToggleSetsCount(db, pk, body, header, query);
    ToggleSetsCount(o1.db, pk, body, header, query);
    CountRestored(db.quotes, o1.db.quotes, o2.db.quotes, FindQuote(db.quotes, pk).value, c1);
  }

  /** Setting quote `q`'s count to `c1` and then back to its own count restores the table. */
  lemma CountRestored(q0: seq<Quote>, q1: seq<Quote>, q2: seq<Quote>, q: Quote, c1: nat)
    requires UniqueIds(q0) && q in q0
    requires q1 == SetCount(q0, q.id, c1)
    requires q2 == SetCount(q1, q.id, q.likeCount)
    ensures q2 == q0
  {
    SetCountTwice(q0, q.id, c1, q.likeCount);
    SetCountOwn(q0, q);
  }

  /** Toggling a favorite the client holds, on a positive counter, deletes it and counts one less. */
  lemma ToggleRemoves(db: Db, pk: nat, body: Option<string>, header: Option<string>, query: Option<string>)
    requires WellFormed(db)
    requires ToggleClientId(body, header, query) != ""
    requires Favorite(pk, ToggleClientId(body, header, query)) in db.favorites
    requires HasQuote(db.quotes, pk) && FindQuote(db.quotes, pk).value.likeCount > 0
    ensures var o := ToggleFavorite(db, pk, body, header, query);
      && o.reply.Ok? && !o.reply.body.liked
      && o.reply.body.likeCount + 1 == FindQuote(db.quotes, pk).value.likeCount
      && o.db.favorites == Without(db.favorites, Favorite(pk, ToggleClientId(body, header, query)))
  {
  }

  /** Toggling a favorite the client does not hold creates it and counts one more. */
  lemma ToggleAdds(db: Db, pk: nat, body: Option<string>, header: Option<string>, query: Option<string>)
    requires WellFormed(db)
    requires ToggleClientId(body, header, query) != ""
    requires Favorite(pk, ToggleClientId(body, header, query)) !in db.favorites
    requires HasQuote(db.quotes, pk)
    ensures var o := ToggleFavorite(db, pk, body, header, query);
      && o.reply.Ok? && o.reply.body.liked
      && o.reply.body.likeCount == FindQuote(db.quotes, pk).value.likeCount + 1
      && o.db.favorites == db.favorites + [Favorite(pk, ToggleClientId(body, header, query))]
  {
  }

  /** The quote rows with every row of quote `pk` showing count `c`. */
  function SetCount(quotes: seq<Quote>, pk: nat, c: nat): seq<Quote>
  {
    seq(|quotes|, i requires 0 <= i < |quotes| => if quotes[i].id == pk then quotes[i].(likeCount := c) else quotes[i])
  }

  /** A successful toggle leaves every quote row as it was except that quote `pk` shows the new count. */
  lemma ToggleSetsCount(db: Db, pk: nat, body: Option<string>, header: Option<string>, query: Option<string>)
    requires WellFormed(db)
    requires ToggleFavorite(db, pk, body, header, query).reply.Ok?
    ensures var o := ToggleFavorite(db, pk, body, header, query);
      o.db.quotes == SetCount(db.quotes, pk, o.reply.body.likeCount)
  {
  }

  lemma SetCountTwice(quotes: seq<Quote>, pk: nat, a: nat, b: nat)
    ensures SetCount(SetCount(quotes, pk, a), pk, b) == SetCount(quotes, pk, b)
  {
  }

  /** Setting a quote's count to the count it has changes nothing, since no other row shares its id. */
  lemma SetCountOwn(quotes: seq<Quote>, q: Quote)
    requires UniqueIds(quotes)
    requires q in quotes
    ensures SetCount(quotes, q.id, q.likeCount) == quotes
  {
    RowsWithSameId(quotes, q);
  }

  lemma {:induction false} WithoutAppend(favorites: seq<Favorite>, f: Favorite)
    requires f !in favorites
    ensures Without(favorites + [f], f) == favorites
    decreases |favorites|
  {
    if |favorites| > 0 {
      assert (favorites + [f])[1..] == favorites[1..] + [f];
      WithoutAppend(favorites[1..], f);
      assert favorites == [favorites[0]] + favorites[1..];
    } else {
      assert Without([f], f) == Without([], f);
    }
  }

  /**
   * The quote's tables after the clients in `clients` toggle it one after
   * another; each toggle is one transaction, so any interleaving of them
   * commits as some such sequence.
   */
  function ToggleInTurn(db: Db, pk: nat, clients: seq<string>): (r: Db)
    requires Valid(db)
    ensures Valid(r)
    decreases |clients|
  {
    if |clients| == 0 then db
    else
      ToggleKeepsValid(db, pk, Some(clients[0]), None, None);
      ToggleInTurn(ToggleFavorite(db, pk, Some(clients[0]), None, None).db, pk, clients[1..])
  }

  /**
   * N distinct clients that had not favorited a quote each toggle it once:
   * the counter grows by exactly N and each of them now has a favorite row.
   */
  lemma {:induction false} DistinctTogglesAddUp(db: Db, pk: nat, clients: seq<string>)
    requires Valid(db)
    requires HasQuote(db.quotes, pk)
    requires forall i :: 0 <= i < |clients| ==> clients[i] != "" && Favorite(pk, clients[i]) !in db.favorites
    requires forall i, j :: 0 <= i < j < |clients| ==> clients[i] != clients[j]
    ensures FindQuote(ToggleInTurn(db, pk, clients).quotes, pk).Some?
    ensures FindQuote(ToggleInTurn(db, pk, clients).quotes, pk).value.likeCount
              == FindQuote(db.quotes, pk).value.likeCount + |clients|
    ensures forall i :: 0 <= i < |clients| ==> Favorite(pk, clients[i]) in ToggleInTurn(db, pk, clients).favorites
    decreases |clients|
  {
    if |clients| > 0 {
      var c := clients[0];
      assert ToggleClientId(Some(c), None, None) == c;
      ToggleKeepsValid(db, pk, Some(c), None, None);
      ToggleAdds(db, pk, Some(c), None, None);
      var o := ToggleFavorite(db, pk, Some(c), None, None);
      assert FindQuote(o.db.quotes, pk).value.likeCount == FindQuote(db.quotes, pk).value.likeCount + 1;
      var rest := clients[1..];
      forall i | 0 <= i < |rest| ensures rest[i] != "" && Favorite(pk, rest[i]) !in o.db.favorites {
        assert rest[i] == clients[i + 1];
      }
      forall i, j | 0 <= i < j < |rest| ensures rest[i] != rest[j] {
        assert rest[i] == clients[i + 1] && rest[j] == clients[j + 1];
      }
      DistinctTogglesAddUp(o.db, pk, rest);
      var final := ToggleInTurn(db, pk, clients);
      assert final == ToggleInTurn(o.db, pk, rest);
      forall i | 0 <= i < |clients| ensures Favorite(pk, clients[i]) in final.favorites {
        if i > 0 {
          assert clients[i] == rest[i - 1];
        } else {
          FavoritesOnlyGrow(o.db, pk, rest, Favorite(pk, c));
        }
      }
    }
  }

  /** Toggles by clients who had not favorited the quote never delete a favorite row. */
  lemma {:induction false} FavoritesOnlyGrow(db: Db, pk: nat, clients: seq<string>, g: Favorite)
    requires Valid(db)
    requires g in db.favorites
    requires forall i :: 0 <= i < |clients| ==> Favorite(pk, clients[i]) !in db.favorites
    requires forall i, j :: 0 <= i < j < |clients| ==> clients[i] != clients[j]
    ensures g in ToggleInTurn(db, pk, clients).favorites
    decreases |clients|
  {
    if |clients| > 0 {
      var c := clients[0];
      ToggleKeepsValid(db, pk, Some(c), None, None);
      var o := ToggleFavorite(db, pk, Some(c), None, None);
      var rest := clients[1..];
      forall i | 0 <= i < |rest| ensures Favorite(pk, rest[i]) !in o.db.favorites {
        assert rest[i] == clients[i + 1];
      }
      forall i, j | 0 <= i < j < |rest| ensures rest[i] != rest[j] {
        assert rest[i] == clients[i + 1] && rest[j] == clients[j + 1];
      }
      FavoritesOnlyGrow(o.db, pk, rest, g);
    }
  }

  // ---------------------------------------------------------------------
  // The favorite list

  /** The caller's favorite rows, newest first (`order_by("-created_at")`). */
  function NewestFirst(favorites: seq<Favorite>, cid: string): (r: seq<Favorite>)
    ensures forall g {:trigger g in r} :: g in r <==> g in favorites && g.clientId == cid
    ensures |r| <= |favorites|
  {
    if |favorites| == 0 then []
    else
      var last := favorites[|favorites| - 1];
      var older := NewestFirst(favorites[..|favorites| - 1], cid);
      assert forall g :: g in favorites <==> g in favorites[..|favorites| - 1] || g == last;
      if last.clientId == cid then [last] + older else older
  }

  /** Each of the caller's rows is listed exactly as often as it is stored, and no other row is listed. */
  lemma {:induction false} NewestFirstCounts(favorites: seq<Favorite>, cid: string)
    ensures forall g {:trigger multiset(NewestFirst(favorites, cid))[g]} :: multiset(NewestFirst(favorites, cid))[g]
                        == if g.clientId == cid then multiset(favorites)[g] else 0
    decreases |favorites|
  {
    if |favorites| > 0 {
      var last := favorites[|favorites| - 1];
      var prefix := favorites[..|favorites| - 1];
      NewestFirstCounts(prefix, cid);
      assert favorites == prefix + [last];
    }
  }

  /** The list of a non-empty table: the newest row when it is the caller's, then the list of the older rows. */
  lemma NewestFirstStep(favorites: seq<Favorite>, cid: string)
    requires |favorites| > 0
    ensures var last := favorites[|favorites| - 1];
      NewestFirst(favorites, cid)
      == (if last.clientId == cid then [last] else []) + NewestFirst(favorites[..|favorites| - 1], cid)
  {
  }

  /** A position at which one of the caller's rows is listed. */
  lemma ListedAt(favorites: seq<Favorite>, cid: string, a: int) returns (j: int)
    requires 0 <= a < |favorites| && favorites[a].clientId == cid
    ensures 0 <= j < |NewestFirst(favorites, cid)| && NewestFirst(favorites, cid)[j] == favorites[a]
  {
    var r := NewestFirst(favorites, cid);
    assert favorites[a] in r;
    j :| 0 <= j < |r| && r[j] == favorites[a];
  }

  /** The caller's newest row is listed first, ahead of each of the caller's older rows. */
  lemma NewestListedFirst(favorites: seq<Favorite>, cid: string, a: int) returns (j: int)
    requires 0 <= a < |favorites| - 1
    requires favorites[a].clientId == cid && favorites[|favorites| - 1].clientId == cid
    ensures 0 < j < |NewestFirst(favorites, cid)|
    ensures NewestFirst(favorites, cid)[0] == favorites[|favorites| - 1] && NewestFirst(favorites, cid)[j] == favorites[a]
  {
    var prefix := favorites[..|favorites| - 1];
    NewestFirstStep(favorites, cid);
    assert prefix[a] == favorites[a];
    var j' := ListedAt(prefix, cid, a);
    j := j' + 1;
  }

  /** Of two favorites of the caller, the one written later is listed earlier: at `i`, before the earlier one at `j`. */
  lemma {:induction false} NewerListedEarlier(favorites: seq<Favorite>, cid: string, a: int, b: int) returns (i: int, j: int)
    requires 0 <= a < b < |favorites|
    requires favorites[a].clientId == cid && favorites[b].clientId == cid
    ensures 0 <= i < j < |NewestFirst(favorites, cid)|
    ensures NewestFirst(favorites, cid)[i] == favorites[b] && NewestFirst(favorites, cid)[j] == favorites[a]
    decreases |favorites|
  {
    if b == |favorites| - 1 {
      j := NewestListedFirst(favorites, cid, a);
      i := 0;
    } else {
      var prefix := favorites[..|favorites| - 1];
      assert prefix[a] == favorites[a] && prefix[b] == favorites[b];
      var i', j' := NewerListedEarlier(prefix, cid, a, b);
      i, j := OlderListedAfterNewest(favorites, cid, i', j');
    }
  }

  /** Two entries of the older rows' list keep their order in the whole list, shifted past the newest row's place. */
  lemma OlderListedAfterNewest(favorites: seq<Favorite>, cid: string, i': int, j': int) returns (i: int, j: int)
    requires |favorites| > 0
    requires 0 <= i' < j' < |NewestFirst(favorites[..|favorites| - 1], cid)|
    ensures 0 <= i < j < |NewestFirst(favorites, cid)|
    ensures NewestFirst(favorites, cid)[i] == NewestFirst(favorites[..|favorites| - 1], cid)[i']
    ensures NewestFirst(favorites, cid)[j] == NewestFirst(favorites[..|favorites| - 1], cid)[j']
  {
    var last := favorites[|favorites| - 1];
    var head: seq<Favorite> := if last.clientId == cid then [last] else [];
    var older := NewestFirst(favorites[..|favorites| - 1], cid);
    NewestFirstStep(favorites, cid);
    i, j := |head| + i', |head| + j';
    assert (head + older)[i] == older[i'] && (head + older)[j] == older[j'];
  }

  /** The serialized quote of each favorite row, all with `liked = true`. */
  function FavoriteBodies(quotes: seq<Quote>, favorites: seq<Favorite>): (r: seq<QuoteBody>)
    ensures forall b :: b in r ==> b.liked && b.quote in quotes
    ensures forall b :: b in r ==> exists g :: g in favorites && g.quoteId == b.quote.id
    ensures (forall g :: g in favorites ==> HasQuote(quotes, g.quoteId)) ==>
      && |r| == |favorites|
      && forall i :: 0 <= i < |r| ==> r[i].quote.id == favorites[i].quoteId
  {
    if |favorites| == 0 then []
    else
      var tail := favorites[1..];
      var rest := FavoriteBodies(quotes, tail);
      assert forall g :: g in tail ==> g in favorites;
      match FindQuote(quotes, favorites[0].quoteId)
      case Some(q) =>
        assert favorites[0] in favorites && q.id == favorites[0].quoteId;
        ConsBodyAligned(quotes, favorites, q, rest);
        [QuoteBody(q, true)] + rest
      case None => rest
  }

  /** Putting the first favorite's body in front of the rest's bodies keeps them aligned with the favorites. */
  lemma ConsBodyAligned(quotes: seq<Quote>, favorites: seq<Favorite>, q: Quote, rest: seq<QuoteBody>)
    requires |favorites| > 0 && q.id == favorites[0].quoteId
    requires (forall g :: g in favorites[1..] ==> HasQuote(quotes, g.quoteId)) ==>
      && |rest| == |favorites[1..]|
      && forall i :: 0 <= i < |rest| ==> rest[i].quote.id == favorites[1..][i].quoteId
    ensures var r := [QuoteBody(q, true)] + rest;
      (forall g :: g in favorites ==> HasQuote(quotes, g.quoteId)) ==>
      && |r| == |favorites|
      && forall i :: 0 <= i < |r| ==> r[i].quote.id == favorites[i].quoteId
  {
    var r := [QuoteBody(q, true)] + rest;
    if forall g :: g in favorites ==> HasQuote(quotes, g.quoteId) {
      assert forall g :: g in favorites[1..] ==> g in favorites;
      forall i | 0 <= i < |r| ensures r[i].quote.id == favorites[i].quoteId {
        if i > 0 {
          assert r[i] == rest[i - 1] && favorites[1..][i - 1] == favorites[i];
        }
      }
    }
  }

  /**
   * `FavoriteListView.get`: 400 without a client id, else the quotes this
   * client favorited, newest favorite first, each with `liked = true`.
   */
  function FavoriteList(db: Db, header: Option<string>, query: Option<string>): (r: Reply<seq<QuoteBody>>)
    ensures r == BadRequest <==> ClientIdFromRequest(header, query) == ""
    ensures r.Ok? || r == BadRequest
    ensures r.Ok? ==> forall b :: b in r.body ==>
      b.liked && b.quote in db.quotes && Favorite(b.quote.id, ClientIdFromRequest(header, query)) in db.favorites
    ensures r.Ok? && WellFormed(db) ==>
      var mine := NewestFirst(db.favorites, ClientIdFromRequest(header, query));
      && |r.body| == |mine|
      && forall i :: 0 <= i < |mine| ==> r.body[i].quote.id == mine[i].quoteId
  {
    var cid := ClientIdFromRequest(header, query);
    if cid == "" then BadRequest
    else
      var mine := NewestFirst(db.favorites, cid);
      var bodies := FavoriteBodies(db.quotes, mine);
      assert forall b :: b in bodies ==> Favorite(b.quote.id, cid) in db.favorites by {
        forall b | b in bodies ensures Favorite(b.quote.id, cid) in db.favorites {
          var g :| g in mine && g.quoteId == b.quote.id;
        }
      }
      MineReferToQuotes(db, cid);
      Ok(bodies)
  }

  lemma MineReferToQuotes(db: Db, cid: string)
    ensures WellFormed(db) ==> forall g :: g in NewestFirst(db.favorites, cid) ==> HasQuote(db.quotes, g.quoteId)
  {
    if WellFormed(db) {
      forall g | g in NewestFirst(db.favorites, cid) ensures HasQuote(db.quotes, g.quoteId) {
        var i :| 0 <= i < |db.favorites| && db.favorites[i] == g;
      }
    }
  }

  /** A quote the client has just liked heads the client's favorite list. */
  lemma LikedQuoteListedFirst(db: Db, pk: nat, cid: string)
    requires Valid(db)
    requires cid != ""
    requires ToggleFavorite(db, pk, Some(cid), None, None).reply.Ok?
    requires ToggleFavorite(db, pk, Some(cid), None, None).reply.body.liked
    ensures
      var r := FavoriteList(ToggleFavorite(db, pk, Some(cid), None, None).db, Some(cid), None);
      r.Ok? && |r.body| > 0 && r.body[0].quote.id == pk
  {
    var o := ToggleFavorite(db, pk, Some(cid), None, None);
    var f := Favorite(pk, cid);
    assert o.db.favorites == db.favorites + [f];
    assert o.db.favorites[..|o.db.favorites| - 1] == db.favorites;
    assert NewestFirst(o.db.favorites, cid)[0] == f;
  }
}
