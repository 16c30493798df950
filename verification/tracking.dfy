/**
 * The `tracking` app: sponsor campaigns with an inclusive date range, and
 * four append-only logs (quote views, quote clicks, campaign views,
 * campaign clicks) written by request-validating endpoints. The clock is a
 * parameter `now`; log rows carry it as their timestamp.
 */
module Tracking {
  import opened Wrappers
  import opened Calendar
  import QuoteModels
  import Sorting

  /** One `Campaign` row. The schema does not require `startDate <= endDate`. */
  datatype Campaign = Campaign(
    id: nat,
    name: string,
    clientName: string,
    text: string,
    url: string,
    snsUrl: string,
    startDate: Date,
    endDate: Date)

  /** `QuoteClick.ACTION_CHOICES`. */
  datatype QuoteAction = Wiki | Amazon | Share

  function QuoteActionCode(a: QuoteAction): string {
    match a
    case Wiki => "wiki"
    case Amazon => "amazon"
    case Share => "share"
  }

  /** The action a request's `action` string names, if it is one of the three choices. */
  function QuoteActionFromCode(s: string): (r: Option<QuoteAction>)
    ensures r.Some? ==> QuoteActionCode(r.value) == s
    ensures r.None? ==> s != "wiki" && s != "amazon" && s != "share"
  {
    if s == "wiki" then Some(Wiki)
    else if s == "amazon" then Some(Amazon)
    else if s == "share" then Some(Share)
    else None
  }

  /** `CampaignClick.ACTION_CHOICES`; the stored value is not checked against them. */
  datatype CampaignAction = Official | Sns | CampaignShare

  function CampaignActionCode(a: CampaignAction): string {
    match a
    case Official => "official"
    case Sns => "sns"
    case CampaignShare => "share"
  }

  /** The default of `CampaignClick.action`. */
  const DefaultCampaignAction: string := CampaignActionCode(Official)

  datatype QuoteViewRow = QuoteViewRow(quoteId: nat, clientId: string, viewedAt: int)
  datatype QuoteClickRow = QuoteClickRow(quoteId: nat, clientId: string, action: QuoteAction, clickedAt: int)
  datatype CampaignViewRow = CampaignViewRow(campaignId: nat, clientId: string, viewedAt: int)
  datatype CampaignClickRow = CampaignClickRow(campaignId: nat, clientId: string, action: string, clickedAt: int)

  /** The four logs, each in insertion order. */
  datatype Logs = Logs(
    quoteViews: seq<QuoteViewRow>,
    quoteClicks: seq<QuoteClickRow>,
    campaignViews: seq<CampaignViewRow>,
    campaignClicks: seq<CampaignClickRow>)

  datatype State = State(quotes: seq<QuoteModels.Quote>, campaigns: seq<Campaign>, logs: Logs)

  /** The statuses the tracking endpoints answer with. */
  datatype Status = Created | BadRequest | NotFound

  datatype Outcome = Outcome(status: Status, state: State)

  // ---------------------------------------------------------------------
  // Lookups and the activity predicate

  predicate HasCampaign(campaigns: seq<Campaign>, id: int) {
    exists i :: 0 <= i < |campaigns| && campaigns[i].id == id
  }

  /** `campaign_id` or `quote_id` as Python sees it: present and non-zero. */
  predicate IdGiven(id: Option<int>) {
    id.Some? && id.value != 0
  }

  /** `client_id` or `action` as Python sees it: present and non-empty. */
  predicate TextGiven(s: Option<string>) {
    s.Some? && s.value != ""
  }

  /** `start_date__lte=today, end_date__gte=today`: both ends inclusive. */
  predicate ActiveOn(c: Campaign, today: Date) {
    OnOrBefore(c.startDate, today) && OnOrBefore(today, c.endDate)
  }

  /** `Meta.ordering = ['-start_date']`. */
  predicate StartsNoEarlier(a: Campaign, b: Campaign) {
    OnOrBefore(b.startDate, a.startDate)
  }

  function ActiveFilter(campaigns: seq<Campaign>, today: Date): (r: seq<Campaign>)
    ensures forall c :: c in r <==> c in campaigns && ActiveOn(c, today)
  {
    if |campaigns| == 0 then []
    else if ActiveOn(campaigns[0], today) then [campaigns[0]] + ActiveFilter(campaigns[1..], today)
    else ActiveFilter(campaigns[1..], today)
  }

  lemma StartsNoEarlierIsTotalPreorder()
    ensures Sorting.TotalPreorder(StartsNoEarlier)
  {
    forall a: Campaign, b: Campaign ensures StartsNoEarlier(a, b) || StartsNoEarlier(b, a) {
      OnOrBeforeIsTotalOrder(a.startDate, b.startDate, b.startDate);
    }
    forall a: Campaign, b: Campaign, c: Campaign | StartsNoEarlier(a, b) && StartsNoEarlier(b, c)
      ensures StartsNoEarlier(a, c)
    {
      OnOrBeforeIsTotalOrder(c.startDate, b.startDate, a.startDate);
    }
  }

  /**
   * `active_campaigns`: exactly the campaigns whose range covers `today`,
   * latest start first.
   */
  function ActiveCampaigns(campaigns: seq<Campaign>, today: Date): (r: seq<Campaign>)
    ensures forall c :: c in r <==> c in campaigns && ActiveOn(c, today)
    ensures forall c :: c in r ==> OnOrBefore(c.startDate, today) && OnOrBefore(today, c.endDate)
    ensures multiset(r) == multiset(ActiveFilter(campaigns, today))
    ensures Sorting.SortedBy(r, StartsNoEarlier)
  {
    var active := ActiveFilter(campaigns, today);
    StartsNoEarlierIsTotalPreorder();
    Sorting.SortBySorted(active, StartsNoEarlier);
    var r := Sorting.SortBy(active, StartsNoEarlier);
    assert forall c :: c in r <==> c in multiset(r);
    assert forall c :: c in active <==> c in multiset(active);
    r
  }

  // ---------------------------------------------------------------------
  // Tracking endpoints

  /** `track_campaign_view`: 400 without both ids, 404 for an unknown campaign, else one view row and 201. */
  function TrackCampaignView(s: State, campaignId: Option<int>, clientId: Option<string>, now: int): (o: Outcome)
    ensures o.status == BadRequest <==> !IdGiven(campaignId) || !TextGiven(clientId)
    ensures o.status == NotFound <==>
      IdGiven(campaignId) && TextGiven(clientId) && !HasCampaign(s.campaigns, campaignId.value)
    ensures o.status != Created ==> o.state == s
    ensures o.status == Created ==>
      && o.state == s.(logs := s.logs.(campaignViews := o.state.logs.campaignViews))
      && |o.state.logs.campaignViews| == |s.logs.campaignViews| + 1
      && o.state.logs.campaignViews[..|s.logs.campaignViews|] == s.logs.campaignViews
      && o.state.logs.campaignViews[|s.logs.campaignViews|]
           == CampaignViewRow(campaignId.value as nat, clientId.value, now)
  {
    if !IdGiven(campaignId) || !TextGiven(clientId) then Outcome(BadRequest, s)
    else if !HasCampaign(s.campaigns, campaignId.value) then Outcome(NotFound, s)
    else
      var row := CampaignViewRow(campaignId.value as nat, clientId.value, now);
      Outcome(Created, s.(logs := s.logs.(campaignViews := s.logs.campaignViews + [row])))
  }

  /**
   * `track_campaign_click`: like the view, with `action` defaulting to
   * "official" when absent and stored without checking it against the choices.
   */
  function TrackCampaignClick(s: State, campaignId: Option<int>, clientId: Option<string>,
                              action: Option<string>, now: int): (o: Outcome)
    ensures o.status == BadRequest <==> !IdGiven(campaignId) || !TextGiven(clientId)
    ensures o.status == NotFound <==>
      IdGiven(campaignId) && TextGiven(clientId) && !HasCampaign(s.campaigns, campaignId.value)
    ensures o.status != Created ==> o.state == s
    ensures o.status == Created ==>
      && o.state == s.(logs := s.logs.(campaignClicks := o.state.logs.campaignClicks))
      && |o.state.logs.campaignClicks| == |s.logs.campaignClicks| + 1
      && o.state.logs.campaignClicks[..|s.logs.campaignClicks|] == s.logs.campaignClicks
      && o.state.logs.campaignClicks[|s.logs.campaignClicks|]
           == CampaignClickRow(campaignId.value as nat, clientId.value, action.GetOr("official"), now)
  {
    var act := action.GetOr(DefaultCampaignAction);
    if !IdGiven(campaignId) || !TextGiven(clientId) then Outcome(BadRequest, s)
    else if !HasCampaign(s.campaigns, campaignId.value) then Outcome(NotFound, s)
    else
      var row := CampaignClickRow(campaignId.value as nat, clientId.value, act, now);
      Outcome(Created, s.(logs := s.logs.(campaignClicks := s.logs.campaignClicks + [row])))
  }

  /** `track_quote_view`: 400 without both ids, 404 for an unknown quote, else one view row and 201. */
  function TrackQuoteView(s: State, quoteId: Option<int>, clientId: Option<string>, now: int): (o: Outcome)
    ensures o.status == BadRequest <==> !IdGiven(quoteId) || !TextGiven(clientId)
    ensures o.status == NotFound <==>
      IdGiven(quoteId) && TextGiven(clientId) && !(quoteId.value >= 0 && QuoteModels.HasQuote(s.quotes, quoteId.value))
    ensures o.status != Created ==> o.state == s
    ensures o.status == Created ==>
      && o.state == s.(logs := s.logs.(quoteViews := o.state.logs.quoteViews))
      && |o.state.logs.quoteViews| == |s.logs.quoteViews| + 1
      && o.state.logs.quoteViews[..|s.logs.quoteViews|] == s.logs.quoteViews
      && o.state.logs.quoteViews[|s.logs.quoteViews|] == QuoteViewRow(quoteId.value as nat, clientId.value, now)
  {
    if !IdGiven(quoteId) || !TextGiven(clientId) then Outcome(BadRequest, s)
    else if !(quoteId.value >= 0 && QuoteModels.HasQuote(s.quotes, quoteId.value)) then Outcome(NotFound, s)
    else
      var row := QuoteViewRow(quoteId.value as nat, clientId.value, now);
      Outcome(Created, s.(logs := s.logs.(quoteViews := s.logs.quoteViews + [row])))
  }

  /**
   * `track_quote_click`: 400 when an id or the action is missing, 400 when
   * the action is not wiki/amazon/share, 404 for an unknown quote, else one
   * click row and 201.
   */
  function TrackQuoteClick(s: State, quoteId: Option<int>, clientId: Option<string>,
                           action: Option<string>, now: int): (o: Outcome)
    ensures o.status == BadRequest <==>
      !IdGiven(quoteId) || !TextGiven(clientId) || !TextGiven(action) || QuoteActionFromCode(action.value).None?
    ensures o.status == NotFound <==>
      && IdGiven(quoteId) && TextGiven(clientId) && TextGiven(action) && QuoteActionFromCode(action.value).Some?
      && !(quoteId.value >= 0 && QuoteModels.HasQuote(s.quotes, quoteId.value))
    ensures o.status != Created ==> o.state == s
    ensures o.status == Created ==>
      && o.state == s.(logs := s.logs.(quoteClicks := o.state.logs.quoteClicks))
      && |o.state.logs.quoteClicks| == |s.logs.quoteClicks| + 1
      && o.state.logs.quoteClicks[..|s.logs.quoteClicks|] == s.logs.quoteClicks
      && var row := o.state.logs.quoteClicks[|s.logs.quoteClicks|];
         && row.quoteId == quoteId.value && row.clientId == clientId.value && row.clickedAt == now
         && QuoteActionCode(row.action) == action.value
  {
    if !IdGiven(quoteId) || !TextGiven(clientId) || !TextGiven(action) then Outcome(BadRequest, s)
    else match QuoteActionFromCode(action.value)
      case None => Outcome(BadRequest, s)
      case Some(a) =>
        if !(quoteId.value >= 0 && QuoteModels.HasQuote(s.quotes, quoteId.value)) then Outcome(NotFound, s)
        else
          var row := QuoteClickRow(quoteId.value as nat, clientId.value, a, now);
          Outcome(Created, s.(logs := s.logs.(quoteClicks := s.logs.quoteClicks + [row])))
  }

  /**
   * The date `stats_overview` reports on: the `date` parameter parsed by
   * `date.fromisoformat` (`parse`), or `today` when the parameter is absent
   * or empty; `None` stands for the 400 reply to an unparsable date.
   */
  function StatsDate(dateParam: Option<string>, parse: string -> Option<Date>, today: Date): (r: Option<Date>)
    ensures !TextGiven(dateParam) ==> r == Some(today)
    ensures TextGiven(dateParam) ==> r == parse(dateParam.value)
  {
    if TextGiven(dateParam) then parse(dateParam.value) else Some(today)
  }

  // ---------------------------------------------------------------------
  // Referential integrity of the logs

  /** Every log row points at an existing quote or campaign (`ForeignKey`). */
  ghost predicate LogsReferToTargets(s: State) {
    && (forall r :: r in s.logs.quoteViews ==> QuoteModels.HasQuote(s.quotes, r.quoteId))
    && (forall r :: r in s.logs.quoteClicks ==> QuoteModels.HasQuote(s.quotes, r.quoteId))
    && (forall r :: r in s.logs.campaignViews ==> HasCampaign(s.campaigns, r.campaignId))
    && (forall r :: r in s.logs.campaignClicks ==> HasCampaign(s.campaigns, r.campaignId))
  }

  /** Each tracking endpoint only appends rows that point at existing targets. */
  lemma TrackingKeepsReferences(s: State, id: Option<int>, clientId: Option<string>, action: Option<string>, now: int)
    requires LogsReferToTargets(s)
    ensures LogsReferToTargets(TrackCampaignView(s, id, clientId, now).state)
    ensures LogsReferToTargets(TrackCampaignClick(s, id, clientId, action, now).state)
    ensures LogsReferToTargets(TrackQuoteView(s, id, clientId, now).state)
    ensures LogsReferToTargets(TrackQuoteClick(s, id, clientId, action, now).state)
  {
  }

  /** Deleting a campaign deletes its view and click rows (`on_delete=CASCADE`). */
  function DeleteCampaign(s: State, id: nat): (r: State)
    ensures !HasCampaign(r.campaigns, id)
    ensures forall c :: c in r.campaigns <==> c in s.campaigns && c.id != id
    ensures forall v :: v in r.logs.campaignViews <==> v in s.logs.campaignViews && v.campaignId != id
    ensures forall k :: k in r.logs.campaignClicks <==> k in s.logs.campaignClicks && k.campaignId != id
    ensures r.quotes == s.quotes && r.logs.quoteViews == s.logs.quoteViews && r.logs.quoteClicks == s.logs.quoteClicks
  {
    var campaigns := Filter(s.campaigns, (c: Campaign) => c.id != id);
    assert forall i :: 0 <= i < |campaigns| ==> campaigns[i] in campaigns;
    State(
      s.quotes,
      campaigns,
      s.logs.(campaignViews := Filter(s.logs.campaignViews, (v: CampaignViewRow) => v.campaignId != id),
              campaignClicks := Filter(s.logs.campaignClicks, (k: CampaignClickRow) => k.campaignId != id)))
  }

  /** The elements of `s` satisfying `keep`, in order. */
  function Filter<T(!new)>(s: seq<T>, keep: T -> bool): (r: seq<T>)
    ensures forall x :: x in r <==> x in s && keep(x)
  {
    if |s| == 0 then []
    else if keep(s[0]) then [s[0]] + Filter(s[1..], keep)
    else Filter(s[1..], keep)
  }

  /** The campaign cascade leaves no dangling log row behind. */
  lemma DeleteCampaignKeepsReferences(s: State, id: nat)
    requires LogsReferToTargets(s)
    ensures LogsReferToTargets(DeleteCampaign(s, id))
  {
    var r := DeleteCampaign(s, id);
    forall v | v in r.logs.campaignViews ensures HasCampaign(r.campaigns, v.campaignId) {
      var i :| 0 <= i < |s.campaigns| && s.campaigns[i].id == v.campaignId;
      assert s.campaigns[i] in r.campaigns;
    }
    forall k | k in r.logs.campaignClicks ensures HasCampaign(r.campaigns, k.campaignId) {
      var i :| 0 <= i < |s.campaigns| && s.campaigns[i].id == k.campaignId;
      assert s.campaigns[i] in r.campaigns;
    }
  }

  /** Deleting a quote deletes its view and click rows (`on_delete=CASCADE`). */
  function DeleteQuote(s: State, id: nat): (r: State)
    ensures !QuoteModels.HasQuote(r.quotes, id)
    ensures forall q :: q in r.quotes <==> q in s.quotes && q.id != id
    ensures forall v :: v in r.logs.quoteViews <==> v in s.logs.quoteViews && v.quoteId != id
    ensures forall k :: k in r.logs.quoteClicks <==> k in s.logs.quoteClicks && k.quoteId != id
    ensures r.campaigns == s.campaigns
    ensures r.logs.campaignViews == s.logs.campaignViews && r.logs.campaignClicks == s.logs.campaignClicks
  {
    State(
      QuoteModels.KeepQuotesOtherThan(s.quotes, id),
      s.campaigns,
      s.logs.(quoteViews := Filter(s.logs.quoteViews, (v: QuoteViewRow) => v.quoteId != id),
              quoteClicks := Filter(s.logs.quoteClicks, (k: QuoteClickRow) => k.quoteId != id)))
  }

  /** The quote cascade leaves no dangling log row behind. */
  lemma DeleteQuoteKeepsReferences(s: State, id: nat)
    requires LogsReferToTargets(s)
    ensures LogsReferToTargets(DeleteQuote(s, id))
  {
    var r := DeleteQuote(s, id);
    forall v | v in r.logs.quoteViews ensures QuoteModels.HasQuote(r.quotes, v.quoteId) {
      var i :| 0 <= i < |s.quotes| && s.quotes[i].id == v.quoteId;
      assert s.quotes[i] in r.quotes;
    }
    forall k | k in r.logs.quoteClicks ensures QuoteModels.HasQuote(r.quotes, k.quoteId) {
      var i :| 0 <= i < |s.quotes| && s.quotes[i].id == k.quoteId;
      assert s.quotes[i] in r.quotes;
    }
  }

  /** Log rows newest first: `Meta.ordering = ['-viewed_at']` / `['-clicked_at']`. */
  function NewestFirst<T(!new)>(rows: seq<T>, at: T -> int): (r: seq<T>)
    ensures multiset(r) == multiset(rows)
    ensures forall i, j :: 0 <= i < j < |r| ==> at(r[i]) >= at(r[j])
  {
    var before := (a: T, b: T) => at(a) >= at(b);
    assert Sorting.TotalPreorder(before);
    Sorting.SortBySorted(rows, before);
    Sorting.SortBy(rows, before)
  }
}
