/** The report that the data-sync connector serves: building its rows and paging
    through them (src/server/data_sync.rs). */
module DataSync {
  import opened Wrappers
  import opened Json
  import opened Numbers

  // ------------------------------------------------------------------- page tokens

  const USIZE_MAX := 0xFFFF_FFFF_FFFF_FFFF
  const U64_MAX := 0xFFFF_FFFF_FFFF_FFFF
  const TOKEN_PREFIX := "offset_"

  datatype PageError = InvalidPageToken

  /** `str::parse::<usize>`: an optional plus sign, digits, and the value in range. */
  function ParseUsize(s: string): (r: Option<nat>)
    ensures r.Some? ==> r.value <= USIZE_MAX
  {
    var digits := if s != [] && s[0] == '+' then s[1..] else s;
    if AreDigits(digits) && DigitsValue(digits) <= USIZE_MAX then Some(DigitsValue(digits)) else None
  }

  /** `parse_page_token` */
  function ParsePageToken(token: string): (r: Result<nat, PageError>)
    ensures r.Ok? ==> r.value <= USIZE_MAX
  {
    if token == "" then Ok(0)
    else if TOKEN_PREFIX <= token && ParseUsize(token[|TOKEN_PREFIX|..]).Some?
    then Ok(ParseUsize(token[|TOKEN_PREFIX|..]).value)
    else Err(InvalidPageToken)
  }

  function PageToken(offset: nat): string {
    TOKEN_PREFIX + NatText(offset)
  }

  /** A token the server hands out is read back as the offset it was made from. */
  lemma {:induction false} PageTokenRoundTrip(offset: nat)
    requires offset <= USIZE_MAX
    ensures ParsePageToken(PageToken(offset)) == Ok(offset)
  {
    var token := PageToken(offset);
    NatTextRoundTrip(offset);
    assert token[|TOKEN_PREFIX|..] == NatText(offset);
    assert IsDigit(NatText(offset)[0]);
  }

  // ------------------------------------------------------------------------- pages

  datatype Page = Page(offset: nat, maxPageSize: nat)

  function GetField(params: Value, name: string): Option<Value> {
    if params.Obj? && name in params.fields then Some(params.fields[name]) else None
  }

  /** `Value::as_u64` */
  function AsU64(v: Value): Option<nat> {
    if v.Num? && v.n.Int? && 0 <= v.n.i <= U64_MAX then Some(v.n.i) else None
  }

  /** The size asked for, 100 by default, forced into 1 to 1000. */
  function PageSize(asked: Option<Value>): (n: nat)
    ensures 1 <= n <= 1000
  {
    var size := if asked.Some? && AsU64(asked.value).Some? then AsU64(asked.value).value else 100;
    if size < 1 then 1 else if size > 1000 then 1000 else size
  }

  /** `ConnectorRequest::page`, with the parameters already parsed as JSON. */
  function PageOf(params: Value): (r: Result<Page, PageError>)
    ensures r.Ok? ==> 1 <= r.value.maxPageSize <= 1000 && r.value.offset <= USIZE_MAX
  {
    var token := GetField(params, "pageToken");
    var offset := ParsePageToken(if token.Some? && token.value.Str? then token.value.s else "");
    if offset.Err? then Err(offset.error) else Ok(Page(offset.value, PageSize(GetField(params, "maxPageSize"))))
  }

  /** The size asked for is used if it is an integer from 1 to 1000; a smaller one counts
      as 1, a larger one as 1000, and whatever is no unsigned integer, or missing, as 100. */
  lemma {:induction false} PageSizeAsked(fields: Fields, i: int)
    requires PageOf(Obj(fields)).Ok?
    ensures var size := PageOf(Obj(fields)).value.maxPageSize;
            && ("maxPageSize" !in fields ==> size == 100)
            && ("maxPageSize" in fields && fields["maxPageSize"] == Num(Int(i)) ==>
                  size == if i < 0 || i > 0xFFFF_FFFF_FFFF_FFFF then 100
                          else if i == 0 then 1
                          else if i <= 1000 then i else 1000)
            && ("maxPageSize" in fields ==>
                  var asked := fields["maxPageSize"];
                  !asked.Num? || asked.n.Float? ==> size == 100)
  {
    hide ParsePageToken;
  }

  /** Which offset a page starts at: without a token, or with an empty one or one that is
      no text, the start; otherwise the number of rows behind the prefix. */
  lemma {:induction false} PageOffset(fields: Fields, digits: string)
    ensures "pageToken" !in fields ==> PageOf(Obj(fields)).Ok? && PageOf(Obj(fields)).value.offset == 0
    ensures "pageToken" in fields ==>
              var token, page := fields["pageToken"], PageOf(Obj(fields));
              && (!token.Str? || token.s == "" ==> page.Ok? && page.value.offset == 0)
              && (token == Str("offset_" + digits) && AreDigits(digits) ==>
                    if DigitsValue(digits) <= 0xFFFF_FFFF_FFFF_FFFF
                    then page.Ok? && page.value.offset == DigitsValue(digits) else page == Err(InvalidPageToken))
              && (token.Str? && token.s != "" && !("offset_" <= token.s) ==> page == Err(InvalidPageToken))
  {
    hide DigitsValue, PageSize;
    var token := "offset_" + digits;
    assert token[|TOKEN_PREFIX|..] == digits && token != "";
    assert AreDigits(digits) ==> IsDigit(digits[0]);
  }

  datatype RecordsData<T> = RecordsData(nextPageToken: Option<string>, hasMore: bool, records: seq<T>)

  /** `usize::saturating_add`, then `min` with the number of rows. */
  function EndOfPage(page: Page, count: nat): (end: nat)
    ensures end <= count
  {
    var end := if page.offset + page.maxPageSize > USIZE_MAX then USIZE_MAX else page.offset + page.maxPageSize;
    if end < count then end else count
  }

  /** The tail of `connector_records`. */
  function ConnectorRecords<T>(rows: seq<T>, page: Page): RecordsData<T>
    requires |rows| <= USIZE_MAX
  {
    var end := EndOfPage(page, |rows|);
    var records := if page.offset < |rows| then rows[page.offset..end] else [];
    var hasMore := end < |rows|;
    RecordsData(if hasMore then Some(PageToken(end)) else None, hasMore, records)
  }

  /** A page that starts within the rows continues them without gap or overlap, and
      its token leads on unless nothing is left; a page past the end is empty. */
  lemma {:induction false} PageContinues<T>(rows: seq<T>, page: Page)
    requires |rows| <= USIZE_MAX && page.offset <= USIZE_MAX && page.maxPageSize >= 1
    ensures var data := ConnectorRecords(rows, page);
            && data.hasMore == data.nextPageToken.Some?
            && (page.offset >= |rows| ==> data.records == [] && !data.hasMore)
            && (page.offset <= |rows| ==>
                  var end := page.offset + |data.records|;
                  && end <= |rows|
                  && rows[..page.offset] + data.records == rows[..end]
                  && |data.records| <= page.maxPageSize
                  && (data.hasMore ==> |data.records| == page.maxPageSize && end < |rows|
                                       && ParsePageToken(data.nextPageToken.value) == Ok(end))
                  && (!data.hasMore ==> end == |rows|))
  {
    hide ParsePageToken, PageToken;
    PageTokenRoundTrip(EndOfPage(page, |rows|));
  }

  /** What a client sends: the token it was given and any page size. */
  function Request(token: string, asked: Value): Value {
    Obj(map["pageToken" := Str(token), "maxPageSize" := asked])
  }

  /** Following the tokens from the empty one, asking for any size each time, returns
      every row exactly once and in order, in at most one request per row and in no
      fewer than one per thousand. */
  method FollowTokens<T>(rows: seq<T>, asked: nat -> Value) returns (all: seq<T>, requests: nat)
    requires |rows| <= USIZE_MAX
    ensures all == rows
    ensures 1 <= requests <= (if rows == [] then 1 else |rows|)
    ensures |rows| <= 1000 * requests
  {
    hide ConnectorRecords, ParsePageToken;
    all, requests := [], 0;
    var token := Some("");
    FirstToken();
    while token.Some?
      invariant |all| <= |rows| && all == rows[..|all|]
      invariant token.Some? ==> ParsePageToken(token.value) == Ok(|all|) && requests <= |all|
      invariant token.Some? && requests > 0 ==> |all| < |rows|
      invariant token.None? ==> |all| == |rows|
      invariant |all| <= 1000 * requests
      invariant token.None? ==> 1 <= requests <= (if rows == [] then 1 else |rows|)
      decreases token.Some?, |rows| - |all|
    {
      var page := PageOf(Request(token.value, asked(requests)));
      PageContinues(rows, page.value);
      var data := ConnectorRecords(rows, page.value);
      all := all + data.records;
      token := data.nextPageToken;
      requests := requests + 1;
    }
  }

  lemma FirstToken()
    ensures ParsePageToken("") == Ok(0)
  {
  }

  // ------------------------------------------------------------------ daily report

  datatype VideoDay = VideoDay(date: int, totalPlayCount: int)
  datatype LiveDay = LiveDay(date: int, anchors: int)
  datatype ReportRow = ReportRow(date: int, playIncrement: int, cumulativePlay: int, anchors: int)
  datatype ReportError = CountMismatch | DateMismatch(video: int, live: int)

  /** One more video day than live days, and every live day has its video day. */
  predicate DaysAligned(videoDays: seq<VideoDay>, liveDays: seq<LiveDay>) {
    |videoDays| == |liveDays| + 1 && forall i :: 0 <= i < |liveDays| ==> videoDays[i + 1].date == liveDays[i].date
  }

  function Increments(rows: seq<ReportRow>): int {
    if rows == [] then 0 else Increments(rows[..|rows| - 1]) + rows[|rows| - 1].playIncrement
  }

  /** The row of one day: the totals of the day and the growth since the day before. */
  predicate IsRow(row: ReportRow, before: VideoDay, video: VideoDay, live: LiveDay) {
    && row.date == live.date && row.anchors == live.anchors
    && row.cumulativePlay == video.totalPlayCount
    && row.playIncrement == video.totalPlayCount - before.totalPlayCount
  }

  /** The loop of `load_daily_report`. */
  method DailyReport(videoDays: seq<VideoDay>, liveDays: seq<LiveDay>) returns (r: Result<seq<ReportRow>, ReportError>)
    ensures r.Ok? <==> DaysAligned(videoDays, liveDays)
    ensures r.Ok? ==> |r.value| == |liveDays|
    ensures r.Ok? ==> forall i :: 0 <= i < |liveDays| ==> IsRow(r.value[i], videoDays[i], videoDays[i + 1], liveDays[i])
  {
    if |videoDays| != |liveDays| + 1 { return Err(CountMismatch); }
    var rows: seq<ReportRow> := [];
    var previous := videoDays[0].totalPlayCount;
    for n := 0 to |liveDays|
      invariant |rows| == n && previous == videoDays[n].totalPlayCount
      invariant forall i :: 0 <= i < n ==> videoDays[i + 1].date == liveDays[i].date
      invariant forall i :: 0 <= i < n ==> IsRow(rows[i], videoDays[i], videoDays[i + 1], liveDays[i])
    {
      var video, live := videoDays[n + 1], liveDays[n];
      if video.date != live.date { return Err(DateMismatch(video.date, live.date)); }
      var increment := video.totalPlayCount - previous;
      previous := video.totalPlayCount;
      rows := rows + [ReportRow(video.date, increment, video.totalPlayCount, live.anchors)];
    }
    r := Ok(rows);
  }

  /** The increments of the first days add up to the growth of the total since the
      day before the report. */
  lemma {:induction false} IncrementsAddUp(rows: seq<ReportRow>, videoDays: seq<VideoDay>, liveDays: seq<LiveDay>)
    requires |rows| <= |liveDays| && |videoDays| == |liveDays| + 1
    requires forall i :: 0 <= i < |rows| ==> IsRow(rows[i], videoDays[i], videoDays[i + 1], liveDays[i])
    ensures Increments(rows) == videoDays[|rows|].totalPlayCount - videoDays[0].totalPlayCount
  {
    if rows != [] { IncrementsAddUp(rows[..|rows| - 1], videoDays, liveDays); }
  }
}
