/** The rate limiter: one table of buckets shared by every action and every caller. */
module RateLimiter {
  import opened Arith
  import opened Wrappers
  import opened TokenBucket
  import SqliteBucket
  import Cleanup
  import DeniedTakes
  import RateBound
  import SqliteDeniedTakes
  import SqliteRateBound
  import TimestampText

  datatype LimitedAction =
    | ApiRequest | LoginAttempt | PasswordReset | FileUpload | FormSubmission
    | OAuthAuthorize | OAuthCallback | TokenCreation | PublicApiRead

  datatype Backend = Postgres | Sqlite

  const SECOND: int := 1_000_000

  function ActionName(action: LimitedAction): string {
    match action
    case ApiRequest => "api_request"
    case LoginAttempt => "login_attempt"
    case PasswordReset => "password_reset"
    case FileUpload => "file_upload"
    case FormSubmission => "form_submission"
    case OAuthAuthorize => "oauth_authorize"
    case OAuthCallback => "oauth_callback"
    case TokenCreation => "token_creation"
    case PublicApiRead => "public_api_read"
  }

  function DefaultConfig(action: LimitedAction): Config {
    match action
    case ApiRequest => Config(1 * SECOND, 10)
    case LoginAttempt => Config(5 * SECOND, 5)
    case PasswordReset => Config(60 * SECOND, 3)
    case FileUpload => Config(10 * SECOND, 5)
    case FormSubmission => Config(30 * SECOND, 10)
    case OAuthAuthorize => Config(5 * SECOND, 5)
    case OAuthCallback => Config(5 * SECOND, 5)
    case TokenCreation => Config(10 * SECOND, 3)
    case PublicApiRead => Config(1 * SECOND, 60)
  }

  type Settings = map<LimitedAction, Config>

  predicate ValidSettings(settings: Settings) { forall a | a in settings :: settings[a].Valid() }

  function ConfigFor(settings: Settings, action: LimitedAction): (cfg: Config)
    requires ValidSettings(settings)
    ensures cfg.Valid()
    ensures action in settings ==> cfg == settings[action]
  {
    if action in settings then settings[action] else DefaultConfig(action)
  }

  /** `format!("{}:{}", action.as_str(), bucket_id)` */
  function KeyOf(action: LimitedAction, bucketId: string): string { ActionName(action) + ":" + bucketId }

  type Table = map<string, Bucket>

  function Lookup(table: Table, key: string): Option<Bucket> {
    if key in table then Some(table[key]) else None
  }

  /** The state of the limiter, with the statements it sends as methods. */
  class Limiter {
    const backend: Backend
    const settings: Settings
    var buckets: Table

    constructor (backend: Backend, settings: Settings)
      ensures this.backend == backend && this.settings == settings && buckets == map[]
    {
      this.backend := backend;
      this.settings := settings;
      buckets := map[];
    }

    /** One take.  On SQLite, the request says what its date functions do to it. */
    method CheckRateLimit(
        bucketId: string, action: LimitedAction, request: SqliteBucket.Request) returns (answer: Answer)
      requires ValidSettings(settings)
      modifies this`buckets
      ensures var key := KeyOf(action, bucketId);
              var row := Lookup(old(buckets), key);
              var cfg := if action in settings then settings[action] else DefaultConfig(action);
              var (row', answer') := if backend.Postgres? then Take(row, request.now, cfg)
                                     else SqliteBucket.SqliteTake(row, request, cfg);
              answer == answer' && row'.Some? && buckets == old(buckets)[key := row'.value]
      ensures forall maxAge ::
                (buckets, answer) ==
                  ApplyToTable(backend, old(buckets), Check(action, bucketId, request), settings, maxAge)
    {
      var cfg := ConfigFor(settings, action);
      var key := KeyOf(action, bucketId);
      var row := Lookup(buckets, key);
      var row';
      if backend.Postgres? {
        var taken := Take(row, request.now, cfg);
        row', answer := taken.0, taken.1;
      } else {
        var taken := SqliteBucket.SqliteTake(row, request, cfg);
        row', answer := taken.0, taken.1;
      }
      buckets := buckets[key := row'.value];
    }

    method ClearKey(bucketId: string, action: LimitedAction)
      modifies this`buckets
      ensures buckets == old(buckets) - {KeyOf(action, bucketId)}
    {
      buckets := buckets - {KeyOf(action, bucketId)};
    }

    /** `filter(bucket_key != "")`: every key is longer than that. */
    method ClearAll()
      modifies this`buckets
      ensures forall action, bucketId :: KeyOf(action, bucketId) !in buckets
    {
      buckets := map key | key in buckets && key == "" :: buckets[key];
      forall action, bucketId ensures KeyOf(action, bucketId) != "" {
        assert KeyOf(action, bucketId)[|ActionName(action)|] == ':';
      }
    }

    /** The `CleanupJob`: of the rows from after the epoch exactly those go whose last refill is older
        than the retention, saturated arithmetic or not; on SQLite, which compares the text of
        instants, a row at most a millisecond too old may be spared.  `rewritten` are the rows a
        refill has given the shorter text. */
    method DeleteStale(now: Micros, days: Cleanup.U64, rewritten: set<string>)
      requires Cleanup.TS_MIN <= now * 1000 <= Cleanup.TS_MAX
      requires forall key | key in buckets :: 0 <= buckets[key].lastRefill
      requires backend.Sqlite? ==> HasText(buckets, rewritten)
      requires backend.Sqlite? ==> TimestampText.Storable(Cleanup.Cutoff(now * 1000, days))
      requires ValidSettings(settings)
      modifies this`buckets
      ensures backend.Postgres? ==>
                forall key :: key in buckets <==>
                  key in old(buckets) && old(buckets)[key].lastRefill >= now - days * 86_400 * SECOND
      ensures backend.Sqlite? ==>
                forall key :: key in buckets <==>
                  && key in old(buckets)
                  && var last, cutoff := old(buckets)[key].lastRefill, Cleanup.Cutoff(now * 1000, days);
                     if key in rewritten then last / 1000 >= cutoff / 1_000_000 else last >= cutoff / 1000
      ensures forall key | key in buckets :: key in old(buckets) && buckets[key] == old(buckets)[key]
      ensures buckets == DeleteOlder(old(buckets), now, MaxAge(days),
                  Spared(backend, old(buckets), now, days, rewritten))
      ensures buckets == ApplyToTable(backend, old(buckets),
                  Clean(now, Spared(backend, old(buckets), now, days, rewritten)),
                                      settings, MaxAge(days)).0
      ensures forall key | key in Spared(backend, old(buckets), now, days, rewritten) ::
                key in old(buckets) && now - MaxAge(days) - SqliteBucket.MILLI < old(buckets)[key].lastRefill
    {
      hide Cleanup.Cutoff, Cleanup.SqliteDeletes;
      if backend.Postgres? {
        var cutoff := Cleanup.Cutoff(now * 1000, days);
        CutoffFindsStale(buckets, now, days);
        buckets := map key | key in buckets && !(buckets[key].lastRefill * 1000 < cutoff) :: buckets[key];
      } else {
        TextFindsStale(buckets, now, days, rewritten);
        buckets := map key | key in buckets && !LooksStale(buckets, key, now, days, rewritten) :: buckets[key];
      }
    }
  }

  // ---------------------------------------------------------------------------
  // What the cleanup sees on SQLite
  // ---------------------------------------------------------------------------

  /** A row's `last_refill` as the text column holds it. */
  function RowText(table: Table, key: string, rewritten: set<string>): Cleanup.StoredRefill
    requires key in table
  {
    var nanos := table[key].lastRefill * 1000;
    if key in rewritten then Cleanup.Rewritten(nanos) else Cleanup.Inserted(nanos)
  }

  predicate HasText(table: Table, rewritten: set<string>) {
    forall key | key in table :: RowText(table, key, rewritten).Valid()
  }

  /** Every table of rows from after the epoch has text, the shorter one for whole milliseconds at most. */
  lemma TablesHaveText(table: Table, rewritten: set<string>)
    requires forall key | key in table :: 0 <= table[key].lastRefill
    requires forall key | key in table :: TimestampText.FourDigitYear(table[key].lastRefill + TimestampText.EPOCH)
    requires forall key | key in table && key in rewritten :: table[key].lastRefill % SqliteBucket.MILLI == 0
    ensures HasText(table, rewritten)
  {
    hide TimestampText.FourDigitYear;
    forall key | key in table ensures RowText(table, key, rewritten).Valid() {
      Cleanup.EveryRowHasText(table[key].lastRefill);
    }
  }

  predicate LooksStale(table: Table, key: string, now: Micros, days: Cleanup.U64, rewritten: set<string>)
    requires key in table && RowText(table, key, rewritten).Valid()
    requires TimestampText.Storable(Cleanup.Cutoff(now * 1000, days))
  {
    Cleanup.SqliteDeletes(RowText(table, key, rewritten), now * 1000, days)
  }

  lemma CutoffFindsStale(table: Table, now: Micros, days: Cleanup.U64)
    requires now * 1000 <= Cleanup.TS_MAX && forall key | key in table :: 0 <= table[key].lastRefill
    ensures var cutoff := Cleanup.Cutoff(now * 1000, days);
            forall key | key in table ::
              table[key].lastRefill * 1000 < cutoff <==> table[key].lastRefill < now - MaxAge(days)
  {
    hide Cleanup.Cutoff;
    var cutoff := Cleanup.Cutoff(now * 1000, days);
    forall key | key in table
      ensures table[key].lastRefill * 1000 < cutoff <==> table[key].lastRefill < now - MaxAge(days)
    {
      Cleanup.SaturationIsInvisible(now * 1000, days, table[key].lastRefill * 1000);
    }
  }

  lemma TextFindsStale(table: Table, now: Micros, days: Cleanup.U64, rewritten: set<string>)
    requires HasText(table, rewritten) && TimestampText.Storable(Cleanup.Cutoff(now * 1000, days))
    requires Cleanup.TS_MIN <= now * 1000 <= Cleanup.TS_MAX
    ensures forall key | key in table ::
              && (LooksStale(table, key, now, days, rewritten) <==>
                    var last, cutoff := table[key].lastRefill, Cleanup.Cutoff(now * 1000, days);
                    if key in rewritten then last / 1000 < cutoff / 1_000_000 else last < cutoff / 1000)
              && (LooksStale(table, key, now, days, rewritten) ==> table[key].lastRefill < now - MaxAge(days))
              && (table[key].lastRefill + SqliteBucket.MILLI <= now - MaxAge(days) ==>
                    LooksStale(table, key, now, days, rewritten))
  {
    hide Cleanup.Cutoff, Cleanup.SqliteDeletes;
    forall key | key in table
      ensures LooksStale(table, key, now, days, rewritten) <==>
              var last, cutoff := table[key].lastRefill, Cleanup.Cutoff(now * 1000, days);
              if key in rewritten then last / 1000 < cutoff / 1_000_000 else last < cutoff / 1000
      ensures LooksStale(table, key, now, days, rewritten) ==> table[key].lastRefill < now - MaxAge(days)
      ensures table[key].lastRefill + SqliteBucket.MILLI <= now - MaxAge(days) ==>
              LooksStale(table, key, now, days, rewritten)
    {
      Cleanup.TextDeletionIsConservative(RowText(table, key, rewritten), now * 1000, days);
      LooksStaleByCutoff(table, key, now, days, rewritten);
    }
  }

  lemma LooksStaleByCutoff(table: Table, key: string, now: Micros, days: Cleanup.U64, rewritten: set<string>)
    requires key in table && RowText(table, key, rewritten).Valid()
    requires TimestampText.Storable(Cleanup.Cutoff(now * 1000, days))
    ensures LooksStale(table, key, now, days, rewritten) <==>
            var last, cutoff := table[key].lastRefill, Cleanup.Cutoff(now * 1000, days);
            if key in rewritten then last / 1000 < cutoff / 1_000_000 else last < cutoff / 1000
  {
    hide Cleanup.Cutoff, Cleanup.SqliteDeletes, TimestampText.Storable;
    var row, cutoff := RowText(table, key, rewritten), Cleanup.Cutoff(now * 1000, days);
    if cutoff >= 0 {
      Cleanup.TextDeletionIsExact(row, now * 1000, days);
    } else {
      Cleanup.NothingBeforeEpoch(row, now * 1000, days);
    }
    assert table[key].lastRefill * 1000 / 1000 == table[key].lastRefill;
    assert table[key].lastRefill * 1000 / 1_000_000 == table[key].lastRefill / 1000;
  }

  /** The old rows whose text hides their age. */
  function Spared(backend: Backend, table: Table, now: Micros, days: Cleanup.U64, rewritten: set<string>): set<string>
    requires backend.Sqlite? ==> HasText(table, rewritten) && TimestampText.Storable(Cleanup.Cutoff(now * 1000, days))
  {
    if backend.Postgres? then {}
    else set key | key in table && table[key].lastRefill < now - MaxAge(days)
             && !LooksStale(table, key, now, days, rewritten)
  }

  // ---------------------------------------------------------------------------
  // Histories of the whole table
  // ---------------------------------------------------------------------------

  function TakeOn(
      backend: Backend, row: Option<Bucket>, request: SqliteBucket.Request, cfg: Config): (Option<Bucket>, Answer)
    requires cfg.Valid()
  {
    if backend.Postgres? then Take(row, request.now, cfg) else SqliteBucket.SqliteTake(row, request, cfg)
  }

  /** The retention of the cleanup job, in microseconds. */
  function MaxAge(days: nat): nat { days * 86_400 * SECOND }

  function DeleteOlder(table: Table, now: Micros, maxAge: Micros, spares: set<string>): Table {
    map key | key in table && !(table[key].lastRefill < now - maxAge && key !in spares) :: table[key]
  }

  datatype TableEvent =
    | Check(action: LimitedAction, bucketId: string, request: SqliteBucket.Request)
    | Clean(at: Micros, spares: set<string>)
  {
    function Time(): Micros { if Check? then request.now else at }
  }

  function ApplyToTable(
      backend: Backend, table: Table, event: TableEvent, settings: Settings, maxAge: Micros): (Table, Answer)
    requires ValidSettings(settings)
  {
    match event
    case Check(action, bucketId, request) =>
      var key := KeyOf(action, bucketId);
      var (row, answer) := TakeOn(backend, Lookup(table, key), request, ConfigFor(settings, action));
      (table[key := row.value], answer)
    case Clean(now, spares) => (DeleteOlder(table, now, maxAge, if backend.Sqlite? then spares else {}), Denied)
  }

  predicate TableInOrder(events: seq<TableEvent>) {
    forall i, j :: 0 <= i < j < |events| ==> events[i].Time() <= events[j].Time()
  }

  /** SQLite measures time as exactly as assumed. */
  predicate Measured(events: seq<TableEvent>, limit: SqliteBucket.Extra) {
    forall i :: 0 <= i < |events| && events[i].Check? ==> events[i].request.Valid(limit)
  }

  /** How many requests of one caller for one action were allowed in [from, to]. */
  function AdmittedTo(backend: Backend, table: Table, events: seq<TableEvent>, action: LimitedAction, bucketId: string,
                      from: Micros, to: Micros, settings: Settings, maxAge: Micros): nat
    requires ValidSettings(settings)
    decreases |events|
  {
    if events == [] then 0
    else
      var (next, answer) := ApplyToTable(backend, table, events[0], settings, maxAge);
      var counts := events[0].Check? && events[0].action == action && events[0].bucketId == bucketId
                    && answer.Allowed? && from <= events[0].Time() <= to;
      (if counts then 1 else 0) + AdmittedTo(backend, next, events[1..], action, bucketId, from, to, settings, maxAge)
  }

  /** What one bucket sees of a history of the whole table, on either backend. */
  function Projection(events: seq<TableEvent>, action: LimitedAction, bucketId: string): seq<RateBound.Event> {
    if events == [] then []
    else
      var rest := Projection(events[1..], action, bucketId);
      match events[0]
      case Check(a, id, r) => if a == action && id == bucketId then [RateBound.TakeAt(r.now)] + rest else rest
      case Clean(at, _) => [RateBound.CleanupAt(at)] + rest
  }

  function SqliteProjection(
      events: seq<TableEvent>, action: LimitedAction, bucketId: string): seq<SqliteRateBound.Event> {
    if events == [] then []
    else
      var rest := SqliteProjection(events[1..], action, bucketId);
      match events[0]
      case Check(a, id, r) => if a == action && id == bucketId then [SqliteRateBound.Take(r)] + rest else rest
      case Clean(at, spares) => [SqliteRateBound.Cleanup(at, KeyOf(action, bucketId) in spares)] + rest
  }

  /** The keys as they stand in the table, for a caller id of any text. */
  lemma StoredKeys(id: string)
    ensures KeyOf(ApiRequest, id) == "api_request:" + id && KeyOf(LoginAttempt, id) == "login_attempt:" + id
    ensures KeyOf(PasswordReset, id) == "password_reset:" + id && KeyOf(FileUpload, id) == "file_upload:" + id
    ensures KeyOf(FormSubmission, id) == "form_submission:" + id && KeyOf(TokenCreation, id) == "token_creation:" + id
    ensures KeyOf(OAuthAuthorize, id) == "oauth_authorize:" + id && KeyOf(OAuthCallback, id) == "oauth_callback:" + id
    ensures KeyOf(PublicApiRead, id) == "public_api_read:" + id
  {
    assert "api_request" + ":" == "api_request:" && "login_attempt" + ":" == "login_attempt:";
    assert "password_reset" + ":" == "password_reset:" && "file_upload" + ":" == "file_upload:";
    assert "form_submission" + ":" == "form_submission:" && "token_creation" + ":" == "token_creation:";
    assert "oauth_authorize" + ":" == "oauth_authorize:" && "oauth_callback" + ":" == "oauth_callback:";
    assert "public_api_read" + ":" == "public_api_read:";
  }

  lemma NoColonInNames(action: LimitedAction)
    ensures ':' !in ActionName(action)
  {
  }

  lemma NamesAreDistinct(a: LimitedAction, b: LimitedAction)
    requires ActionName(a) == ActionName(b)
    ensures a == b
  {
    var s, t := ActionName(a), ActionName(b);
    assert s[0] == t[0] && s[1] == t[1] && s[2] == t[2] && |s| == |t|;
  }

  function FirstColon(key: string): nat {
    if key == "" || key[0] == ':' then 0 else 1 + FirstColon(key[1..])
  }

  lemma {:induction false} FirstColonAfterName(name: string, id: string)
    requires ':' !in name
    ensures FirstColon(name + ":" + id) == |name|
  {
    if name != "" {
      assert (name + ":" + id)[1..] == name[1..] + ":" + id;
      FirstColonAfterName(name[1..], id);
    }
  }

  /** No two callers, and no two actions of one caller, share a bucket. */
  lemma KeysDoNotCollide(a: LimitedAction, id: string, b: LimitedAction, jd: string)
    ensures KeyOf(a, id) == KeyOf(b, jd) <==> a == b && id == jd
  {
    if KeyOf(a, id) == KeyOf(b, jd) {
      var s, t, key := ActionName(a), ActionName(b), KeyOf(a, id);
      NoColonInNames(a);
      NoColonInNames(b);
      FirstColonAfterName(s, id);
      FirstColonAfterName(t, jd);
      assert s == key[..|s|] && t == key[..|t|];
      assert id == key[|s| + 1..] && jd == key[|t| + 1..];
      NamesAreDistinct(a, b);
    }
  }

  /** One event of the table is one event, or none, of the bucket. */
  lemma EventProjects(
      table: Table, event: TableEvent, action: LimitedAction, bucketId: string, settings: Settings, maxAge: Micros)
    requires ValidSettings(settings)
    ensures var (table', answer) := ApplyToTable(Postgres, table, event, settings, maxAge);
            var row, row' := Lookup(table, KeyOf(action, bucketId)), Lookup(table', KeyOf(action, bucketId));
            match event
            case Check(a, id, r) =>
              if a == action && id == bucketId
              then (row', answer) == RateBound.Apply(row, RateBound.TakeAt(r.now), ConfigFor(settings, action), maxAge)
              else row' == row
            case Clean(at, _) =>
              (row', answer) == RateBound.Apply(row, RateBound.CleanupAt(at), ConfigFor(settings, action), maxAge)
  {
    hide KeyOf, ConfigFor, ActionName;
    if event.Check? { KeysDoNotCollide(event.action, event.bucketId, action, bucketId); }
  }

  lemma SqliteEventProjects(
      table: Table, event: TableEvent, action: LimitedAction, bucketId: string, settings: Settings, maxAge: Micros)
    requires ValidSettings(settings)
    ensures var (table', answer) := ApplyToTable(Sqlite, table, event, settings, maxAge);
            var key := KeyOf(action, bucketId);
            var row, row' := Lookup(table, key), Lookup(table', key);
            match event
            case Check(a, id, r) =>
              if a == action && id == bucketId
              then (row', answer) == SqliteRateBound.Apply(row, SqliteRateBound.Take(r),
                                      ConfigFor(settings, action), maxAge)
              else row' == row
            case Clean(at, spares) =>
              (row', answer) == SqliteRateBound.Apply(row, SqliteRateBound.Cleanup(at, key in spares),
                                 ConfigFor(settings, action), maxAge)
  {
    hide KeyOf, ConfigFor, ActionName;
    if event.Check? { KeysDoNotCollide(event.action, event.bucketId, action, bucketId); }
  }

  /** The first event and the rest of a history. */
  lemma AdmittedToStep(backend: Backend, table: Table, events: seq<TableEvent>, action: LimitedAction, bucketId: string,
                       from: Micros, to: Micros, settings: Settings, maxAge: Micros)
    requires ValidSettings(settings) && events != []
    ensures var (next, answer) := ApplyToTable(backend, table, events[0], settings, maxAge);
            AdmittedTo(backend, table, events, action, bucketId, from, to, settings, maxAge) ==
            (if && events[0].Check? && events[0].action == action && events[0].bucketId == bucketId
                && answer.Allowed? && from <= events[0].Time() <= to then 1 else 0)
            + AdmittedTo(backend, next, events[1..], action, bucketId, from, to, settings, maxAge)
  {
    hide ApplyToTable;
  }

  /** The other buckets do not matter: the table treats a caller as a private bucket would. */
  lemma {:induction false} TableProjects(table: Table, events: seq<TableEvent>, action: LimitedAction, bucketId: string,
                                         from: Micros, to: Micros, settings: Settings, maxAge: Micros)
    requires ValidSettings(settings)
    ensures AdmittedTo(Postgres, table, events, action, bucketId, from, to, settings, maxAge)
         == RateBound.Admitted(Lookup(table, KeyOf(action, bucketId)), Projection(events, action, bucketId),
                               from, to, ConfigFor(settings, action), maxAge)
    decreases |events|
  {
    if events != [] {
      hide ApplyToTable, AdmittedTo, RateBound.Apply, RateBound.Admitted, KeyOf, ConfigFor, Lookup;
      var next := ApplyToTable(Postgres, table, events[0], settings, maxAge).0;
      var row := Lookup(table, KeyOf(action, bucketId));
      var rest := Projection(events[1..], action, bucketId);
      AdmittedToStep(Postgres, table, events, action, bucketId, from, to, settings, maxAge);
      EventProjects(table, events[0], action, bucketId, settings, maxAge);
      TableProjects(next, events[1..], action, bucketId, from, to, settings, maxAge);
      match events[0]
      case Check(_, _, r) =>
        RateBound.AdmittedCons(row, RateBound.TakeAt(r.now), rest, from, to, ConfigFor(settings, action), maxAge);
      case Clean(at, _) =>
        RateBound.AdmittedCons(row, RateBound.CleanupAt(at), rest, from, to, ConfigFor(settings, action), maxAge);
    }
  }

  lemma {:induction false} SqliteTableProjects(
      table: Table, events: seq<TableEvent>, action: LimitedAction, bucketId: string,
                                               from: Micros, to: Micros, settings: Settings, maxAge: Micros)
    requires ValidSettings(settings)
    ensures AdmittedTo(Sqlite, table, events, action, bucketId, from, to, settings, maxAge)
         == SqliteRateBound.Admitted(Lookup(table, KeyOf(action, bucketId)), SqliteProjection(events, action, bucketId),
                                     from, to, ConfigFor(settings, action), maxAge)
    decreases |events|
  {
    if events != [] {
      hide ApplyToTable, AdmittedTo, SqliteRateBound.Apply, SqliteRateBound.Admitted, KeyOf, ConfigFor, Lookup;
      var next := ApplyToTable(Sqlite, table, events[0], settings, maxAge).0;
      var key, cfg := KeyOf(action, bucketId), ConfigFor(settings, action);
      var row := Lookup(table, key);
      var rest := SqliteProjection(events[1..], action, bucketId);
      AdmittedToStep(Sqlite, table, events, action, bucketId, from, to, settings, maxAge);
      SqliteEventProjects(table, events[0], action, bucketId, settings, maxAge);
      SqliteTableProjects(next, events[1..], action, bucketId, from, to, settings, maxAge);
      match events[0]
      case Check(_, _, r) => SqliteRateBound.AdmittedCons(row, SqliteRateBound.Take(r), rest, from, to, cfg, maxAge);
      case Clean(at, spares) =>
        SqliteRateBound.AdmittedCons(row, SqliteRateBound.Cleanup(at, key in spares), rest, from, to, cfg, maxAge);
    }
  }

  lemma {:induction false} ProjectionInOrder(events: seq<TableEvent>, action: LimitedAction, bucketId: string)
    requires TableInOrder(events)
    ensures RateBound.InOrder(Projection(events, action, bucketId))
    ensures events != [] ==> forall i :: 0 <= i < |Projection(events, action, bucketId)| ==>
              events[0].Time() <= Projection(events, action, bucketId)[i].at
    decreases |events|
  {
    if events != [] {
      ProjectionInOrder(events[1..], action, bucketId);
      if |events| > 1 { assert events[0].Time() <= events[1..][0].Time(); }
      assert events[1..] == [] ==> Projection(events[1..], action, bucketId) == [];
    }
  }

  lemma {:induction false} SqliteProjectionInOrder(
      events: seq<TableEvent>, action: LimitedAction, bucketId: string, limit: SqliteBucket.Extra)
    requires TableInOrder(events) && Measured(events, limit)
    ensures SqliteRateBound.InOrder(SqliteProjection(events, action, bucketId), limit)
    ensures events != [] ==> forall i :: 0 <= i < |SqliteProjection(events, action, bucketId)| ==>
              events[0].Time() <= SqliteProjection(events, action, bucketId)[i].Time()
    decreases |events|
  {
    if events != [] {
      SqliteProjectionInOrder(events[1..], action, bucketId, limit);
      if |events| > 1 { assert events[0].Time() <= events[1..][0].Time(); }
      assert events[1..] == [] ==> SqliteProjection(events[1..], action, bucketId) == [];
    }
  }

  /** The guarantee to operators: whatever other traffic and cleanups are interleaved, a caller is
      admitted within the configured rate, if rows outlive the time of a full refill. */
  lemma EveryCallerIsRateBounded(events: seq<TableEvent>, action: LimitedAction, bucketId: string,
                                 from: Micros, to: Micros, settings: Settings, days: nat)
    requires ValidSettings(settings) && TableInOrder(events) && from <= to
    requires var cfg := if action in settings then settings[action] else DefaultConfig(action);
             cfg.burst >= 1 && days * 86_400 * SECOND + 1 >= cfg.burst * cfg.rate
    ensures var cfg := if action in settings then settings[action] else DefaultConfig(action);
            AdmittedTo(Postgres, map[], events, action, bucketId, from, to, settings, days * 86_400 * SECOND)
            <= cfg.burst + 1 + (to - from) / cfg.rate
  {
    var cfg := ConfigFor(settings, action);
    TableProjects(map[], events, action, bucketId, from, to, settings, MaxAge(days));
    ProjectionInOrder(events, action, bucketId);
    RateBound.RateBoundSurvivesCleanup(cfg, MaxAge(days));
    assert RateBound.RateBounded(Projection(events, action, bucketId), from, to, cfg, MaxAge(days));
  }

  /** The same on SQLite, for intervals of whole milliseconds, in a window longer by its errors. */
  lemma EverySqliteCallerIsRateBounded(
      events: seq<TableEvent>, action: LimitedAction, bucketId: string, limit: SqliteBucket.Extra,
                                       from: Micros, to: Micros, settings: Settings, days: nat)
    requires ValidSettings(settings) && TableInOrder(events) && Measured(events, limit) && from <= to
    requires var cfg := if action in settings then settings[action] else DefaultConfig(action);
             cfg.burst >= 1 && SqliteBucket.WholeMillis(cfg) && days * 86_400 * SECOND + 1 >= cfg.burst * cfg.rate
    ensures var cfg := if action in settings then settings[action] else DefaultConfig(action);
            AdmittedTo(Sqlite, map[], events, action, bucketId, from, to, settings, days * 86_400 * SECOND)
            <= cfg.burst + 1 + (to - from + 3000 + 2 * limit) / cfg.rate
  {
    var cfg := ConfigFor(settings, action);
    SqliteTableProjects(map[], events, action, bucketId, from, to, settings, MaxAge(days));
    SqliteProjectionInOrder(events, action, bucketId, limit);
    SqliteRateBound.SqliteRateBoundSurvivesCleanup(limit, cfg, MaxAge(days));
  }

  /** The shipped limits are safe for every retention of at least one day, and for none of less, on
      either backend. */
  lemma DefaultsSurviveCleanup(action: LimitedAction, days: nat, limit: SqliteBucket.Extra)
    ensures RateBound.AlwaysBounded(DefaultConfig(action), MaxAge(days)) <==> days >= 1
    ensures SqliteRateBound.AlwaysBounded(limit, DefaultConfig(action), MaxAge(days)) <==> days >= 1
  {
    RateBound.RateBoundSurvivesCleanup(DefaultConfig(action), MaxAge(days));
    SqliteRateBound.SqliteRateBoundSurvivesCleanup(limit, DefaultConfig(action), MaxAge(days));
  }

  /** The shipped burst of an action, and the requests a minute its interval allows. */
  function ShippedBurst(action: LimitedAction): nat {
    match action
    case ApiRequest => 10
    case LoginAttempt => 5
    case PasswordReset => 3
    case FileUpload => 5
    case FormSubmission => 10
    case OAuthAuthorize => 5
    case OAuthCallback => 5
    case TokenCreation => 3
    case PublicApiRead => 60
  }

  function ShippedPerMinute(action: LimitedAction): nat {
    match action
    case ApiRequest => 60
    case LoginAttempt => 12
    case PasswordReset => 1
    case FileUpload => 6
    case FormSubmission => 2
    case OAuthAuthorize => 12
    case OAuthCallback => 12
    case TokenCreation => 6
    case PublicApiRead => 60
  }

  lemma ShippedNumbers(action: LimitedAction)
    ensures var cfg := DefaultConfig(action);
            cfg.Valid() && cfg.burst == ShippedBurst(action) >= 1 && ShippedPerMinute(action) * cfg.rate == 60 * SECOND
  {
  }

  /** What the shipped limits allow where none is configured: so many requests at once to a new caller, and
      one more after each of so many equal parts of a minute. */
  lemma ShippedLimits(action: LimitedAction, settings: Settings, n: nat)
    requires ValidSettings(settings) && action !in settings
    ensures var cfg := ConfigFor(settings, action);
            && CountAllowed(Run(None, DeniedTakes.AtOnce(0, n), cfg).1) == Min(n, ShippedBurst(action))
            && ShippedPerMinute(action) * cfg.rate == 60 * SECOND
  {
    ShippedNumbers(action);
    hide DefaultConfig, ShippedBurst, ShippedPerMinute;
    DeniedTakes.BurstAtOnce(0, n, DefaultConfig(action));
  }

  lemma DefaultsAreWholeSeconds(action: LimitedAction)
    ensures var cfg := DefaultConfig(action);
            && cfg.Valid() && cfg.burst >= 1 && SqliteBucket.WholeMillis(cfg)
            && cfg.rate >= SECOND && cfg.rate % DeniedTakes.MICROS_PER_SECOND == 0
  {
  }

  /** Retrying after the header is enough for every shipped limit on PostgreSQL, and for none on SQLite. */
  lemma ShippedRetries(action: LimitedAction, limit: SqliteBucket.Extra)
    ensures DeniedTakes.HeaderSuffices(DefaultConfig(action))
    ensures var header := DeniedTakes.RetryAfterSeconds(DefaultConfig(action)) * SECOND;
            !SqliteDeniedTakes.WaitSuffices(header, limit, DefaultConfig(action))
  {
    DefaultsAreWholeSeconds(action);
    hide DefaultConfig, DeniedTakes.HeaderSuffices, SqliteDeniedTakes.WaitSuffices, DeniedTakes.RetryAfterSeconds;
    DeniedTakes.HeaderSufficesExactlyForWholeSeconds(DefaultConfig(action));
    SqliteDeniedTakes.HeaderSufficesOnlyForShortIntervals(limit, DefaultConfig(action));
  }
}
