/** The check form: what editing shows, and what submitting accepts. */
module CheckForms {
  import opened Models
  import opened Options
  import opened Whitespace
  import opened Duration

  const MAX_DESCRIPTION_CHARS: nat := 2000

  /** Everything is text. */
  datatype Form = Form(
    name: string,
    description: string,
    scheduleKind: string,
    periodSecs: string,
    cronExpr: string,
    graceSecs: string,
    timezone: string,
    scanIntervalSecs: string,
    maxRuntimeSecs: string,
    nagIntervalSecs: string)

  /** The editable part of a check. */
  datatype Settings = Settings(
    name: string,
    description: string,
    kind: ScheduleKind,
    periodSecs: Option<int>,
    grace: int,
    cronExpr: Option<string>,
    timezone: string,
    scanIntervalSecs: Option<int>,
    maxRuntimeSecs: Option<int>,
    nagIntervalSecs: Option<int>)

  datatype Refusal =
    | NameRequired | DescriptionTooLong | BadGrace | NegativeGrace | BadKind
    | PeriodRequired | BadPeriod | CronRequired | BadCron | UnknownTimezone
    | BadScanInterval | BadMaxRuntime | BadNagInterval

  /** The cron and time-zone libraries: which expressions parse, and a zone's own name. */
  datatype Libraries = Libraries(cronOk: string -> bool, zoneName: string -> Option<string>) {
    /** A zone's own name is trimmed, not blank, and names that zone; `UTC` is one. */
    ghost predicate Valid() {
      && (forall s :: zoneName(s).Some? ==>
            var n := zoneName(s).value; n != "" && Trimmed(n) && zoneName(n) == Some(n))
      && zoneName("UTC") == Some("UTC")
    }
  }

  // ----- submitting -----

  function ParseOptPositive(s: string, e: Refusal): Result<Option<int>, Refusal> {
    var t := Trim(s);
    if t == "" then Ok(None)
    else
      match Parsed(t)
      case Some(v) => if v > 0 then Ok(Some(v)) else Err(e)
      case None => Err(e)
  }

  function ParseKind(s: string): Option<ScheduleKind> {
    if s == "period" then Some(Period) else if s == "cron" then Some(Cron) else None
  }

  function ValidateTimezone(lib: Libraries, raw: string): Option<string> {
    var tz := Trim(raw);
    if tz == "" then Some("UTC") else lib.zoneName(tz)
  }

  function ValidateSchedule(lib: Libraries, kind: ScheduleKind, period: string, cron: string): Result<(Option<int>, Option<string>), Refusal> {
    match kind
    case Period =>
      if Trim(period) == "" then Err(PeriodRequired)
      else
        (match Parsed(period)
         case None => Err(BadPeriod)
         case Some(v) => if v <= 0 then Err(BadPeriod) else Ok((Some(v), None)))
    case Cron =>
      var expr := Trim(cron);
      if expr == "" then Err(CronRequired)
      else if !lib.cronOk(expr) then Err(BadCron)
      else Ok((None, Some(expr)))
  }

  function ValidateCheck(lib: Libraries, f: Form): Result<Settings, Refusal> {
    var name, description := Trim(f.name), Trim(f.description);
    if name == "" then Err(NameRequired)
    else if |description| > MAX_DESCRIPTION_CHARS then Err(DescriptionTooLong)
    else
      match Parsed(f.graceSecs)
      case None => Err(BadGrace)
      case Some(grace) =>
        if grace < 0 then Err(NegativeGrace)
        else
          match ParseKind(f.scheduleKind)
          case None => Err(BadKind)
          case Some(kind) =>
            match ValidateSchedule(lib, kind, f.periodSecs, f.cronExpr)
            case Err(e) => Err(e)
            case Ok((period, cron)) =>
              match ValidateTimezone(lib, f.timezone)
              case None => Err(UnknownTimezone)
              case Some(tz) =>
                match ParseOptPositive(f.scanIntervalSecs, BadScanInterval)
                case Err(e) => Err(e)
                case Ok(scan) =>
                  match ParseOptPositive(f.maxRuntimeSecs, BadMaxRuntime)
                  case Err(e) => Err(e)
                  case Ok(runtime) =>
                    match ParseOptPositive(f.nagIntervalSecs, BadNagInterval)
                    case Err(e) => Err(e)
                    case Ok(nag) =>
                      Ok(Settings(name, description, kind, period, grace, cron, tz, scan, runtime, nag))
  }

  // ----- editing -----

  function OptText(v: Option<int>): string {
    if v.Some? then Formatted(v.value) else ""
  }

  function KindText(k: ScheduleKind): string {
    match k case Period => "period" case Cron => "cron"
  }

  /** The form an unchanged check is edited in. */
  function EditForm(c: Settings): Form {
    Form(c.name, c.description, KindText(c.kind), OptText(c.periodSecs),
         if c.cronExpr.Some? then c.cronExpr.value else "",
         Formatted(c.grace), c.timezone,
         OptText(c.scanIntervalSecs), OptText(c.maxRuntimeSecs), OptText(c.nagIntervalSecs))
  }

  // ----- resubmitting an unchanged form -----

  predicate OptPositive(v: Option<int>) {
    v.Some? ==> 0 < v.value <= I64_MAX
  }

  predicate NormalText(c: Settings) {
    && c.name != "" && Trimmed(c.name)
    && Trimmed(c.description) && |c.description| <= MAX_DESCRIPTION_CHARS
    && 0 <= c.grace <= I64_MAX
  }

  /** One kind of schedule, and nothing left over from the other. */
  predicate NormalSchedule(lib: Libraries, c: Settings) {
    match c.kind
    case Period => c.periodSecs.Some? && OptPositive(c.periodSecs) && c.cronExpr.None?
    case Cron => c.periodSecs.None? && c.cronExpr.Some? && c.cronExpr.value != ""
                 && Trimmed(c.cronExpr.value) && lib.cronOk(c.cronExpr.value)
  }

  /** What a stored check must look like to survive being saved unchanged. */
  predicate Normal(lib: Libraries, c: Settings) {
    && NormalText(c)
    && NormalSchedule(lib, c)
    && c.timezone != "" && Trimmed(c.timezone) && lib.zoneName(c.timezone) == Some(c.timezone)
    && OptPositive(c.scanIntervalSecs) && OptPositive(c.maxRuntimeSecs) && OptPositive(c.nagIntervalSecs)
  }

  /** Stored numbers are 64-bit. */
  predicate Stored64(c: Settings) {
    Fits64(c.grace) && Opt64(c.periodSecs) && Opt64(c.scanIntervalSecs) && Opt64(c.maxRuntimeSecs) && Opt64(c.nagIntervalSecs)
  }

  predicate Fits64(v: int) {
    -I64_MAX - 1 <= v <= I64_MAX
  }

  predicate Opt64(v: Option<int>) {
    v.Some? ==> Fits64(v.value)
  }

  lemma CleanIsTrimmed(s: string)
    requires IsClean(s)
    ensures Trim(s) == s
  {
  }

  /** An optional duration survives exactly when it is absent or positive. */
  lemma OptTextParses(v: Option<int>, e: Refusal)
    requires Opt64(v)
    ensures ParseOptPositive(OptText(v), e) == Ok(v) <==> OptPositive(v)
  {
    if v.Some? {
      FormattedIsClean(v.value);
      CleanIsTrimmed(OptText(v));
      if v.value >= 0 { FormatRoundTrip(v.value); } else { NegativeFormats(v.value); }
    } else {
      TrimIff("");
    }
  }

  lemma GraceParses(g: int)
    requires Fits64(g)
    ensures Parsed(Formatted(g)) == Some(if g < 0 then 0 else g)
  {
    if g >= 0 { FormatRoundTrip(g); } else { NegativeFormats(g); }
  }

  lemma ScheduleParses(lib: Libraries, c: Settings)
    requires Opt64(c.periodSecs)
    ensures var f := EditForm(c);
            ValidateSchedule(lib, c.kind, f.periodSecs, f.cronExpr) == Ok((c.periodSecs, c.cronExpr)) <==>
              NormalSchedule(lib, c)
  {
    TrimIff(EditForm(c).cronExpr);
    if c.periodSecs.Some? {
      FormattedIsClean(c.periodSecs.value);
      CleanIsTrimmed(OptText(c.periodSecs));
      GraceParses(c.periodSecs.value);
    } else {
      TrimIff("");
    }
  }

  lemma TimezoneParses(lib: Libraries, tz: string)
    requires lib.Valid()
    ensures ValidateTimezone(lib, tz) == Some(tz) <==> tz != "" && Trimmed(tz) && lib.zoneName(tz) == Some(tz)
  {
  }

  ghost predicate StoresText(f: Form, c: Settings) {
    && Trim(f.name) == c.name && c.name != ""
    && Trim(f.description) == c.description && |c.description| <= MAX_DESCRIPTION_CHARS
    && Parsed(f.graceSecs) == Some(c.grace) && c.grace >= 0
  }

  /** The accepted forms and what they store, field by field. */
  ghost predicate Stores(lib: Libraries, f: Form, c: Settings) {
    && StoresText(f, c)
    && ParseKind(f.scheduleKind) == Some(c.kind)
    && ValidateSchedule(lib, c.kind, f.periodSecs, f.cronExpr) == Ok((c.periodSecs, c.cronExpr))
    && ValidateTimezone(lib, f.timezone) == Some(c.timezone)
    && ParseOptPositive(f.scanIntervalSecs, BadScanInterval) == Ok(c.scanIntervalSecs)
    && ParseOptPositive(f.maxRuntimeSecs, BadMaxRuntime) == Ok(c.maxRuntimeSecs)
    && ParseOptPositive(f.nagIntervalSecs, BadNagInterval) == Ok(c.nagIntervalSecs)
  }

  lemma StoresIff(lib: Libraries, f: Form, c: Settings)
    ensures ValidateCheck(lib, f) == Ok(c) <==> Stores(lib, f, c)
  {
  }

  /** Blank means none; anything else must be a duration of at least a second. */
  predicate ReadsOptional(text: string, v: Option<int>) {
    if Trim(text) == "" then v.None? else v.Some? && v.value > 0 && Parsed(Trim(text)) == v
  }

  lemma ReadsOptionalIff(text: string, e: Refusal, v: Option<int>)
    ensures ParseOptPositive(text, e) == Ok(v) <==> ReadsOptional(text, v)
  {
  }

  /** A check of one kind asks for that kind's field only, and drops what is in the other. */
  predicate ReadsSchedule(lib: Libraries, f: Form, c: Settings) {
    match c.kind
    case Period =>
      && f.scheduleKind == "period" && Trim(f.periodSecs) != ""
      && c.periodSecs.Some? && c.periodSecs.value > 0 && Parsed(f.periodSecs) == c.periodSecs && c.cronExpr.None?
    case Cron =>
      && f.scheduleKind == "cron" && Trim(f.cronExpr) != ""
      && c.cronExpr == Some(Trim(f.cronExpr)) && lib.cronOk(Trim(f.cronExpr)) && c.periodSecs.None?
  }

  /**
   The forms that are accepted, and the check each stores, field by field: trimmed texts, a name, a
   description of at most 2000 characters, durations as they parse, no negative grace, UTC for a
   blank zone and otherwise the zone's own name.
   */
  lemma AcceptedIff(lib: Libraries, f: Form, c: Settings)
    ensures ValidateCheck(lib, f) == Ok(c) <==>
              && c.name == Trim(f.name) && c.name != ""
              && c.description == Trim(f.description) && |c.description| <= 2000
              && Parsed(f.graceSecs) == Some(c.grace) && c.grace >= 0
              && ReadsSchedule(lib, f, c)
              && Some(c.timezone) == (if Trim(f.timezone) == "" then Some("UTC") else lib.zoneName(Trim(f.timezone)))
              && ReadsOptional(f.scanIntervalSecs, c.scanIntervalSecs)
              && ReadsOptional(f.maxRuntimeSecs, c.maxRuntimeSecs)
              && ReadsOptional(f.nagIntervalSecs, c.nagIntervalSecs)
  {
    StoresIff(lib, f, c);
    ReadsOptionalIff(f.scanIntervalSecs, BadScanInterval, c.scanIntervalSecs);
    ReadsOptionalIff(f.maxRuntimeSecs, BadMaxRuntime, c.maxRuntimeSecs);
    ReadsOptionalIff(f.nagIntervalSecs, BadNagInterval, c.nagIntervalSecs);
    ReadsScheduleIff(lib, f, c);
  }

  lemma ReadsScheduleIff(lib: Libraries, f: Form, c: Settings)
    ensures ReadsSchedule(lib, f, c) <==>
              && ParseKind(f.scheduleKind) == Some(c.kind)
              && ValidateSchedule(lib, c.kind, f.periodSecs, f.cronExpr) == Ok((c.periodSecs, c.cronExpr))
  {
  }

  lemma TextEditIff(c: Settings)
    requires Fits64(c.grace)
    ensures StoresText(EditForm(c), c) <==> NormalText(c)
  {
    TrimIff(c.name);
    TrimIff(c.description);
    GraceParses(c.grace);
  }

  lemma KindParses(k: ScheduleKind)
    ensures ParseKind(KindText(k)) == Some(k)
  {
  }

  lemma StoresEditIff(lib: Libraries, c: Settings)
    requires lib.Valid() && Stored64(c)
    ensures Stores(lib, EditForm(c), c) <==> Normal(lib, c)
  {
    TextEditIff(c);
    KindParses(c.kind);
    ScheduleParses(lib, c);
    TimezoneParses(lib, c.timezone);
    OptTextParses(c.scanIntervalSecs, BadScanInterval);
    OptTextParses(c.maxRuntimeSecs, BadMaxRuntime);
    OptTextParses(c.nagIntervalSecs, BadNagInterval);
  }

  /** Saving an unchanged edit form stores the same check if and only if the stored check is normal. */
  lemma ResubmitIff(lib: Libraries, c: Settings)
    requires lib.Valid() && Stored64(c)
    ensures ValidateCheck(lib, EditForm(c)) == Ok(c) <==> Normal(lib, c)
  {
    StoresIff(lib, EditForm(c), c);
    StoresEditIff(lib, c);
  }

  lemma OptPositiveParsed(s: string, e: Refusal, v: Option<int>)
    requires ParseOptPositive(s, e) == Ok(v)
    ensures OptPositive(v) && Opt64(v)
  {
  }

  lemma ScheduleParsed(lib: Libraries, kind: ScheduleKind, period: string, cron: string, p: Option<int>, e: Option<string>)
    requires ValidateSchedule(lib, kind, period, cron) == Ok((p, e))
    ensures match kind
            case Period => p.Some? && OptPositive(p) && e.None?
            case Cron => p.None? && e.Some? && e.value != "" && Trimmed(e.value) && lib.cronOk(e.value)
    ensures Opt64(p)
  {
    ParsedFits(period);
    TrimIff(cron);
  }

  /** Every accepted form stores a normal check. */
  lemma AcceptedIsNormal(lib: Libraries, f: Form, c: Settings)
    requires lib.Valid() && ValidateCheck(lib, f) == Ok(c)
    ensures Normal(lib, c) && Stored64(c)
  {
    StoresIff(lib, f, c);
    TrimIff(f.name);
    TrimIff(f.description);
    TrimIff(f.timezone);
    TrimIff("UTC");
    ParsedFits(f.graceSecs);
    ScheduleParsed(lib, c.kind, f.periodSecs, f.cronExpr, c.periodSecs, c.cronExpr);
    OptPositiveParsed(f.scanIntervalSecs, BadScanInterval, c.scanIntervalSecs);
    OptPositiveParsed(f.maxRuntimeSecs, BadMaxRuntime, c.maxRuntimeSecs);
    OptPositiveParsed(f.nagIntervalSecs, BadNagInterval, c.nagIntervalSecs);
  }

  /** So whatever was accepted once can be opened and saved unchanged for ever. */
  lemma ResubmitAccepted(lib: Libraries, f: Form)
    requires lib.Valid() && ValidateCheck(lib, f).Ok?
    ensures var c := ValidateCheck(lib, f).value; ValidateCheck(lib, EditForm(c)) == Ok(c)
  {
    AcceptedIsNormal(lib, f, ValidateCheck(lib, f).value);
    ResubmitIff(lib, ValidateCheck(lib, f).value);
  }
}
