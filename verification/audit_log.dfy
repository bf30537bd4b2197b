/** The system audit-log page: the action-type badge lookup, the filter form
    (a date range at second granularity, an exact module, an IP fragment),
    the module drop-down and the reset button. Log dates are parsed by dayjs,
    carried as a parameter returning epoch milliseconds or `None` for an
    invalid date; the range picker's ends are valid instants in
    milliseconds. */
module AuditLog {
  import opened Optional
  import opened Text
  import opened Seqs

  /** A badge: its `label` (here `text`, as `label` is reserved) and colour. */
  datatype ActionMeta = ActionMeta(text: string, color: string)

  /** `ACTION_TYPE_CONFIG`, keyed by upper-case action names. */
  const ActionTable: map<string, ActionMeta> := map[
    "CREATE" := ActionMeta("创建", "green"),
    "UPDATE" := ActionMeta("更新", "blue"),
    "DELETE" := ActionMeta("删除", "red"),
    "APPROVE" := ActionMeta("批准", "green"),
    "REJECT" := ActionMeta("拒绝", "volcano"),
    "EXPORT" := ActionMeta("导出", "purple"),
    "LOGIN" := ActionMeta("登录", "cyan"),
    "RESET_PASSWORD" := ActionMeta("重置密码", "orange"),
    "ENABLE" := ActionMeta("启用", "lime"),
    "DISABLE" := ActionMeta("停用", "magenta")
  ]

  /** `resolveActionMeta`: the table entry of the upper-cased action, or the
      action itself, as spelled, with the `default` colour. */
  function ResolveActionMeta(action: string): (r: ActionMeta)
    ensures Upper(action) in ActionTable ==> r in ActionTable.Values
    ensures Upper(action) !in ActionTable ==> r == ActionMeta(action, "default")
  {
    var key := Upper(action);
    if key in ActionTable then ActionTable[key] else ActionMeta(action, "default")
  }

  /** Every key of the table is written in upper case, so every entry is
      reached by its own name (and by any other spelling of it). */
  lemma ActionTableReachable()
    ensures forall k :: k in ActionTable ==> ResolveActionMeta(k) == ActionTable[k]
  {
    forall k | k in ActionTable ensures Upper(k) == k {
      UpperOfNoLower(k);
    }
  }

  /** The lookup ignores case: two spellings of the same word resolve to the
      same entry when the word is in the table. */
  lemma ResolveCaseInsensitive(a: string, b: string)
    requires Upper(a) == Upper(b) && Upper(a) in ActionTable
    ensures ResolveActionMeta(a) == ResolveActionMeta(b)
  {
  }

  /** Lower-casing an action does not change what it resolves to, unless it
      is unknown, in which case the label keeps the given spelling. */
  lemma ResolveLowered(a: string)
    ensures Upper(a) in ActionTable ==> ResolveActionMeta(Lower(a)) == ResolveActionMeta(a)
    ensures Upper(a) !in ActionTable ==> ResolveActionMeta(Lower(a)).text == Lower(a)
  {
    UpperOfLower(a);
  }

  datatype LogRecord = LogRecord(id: string, at: string, moduleName: string, action: string, operator: string, ip: string)

  /** The two ends of the range picker, either of which may be cleared. */
  datatype DateRange = DateRange(start: Option<int>, end: Option<int>)

  datatype LogFilters = LogFilters(dateRange: Option<DateRange>, moduleName: Option<string>, ip: Option<string>)

  /** `dayjs(s).valueOf()`, `None` for an invalid date. */
  type DayParser = string -> Option<int>

  /** dayjs's `startOf('second')` on epoch milliseconds. */
  function Second(ms: int): int {
    ms / 1000
  }

  /** `timestamp.isSame(start, 'second') || timestamp.isAfter(start)`; an
      invalid timestamp is neither. */
  predicate AfterStart(t: Option<int>, start: int) {
    t.Some? && (Second(t.value) == Second(start) || t.value > start)
  }

  /** `timestamp.isSame(end, 'second') || timestamp.isBefore(end)`. */
  predicate BeforeEnd(t: Option<int>, end: int) {
    t.Some? && (Second(t.value) == Second(end) || t.value < end)
  }

  /** The two comparisons amount to comparing whole seconds: the range is
      inclusive at second granularity. */
  lemma SecondGranularity(t: int, b: int)
    ensures AfterStart(Some(t), b) <==> Second(b) <= Second(t)
    ensures BeforeEnd(Some(t), b) <==> Second(t) <= Second(b)
  {
  }

  predicate InRange(parse: DayParser, r: DateRange, log: LogRecord) {
    && (r.start.Some? ==> AfterStart(parse(log.at), r.start.value))
    && (r.end.Some? ==> BeforeEnd(parse(log.at), r.end.value))
  }

  /** The range filter runs only when a range is present with at least one
      end. */
  predicate RangeActive(v: LogFilters) {
    v.dateRange.Some? && (v.dateRange.value.start.Some? || v.dateRange.value.end.Some?)
  }

  /** The three tests of `applyFilters`, each one applying only when its
      field is set. */
  predicate Passes(v: LogFilters, parse: DayParser, l: LogRecord) {
    && (RangeActive(v) ==> InRange(parse, v.dateRange.value, l))
    && (v.moduleName.Some? && v.moduleName.value != "" ==> l.moduleName == v.moduleName.value)
    && (v.ip.Some? && !IsBlank(v.ip.value) ==> Contains(l.ip, Trim(v.ip.value)))
  }

  /** `applyFilters`: the three filters applied one after another, each only
      when its field is set. Every copy of a passing log is kept, in order. */
  function ApplyFilters(logs: seq<LogRecord>, v: LogFilters, parse: DayParser): (r: seq<LogRecord>)
    ensures IsSubseq(r, logs)
    ensures forall l :: multiset(r)[l] == if Passes(v, parse, l) then multiset(logs)[l] else 0
  {
    var inRange := (l: LogRecord) => InRange(parse, v.dateRange.GetOr(DateRange(None, None)), l);
    var inModule := (l: LogRecord) => l.moduleName == v.moduleName.GetOr("");
    var hasIp := (l: LogRecord) => Contains(l.ip, Trim(v.ip.GetOr("")));
    var byDate := FilterWhen(RangeActive(v), logs, inRange);
    var byModule := FilterWhen(v.moduleName.Some? && v.moduleName.value != "", byDate, inModule);
    var byIp := FilterWhen(v.ip.Some? && !IsBlank(v.ip.value), byModule, hasIp);
    SubseqTransitive(byModule, byDate, logs);
    SubseqTransitive(byIp, byModule, logs);
    byIp
  }

  /** A log is shown exactly when its date is valid and inside every set end
      of the range (whole seconds, inclusive), its module equals the module
      filter if one is set, and its IP contains the trimmed IP filter if that
      is not blank. */
  lemma ApplyFiltersSpec(logs: seq<LogRecord>, v: LogFilters, parse: DayParser, log: LogRecord)
    ensures log in ApplyFilters(logs, v, parse) <==>
      && log in logs
      && (RangeActive(v) ==>
            && parse(log.at).Some?
            && (v.dateRange.value.start.Some? ==> Second(v.dateRange.value.start.value) <= Second(parse(log.at).value))
            && (v.dateRange.value.end.Some? ==> Second(parse(log.at).value) <= Second(v.dateRange.value.end.value)))
      && (v.moduleName.Some? && v.moduleName.value != "" ==> log.moduleName == v.moduleName.value)
      && (v.ip.Some? && !IsBlank(v.ip.value) ==> Contains(log.ip, Trim(v.ip.value)))
  {
    if RangeActive(v) && parse(log.at).Some? {
      var r := v.dateRange.value;
      if r.start.Some? {
        SecondGranularity(parse(log.at).value, r.start.value);
      }
      if r.end.Some? {
        SecondGranularity(parse(log.at).value, r.end.value);
      }
    }
  }

  /** `handleReset` applies empty filters, which show the whole log. */
  lemma ResetShowsAll(logs: seq<LogRecord>, parse: DayParser)
    ensures ApplyFilters(logs, LogFilters(None, None, None), parse) == logs
  {
  }

  /** A drop-down option; `text` is the source's `label`. */
  datatype SelectOption = SelectOption(text: string, value: string)

  function LogModules(logs: seq<LogRecord>): seq<string> {
    MapSeq(logs, (l: LogRecord) => l.moduleName)
  }

  /** One option per value, labelled with the value itself. */
  function Options(ms: seq<string>): (r: seq<SelectOption>)
    ensures |r| == |ms| && forall i :: 0 <= i < |ms| ==> r[i] == SelectOption(ms[i], ms[i])
  {
    seq(|ms|, i requires 0 <= i < |ms| => SelectOption(ms[i], ms[i]))
  }

  /** `moduleOptions`: one option per distinct module, in order of first
      appearance, labelled with the module itself. */
  function ModuleOptions(logs: seq<LogRecord>): (r: seq<SelectOption>)
    ensures |r| == |Distinct(LogModules(logs))|
    ensures forall i :: 0 <= i < |r| ==> r[i].text == r[i].value
    ensures forall m :: m in LogModules(logs) <==> exists i :: 0 <= i < |r| && r[i].value == m
    ensures forall i, j :: 0 <= i < j < |r| ==> r[i].value != r[j].value
    ensures forall i :: 0 <= i < |r| ==> r[i].value in LogModules(logs)
    ensures forall i, j :: 0 <= i < j < |r| ==>
      FirstIndex(LogModules(logs), r[i].value) < FirstIndex(LogModules(logs), r[j].value)
  {
    var ms := Distinct(LogModules(logs));
    var r := Options(ms);
    forall m | m in LogModules(logs) ensures exists i :: 0 <= i < |r| && r[i].value == m {
      var i :| 0 <= i < |ms| && ms[i] == m;
      assert r[i].value == m;
    }
    forall i | 0 <= i < |r| ensures r[i].value in LogModules(logs) {
      assert ms[i] in ms;
    }
    r
  }
}
