/** The admin audit centre: a fixed list of audit entries narrowed by an
    optional time window, a module and an IP fragment, with the module
    drop-down listing every module once. Timestamps are parsed by the host's
    `Date`, which is carried as a parameter: `None` stands for the `NaN` an
    unparsable string yields. */
module AuditCenter {
  import opened Optional
  import opened Text
  import opened Seqs

  datatype Outcome = Succeeded | Failed

  datatype AuditEntry = AuditEntry(
    id: string,
    timestamp: string,
    moduleName: string,
    action: string,
    operator: string,
    ip: string,
    result: Outcome,
    detail: string)

  /** The filter form; every field may be unset. */
  datatype Filters = Filters(from: Option<string>, to: Option<string>, moduleName: Option<string>, ip: Option<string>)

  /** `new Date(s).getTime()` in milliseconds, `None` for `NaN`. */
  type DateParser = string -> Option<int>

  /** `filters.from ? new Date(filters.from).getTime() : NaN`: an unset or
      empty field gives no bound, and so does one that does not parse. */
  function Bound(field: Option<string>, parse: DateParser): (r: Option<int>)
    ensures r.Some? <==> field.Some? && field.value != "" && parse(field.value).Some?
  {
    if field.Some? && field.value != "" then parse(field.value) else None
  }

  /** `filters.module?.trim()` read for truthiness: the trimmed text when it
      is non-empty. */
  function ActiveText(field: Option<string>): (r: Option<string>)
    ensures r.Some? <==> field.Some? && !IsBlank(field.value)
  {
    if field.Some? && !IsBlank(field.value) then Some(Trim(field.value)) else None
  }

  /** The callback of `auditLogSamples.filter`, as its chain of early
      returns. Comparisons with `NaN` are false, so an entry whose timestamp
      does not parse is never rejected by a bound. */
  predicate Keep(f: Filters, parse: DateParser, e: AuditEntry) {
    var t := parse(e.timestamp);
    var lo := Bound(f.from, parse);
    var hi := Bound(f.to, parse);
    var m := ActiveText(f.moduleName);
    var ip := ActiveText(f.ip);
    if lo.Some? && t.Some? && t.value < lo.value then false
    else if hi.Some? && t.Some? && t.value > hi.value then false
    else if m.Some? && e.moduleName != m.value then false
    else if ip.Some? && !Contains(e.ip, ip.value) then false
    else true
  }

  /** `filteredLogs`. */
  function FilteredLogs(logs: seq<AuditEntry>, f: Filters, parse: DateParser): (r: seq<AuditEntry>)
    ensures IsSubseq(r, logs)
    ensures forall e :: e in r <==> e in logs && Keep(f, parse, e)
    ensures forall e :: multiset(r)[e] == if Keep(f, parse, e) then multiset(logs)[e] else 0
  {
    var p := (e: AuditEntry) => Keep(f, parse, e);
    FilterSubseq(logs, p);
    FilterMultiset(logs, p);
    Filter(logs, p)
  }

  /** The entry lies in the window: both bounds inclusive, an unset bound
      ignored, an unparsable timestamp let through. */
  predicate InWindow(f: Filters, parse: DateParser, e: AuditEntry) {
    var t := parse(e.timestamp);
    t.None? ||
      (&& (Bound(f.from, parse).Some? ==> Bound(f.from, parse).value <= t.value)
       && (Bound(f.to, parse).Some? ==> t.value <= Bound(f.to, parse).value))
  }

  /** An entry is shown exactly when it is in the window, its module equals
      the trimmed module filter if there is one, and its IP contains the
      trimmed IP filter if there is one. */
  lemma FilteredLogsSpec(logs: seq<AuditEntry>, f: Filters, parse: DateParser, e: AuditEntry)
    ensures e in FilteredLogs(logs, f, parse) <==>
      && e in logs
      && InWindow(f, parse, e)
      && (ActiveText(f.moduleName).Some? ==> e.moduleName == Trim(f.moduleName.value))
      && (ActiveText(f.ip).Some? ==> Contains(e.ip, Trim(f.ip.value)))
  {
  }

  /** No filter set (or only blank module and IP text): every entry is shown,
      in its original order. */
  lemma EmptyFiltersShowAll(logs: seq<AuditEntry>, f: Filters, parse: DateParser)
    requires Bound(f.from, parse).None? && Bound(f.to, parse).None?
    requires f.moduleName.None? || IsBlank(f.moduleName.value)
    requires f.ip.None? || IsBlank(f.ip.value)
    ensures FilteredLogs(logs, f, parse) == logs
  {
    FilterKeepsAll(logs, (e: AuditEntry) => Keep(f, parse, e));
  }

  function Modules(logs: seq<AuditEntry>): seq<string> {
    MapSeq(logs, (e: AuditEntry) => e.moduleName)
  }

  /** `moduleOptions`: every module of the log once, in order of first
      appearance. */
  function ModuleOptions(logs: seq<AuditEntry>): (r: seq<string>)
    ensures forall m :: m in r <==> m in Modules(logs)
    ensures NoDup(r)
    ensures forall i, j :: 0 <= i < j < |r| ==> FirstIndex(Modules(logs), r[i]) < FirstIndex(Modules(logs), r[j])
  {
    Distinct(Modules(logs))
  }
}
