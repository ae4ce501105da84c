/**
 `ErrorManager`: the registry of active errors, the bounded error history,
 the message templates, the notifications for user-facing severities, the
 summary counts and the per-component status table. Qt signals are
 returned as values; logging is left out.
 */
module ErrorRegistry {
  import opened Basics

  datatype Severity = Info | Warning | Error | Critical
  datatype Category = Network | Media | FileTransfer | Authentication | Device | System | UserInput

  /** `ErrorSeverity.value`. */
  function SeverityValue(s: Severity): string {
    match s
    case Info => "info"
    case Warning => "warning"
    case Error => "error"
    case Critical => "critical"
  }

  /** `ErrorCategory.value.title()`: each underscore-separated word capitalised. */
  function CategoryTitle(c: Category): string {
    match c
    case Network => "Network"
    case Media => "Media"
    case FileTransfer => "File_Transfer"
    case Authentication => "Authentication"
    case Device => "Device"
    case System => "System"
    case UserInput => "User_Input"
  }

  const AllCategories: seq<Category> := [Network, Media, FileTransfer, Authentication, Device, System, UserInput]
  const AllSeverities: seq<Severity> := [Info, Warning, Error, Critical]

  const MaxHistorySize: nat := 100

  /**
   An error id, `err_<counter>_<seconds>`. The two numbers are kept apart:
   the text format renders distinct pairs as distinct strings, since
   decimal digits contain no underscore.
   */
  datatype ErrorId = ErrorId(counter: nat, seconds: int)

  /** The title, message, suggested action and retry flag of one kind of error. */
  datatype Template = Template(title: string, message: string, userAction: string, autoRetry: bool)

  /** `ErrorReport`; `context` is left out. */
  datatype Report = Report(
    id: ErrorId,
    category: Category,
    severity: Severity,
    title: string,
    message: string,
    details: Option<string>,
    timestamp: real,
    component: Option<string>,
    userAction: string,
    autoRetry: bool,
    retryCount: nat,
    maxRetries: nat)

  /** One row of `component_status`. */
  datatype ComponentStatus = ComponentStatus(status: string, message: string, lastUpdate: real)

  /** `ErrorManager`'s state; `templates` starts as the table below and never changes. */
  datatype Registry = Registry(
    errors: map<ErrorId, Report>,
    history: seq<Report>,
    counter: nat,
    components: map<string, ComponentStatus>,
    templates: seq<Entry>)

  /** `notification_requested(title, message, severity, duration)`. */
  datatype Notification = Notification(title: string, message: string, severity: string, durationMs: nat)

  /** One entry of `error_templates`: the (category, error type) key and its template. */
  datatype Entry = Entry(category: Category, errorType: string, template: Template)

  /** The message templates of `error_templates`, keyed by (category, error type). */
  const Templates: seq<Entry> := [
    Entry(Network, "connection_failed", Template("Connection Failed", "Unable to connect to the server.",
      "Check your network connection and server address.", true)),
    Entry(Network, "connection_lost", Template("Connection Lost", "Connection to the server was lost.",
      "Attempting to reconnect automatically...", true)),
    Entry(Network, "auth_failed", Template("Authentication Failed", "Unable to authenticate with the server.",
      "Check your username and session ID.", false)),
    Entry(Network, "server_unavailable", Template("Server Unavailable", "The server is not responding.",
      "Check if the server is running and accessible.", true)),
    Entry(Network, "media_quality_degraded", Template("Media Quality Degraded", "Media quality reduced due to network conditions.",
      "Check network connection for better performance.", false)),
    Entry(Network, "reconnection_failed", Template("Reconnection Failed", "Unable to reconnect to the server.",
      "Check network connection and try manual reconnection.", true)),
    Entry(Media, "audio_device_not_found", Template("Audio Device Not Found", "No audio input device detected.",
      "Check your microphone connection and permissions.", false)),
    Entry(Media, "video_device_not_found", Template("Camera Not Found", "No camera device detected.",
      "Check your camera connection and permissions.", false)),
    Entry(Media, "audio_permission_denied", Template("Audio Permission Denied", "Permission to access microphone was denied.",
      "Grant microphone permissions in system settings.", false)),
    Entry(Media, "video_permission_denied", Template("Camera Permission Denied", "Permission to access camera was denied.",
      "Grant camera permissions in system settings.", false)),
    Entry(Media, "screen_capture_failed", Template("Screen Capture Failed", "Unable to capture screen content.",
      "Grant screen recording permissions in system settings.", false)),
    Entry(Media, "stream_restore_failed", Template("Stream Recovery Failed", "Unable to restore media stream after reconnection.",
      "Try manually restarting the media feature.", false)),
    Entry(Media, "stream_transmission_error", Template("Media Transmission Error", "Persistent errors sending media data.",
      "Check network connection and media device.", true)),
    Entry(FileTransfer, "file_not_found", Template("File Not Found", "The selected file could not be found.",
      "Check if the file exists and is accessible.", false)),
    Entry(FileTransfer, "insufficient_space", Template("Insufficient Disk Space", "Not enough disk space to complete the transfer.",
      "Free up disk space and try again.", false)),
    Entry(FileTransfer, "permission_denied", Template("File Permission Denied", "Permission denied accessing the file.",
      "Check file permissions and try again.", false)),
    Entry(FileTransfer, "transfer_interrupted", Template("Transfer Interrupted", "File transfer was interrupted.",
      "Transfer will resume automatically.", true)),
    Entry(Device, "device_disconnected", Template("Device Disconnected", "A media device was disconnected during use.",
      "Reconnect the device to continue.", true)),
    Entry(Device, "device_busy", Template("Device Busy", "The device is being used by another application.",
      "Close other applications using the device.", true))
  ]

  /** The template stored under (category, error type), if any. */
  function Find(es: seq<Entry>, category: Category, errorType: string): (t: Option<Template>)
    ensures t.Some? ==> exists i :: 0 <= i < |es| && es[i].category == category && es[i].errorType == errorType && es[i].template == t.value
    ensures t.None? <==> forall i :: 0 <= i < |es| ==> !(es[i].category == category && es[i].errorType == errorType)
    decreases |es|
  {
    if |es| == 0 then None
    else if es[0].category == category && es[0].errorType == errorType then Some(es[0].template)
    else
      var t := Find(es[1..], category, errorType);
      assert forall i {:trigger es[i]} :: 0 < i < |es| ==> es[i] == es[1..][i - 1];
      t
  }

  /** A category with no entry in the table finds nothing, whatever the error type. */
  lemma {:induction false} FindNothingFor(es: seq<Entry>, category: Category, errorType: string)
    requires forall i :: 0 <= i < |es| ==> es[i].category != category
    ensures Find(es, category, errorType).None?
    decreases |es|
  {
    if |es| > 0 {
      FindNothingFor(es[1..], category, errorType);
    }
  }

  /** The template used when the (category, type) pair has none of its own. */
  function Generic(category: Category, component: Option<string>): (t: Template)
    ensures t.title == CategoryTitle(category) + " Error" && !t.autoRetry
  {
    var where_ := if component.Some? && component.value != "" then component.value else "the system";
    Template(CategoryTitle(category) + " Error", "An error occurred in " + where_ + ".",
             "Please try again or contact support.", false)
  }

  /** `error_templates.get((category, error_type), generic)`. */
  function TemplateFor(templates: seq<Entry>, category: Category, errorType: string, component: Option<string>): (t: Template)
    ensures Find(templates, category, errorType).Some? ==> t == Find(templates, category, errorType).value
    ensures Find(templates, category, errorType).None? ==> t == Generic(category, component)
  {
    match Find(templates, category, errorType)
    case Some(t) => t
    case None => Generic(category, component)
  }

  /** The notification duration of a user-facing severity; informational errors get none. */
  function Duration(s: Severity): (d: Option<nat>)
    ensures d.None? <==> s == Info
  {
    match s
    case Info => None
    case Warning => Some(3000)
    case Error => Some(5000)
    case Critical => Some(8000)
  }

  /** Python's `int(x)`: truncation toward zero. */
  function Trunc(x: real): (n: int)
    ensures x >= 0.0 ==> n == x.Floor
    ensures x < 0.0 ==> n == -((-x).Floor)
  {
    if x >= 0.0 then x.Floor else -((-x).Floor)
  }

  /** Every active error's id carries a counter value already issued. */
  predicate Valid(reg: Registry) {
    forall id :: id in reg.errors ==> id.counter <= reg.counter && reg.errors[id].id == id
  }

  /** A fresh `ErrorManager` at time `now`. */
  function Initial(now: real): (reg: Registry)
    ensures Valid(reg) && reg.errors == map[] && reg.history == [] && reg.counter == 0
    ensures |reg.components.Keys| == 5 && reg.templates == Templates
  {
    Registry(map[], [], 0, map[
      "network" := ComponentStatus("disconnected", "Not connected", now),
      "audio" := ComponentStatus("inactive", "Audio not active", now),
      "video" := ComponentStatus("inactive", "Video not active", now),
      "screen_share" := ComponentStatus("inactive", "Screen sharing not active", now),
      "file_transfer" := ComponentStatus("idle", "No active transfers", now)], Templates)
  }

  /** The notification `report_error` requests for a report with this title and message. */
  function NotificationFor(title: string, message: string, severity: Severity): (n: Option<Notification>)
    ensures n.None? <==> severity == Info
    ensures n.Some? ==> n.value.title == title && n.value.message == message && n.value.severity == SeverityValue(severity)
  {
    match Duration(severity)
    case None => None
    case Some(ms) => Some(Notification(title, message, SeverityValue(severity), ms))
  }

  /** A new report filled from template `t`, with no retries made out of 3. */
  function NewReport(id: ErrorId, t: Template, category: Category, severity: Severity,
                     component: Option<string>, details: Option<string>, now: real): Report
  {
    Report(id, category, severity, t.title, t.message, details, now, component, t.userAction, t.autoRetry, 0, 3)
  }

  /**
   `report_error` at time `now`: issue the next counter value, fill the
   report from the template, record it as active, append it to the history
   keeping the last 100, and request a notification for user-facing
   severities.
   */
  function ReportError(reg: Registry, category: Category, errorType: string, severity: Severity,
                       component: Option<string>, details: Option<string>, now: real)
    : (r: (Registry, ErrorId, Option<Notification>))
    requires Valid(reg)
    ensures Valid(r.0)
    ensures r.0.counter == reg.counter + 1 && r.1 == ErrorId(reg.counter + 1, Trunc(now))
    ensures r.1 !in reg.errors && r.1 in r.0.errors && r.0.errors == reg.errors[r.1 := r.0.errors[r.1]]
    ensures |r.0.errors| == |reg.errors| + 1
    ensures r.0.errors[r.1].category == category && r.0.errors[r.1].severity == severity
    ensures r.0.errors[r.1].details == details && r.0.errors[r.1].component == component
    ensures r.0.errors[r.1].timestamp == now && r.0.errors[r.1].retryCount == 0
    ensures r.0.errors[r.1].title == TemplateFor(reg.templates, category, errorType, component).title
    ensures r.0.errors[r.1].message == TemplateFor(reg.templates, category, errorType, component).message
    ensures r.0.errors[r.1].userAction == TemplateFor(reg.templates, category, errorType, component).userAction
    ensures r.0.errors[r.1].autoRetry == TemplateFor(reg.templates, category, errorType, component).autoRetry
    ensures r.0.errors[r.1].maxRetries == 3
    ensures r.0.history == LastN(reg.history + [r.0.errors[r.1]], MaxHistorySize)
    ensures r.2.None? <==> severity == Info
    ensures r.2 == NotificationFor(r.0.errors[r.1].title, r.0.errors[r.1].message, severity)
    ensures r.2.Some? ==> r.2.value.title == r.0.errors[r.1].title && r.2.value.message == r.0.errors[r.1].message
    ensures r.2.Some? ==> r.2.value.durationMs == Duration(severity).value
    ensures r.0.components == reg.components && r.0.templates == reg.templates
  {
    var n := reg.counter + 1;
    var id := ErrorId(n, Trunc(now));
    var t := TemplateFor(reg.templates, category, errorType, component);
    var rep := NewReport(id, t, category, severity, component, details, now);
    assert id !in reg.errors;
    var reg' := reg.(errors := reg.errors[id := rep], history := LastN(reg.history + [rep], MaxHistorySize), counter := n);
    Insert(reg, rep, reg');
    (reg', id, NotificationFor(t.title, t.message, severity))
  }

  /** Adding a report under the next counter value keeps the registry valid and grows it by one. */
  lemma Insert(reg: Registry, rep: Report, reg': Registry)
    requires Valid(reg) && rep.id.counter == reg.counter + 1
    requires reg'.errors == reg.errors[rep.id := rep] && reg'.counter == reg.counter + 1
    ensures Valid(reg') && |reg'.errors| == |reg.errors| + 1
  {
    assert rep.id !in reg.errors;
  }

  /** The history after reporting `reps`, each appended and trimmed in turn. */
  function Record(h: seq<Report>, reps: seq<Report>): seq<Report>
    decreases |reps|
  {
    if |reps| == 0 then h else Record(LastN(h + [reps[0]], MaxHistorySize), reps[1..])
  }

  /** The history always holds the most recent reports, at most 100, oldest first. */
  lemma {:induction false} HistoryIsRecent(h: seq<Report>, reps: seq<Report>)
    ensures Record(h, reps) == (if |reps| == 0 then h else LastN(h + reps, MaxHistorySize))
    ensures |reps| > 0 ==> |Record(h, reps)| <= MaxHistorySize
    decreases |reps|
  {
    if |reps| > 0 {
      var h1 := LastN(h + [reps[0]], MaxHistorySize);
      HistoryIsRecent(h1, reps[1..]);
      AppendFirst(h, reps);
      if |reps| > 1 {
        LastNOfLastN(h + [reps[0]], reps[1..], MaxHistorySize);
      }
    }
  }

  /** `resolve_error`: an active error is removed (and the removal signalled); any other id changes nothing. */
  function ResolveError(reg: Registry, id: ErrorId): (r: (Registry, bool))
    requires Valid(reg)
    ensures Valid(r.0)
    ensures r.1 <==> id in reg.errors
    ensures r.0.errors == reg.errors - {id}
    ensures !r.1 ==> r.0 == reg
    ensures r.0.history == reg.history && r.0.counter == reg.counter
  {
    if id in reg.errors then (reg.(errors := reg.errors - {id}), true) else (reg, false)
  }

  /** A reported error can be resolved, and resolving it restores the active errors as they were. */
  lemma ReportThenResolve(reg: Registry, category: Category, errorType: string, severity: Severity,
                          component: Option<string>, details: Option<string>, now: real)
    requires Valid(reg)
    ensures var r := ReportError(reg, category, errorType, severity, component, details, now);
            ResolveError(r.0, r.1).1 && ResolveError(r.0, r.1).0.errors == reg.errors
  {
    var r := ReportError(reg, category, errorType, severity, component, details, now);
    assert r.0.errors - {r.1} == reg.errors;
  }

  /** `clear_errors(category)`: only that category's active errors go; with no category, all go. The history stays. */
  function ClearErrors(reg: Registry, category: Option<Category>): (reg': Registry)
    requires Valid(reg)
    ensures Valid(reg')
    ensures category.None? ==> reg'.errors == map[]
    ensures category.Some? ==> forall id :: id in reg'.errors <==> id in reg.errors && reg.errors[id].category != category.value
    ensures forall id :: id in reg'.errors ==> reg'.errors[id] == reg.errors[id]
    ensures reg'.history == reg.history && reg'.counter == reg.counter && reg'.components == reg.components
  {
    match category
    case None => reg.(errors := map[])
    case Some(c) => reg.(errors := map id | id in reg.errors && reg.errors[id].category != c :: reg.errors[id])
  }

  // ---------------------------------------------------------------------------
  // Summary
  // ---------------------------------------------------------------------------

  /** Every category is listed in `AllCategories`. */
  lemma CategoryListed(c: Category)
    ensures c in AllCategories
  {
    match c
    case Network => assert AllCategories[0] == c;
    case Media => assert AllCategories[1] == c;
    case FileTransfer => assert AllCategories[2] == c;
    case Authentication => assert AllCategories[3] == c;
    case Device => assert AllCategories[4] == c;
    case System => assert AllCategories[5] == c;
    case UserInput => assert AllCategories[6] == c;
  }

  /** Every severity is listed in `AllSeverities`. */
  lemma SeverityListed(v: Severity)
    ensures v in AllSeverities
  {
    match v
    case Info => assert AllSeverities[0] == v;
    case Warning => assert AllSeverities[1] == v;
    case Error => assert AllSeverities[2] == v;
    case Critical => assert AllSeverities[3] == v;
  }

  /** The active errors whose category or severity (as selected by `key`) is `k`. */
  function IdsWith<K(==)>(errors: map<ErrorId, Report>, key: Report -> K, k: K): (s: set<ErrorId>)
    ensures s <= errors.Keys
    ensures forall id :: id in s <==> id in errors && key(errors[id]) == k
  {
    set id | id in errors && key(errors[id]) == k
  }

  function CategoryOf(r: Report): Category { r.category }
  function SeverityOf(r: Report): Severity { r.severity }

  /** The non-zero counts of active errors per category, as in `by_category`. */
  function ByCategory(errors: map<ErrorId, Report>): (m: map<Category, nat>)
    ensures forall c :: c in m <==> |IdsWith(errors, CategoryOf, c)| > 0
    ensures forall c :: c in m ==> m[c] == |IdsWith(errors, CategoryOf, c)|
  {
    assert forall c: Category :: c in AllCategories by {
      forall c: Category ensures c in AllCategories { CategoryListed(c); }
    }
    map c | c in AllCategories && |IdsWith(errors, CategoryOf, c)| > 0 :: |IdsWith(errors, CategoryOf, c)|
  }

  /** The non-zero counts of active errors per severity, as in `by_severity`. */
  function BySeverity(errors: map<ErrorId, Report>): (m: map<Severity, nat>)
    ensures forall v :: v in m <==> |IdsWith(errors, SeverityOf, v)| > 0
    ensures forall v :: v in m ==> m[v] == |IdsWith(errors, SeverityOf, v)|
  {
    assert forall v: Severity :: v in AllSeverities by {
      forall v: Severity ensures v in AllSeverities { SeverityListed(v); }
    }
    map v | v in AllSeverities && |IdsWith(errors, SeverityOf, v)| > 0 :: |IdsWith(errors, SeverityOf, v)|
  }

  /** The counts stored in `m` for the keys `ks` (0 for a key not stored), added up. */
  function SumOver<K>(m: map<K, nat>, ks: seq<K>): nat
    decreases |ks|
  {
    if |ks| == 0 then 0 else (if ks[0] in m then m[ks[0]] else 0) + SumOver(m, ks[1..])
  }

  /** The active errors whose key is one of `ks`. */
  function IdsWithAny<K(==)>(errors: map<ErrorId, Report>, key: Report -> K, ks: seq<K>): (s: set<ErrorId>)
    ensures forall id :: id in s <==> id in errors && key(errors[id]) in ks
  {
    set id | id in errors && key(errors[id]) in ks
  }

  /**
   Counts that agree with the errors, summed over distinct keys, give the
   number of errors whose key is among them.
   */
  lemma {:induction false} SumOverCounts<K>(errors: map<ErrorId, Report>, key: Report -> K, m: map<K, nat>, ks: seq<K>)
    requires forall k :: k in m ==> m[k] == |IdsWith(errors, key, k)|
    requires forall k :: k !in m ==> |IdsWith(errors, key, k)| == 0
    requires forall i, j :: 0 <= i < j < |ks| ==> ks[i] != ks[j]
    ensures SumOver(m, ks) == |IdsWithAny(errors, key, ks)|
    decreases |ks|
  {
    if |ks| == 0 {
      assert IdsWithAny(errors, key, ks) == {};
    } else {
      SumOverCounts(errors, key, m, ks[1..]);
      var head := IdsWith(errors, key, ks[0]);
      var tail := IdsWithAny(errors, key, ks[1..]);
      assert ks[0] !in ks[1..];
      assert head * tail == {};
      assert IdsWithAny(errors, key, ks) == head + tail;
    }
  }

  lemma CategoriesDistinct()
    ensures forall i, j :: 0 <= i < j < |AllCategories| ==> AllCategories[i] != AllCategories[j]
  {
  }

  /** The per-category counts of `get_error_summary` add up to its total. */
  lemma CategoryCountsAddUp(errors: map<ErrorId, Report>)
    ensures SumOver(ByCategory(errors), AllCategories) == |errors|
  {
    CategoriesDistinct();
    SumOverCounts(errors, CategoryOf, ByCategory(errors), AllCategories);
    forall id | id in errors ensures CategoryOf(errors[id]) in AllCategories {
      CategoryListed(errors[id].category);
    }
    assert IdsWithAny(errors, CategoryOf, AllCategories) == errors.Keys;
  }

  /** The per-severity counts of `get_error_summary` add up to its total. */
  lemma SeverityCountsAddUp(errors: map<ErrorId, Report>)
    ensures SumOver(BySeverity(errors), AllSeverities) == |errors|
  {
    SumOverCounts(errors, SeverityOf, BySeverity(errors), AllSeverities);
    forall id | id in errors ensures SeverityOf(errors[id]) in AllSeverities {
      SeverityListed(errors[id].severity);
    }
    assert IdsWithAny(errors, SeverityOf, AllSeverities) == errors.Keys;
  }

  /** `get_error_history(limit)`: a non-zero limit keeps `history[-limit:]`; none or zero returns it all. */
  function GetHistory(reg: Registry, limit: Option<int>): (h: seq<Report>)
    ensures limit.None? || limit.value == 0 ==> h == reg.history
    ensures limit.Some? && limit.value > 0 ==> h == LastN(reg.history, limit.value)
    ensures limit.Some? && limit.value < 0 ==> h == reg.history[(if -limit.value <= |reg.history| then -limit.value else |reg.history|)..]
  {
    if limit.Some? && limit.value != 0 then PySliceFrom(reg.history, -limit.value) else reg.history
  }

  // ---------------------------------------------------------------------------
  // Component status
  // ---------------------------------------------------------------------------

  /**
   `update_component_status` at time `now`: the component's status and
   message (the status itself when no message is given) are replaced, a new
   component is added, and the update is signalled.
   */
  function UpdateComponentStatus(reg: Registry, component: string, status: string, message: Option<string>, now: real)
    : (r: (Registry, (string, string, string)))
    ensures component in r.0.components
    ensures r.0.components[component].status == status && r.0.components[component].lastUpdate == now
    ensures r.0.components[component].message == (if message.Some? && message.value != "" then message.value else status)
    ensures forall c :: c != component ==> (c in r.0.components <==> c in reg.components)
    ensures forall c :: c != component && c in reg.components ==> r.0.components[c] == reg.components[c]
    ensures r.0.errors == reg.errors && r.0.history == reg.history && r.0.counter == reg.counter
    ensures r.1 == (component, status, r.0.components[component].message)
  {
    var msg := if message.Some? && message.value != "" then message.value else status;
    (reg.(components := reg.components[component := ComponentStatus(status, msg, now)]), (component, status, msg))
  }

  /** `get_component_status`: an unknown component reads as status "unknown". */
  function GetComponentStatus(reg: Registry, component: string): (s: ComponentStatus)
    ensures component !in reg.components ==> s == ComponentStatus("unknown", "Status unknown", 0.0)
    ensures component in reg.components ==> s == reg.components[component]
  {
    if component in reg.components then reg.components[component] else ComponentStatus("unknown", "Status unknown", 0.0)
  }

  /** Reading back a status just written returns it. */
  lemma UpdateThenGet(reg: Registry, component: string, status: string, message: Option<string>, now: real)
    ensures GetComponentStatus(UpdateComponentStatus(reg, component, status, message, now).0, component).status == status
  {
  }
}
