/** The leveled log of `log`: a line is written only when a log file is
    open and the severity is one of `$logLevel`. */
module Logger {

  /** The syslog severities the program names. */
  datatype Severity = Emergency | Alert | Critical | Error | Warning | Notice | Info | Debug | Kernel

  /** The default `$logLevel`: every severity except notice and debug. */
  const LOG_LEVEL: set<Severity> := {Emergency, Alert, Critical, Error, Warning, Info, Kernel}

  /** What `log` consults on each call: whether a log file was opened, and
      the `$logLevel` in force. The property is public and static, so a
      script using the class may replace the default. */
  datatype LogConfig = LogConfig(open: bool, levels: set<Severity>)

  /** One `log` call: its severity and what it reports. */
  datatype Entry<M> = Entry(severity: Severity, message: M)

  /** Whether a `log` call writes a line. */
  predicate Enabled(cfg: LogConfig, severity: Severity)
  {
    cfg.open && severity in cfg.levels
  }

  /** With an open log and the default `$logLevel`, exactly notice and
      debug are dropped; without an open log, everything is. */
  lemma EnabledSeverities(open: bool, severity: Severity)
    ensures Enabled(LogConfig(open, LOG_LEVEL), severity) <==> open && severity != Notice && severity != Debug
  {
  }

  /** The lines written for a run of `log` calls, in call order: only
      enabled ones, and none without an open log. */
  function Written<M>(cfg: LogConfig, entries: seq<Entry<M>>): (lines: seq<Entry<M>>)
    ensures |lines| <= |entries|
    ensures !cfg.open ==> lines == []
    ensures forall i :: 0 <= i < |lines| ==> Enabled(cfg, lines[i].severity)
  {
    if entries == [] then []
    else
      var rest := Written(cfg, entries[1..]);
      if Enabled(cfg, entries[0].severity) then [entries[0]] + rest else rest
  }

  /** Under the default `$logLevel`, notice and debug calls never reach the log. */
  lemma WrittenQuiet<M>(cfg: LogConfig, entries: seq<Entry<M>>)
    requires cfg.levels == LOG_LEVEL
    ensures forall i :: 0 <= i < |Written(cfg, entries)| ==>
              Written(cfg, entries)[i].severity != Notice && Written(cfg, entries)[i].severity != Debug
  {
    forall i | 0 <= i < |Written(cfg, entries)|
      ensures Written(cfg, entries)[i].severity != Notice && Written(cfg, entries)[i].severity != Debug
    {
      EnabledSeverities(cfg.open, Written(cfg, entries)[i].severity);
    }
  }

  /** Every line written is one of the calls, and every enabled call is
      written: the filter drops exactly the disabled calls. */
  lemma {:induction false} WrittenMembers<M>(cfg: LogConfig, entries: seq<Entry<M>>)
    ensures forall e :: e in Written(cfg, entries) ==> e in entries
    ensures forall e :: e in entries && Enabled(cfg, e.severity) ==> e in Written(cfg, entries)
  {
    if entries != [] {
      WrittenMembers(cfg, entries[1..]);
      assert entries == [entries[0]] + entries[1..];
    }
  }

  /** Filtering the log of two stretches is filtering each in turn. */
  lemma {:induction false} WrittenAppend<M>(cfg: LogConfig, a: seq<Entry<M>>, b: seq<Entry<M>>)
    ensures Written(cfg, a + b) == Written(cfg, a) + Written(cfg, b)
  {
    if a == [] {
      assert a + b == b;
    } else {
      assert (a + b)[0] == a[0];
      assert (a + b)[1..] == a[1..] + b;
      WrittenAppend(cfg, a[1..], b);
    }
  }

  /** One `log` call writes its line, or nothing, ahead of what the calls
      after it write. */
  lemma WrittenCons<M>(cfg: LogConfig, e: Entry<M>, rest: seq<Entry<M>>)
    ensures Written(cfg, [e] + rest)
            == (if Enabled(cfg, e.severity) then [e] else []) + Written(cfg, rest)
  {
    assert ([e] + rest)[1..] == rest;
  }
}
