/**
 * The routing rules of the logging module: the ordered level list, the
 * level lookup, which sinks (queue, emergency stream, pre-print target,
 * log file) receive a message, the settings read from the `[log]` section
 * of the configuration, and the caller name placed in each line.
 */
module Log {
  import opened Wrappers

  /** `LOG_LEVEL_LIST`, from most to least severe. */
  const Levels: seq<string> :=
    ["OFF", "EMERG", "CRIT", "FATAL", "ERROR", "ALERT", "WARN", "NOTIFY", "INFO", "DEBUG", "ALL"]

  /** Index of 'ALL', the level an unknown name counts as. */
  const All: nat := 10

  /** `list.index`: the position of the first occurrence. */
  function IndexOf<T(==)>(xs: seq<T>, x: T): (i: nat)
    requires x in xs
    ensures i < |xs| && xs[i] == x
    ensures forall j :: 0 <= j < i ==> xs[j] != x
  {
    if xs[0] == x then 0 else 1 + IndexOf(xs[1..], x)
  }

  lemma LevelsDistinct()
    ensures forall i, j :: 0 <= i < j < |Levels| ==> Levels[i] != Levels[j]
  {
  }

  /** Looking a level name up gives back its position. */
  lemma IndexOfLevel(i: nat)
    requires i < |Levels|
    ensures IndexOf(Levels, Levels[i]) == i
  {
    LevelsDistinct();
  }

  /** `get_level`: the index of a known name, the index of 'ALL' otherwise. */
  function GetLevel(level: string): (r: nat)
    ensures r < |Levels|
    ensures level in Levels ==> Levels[r] == level
    ensures level !in Levels ==> r == All
  {
    IndexOfLevel(All);
    if level in Levels then IndexOf(Levels, level) else IndexOf(Levels, "ALL")
  }

  /** Every level name is looked up at its own position. */
  lemma GetLevelOfName(i: nat)
    requires i < |Levels|
    ensures GetLevel(Levels[i]) == i
  {
    IndexOfLevel(i);
  }

  /** `LOG_LEVEL_DICT`: each name mapped to its position. */
  function LevelDict(): (d: map<string, nat>)
    ensures d.Keys == set i | 0 <= i < |Levels| :: Levels[i]
    ensures forall i :: 0 <= i < |Levels| ==> Levels[i] in d && d[Levels[i]] == i
  {
    var d := map name | name in Levels :: IndexOf(Levels, name);
    forall i | 0 <= i < |Levels|
      ensures d[Levels[i]] == i
    {
      IndexOfLevel(i);
    }
    d
  }

  /** The dictionary and `get_level` agree on every string. */
  lemma LevelDictAgrees(level: string)
    ensures level in LevelDict() ==> LevelDict()[level] == GetLevel(level)
    ensures level !in LevelDict() ==> GetLevel(level) == LevelDict()["ALL"]
  {
    var d := LevelDict();
    assert Levels[All] == "ALL";
    if level in Levels {
      var i := IndexOf(Levels, level);
      GetLevelOfName(i);
    }
  }

  /** The queue test of `log`: a level past OFF whose index is below 4. */
  predicate PutsOnQueue(level: string) {
    level in Levels[1..] && IndexOf(Levels, level) < 4
  }

  /** A name is past OFF in the list exactly when it is a level other than OFF. */
  lemma PastOff(level: string)
    ensures level in Levels[1..] <==> level in Levels && GetLevel(level) != 0
  {
    if level in Levels[1..] {
      var k :| 0 <= k < |Levels[1..]| && Levels[1..][k] == level;
      GetLevelOfName(k + 1);
    }
  }

  /** The queue test by index: known levels 1 to 3. */
  lemma QueuedIndices(level: string)
    ensures PutsOnQueue(level) <==> level in Levels && 1 <= GetLevel(level) <= 3
  {
    PastOff(level);
  }

  /** Only EMERG, CRIT and FATAL are queued. */
  lemma QueuedLevels(level: string)
    ensures PutsOnQueue(level) <==> level == "EMERG" || level == "CRIT" || level == "FATAL"
  {
    QueuedIndices(level);
    GetLevelOfName(1);
    GetLevelOfName(2);
    GetLevelOfName(3);
    assert Levels[1] == "EMERG" && Levels[2] == "CRIT" && Levels[3] == "FATAL";
  }

  /** The test written against the dictionary, `0 < LOG_LEVEL_DICT.get(level, LOG_LEVEL_DICT['ALL']) < 4`, is the same test. */
  lemma QueueRuleByDict(level: string)
    ensures PutsOnQueue(level) <==> var d := LevelDict(); 0 < (if level in d then d[level] else d["ALL"]) < 4
  {
    QueuedIndices(level);
    LevelDictAgrees(level);
    var d := LevelDict();
    assert level in d <==> level in Levels;
    assert Levels[All] == "ALL";
  }

  /** The output streams a sink can name. */
  datatype Stream = Stderr | Stdout

  /** `LOG_EMERG_PRINT` and `LOG_EMERG_PRINT_TO`: off, or a threshold index and a stream. */
  datatype Emerg = Disabled | Enabled(threshold: nat, stream: Stream)

  /** The target of `pre_print`: a stream, nothing, or a file opened for appending. */
  datatype Target = ToStream(stream: Stream) | NoTarget | AppendTo(path: string)

  /** The exceptions that stop the logging settings from being read. */
  datatype LogError =
    | AssertionFailed      // the emergency stream is missing or not stderr/stdout
    | KeyError(key: string) // a section or option that `config[...]` does not find

  predicate HasOption(config: Config, section: string, option: string) {
    section in config && option in config[section]
  }

  /** `__init_emerg_print`. */
  function InitEmergPrint(config: Config): (r: Result<Emerg, LogError>)
    ensures r.Ok? && r.value.Enabled? ==>
      && HasOption(config, "log", "emerg_print")
      && 1 <= r.value.threshold < |Levels| && Levels[r.value.threshold] == config["log"]["emerg_print"]
    ensures r == Ok(Disabled) <==>
      !(HasOption(config, "log", "emerg_print") && config["log"]["emerg_print"] in Levels[1..])
    ensures r.Err? <==>
      && HasOption(config, "log", "emerg_print") && config["log"]["emerg_print"] in Levels[1..]
      && !(HasOption(config, "log", "emerg_print_to") && config["log"]["emerg_print_to"] in ["stderr", "stdout"])
    ensures r.Ok? && r.value.Enabled? ==>
      && HasOption(config, "log", "emerg_print_to")
      && (r.value.stream == Stderr <==> config["log"]["emerg_print_to"] == "stderr")
      && (r.value.stream == Stdout <==> config["log"]["emerg_print_to"] == "stdout")
  {
    if HasOption(config, "log", "emerg_print") && config["log"]["emerg_print"] in Levels[1..] then
      if HasOption(config, "log", "emerg_print_to") && config["log"]["emerg_print_to"] in ["stderr", "stdout"] then
        var name := config["log"]["emerg_print"];
        var threshold := IndexOf(Levels, name);
        assert threshold != 0 by {
          assert name in Levels[1..];
          LevelsDistinct();
          var k :| 0 <= k < |Levels[1..]| && Levels[1..][k] == name;
          assert Levels[k + 1] == name;
        }
        Ok(Enabled(threshold, if config["log"]["emerg_print_to"] == "stderr" then Stderr else Stdout))
      else
        Err(AssertionFailed)
    else
      Ok(Disabled)
  }

  /** The emergency echo of `log`. */
  predicate Echoes(emerg: Emerg, level: string) {
    emerg.Enabled? && emerg.threshold >= GetLevel(level)
  }

  /** Whatever echoes at one level echoes at every more severe one. */
  lemma EchoMonotone(emerg: Emerg, level: string, severer: string)
    requires Echoes(emerg, level) && GetLevel(severer) <= GetLevel(level)
    ensures Echoes(emerg, severer)
  {
  }

  /** With emergency printing on, EMERG is always echoed; with a threshold of ALL, so is every message. */
  lemma EchoBounds(emerg: Emerg, level: string)
    requires emerg.Enabled? && 1 <= emerg.threshold < |Levels|
    ensures Echoes(emerg, "EMERG")
    ensures emerg.threshold == All ==> Echoes(emerg, level)
  {
    GetLevelOfName(1);
  }

  /** `_get_target` inside `init_log`. */
  function GetTarget(target: string): (r: Target)
    ensures r == ToStream(Stderr) <==> target == "stderr"
    ensures r == ToStream(Stdout) <==> target == "stdout"
    ensures r == NoTarget <==> target == "None"
    ensures r.AppendTo? <==> target !in ["stderr", "stdout", "None"]
    ensures r.AppendTo? ==> r.path == target
  {
    if target == "stderr" then ToStream(Stderr)
    else if target == "stdout" then ToStream(Stdout)
    else if target == "None" then NoTarget
    else AppendTo(target)
  }

  /** `LOG_QUEUE_OPTION`: the queue is used unless `use_queue` is exactly 'false'. */
  function QueueEnabled(config: Config): bool {
    !(HasOption(config, "log", "use_queue") && config["log"]["use_queue"] == "false")
  }

  /** What `init_log` leaves behind: the configured level, the log file path, the pre-print target, and the emergency and queue settings. */
  datatype Settings = Settings(level: string, logFile: string, prePrint: Target, emerg: Emerg, useQueue: bool)

  /** `init_log`, with the opening of files left to the caller. */
  function InitLog(config: Config): (r: Result<Settings, LogError>)
    ensures r.Ok? ==>
      && HasOption(config, "log", "log_level") && HasOption(config, "log", "log_file")
      && HasOption(config, "log", "pre_print")
      && r.value.level == config["log"]["log_level"] && r.value.logFile == config["log"]["log_file"]
      && r.value.prePrint == GetTarget(config["log"]["pre_print"])
      && Ok(r.value.emerg) == InitEmergPrint(config) && r.value.useQueue == QueueEnabled(config)
    ensures InitEmergPrint(config).Err? ==> r == Err(AssertionFailed)
    ensures InitEmergPrint(config).Ok? && "log" !in config ==> r == Err(KeyError("log"))
    ensures r.Err? && r.error.KeyError? ==>
      !HasOption(config, "log", r.error.key) && (r.error.key == "log" ==> "log" !in config)
    ensures InitEmergPrint(config).Ok? && "log" in config && !HasOption(config, "log", "log_level") ==>
      r == Err(KeyError("log_level"))
    ensures InitEmergPrint(config).Ok? && HasOption(config, "log", "log_level") && !HasOption(config, "log", "log_file") ==>
      r == Err(KeyError("log_file"))
    ensures (&& InitEmergPrint(config).Ok? && HasOption(config, "log", "log_level")
             && HasOption(config, "log", "log_file") && !HasOption(config, "log", "pre_print")) ==>
      r == Err(KeyError("pre_print"))
    ensures (&& InitEmergPrint(config).Ok? && HasOption(config, "log", "log_level")
             && HasOption(config, "log", "log_file") && HasOption(config, "log", "pre_print")) ==> r.Ok?
    ensures r == Err(KeyError("log_file")) ==> HasOption(config, "log", "log_level")
    ensures r == Err(KeyError("pre_print")) ==> HasOption(config, "log", "log_level") && HasOption(config, "log", "log_file")
  {
    match InitEmergPrint(config)
    case Err(e) => Err(e)
    case Ok(emerg) =>
      if "log" !in config then Err(KeyError("log"))
      else if "log_level" !in config["log"] then Err(KeyError("log_level"))
      else if "log_file" !in config["log"] then Err(KeyError("log_file"))
      else if "pre_print" !in config["log"] then Err(KeyError("pre_print"))
      else
        var section := config["log"];
        Ok(Settings(section["log_level"], section["log_file"], GetTarget(section["pre_print"]), emerg, QueueEnabled(config)))
  }

  /** The outcome of the log-file test: written, skipped, or the ValueError that the bare `except` swallows. */
  datatype FileRoute = Written | Skipped | Raised

  /** The log-file condition of `log`. */
  function RouteToFile(configured: string, level: string): (r: FileRoute)
    ensures r == Raised <==> level in Levels && configured !in Levels
    ensures r == Written <==>
      || (level in Levels && configured in Levels && GetLevel(level) <= GetLevel(configured))
      || (level !in Levels && configured == "ALL")
  {
    if level in Levels then
      if configured in Levels then
        if IndexOf(Levels, level) <= IndexOf(Levels, configured) then Written else Skipped
      else Raised
    else if configured == "ALL" then Written
    else Skipped
  }

  /** A more verbose configured level never drops a message that a less verbose one writes. */
  lemma FileMonotone(quiet: string, verbose: string, level: string)
    requires quiet in Levels && verbose in Levels && GetLevel(quiet) <= GetLevel(verbose)
    requires RouteToFile(quiet, level) == Written
    ensures RouteToFile(verbose, level) == Written
  {
    if level !in Levels {
      assert quiet == "ALL";
      GetLevelOfName(All);
      assert GetLevel(verbose) == All;
    }
  }

  /** Configured as ALL, the file takes every message. */
  lemma FileAll(level: string)
    ensures RouteToFile("ALL", level) == Written
  {
    assert "ALL" == Levels[All];
    GetLevelOfName(All);
  }

  /** Configured as OFF, the file takes only messages logged at OFF. */
  lemma FileOff(level: string)
    ensures RouteToFile("OFF", level) == Written <==> level == "OFF"
  {
    assert "OFF" == Levels[0];
    GetLevelOfName(0);
    if level in Levels && GetLevel(level) == 0 {
      assert level == Levels[0];
    }
  }

  /** The sinks one call of `log` reaches. */
  datatype Delivery = Delivery(queued: bool, echoed: bool, prePrinted: bool, file: FileRoute)

  /**
   * The routing of `log(level, s, pre_print=...)`. The message reaches the
   * queue when the queue is in use and the level is queued; `need_put_queue`
   * is accepted and ignored by the source, so it is not a parameter here.
   */
  function Route(settings: Settings, level: string, prePrint: bool): (d: Delivery)
    ensures d.queued <==> settings.useQueue && (level == "EMERG" || level == "CRIT" || level == "FATAL")
    ensures d.echoed <==> settings.emerg.Enabled? && GetLevel(level) <= settings.emerg.threshold
    ensures d.prePrinted <==> prePrint && settings.prePrint != NoTarget
    ensures d.file == RouteToFile(settings.level, level)
  {
    QueuedLevels(level);
    Delivery(settings.useQueue && PutsOnQueue(level), Echoes(settings.emerg, level),
             prePrint && settings.prePrint != NoTarget, RouteToFile(settings.level, level))
  }

  /** An unknown level name is never queued and is echoed only at threshold ALL. */
  lemma UnknownLevel(settings: Settings, level: string, prePrint: bool)
    requires level !in Levels
    ensures !Route(settings, level, prePrint).queued
    ensures Route(settings, level, prePrint).echoed <==> settings.emerg.Enabled? && settings.emerg.threshold >= All
  {
    assert level != "EMERG" && level != "CRIT" && level != "FATAL" by {
      assert "EMERG" == Levels[1] && "CRIT" == Levels[2] && "FATAL" == Levels[3];
    }
  }

  /**
   * What `use_queue` does to the messages of `log`, once `init_log` has
   * succeeded: 'false' keeps every message off the queue; any other value,
   * or none, queues exactly the EMERG, CRIT and FATAL messages.
   */
  lemma QueueOption(config: Config, level: string, prePrint: bool)
    requires InitLog(config).Ok?
    ensures "use_queue" in config["log"] && config["log"]["use_queue"] == "false" ==>
      !Route(InitLog(config).value, level, prePrint).queued
    ensures !("use_queue" in config["log"] && config["log"]["use_queue"] == "false") ==>
      (Route(InitLog(config).value, level, prePrint).queued <==> level == "EMERG" || level == "CRIT" || level == "FATAL")
  {
  }

  /** `s.replace(target, replacement)` for single characters: every occurrence of target becomes replacement. */
  function Replace(s: string, target: char, replacement: char): (r: string)
    ensures |r| == |s|
    ensures forall i :: 0 <= i < |s| ==> r[i] == if s[i] == target then replacement else s[i]
    decreases |s|
  {
    if s == [] then [] else [if s[0] == target then replacement else s[0]] + Replace(s[1..], target, replacement)
  }

  /** `.replace('\\', '.').replace('/', '.')`: both path separators become dots, nothing else changes. */
  function Dotted(s: string): (r: string)
    ensures |r| == |s|
    ensures forall i :: 0 <= i < |s| ==> r[i] == if s[i] == '\\' || s[i] == '/' then '.' else s[i]
    ensures '\\' !in r && '/' !in r
  {
    Replace(Replace(s, '\\', '.'), '/', '.')
  }

  /** `path[cwdLen:-3]` with Python's clamping of slice bounds. */
  function ModulePart(path: string, cwdLen: nat): (r: string)
    ensures |path| <= cwdLen + 3 ==> r == ""
    ensures cwdLen + 3 < |path| ==> r == path[cwdLen..|path| - 3]
  {
    var stop := if |path| >= 3 then |path| - 3 else 0;
    var start := if cwdLen < |path| then cwdLen else |path|;
    if start < stop then path[start..stop] else ""
  }

  /**
   * `get_func_name` from the caller's file name, function name and line
   * (already formatted): dotted module path, function and line, with one
   * leading dot removed.
   */
  function FuncName(path: string, cwdLen: nat, funcName: string, line: string): (r: string)
    ensures var m := Dotted(ModulePart(path, cwdLen));
      r == if m == "" then funcName + "][" + line
           else if m[0] == '.' then m[1..] + "." + funcName + "][" + line
           else m + "." + funcName + "][" + line
  {
    var text := Dotted(ModulePart(path, cwdLen)) + "." + funcName + "][" + line;
    if text[0] == '.' then text[1..] else text
  }

  /**
   * A caller in a file under the working directory is named by its
   * relative path in dotted form, without the '.py' suffix.
   */
  lemma CallerUnderCwd(cwd: string, relative: string, funcName: string, line: string)
    requires relative != "" && relative[0] != '.' && relative[0] != '/' && relative[0] != '\\'
    ensures FuncName(cwd + "/" + relative + ".py", |cwd| + 1, funcName, line)
         == Dotted(relative) + "." + funcName + "][" + line
  {
    var path := cwd + "/" + relative + ".py";
    assert path[|cwd| + 1..|path| - 3] == relative;
  }

  /** A file whose path leaves nothing after the slice contributes no module part, and no stray dot. */
  lemma CallerOutsideSlice(path: string, cwdLen: nat, funcName: string, line: string)
    requires |path| <= cwdLen + 3
    ensures FuncName(path, cwdLen, funcName, line) == funcName + "][" + line
  {
  }
}
