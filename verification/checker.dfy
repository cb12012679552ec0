/**
 The requirement checker of a WordPress plugin: a plugin name, the resolved
 plugin file, and an ordered, append-only list of requirements. Adding a
 requirement returns the extended checker, which is how the fluent chain
 `Checker::make(...)->php_at_least(...)->class_exists(...)` reads here.
 Whether the requirements are met, the admin notice listing the failed
 ones, and the deactivation step are functions of the checker and the
 current host environment.
 */
module Checkers {
  import opened PhpValues
  import opened HostEnv
  import opened ClosureRequirements

  datatype Checker = Checker(name: string, file: PluginFile, requirements: seq<Requirement>)

  /**
   The constructor: the name goes through PHP's `(string)` cast, the file
   through the host's `realpath`, and the requirement list starts empty.
   */
  function New(name: Value, file: string, realpath: string -> PluginFile): (c: Checker)
    ensures c.name == ToStr(name)
    ensures c.file == realpath(file)
    ensures c.requirements == []
  {
    Checker(ToStr(name), realpath(file), [])
  }

  /** The static factory: the same checker the constructor builds. */
  function Make(name: Value, file: string, realpath: string -> PluginFile): (c: Checker)
    ensures c == New(name, file, realpath)
    ensures c.requirements == []
  {
    New(name, file, realpath)
  }

  /** `after` is `before` with exactly one requirement appended and nothing else changed. */
  ghost predicate AppendsOne(before: Checker, after: Checker) {
    && after.name == before.name
    && after.file == before.file
    && |after.requirements| == |before.requirements| + 1
    && after.requirements[..|before.requirements|] == before.requirements
  }

  /** The requirement a one-step extension appended. */
  function Appended(before: Checker, after: Checker): Requirement
    requires AppendsOne(before, after)
  {
    after.requirements[|before.requirements|]
  }

  function AddRequirement(c: Checker, r: Requirement): (c': Checker)
    ensures AppendsOne(c, c')
    ensures Appended(c, c') == r
  {
    c.(requirements := c.requirements + [r])
  }

  /** `add_check` is `add_requirement` of a new closure requirement built from its arguments. */
  function AddCheck(c: Checker, closure: Closure, failureMessage: Value): (c': Checker)
    ensures c' == AddRequirement(c, NewClosureRequirement(closure, failureMessage))
    ensures AppendsOne(c, c')
    ensures GetMessage(Appended(c, c')) == ToStr(failureMessage)
  {
    AddRequirement(c, NewClosureRequirement(closure, failureMessage))
  }

  /** Several `add_requirement` calls chained, in order. */
  function AddRequirements(c: Checker, rs: seq<Requirement>): (c': Checker)
    ensures c'.name == c.name && c'.file == c.file
    ensures c'.requirements == c.requirements + rs
    decreases |rs|
  {
    if rs == [] then c else AddRequirements(AddRequirement(c, rs[0]), rs[1..])
  }

  function ClassExists(c: Checker, className: string): (c': Checker)
    ensures AppendsOne(c, c')
    ensures GetMessage(Appended(c, c')) == "The " + className + " class is required but missing"
    ensures forall env :: IsMet(Appended(c, c'), env) <==> className in env.classes
  {
    AddCheck(c, ClassExistsClosure(className), Str("The " + className + " class is required but missing"))
  }

  function FunctionExists(c: Checker, functionName: string): (c': Checker)
    ensures AppendsOne(c, c')
    ensures GetMessage(Appended(c, c')) == "The " + functionName + " function is required but missing"
    ensures forall env :: IsMet(Appended(c, c'), env) <==> functionName in env.functions
  {
    AddCheck(c, FunctionExistsClosure(functionName), Str("The " + functionName + " function is required but missing"))
  }

  function PhpAtLeast(c: Checker, version: string): (c': Checker)
    ensures AppendsOne(c, c')
    ensures GetMessage(Appended(c, c')) == "PHP " + version + " or newer is required"
    ensures forall env :: IsMet(Appended(c, c'), env) <==> env.versionAtLeast(env.phpVersion, version)
  {
    AddCheck(c, PhpAtLeastClosure(version), Str("PHP " + version + " or newer is required"))
  }

  function WpAtLeast(c: Checker, version: string): (c': Checker)
    ensures AppendsOne(c, c')
    ensures GetMessage(Appended(c, c')) == "WordPress " + version + " or newer is required"
    ensures forall env :: IsMet(Appended(c, c'), env) <==> env.versionAtLeast(env.wpVersion, version)
  {
    AddCheck(c, WpAtLeastClosure(version), Str("WordPress " + version + " or newer is required"))
  }

  /**
   The plugin is looked up by its file, strictly, among the values of the
   `active_plugins` option cast to an array; the message names the plugin
   by its display name.
   */
  function PluginActive(c: Checker, pluginFile: string, pluginName: string): (c': Checker)
    ensures AppendsOne(c, c')
    ensures GetMessage(Appended(c, c')) == pluginName + " must be installed and active"
    ensures forall env :: IsMet(Appended(c, c'), env) <==>
      (env.activePluginsOption == Str(pluginFile)
       || (env.activePluginsOption.Arr? && Str(pluginFile) in env.activePluginsOption.elems))
  {
    AddCheck(c, PluginActiveClosure(pluginFile), Str(pluginName + " must be installed and active"))
  }

  /** The `foreach` of `requirements_met`: `$met = $met && is_met()` over the list, left to right. */
  function MetFold(met: bool, reqs: seq<Requirement>, env: Env): (r: bool)
    ensures r <==> met && forall i :: 0 <= i < |reqs| ==> IsMet(reqs[i], env)
    decreases |reqs|
  {
    if reqs == [] then met else MetFold(met && IsMet(reqs[0], env), reqs[1..], env)
  }

  /** All requirements are met; an empty list is met vacuously. */
  function RequirementsMet(c: Checker, env: Env): (met: bool)
    ensures met <==> forall i :: 0 <= i < |c.requirements| ==> IsMet(c.requirements[i], env)
  {
    MetFold(true, c.requirements, env)
  }

  /**
   `requirements_met` step by step, recording the index of every
   requirement whose `is_met` is called. Because `&&` short-circuits, the
   calls run in list order and stop right after the first unmet one.
   */
  method EvaluateRequirements(c: Checker, env: Env) returns (met: bool, calls: seq<nat>)
    ensures met == RequirementsMet(c, env)
    ensures forall k :: 0 <= k < |calls| ==> calls[k] == k
    ensures |calls| <= |c.requirements|
    ensures forall k :: 0 <= k < |calls| - 1 ==> IsMet(c.requirements[k], env)
    ensures met ==> |calls| == |c.requirements|
    ensures !met ==> |calls| >= 1 && !IsMet(c.requirements[|calls| - 1], env)
  {
    met := true;
    calls := [];
    for i := 0 to |c.requirements|
      invariant met <==> forall k :: 0 <= k < i ==> IsMet(c.requirements[k], env)
      invariant forall k :: 0 <= k < |calls| ==> calls[k] == k
      invariant |calls| <= i
      invariant met ==> |calls| == i
      invariant forall k :: 0 <= k < |calls| - 1 ==> IsMet(c.requirements[k], env)
      invariant !met ==> |calls| >= 1 && !IsMet(c.requirements[|calls| - 1], env)
    {
      if met {
        calls := calls + [i];
        met := IsMet(c.requirements[i], env);
      }
    }
  }

  /** Adding a requirement ANDs its status onto the checker's. */
  lemma RequirementsMetAfterAdd(c: Checker, r: Requirement, env: Env)
    ensures RequirementsMet(AddRequirement(c, r), env) == (RequirementsMet(c, env) && IsMet(r, env))
  {
  }

  /** A chain of additions ANDs the status of every added requirement onto the checker's. */
  lemma RequirementsMetAfterChain(c: Checker, rs: seq<Requirement>, env: Env)
    ensures RequirementsMet(AddRequirements(c, rs), env) ==
      (RequirementsMet(c, env) && forall j :: 0 <= j < |rs| ==> IsMet(rs[j], env))
  {
    var all := AddRequirements(c, rs).requirements;
    assert all == c.requirements + rs;
    if RequirementsMet(c, env) && forall j :: 0 <= j < |rs| ==> IsMet(rs[j], env) {
      forall i | 0 <= i < |all|
        ensures IsMet(all[i], env)
      {
        if i >= |c.requirements| {
          assert all[i] == rs[i - |c.requirements|];
        }
      }
    }
    if RequirementsMet(AddRequirements(c, rs), env) {
      forall i | 0 <= i < |c.requirements|
        ensures IsMet(c.requirements[i], env)
      {
        assert all[i] == c.requirements[i];
      }
      forall j | 0 <= j < |rs|
        ensures IsMet(rs[j], env)
      {
        assert all[|c.requirements| + j] == rs[j];
      }
    }
  }

  const NoticeOpen: string := "<div class=\"notice notice-error\">"
  const NoticeClose: string := "</div>"

  /** One notice line for a failed requirement; both the plugin name and the message are escaped. */
  function Paragraph(escHtml: string -> string, name: string, message: string): string {
    "<p>" + escHtml(name) + " deactivated: " + escHtml(message) + "</p>"
  }

  /** The `foreach` of `notify`: a line per unmet requirement, skipping the met ones, in list order. */
  function NoticeLines(escHtml: string -> string, name: string, reqs: seq<Requirement>, env: Env): (lines: string)
    ensures lines == "" <==> forall i :: 0 <= i < |reqs| ==> IsMet(reqs[i], env)
    decreases |reqs|
  {
    if reqs == [] then ""
    else
      var last := reqs[|reqs| - 1];
      NoticeLines(escHtml, name, reqs[..|reqs| - 1], env)
      + (if IsMet(last, env) then "" else Paragraph(escHtml, name, GetMessage(last)))
  }

  /** The positions of the unmet requirements, in increasing order, and no others. */
  function UnmetIndices(reqs: seq<Requirement>, env: Env): (u: seq<nat>)
    ensures forall j :: 0 <= j < |u| ==> u[j] < |reqs| && !IsMet(reqs[u[j]], env)
    ensures forall j, k :: 0 <= j < k < |u| ==> u[j] < u[k]
    ensures forall i :: 0 <= i < |reqs| && !IsMet(reqs[i], env) ==> i in u
    decreases |reqs|
  {
    if reqs == [] then []
    else
      var prefix := UnmetIndices(reqs[..|reqs| - 1], env);
      if IsMet(reqs[|reqs| - 1], env) then prefix else prefix + [|reqs| - 1]
  }

  /** The lines the notice should hold: one per unmet requirement, in order. */
  function Paragraphs(escHtml: string -> string, name: string, reqs: seq<Requirement>, env: Env): (ps: seq<string>)
    ensures |ps| == |UnmetIndices(reqs, env)|
  {
    var u := UnmetIndices(reqs, env);
    seq(|u|, j requires 0 <= j < |u| => Paragraph(escHtml, name, GetMessage(reqs[u[j]])))
  }

  function Concat(parts: seq<string>): string
    decreases |parts|
  {
    if parts == [] then "" else Concat(parts[..|parts| - 1]) + parts[|parts| - 1]
  }

  /** Concatenating one more part appends it at the end. */
  lemma ConcatSnoc(parts: seq<string>, part: string)
    ensures Concat(parts + [part]) == Concat(parts) + part
  {
  }

  /** The expected lines of a list are those of all but its last requirement, plus a line for the last one if it fails. */
  lemma ParagraphsSnoc(escHtml: string -> string, name: string, reqs: seq<Requirement>, env: Env)
    requires reqs != []
    ensures var last := reqs[|reqs| - 1];
      Paragraphs(escHtml, name, reqs, env) ==
        Paragraphs(escHtml, name, reqs[..|reqs| - 1], env)
        + (if IsMet(last, env) then [] else [Paragraph(escHtml, name, GetMessage(last))])
  {
  }

  /** The notice loop writes exactly the expected lines, one per unmet requirement. */
  lemma {:induction false} NoticeLinesAreParagraphs(escHtml: string -> string, name: string, reqs: seq<Requirement>, env: Env)
    ensures NoticeLines(escHtml, name, reqs, env) == Concat(Paragraphs(escHtml, name, reqs, env))
    decreases |reqs|
  {
    if reqs != [] {
      var prefix := reqs[..|reqs| - 1];
      var last := reqs[|reqs| - 1];
      var pp := Paragraphs(escHtml, name, prefix, env);
      NoticeLinesAreParagraphs(escHtml, name, prefix, env);
      ParagraphsSnoc(escHtml, name, reqs, env);
      if IsMet(last, env) {
        assert NoticeLines(escHtml, name, reqs, env) == NoticeLines(escHtml, name, prefix, env);
        assert Paragraphs(escHtml, name, reqs, env) == pp;
      } else {
        var line := Paragraph(escHtml, name, GetMessage(last));
        assert NoticeLines(escHtml, name, reqs, env) == NoticeLines(escHtml, name, prefix, env) + line;
        assert Paragraphs(escHtml, name, reqs, env) == pp + [line];
        ConcatSnoc(pp, line);
      }
    }
  }

  /**
   The admin notice. When every requirement is met it is empty; otherwise
   it is the wrapper `div` around one line per unmet requirement, in list
   order, and there is at least one such line.
   */
  function Notify(c: Checker, env: Env): (html: string)
    ensures html == "" <==> RequirementsMet(c, env)
    ensures !RequirementsMet(c, env) ==> |UnmetIndices(c.requirements, env)| >= 1
    ensures !RequirementsMet(c, env) ==>
      html == NoticeOpen + Concat(Paragraphs(env.escHtml, c.name, c.requirements, env)) + NoticeClose
  {
    if RequirementsMet(c, env) then ""
    else
      NoticeLinesAreParagraphs(env.escHtml, c.name, c.requirements, env);
      NoticeOpen + NoticeLines(env.escHtml, c.name, c.requirements, env) + NoticeClose
  }

  /** Appending a met requirement leaves the notice unchanged. */
  lemma NotifyIgnoresMetAddition(c: Checker, r: Requirement, env: Env)
    requires IsMet(r, env)
    ensures Notify(AddRequirement(c, r), env) == Notify(c, env)
  {
    var c' := AddRequirement(c, r);
    RequirementsMetAfterAdd(c, r, env);
    if !RequirementsMet(c, env) {
      assert c'.requirements[..|c'.requirements| - 1] == c.requirements;
      assert NoticeLines(env.escHtml, c.name, c'.requirements, env) == NoticeLines(env.escHtml, c.name, c.requirements, env);
    }
  }

  /** Appending an unmet requirement adds its line after the existing ones, inside the wrapper. */
  lemma NotifyAfterUnmetAddition(c: Checker, r: Requirement, env: Env)
    requires !IsMet(r, env)
    ensures Notify(AddRequirement(c, r), env) ==
      NoticeOpen + Concat(Paragraphs(env.escHtml, c.name, c.requirements, env))
      + Paragraph(env.escHtml, c.name, GetMessage(r)) + NoticeClose
  {
    var reqs := AddRequirement(c, r).requirements;
    assert reqs[..|reqs| - 1] == c.requirements;
    RequirementsMetAfterAdd(c, r, env);
    NoticeLinesAreParagraphs(env.escHtml, c.name, reqs, env);
    NoticeLinesAreParagraphs(env.escHtml, c.name, c.requirements, env);
  }

  /** The request-level state `deactivate` touches: the `activate` query flag and the plugins deactivated so far. */
  datatype HostState = HostState(activateFlag: bool, deactivatedPlugins: seq<PluginFile>)

  /**
   Deactivation is guarded by the requirements: if they are met nothing
   happens; otherwise the `activate` flag is cleared (so the "plugin
   activated" notice does not show) and exactly this checker's plugin file
   is deactivated.
   */
  function Deactivate(c: Checker, env: Env, host: HostState): (host': HostState)
    ensures RequirementsMet(c, env) ==> host' == host
    ensures !RequirementsMet(c, env) ==> !host'.activateFlag
    ensures !RequirementsMet(c, env) ==> host'.deactivatedPlugins == host.deactivatedPlugins + [c.file]
  {
    if RequirementsMet(c, env) then host
    else HostState(false, host.deactivatedPlugins + [c.file])
  }

  /** The plugin is deactivated exactly when a notice is shown. */
  lemma DeactivateIffNotice(c: Checker, env: Env, host: HostState)
    ensures Deactivate(c, env, host) != host <==> Notify(c, env) != ""
  {
  }

  /** A fresh checker, from the constructor or from `make`, has nothing to fail: met, silent, and never deactivates. */
  lemma FreshCheckerIsVacuous(name: Value, file: string, realpath: string -> PluginFile, env: Env, host: HostState)
    ensures RequirementsMet(Make(name, file, realpath), env)
    ensures Notify(New(name, file, realpath), env) == ""
    ensures Notify(Make(name, file, realpath), env) == ""
    ensures Deactivate(Make(name, file, realpath), env, host) == host
  {
  }

  /** A checker holding one requirement, which fails, shows the wrapper around that requirement's line. */
  lemma SingleFailureNotice(empty: Checker, c: Checker, env: Env)
    requires empty.requirements == []
    requires AppendsOne(empty, c)
    requires !IsMet(Appended(empty, c), env)
    ensures Notify(c, env) == NoticeOpen + Paragraph(env.escHtml, c.name, GetMessage(Appended(empty, c))) + NoticeClose
  {
    var r := Appended(empty, c);
    assert c.requirements == [r];
    assert c.requirements[..0] == [];
    assert NoticeLines(env.escHtml, c.name, c.requirements, env) == Paragraph(env.escHtml, c.name, GetMessage(r));
  }
}
