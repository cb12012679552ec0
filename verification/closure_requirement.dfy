/**
 A requirement: a check plus the message shown when the check fails. The
 default kind pairs a closure with a message that was cast to string at
 construction; whether it is met is the PHP truthiness of what the closure
 returns when it is called. Nothing is cached: `IsMet` is a function of the
 requirement and the current host environment alone.
 */
module ClosureRequirements {
  import opened PhpValues
  import opened HostEnv

  /**
   The closures a requirement can hold: the five the checker's builders
   create, each capturing one argument, or any closure a caller hands to
   `add_check`, given here by what it returns in each environment.
   */
  datatype Closure =
    | ClassExistsClosure(className: string)
    | FunctionExistsClosure(functionName: string)
    | PhpAtLeastClosure(phpVersion: string)
    | WpAtLeastClosure(wpVersion: string)
    | PluginActiveClosure(pluginFile: string)
    | UserClosure(body: Env -> Value)

  /** What calling the closure returns in the given environment. */
  function Invoke(closure: Closure, env: Env): (v: Value)
    ensures !closure.UserClosure? ==> v.Bool?
    ensures closure.UserClosure? ==> v == closure.body(env)
  {
    match closure
    case ClassExistsClosure(name) => Bool(name in env.classes)
    case FunctionExistsClosure(name) => Bool(name in env.functions)
    case PhpAtLeastClosure(version) => Bool(env.versionAtLeast(env.phpVersion, version))
    case WpAtLeastClosure(version) => Bool(env.versionAtLeast(env.wpVersion, version))
    case PluginActiveClosure(file) => Bool(InArrayStrict(Str(file), ToArray(env.activePluginsOption)))
    case UserClosure(body) => body(env)
  }

  /**
   The requirement capability: a failure message and a met/unmet check.
   `ClosureRequirement` is the default implementation; `OtherRequirement`
   stands for any other implementation of the same capability, whose check
   already yields a boolean.
   */
  datatype Requirement =
    | ClosureRequirement(closure: Closure, message: string)
    | OtherRequirement(check: Env -> bool, message: string)

  /** Builds the default requirement; the failure message goes through PHP's `(string)` cast. */
  function NewClosureRequirement(closure: Closure, failureMessage: Value): (r: Requirement)
    ensures r.ClosureRequirement?
    ensures r.closure == closure
    ensures GetMessage(r) == ToStr(failureMessage)
  {
    ClosureRequirement(closure, ToStr(failureMessage))
  }

  /** The failure message, exactly as stored at construction. */
  function GetMessage(r: Requirement): (message: string)
    ensures message == r.message
  {
    r.message
  }

  /**
   Whether the requirement is met in the given environment. For a closure
   requirement this is the `(bool)` cast of the closure's result, which for
   each builder closure comes down to one question about the host.
   */
  function IsMet(r: Requirement, env: Env): (met: bool)
    ensures r.ClosureRequirement? ==> (met <==> ToBool(Invoke(r.closure, env)))
    ensures r.OtherRequirement? ==> (met <==> r.check(env))
    ensures r.ClosureRequirement? && r.closure.ClassExistsClosure? ==>
      (met <==> r.closure.className in env.classes)
    ensures r.ClosureRequirement? && r.closure.FunctionExistsClosure? ==>
      (met <==> r.closure.functionName in env.functions)
    ensures r.ClosureRequirement? && r.closure.PhpAtLeastClosure? ==>
      (met <==> env.versionAtLeast(env.phpVersion, r.closure.phpVersion))
    ensures r.ClosureRequirement? && r.closure.WpAtLeastClosure? ==>
      (met <==> env.versionAtLeast(env.wpVersion, r.closure.wpVersion))
    ensures r.ClosureRequirement? && r.closure.PluginActiveClosure? ==>
      (met <==> (env.activePluginsOption == Str(r.closure.pluginFile)
                 || (env.activePluginsOption.Arr? && Str(r.closure.pluginFile) in env.activePluginsOption.elems)))
  {
    match r
    case ClosureRequirement(closure, _) =>
      if closure.PluginActiveClosure? then
        StrictSearchOfCast(closure.pluginFile, env.activePluginsOption);
        ToBool(Invoke(closure, env))
      else
        ToBool(Invoke(closure, env))
    case OtherRequirement(check, _) => check(env)
  }

  /** The message given to the constructor as a string comes back unchanged, whatever the closure. */
  lemma MessageRoundTrip(closure: Closure, message: string)
    ensures GetMessage(NewClosureRequirement(closure, Str(message))) == message
  {
  }

  /**
   How a caller's closure result decides the requirement: `true` and
   `false` are taken as they are, any other value by PHP truthiness — a
   non-empty string such as "hello" is met, while null (a closure that
   returns nothing), 0, "" and "0" are not.
   */
  lemma UserClosureCoercion(body: Env -> Value, message: Value, env: Env)
    ensures body(env) == Bool(true) ==> IsMet(NewClosureRequirement(UserClosure(body), message), env)
    ensures body(env) == Bool(false) ==> !IsMet(NewClosureRequirement(UserClosure(body), message), env)
    ensures body(env) == Str("hello") ==> IsMet(NewClosureRequirement(UserClosure(body), message), env)
    ensures body(env) == Null || body(env) == Int(0) || body(env) == Str("") || body(env) == Str("0") ==>
      !IsMet(NewClosureRequirement(UserClosure(body), message), env)
  {
  }
}
