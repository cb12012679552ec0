/**
 The checker's notices for the concrete cases its own tests exercise: a
 checker named "Some Plugin" with a single class or PHP version
 requirement. `esc_html` is assumed to leave these plain strings as they
 are, which holds for any HTML escaping since they contain no markup.
 */
module NoticeExamples {
  import opened PhpValues
  import opened HostEnv
  import opened ClosureRequirements
  import opened Checkers

  /** A present class gives no notice; a missing one gives exactly the notice the tests expect. */
  lemma ClassExistsNoticeExample(realpath: string -> PluginFile, env: Env)
    requires "DateTime" in env.classes
    requires "NotReal" !in env.classes
    requires env.escHtml("Some Plugin") == "Some Plugin"
    requires env.escHtml("The NotReal class is required but missing") == "The NotReal class is required but missing"
    ensures Notify(ClassExists(New(Str("Some Plugin"), "", realpath), "DateTime"), env) == ""
    ensures Notify(ClassExists(New(Str("Some Plugin"), "", realpath), "NotReal"), env)
      == NoticeOpen + "<p>" + "Some Plugin" + " deactivated: " + "The NotReal class is required but missing" + "</p>" + NoticeClose
  {
    var empty := New(Str("Some Plugin"), "", realpath);
    var met := ClassExists(empty, "DateTime");
    assert met.requirements == [Appended(empty, met)];
    var c := ClassExists(empty, "NotReal");
    SingleFailureNotice(empty, c, env);
    ClassMessageText();
  }

  /** The class template filled in with "NotReal", spelled out as one literal. */
  lemma ClassMessageText()
    ensures "The " + "NotReal" + " class is required but missing" == "The NotReal class is required but missing"
  {
  }

  /** A PHP version the host does not reach gives a notice naming that version. */
  lemma PhpVersionNoticeExample(realpath: string -> PluginFile, env: Env, version: string)
    requires !env.versionAtLeast(env.phpVersion, version)
    requires env.escHtml("Some Plugin") == "Some Plugin"
    requires env.escHtml("PHP " + version + " or newer is required") == "PHP " + version + " or newer is required"
    ensures Notify(PhpAtLeast(New(Str("Some Plugin"), "", realpath), version), env)
      == NoticeOpen + "<p>" + "Some Plugin" + " deactivated: " + ("PHP " + version + " or newer is required") + "</p>" + NoticeClose
  {
    var empty := New(Str("Some Plugin"), "", realpath);
    var c := PhpAtLeast(empty, version);
    SingleFailureNotice(empty, c, env);
  }
}
