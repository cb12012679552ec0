/**
 The WordPress and PHP host as the requirement checker sees it. Every host
 call the checker makes becomes a field of one immutable record: the
 symbol tables behind `class_exists` and `function_exists`, the strings
 `phpversion()` and `get_bloginfo('version')` return, the raw value
 `get_option('active_plugins')` returns, and the two host functions whose
 code is not part of this model — `version_compare(a, b, '>=')` and
 `esc_html` — as uninterpreted function values.
 */
module HostEnv {
  import opened PhpValues

  datatype Env = Env(
    classes: set<string>,
    functions: set<string>,
    phpVersion: string,
    wpVersion: string,
    activePluginsOption: Value,
    versionAtLeast: (string, string) -> bool,
    escHtml: string -> string)

  /** What `realpath` made of the plugin file given to the checker's constructor. */
  datatype PluginFile = Resolved(path: string) | Unresolved
}
