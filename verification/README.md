# wp-requirements: the requirement checker, modelled in Dafny

This project models the requirement checker of the `wp-requirements` library. The checker is a
guard that a WordPress plugin runs when it is activated. A plugin builds a `Checker` from its
display name and its main file, and adds requirements to it. It can add them directly, with
`add_requirement` or `add_check`, or through five builders: `class_exists`, `function_exists`,
`php_at_least`, `wp_at_least` and `plugin_active`. It then asks the checker three things:
whether every requirement is met (`requirements_met`), what admin notice to show (`notify`), and
whether to deactivate itself (`deactivate`). A requirement (`Closure_Requirement`) pairs a closure
with a failure message. It is met when PHP's `(bool)` cast of the closure's result is true.

The model is functional:

- `php_values.dfy` (module `PhpValues`) holds the PHP values a closure can return: null, bool,
  int, string and array. It defines the three casts the checker relies on. `(bool)` decides
  whether a requirement is met. `(string)` is applied to the plugin name and the failure message;
  integers are rendered in decimal, and the rendering is proved to read back. `(array)` and a
  strict `in_array` are used to search the `active_plugins` option.
- `host_env.dfy` (module `HostEnv`) is the host as one immutable `Env` record. It holds the
  declared classes and functions, the PHP and WordPress version strings, and the raw
  `active_plugins` option value. `version_compare(…, '>=')` and `esc_html` are function values
  in the record, so nothing is assumed about them.
- `closure_requirement.dfy` (module `ClosureRequirements`) holds the requirement. Its `Closure`
  datatype has one case for each builder's closure and one for any closure a caller passes to
  `add_check`. `IsMet` is a pure function of the requirement and the current environment. There
  is no stored result, so every evaluation reflects the environment it is given.
- `checker.dfy` (module `Checkers`) holds the checker: `name`, the resolved `file`, and an
  append-only `seq<Requirement>`. Adding a requirement returns the extended checker. That is the
  functional reading of the fluent `return $this`. The module also holds the `&&` fold of
  `requirements_met`, a method that records which `is_met` calls the short-circuit actually makes,
  the notice as a string, and deactivation as a change to the request state.
- `notice_examples.dfy` (module `NoticeExamples`) holds the concrete notices the repository's
  tests expect.

Two points of the code shape the model:

- `requirements_met` short-circuits, because `$met = $met && $requirement->is_met()` does.
  `EvaluateRequirements` records the `is_met` calls this makes.
- Version comparison is PHP's `version_compare`, which is left abstract.

## Model

| member | source | states |
|---|---|---|
| PhpValues.ToBool | src/class-closure-requirement.php:55-57 | The `(bool)` cast is false exactly for null, false, 0, "", "0" and the empty array, and true for every other value. |
| PhpValues.IntToDecimal | src/class-closure-requirement.php:38 | An integer cast to string is a minus sign for negatives followed by decimal digits that read back as the magnitude, with no leading zero unless the integer is 0. |
| PhpValues.DecimalRoundTrip | src/class-closure-requirement.php:38 | Reading back the decimal rendering of a natural number gives that number. |
| PhpValues.IntToDecimalInjective | src/class-closure-requirement.php:38 | Distinct integers cast to distinct strings. |
| PhpValues.IntToDecimalZero | src/class-closure-requirement.php:38 | Only 0 casts to the string "0". |
| PhpValues.ToStr | src/class-closure-requirement.php:38 | A string casts to itself, true to "1", an integer to its canonical decimal, and an array to "Array". Exactly null, false and "" cast to the empty string. |
| PhpValues.StringCastKeepsTruthiness | src/class-closure-requirement.php:38 | Casting a non-array value to string keeps its truthiness. An array becomes the truthy "Array". |
| PhpValues.ToArray | src/class-checker.php:190 | `(array)` keeps an array's values, turns null into the empty array, and wraps any other value as a single element. |
| PhpValues.InArrayStrict | src/class-checker.php:188-192 | `in_array($needle, $haystack, true)` finds the needle iff some value of the haystack is identical to it. |
| PhpValues.StrictSearchOfCast | src/class-checker.php:188-192 | A strict search for a string in the `(array)` cast of a value succeeds iff the value is that string or an array holding that string. |
| ClosureRequirements.Invoke | src/class-checker.php:87-227 | Every builder closure returns a boolean. A caller's closure returns whatever its body returns in the current environment. |
| ClosureRequirements.NewClosureRequirement | src/class-closure-requirement.php:36-40 | The constructor keeps the closure and stores the `(string)` cast of the failure message. |
| ClosureRequirements.IsMet | src/class-closure-requirement.php:55-57 | A closure requirement is met iff the `(bool)` cast of the closure's result is true. For each builder closure this is one question about the host: is the class declared, is the function declared, does version_compare allow the PHP or WP version, and is the plugin file strictly in the active plugins. |
| ClosureRequirements.GetMessage | src/class-closure-requirement.php:46-48 | `get_message` returns the stored message unchanged. |
| ClosureRequirements.MessageRoundTrip | src/class-closure-requirement.php:36-48 | `get_message` returns exactly the string given to the constructor, whatever the closure. |
| ClosureRequirements.UserClosureCoercion | src/class-closure-requirement.php:55-57 | A closure returning true is met and one returning false is not. One returning "hello" is met, and one returning null, 0, "" or "0" is not. |
| Checkers.New | src/class-checker.php:40-51 | A new checker has the name's string cast, the realpath of the file, and no requirements. |
| Checkers.Make | src/class-checker.php:237-239 | `make` builds the same checker as the constructor, with no requirements. |
| Checkers.AddRequirement | src/class-checker.php:74-78 | Appends exactly the given requirement at the end. Earlier requirements, name and file are unchanged. |
| Checkers.AddCheck | src/class-checker.php:61-65 | `add_check(cb, msg)` equals `add_requirement` of a new closure requirement, whose message is the string cast of msg. |
| Checkers.AddRequirements | src/class-checker.php:74-78 | A chain of `add_requirement` calls leaves the list as the old list followed by the added requirements in call order. |
| Checkers.ClassExists | src/class-checker.php:87-94 | Appends one requirement. Its message is "The %s class is required but missing", and in every environment it is met iff the class is declared. |
| Checkers.FunctionExists | src/class-checker.php:127-134 | Appends one requirement. Its message is "The %s function is required but missing", and it is met iff the function is declared. |
| Checkers.PhpAtLeast | src/class-checker.php:168-175 | Appends one requirement. Its message is "PHP %s or newer is required", and it is met iff the PHP version compares >= the given version. |
| Checkers.WpAtLeast | src/class-checker.php:220-227 | Appends one requirement. Its message is "WordPress %s or newer is required", and it is met iff the WordPress version compares >= the given version. |
| Checkers.PluginActive | src/class-checker.php:185-196 | Appends one requirement. Its message is "%s must be installed and active" with the plugin name, not the file. It is met iff the file is strictly a value of the `(array)`-cast `active_plugins` option. |
| Checkers.MetFold | src/class-checker.php:204-210 | The fold `$met = $met && is_met()` yields the initial value AND every requirement's status. |
| Checkers.RequirementsMet | src/class-checker.php:203-211 | `requirements_met` is true iff every requirement is met. It is vacuously true for an empty list. |
| Checkers.EvaluateRequirements | src/class-checker.php:203-211 | `is_met` is called on indices 0, 1, 2, … in order. It is called on all of them when all are met. Otherwise the calls stop right after the first unmet requirement. The result equals `requirements_met`. |
| Checkers.RequirementsMetAfterAdd | src/class-checker.php:74-78 | After appending r, the checker is met iff it was met before and r is met. |
| Checkers.RequirementsMetAfterChain | src/class-checker.php:203-211 | After a chain of additions, the checker is met iff it was met before and every added requirement is met. |
| Checkers.UnmetIndices | src/class-checker.php:146-150 | Lists, in increasing order, exactly the positions of the unmet requirements. |
| Checkers.NoticeLines | src/class-checker.php:146-156 | The `foreach` of `notify` writes nothing iff every requirement is met. |
| Checkers.NoticeLinesAreParagraphs | src/class-checker.php:146-156 | The notice loop writes one line per unmet requirement, in list order, and nothing for met ones. |
| Checkers.Notify | src/class-checker.php:139-159 | The notice is empty iff all requirements are met. Otherwise it is the `notice notice-error` div around `<p>esc(name) deactivated: esc(message)</p>` for each unmet requirement in order, with at least one such line. |
| Checkers.NotifyIgnoresMetAddition | src/class-checker.php:139-149 | Appending a met requirement does not change the notice, whether or not the checker was failing. |
| Checkers.NotifyAfterUnmetAddition | src/class-checker.php:151-158 | Appending an unmet requirement adds its line after the existing lines, inside the wrapper. |
| Checkers.SingleFailureNotice | src/class-checker.php:139-159 | A checker whose only requirement fails shows the wrapper around that requirement's single line. |
| Checkers.Deactivate | src/class-checker.php:99-110 | When the requirements are met, nothing changes. Otherwise the `activate` flag is cleared and exactly this checker's file is added to the deactivated plugins. |
| Checkers.DeactivateIffNotice | src/class-checker.php:99-110 | Deactivation changes the request state iff `notify` shows a notice. |
| Checkers.FreshCheckerIsVacuous | src/class-checker.php:48-51 | A checker from the constructor or from `make` is met, shows an empty notice, and does not deactivate. |
| NoticeExamples.ClassExistsNoticeExample | tests/test-checker.php:60-76 | "Some Plugin" requiring a declared class shows no notice. Requiring the missing class NotReal shows exactly `<div class="notice notice-error"><p>Some Plugin deactivated: The NotReal class is required but missing</p></div>`. |
| NoticeExamples.PhpVersionNoticeExample | tests/test-checker.php:101-122 | Requiring a PHP version the host does not reach shows the single line "Some Plugin deactivated: PHP %s or newer is required". |

## Left out

- `deactivate_and_notify` (src/class-checker.php:115-118) is not modelled. It only registers `deactivate` and `notify` on two WordPress hooks.
- `version_compare` is a PHP built-in and is not part of this model. `php_at_least` and `wp_at_least` are met iff an abstract `versionAtLeast(current, required)` in the environment holds.
- `esc_html` is a WordPress function and is not part of this model. It is an uninterpreted `string -> string` in the environment. The examples only require that it leaves their plain strings unchanged.
- `realpath` is a parameter of the constructor. Its `false` result is the `Unresolved` plugin file.
- `class_exists` and `function_exists` are lookups in the environment's declared-name sets. Case-insensitive matching and class autoloading are left to whoever builds the environment.
- `deactivate_plugins` is recorded as an entry in the request state's list of deactivated plugins. Its effect on WordPress (including on `active_plugins`) is not modelled.
- `$_GET['activate']` is modelled as a boolean flag of the request state.
- `notify` is modelled as a function returning the text it would echo. Output buffering is not modelled. For a met checker it returns the empty string, which is also what it echoes.
- The `is_met` calls that `notify` itself makes are not traced. They are evaluated against one environment, so the notice's first check and its loop agree. A host whose state changes between those calls is not modelled.
- Floats and the `(bool)`/`(string)` casts of floats are not modelled. Array keys are not modelled: an array is the sequence of its values.
- PHP integers are unbounded here. The 64-bit width does not affect any cast that the model covers.
- Checkers.ClassExists, Checkers.FunctionExists, Checkers.PhpAtLeast, Checkers.WpAtLeast, Checkers.PluginActive: builder arguments are strings. For a string, `sprintf('%s')` inserts the argument unchanged. Non-string arguments are not modelled.
- The namespace mismatch is not modelled. `Closure_Requirement` is declared in a different namespace from the checker, which is a packaging issue and not a behaviour.
- PHP objects are not modelled. A closure returning an object would always be met under `(bool)`. An object passed as the plugin name or failure message would be cast with `__toString`, or throw an Error without one.
- Exceptions thrown by a caller's closure are not modelled. In PHP they propagate out of `is_met` through `requirements_met`, `notify` and `deactivate`; here a `UserClosure` is a total function of the environment.
- Shared references to one checker are not modelled. `return $this` (src/class-checker.php:77) lets every reference see an append; here `AddRequirement` returns a new checker value and earlier values are unchanged.
- Any other `Requirement_Interface` implementation is the `OtherRequirement` case. Its check is an arbitrary boolean function of the environment.
