/**
 * JavaScript values as the publish scripts see them: optional strings from
 * the command line, loosely typed flags, the parsed argument record and the
 * exceptions the scripts can throw.
 */
module Js {

  datatype Option<T> = None | Some(value: T)
  {
    function GetOr(default: T): T
    {
      match this
      case Some(v) => v
      case None => default
    }
  }

  /** An option value as the argument parser hands it over: absent, a boolean or text. */
  datatype Flag = Unset | Bool(b: bool) | Text(s: string)

  /** JavaScript truthiness of a flag (`if (argv.mathjax)`). */
  predicate FlagTruthy(f: Flag)
  {
    f == Bool(true) || (f.Text? && f.s != "")
  }

  /** Strict comparison with `true` (`argv.mathjax === true`). */
  predicate StrictTrue(f: Flag)
  {
    f == Bool(true)
  }

  /** JavaScript truthiness of a possibly undefined string: `undefined` and `''` are falsy. */
  predicate Truthy(o: Option<string>)
  {
    o.Some? && o.value != ""
  }

  /** The text `+` produces for a possibly undefined string operand. */
  function ToStr(o: Option<string>): string
  {
    match o
    case Some(s) => s
    case None => "undefined"
  }

  /** `x || fallback` for a string option. */
  function OrElse(o: Option<string>, fallback: string): (r: string)
    ensures Truthy(o) ==> r == o.value
    ensures !Truthy(o) ==> r == fallback
  {
    if Truthy(o) then o.value else fallback
  }

  /**
   * The parsed command line. `command` is `argv._[0]`; the dashed option
   * names of the scripts (`export-format`, `app-os`, ...) become camel case.
   */
  datatype Argv = Argv(
    command: Option<string>,
    book: Option<string>,
    language: Option<string>,
    subdir: Option<string>,
    format: Option<string>,
    exportFormat: Option<string>,
    baseurl: Option<string>,
    configs: Option<string>,
    switches: Option<string>,
    mathjax: Flag,
    incremental: Flag,
    appBuild: Flag,
    appRelease: Flag,
    appEmulate: Flag,
    appOs: Option<string>)

  /** Exceptions the modelled code can throw. */
  datatype Thrown =
    | TypeError                 // a property read on undefined, or a call of a missing method
    | NoSuchFile(path: string)  // readFileSync / readdirSync on a path that does not exist
    | SourceMissing(path: string)

  datatype Result<T> = Ok(value: T) | Err(error: Thrown)
}
