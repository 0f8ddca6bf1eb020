/**
 * The record every stage works on, and the reasons a run of the parser stops.
 */
module Model {
  import opened Wrappers

  /**
   * One configured global shortcut. `component` is the section it was read
   * from (None for an entry read before any section header), `shortcuts` the
   * key-combination tokens, where "none" stands for "not bound", and
   * `prettyCommand` the action's display label. `prettyComponent` stays None
   * until canonicalisation fills it in.
   */
  datatype Shortcut = Shortcut(
    component: Option<string>,
    prettyComponent: Option<string>,
    command: string,
    shortcuts: seq<string>,
    prettyCommand: string)

  /** The fatal outcomes of reading the configuration; each one aborts the whole run. */
  datatype Error =
    | InvalidLine(number: nat, line: string)     // a non-blank, non-header line without '='
    | LauncherWithoutBracket(section: string)    // a "services" section name without '['
    | EmptyShortcuts(command: string)            // a value that decodes to no shortcut token
    | NoSection(command: string)                 // an entry read before any section header
    | NoDesktopFile(section: string)             // a "services" component with nothing after '['

  /** The token KDE writes for "no key bound". */
  const Unbound := "none"
}
