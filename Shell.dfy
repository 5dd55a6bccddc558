/**
 * The script's one way of running git: `runCommand`. Spawning the shell is
 * an oracle; what the model keeps is what `runCommand` does with the result.
 */
module Shell {
  import opened Wrappers
  import opened Text

  /**
   * `runCommand` (lines 7-19). `spawned` is what `spawnSync` reports: the
   * command's raw standard output, or `None` when it sets `result.error`.
   * That happens when the shell cannot be spawned, and also when the output
   * overflows `spawnSync`'s default `maxBuffer` (1 MiB), as a broad
   * `git log` can. The result is `null` exactly then, and otherwise the
   * output trimmed.
   */
  function RunCommand(spawned: Option<string>): (r: Option<string>)
    ensures r.None? <==> spawned.None?
  {
    match spawned
    case None => None
    case Some(out) => Some(Trim(out))
  }

  lemma RunCommandTrimmed(spawned: Option<string>)
    requires spawned.Some?
    ensures IsTrimmed(RunCommand(spawned).value)
  {
    TrimSpec(spawned.value);
  }

  /** JavaScript truthiness of a string-or-null: neither `null` nor `''`. */
  predicate Truthy(r: Option<string>) {
    r.Some? && r.value != []
  }
}
