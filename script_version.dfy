/**
 * The version argument shared by the two release scripts: the `--version`
 * option when given and non-empty, otherwise the `GITHUB_REF_NAME`
 * environment variable with its leading `v`s removed; an empty outcome stops
 * the script.
 */
module ScriptVersion {
  import opened Wrappers
  import opened PyStrings

  datatype VersionError = NoVersion

  /**
   * `args.version or os.getenv("GITHUB_REF_NAME", "").lstrip("v")`, then the
   * `if not version` exit. Reading the command line and the environment is
   * left to the caller: None stands for an absent option or variable.
   */
  function ResolveVersion(arg: Option<string>, env: Option<string>): Result<string, VersionError> {
    var version := if arg.Some? && arg.value != [] then arg.value else LStrip(env.GetOr(""), {'v'});
    if version == [] then Err(NoVersion) else Ok(version)
  }

  /**
   * A non-empty option is taken as it is; otherwise the variable is used
   * without its leading `v`s, and the script stops exactly when nothing but
   * `v`s (or nothing at all) is left.
   */
  lemma ResolveVersionCases(arg: Option<string>, env: Option<string>)
    ensures arg.Some? && arg.value != [] ==> ResolveVersion(arg, env) == Ok(arg.value)
    ensures !(arg.Some? && arg.value != []) ==>
      var e := env.GetOr("");
      && (ResolveVersion(arg, env).Err? <==> AllIn(e, {'v'}))
      && (ResolveVersion(arg, env).Ok? ==>
            var v := ResolveVersion(arg, env).value;
            v[0] != 'v' && e == e[..|e| - |v|] + v && AllIn(e[..|e| - |v|], {'v'}))
  {
    var e := env.GetOr("");
    var v := LStrip(e, {'v'});
    assert e == e[..|e| - |v|] + v;
    if v == [] {
      assert e[..|e|] == e;
    }
  }
}
