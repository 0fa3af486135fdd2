/** `merge_config` of the command-line entry point: the options read from a
    configuration file, overridden by every command-line option whose value
    is not None, except one named `config`. */
module CliMerge {
  import opened Wrappers

  /** `vars(cli_args)`: each option's destination name and its value, None
      when the option was neither given nor has a default. */
  type Namespace<V> = map<string, Option<V>>

  /** The name the merge never copies from the command line. */
  const ConfigKey: string := "config"

  /** `merge_config(cli_args, cfg_dict)`. */
  function MergeConfig<V>(cli: Namespace<V>, cfg: map<string, V>): (merged: map<string, V>)
    ensures forall k :: k in merged <==> k in cfg || (k in cli && cli[k].Some? && k != ConfigKey)
    ensures forall k | k in cli && cli[k].Some? && k != ConfigKey :: merged[k] == cli[k].value
    ensures forall k | k in cfg && !(k in cli && cli[k].Some? && k != ConfigKey) :: merged[k] == cfg[k]
  {
    map k | k in cfg.Keys + cli.Keys && (k in cfg || (k in cli && cli[k].Some? && k != ConfigKey)) ::
      if k in cli && cli[k].Some? && k != ConfigKey then cli[k].value else cfg[k]
  }

  /** A command line whose values are all None changes nothing, and neither
      does one that only sets `config`. */
  lemma NoneNeverOverrides<V>(cli: Namespace<V>, cfg: map<string, V>)
    requires forall k | k in cli && k != ConfigKey :: cli[k].None?
    ensures MergeConfig(cli, cfg) == cfg
  {
  }

  /** Merging with the same command line twice is the same as once. */
  lemma MergeIdempotent<V>(cli: Namespace<V>, cfg: map<string, V>)
    ensures MergeConfig(cli, MergeConfig(cli, cfg)) == MergeConfig(cli, cfg)
  {
  }

  /** The values the parser produces. */
  datatype Value = Str(s: string) | Int(i: int) | Bool(b: bool) | StrList(items: seq<string>)

  /** The namespace the parser gives when no option is on the command line:
      the `--version` action stores nothing; `--cfg` is stored as `cfg`. */
  function ParserDefaults(): Namespace<Value>
  {
    map[
      "cfg" := None, "root_dir" := None, "filepath" := None,
      "ignore_dirs" := None, "ignore_files" := None,
      "include_dirs" := None, "include_files" := None,
      "style" := Some(Str("classic")), "indent" := Some(Int(2)),
      "files_first" := Some(Bool(false)), "skip_sorting" := Some(Bool(false)),
      "sort_key" := Some(Str("natural")), "reverse" := Some(Bool(false)),
      "no_save" := Some(Bool(false)), "printout" := Some(Bool(false))]
  }

  /** The options with a default that is not None. */
  const Defaulted: set<string> :=
    {"style", "indent", "files_first", "skip_sorting", "sort_key", "reverse", "no_save", "printout"}

  /** Every option the parser fills with a default overrides the
      configuration file, even when the user never typed it; the options
      without a default leave the file's values alone. */
  lemma DefaultsOverrideConfig(cfg: map<string, Value>)
    ensures forall k | k in Defaulted :: k in MergeConfig(ParserDefaults(), cfg) && MergeConfig(ParserDefaults(), cfg)[k] == ParserDefaults()[k].value
    ensures forall k | k in cfg && k !in Defaulted :: MergeConfig(ParserDefaults(), cfg)[k] == cfg[k]
    ensures MergeConfig(ParserDefaults(), cfg)["style"] == Str("classic")
  {
    var d := ParserDefaults();
    assert forall k | k in d :: d[k].Some? <==> k in Defaulted;
  }

  /** The configuration-file path is stored under `cfg`, not `config`, so
      a given `--cfg` is copied into the merged options. */
  lemma CfgIsCopied(cli: Namespace<Value>, cfg: map<string, Value>, path: string)
    requires "cfg" in cli && cli["cfg"] == Some(Str(path))
    ensures "cfg" in MergeConfig(cli, cfg) && MergeConfig(cli, cfg)["cfg"] == Str(path)
  {
  }
}
