/** The start-up configuration of the watcher: the parsed command-line options
    resolved into the root and output directories, the output extension, the
    list of ignored directory names and the compiler options. */
module Config {
  import opened Wrappers
  import opened Paths

  /** The `ignore` option as the option parser delivers it: a single string
      when given once, a list when given several times. */
  datatype IgnoreOption = Single(name: string) | Several(names: seq<string>)

  /** The parsed command line; `None` is an option that was not given. */
  datatype Argv = Argv(
    directory: Option<string>,
    output: Option<string>,
    extension: Option<string>,
    ignore: Option<IgnoreOption>,
    compress: Option<bool>,
    optimization: Option<int>)

  /** What is handed to the LESS compiler. */
  datatype Options = Options(compress: bool, optimization: int)

  /** The resolved start-up settings. */
  datatype Settings = Settings(
    root: string,
    output: string,
    extension: string,
    ignore: seq<string>,
    options: Options)

  /** The extension used when none is given. */
  const DefaultExtension := ".less.css"

  /** The output extension: the given one if it already starts with a dot,
      otherwise the given one behind a dot; `.less.css` when none is given.
      An empty string has no first character, so it becomes `.`. */
  function NormalizeExtension(e: Option<string>): (r: string)
    ensures |r| > 0 && r[0] == '.'
    ensures e.None? ==> r == DefaultExtension
    ensures e.Some? ==> r == e.value || r == "." + e.value
  {
    match e
    case None => DefaultExtension
    case Some(x) => if |x| > 0 && x[0] == '.' then x else "." + x
  }

  /** The ignore list: empty when the option is absent, a one-element list for
      a single name, the given list otherwise. */
  function IgnoreList(opt: Option<IgnoreOption>): (r: seq<string>)
    ensures opt.None? ==> r == []
    ensures opt.Some? && opt.value.Single? ==> |r| == 1
    ensures forall n :: n in r <==> IgnoredBy(opt, n)
  {
    match opt
    case None => []
    case Some(Single(name)) => [name]
    case Some(Several(names)) => names
  }

  /** The arguments `path.resolve` is modelled for: the working directory is a
      clean absolute directory and the directory options are clean paths. */
  predicate ArgsOk(cwd: string, argv: Argv) {
    IsAbsDir(cwd)
    && IsPathArg(argv.directory.GetOr(""))
    && (argv.output.Some? ==> IsPathArg(argv.output.value))
  }

  /** The configuration the script builds from the working directory and the
      parsed command line. */
  function ResolveConfig(cwd: string, argv: Argv): (c: Settings)
    requires ArgsOk(cwd, argv)
    ensures IsAbsDir(c.root) && IsAbsDir(c.output)
    ensures argv.directory.None? ==> c.root == cwd
    ensures argv.directory.Some? ==> c.root == Resolve(cwd, argv.directory.value)
    ensures argv.output.None? ==> c.output == c.root
    ensures argv.output.Some? ==> c.output == Resolve(cwd, argv.output.value)
    ensures c.extension == NormalizeExtension(argv.extension)
    ensures forall n :: n in c.ignore <==> IgnoredBy(argv.ignore, n)
    ensures c.options.compress <==> argv.compress.Some?
    ensures argv.optimization.None? ==> c.options.optimization == 0
    ensures argv.optimization.Some? ==> c.options.optimization == argv.optimization.value
  {
    var root := Resolve(cwd, argv.directory.GetOr(""));
    var output := if argv.output.Some? then Resolve(cwd, argv.output.value) else root;
    Settings(
      root,
      output,
      NormalizeExtension(argv.extension),
      IgnoreList(argv.ignore),
      Options(argv.compress.Some?, argv.optimization.GetOr(0)))
  }

  /** Whether the `ignore` option names directory `n`, read off the option directly. */
  predicate IgnoredBy(opt: Option<IgnoreOption>, n: string) {
    match opt
    case None => false
    case Some(Single(name)) => n == name
    case Some(Several(names)) => n in names
  }

  /** A list-valued option is kept as it is, order and repetitions included. */
  lemma IgnoreListKeepsList(names: seq<string>)
    ensures IgnoreList(Some(Several(names))) == names
  {
  }

  /** Normalising an already normalised extension changes nothing. */
  lemma NormalizeExtensionIdempotent(e: Option<string>)
    ensures NormalizeExtension(Some(NormalizeExtension(e))) == NormalizeExtension(e)
  {
  }

  /** A dotted extension is kept, an undotted one gains exactly one dot. */
  lemma NormalizeExtensionCases(x: string)
    ensures |x| > 0 && x[0] == '.' ==> NormalizeExtension(Some(x)) == x
    ensures !(|x| > 0 && x[0] == '.') ==> NormalizeExtension(Some(x)) == "." + x
  {
  }
}
