/** `main`: resolve the two credentials (the command-line value first, then the
    environment), stop before anything is built when either is missing, then
    analyse the keyword and save a non-empty result under a timestamped name.
    Argument parsing, the environment file and the interactive prompt are
    inputs: the parsed options, the environment values and the typed keyword. */
module Cli {
  import opened Text
  import opened Fetch
  import opened Frame
  import opened Assemble
  import opened Export

  /** The parsed command line; `--max-posts` defaults to 50 in the parser. */
  datatype CliArgs = CliArgs(
    keyword: Option<string>,
    maxPosts: int,
    xBearerToken: Option<string>,
    deepseekKey: Option<string>)

  /** `X_BEARER_TOKEN` and `DEEPSEEK_API_KEY` as the environment holds them. */
  datatype Environment = Environment(xBearerToken: Option<string>, deepseekApiKey: Option<string>)

  datatype Credentials = Credentials(xBearerToken: string, deepseekApiKey: string)

  /** How a run of `main` ends. A run that lacks credentials ends before the
      clients are built and before any search; the others record what they used. */
  datatype RunOutcome =
    | MissingCredentials
    | NoResults(credentials: Credentials, keyword: string)
    | Saved(credentials: Credentials, keyword: string, rows: seq<Row>, written: Written)

  /** Python truthiness of an optional string: `None` and `""` are false, every
      other string is true. */
  function Truthy(v: Option<string>): (b: bool)
    ensures v == None ==> !b
    ensures v == Some("") ==> !b
    ensures v.Some? && |v.value| > 0 ==> b
  {
    v.Some? && v.value != ""
  }

  /** `cli or env`: the command-line value when it is truthy, else the
      environment value as it is. */
  function Resolve(cli: Option<string>, env: Option<string>): (r: Option<string>)
    ensures Truthy(cli) ==> r == cli
    ensures !Truthy(cli) ==> r == env
    ensures Truthy(r) <==> Truthy(cli) || Truthy(env)
  {
    if Truthy(cli) then cli else env
  }

  /** Both credentials after precedence, or `None` when either is missing or
      empty: the only check `main` makes before building the analyzer. */
  function ResolveCredentials(args: CliArgs, env: Environment): (r: Option<Credentials>)
    ensures r.None? <==>
              || (!Truthy(args.xBearerToken) && !Truthy(env.xBearerToken))
              || (!Truthy(args.deepseekKey) && !Truthy(env.deepseekApiKey))
    ensures r.Some? && Truthy(args.xBearerToken) ==> r.value.xBearerToken == args.xBearerToken.value
    ensures r.Some? && !Truthy(args.xBearerToken) ==> Some(r.value.xBearerToken) == env.xBearerToken
    ensures r.Some? && Truthy(args.deepseekKey) ==> r.value.deepseekApiKey == args.deepseekKey.value
    ensures r.Some? && !Truthy(args.deepseekKey) ==> Some(r.value.deepseekApiKey) == env.deepseekApiKey
  {
    var token := Resolve(args.xBearerToken, env.xBearerToken);
    var key := Resolve(args.deepseekKey, env.deepseekApiKey);
    if Truthy(token) && Truthy(key) then Some(Credentials(token.value, key.value)) else None
  }

  /** `args.keyword`, or what the user types when it is missing or empty. A
      non-empty keyword argument always wins; the typed text is used otherwise. */
  function ChooseKeyword(args: CliArgs, typed: string): (keyword: string)
    ensures args.keyword.Some? && args.keyword.value != "" ==> keyword == args.keyword.value
    ensures args.keyword == None || args.keyword == Some("") ==> keyword == typed
  {
    if Truthy(args.keyword) then args.keyword.value else typed
  }

  /** `main`, given the clients each credential connects to, the date
      formatter and the current timestamp. */
  method RunCli(args: CliArgs, env: Environment, typed: string,
                connectX: string -> SearchApi, connectLlm: string -> SummaryApi,
                formatDate: DateFormatter, timestamp: string)
    returns (outcome: RunOutcome)
    ensures outcome.MissingCredentials? <==> ResolveCredentials(args, env).None?
    ensures !outcome.MissingCredentials? ==>
              && outcome.credentials == ResolveCredentials(args, env).value
              && outcome.keyword == ChooseKeyword(args, typed)
    ensures !outcome.MissingCredentials? ==>
              var rows := Analysis(outcome.keyword, args.maxPosts,
                                   connectX(outcome.credentials.xBearerToken),
                                   connectLlm(outcome.credentials.deepseekApiKey), formatDate);
              && (outcome.NoResults? <==> rows == [])
              && (outcome.Saved? ==>
                    && outcome.rows == rows
                    && outcome.written.Workbook?
                    && outcome.written.filename == WorkbookPrefix + timestamp + XlsxExtension
                    && outcome.written.rows == rows
                    && |outcome.written.widths| == |Columns|
                    && forall c :: 0 <= c < |Columns| ==>
                         outcome.written.widths[c] == ColumnWidth(SheetColumns(rows)[c]))
  {
    var token := Resolve(args.xBearerToken, env.xBearerToken);
    var key := Resolve(args.deepseekKey, env.deepseekApiKey);
    if !Truthy(token) || !Truthy(key) {
      return MissingCredentials;
    }
    var credentials := Credentials(token.value, key.value);
    var keyword := if Truthy(args.keyword) then args.keyword.value else typed;
    var api := connectX(credentials.xBearerToken);
    var llm := connectLlm(credentials.deepseekApiKey);
    var rows := AnalyzeTopic(keyword, args.maxPosts, api, llm, formatDate);
    if rows == [] {
      return NoResults(credentials, keyword);
    }
    var written := SaveToExcel(rows, None, timestamp);
    outcome := Saved(credentials, keyword, rows, written.value);
  }
}
