# X topic analyzer: record-shaping core

The X topic analyzer searches X (formerly Twitter) for recent posts on a keyword.
It summarises each post with a DeepSeek chat model and writes the results to a
spreadsheet. This project models the deterministic layer beneath those calls and
proves properties of it. That layer covers:

- **Fetch** (`search_x_posts`): the request with its `min(max_results, 100)` cap and the author index built from the `users` expansion. It also covers the per-tweet post record, with the `'unknown'`/`False` author fallbacks and the status link.
- **Assemble** (`generate_summary_with_deepseek`, `analyze_topic`): the summary outcome, which is either the stripped reply or `"Summary generation failed"`. It also covers building one row per post: topic, `"Name (@handle)"`, the 200-character truncation and the engagement line.
- **Frame**: the eight-column row schema, the worksheet pandas builds from the rows, and the column-width pass shared by both `save_to_excel` variants (`min(longest cell + 2, 50)`).
- **Export** (`save_to_excel`): no file for an empty table; otherwise a workbook under the given name or `x_analysis_<timestamp>.xlsx`.
- **Cli** (`main`): each credential takes the command-line value when it is truthy and the environment value otherwise. A missing credential ends the run before any client is built. After that comes the keyword choice, the analysis and the save.
- **Mock** (`MockXTopicAnalyzer`): `analyze_topic` returns a prefix of the mock rows. `save_to_excel` chooses `.xlsx` or `.csv` by extension and by whether the workbook engine is installed. When the engine is missing it falls back to CSV and renames the file with `str.replace`.
- **Text**: the Python built-ins these rely on: `str(int)`, `str.strip`, `str.endswith`, `str.replace` and slicing.

Foreign calls are parameters. The search endpoint is a function from request to
outcome, and the chat model is a function from (text, keyword) to
`Completed(content)` or `CallFailed`. The date formatter is a function from
timestamp to text. The run's timestamp text, the parsed options, the environment
values, the typed keyword, the mock rows and whether the workbook engine is
installed are all plain inputs. `Cli.RunCli` receives, for each credential, the
client that credential connects to. Its contract therefore shows which credential
each analysis used.

Notes on the source:

- The main `save_to_excel` has no CSV fallback. `main` calls it without a filename, so its workbook is named `x_analysis_<timestamp>.xlsx`; there is no CSV path.
- Only the mock variant picks `.csv` when the engine is missing, and its generated prefix is `x_analysis_mock_`.
- The mock fallback rewrites every `.xlsx` in the name, not just the extension.

## Model

| member | source | states |
|---|---|---|
| Text.Decimal | x_topic_analyzer.py:204 | `str(n)` of a count is the shortest numeral: a non-empty digit string with no leading zero, and exactly "0" for 0 |
| Text.DecimalRoundTrip | x_topic_analyzer.py:204 | reading the numeral `str(n)` back gives n |
| Text.DecimalInjective | x_topic_analyzer.py:115 | distinct ids and counts have distinct numerals |
| Text.Strip | x_topic_analyzer.py:161 | `strip()` never lengthens; its result neither starts nor ends with whitespace |
| Text.StripCharacterized | x_topic_analyzer.py:161 | any cut into leading whitespace, a core with non-space ends and trailing whitespace is the cut `strip()` makes |
| Text.StripIdempotent | x_topic_analyzer.py:161 | stripping a stripped summary changes nothing |
| Text.ReplaceAll | test_analyzer.py:174 | `replace` with a replacement no longer than the pattern (".csv" for ".xlsx") never lengthens the name; with a non-empty replacement only the empty name becomes empty |
| Text.ReplaceAllAbsent | test_analyzer.py:174 | `replace` leaves a name with no `.xlsx` in it unchanged |
| Text.PrefixSlice | test_analyzer.py:106 | `s[:stop]` is a prefix of s; of length `min(stop, len)` for stop >= 0 and `max(len + stop, 0)` for negative stop |
| Fetch.BuildRequest | x_topic_analyzer.py:76-81 | the query is keyword + " -is:retweet lang:en"; the count asked is at most 100 and at most max_results, and equals one of them |
| Fetch.UserIndex | x_topic_analyzer.py:93-96 | every entry of the author dictionary is one of the included users, filed under that user's own id |
| Fetch.UserIndexKeys | x_topic_analyzer.py:93-96 | an id is in the author dictionary iff some included user has it |
| Fetch.UserIndexLastWins | x_topic_analyzer.py:93-96 | an id maps to the last included user with that id |
| Fetch.NormalizeTweet | x_topic_analyzer.py:101-116 | tweet fields are copied. A known author gives its username, name and verified flag; an unknown one gives 'unknown', 'unknown', False. The url is "https://twitter.com/" + the record's username + "/status/" + the id |
| Fetch.NormalizeAll | x_topic_analyzer.py:99-119 | one record per tweet; record i carries tweet i's id |
| Fetch.NormalizeAllAt | x_topic_analyzer.py:99-119 | one post record per tweet, in tweet order |
| Fetch.SearchResult | x_topic_analyzer.py:87-124 | an API error gives no posts; a response gives one record per tweet, record i carrying tweet i's id |
| Fetch.SearchResultShape | x_topic_analyzer.py:87-124 | an API error or empty data gives []; otherwise the length equals the tweet count and record i comes from tweet i |
| Fetch.SearchResultUnknownAuthor | x_topic_analyzer.py:101-115 | a tweet whose author is not included gets 'unknown', 'unknown', False and a link through /unknown/ |
| Fetch.SearchResultKnownAuthor | x_topic_analyzer.py:93-115 | a tweet whose author is included takes username, name, verified flag and link from the last included user with that id |
| Fetch.SearchPosts | x_topic_analyzer.py:63-124 | the method (author loop, then tweet loop) returns exactly the search result of the capped request |
| Frame.BoolText | x_topic_analyzer.py:245 | `str` of the verified flag is "True" exactly when the flag is set, and "False" otherwise |
| Frame.CellText | x_topic_analyzer.py:245 | the cell under each column name holds the row field of that name; under "Author Verified" it is "True" or "False" as the flag says |
| Frame.SheetColumns | x_topic_analyzer.py:231-243 | the worksheet has the eight columns in schema order; each holds the header and then one cell per row, in row order |
| Frame.MaxLength | x_topic_analyzer.py:240-248 | the running maximum bounds every cell length and is 0 or some cell's length |
| Frame.ColumnWidth | x_topic_analyzer.py:250 | each width is in [2, 50]. It is at least every cell's capped length + 2, and it is 2, 50 or some cell's length + 2. It is 50 only when some cell's length + 2 reaches 50 |
| Frame.AutoWidths | x_topic_analyzer.py:239-251 | the nested loop gives one width per column, equal to that column's `min(max + 2, 50)` |
| Assemble.SummaryText | x_topic_analyzer.py:161-166 | a failed call gives exactly "Summary generation failed"; a reply gives its stripped content |
| Assemble.TruncateText | x_topic_analyzer.py:203 | text of at most 200 characters is kept verbatim. Longer text keeps its first 200 characters and gains "...", 203 in all. The result is never over 203 |
| Assemble.AuthorDisplay | x_topic_analyzer.py:198 | "Name (@handle)" is four characters longer than name and handle together |
| Assemble.AuthorDisplayRoundTrip | x_topic_analyzer.py:198 | for a handle without '@', the display string yields back both the name and the handle |
| Assemble.Engagement | x_topic_analyzer.py:204 | the line opens with the heart, the like numeral and the retweet separator, holds the retweet numeral next, and closes with the reply separator and the reply numeral |
| Assemble.EngagementInjective | x_topic_analyzer.py:204 | the engagement line determines the like, retweet and reply counts it shows |
| Assemble.MakeRow | x_topic_analyzer.py:196-205 | a row has the keyword as topic, an author string that parses back to the post's name and handle, the post's flag, formatted date and link, the stripped summary or the failure text, text of at most 203 characters: verbatim up to 200, else its first 200 characters + "..." and the post's engagement line |
| Assemble.Rows | x_topic_analyzer.py:188-206 | one row per post, each with the keyword as topic and its own post's link |
| Assemble.RowsAt | x_topic_analyzer.py:188-206 | one row per post, in post order, whatever the post's summary outcome |
| Assemble.Analysis | x_topic_analyzer.py:180-211 | the table is empty exactly when the search call failed or returned no tweets |
| Assemble.AnalysisRows | x_topic_analyzer.py:180-206 | rows match posts one-to-one, and none exist without posts. Each row has the keyword as topic, "Name (@handle)", the post's link and date, the summary or failure text, the truncated text (at most 203) and the engagement line |
| Assemble.AssembleRows | x_topic_analyzer.py:188-211 | the loop returns exactly the row sequence of the posts |
| Assemble.AnalyzeTopic | x_topic_analyzer.py:168-211 | search, an empty table when nothing came back, else the rows. The result is exactly the analysis of the keyword and limit |
| Export.SaveToExcel | x_topic_analyzer.py:213-263 | an empty table writes nothing. Otherwise one workbook with all rows, under the given name or x_analysis_<timestamp>.xlsx, with one computed width per column |
| Cli.Truthy | x_topic_analyzer.py:281-285 | `None` and `""` are false and every non-empty string is true |
| Cli.Resolve | x_topic_analyzer.py:281-282 | a truthy command-line value wins, else the environment value; the result is truthy iff either input is |
| Cli.ResolveCredentials | x_topic_analyzer.py:281-289 | credentials are missing iff both slots of either credential are missing or empty; each one present comes from the command line when given there, else from the environment |
| Cli.ChooseKeyword | x_topic_analyzer.py:292-294 | a non-empty `--keyword` is used; a missing or empty one gives way to the typed keyword |
| Cli.RunCli | x_topic_analyzer.py:265-308 | missing credentials end the run with no client and no search. Otherwise the analysis uses the resolved credentials and the argument or typed keyword, and ends with no results or a saved workbook of exactly those rows, named x_analysis_<timestamp>.xlsx, with every column's computed width |
| Mock.MockAnalyzeTopic | test_analyzer.py:91-107 | the result is a prefix of the mock rows, of length `min(len, max_posts)` for max_posts >= 0; a negative max_posts drops rows from the end |
| Mock.AutoName | test_analyzer.py:122-129 | the generated name starts with x_analysis_mock_ + timestamp and ends in .xlsx exactly when the engine is installed, else in .csv; its length is the prefix's, the timestamp's and the extension's together |
| Mock.ChosenName | test_analyzer.py:122-129 | a given name is used as it is; otherwise the name is generated, starting with x_analysis_mock_ + timestamp and ending in .xlsx exactly when the engine is installed; it is exactly the name AutoName generates, x_analysis_mock_ + timestamp + .xlsx or .csv |
| Mock.MockSaveToExcel | test_analyzer.py:109-179 | an empty frame writes nothing. An .xlsx name with the engine gives a workbook with computed widths. Without the engine it gives a CSV under the name with .xlsx replaced. Any other name gives a CSV under that name. All rows are written, and a generated name is never rewritten |
| Mock.FallbackName | test_analyzer.py:172-176 | when .xlsx appears only as the extension, the fallback name is the same stem + .csv |
| Mock.KeptPrefix | test_analyzer.py:174 | up to its first '.', the renamed name starts with the same characters as the original |
| Mock.NoXlsxSurvives | test_analyzer.py:174 | whatever the name, no .xlsx is left anywhere in the fallback name |
| Mock.FallbackRewritesEveryOccurrence | test_analyzer.py:174 | the fallback rewrites every .xlsx in the name: a.xlsx.xlsx becomes a.csv.csv |

## Left out

- The X search call (`search_recent_tweets`), its field and expansion lists, and the client's rate-limit waiting: these are network behaviour. Only the request (query and count) and the outcome are modelled.
- The DeepSeek chat call, its prompt text, model name, token cap and temperature: these are network behaviour. The call is a function of (text, keyword), so the model gives the same outcome for repeated identical calls, which the real service need not do.
- `time.sleep(0.5)` and every `print`: timing and console output only.
- pandas DataFrame construction, `to_excel`/`to_csv`, the sheet name and the header font and fill styling: these are library file I/O. That includes the mock's `ImportError` guard around the style import. A write is recorded as the file name, the rows and, for a workbook, the column widths.
- The bare `except: pass` around `len(str(cell.value))`: `str` of the text and bool cells here cannot raise.
- `strftime` for `Post Date` and for the file timestamp: library date formatting. It is a formatter parameter and a timestamp string.
- `argparse`, `load_dotenv`, `os.getenv` and `input()`: process environment and interactive input. Their results are the inputs `CliArgs`, `Environment` and the typed keyword.
- The printing of sample results at the end of `main` and of the mock `main`: console output only.
- The literal contents of `MOCK_POSTS`: fixture data. The model takes the mock rows as an arbitrary sequence.
- Exceptions the source does not catch, such as a failing workbook write in the main variant: these end the process, and the model has no such outcome.
- Assemble.AuthorDisplay: its own contract states only the length; what the string means is stated by Assemble.AuthorDisplayRoundTrip.
