/** `XTopicAnalyzer.generate_summary_with_deepseek` and `analyze_topic`: the
    summary each post gets, the row built from a post and its summary, and the
    whole search-then-summarise pass. The chat-completion endpoint and
    `strftime` are function parameters. */
module Assemble {
  import opened Text
  import opened Fetch
  import opened Frame

  /** What the chat-completion call yields for one post: the reply's content, or
      `CallFailed` for any exception (a `None` content included, since `.strip()`
      on it raises). */
  datatype SummaryOutcome = Completed(content: string) | CallFailed

  /** The summarisation endpoint, given the post text and the keyword. */
  type SummaryApi = (string, string) -> SummaryOutcome

  /** `created_at.strftime('%Y-%m-%d %H:%M')`. */
  type DateFormatter = Timestamp -> string

  const SummaryFailedText: string := "Summary generation failed"
  const TextLimit: nat := 200
  const Ellipsis: string := "..."
  const LikeLabel: string := "\U{2764}\U{FE0F} "
  const RetweetLabel: string := " | \U{1F504} "
  const ReplyLabel: string := " | \U{1F4AC} "

  /** The summary string a post gets: the stripped reply, or the fixed failure text. */
  function SummaryText(outcome: SummaryOutcome): (s: string)
    ensures outcome.CallFailed? ==> s == SummaryFailedText
    ensures outcome.Completed? ==> s == Strip(outcome.content)
    ensures outcome.Completed? ==> s == [] || (!IsSpace(s[0]) && !IsSpace(s[|s| - 1]))
  {
    match outcome
    case Completed(content) => Strip(content)
    case CallFailed => SummaryFailedText
  }

  /** `Original Text`: up to 200 characters verbatim; a longer text keeps its
      first 200 characters and gains "...", 203 in all. */
  function TruncateText(text: string): (r: string)
    ensures |r| <= TextLimit + |Ellipsis|
    ensures |text| <= TextLimit ==> r == text
    ensures |text| > TextLimit ==> |r| == TextLimit + |Ellipsis| && r[..TextLimit] == text[..TextLimit] && EndsWith(r, Ellipsis)
  {
    if |text| > TextLimit then text[..TextLimit] + Ellipsis else text
  }

  /** `Author`: "Name (@handle)". */
  function AuthorDisplay(name: string, username: string): (d: string)
    ensures |d| == |name| + |username| + 4
  {
    name + " (@" + username + ")"
  }

  /** The position of the last `c` in `s`, if any. */
  function LastIndexOf(s: string, c: char): (r: Option<nat>)
    ensures r.Some? ==> r.value < |s| && s[r.value] == c
    ensures r.Some? ==> forall k :: r.value < k < |s| ==> s[k] != c
    ensures r.None? ==> forall k :: 0 <= k < |s| ==> s[k] != c
  {
    if s == [] then None
    else if s[|s| - 1] == c then Some(|s| - 1)
    else LastIndexOf(s[..|s| - 1], c)
  }

  /** Reads an `Author` string back into name and handle, splitting at its last '@'. */
  function ParseAuthor(d: string): Option<(string, string)>
  {
    match LastIndexOf(d, '@')
    case None => None
    case Some(at) =>
      if 2 <= at && at < |d| - 1 && d[at - 2..at] == " (" && d[|d| - 1] == ')'
      then Some((d[..at - 2], d[at + 1..|d| - 1]))
      else None
  }

  /** A handle has no '@', so the author display string determines both the name
      and the handle it was built from. */
  lemma AuthorDisplayRoundTrip(name: string, username: string)
    requires forall k :: 0 <= k < |username| ==> username[k] != '@'
    ensures ParseAuthor(AuthorDisplay(name, username)) == Some((name, username))
  {
    var d := AuthorDisplay(name, username);
    var at := |name| + 2;
    assert d[at] == '@';
    assert forall k :: at < k < |d| - 1 ==> d[k] == username[k - at - 1];
    var r := LastIndexOf(d, '@');
    assert r == Some(at);
    assert d[at - 2..at] == " (";
    assert d[..at - 2] == name;
    assert d[at + 1..|d| - 1] == username;
  }

  /** `Engagement`: "❤️ likes | 🔄 retweets | 💬 replies". The like count's
      numeral follows the heart, the reply count's numeral closes the line, and
      the retweet count's numeral sits between the two separators. */
  function Engagement(likes: nat, retweets: nat, replies: nat): (r: string)
    ensures StartsWith(r, LikeLabel + Decimal(likes) + RetweetLabel)
    ensures EndsWith(r, ReplyLabel + Decimal(replies))
    ensures var start := |LikeLabel + Decimal(likes) + RetweetLabel|;
            && |r| == start + |Decimal(retweets)| + |ReplyLabel + Decimal(replies)|
            && r[start..start + |Decimal(retweets)|] == Decimal(retweets)
  {
    LikeLabel + (Decimal(likes) + (RetweetLabel + (Decimal(retweets) + (ReplyLabel + Decimal(replies)))))
  }

  lemma PrefixCancel(p: string, a: string, b: string)
    requires p + a == p + b
    ensures a == b
  {
    assert a == (p + a)[|p|..];
    assert b == (p + b)[|p|..];
  }

  /** The engagement string determines the three counts it was built from. */
  lemma EngagementInjective(l: nat, t: nat, r: nat, l': nat, t': nat, r': nat)
    requires Engagement(l, t, r) == Engagement(l', t', r')
    ensures l == l' && t == t' && r == r'
  {
    var tail := ReplyLabel + Decimal(r);
    var tail' := ReplyLabel + Decimal(r');
    var mid := RetweetLabel + (Decimal(t) + tail);
    var mid' := RetweetLabel + (Decimal(t') + tail');
    PrefixCancel(LikeLabel, Decimal(l) + mid, Decimal(l') + mid');
    assert mid[0] == ' ' && mid'[0] == ' ';
    DigitRunUnique(Decimal(l), mid, Decimal(l'), mid');
    DecimalInjective(l, l');
    PrefixCancel(RetweetLabel, Decimal(t) + tail, Decimal(t') + tail');
    assert tail[0] == ' ' && tail'[0] == ' ';
    DigitRunUnique(Decimal(t), tail, Decimal(t'), tail');
    DecimalInjective(t, t');
    PrefixCancel(ReplyLabel, Decimal(r), Decimal(r'));
    DecimalInjective(r, r');
  }

  /** The `analyzed_post` dictionary for one post and its summary outcome: the
      keyword as topic, an author string that gives back the post's name and
      handle, the post's flag, date and link, the summary or the failure text,
      the text cut to at most 203 characters and the engagement line. */
  function MakeRow(keyword: string, post: Post, summary: SummaryOutcome, formatDate: DateFormatter): (r: Row)
    ensures r.topic == keyword
    ensures '@' !in post.authorUsername ==>
              ParseAuthor(r.author) == Some((post.authorName, post.authorUsername))
    ensures r.authorVerified == post.authorVerified
    ensures r.postDate == formatDate(post.createdAt)
    ensures r.postLink == post.url
    ensures summary.CallFailed? ==> r.shortSummary == SummaryFailedText
    ensures summary.Completed? ==> r.shortSummary == Strip(summary.content)
    ensures |r.originalText| <= TextLimit + |Ellipsis|
    ensures |post.text| <= TextLimit ==> r.originalText == post.text
    ensures r.originalText == TruncateText(post.text)
    ensures r.engagement == Engagement(post.likeCount, post.retweetCount, post.replyCount)
  {
    var row := Row(
      topic := keyword,
      author := AuthorDisplay(post.authorName, post.authorUsername),
      authorVerified := post.authorVerified,
      postDate := formatDate(post.createdAt),
      postLink := post.url,
      shortSummary := SummaryText(summary),
      originalText := TruncateText(post.text),
      engagement := Engagement(post.likeCount, post.retweetCount, post.replyCount));
    if '@' !in post.authorUsername then
      AuthorDisplayRoundTrip(post.authorName, post.authorUsername);
      row
    else
      row
  }

  /** `analyzed_posts` after the loop over the posts: one row appended per post,
      each post summarised with its own text and the keyword. */
  function Rows(keyword: string, posts: seq<Post>, llm: SummaryApi, formatDate: DateFormatter): (rows: seq<Row>)
    ensures |rows| == |posts|
    ensures forall i :: 0 <= i < |rows| ==> rows[i].topic == keyword && rows[i].postLink == posts[i].url
  {
    if posts == [] then []
    else
      var last := posts[|posts| - 1];
      Rows(keyword, posts[..|posts| - 1], llm, formatDate)
        + [MakeRow(keyword, last, llm(last.text, keyword), formatDate)]
  }

  /** One row per post, in post order, whatever its summary outcome. */
  lemma {:induction false} RowsAt(keyword: string, posts: seq<Post>, llm: SummaryApi, formatDate: DateFormatter)
    ensures |Rows(keyword, posts, llm, formatDate)| == |posts|
    ensures forall i :: 0 <= i < |posts| ==>
              Rows(keyword, posts, llm, formatDate)[i]
                == MakeRow(keyword, posts[i], llm(posts[i].text, keyword), formatDate)
  {
    if posts != [] {
      var init := posts[..|posts| - 1];
      var last := posts[|posts| - 1];
      RowsAt(keyword, init, llm, formatDate);
      var before := Rows(keyword, init, llm, formatDate);
      assert Rows(keyword, posts, llm, formatDate)
        == before + [MakeRow(keyword, last, llm(last.text, keyword), formatDate)];
      forall i | 0 <= i < |init|
        ensures posts[i] == init[i]
      {
      }
    }
  }

  /** The table `analyze_topic` returns for a keyword and post limit: empty
      exactly when the search failed or found no tweets. */
  function Analysis(keyword: string, maxPosts: int, api: SearchApi, llm: SummaryApi,
                    formatDate: DateFormatter): (rows: seq<Row>)
    ensures var outcome := api(BuildRequest(keyword, maxPosts));
            rows == [] <==> outcome.ApiError? || outcome.response.data == []
  {
    Rows(keyword, SearchResult(api(BuildRequest(keyword, maxPosts))), llm, formatDate)
  }

  /** Row i of the analysis belongs to post i of the search: the keyword as its
      topic, "Name (@handle)" as its author, the post's link and date, the
      summary or the failure text, the truncated text and the engagement line. */
  lemma AnalysisRows(keyword: string, maxPosts: int, api: SearchApi, llm: SummaryApi,
                     formatDate: DateFormatter)
    ensures var posts := SearchResult(api(BuildRequest(keyword, maxPosts)));
            var rows := Analysis(keyword, maxPosts, api, llm, formatDate);
            && |rows| == |posts|
            && (rows == [] <==> posts == [])
            && forall i :: 0 <= i < |posts| ==>
                 var p, row := posts[i], rows[i];
                 && row.topic == keyword
                 && row.author == p.authorName + " (@" + p.authorUsername + ")"
                 && row.authorVerified == p.authorVerified
                 && row.postDate == formatDate(p.createdAt)
                 && row.postLink == p.url
                 && (llm(p.text, keyword).CallFailed? ==> row.shortSummary == SummaryFailedText)
                 && (llm(p.text, keyword).Completed? ==>
                       row.shortSummary == Strip(llm(p.text, keyword).content))
                 && row.originalText == TruncateText(p.text)
                 && |row.originalText| <= TextLimit + |Ellipsis|
                 && row.engagement == Engagement(p.likeCount, p.retweetCount, p.replyCount)
  {
    RowsAt(keyword, SearchResult(api(BuildRequest(keyword, maxPosts))), llm, formatDate);
  }

  /** The loop of `analyze_topic`: summarise each post and append its row. */
  method AssembleRows(keyword: string, posts: seq<Post>, llm: SummaryApi, formatDate: DateFormatter)
    returns (rows: seq<Row>)
    ensures rows == Rows(keyword, posts, llm, formatDate)
  {
    rows := [];
    var i := 0;
    while i < |posts|
      invariant i <= |posts|
      invariant rows == Rows(keyword, posts[..i], llm, formatDate)
    {
      assert posts[..i + 1][..i] == posts[..i];
      var summary := SummaryText(llm(posts[i].text, keyword));
      var row := Row(
        topic := keyword,
        author := AuthorDisplay(posts[i].authorName, posts[i].authorUsername),
        authorVerified := posts[i].authorVerified,
        postDate := formatDate(posts[i].createdAt),
        postLink := posts[i].url,
        shortSummary := summary,
        originalText := TruncateText(posts[i].text),
        engagement := Engagement(posts[i].likeCount, posts[i].retweetCount, posts[i].replyCount));
      rows := rows + [row];
      i := i + 1;
    }
    assert posts[..i] == posts;
  }

  /** `analyze_topic`: search, stop with an empty table when nothing came back,
      otherwise build one row per post. */
  method AnalyzeTopic(keyword: string, maxPosts: int, api: SearchApi, llm: SummaryApi,
                      formatDate: DateFormatter) returns (rows: seq<Row>)
    ensures rows == Analysis(keyword, maxPosts, api, llm, formatDate)
  {
    var posts := SearchPosts(keyword, maxPosts, api);
    if posts == [] {
      return [];
    }
    rows := AssembleRows(keyword, posts, llm, formatDate);
  }
}
