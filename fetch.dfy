/** `XTopicAnalyzer.search_x_posts`: build the search request, index the
    authors the response includes, and turn each tweet into a post record.
    The search endpoint itself is a function from request to outcome. */
module Fetch {
  import opened Text

  /** An author as the `includes['users']` expansion carries it. */
  datatype User = User(id: nat, username: string, name: string, verified: bool)

  /** `tweet.created_at`: an instant, kept opaque; only its formatted text is ever used. */
  datatype Timestamp = Timestamp(epochSeconds: int)

  /** One item of `tweets.data`, with its `public_metrics` counts. */
  datatype Tweet = Tweet(
    id: nat,
    text: string,
    createdAt: Timestamp,
    authorId: nat,
    retweetCount: nat,
    likeCount: nat,
    replyCount: nat)

  /** The search response: the tweets (an absent `data` is the empty sequence)
      and the `users` expansion, `None` when `includes` is missing or has no `users`. */
  datatype Response = Response(data: seq<Tweet>, users: Option<seq<User>>)

  /** What the call to `search_recent_tweets` yields; `ApiError` is any exception it raises. */
  datatype SearchOutcome = Responded(response: Response) | ApiError

  datatype SearchRequest = SearchRequest(query: string, maxResults: int)

  /** The search endpoint, as seen by one run. */
  type SearchApi = SearchRequest -> SearchOutcome

  /** The `post_info` dictionary built for each tweet. */
  datatype Post = Post(
    tweetId: nat,
    text: string,
    createdAt: Timestamp,
    authorId: nat,
    authorUsername: string,
    authorName: string,
    authorVerified: bool,
    retweetCount: nat,
    likeCount: nat,
    replyCount: nat,
    url: string)

  const QueryFilters: string := " -is:retweet lang:en"
  const ApiMaxResults: int := 100
  const Unknown: string := "unknown"
  const StatusUrlHost: string := "https://twitter.com/"
  const StatusUrlPath: string := "/status/"

  /** The query is the keyword with reposts excluded and English only; the
      result count asked for is `min(max_results, 100)`. */
  function BuildRequest(keyword: string, maxResults: int): (r: SearchRequest)
    ensures r.query == keyword + QueryFilters
    ensures r.maxResults <= ApiMaxResults
    ensures r.maxResults <= maxResults
    ensures r.maxResults == maxResults || r.maxResults == ApiMaxResults
  {
    SearchRequest(keyword + QueryFilters, Min(maxResults, ApiMaxResults))
  }

  /** The `users` dictionary after the loop over the included users: keyed by
      user id, a later user with the same id replacing an earlier one. Every
      entry is an included user filed under its own id. */
  function UserIndex(users: seq<User>): (index: map<nat, User>)
    ensures forall id :: id in index ==> index[id].id == id && index[id] in users
  {
    if users == [] then map[]
    else UserIndex(users[..|users| - 1])[users[|users| - 1].id := users[|users| - 1]]
  }

  /** The ids in the index are exactly the ids of the included users. */
  lemma {:induction false} UserIndexKeys(users: seq<User>, id: nat)
    ensures id in UserIndex(users) <==> exists i :: 0 <= i < |users| && users[i].id == id
  {
    if users != [] {
      var init := users[..|users| - 1];
      UserIndexKeys(init, id);
      if exists i :: 0 <= i < |users| && users[i].id == id {
        var i :| 0 <= i < |users| && users[i].id == id;
        if i < |users| - 1 { assert init[i].id == id; }
      }
      if exists i :: 0 <= i < |init| && init[i].id == id {
        var i :| 0 <= i < |init| && init[i].id == id;
        assert users[i].id == id;
      }
    }
  }

  /** An id maps to the last included user that carries it. */
  lemma {:induction false} UserIndexLastWins(users: seq<User>, i: nat)
    requires i < |users|
    requires forall j :: i < j < |users| ==> users[j].id != users[i].id
    ensures users[i].id in UserIndex(users) && UserIndex(users)[users[i].id] == users[i]
  {
    if i < |users| - 1 {
      var init := users[..|users| - 1];
      UserIndexLastWins(init, i);
      assert users[|users| - 1].id != users[i].id;
    }
  }

  /** The record built for one tweet. The author comes from the index when its
      id is there, and is `'unknown'`, `'unknown'`, `False` otherwise; the link
      is built from the same username the record carries. */
  function NormalizeTweet(t: Tweet, users: map<nat, User>): (p: Post)
    ensures p.tweetId == t.id && p.text == t.text && p.createdAt == t.createdAt
    ensures p.authorId == t.authorId
    ensures p.retweetCount == t.retweetCount && p.likeCount == t.likeCount
    ensures p.replyCount == t.replyCount
    ensures t.authorId in users ==>
              && p.authorUsername == users[t.authorId].username
              && p.authorName == users[t.authorId].name
              && p.authorVerified == users[t.authorId].verified
    ensures t.authorId !in users ==>
              p.authorUsername == Unknown && p.authorName == Unknown && !p.authorVerified
    ensures p.url == StatusUrlHost + p.authorUsername + StatusUrlPath + Decimal(p.tweetId)
  {
    var author := if t.authorId in users then Some(users[t.authorId]) else None;
    Post(
      tweetId := t.id,
      text := t.text,
      createdAt := t.createdAt,
      authorId := t.authorId,
      authorUsername := if author.Some? then author.value.username else Unknown,
      authorName := if author.Some? then author.value.name else Unknown,
      authorVerified := if author.Some? then author.value.verified else false,
      retweetCount := t.retweetCount,
      likeCount := t.likeCount,
      replyCount := t.replyCount,
      url := StatusUrlHost + (if author.Some? then author.value.username else Unknown)
             + StatusUrlPath + Decimal(t.id))
  }

  /** `posts_data` after the loop over `tweets.data`: one record appended per
      tweet, each carrying its tweet's id. */
  function NormalizeAll(tweets: seq<Tweet>, users: map<nat, User>): (posts: seq<Post>)
    ensures |posts| == |tweets|
    ensures forall i :: 0 <= i < |posts| ==> posts[i].tweetId == tweets[i].id
  {
    if tweets == [] then []
    else NormalizeAll(tweets[..|tweets| - 1], users) + [NormalizeTweet(tweets[|tweets| - 1], users)]
  }

  /** One record per tweet, in the tweets' order. */
  lemma {:induction false} NormalizeAllAt(tweets: seq<Tweet>, users: map<nat, User>)
    ensures |NormalizeAll(tweets, users)| == |tweets|
    ensures forall i :: 0 <= i < |tweets| ==>
              NormalizeAll(tweets, users)[i] == NormalizeTweet(tweets[i], users)
  {
    if tweets != [] {
      NormalizeAllAt(tweets[..|tweets| - 1], users);
    }
  }

  function IncludedUsers(response: Response): seq<User>
  {
    if response.users.Some? then response.users.value else []
  }

  /** What `search_x_posts` returns for a given outcome of the search call: no
      posts on an error, else one per tweet of the response, with its id. */
  function SearchResult(outcome: SearchOutcome): (posts: seq<Post>)
    ensures outcome.ApiError? ==> posts == []
    ensures outcome.Responded? ==> |posts| == |outcome.response.data|
    ensures outcome.Responded? ==>
              forall i :: 0 <= i < |posts| ==> posts[i].tweetId == outcome.response.data[i].id
  {
    match outcome
    case ApiError => []
    case Responded(response) => NormalizeAll(response.data, UserIndex(IncludedUsers(response)))
  }

  /** A failed call and an empty response both give no posts; otherwise there is
      exactly one record per tweet, in order. */
  lemma SearchResultShape(outcome: SearchOutcome)
    ensures outcome.ApiError? ==> SearchResult(outcome) == []
    ensures outcome.Responded? ==>
              var data := outcome.response.data;
              var users := UserIndex(IncludedUsers(outcome.response));
              && |SearchResult(outcome)| == |data|
              && forall i :: 0 <= i < |data| ==> SearchResult(outcome)[i] == NormalizeTweet(data[i], users)
  {
    if outcome.Responded? {
      NormalizeAllAt(outcome.response.data, UserIndex(IncludedUsers(outcome.response)));
    }
  }

  /** A tweet whose author is not among the included users gets the fallback
      author and a link through `unknown`. */
  lemma SearchResultUnknownAuthor(response: Response, i: nat)
    requires i < |response.data|
    requires forall j :: 0 <= j < |IncludedUsers(response)| ==>
               IncludedUsers(response)[j].id != response.data[i].authorId
    ensures |SearchResult(Responded(response))| == |response.data|
    ensures var p := SearchResult(Responded(response))[i];
            && p.authorUsername == Unknown && p.authorName == Unknown && !p.authorVerified
            && p.url == StatusUrlHost + Unknown + StatusUrlPath + Decimal(response.data[i].id)
  {
    SearchResultShape(Responded(response));
    UserIndexKeys(IncludedUsers(response), response.data[i].authorId);
  }

  /** A tweet whose author is included takes its fields from the last included
      user with that id. */
  lemma SearchResultKnownAuthor(response: Response, i: nat, j: nat)
    requires i < |response.data|
    requires j < |IncludedUsers(response)|
    requires IncludedUsers(response)[j].id == response.data[i].authorId
    requires forall k :: j < k < |IncludedUsers(response)| ==>
               IncludedUsers(response)[k].id != response.data[i].authorId
    ensures |SearchResult(Responded(response))| == |response.data|
    ensures var p := SearchResult(Responded(response))[i];
            var u := IncludedUsers(response)[j];
            && p.authorUsername == u.username && p.authorName == u.name
            && p.authorVerified == u.verified
            && p.url == StatusUrlHost + u.username + StatusUrlPath + Decimal(response.data[i].id)
  {
    SearchResultShape(Responded(response));
    UserIndexLastWins(IncludedUsers(response), j);
  }

  /** `search_x_posts`: ask for the capped count, return no posts on an error or
      an empty answer, otherwise fill the author index and then the records. */
  method SearchPosts(keyword: string, maxResults: int, api: SearchApi) returns (posts: seq<Post>)
    ensures posts == SearchResult(api(BuildRequest(keyword, maxResults)))
  {
    var outcome := api(BuildRequest(keyword, maxResults));
    if outcome.ApiError? {
      return [];
    }
    var tweets := outcome.response;
    if tweets.data == [] {
      return [];
    }
    var users: map<nat, User> := map[];
    if tweets.users.Some? {
      var included := tweets.users.value;
      var i := 0;
      while i < |included|
        invariant i <= |included|
        invariant users == UserIndex(included[..i])
      {
        assert included[..i + 1][..i] == included[..i];
        users := users[included[i].id := included[i]];
        i := i + 1;
      }
      assert included[..i] == included;
    }
    posts := [];
    var k := 0;
    while k < |tweets.data|
      invariant k <= |tweets.data|
      invariant posts == NormalizeAll(tweets.data[..k], users)
    {
      assert tweets.data[..k + 1][..k] == tweets.data[..k];
      posts := posts + [NormalizeTweet(tweets.data[k], users)];
      k := k + 1;
    }
    assert tweets.data[..k] == tweets.data;
  }
}
