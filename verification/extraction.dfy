/** `extract_memes_from_twitter_data.py`: which items of the Twitter archive
    become rows of the `memes` table, what those rows hold, which image files
    are written, and what `main` commits.

    The date conversion (`strptime`, the US/Mountain time zone, `strftime`),
    the HTTP request and the file write lie outside the script and are
    parameters (`Env`); the parsed JSON is given as a list of `ArchiveItem`s. */
module Extraction {

  import opened Wrappers
  import opened Records
  import opened Seqs
  import opened Strings

  const DestinationDirectory: string := "twitter_data"
  const MemeDirectory: string := PathJoin(DestinationDirectory, "memes")
  /** `tweets[:100]` */
  const TweetLimit: nat := 100
  /** The JavaScript assignment the archive's `tweets.js` starts with. */
  const ArchivePrefix: string := "window.YTD.tweets.part0 = "

  type Bytes = seq<bv8>

  /** An element of `entities.media`: its `media_url_https` key, if present. */
  datatype MediaEntry = MediaEntry(mediaUrlHttps: Option<string>)

  /** The `entities` object: its `media` key, if present. */
  datatype Entities = Entities(media: Option<seq<MediaEntry>>)

  /** The `tweet` object of an archive item: whether it has a
      `retweeted_status` key, and its `created_at`, `entities` and
      `favorite_count` keys when present. */
  datatype Tweet = Tweet(retweeted: bool, createdAt: Option<string>, entities: Option<Entities>,
                         favoriteCount: Option<int>)

  /** One element of the archive's list: its `tweet` key, if present. */
  datatype ArchiveItem = ArchiveItem(tweet: Option<Tweet>)

  /** What the script calls but does not define. `fmt` is the date
      conversion, `None` when `strptime` rejects the text; `fetch` is
      `requests.get(url).content`, `None` when the request raises; `writable`
      says whether opening and writing the path succeeds. */
  datatype Env = Env(fmt: string -> Option<string>, fetch: string -> Option<Bytes>, writable: string -> bool)

  /** The inserted (not yet committed) rows, the image files written, and
      the URLs requested, in order. */
  datatype Store = Store(rows: seq<MemeRecord>, files: map<string, Bytes>, fetched: seq<string>)

  // ---------------------------------------------------------------------
  // extract_tweets
  // ---------------------------------------------------------------------

  /** `content.replace("window.YTD.tweets.part0 = ", "")` */
  function StripPrefix(content: string): (json: string)
    ensures |json| <= |content|
  {
    ReplaceAll(content, ArchivePrefix, "")
  }

  /** The archive as exported: the prefix, then the JSON text, which does
      not contain the prefix. Stripping leaves exactly the JSON text. */
  lemma StripLeadingPrefix(json: string)
    requires NoOccurrenceBefore(json, ArchivePrefix, |json|)
    ensures StripPrefix(ArchivePrefix + json) == json
  {
    assert "" + ArchivePrefix + json == ArchivePrefix + json;
    ReplaceAllAtOccurrence("", json, ArchivePrefix, "");
    ReplaceAllWithoutOccurrence(json, ArchivePrefix, "");
  }

  /** The prefix is removed wherever it occurs, not only at the start: the
      text before the first occurrence is kept and stripping goes on after
      it. */
  lemma StripEveryOccurrence(before: string, after: string)
    requires NoOccurrenceBefore(before + ArchivePrefix + after, ArchivePrefix, |before|)
    ensures StripPrefix(before + ArchivePrefix + after) == before + StripPrefix(after)
  {
    ReplaceAllAtOccurrence(before, after, ArchivePrefix, "");
    assert before + "" == before;
  }

  // ---------------------------------------------------------------------
  // process_tweet
  // ---------------------------------------------------------------------

  /** `tweet.get('entities', {}).get('media', [])` */
  function Media(t: Tweet): seq<MediaEntry> {
    match t.entities
    case None => []
    case Some(e) => e.media.GetOr([])
  }

  /** `formatted_date.replace(":", "_").replace(" ", "_")`: every `:` and
      every space becomes `_`, and every other character stays where it is. */
  function Sanitise(formatted: string): (r: string)
    ensures |r| == |formatted|
    ensures forall i :: 0 <= i < |formatted| ==>
      r[i] == if formatted[i] == ':' || formatted[i] == ' ' then '_' else formatted[i]
  {
    ReplaceCharIsPointwise(formatted, ':', '_');
    ReplaceCharIsPointwise(ReplaceAll(formatted, ":", "_"), ' ', '_');
    ReplaceAll(ReplaceAll(formatted, ":", "_"), " ", "_")
  }

  /** `local_file`: the image's path inside the meme directory. Its base
      name, the name stored in the row, is the sanitised date with `.png`
      when the date has no `/`. */
  function ImageFile(formatted: string): (path: string)
    ensures '/' !in formatted ==> Basename(path) == Sanitise(formatted) + ".png"
  {
    if '/' !in formatted then
      SanitisedNameHasNoSlash(formatted);
      BasenameOfJoin(MemeDirectory, Sanitise(formatted) + ".png");
      PathJoin(MemeDirectory, Sanitise(formatted) + ".png")
    else
      PathJoin(MemeDirectory, Sanitise(formatted) + ".png")
  }

  /** A tweet that passed every check before the request: its formatted
      date, the URL to request, and its like count. */
  datatype Attempt = Attempt(formatted: string, url: string, likes: int)

  /** How `process_tweet` proceeds up to `requests.get`: an exception that
      escapes it, a return (or a handled exception) with no effect, or a
      request. */
  datatype Decision = Abort | Skip | Fetch(attempt: Attempt)

  /** The branches of `process_tweet` before the request. A missing `tweet`
      key raises outside the `try`. A missing `created_at` raises inside it,
      and the handler then reads the unbound `date`, so that exception
      escapes too. A rejected date or a missing `media_url_https` is
      handled. */
  function Decide(item: ArchiveItem, fmt: string -> Option<string>): (d: Decision)
    ensures d == Abort <==>
      item.tweet.None? || (!item.tweet.value.retweeted && item.tweet.value.createdAt.None?)
    ensures item.tweet.Some? && item.tweet.value.retweeted ==> d == Skip
    ensures item.tweet.Some? && item.tweet.value.createdAt.Some? && |Media(item.tweet.value)| == 0 ==> d == Skip
    ensures d.Fetch? <==>
      && item.tweet.Some? && !item.tweet.value.retweeted && item.tweet.value.createdAt.Some?
      && 0 < |Media(item.tweet.value)|
      && fmt(item.tweet.value.createdAt.value).Some?
      && Media(item.tweet.value)[0].mediaUrlHttps.Some?
    ensures d.Fetch? ==>
      && d.attempt.formatted == fmt(item.tweet.value.createdAt.value).value
      && d.attempt.url == Media(item.tweet.value)[0].mediaUrlHttps.value
      && d.attempt.likes == item.tweet.value.favoriteCount.GetOr(0)
  {
    match item.tweet
    case None => Abort
    case Some(t) =>
      if t.retweeted then Skip
      else
        match t.createdAt
        case None => Abort
        case Some(date) =>
          var media := Media(t);
          var likes := t.favoriteCount.GetOr(0);
          if |media| == 0 then Skip
          else
            match fmt(date)
            case None => Skip
            case Some(formatted) =>
              match media[0].mediaUrlHttps
              case None => Skip
              case Some(url) => Fetch(Attempt(formatted, url, likes))
  }

  /** The row inserted for an attempt: the formatted date, the base name of
      the image file, the like count. */
  function RowOf(a: Attempt): (r: MemeRecord)
    ensures r.date == a.formatted && r.likesCount == a.likes
    ensures '/' !in a.formatted ==> r.localFile == Sanitise(a.formatted) + ".png"
  {
    MemeRecord(a.formatted, Basename(ImageFile(a.formatted)), a.likes)
  }

  /** The row `process_tweet` inserts for `item`, if any: an attempt whose
      request returns and whose file can be written. */
  function Inserted(item: ArchiveItem, env: Env): (r: Option<MemeRecord>)
    ensures r.Some? ==>
      (item.tweet.Some? && !item.tweet.value.retweeted
       && item.tweet.value.createdAt.Some? && |Media(item.tweet.value)| > 0)
  {
    match Decide(item, env.fmt)
    case Fetch(a) =>
      if env.fetch(a.url).Some? && env.writable(ImageFile(a.formatted)) then Some(RowOf(a)) else None
    case _ => None
  }

  /** `Inserted` with the environment fixed, as a function of the item. */
  function InsertedBy(env: Env): ArchiveItem -> Option<MemeRecord> {
    item => Inserted(item, env)
  }

  /** A tweet stores a row exactly when it leads to a request, the request
      returns a body and the image file can be written; the row is the
      attempt's row. A failed request or write stores nothing. */
  lemma InsertedExactly(item: ArchiveItem, env: Env)
    ensures Inserted(item, env).Some? <==>
      && Decide(item, env.fmt).Fetch?
      && env.fetch(Decide(item, env.fmt).attempt.url).Some?
      && env.writable(ImageFile(Decide(item, env.fmt).attempt.formatted))
    ensures Inserted(item, env).Some? ==> Inserted(item, env).value == RowOf(Decide(item, env.fmt).attempt)
  {
  }

  /** The row of a tweet stores the unsanitised formatted date, the
      sanitised date with `.png` as its file name, and `favorite_count`, 0
      when absent. */
  lemma InsertedRowContents(item: ArchiveItem, env: Env)
    requires Inserted(item, env).Some?
    ensures item.tweet.Some? && item.tweet.value.createdAt.Some?
    ensures env.fmt(item.tweet.value.createdAt.value) == Some(Inserted(item, env).value.date)
    ensures Inserted(item, env).value.likesCount == item.tweet.value.favoriteCount.GetOr(0)
    ensures '/' !in Inserted(item, env).value.date ==>
      Inserted(item, env).value.localFile == Sanitise(Inserted(item, env).value.date) + ".png"
  {
    var a := Decide(item, env.fmt).attempt;
    assert Inserted(item, env).value == RowOf(a);
  }

  /** A date without `/` gives a file name without `/`. */
  lemma SanitisedNameHasNoSlash(formatted: string)
    requires '/' !in formatted
    ensures '/' !in Sanitise(formatted) + ".png"
  {
    var name := Sanitise(formatted) + ".png";
    forall i | 0 <= i < |name| ensures name[i] != '/' {
      if i < |formatted| {
        assert formatted[i] in formatted;
      }
    }
  }

  /** `process_tweet(tweet, cursor)` on the state so far; `None` when an
      exception escapes it. */
  function ProcessTweet(item: ArchiveItem, env: Env, s: Store): (r: Option<Store>)
    ensures r.None? <==> Decide(item, env.fmt) == Abort
    ensures item.tweet.Some? && item.tweet.value.retweeted ==> r == Some(s)
    ensures Decide(item, env.fmt) == Skip ==> r == Some(s)
    ensures r.Some? ==> r.value.rows == s.rows + Inserted(item, env).ToSeq()
    ensures r.Some? && Decide(item, env.fmt).Fetch? ==>
      r.value.fetched == s.fetched + [Decide(item, env.fmt).attempt.url]
    ensures Inserted(item, env).Some? ==>
      r.Some? && r.value.files
        == s.files[ImageFile(Decide(item, env.fmt).attempt.formatted)
                   := env.fetch(Decide(item, env.fmt).attempt.url).value]
    ensures r.Some? && Inserted(item, env).None? ==> r.value.files == s.files
  {
    match Decide(item, env.fmt)
    case Abort => None
    case Skip => Some(s)
    case Fetch(a) =>
      var requested := s.(fetched := s.fetched + [a.url]);
      var path := ImageFile(a.formatted);
      match env.fetch(a.url)
      case None => Some(requested)
      case Some(content) =>
        if env.writable(path) then
          Some(requested.(files := requested.files[path := content], rows := requested.rows + [RowOf(a)]))
        else Some(requested)
  }

  /** A tweet that stores a row requests its media URL, writes its image
      under the row's date, and appends the row. */
  lemma StoredTweet(item: ArchiveItem, env: Env, s: Store)
    requires Inserted(item, env).Some?
    ensures Decide(item, env.fmt).Fetch?
    ensures Decide(item, env.fmt).attempt.formatted == Inserted(item, env).value.date
    ensures Inserted(item, env).value == RowOf(Decide(item, env.fmt).attempt)
    ensures ProcessTweet(item, env, s)
         == Some(Store(s.rows + [Inserted(item, env).value],
                       s.files[ImageFile(Inserted(item, env).value.date)
                               := env.fetch(Decide(item, env.fmt).attempt.url).value],
                       s.fetched + [Decide(item, env.fmt).attempt.url]))
  {
  }

  /** Two tweets from the same day, both stored: their rows name the same
      file, and the second image overwrites the first. */
  lemma SameDayCollision(a: ArchiveItem, b: ArchiveItem, env: Env, s: Store)
    requires Inserted(a, env).Some? && Inserted(b, env).Some?
    requires Inserted(a, env).value.date == Inserted(b, env).value.date
    ensures ProcessTweet(a, env, s).Some?
    ensures ProcessTweet(b, env, ProcessTweet(a, env, s).value).Some?
    ensures Inserted(a, env).value.localFile == Inserted(b, env).value.localFile
    ensures ProcessTweet(b, env, ProcessTweet(a, env, s).value).value.rows
         == s.rows + [Inserted(a, env).value, Inserted(b, env).value]
    ensures ProcessTweet(b, env, ProcessTweet(a, env, s).value).value.files[ImageFile(Inserted(b, env).value.date)]
         == env.fetch(Decide(b, env.fmt).attempt.url).value
  {
    StoredTweet(a, env, s);
    var s1 := ProcessTweet(a, env, s).value;
    StoredTweet(b, env, s1);
    var fa, fb := Decide(a, env.fmt).attempt.formatted, Decide(b, env.fmt).attempt.formatted;
    assert fa == fb;
    assert Inserted(a, env).value.localFile == Basename(ImageFile(fa));
    assert Inserted(b, env).value.localFile == Basename(ImageFile(fb));
    AppendTwo(s.rows, Inserted(a, env).value, Inserted(b, env).value);
  }

  // ---------------------------------------------------------------------
  // main
  // ---------------------------------------------------------------------

  /** The state after the items in order: the store, and whether an
      exception escaped (after which nothing more runs). */
  datatype RunState = RunState(store: Store, aborted: bool)

  /** `init_database` drops and recreates the table, and `ensure_directories`
      empties the meme directory: every run starts from nothing. */
  const Fresh: Store := Store([], map[], [])

  /** `for tweet in tweets: process_tweet(tweet, cursor)` */
  function Run(items: seq<ArchiveItem>, env: Env): (st: RunState)
    ensures |st.store.fetched| <= |items|
    ensures |st.store.rows| <= |st.store.fetched|
    decreases |items|
  {
    if |items| == 0 then RunState(Fresh, false)
    else
      var prev := Run(items[..|items| - 1], env);
      if prev.aborted then prev
      else
        match ProcessTweet(items[|items| - 1], env, prev.store)
        case None => RunState(prev.store, true)
        case Some(s) => RunState(s, false)
  }

  /** What a run of `main` leaves behind: the committed rows, the image
      files and the requested URLs. */
  datatype Outcome = Outcome(committed: seq<MemeRecord>, files: map<string, Bytes>, fetched: seq<string>)

  /** The first `TweetLimit` items. */
  function Prefix(items: seq<ArchiveItem>): (p: seq<ArchiveItem>)
    ensures |p| == Min(TweetLimit, |items|) && p == items[..|p|]
    ensures |items| <= TweetLimit ==> p == items
  {
    items[..Min(TweetLimit, |items|)]
  }

  /** `main`: only the first 100 items run; the inserts are committed once
      the loop is done, so an escaping exception leaves the table empty. */
  function Extract(items: seq<ArchiveItem>, env: Env): (o: Outcome)
    ensures |o.fetched| <= TweetLimit
    ensures |o.committed| <= |o.fetched|
  {
    var st := Run(Prefix(items), env);
    Outcome(if st.aborted then [] else st.store.rows, st.store.files, st.store.fetched)
  }

  /** The files named by a list of rows. */
  function FilesOf(rows: seq<MemeRecord>): set<string> {
    set r | r in rows :: ImageFile(r.date)
  }

  lemma FilesOfSnoc(rows: seq<MemeRecord>, row: MemeRecord)
    ensures FilesOf(rows + [row]) == FilesOf(rows) + {ImageFile(row.date)}
  {
    assert forall r :: r in rows + [row] <==> r in rows || r == row;
  }

  /** `process_tweet` keeps the files on disk matched with the inserted
      rows: it writes a file exactly when it inserts the row naming it. */
  lemma ProcessTweetFiles(item: ArchiveItem, env: Env, s: Store)
    requires s.files.Keys == FilesOf(s.rows)
    requires ProcessTweet(item, env, s).Some?
    ensures ProcessTweet(item, env, s).value.files.Keys == FilesOf(ProcessTweet(item, env, s).value.rows)
  {
    var next := ProcessTweet(item, env, s).value;
    if Inserted(item, env).Some? {
      var row := Inserted(item, env).value;
      assert next.rows == s.rows + [row] && next.files.Keys == s.files.Keys + {ImageFile(row.date)} by {
        StoredTweet(item, env, s);
      }
      FilesOfSnoc(s.rows, row);
    } else {
      assert next.rows == s.rows;
    }
  }

  /** The image files on disk after a run are exactly the files named by
      the rows it inserted, whether or not those rows get committed. */
  lemma {:induction false} RunFiles(items: seq<ArchiveItem>, env: Env)
    ensures Run(items, env).store.files.Keys == FilesOf(Run(items, env).store.rows)
    decreases |items|
  {
    if |items| > 0 {
      var n := |items| - 1;
      var prev := Run(items[..n], env);
      RunFiles(items[..n], env);
      if !prev.aborted && ProcessTweet(items[n], env, prev.store).Some? {
        ProcessTweetFiles(items[n], env, prev.store);
      }
    }
  }

  /** The rows the items insert when nothing escapes, in item order. */
  function RowsOf(items: seq<ArchiveItem>, env: Env): seq<MemeRecord> {
    FilterMap(items, InsertedBy(env))
  }

  /** A run is aborted exactly when some item makes `process_tweet` raise,
      and otherwise it has inserted `RowsOf`. */
  lemma {:induction false} RunRows(items: seq<ArchiveItem>, env: Env)
    ensures Run(items, env).aborted <==> exists i :: 0 <= i < |items| && Decide(items[i], env.fmt) == Abort
    ensures !Run(items, env).aborted ==> Run(items, env).store.rows == RowsOf(items, env)
    decreases |items|
  {
    if |items| > 0 {
      var n := |items| - 1;
      var before := items[..n];
      RunRows(before, env);
      if exists i :: 0 <= i < n && Decide(before[i], env.fmt) == Abort {
        var i :| 0 <= i < n && Decide(before[i], env.fmt) == Abort;
        assert items[i] == before[i];
      }
      if exists i :: 0 <= i < |items| && Decide(items[i], env.fmt) == Abort {
        var i :| 0 <= i < |items| && Decide(items[i], env.fmt) == Abort;
        if i < n {
          assert before[i] == items[i];
        }
      }
    }
  }

  /** The committed rows are, in order, the rows of some of the first 100
      items: each row comes from a distinct item, later rows from later
      items; and there are none when an exception escaped. */
  lemma ExtractedRows(items: seq<ArchiveItem>, env: Env)
    ensures |Extract(items, env).committed| <= TweetLimit
    ensures Run(Prefix(items), env).aborted ==> Extract(items, env).committed == []
    ensures !Run(Prefix(items), env).aborted ==> Extract(items, env).committed == RowsOf(Prefix(items), env)
    ensures var idx := FilterMapIndices(Prefix(items), InsertedBy(env));
      !Run(Prefix(items), env).aborted ==>
        && |idx| == |Extract(items, env).committed|
        && (forall k :: 0 <= k < |idx| ==> idx[k] < |Prefix(items)| && idx[k] < TweetLimit)
        && (forall k, l :: 0 <= k < l < |idx| ==> idx[k] < idx[l])
        && (forall k :: 0 <= k < |idx| ==> Inserted(items[idx[k]], env) == Some(Extract(items, env).committed[k]))
  {
    var p := Prefix(items);
    RunRows(p, env);
    var idx := FilterMapIndices(p, InsertedBy(env));
    forall k | 0 <= k < |idx|
      ensures items[idx[k]] == p[idx[k]]
      ensures InsertedBy(env)(p[idx[k]]) == Inserted(items[idx[k]], env)
    {
    }
  }

  /** Items past the hundredth are never looked at. */
  lemma ExtractIgnoresTail(items: seq<ArchiveItem>, more: seq<ArchiveItem>, env: Env)
    requires TweetLimit <= |items|
    ensures Extract(items + more, env) == Extract(items, env)
  {
    assert Prefix(items + more) == Prefix(items);
  }

  /** Once an exception has escaped, later items change nothing. */
  lemma {:induction false} AbortedStaysAborted(items: seq<ArchiveItem>, k: nat, env: Env)
    requires k <= |items| && Run(items[..k], env).aborted
    ensures Run(items, env) == Run(items[..k], env)
    decreases |items| - k
  {
    if k < |items| {
      var n := |items| - 1;
      assert items[..n][..k] == items[..k];
      AbortedStaysAborted(items[..n], k, env);
    } else {
      assert items[..k] == items;
    }
  }

  /** `main`, loop for loop. */
  method ExtractMemes(items: seq<ArchiveItem>, env: Env) returns (outcome: Outcome)
    ensures outcome == Extract(items, env)
  {
    var tweets := items[..Min(TweetLimit, |items|)];
    var store := Fresh;
    var i := 0;
    while i < |tweets|
      invariant i <= |tweets|
      invariant Run(tweets[..i], env) == RunState(store, false)
    {
      assert tweets[..i + 1][..i] == tweets[..i];
      var r := ProcessTweet(tweets[i], env, store);
      if r.None? {
        AbortedStaysAborted(tweets, i + 1, env);
        return Outcome([], store.files, store.fetched);
      }
      store := r.value;
      i := i + 1;
    }
    assert tweets[..i] == tweets;
    outcome := Outcome(store.rows, store.files, store.fetched);
  }
}
