/** Deduplicating collection into the research queue, when attempts may fail part-way and are retried. */
module Collector {
  /** A queue row: the nonempty URLs its source references carry. */
  datatype Row = Row(urls: seq<string>)

  /** A post as the search tool returns it; url is "" where it has none. */
  datatype Post = Post(url: string)

  /** `_existing_urls`. */
  function Urls(rows: seq<Row>): set<string> {
    set i, j | 0 <= i < |rows| && 0 <= j < |rows[i].urls| :: rows[i].urls[j]
  }

  predicate IsNew(rows: seq<Row>, p: Post) {
    p.url != "" && p.url !in Urls(rows)
  }

  /** The queue after all of the posts were handled. */
  function Insert(rows: seq<Row>, posts: seq<Post>): seq<Row> {
    if posts == [] then rows
    else
      var r := Insert(rows, posts[..|posts| - 1]);
      var p := posts[|posts| - 1];
      if IsNew(r, p) then r + [Row([p.url])] else r
  }

  /** The repository, as the table of queue rows. */
  class Repository {
    var rows: seq<Row>

    constructor ()
      ensures rows == []
    {
      rows := [];
    }

    method ExistingUrls() returns (urls: set<string>)
      ensures urls == Urls(rows)
    {
      urls := {};
      for i := 0 to |rows|
        invariant urls == Urls(rows[..i])
      {
        var row := rows[i];
        UrlsOfEmptyRow(rows[..i]);
        assert row.urls[..0] == [];
        for j := 0 to |row.urls|
          invariant urls == Urls(rows[..i] + [Row(row.urls[..j])])
        {
          UrlsGrow(rows[..i], row.urls[..j], row.urls[j]);
          assert row.urls[..j + 1] == row.urls[..j] + [row.urls[j]];
          urls := urls + {row.urls[j]};
        }
        assert row.urls[..|row.urls|] == row.urls && Row(row.urls) == row;
        assert rows[..i + 1] == rows[..i] + [row];
      }
      assert rows[..|rows|] == rows;
    }

    /** The insert loop of `run_collect_x`. Handling the i-th post raises if breaks(i), before it is looked at
      (say, it is not an object), or if it is new and fails(i), before its row is written. Either ends the
      attempt. */
    method Collect(posts: seq<Post>, breaks: nat -> bool, fails: nat -> bool) returns (handled: nat, inserted: seq<string>)
      modifies this
      ensures handled <= |posts|
      ensures rows == Insert(old(rows), posts[..handled])
      ensures handled < |posts| ==> Stops(old(rows), posts, breaks, fails, handled)
      ensures forall i :: 0 <= i < handled ==> !Stops(old(rows), posts, breaks, fails, i)
      ensures |rows| == |old(rows)| + |inserted|
      ensures forall i :: 0 <= i < |inserted| ==> rows[|old(rows)| + i] == Row([inserted[i]])
    {
      var existing := ExistingUrls();
      inserted := [];
      handled := 0;
      while handled < |posts|
        invariant handled <= |posts|
        invariant rows == Insert(old(rows), posts[..handled])
        invariant existing == Urls(rows)
        invariant forall i :: 0 <= i < handled ==> !Stops(old(rows), posts, breaks, fails, i)
        invariant |rows| == |old(rows)| + |inserted|
        invariant forall i :: 0 <= i < |inserted| ==> rows[|old(rows)| + i] == Row([inserted[i]])
      {
        hide Urls;
        var p := posts[handled];
        if breaks(handled) {
          return;
        }
        assert posts[..handled + 1][..handled] == posts[..handled];
        if p.url != "" && p.url !in existing {
          if fails(handled) {
            return;
          }
          UrlsOfAppend(rows, p.url);
          rows := rows + [Row([p.url])];
          inserted := inserted + [p.url];
          existing := existing + {p.url};
        }
        handled := handled + 1;
      }
    }

    /** The collector job: one collection per query, until one raises. raises(q) tells whether query q's
      search does; q and k say how far the job got. */
    method CollectAll(responses: seq<seq<Post>>, raises: nat -> bool, breaks: (nat, nat) -> bool, fails: (nat, nat) -> bool)
      returns (q: nat, k: nat)
      modifies this
      ensures Within(responses, (q, k))
      ensures rows == InsertUpTo(old(rows), responses, (q, k))
      ensures q < |responses| ==> raises(q) || k < |responses[q]|
    {
      q, k := 0, 0;
      while q < |responses|
        invariant q <= |responses| && k == 0
        invariant rows == InsertEach(old(rows), responses[..q])
      {
        assert responses[..q + 1][..q] == responses[..q];
        if raises(q) {
          return;
        }
        var handled, inserted := Collect(responses[q], (i: nat) => breaks(q, i), (i: nat) => fails(q, i));
        if handled < |responses[q]| {
          k := handled;
          return;
        }
        assert responses[q][..handled] == responses[q];
        q := q + 1;
      }
      assert responses[..q] == responses;
    }
  }

  /** Handling post i, when those before it are in the queue, raises. */
  predicate Stops(rows: seq<Row>, posts: seq<Post>, breaks: nat -> bool, fails: nat -> bool, i: nat)
    requires i < |posts|
  {
    breaks(i) || (fails(i) && IsNew(Insert(rows, posts[..i]), posts[i]))
  }

  lemma UrlsGrow(rows: seq<Row>, urls: seq<string>, u: string)
    ensures Urls(rows + [Row(urls + [u])]) == Urls(rows + [Row(urls)]) + {u}
  {
    var a, b := rows + [Row(urls)], rows + [Row(urls + [u])];
    var n := |rows|;
    forall v
      ensures v in Urls(b) <==> v in Urls(a) || v == u
    {
      if v in Urls(b) {
        var i, j :| 0 <= i < |b| && 0 <= j < |b[i].urls| && b[i].urls[j] == v;
        if i < n || j < |urls| { assert a[i].urls[j] == v; }
      }
      if v in Urls(a) {
        var i, j :| 0 <= i < |a| && 0 <= j < |a[i].urls| && a[i].urls[j] == v;
        assert b[i].urls[j] == v;
      }
      assert b[n].urls[|urls|] == u;
    }
  }

  lemma UrlsOfEmptyRow(rows: seq<Row>)
    ensures Urls(rows + [Row([])]) == Urls(rows)
  {
    var a := rows + [Row([])];
    forall v
      ensures v in Urls(a) <==> v in Urls(rows)
    {
      if v in Urls(a) {
        var i, j :| 0 <= i < |a| && 0 <= j < |a[i].urls| && a[i].urls[j] == v;
        assert rows[i].urls[j] == v;
      }
      if v in Urls(rows) {
        var i, j :| 0 <= i < |rows| && 0 <= j < |rows[i].urls| && rows[i].urls[j] == v;
        assert a[i].urls[j] == v;
      }
    }
  }

  lemma UrlsOfAppend(rows: seq<Row>, u: string)
    ensures Urls(rows + [Row([u])]) == Urls(rows) + {u}
  {
    UrlsGrow(rows, [], u);
    assert [] + [u] == [u];
    UrlsOfEmptyRow(rows);
  }

  // ---------------------------------------------------------------- what insertion does

  /** A success leaves exactly the old URLs and the nonempty ones of the posts. */
  lemma {:induction false} InsertedUrls(rows: seq<Row>, posts: seq<Post>)
    ensures forall u :: u in Urls(Insert(rows, posts)) <==> u in Urls(rows) || (u != "" && Post(u) in posts)
  {
    if posts != [] {
      hide Urls;
      var n := |posts| - 1;
      InsertedUrls(rows, posts[..n]);
      UrlsOfAppend(Insert(rows, posts[..n]), posts[n].url);
      assert posts == posts[..n] + [posts[n]];
      assert Post(posts[n].url) == posts[n];
    }
  }

  /** Post i brings a row: it has a URL, which no row and no post before it has. */
  ghost predicate BringsRow(rows: seq<Row>, posts: seq<Post>, i: nat)
    requires i < |posts|
  {
    posts[i].url != "" && posts[i].url !in Urls(rows) && forall j :: 0 <= j < i ==> posts[j].url != posts[i].url
  }

  /** The rows after the old ones are those of the posts with the given positions, which ascend and are exactly
    those of the posts that bring one. */
  ghost predicate Appended(rows: seq<Row>, posts: seq<Post>, added: seq<Row>, from: seq<nat>) {
    && |from| == |added|
    && (forall k :: 0 <= k < |from| ==> from[k] < |posts| && added[k] == Row([posts[from[k]].url]))
    && (forall k, l :: 0 <= k < l < |from| ==> from[k] < from[l])
    && (forall k :: 0 <= k < |from| ==> BringsRow(rows, posts, from[k]))
    && (forall i :: 0 <= i < |posts| && BringsRow(rows, posts, i) ==> i in from)
  }

  lemma AppendedMore(rows: seq<Row>, posts: seq<Post>, added: seq<Row>, from: seq<nat>)
    requires posts != [] && Appended(rows, posts[..|posts| - 1], added, from)
    ensures var n := |posts| - 1;
            if BringsRow(rows, posts, n) then Appended(rows, posts, added + [Row([posts[n].url])], from + [n])
            else Appended(rows, posts, added, from)
  {
    hide Urls;
    var n := |posts| - 1;
    assert forall i :: 0 <= i < n ==> posts[..n][i] == posts[i];
    assert forall i :: 0 <= i < n ==> (BringsRow(rows, posts[..n], i) <==> BringsRow(rows, posts, i));
  }

  /** A success leaves the old rows and appends one for each URL that is new, for the first post with it, in the
    order of the posts. */
  lemma {:induction false} InsertedRows(rows: seq<Row>, posts: seq<Post>) returns (from: seq<nat>)
    ensures rows <= Insert(rows, posts) && Appended(rows, posts, Insert(rows, posts)[|rows|..], from)
  {
    hide Urls;
    from := [];
    if posts != [] {
      hide Appended;
      var n := |posts| - 1;
      var init := Insert(rows, posts[..n]);
      from := InsertedRows(rows, posts[..n]);
      InsertedUrls(rows, posts[..n]);
      AppendedMore(rows, posts, init[|rows|..], from);
      NewIffBrings(rows, posts);
      if IsNew(init, posts[n]) {
        assert (init + [Row([posts[n].url])])[|rows|..] == init[|rows|..] + [Row([posts[n].url])];
        from := from + [n];
      }
    }
  }

  lemma NewIffBrings(rows: seq<Row>, posts: seq<Post>)
    requires posts != []
    ensures var n := |posts| - 1; IsNew(Insert(rows, posts[..n]), posts[n]) <==> BringsRow(rows, posts, n)
  {
    hide Urls;
    var n := |posts| - 1;
    InsertedUrls(rows, posts[..n]);
    assert forall j :: 0 <= j < n ==> posts[..n][j] == posts[j] == Post(posts[j].url);
    assert posts[n].url != "" && (exists j :: 0 <= j < n && posts[j].url == posts[n].url) ==> Post(posts[n].url) in posts[..n];
  }

  /** From row k on, every row holds one nonempty URL found in no row before it. */
  ghost predicate DistinctFrom(rows: seq<Row>, k: nat) {
    forall i :: k <= i < |rows| ==>
      && |rows[i].urls| == 1 && rows[i].urls[0] != ""
      && forall j :: 0 <= j < i ==> rows[i].urls[0] !in rows[j].urls
  }

  /** Every row a run adds holds one nonempty URL found in no row before it. */
  lemma {:induction false} InsertKeepsDistinct(rows: seq<Row>, posts: seq<Post>, k: nat)
    requires DistinctFrom(rows, k)
    ensures DistinctFrom(Insert(rows, posts), k) && rows <= Insert(rows, posts)
  {
    if posts != [] {
      var n := |posts| - 1;
      InsertKeepsDistinct(rows, posts[..n], k);
      var r, p := Insert(rows, posts[..n]), posts[n];
      if IsNew(r, p) {
        forall j | 0 <= j < |r|
          ensures p.url !in r[j].urls
        {
          assert forall l :: 0 <= l < |r[j].urls| ==> r[j].urls[l] in Urls(r);
        }
      }
    }
  }

  // ---------------------------------------------------------------- retries

  lemma {:induction false} InsertAppend(rows: seq<Row>, a: seq<Post>, b: seq<Post>)
    ensures Insert(rows, a + b) == Insert(Insert(rows, a), b)
  {
    if b == [] {
      assert a + b == a;
    } else {
      var n := |b| - 1;
      assert (a + b)[..|a| + n] == a + b[..n];
      InsertAppend(rows, a, b[..n]);
    }
  }

  /** Posts whose URLs are all in the queue already add nothing. */
  lemma {:induction false} NothingNew(rows: seq<Row>, posts: seq<Post>)
    requires forall i :: 0 <= i < |posts| ==> !IsNew(rows, posts[i])
    ensures Insert(rows, posts) == rows
  {
    if posts != [] { NothingNew(rows, posts[..|posts| - 1]); }
  }

  /** An attempt that got through the first k posts changes nothing about a full run after it. */
  lemma FailedAttemptIsAbsorbed(rows: seq<Row>, posts: seq<Post>, k: nat)
    requires k <= |posts|
    ensures Insert(Insert(rows, posts[..k]), posts) == Insert(rows, posts)
  {
    hide Urls;
    var part := Insert(rows, posts[..k]);
    InsertedUrls(rows, posts[..k]);
    forall i | 0 <= i < k
      ensures !IsNew(part, posts[..k][i])
    {
      assert Post(posts[..k][i].url) == posts[..k][i];
    }
    NothingNew(part, posts[..k]);
    assert posts == posts[..k] + posts[k..];
    InsertAppend(part, posts[..k], posts[k..]);
    InsertAppend(rows, posts[..k], posts[k..]);
  }

  /** The queue after attempts that each got through a beginning of the same posts. */
  function AfterAttempts(rows: seq<Row>, posts: seq<Post>, cuts: seq<nat>): seq<Row>
    requires forall i :: 0 <= i < |cuts| ==> cuts[i] <= |posts|
  {
    if cuts == [] then rows else Insert(AfterAttempts(rows, posts, cuts[..|cuts| - 1]), posts[..cuts[|cuts| - 1]])
  }

  /** Retries converge: any number of attempts that fail part-way, wherever they fail, followed by one
    that succeeds leave the queue exactly as one clean run would, rows and order included. */
  lemma {:induction false} RetriesConverge(rows: seq<Row>, posts: seq<Post>, cuts: seq<nat>)
    requires forall i :: 0 <= i < |cuts| ==> cuts[i] <= |posts|
    ensures Insert(AfterAttempts(rows, posts, cuts), posts) == Insert(rows, posts)
  {
    if cuts != [] {
      var n := |cuts| - 1;
      RetriesConverge(rows, posts, cuts[..n]);
      FailedAttemptIsAbsorbed(AfterAttempts(rows, posts, cuts[..n]), posts, cuts[n]);
    }
  }

  // ---------------------------------------------------------------- the job with its queries

  function Flatten(responses: seq<seq<Post>>): seq<Post> {
    if responses == [] then [] else Flatten(responses[..|responses| - 1]) + responses[|responses| - 1]
  }

  function InsertEach(rows: seq<Row>, responses: seq<seq<Post>>): seq<Row> {
    if responses == [] then rows
    else Insert(InsertEach(rows, responses[..|responses| - 1]), responses[|responses| - 1])
  }

  /** One collection per query, each reading the queue afresh, is one collection over all their posts. */
  lemma {:induction false} QueriesAreOneRun(rows: seq<Row>, responses: seq<seq<Post>>)
    ensures InsertEach(rows, responses) == Insert(rows, Flatten(responses))
  {
    if responses != [] {
      var n := |responses| - 1;
      QueriesAreOneRun(rows, responses[..n]);
      InsertAppend(rows, Flatten(responses[..n]), responses[n]);
    }
  }

  /** A point the job can stop at: a query and a number of its posts, or the end. */
  predicate Within(responses: seq<seq<Post>>, cut: (nat, nat)) {
    if cut.0 < |responses| then cut.1 <= |responses[cut.0]| else cut == (|responses|, 0)
  }

  /** The queue after an attempt of the job that got as far as the cut. */
  function InsertUpTo(rows: seq<Row>, responses: seq<seq<Post>>, cut: (nat, nat)): seq<Row>
    requires Within(responses, cut)
  {
    var done := InsertEach(rows, responses[..cut.0]);
    if cut.0 < |responses| then Insert(done, responses[cut.0][..cut.1]) else done
  }

  /** How many posts lie before a cut, and that they are a beginning of all posts. */
  lemma {:induction false} PostsBefore(responses: seq<seq<Post>>, q: nat, k: nat) returns (n: nat)
    requires q < |responses| && k <= |responses[q]|
    ensures n <= |Flatten(responses)| && Flatten(responses)[..n] == Flatten(responses[..q]) + responses[q][..k]
  {
    var last := |responses| - 1;
    if q == last {
      n := |Flatten(responses[..q])| + k;
    } else {
      var init := responses[..last];
      n := PostsBefore(init, q, k);
      assert init[..q] == responses[..q];
      assert Flatten(responses)[..n] == Flatten(init)[..n];
    }
  }

  /** An attempt of the job that stopped anywhere changes nothing about a full run after it. */
  lemma FailedJobIsAbsorbed(rows: seq<Row>, responses: seq<seq<Post>>, cut: (nat, nat))
    requires Within(responses, cut)
    ensures InsertEach(InsertUpTo(rows, responses, cut), responses) == InsertEach(rows, responses)
  {
    hide Insert, InsertEach, Flatten;
    var (q, k) := cut;
    var all, part := Flatten(responses), InsertUpTo(rows, responses, cut);
    QueriesAreOneRun(rows, responses);
    QueriesAreOneRun(part, responses);
    QueriesAreOneRun(rows, responses[..q]);
    var n := |all|;
    if q < |responses| {
      n := PostsBefore(responses, q, k);
      InsertAppend(rows, Flatten(responses[..q]), responses[q][..k]);
    } else {
      assert responses[..q] == responses && all[..n] == all;
    }
    FailedAttemptIsAbsorbed(rows, all, n);
  }

  /** The queue after attempts of the job that each got as far as their cut. */
  function AfterJobAttempts(rows: seq<Row>, responses: seq<seq<Post>>, cuts: seq<(nat, nat)>): seq<Row>
    requires forall i :: 0 <= i < |cuts| ==> Within(responses, cuts[i])
  {
    if cuts == [] then rows
    else InsertUpTo(AfterJobAttempts(rows, responses, cuts[..|cuts| - 1]), responses, cuts[|cuts| - 1])
  }

  /** Retries of the whole job converge: any number of attempts, each stopped inside any query or between
    two, followed by one that succeeds leave the queue exactly as one clean run of the job would. */
  lemma {:induction false} JobRetriesConverge(rows: seq<Row>, responses: seq<seq<Post>>, cuts: seq<(nat, nat)>)
    requires forall i :: 0 <= i < |cuts| ==> Within(responses, cuts[i])
    ensures InsertEach(AfterJobAttempts(rows, responses, cuts), responses) == InsertEach(rows, responses)
  {
    hide InsertUpTo, Within, InsertEach;
    if cuts != [] {
      var n := |cuts| - 1;
      JobRetriesConverge(rows, responses, cuts[..n]);
      FailedJobIsAbsorbed(AfterJobAttempts(rows, responses, cuts[..n]), responses, cuts[n]);
    }
  }

  /** From an empty queue, no run of collections ever stores a URL twice. */
  lemma QueueStaysDistinct(responses: seq<seq<Post>>)
    ensures DistinctFrom(InsertEach([], responses), 0)
  {
    QueriesAreOneRun([], responses);
    InsertKeepsDistinct([], Flatten(responses), 0);
  }
}
