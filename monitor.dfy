/**
  The novelty detector of TruthSocialMonitor (monitor.py): the trimmed
  similarity test, the intra-batch deduplicator built on it, and the per-cycle
  classifier that decides, against the `seen_posts` map, which scraped posts
  are NEW.
*/
module Monitor {
  import opened Text
  import opened Jaccard
  import opened Seqs
  import opened Wrappers
  import opened Posts
  import opened Dedup

  /** Number of trailing space-separated tokens _clean_content drops. */
  const TRIM_COUNT: nat := 3
  /** Shortest content the cycle classifier considers. */
  const MIN_NOVEL_LENGTH: nat := 100
  /** The `notified_at` value of a post recorded as a near-duplicate. */
  const SKIPPED_SIMILAR: string := "skipped_similar"

  // ---------------------------------------------------------------------------
  // Trimmed similarity
  // ---------------------------------------------------------------------------

  /** _clean_content: with more than three " "-separated tokens, the content
      without its last three tokens (and the spaces before them); otherwise
      the content unchanged. */
  function CleanContent(s: string): string {
    var ts := SplitOnSpace(s);
    if |ts| > TRIM_COUNT then Join(ts[..|ts| - TRIM_COUNT]) else s
  }

  /** What _clean_content keeps: the content itself when it has at most three
      tokens; otherwise a prefix of it that is followed, in the content, by one
      space and exactly the last three tokens, and whose own tokens are all
      the others. */
  lemma CleanContentDropsLastTokens(s: string)
    ensures CleanContent(s) <= s
    ensures |SplitOnSpace(s)| <= TRIM_COUNT ==> CleanContent(s) == s
    ensures |SplitOnSpace(s)| > TRIM_COUNT ==>
      var ts, r := SplitOnSpace(s), CleanContent(s);
      && SplitOnSpace(r) == ts[..|ts| - TRIM_COUNT]
      && s == r + " " + Join(ts[|ts| - TRIM_COUNT..])
  {
    var ts := SplitOnSpace(s);
    JoinOfSplitOnSpace(s);
    if |ts| > TRIM_COUNT {
      var kept, dropped := ts[..|ts| - TRIM_COUNT], ts[|ts| - TRIM_COUNT..];
      assert kept + dropped == ts;
      JoinAppend(kept, dropped);
      SplitOnSpaceOfJoin(kept);
    }
  }

  /** Similar after trimming both sides. */
  predicate TrimmedSimilar(a: string, b: string, t: Threshold) {
    Similar(CleanContent(a), CleanContent(b), t)
  }

  /** Trimming makes the last three " "-separated fields irrelevant: two
      contents of more than three fields that agree on all the others are
      similar after trimming, for any threshold up to 1, provided what is left
      has a word in it. */
  lemma TrailingFieldsIgnored(a: string, b: string, t: Threshold)
    requires |SplitOnSpace(a)| > TRIM_COUNT && |SplitOnSpace(b)| > TRIM_COUNT
    requires var ta, tb := SplitOnSpace(a), SplitOnSpace(b);
      ta[..|ta| - TRIM_COUNT] == tb[..|tb| - TRIM_COUNT]
    requires Tokens(CleanContent(a)) != {}
    requires t.num <= t.den
    ensures TrimmedSimilar(a, b, t)
  {
    CleanContentAgrees(a, b);
    SelfSimilar(CleanContent(a), t);
  }

  /** Contents that agree on all fields but the last three clean to the same
      string. */
  lemma CleanContentAgrees(a: string, b: string)
    requires |SplitOnSpace(a)| > TRIM_COUNT && |SplitOnSpace(b)| > TRIM_COUNT
    requires var ta, tb := SplitOnSpace(a), SplitOnSpace(b);
      ta[..|ta| - TRIM_COUNT] == tb[..|tb| - TRIM_COUNT]
    ensures CleanContent(a) == CleanContent(b)
  {
    CleanContentDropsLastTokens(a);
    CleanContentDropsLastTokens(b);
    JoinOfSplitOnSpace(CleanContent(a));
    JoinOfSplitOnSpace(CleanContent(b));
  }

  /** Trimmed similarity as a relation, the test the monitor's deduplicator
      and classifier use. */
  function Trimmed(t: Threshold): Relation {
    (a, b) => TrimmedSimilar(a, b, t)
  }

  /** _is_similar_content: some existing content, trimmed, reaches the
      threshold against the trimmed new content. */
  function IsSimilarContent(newContent: string, existing: seq<string>, t: Threshold): (r: bool)
    ensures r <==> exists k :: 0 <= k < |existing| && TrimmedSimilar(newContent, existing[k], t)
  {
    AnySimilar(newContent, existing, Trimmed(t))
  }

  /** Trimmed similarity does not depend on the order of its arguments. */
  lemma TrimmedSimilarSymmetric(a: string, b: string)
    ensures TrimmedSimilar(a, b, DEFAULT_THRESHOLD) == TrimmedSimilar(b, a, DEFAULT_THRESHOLD)
  {
    SimilaritySymmetric(CleanContent(a), CleanContent(b));
  }

  // ---------------------------------------------------------------------------
  // Intra-batch deduplication
  // ---------------------------------------------------------------------------

  /** _remove_duplicates_using_jaccard of the monitor, with trimmed similarity. */
  method RemoveDuplicates(posts: seq<Post>, t: Threshold) returns (unique: seq<Post>)
    ensures unique == Deduplicate(posts, Trimmed(t))
  {
    unique := Dedup.RemoveDuplicates(posts, Trimmed(t));
  }

  /** With the default threshold, no two posts the monitor's deduplicator
      keeps are similar after trimming, in either order. */
  lemma BatchHasNoTrimmedDuplicates(posts: seq<Post>)
    ensures var u := Deduplicate(posts, Trimmed(DEFAULT_THRESHOLD));
      forall i, j :: 0 <= i < |u| && 0 <= j < |u| && i != j ==>
        !TrimmedSimilar(Lower(u[i].content), Lower(u[j].content), DEFAULT_THRESHOLD)
  {
    var u := Deduplicate(posts, Trimmed(DEFAULT_THRESHOLD));
    DeduplicateDistinct(posts, Trimmed(DEFAULT_THRESHOLD));
    forall i, j | 0 <= i < |u| && 0 <= j < |u| && i != j
      ensures !TrimmedSimilar(Lower(u[i].content), Lower(u[j].content), DEFAULT_THRESHOLD)
    {
      if i < j {
        assert !Trimmed(DEFAULT_THRESHOLD)(Lower(u[j].content), Lower(u[i].content));
        TrimmedSimilarSymmetric(Lower(u[i].content), Lower(u[j].content));
      } else {
        assert !Trimmed(DEFAULT_THRESHOLD)(Lower(u[i].content), Lower(u[j].content));
      }
    }
  }

  // ---------------------------------------------------------------------------
  // The seen-posts store and one cycle of check_and_notify
  // ---------------------------------------------------------------------------

  /** A `seen_posts` entry. `skippedAt` is present only on near-duplicates. */
  datatype SeenRecord = SeenRecord(
    content: string,
    date: string,
    notifiedAt: string,
    skippedAt: Option<string>)

  /** The record a NEW post gets. */
  function NotifiedRecord(p: Post, now: string): SeenRecord {
    SeenRecord(p.content, p.date, now, None)
  }

  /** The record a near-duplicate gets. */
  function SkippedRecord(p: Post, now: string): SeenRecord {
    SeenRecord(p.content, p.date, SKIPPED_SIMILAR, Some(now))
  }

  /** The comparison corpus: every stored record's content. */
  function SeenContents(seen: map<string, SeenRecord>): set<string> {
    set k | k in seen :: seen[k].content
  }

  /** Some content of the snapshot is similar, after trimming, to `content`. */
  ghost predicate SimilarToSnapshot(content: string, snapshot: set<string>) {
    exists c :: c in snapshot && TrimmedSimilar(content, c, DEFAULT_THRESHOLD)
  }

  /** Long enough for the classifier to consider. */
  predicate Eligible(p: Post) {
    |p.content| >= MIN_NOVEL_LENGTH
  }

  /** The store after a post, and the NEW posts so far. */
  datatype CycleState = CycleState(seen: map<string, SeenRecord>, found: seq<Post>)

  /** m2 holds every entry of m1 unchanged. */
  predicate Extends(m1: map<string, SeenRecord>, m2: map<string, SeenRecord>) {
    forall k :: k in m1 ==> k in m2 && m2[k] == m1[k]
  }

  /** The classification of one post. */
  ghost function Step(st: CycleState, snapshot: set<string>, p: Post, now: string): (r: CycleState)
    ensures Extends(st.seen, r.seen)
    ensures r.seen.Keys == st.seen.Keys + (if Eligible(p) then {p.id} else {})
    ensures !Eligible(p) || p.id in st.seen ==> r == st
    ensures r.found == st.found || r.found == st.found + [p]
    ensures r.found == st.found + [p] <==>
      Eligible(p) && p.id !in st.seen && !SimilarToSnapshot(p.content, snapshot)
  {
    if !Eligible(p) then st
    else if p.id in st.seen then st
    else if SimilarToSnapshot(p.content, snapshot) then
      CycleState(st.seen[p.id := SkippedRecord(p, now)], st.found)
    else
      CycleState(st.seen[p.id := NotifiedRecord(p, now)], st.found + [p])
  }

  /** The classification of posts in order, against a fixed snapshot. */
  ghost function RunCycle(seen0: map<string, SeenRecord>, snapshot: set<string>, posts: seq<Post>, now: string): CycleState
    decreases |posts|
  {
    if posts == [] then CycleState(seen0, [])
    else Step(RunCycle(seen0, snapshot, posts[..|posts| - 1], now), snapshot, posts[|posts| - 1], now)
  }

  /** One cycle of check_and_notify: the snapshot is taken from the store as
      it was before the cycle. */
  ghost function Cycle(seen0: map<string, SeenRecord>, posts: seq<Post>, now: string): CycleState {
    RunCycle(seen0, SeenContents(seen0), posts, now)
  }

  /** The ids of the posts the classifier considers. */
  function EligibleIds(posts: seq<Post>): set<string> {
    set p | p in posts && Eligible(p) :: p.id
  }

  /** A longer run of the cycle only adds entries and appends NEW posts: no
      entry is ever overwritten, not even one written earlier in the cycle. */
  lemma {:induction false} CycleExtends(seen0: map<string, SeenRecord>, posts: seq<Post>, n: nat, now: string)
    requires n <= |posts|
    ensures var S := SeenContents(seen0);
      var before, after := RunCycle(seen0, S, posts[..n], now), RunCycle(seen0, S, posts, now);
      Extends(before.seen, after.seen) && before.found <= after.found
    decreases |posts| - n
  {
    if n < |posts| {
      CycleExtends(seen0, posts, n + 1, now);
      assert posts[..n + 1][..n] == posts[..n];
    } else {
      assert posts[..n] == posts;
    }
  }

  /** The store after a cycle holds exactly the old ids and the ids of the
      posts of at least 100 characters. */
  lemma {:induction false} CycleKeys(seen0: map<string, SeenRecord>, snapshot: set<string>, posts: seq<Post>, now: string)
    ensures RunCycle(seen0, snapshot, posts, now).seen.Keys == seen0.Keys + EligibleIds(posts)
    decreases |posts|
  {
    if posts != [] {
      var prefix, p := posts[..|posts| - 1], posts[|posts| - 1];
      CycleKeys(seen0, snapshot, prefix, now);
      assert posts == prefix + [p];
      forall x
        ensures x in EligibleIds(posts) <==> x in EligibleIds(prefix) || (Eligible(p) && x == p.id)
      {
        if x in EligibleIds(posts) {
          var q :| q in posts && Eligible(q) && q.id == x;
          if q != p {
            assert q in prefix;
          }
        }
        if x in EligibleIds(prefix) {
          var q :| q in prefix && Eligible(q) && q.id == x;
          assert q in posts;
        }
      }
    }
  }

  /** What the cycle promises of a post it reports as NEW: at least 100
      characters, absent from the store before the cycle, similar to nothing
      in the snapshot, and recorded as notified with the cycle's timestamp. */
  ghost predicate Announced(seen0: map<string, SeenRecord>, snapshot: set<string>, st: CycleState, p: Post, now: string) {
    && Eligible(p)
    && p.id !in seen0
    && !SimilarToSnapshot(p.content, snapshot)
    && p.id in st.seen
    && st.seen[p.id] == NotifiedRecord(p, now)
  }

  /** Every post of the NEW list satisfies Announced. */
  lemma {:induction false} RunCycleAnnounced(seen0: map<string, SeenRecord>, snapshot: set<string>, posts: seq<Post>, now: string)
    ensures var r := RunCycle(seen0, snapshot, posts, now);
      forall k :: 0 <= k < |r.found| ==> Announced(seen0, snapshot, r, r.found[k], now)
    decreases |posts|
  {
    if posts != [] {
      var prefix, p := posts[..|posts| - 1], posts[|posts| - 1];
      RunCycleAnnounced(seen0, snapshot, prefix, now);
      CycleKeys(seen0, snapshot, prefix, now);
      var st := RunCycle(seen0, snapshot, prefix, now);
      var r := Step(st, snapshot, p, now);
      forall k | 0 <= k < |r.found|
        ensures Announced(seen0, snapshot, r, r.found[k], now)
      {
        if k < |st.found| {
          assert r.found[k] == st.found[k];
          assert Announced(seen0, snapshot, st, st.found[k], now);
        }
      }
    }
  }

  /** The NEW list is an in-order subsequence of the posts, with distinct ids. */
  lemma {:induction false} RunCycleFoundOrder(seen0: map<string, SeenRecord>, snapshot: set<string>, posts: seq<Post>, now: string)
    ensures var r := RunCycle(seen0, snapshot, posts, now);
      && IsSubsequence(r.found, posts)
      && (forall i, j :: 0 <= i < j < |r.found| ==> r.found[i].id != r.found[j].id)
    decreases |posts|
  {
    if posts != [] {
      var prefix, p := posts[..|posts| - 1], posts[|posts| - 1];
      RunCycleFoundOrder(seen0, snapshot, prefix, now);
      RunCycleAnnounced(seen0, snapshot, prefix, now);
      var st := RunCycle(seen0, snapshot, prefix, now);
      assert posts == prefix + [p];
      SubsequenceAppend(st.found, prefix, p);
      var r := Step(st, snapshot, p, now);
      if r.found != st.found {
        forall i, j | 0 <= i < j < |r.found|
          ensures r.found[i].id != r.found[j].id
        {
          assert r.found[i] == st.found[i];
          if j < |st.found| {
            assert r.found[j] == st.found[j];
          } else {
            assert Announced(seen0, snapshot, st, st.found[i], now);
          }
        }
      }
    }
  }

  /** The NEW list of a cycle: an in-order subsequence of the posts, with
      distinct ids, each post at least 100 characters long, absent from the
      store before the cycle, similar to nothing in the start-of-cycle
      snapshot, and recorded with the cycle's timestamp. */
  lemma CycleNewPosts(seen0: map<string, SeenRecord>, posts: seq<Post>, now: string)
    ensures var r := Cycle(seen0, posts, now);
      && IsSubsequence(r.found, posts)
      && (forall i, j :: 0 <= i < j < |r.found| ==> r.found[i].id != r.found[j].id)
      && (forall k :: 0 <= k < |r.found| ==> Announced(seen0, SeenContents(seen0), r, r.found[k], now))
  {
    RunCycleFoundOrder(seen0, SeenContents(seen0), posts, now);
    RunCycleAnnounced(seen0, SeenContents(seen0), posts, now);
  }

  /** A post that is the first of its id among the posts of at least 100
      characters, with an id the store did not hold, is recorded from that
      post: as skipped when it is similar to the snapshot, as notified and in
      the NEW list otherwise. */
  lemma CycleFirstOccurrence(seen0: map<string, SeenRecord>, posts: seq<Post>, i: nat, now: string)
    requires i < |posts| && Eligible(posts[i]) && posts[i].id !in seen0
    requires forall j :: 0 <= j < i && Eligible(posts[j]) ==> posts[j].id != posts[i].id
    ensures var r, p := Cycle(seen0, posts, now), posts[i];
      var similar := SimilarToSnapshot(p.content, SeenContents(seen0));
      && p.id in r.seen
      && r.seen[p.id] == (if similar then SkippedRecord(p, now) else NotifiedRecord(p, now))
      && (p in r.found <==> !similar)
  {
    var S := SeenContents(seen0);
    var p := posts[i];
    var prefix := posts[..i];
    CycleKeys(seen0, S, prefix, now);
    assert p.id !in EligibleIds(prefix);
    assert posts[..i + 1][..i] == prefix;
    var st := RunCycle(seen0, S, posts[..i + 1], now);
    CycleExtends(seen0, posts, i + 1, now);
    var r := Cycle(seen0, posts, now);
    assert r.seen[p.id] == st.seen[p.id];
    CycleNewPosts(seen0, posts, now);
    if !SimilarToSnapshot(p.content, S) {
      assert st.found[|st.found| - 1] == p;
      assert r.found[|st.found| - 1] == p;
    }
  }

  /** A post similar only to a NEW post of the same cycle is still NEW: the
      snapshot is not refreshed during the cycle, so two found posts of at
      least 100 characters, neither similar to the store, are both NEW
      whatever their similarity to each other. */
  lemma SnapshotNotRefreshed(seen0: map<string, SeenRecord>, p: Post, q: Post, now: string)
    requires Eligible(p) && Eligible(q)
    requires p.id !in seen0 && q.id !in seen0 && p.id != q.id
    requires !SimilarToSnapshot(p.content, SeenContents(seen0))
    requires !SimilarToSnapshot(q.content, SeenContents(seen0))
    ensures Cycle(seen0, [p, q], now).found == [p, q]
  {
    var S := SeenContents(seen0);
    assert [p, q][..1] == [p];
    assert [p][..0] == [];
    var st0 := RunCycle(seen0, S, [], now);
    assert st0 == CycleState(seen0, []);
    var st1 := RunCycle(seen0, S, [p], now);
    assert st1 == Step(st0, S, p, now);
    assert st1.found == [p] && q.id !in st1.seen;
  }

  /** Decisions are final: running the cycle again on the same posts, at any
      later time, finds nothing NEW and changes no entry. */
  lemma RerunChangesNothing(seen0: map<string, SeenRecord>, posts: seq<Post>, now: string, later: string)
    ensures var seen1 := Cycle(seen0, posts, now).seen;
      Cycle(seen1, posts, later) == CycleState(seen1, [])
  {
    var seen1 := Cycle(seen0, posts, now).seen;
    CycleKeys(seen0, SeenContents(seen0), posts, now);
    AllSeenIsIdentity(seen1, SeenContents(seen1), posts, later);
  }

  lemma {:induction false} AllSeenIsIdentity(seen: map<string, SeenRecord>, snapshot: set<string>, posts: seq<Post>, now: string)
    requires EligibleIds(posts) <= seen.Keys
    ensures RunCycle(seen, snapshot, posts, now) == CycleState(seen, [])
    decreases |posts|
  {
    if posts != [] {
      var prefix, p := posts[..|posts| - 1], posts[|posts| - 1];
      assert EligibleIds(prefix) <= EligibleIds(posts);
      assert Eligible(p) ==> p.id in EligibleIds(posts);
      AllSeenIsIdentity(seen, snapshot, prefix, now);
    }
  }

  /** The monitor; `seenPosts` is the `seen_posts` map it keeps between cycles. */
  class TruthSocialMonitor {
    var seenPosts: map<string, SeenRecord>

    /** The store as loaded at start-up. */
    constructor (loaded: map<string, SeenRecord>)
      ensures seenPosts == loaded
    {
      seenPosts := loaded;
    }

    /** [post_info.get("content", "") for post_info in self.seen_posts.values()] */
    method ExistingContents() returns (contents: seq<string>)
      ensures |contents| == |seenPosts|
      ensures forall c :: c in contents <==> c in SeenContents(seenPosts)
    {
      contents := [];
      var todo := seenPosts.Keys;
      while todo != {}
        invariant todo <= seenPosts.Keys
        invariant |contents| + |todo| == |seenPosts|
        invariant forall c :: c in contents ==> c in SeenContents(seenPosts)
        invariant forall k :: k in seenPosts && k !in todo ==> seenPosts[k].content in contents
        decreases todo
      {
        var k :| k in todo;
        contents := contents + [seenPosts[k].content];
        todo := todo - {k};
      }
    }

    /** The classification loop of check_and_notify over the already
        scraped and deduplicated posts; `now` is the cycle's timestamp. */
    method CheckAndNotify(posts: seq<Post>, now: string) returns (newPosts: seq<Post>)
      modifies this
      ensures CycleState(seenPosts, newPosts) == Cycle(old(seenPosts), posts, now)
      ensures Extends(old(seenPosts), seenPosts)
    {
      newPosts := [];
      var existingContents := ExistingContents();
      ghost var snapshot := SeenContents(seenPosts);
      ghost var seen0 := seenPosts;
      for i := 0 to |posts|
        invariant CycleState(seenPosts, newPosts) == RunCycle(seen0, snapshot, posts[..i], now)
      {
        assert posts[..i + 1][..i] == posts[..i];
        var post := posts[i];
        if |post.content| < MIN_NOVEL_LENGTH {
          continue;
        }
        if post.id in seenPosts {
          continue;
        }
        var similar := IsSimilarContent(post.content, existingContents, DEFAULT_THRESHOLD);
        assert similar == SimilarToSnapshot(post.content, snapshot) by {
          if SimilarToSnapshot(post.content, snapshot) {
            var c :| c in snapshot && TrimmedSimilar(post.content, c, DEFAULT_THRESHOLD);
            var k :| 0 <= k < |existingContents| && existingContents[k] == c;
          }
        }
        if similar {
          seenPosts := seenPosts[post.id := SkippedRecord(post, now)];
          continue;
        }
        newPosts := newPosts + [post];
        seenPosts := seenPosts[post.id := NotifiedRecord(post, now)];
      }
      assert posts[..|posts|] == posts;
      CycleExtends(seen0, posts, 0, now);
    }
  }
}
