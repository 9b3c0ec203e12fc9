/**
  The first-fit deduplicator that both the monitor and the crawler run over a
  batch of scraped posts (_remove_duplicates_using_jaccard). The two copies in
  the program differ only in the similarity test they call, so the algorithm
  and its properties are stated here once, for any similarity relation on
  lower-cased contents.
*/
module Dedup {
  import opened Text
  import opened Seqs
  import opened Posts

  /** A similarity test: (new content, existing content). */
  type Relation = (string, string) -> bool

  /** Shortest lower-cased content the deduplicator keeps. */
  const MIN_BATCH_LENGTH: nat := 20

  /** _is_similar_content over a list: some existing content is similar to
      the new one; the list is scanned in order and the scan stops at the
      first hit, which does not change the answer. */
  function AnySimilar(c: string, existing: seq<string>, sim: Relation): (r: bool)
    ensures r <==> exists k :: 0 <= k < |existing| && sim(c, existing[k])
    ensures existing == [] ==> !r
  {
    if existing == [] then false
    else if sim(c, existing[0]) then true
    else
      var r := AnySimilar(c, existing[1..], sim);
      assert r <==> exists k :: 1 <= k < |existing| && sim(c, existing[k]) by {
        if r {
          var k :| 0 <= k < |existing| - 1 && sim(c, existing[1..][k]);
          assert existing[k + 1] == existing[1..][k];
        }
        if exists k :: 1 <= k < |existing| && sim(c, existing[k]) {
          var k :| 1 <= k < |existing| && sim(c, existing[k]);
          assert existing[1..][k - 1] == existing[k];
        }
      }
      r
  }

  /** The lower-cased contents of posts, the `existing_contents` list. */
  function LoweredContents(posts: seq<Post>): seq<string> {
    seq(|posts|, k requires 0 <= k < |posts| => Lower(posts[k].content))
  }

  /** Whether the deduplicator keeps post p after having kept `kept`. */
  predicate KeepsNext(kept: seq<Post>, p: Post, sim: Relation) {
    var c := Lower(p.content);
    |c| >= MIN_BATCH_LENGTH && !AnySimilar(c, LoweredContents(kept), sim)
  }

  /** What the deduplicator returns, one post at a time. */
  function Deduplicate(posts: seq<Post>, sim: Relation): seq<Post>
    decreases |posts|
  {
    if posts == [] then []
    else
      var kept := Deduplicate(posts[..|posts| - 1], sim);
      var p := posts[|posts| - 1];
      if KeepsNext(kept, p, sim) then kept + [p] else kept
  }

  /** _remove_duplicates_using_jaccard */
  method RemoveDuplicates(posts: seq<Post>, sim: Relation) returns (unique: seq<Post>)
    ensures unique == Deduplicate(posts, sim)
  {
    unique := [];
    var existingContents: seq<string> := [];
    for i := 0 to |posts|
      invariant unique == Deduplicate(posts[..i], sim)
      invariant existingContents == LoweredContents(unique)
    {
      assert posts[..i + 1][..i] == posts[..i];
      var content := Lower(posts[i].content);
      if |content| < MIN_BATCH_LENGTH {
        continue;
      }
      if !AnySimilar(content, existingContents, sim) {
        existingContents := existingContents + [content];
        unique := unique + [posts[i]];
      }
    }
    assert posts[..|posts|] == posts;
  }

  /** The output is an in-order subsequence of the input, and every kept
      post's lower-cased content has at least 20 characters. */
  lemma {:induction false} DeduplicateSubsequence(posts: seq<Post>, sim: Relation)
    ensures var u := Deduplicate(posts, sim);
      && IsSubsequence(u, posts)
      && (forall k :: 0 <= k < |u| ==> |Lower(u[k].content)| >= MIN_BATCH_LENGTH)
    decreases |posts|
  {
    if posts != [] {
      var prefix := posts[..|posts| - 1];
      var p := posts[|posts| - 1];
      DeduplicateSubsequence(prefix, sim);
      assert prefix + [p] == posts;
      SubsequenceAppend(Deduplicate(prefix, sim), prefix, p);
    }
  }

  /** A post that is kept is similar to none of the posts kept before it. */
  lemma KeptIsNotSimilar(kept: seq<Post>, p: Post, sim: Relation, i: nat)
    requires KeepsNext(kept, p, sim) && i < |kept|
    ensures !sim(Lower(p.content), Lower(kept[i].content))
  {
    assert LoweredContents(kept)[i] == Lower(kept[i].content);
  }

  /** No post of u is similar to a post before it. */
  predicate NoneSimilarToEarlier(u: seq<Post>, sim: Relation) {
    forall i, j :: 0 <= i < j < |u| ==> !sim(Lower(u[j].content), Lower(u[i].content))
  }

  /** No kept post is similar to a post kept before it. */
  lemma {:induction false} DeduplicateDistinct(posts: seq<Post>, sim: Relation)
    ensures NoneSimilarToEarlier(Deduplicate(posts, sim), sim)
    decreases |posts|
  {
    if posts != [] {
      var prefix := posts[..|posts| - 1];
      var p := posts[|posts| - 1];
      var kept := Deduplicate(prefix, sim);
      DeduplicateDistinct(prefix, sim);
      if KeepsNext(kept, p, sim) {
        var u := kept + [p];
        forall i, j | 0 <= i < j < |u|
          ensures !sim(Lower(u[j].content), Lower(u[i].content))
        {
          assert u[i] == kept[i];
          if j < |kept| {
            assert u[j] == kept[j];
            assert !sim(Lower(kept[j].content), Lower(kept[i].content));
          } else {
            assert u[j] == p;
            KeptIsNotSimilar(kept, p, sim, i);
          }
        }
      }
    }
  }

  /** Deduplicating a longer input only appends to the output. */
  lemma {:induction false} DeduplicateExtends(posts: seq<Post>, n: nat, sim: Relation)
    requires n <= |posts|
    ensures Deduplicate(posts[..n], sim) <= Deduplicate(posts, sim)
    decreases |posts| - n
  {
    if n < |posts| {
      DeduplicateExtends(posts, n + 1, sim);
      assert posts[..n + 1][..n] == posts[..n];
    } else {
      assert posts[..n] == posts;
    }
  }

  /** First occurrence wins: the post at position i is kept, right after the
      posts kept before it, exactly when its lower-cased content has at least
      20 characters and is similar to none of the posts kept before it. */
  lemma DeduplicateFirstWins(posts: seq<Post>, i: nat, sim: Relation)
    requires i < |posts|
    ensures var before := Deduplicate(posts[..i], sim);
      var c := Lower(posts[i].content);
      var keep := |c| >= MIN_BATCH_LENGTH
        && forall k :: 0 <= k < |before| ==> !sim(c, Lower(before[k].content));
      && (keep ==> Deduplicate(posts[..i + 1], sim) == before + [posts[i]])
      && (keep ==> before + [posts[i]] <= Deduplicate(posts, sim))
      && (!keep ==> Deduplicate(posts[..i + 1], sim) == before)
  {
    DeduplicateExtends(posts, i + 1, sim);
    assert posts[..i + 1][..i] == posts[..i];
    var before := Deduplicate(posts[..i], sim);
    var c := Lower(posts[i].content);
    var lowered := LoweredContents(before);
    assert |lowered| == |before|;
    assert forall k :: 0 <= k < |before| ==> lowered[k] == Lower(before[k].content);
    assert (exists k :: 0 <= k < |lowered| && sim(c, lowered[k]))
       <==> (exists k :: 0 <= k < |before| && sim(c, Lower(before[k].content)));
  }

  /** The output keeps its own order and has no two similar posts in the
      deduplicator's sense, so deduplicating it again changes nothing. */
  lemma {:induction false} DeduplicateIdempotent(posts: seq<Post>, sim: Relation)
    ensures Deduplicate(Deduplicate(posts, sim), sim) == Deduplicate(posts, sim)
  {
    var u := Deduplicate(posts, sim);
    DeduplicateSubsequence(posts, sim);
    DeduplicateDistinct(posts, sim);
    DistinctIsFixedPoint(u, sim);
  }

  /** A list whose every post is long enough and similar to no earlier post
      is left as it is. */
  lemma {:induction false} DistinctIsFixedPoint(u: seq<Post>, sim: Relation)
    requires forall k :: 0 <= k < |u| ==> |Lower(u[k].content)| >= MIN_BATCH_LENGTH
    requires NoneSimilarToEarlier(u, sim)
    ensures Deduplicate(u, sim) == u
    decreases |u|
  {
    if u != [] {
      var prefix, p := u[..|u| - 1], u[|u| - 1];
      forall i, j | 0 <= i < j < |prefix|
        ensures !sim(Lower(prefix[j].content), Lower(prefix[i].content))
      {
        assert prefix[i] == u[i] && prefix[j] == u[j];
      }
      forall k | 0 <= k < |prefix|
        ensures |Lower(prefix[k].content)| >= MIN_BATCH_LENGTH
      {
        assert prefix[k] == u[k];
      }
      DistinctIsFixedPoint(prefix, sim);
      var lowered := LoweredContents(prefix);
      assert |lowered| == |prefix|;
      forall k | 0 <= k < |prefix|
        ensures !sim(Lower(p.content), lowered[k])
      {
        assert prefix[k] == u[k];
        assert lowered[k] == Lower(u[k].content);
      }
      assert prefix + [p] == u;
    }
  }
}
