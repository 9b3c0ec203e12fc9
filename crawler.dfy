/**
  The standalone crawler (crawler.py): its untrimmed similarity test and the
  deduplicator built on it, and the rules by which extract_posts_from_page
  picks the post elements of a page and turns the acceptable ones into posts.
  The page is given as the elements each CSS selector matches; an element is
  its visible text and the date-bearing children it may have.
*/
module Crawler {
  import opened Text
  import opened Jaccard
  import opened Seqs
  import opened Wrappers
  import opened Posts
  import opened Dedup

  // ---------------------------------------------------------------------------
  // Untrimmed similarity and deduplication
  // ---------------------------------------------------------------------------

  /** Plain similarity as a relation, the test the crawler's deduplicator uses. */
  function Untrimmed(t: Threshold): Relation {
    (a, b) => Similar(a, b, t)
  }

  /** is_similar_content: some existing content reaches the threshold against
      the new content; nothing is trimmed. */
  function IsSimilarContent(newContent: string, existing: seq<string>, t: Threshold): (r: bool)
    ensures r <==> exists k :: 0 <= k < |existing| && Similar(newContent, existing[k], t)
  {
    AnySimilar(newContent, existing, Untrimmed(t))
  }

  /** remove_duplicates_using_jaccard, with untrimmed similarity. */
  method RemoveDuplicates(posts: seq<Post>, t: Threshold) returns (unique: seq<Post>)
    ensures unique == Deduplicate(posts, Untrimmed(t))
  {
    unique := Dedup.RemoveDuplicates(posts, Untrimmed(t));
  }

  /** The crawler's deduplicator returns an in-order subsequence of its input,
      no longer than it, and every kept post's lower-cased content has at least
      20 characters. */
  lemma BatchIsSubsequence(posts: seq<Post>, t: Threshold)
    ensures var u := Deduplicate(posts, Untrimmed(t));
      && IsSubsequence(u, posts)
      && |u| <= |posts|
      && (forall k :: 0 <= k < |u| ==> |Lower(u[k].content)| >= MIN_BATCH_LENGTH)
  {
    DeduplicateSubsequence(posts, Untrimmed(t));
    SubsequenceMembers(Deduplicate(posts, Untrimmed(t)), posts);
  }

  /** Any two posts the crawler's deduplicator keeps score below the threshold,
      in either order. */
  lemma BatchHasNoDuplicates(posts: seq<Post>, t: Threshold)
    ensures var u := Deduplicate(posts, Untrimmed(t));
      forall i, j :: 0 <= i < |u| && 0 <= j < |u| && i != j ==>
        !Similar(Lower(u[i].content), Lower(u[j].content), t)
  {
    var u := Deduplicate(posts, Untrimmed(t));
    DeduplicateDistinct(posts, Untrimmed(t));
    forall i, j | 0 <= i < |u| && 0 <= j < |u| && i != j
      ensures !Similar(Lower(u[i].content), Lower(u[j].content), t)
    {
      var a, b := Lower(u[i].content), Lower(u[j].content);
      if i < j {
        assert !Untrimmed(t)(b, a);
        SimilaritySymmetric(a, b);
      } else {
        assert !Untrimmed(t)(a, b);
      }
    }
  }

  /** A post of at least 20 lower-cased characters that the crawler's
      deduplicator drops is similar to a post kept before it. */
  lemma DroppedIsSimilar(posts: seq<Post>, i: nat, t: Threshold)
    requires i < |posts| && |Lower(posts[i].content)| >= MIN_BATCH_LENGTH
    requires Deduplicate(posts[..i + 1], Untrimmed(t)) == Deduplicate(posts[..i], Untrimmed(t))
    ensures var before := Deduplicate(posts[..i], Untrimmed(t));
      exists k :: 0 <= k < |before| && Similar(Lower(posts[i].content), Lower(before[k].content), t)
  {
    var before := Deduplicate(posts[..i], Untrimmed(t));
    var c := Lower(posts[i].content);
    DeduplicateFirstWins(posts, i, Untrimmed(t));
    var k :| 0 <= k < |before| && Untrimmed(t)(c, Lower(before[k].content));
  }

  /** Two posts whose lower-cased contents have at least 20 characters and
      the same non-empty token set (the same words, whatever the spacing and
      punctuation between them): only the first is kept. */
  lemma SameContentKeptOnce(p: Post, q: Post, t: Threshold)
    requires Tokens(Lower(p.content)) == Tokens(Lower(q.content)) != {}
    requires |Lower(p.content)| >= MIN_BATCH_LENGTH
    requires t.num <= t.den
    ensures Deduplicate([p, q], Untrimmed(t)) == [p]
  {
    var a, b := Lower(p.content), Lower(q.content);
    assert [p, q][..1] == [p];
    assert [p][..0] == [];
    assert Deduplicate([p], Untrimmed(t)) == [p];
    SameTokensSimilar(b, a, t);
    assert LoweredContents([p])[0] == a;
    assert Untrimmed(t)(b, LoweredContents([p])[0]);
  }

  // ---------------------------------------------------------------------------
  // Choosing the post elements
  // ---------------------------------------------------------------------------

  /** A date-bearing child: its visible text and its `datetime` attribute. */
  datatype DateElement = DateElement(text: string, datetimeAttr: Option<string>)

  /** A matched element: its visible text, its first `time` child and its
      first child with a `datetime` attribute. */
  datatype Element = Element(
    innerText: string,
    timeChild: Option<DateElement>,
    datetimeChild: Option<DateElement>)

  /** The selectors tried, in order. */
  const SELECTORS: seq<string> := [
    "[role='article']",
    "article",
    "div.timeline-item",
    "div.status-wrapper",
    "div.status",
    "div[role='article']",
    ".truth-item",
    ".truth-card",
    ".post-card",
    ".entry-content"
  ]

  /** The elements in use and the selector that found them. */
  datatype Selection = Selection(elements: seq<Element>, selector: string)

  /** The selector loop: a selector's matches replace the current ones only
      when they are strictly more numerous. The first selector with the
      largest number of matches wins; with no matches anywhere the selection
      is empty and the selector "". */
  function Choose(selectors: seq<string>, query: string -> seq<Element>): (r: Selection)
    ensures forall j :: 0 <= j < |selectors| ==> |query(selectors[j])| <= |r.elements|
    ensures r.elements == [] ==> r.selector == ""
    ensures r.elements != [] ==> exists i ::
      && 0 <= i < |selectors|
      && r.selector == selectors[i]
      && r.elements == query(selectors[i])
      && forall j :: 0 <= j < i ==> |query(selectors[j])| < |r.elements|
    decreases |selectors|
  {
    if selectors == [] then Selection([], "")
    else
      var before := Choose(selectors[..|selectors| - 1], query);
      var selector := selectors[|selectors| - 1];
      var elements := query(selector);
      var r := if |elements| > 0 && |elements| > |before.elements| then Selection(elements, selector) else before;
      assert forall j :: 0 <= j < |selectors| - 1 ==> selectors[..|selectors| - 1][j] == selectors[j];
      r
  }

  /** No selector matching anything is the only way to end with no elements. */
  lemma ChooseEmpty(selectors: seq<string>, query: string -> seq<Element>)
    ensures Choose(selectors, query).elements == [] <==>
      forall j :: 0 <= j < |selectors| ==> query(selectors[j]) == []
  {
    var r := Choose(selectors, query);
    if r.elements != [] {
      var i :| 0 <= i < |selectors| && r.elements == query(selectors[i]);
    }
  }

  /** The selector loop of extract_posts_from_page. */
  method SelectElements(selectors: seq<string>, query: string -> seq<Element>) returns (postElements: seq<Element>, usedSelector: string)
    ensures Selection(postElements, usedSelector) == Choose(selectors, query)
  {
    postElements, usedSelector := [], "";
    for i := 0 to |selectors|
      invariant Selection(postElements, usedSelector) == Choose(selectors[..i], query)
    {
      assert selectors[..i + 1][..i] == selectors[..i];
      var elements := query(selectors[i]);
      if |elements| > 0 {
        if |elements| > |postElements| {
          postElements := elements;
          usedSelector := selectors[i];
        }
      }
    }
    assert selectors[..|selectors|] == selectors;
  }

  // ---------------------------------------------------------------------------
  // Accepting elements and building posts
  // ---------------------------------------------------------------------------

  /** The date read from a date-bearing child: its text, or failing a
      non-empty text its `datetime` attribute, or failing that "unknown". */
  function DateOf(d: DateElement): (r: string)
    ensures r != []
    ensures d.text != [] ==> r == d.text
    ensures d.text == [] && d.datetimeAttr.Some? && d.datetimeAttr.value != [] ==> r == d.datetimeAttr.value
    ensures d.text == [] && (d.datetimeAttr == None || d.datetimeAttr == Some([])) ==> r == "unknown"
  {
    if d.text != [] then d.text
    else if d.datetimeAttr.Some? && d.datetimeAttr.value != [] then d.datetimeAttr.value
    else "unknown"
  }

  /** The element's date: read from its `time` child when it has one, whatever
      that child holds; otherwise from its first child with a `datetime`
      attribute; "unknown" when it has neither. */
  function PostDate(e: Element): (r: string)
    ensures r != []
    ensures e.timeChild.Some? ==> r == DateOf(e.timeChild.value)
    ensures e.timeChild == None && e.datetimeChild.Some? ==> r == DateOf(e.datetimeChild.value)
    ensures e.timeChild == None && e.datetimeChild == None ==> r == "unknown"
  {
    var child := if e.timeChild.Some? then e.timeChild else e.datetimeChild;
    match child
    case None => "unknown"
    case Some(d) => DateOf(d)
  }

  /** A `time` child decides the date alone: an empty one gives "unknown"
      even when another child carries a date. */
  lemma TimeChildDecides(e: Element, other: Option<DateElement>)
    requires e.timeChild.Some?
    ensures PostDate(e) == PostDate(e.(datetimeChild := other))
    ensures e.timeChild == Some(DateElement("", None)) ==> PostDate(e) == "unknown"
  {
  }

  /** Whether the element becomes a post: its stripped text has at least 50
      characters, mentions "Trump" or "@realDonaldTrump", and, once collapsed
      and lower-cased, does not mention both "cookie" and "privacy". */
  predicate Accepts(e: Element) {
    var text := Strip(e.innerText);
    var lowered := Lower(Collapse(text));
    && |text| >= 50
    && (Contains(text, "Trump") || Contains(text, "@realDonaldTrump"))
    && !(Contains(lowered, "cookie") && Contains(lowered, "privacy"))
  }

  /** The "@realDonaldTrump" alternative adds nothing: the element is accepted
      exactly when its stripped text has at least 50 characters, contains
      "Trump", and its collapsed lower-cased text does not contain both
      "cookie" and "privacy". */
  lemma AcceptsIff(e: Element)
    ensures var text := Strip(e.innerText);
      var lowered := Lower(Collapse(text));
      Accepts(e) <==>
        && |text| >= 50
        && Contains(text, "Trump")
        && !(Contains(lowered, "cookie") && Contains(lowered, "privacy"))
  {
    var text := Strip(e.innerText);
    if Contains(text, "@realDonaldTrump") {
      HandleMentionsTrump();
      ContainsTransitive(text, "@realDonaldTrump", "Trump");
    }
  }

  /** "Trump" occurs in "@realDonaldTrump". */
  lemma HandleMentionsTrump()
    ensures Contains("@realDonaldTrump", "Trump")
  {
    assert OccursAt("@realDonaldTrump", "Trump", 11);
    ContainsAt("@realDonaldTrump", "Trump");
  }

  /** The id of the post built at page position i. */
  function PostId(source: string, i: nat, now: string): string {
    source + "_post_" + NatToString(i) + "_" + now
  }

  /** Within one crawl of one source, the id tells the page positions apart:
      two ids are equal exactly when the positions are. */
  lemma IdRevealsPosition(source: string, now: string, i: nat, j: nat)
    ensures PostId(source, i, now) == PostId(source, j, now) <==> i == j
  {
    var head, tail := source + "_post_", "_" + now;
    assert PostId(source, i, now) == head + NatToString(i) + tail;
    assert PostId(source, j, now) == head + NatToString(j) + tail;
    NatToStringInjective(i, j);
    if PostId(source, i, now) == PostId(source, j, now) {
      MiddleDetermined(head, NatToString(i), NatToString(j), tail);
    }
  }

  /** Strings with the same head and tail agree on what lies between. */
  lemma MiddleDetermined(head: string, x: string, y: string, tail: string)
    requires head + x + tail == head + y + tail
    ensures x == y
  {
    var s := head + x + tail;
    assert x == s[|head|..|head| + |x|];
  }

  /** The id embeds the clock reading: two ids for the same page position of
      the same source are equal only if they were made at the same time, so
      the same element scraped in a later cycle arrives with a new id. */
  lemma IdRevealsTime(source: string, i: nat, now1: string, now2: string)
    ensures PostId(source, i, now1) == PostId(source, i, now2) <==> now1 == now2
  {
    var prefix := source + "_post_" + NatToString(i) + "_";
    assert PostId(source, i, now1)[|prefix|..] == now1;
    assert PostId(source, i, now2)[|prefix|..] == now2;
  }

  /** The post built from the element at page position i. */
  function MakePost(source: string, selector: string, i: nat, e: Element, now: string): (p: Post)
    ensures p.author == "@realDonaldTrump" && p.source == source && p.selectorUsed == selector
    ensures p.id == PostId(source, i, now) && p.crawledAt == now
    ensures p.content == Collapse(Strip(e.innerText)) && p.date == PostDate(e)
  {
    Post(
      id := PostId(source, i, now),
      content := Collapse(Strip(e.innerText)),
      date := PostDate(e),
      author := "@realDonaldTrump",
      selectorUsed := selector,
      source := source,
      crawledAt := now)
  }

  /** The positions of the elements that pass `keep`, in page order. */
  function KeptPositions(elements: seq<Element>, keep: Element -> bool): (r: seq<nat>)
    ensures forall k :: 0 <= k < |r| ==> r[k] < |elements| && keep(elements[r[k]])
    ensures forall k, l :: 0 <= k < l < |r| ==> r[k] < r[l]
    decreases |elements|
  {
    if elements == [] then []
    else
      var n := |elements| - 1;
      var before := KeptPositions(elements[..n], keep);
      assert forall k :: 0 <= k < |before| ==> elements[..n][before[k]] == elements[before[k]];
      if keep(elements[n]) then before + [n] else before
  }

  /** Every position whose element passes `keep` is listed. */
  lemma {:induction false} KeptPositionsComplete(elements: seq<Element>, keep: Element -> bool, i: nat)
    requires i < |elements| && keep(elements[i])
    ensures i in KeptPositions(elements, keep)
    decreases |elements|
  {
    var n := |elements| - 1;
    if i < n {
      assert elements[..n][i] == elements[i];
      KeptPositionsComplete(elements[..n], keep, i);
    }
  }

  /** The posts built, in page order, from the elements that pass `keep`. */
  function ExtractFrom(source: string, selector: string, elements: seq<Element>, now: string, keep: Element -> bool): seq<Post>
    decreases |elements|
  {
    if elements == [] then []
    else
      var n := |elements| - 1;
      var before := ExtractFrom(source, selector, elements[..n], now, keep);
      if keep(elements[n]) then before + [MakePost(source, selector, n, elements[n], now)] else before
  }

  /** One more element adds its post exactly when it passes `keep`. */
  lemma ExtractFromStep(source: string, selector: string, elements: seq<Element>, n: nat, now: string, keep: Element -> bool)
    requires n < |elements|
    ensures ExtractFrom(source, selector, elements[..n + 1], now, keep)
      == ExtractFrom(source, selector, elements[..n], now, keep)
        + (if keep(elements[n]) then [MakePost(source, selector, n, elements[n], now)] else [])
  {
    assert elements[..n + 1][..n] == elements[..n];
  }

  /** The k-th post comes from the element at the k-th kept position. */
  lemma {:induction false} ExtractFromKept(source: string, selector: string, elements: seq<Element>, now: string, keep: Element -> bool)
    ensures var posts, idx := ExtractFrom(source, selector, elements, now, keep), KeptPositions(elements, keep);
      && |posts| == |idx|
      && forall k :: 0 <= k < |idx| ==> posts[k] == MakePost(source, selector, idx[k], elements[idx[k]], now)
    decreases |elements|
  {
    if elements != [] {
      var n := |elements| - 1;
      var prefix := elements[..n];
      ExtractFromKept(source, selector, prefix, now, keep);
      var before, idx0 := ExtractFrom(source, selector, prefix, now, keep), KeptPositions(prefix, keep);
      var posts, idx := ExtractFrom(source, selector, elements, now, keep), KeptPositions(elements, keep);
      if keep(elements[n]) {
        assert posts == before + [MakePost(source, selector, n, elements[n], now)];
        assert idx == idx0 + [n];
      } else {
        assert posts == before && idx == idx0;
      }
      forall k | 0 <= k < |idx0|
        ensures posts[k] == MakePost(source, selector, idx[k], elements[idx[k]], now)
      {
        assert posts[k] == before[k] && idx[k] == idx0[k];
        assert prefix[idx0[k]] == elements[idx0[k]];
      }
    }
  }

  /** What extract_posts_from_page returns for a page. */
  function Extracted(source: string, query: string -> seq<Element>, now: string): seq<Post> {
    var chosen := Choose(SELECTORS, query);
    ExtractFrom(source, chosen.selector, chosen.elements, now, Accepts)
  }

  /** The posts built from `elements` are, in order, exactly those of the
      elements that pass `keep`, each carrying its element's position in its
      id; every content is collapsed. */
  lemma ExtractFromSpec(source: string, selector: string, elements: seq<Element>, now: string, keep: Element -> bool)
    ensures var posts, idx := ExtractFrom(source, selector, elements, now, keep), KeptPositions(elements, keep);
      && |posts| == |idx|
      && (forall k :: 0 <= k < |idx| ==>
            && keep(elements[idx[k]])
            && posts[k] == MakePost(source, selector, idx[k], elements[idx[k]], now)
            && IsCollapsed(posts[k].content))
      && (forall i :: 0 <= i < |elements| && keep(elements[i]) ==> i in idx)
  {
    ExtractFromKept(source, selector, elements, now, keep);
    forall i | 0 <= i < |elements| && keep(elements[i])
      ensures i in KeptPositions(elements, keep)
    {
      KeptPositionsComplete(elements, keep, i);
    }
    var idx := KeptPositions(elements, keep);
    forall k | 0 <= k < |idx|
      ensures IsCollapsed(Collapse(Strip(elements[idx[k]].innerText)))
    {
      CollapseIsCollapsed(Strip(elements[idx[k]].innerText));
    }
  }

  /** The posts of a page are, in page order, exactly those built from the
      accepted elements of the chosen selector, each carrying its element's
      page position in its id; every content is collapsed. */
  lemma ExtractedPosts(source: string, query: string -> seq<Element>, now: string)
    ensures var chosen := Choose(SELECTORS, query);
      var posts, idx := Extracted(source, query, now), KeptPositions(chosen.elements, Accepts);
      && |posts| == |idx|
      && (forall k :: 0 <= k < |idx| ==>
            && Accepts(chosen.elements[idx[k]])
            && posts[k] == MakePost(source, chosen.selector, idx[k], chosen.elements[idx[k]], now)
            && IsCollapsed(posts[k].content))
      && (forall i :: 0 <= i < |chosen.elements| && Accepts(chosen.elements[i]) ==> i in idx)
  {
    var chosen := Choose(SELECTORS, query);
    ExtractFromSpec(source, chosen.selector, chosen.elements, now, Accepts);
  }

  /** Every post of one extraction has its own id. */
  lemma ExtractedIdsDistinct(source: string, query: string -> seq<Element>, now: string)
    ensures var posts := Extracted(source, query, now);
      forall k, l :: 0 <= k < l < |posts| ==> posts[k].id != posts[l].id
  {
    var chosen := Choose(SELECTORS, query);
    var posts, idx := Extracted(source, query, now), KeptPositions(chosen.elements, Accepts);
    ExtractedPosts(source, query, now);
    forall k, l | 0 <= k < l < |posts|
      ensures posts[k].id != posts[l].id
    {
      IdRevealsPosition(source, now, idx[k], idx[l]);
    }
  }

  /** The element loop of extract_posts_from_page: the posts built from the
      acceptable elements among those the selector loop chose. */
  method BuildPosts(source: string, usedSelector: string, postElements: seq<Element>, now: string) returns (posts: seq<Post>)
    ensures posts == ExtractFrom(source, usedSelector, postElements, now, Accepts)
  {
    posts := [];
    for i := 0 to |postElements|
      invariant posts == ExtractFrom(source, usedSelector, postElements[..i], now, Accepts)
    {
      ExtractFromStep(source, usedSelector, postElements, i, now, Accepts);
      var element := postElements[i];
      var textContent := Strip(element.innerText);
      if |textContent| < 50 {
        continue;
      }
      if !Contains(textContent, "Trump") && !Contains(textContent, "@realDonaldTrump") {
        continue;
      }
      var postDate := PostDate(element);
      var cleanContent := Collapse(textContent);
      if Contains(Lower(cleanContent), "cookie") && Contains(Lower(cleanContent), "privacy") {
        continue;
      }
      posts := posts + [Post(
        id := PostId(source, i, now),
        content := cleanContent,
        date := postDate,
        author := "@realDonaldTrump",
        selectorUsed := usedSelector,
        source := source,
        crawledAt := now)];
    }
    assert postElements[..|postElements|] == postElements;
  }

  /** extract_posts_from_page over a page given by what each selector
      matches; `now` stands for the clock reading of the call. */
  method ExtractPosts(source: string, query: string -> seq<Element>, now: string) returns (posts: seq<Post>)
    ensures posts == Extracted(source, query, now)
  {
    var postElements, usedSelector := SelectElements(SELECTORS, query);
    posts := BuildPosts(source, usedSelector, postElements, now);
  }
}
