/**
  Why the monitor trims before scoring: the same status scraped twice, with
  only its trailing fields (the time and the repost count) changed. After
  dropping the last three " "-separated fields the two share 6 of their 8
  tokens and are similar at 0.7; untrimmed, as the crawler scores them, they
  share 7 of 11 and are not. The lemmas hold for any numbers; Example applies
  them to one pair.
*/
module TrimExample {
  import opened Text
  import opened Jaccard
  import Monitor
  import Crawler

  predicate IsDigits(s: string) {
    s != [] && forall i :: 0 <= i < |s| ==> '0' <= s[i] <= '9'
  }

  /** The " "-separated fields of the status posted at h:m with n reposts. */
  function StatusFields(h: string, m: string, n: string): seq<string> {
    ["Statement", "one", "two", "three", h + ":" + m, "AM", "·", n, "Retruths"]
  }

  /** The `\w` tokens of each of those fields, lower-cased. */
  function StatusFieldTokens(h: string, m: string, n: string): seq<seq<string>> {
    [["statement"], ["one"], ["two"], ["three"], [h, m], ["am"], [], [n], ["retruths"]]
  }

  /** The tokens of each word, in order. */
  function WordTokens(ws: seq<string>): seq<string> {
    if ws == [] then [] else Runs(Lower(ws[0]), IsWordChar) + WordTokens(ws[1..])
  }

  /** The tokens of a space-joined text are the tokens of its words. */
  lemma {:induction false} TokensOfJoin(ws: seq<string>)
    ensures Runs(Lower(Join(ws)), IsWordChar) == WordTokens(ws)
  {
    if |ws| == 1 {
      assert WordTokens(ws[1..]) == [];
    } else if |ws| > 1 {
      var rest := Join(ws[1..]);
      LowerAppend(ws[0] + " ", rest);
      LowerAppend(ws[0], " ");
      assert Lower(Join(ws)) == Lower(ws[0]) + [' '] + Lower(rest);
      RunsSeparated(Lower(ws[0]), ' ', Lower(rest), IsWordChar);
      TokensOfJoin(ws[1..]);
    }
  }

  /** A token of the words is a token of one of them, and conversely. */
  lemma {:induction false} WordTokensMembers(ws: seq<string>, rs: seq<seq<string>>)
    requires |ws| == |rs|
    requires forall k :: 0 <= k < |ws| ==> Runs(Lower(ws[k]), IsWordChar) == rs[k]
    ensures forall w :: w in WordTokens(ws) <==> exists k :: 0 <= k < |rs| && w in rs[k]
  {
    if ws != [] {
      forall k | 0 <= k < |ws| - 1
        ensures Runs(Lower(ws[1..][k]), IsWordChar) == rs[1..][k]
      {
        assert ws[1..][k] == ws[k + 1] && rs[1..][k] == rs[k + 1];
      }
      WordTokensMembers(ws[1..], rs[1..]);
      forall w | w in WordTokens(ws)
        ensures exists k :: 0 <= k < |rs| && w in rs[k]
      {
        if w !in rs[0] {
          assert w in WordTokens(ws[1..]);
          var k :| 0 <= k < |rs| - 1 && w in rs[1..][k];
          assert w in rs[k + 1];
        }
      }
      forall w, k | 0 <= k < |rs| && w in rs[k]
        ensures w in WordTokens(ws)
      {
        if k > 0 {
          assert w in rs[1..][k - 1];
        }
      }
    }
  }

  /** A word that lower-cases to a run of word characters is one token. */
  lemma OneToken(w: string, l: string)
    requires w != [] && Lower(w) == l && forall i :: 0 <= i < |l| ==> IsWordChar(l[i])
    ensures Runs(Lower(w), IsWordChar) == [l]
  {
    RunsOfRun(l, IsWordChar);
  }

  lemma NumberToken(n: string)
    requires IsDigits(n)
    ensures Runs(Lower(n), IsWordChar) == [n]
  {
    OneToken(n, n);
  }

  /** "h:m" is the two tokens h and m. */
  lemma TimeTokens(h: string, m: string)
    requires IsDigits(h) && IsDigits(m)
    ensures Runs(Lower(h + ":" + m), IsWordChar) == [h, m]
  {
    assert Lower(h + ":" + m) == h + [':'] + m;
    RunsSeparated(h, ':', m, IsWordChar);
    RunsOfRun(h, IsWordChar);
    RunsOfRun(m, IsWordChar);
  }

  /** The tokens of the status, one field at a time. */
  lemma FieldTokens0(h: string, m: string, n: string)
    requires IsDigits(h) && IsDigits(m) && IsDigits(n)
    ensures Runs(Lower(StatusFields(h, m, n)[0]), IsWordChar) == StatusFieldTokens(h, m, n)[0]
  {
    OneToken("Statement", "statement");
  }

  lemma FieldTokens1(h: string, m: string, n: string)
    requires IsDigits(h) && IsDigits(m) && IsDigits(n)
    ensures Runs(Lower(StatusFields(h, m, n)[1]), IsWordChar) == StatusFieldTokens(h, m, n)[1]
  {
    OneToken("one", "one");
  }

  lemma FieldTokens2(h: string, m: string, n: string)
    requires IsDigits(h) && IsDigits(m) && IsDigits(n)
    ensures Runs(Lower(StatusFields(h, m, n)[2]), IsWordChar) == StatusFieldTokens(h, m, n)[2]
  {
    OneToken("two", "two");
  }

  lemma FieldTokens3(h: string, m: string, n: string)
    requires IsDigits(h) && IsDigits(m) && IsDigits(n)
    ensures Runs(Lower(StatusFields(h, m, n)[3]), IsWordChar) == StatusFieldTokens(h, m, n)[3]
  {
    OneToken("three", "three");
  }

  lemma FieldTokens4(h: string, m: string, n: string)
    requires IsDigits(h) && IsDigits(m) && IsDigits(n)
    ensures Runs(Lower(StatusFields(h, m, n)[4]), IsWordChar) == StatusFieldTokens(h, m, n)[4]
  {
    TimeTokens(h, m);
  }

  lemma FieldTokens5(h: string, m: string, n: string)
    requires IsDigits(h) && IsDigits(m) && IsDigits(n)
    ensures Runs(Lower(StatusFields(h, m, n)[5]), IsWordChar) == StatusFieldTokens(h, m, n)[5]
  {
    OneToken("AM", "am");
  }

  lemma FieldTokens6(h: string, m: string, n: string)
    requires IsDigits(h) && IsDigits(m) && IsDigits(n)
    ensures Runs(Lower(StatusFields(h, m, n)[6]), IsWordChar) == StatusFieldTokens(h, m, n)[6]
  {
    assert Lower("·") == "·";
  }

  lemma FieldTokens7(h: string, m: string, n: string)
    requires IsDigits(h) && IsDigits(m) && IsDigits(n)
    ensures Runs(Lower(StatusFields(h, m, n)[7]), IsWordChar) == StatusFieldTokens(h, m, n)[7]
  {
    NumberToken(n);
  }

  lemma FieldTokens8(h: string, m: string, n: string)
    requires IsDigits(h) && IsDigits(m) && IsDigits(n)
    ensures Runs(Lower(StatusFields(h, m, n)[8]), IsWordChar) == StatusFieldTokens(h, m, n)[8]
  {
    OneToken("Retruths", "retruths");
  }

  /** Each field's tokens are those StatusFieldTokens lists. */
  lemma StatusWordTokens(h: string, m: string, n: string)
    requires IsDigits(h) && IsDigits(m) && IsDigits(n)
    ensures var ts, rs := StatusFields(h, m, n), StatusFieldTokens(h, m, n);
      forall k :: 0 <= k < |ts| ==> Runs(Lower(ts[k]), IsWordChar) == rs[k]
  {
    var ts, rs := StatusFields(h, m, n), StatusFieldTokens(h, m, n);
    forall k | 0 <= k < |ts|
      ensures Runs(Lower(ts[k]), IsWordChar) == rs[k]
    {
      if k == 0 { FieldTokens0(h, m, n); }
      else if k == 1 { FieldTokens1(h, m, n); }
      else if k == 2 { FieldTokens2(h, m, n); }
      else if k == 3 { FieldTokens3(h, m, n); }
      else if k == 4 { FieldTokens4(h, m, n); }
      else if k == 5 { FieldTokens5(h, m, n); }
      else if k == 6 { FieldTokens6(h, m, n); }
      else if k == 7 { FieldTokens7(h, m, n); }
      else { FieldTokens8(h, m, n); }
    }
  }

  /** str.split(" ") of the status gives its nine fields back. */
  lemma StatusSplit(h: string, m: string, n: string)
    requires IsDigits(h) && IsDigits(m) && IsDigits(n)
    ensures SplitOnSpace(Join(StatusFields(h, m, n))) == StatusFields(h, m, n)
  {
    var ts := StatusFields(h, m, n);
    forall k | 0 <= k < |ts|
      ensures ' ' !in ts[k]
    {
      assert forall i :: 0 <= i < |ts[k]| ==> ts[k][i] != ' ';
    }
    SplitOnSpaceOfJoin(ts);
  }

  /** Trimming keeps the first six fields. */
  lemma StatusTrimmed(h: string, m: string, n: string)
    requires IsDigits(h) && IsDigits(m) && IsDigits(n)
    ensures Monitor.CleanContent(Join(StatusFields(h, m, n))) == Join(StatusFields(h, m, n)[..6])
  {
    StatusSplit(h, m, n);
  }

  /** The token set of the words whose token lists are rs. */
  lemma WordTokenSet(ws: seq<string>, rs: seq<seq<string>>)
    requires |ws| == |rs|
    requires forall k :: 0 <= k < |ws| ==> Runs(Lower(ws[k]), IsWordChar) == rs[k]
    ensures forall w :: w in Tokens(Join(ws)) <==> exists k :: 0 <= k < |rs| && w in rs[k]
  {
    TokensOfJoin(ws);
    WordTokensMembers(ws, rs);
  }

  /** The words of the first six fields, and of all nine. */
  function KeptWords(h: string, m: string): set<string> {
    {"statement", "one", "two", "three", h, m, "am"}
  }

  function AllWords(h: string, m: string, n: string): set<string> {
    {"statement", "one", "two", "three", h, m, "am", n, "retruths"}
  }

  /** A set holding exactly the tokens of the first six fields is KeptWords. */
  lemma KeptSet(T: set<string>, h: string, m: string, n: string)
    requires forall w :: w in T <==> exists k :: 0 <= k < 6 && w in StatusFieldTokens(h, m, n)[k]
    ensures T == KeptWords(h, m)
  {
    KeptSetCovers(T, h, m, n);
    KeptSetWithin(T, h, m, n);
  }

  lemma KeptSetCovers(T: set<string>, h: string, m: string, n: string)
    requires forall w :: w in T <==> exists k :: 0 <= k < 6 && w in StatusFieldTokens(h, m, n)[k]
    ensures KeptWords(h, m) <= T
  {
    var rs := StatusFieldTokens(h, m, n);
    forall w | w in KeptWords(h, m)
      ensures w in T
    {
      var k := if w == "statement" then 0 else if w == "one" then 1 else if w == "two" then 2
        else if w == "three" then 3 else if w == "am" then 5 else 4;
      assert w in rs[k];
    }
  }

  lemma KeptSetWithin(T: set<string>, h: string, m: string, n: string)
    requires forall w :: w in T <==> exists k :: 0 <= k < 6 && w in StatusFieldTokens(h, m, n)[k]
    ensures T <= KeptWords(h, m)
  {
    var rs := StatusFieldTokens(h, m, n);
    forall w | w in T
      ensures w in KeptWords(h, m)
    {
      var k :| 0 <= k < 6 && w in rs[k];
    }
  }

  /** A set holding exactly the tokens of all nine fields is AllWords. */
  lemma AllSet(T: set<string>, h: string, m: string, n: string)
    requires forall w :: w in T <==> exists k :: 0 <= k < 9 && w in StatusFieldTokens(h, m, n)[k]
    ensures T == AllWords(h, m, n)
  {
    AllSetCovers(T, h, m, n);
    AllSetWithin(T, h, m, n);
  }

  lemma AllSetCovers(T: set<string>, h: string, m: string, n: string)
    requires forall w :: w in T <==> exists k :: 0 <= k < 9 && w in StatusFieldTokens(h, m, n)[k]
    ensures AllWords(h, m, n) <= T
  {
    var rs := StatusFieldTokens(h, m, n);
    forall w | w in AllWords(h, m, n)
      ensures w in T
    {
      var k := if w == "statement" then 0 else if w == "one" then 1 else if w == "two" then 2
        else if w == "three" then 3 else if w == "am" then 5 else if w == "retruths" then 8
        else if w == n then 7 else 4;
      assert w in rs[k];
    }
  }

  lemma AllSetWithin(T: set<string>, h: string, m: string, n: string)
    requires forall w :: w in T <==> exists k :: 0 <= k < 9 && w in StatusFieldTokens(h, m, n)[k]
    ensures T <= AllWords(h, m, n)
  {
    var rs := StatusFieldTokens(h, m, n);
    forall w | w in T
      ensures w in AllWords(h, m, n)
    {
      var k :| 0 <= k < 9 && w in rs[k];
    }
  }

  /** The token set of the trimmed status. */
  lemma TrimmedTokenSet(h: string, m: string, n: string)
    requires IsDigits(h) && IsDigits(m) && IsDigits(n)
    ensures Tokens(Join(StatusFields(h, m, n)[..6])) == KeptWords(h, m)
  {
    var ts, rs := StatusFields(h, m, n), StatusFieldTokens(h, m, n);
    var kept, krs := ts[..6], rs[..6];
    StatusWordTokens(h, m, n);
    assert forall k :: 0 <= k < |kept| ==> kept[k] == ts[k] && krs[k] == rs[k];
    WordTokenSet(kept, krs);
    KeptSet(Tokens(Join(kept)), h, m, n);
  }

  /** The token set of the whole status. */
  lemma FullTokenSet(h: string, m: string, n: string)
    requires IsDigits(h) && IsDigits(m) && IsDigits(n)
    ensures Tokens(Join(StatusFields(h, m, n))) == AllWords(h, m, n)
  {
    var ts, rs := StatusFields(h, m, n), StatusFieldTokens(h, m, n);
    StatusWordTokens(h, m, n);
    WordTokenSet(ts, rs);
    AllSet(Tokens(Join(ts)), h, m, n);
  }

  /** The status posted at h:m with n reposts, as scraped. */
  function Status(h: string, m: string, n: string): string {
    Join(StatusFields(h, m, n))
  }

  /** The status's words that are not numbers. */
  const LETTER_WORDS: set<string> := {"statement", "one", "two", "three", "am", "retruths"}

  /** A number is none of the status's other words. */
  lemma NotAWord(d: string)
    requires IsDigits(d)
    ensures d !in LETTER_WORDS
  {
    assert '0' <= d[0] <= '9';
  }

  /** With h, m and m' distinct, the kept words share 6 and span 8. */
  lemma KeptSetSizes(h: string, m: string, m': string)
    requires IsDigits(h) && IsDigits(m) && IsDigits(m')
    requires h != m && h != m' && m != m'
    ensures |KeptWords(h, m) * KeptWords(h, m')| == 6
    ensures |KeptWords(h, m) + KeptWords(h, m')| == 8
  {
    NotAWord(h);
    NotAWord(m);
    NotAWord(m');
    KeptMeet(h, m, m');
    Size6(h);
    Size8(h, m, m');
  }

  lemma KeptMeet(h: string, m: string, m': string)
    requires h != m && h != m' && m != m' && m !in LETTER_WORDS && m' !in LETTER_WORDS
    ensures KeptWords(h, m) * KeptWords(h, m') == {"statement", "one", "two", "three", h, "am"}
  {
  }

  lemma Size6(h: string)
    requires h !in LETTER_WORDS
    ensures |{"statement", "one", "two", "three", h, "am"}| == 6
  {
  }

  lemma Size8(h: string, m: string, m': string)
    requires h != m && h != m' && m != m'
    requires h !in LETTER_WORDS && m !in LETTER_WORDS && m' !in LETTER_WORDS
    ensures |KeptWords(h, m) + KeptWords(h, m')| == 8
  {
    assert KeptWords(h, m) + KeptWords(h, m') == {"statement", "one", "two", "three", "am"} + {h, m, m'};
  }

  /** With all five numbers distinct, all the words share 7 and span 11. */
  lemma AllSetSizes(h: string, m: string, n: string, m': string, n': string)
    requires IsDigits(h) && IsDigits(m) && IsDigits(n) && IsDigits(m') && IsDigits(n')
    requires h != m && h != m' && m != m'
    requires n != n' && n !in {h, m, m'} && n' !in {h, m, m'}
    ensures |AllWords(h, m, n) * AllWords(h, m', n')| == 7
    ensures |AllWords(h, m, n) + AllWords(h, m', n')| == 11
  {
    NotAWord(h);
    NotAWord(m);
    NotAWord(m');
    NotAWord(n);
    NotAWord(n');
    AllMeet(h, m, n, m', n');
    Size7(h);
    Size11(h, m, n, m', n');
  }

  lemma AllMeet(h: string, m: string, n: string, m': string, n': string)
    requires h != m && h != m' && m != m'
    requires n != n' && n !in {h, m, m'} && n' !in {h, m, m'}
    requires m !in LETTER_WORDS && m' !in LETTER_WORDS && n !in LETTER_WORDS && n' !in LETTER_WORDS
    ensures AllWords(h, m, n) * AllWords(h, m', n') == LETTER_WORDS + {h}
  {
  }

  lemma Size7(h: string)
    requires h !in LETTER_WORDS
    ensures |LETTER_WORDS + {h}| == 7
  {
  }

  lemma Size11(h: string, m: string, n: string, m': string, n': string)
    requires h != m && h != m' && m != m'
    requires n != n' && n !in {h, m, m'} && n' !in {h, m, m'}
    requires h !in LETTER_WORDS && m !in LETTER_WORDS && m' !in LETTER_WORDS
    requires n !in LETTER_WORDS && n' !in LETTER_WORDS
    ensures |AllWords(h, m, n) + AllWords(h, m', n')| == 11
  {
    AllSpan(h, m, n, m', n');
    var numbers := {h, m, m', n, n'};
    Size5(h, m, n, m', n');
    assert LETTER_WORDS * numbers == {};
    DisjointUnionSize(LETTER_WORDS, numbers);
  }

  lemma Size5(h: string, m: string, n: string, m': string, n': string)
    requires h != m && h != m' && m != m'
    requires n != n' && n !in {h, m, m'} && n' !in {h, m, m'}
    ensures |{h, m, m', n, n'}| == 5
  {
  }

  lemma AllSpan(h: string, m: string, n: string, m': string, n': string)
    ensures AllWords(h, m, n) + AllWords(h, m', n') == LETTER_WORDS + {h, m, m', n, n'}
  {
  }

  lemma DisjointUnionSize(A: set<string>, B: set<string>)
    requires A * B == {}
    ensures |A + B| == |A| + |B|
  {
    assert |A * B| == 0;
  }

  /** Trimmed, the two statuses share 6 of their 8 tokens. */
  lemma TrimmedScore(h: string, m: string, n: string, m': string, n': string)
    requires IsDigits(h) && IsDigits(m) && IsDigits(n) && IsDigits(m') && IsDigits(n')
    requires h != m && h != m' && m != m'
    ensures Similarity(Monitor.CleanContent(Status(h, m, n)), Monitor.CleanContent(Status(h, m', n'))) == Ratio(6, 8)
  {
    StatusTrimmed(h, m, n);
    StatusTrimmed(h, m', n');
    TrimmedTokenSet(h, m, n);
    TrimmedTokenSet(h, m', n');
    KeptSetSizes(h, m, m');
  }

  /** Untrimmed, they share 7 of their 11 tokens. */
  lemma FullScore(h: string, m: string, n: string, m': string, n': string)
    requires IsDigits(h) && IsDigits(m) && IsDigits(n) && IsDigits(m') && IsDigits(n')
    requires h != m && h != m' && m != m'
    requires n != n' && n !in {h, m, m'} && n' !in {h, m, m'}
    ensures Similarity(Status(h, m, n), Status(h, m', n')) == Ratio(7, 11)
  {
    FullTokenSet(h, m, n);
    FullTokenSet(h, m', n');
    AllSetSizes(h, m, n, m', n');
  }

  /** The monitor's trimmed test finds the later status similar to the
      earlier one at the default threshold; the crawler's untrimmed test does
      not. */
  lemma TrimmingDecides(h: string, m: string, n: string, m': string, n': string)
    requires IsDigits(h) && IsDigits(m) && IsDigits(n) && IsDigits(m') && IsDigits(n')
    requires h != m && h != m' && m != m'
    requires n != n' && n !in {h, m, m'} && n' !in {h, m, m'}
    ensures Monitor.IsSimilarContent(Status(h, m, n), [Status(h, m', n')], DEFAULT_THRESHOLD)
    ensures !Crawler.IsSimilarContent(Status(h, m, n), [Status(h, m', n')], DEFAULT_THRESHOLD)
  {
    TrimmedScore(h, m, n, m', n');
    FullScore(h, m, n, m', n');
    TimesIsProduct(6, 10);
    TimesIsProduct(7, 8);
    TimesIsProduct(7, 10);
    TimesIsProduct(7, 11);
    assert Monitor.TrimmedSimilar(Status(h, m, n), [Status(h, m', n')][0], DEFAULT_THRESHOLD);
  }

  /** "Statement one two three 10:45 AM · 203 Retruths", and the same status
      as scraped a quarter of an hour earlier. */
  const LATER: string := Status("10", "45", "203")
  const EARLIER: string := Status("10", "30", "180")

  lemma Example()
    ensures Monitor.IsSimilarContent(LATER, [EARLIER], DEFAULT_THRESHOLD)
    ensures !Crawler.IsSimilarContent(LATER, [EARLIER], DEFAULT_THRESHOLD)
  {
    TrimmingDecides("10", "45", "203", "30", "180");
  }
}
