/**
  The string primitives the novelty detector is built from, with the meaning
  Python gives them: str.isspace(), str.lower(), the regular-expression class
  `\w`, str.split() and " ".join(...), str.split(" "), str.strip() and the `in`
  operator between strings.
*/
module Text {

  /** str.isspace(): the characters str.split() and str.strip() treat as whitespace. */
  predicate IsSpace(c: char) {
    var n := c as int;
    (9 <= n <= 13) || (28 <= n <= 32) || n == 0x85 || n == 0xA0 || n == 0x1680
    || (0x2000 <= n <= 0x200A) || n == 0x2028 || n == 0x2029 || n == 0x202F
    || n == 0x205F || n == 0x3000
  }

  predicate IsNonSpace(c: char) {
    !IsSpace(c)
  }

  /** The regular-expression class `\w`, restricted to ASCII letters, digits and `_`. */
  predicate IsWordChar(c: char) {
    ('a' <= c <= 'z') || ('A' <= c <= 'Z') || ('0' <= c <= '9') || c == '_'
  }

  function LowerChar(c: char): char {
    if 'A' <= c <= 'Z' then (c as int + 32) as char else c
  }

  /** str.lower(), restricted to ASCII: same length, no upper-case letter left. */
  function Lower(s: string): (r: string)
    ensures |r| == |s|
    ensures forall i :: 0 <= i < |s| ==> r[i] == LowerChar(s[i])
    ensures forall i :: 0 <= i < |r| ==> !('A' <= r[i] <= 'Z')
  {
    seq(|s|, i requires 0 <= i < |s| => LowerChar(s[i]))
  }

  /** str.lower() works character by character. */
  lemma LowerAppend(a: string, b: string)
    ensures Lower(a + b) == Lower(a) + Lower(b)
  {
  }

  // ---------------------------------------------------------------------------
  // Maximal runs: re.findall(r'\w+', s) and str.split() are both "the maximal
  // runs of characters of one class, in order".
  // ---------------------------------------------------------------------------

  /** Length of the run of `keep` characters that s starts with. */
  function RunLen(s: string, keep: char -> bool): (n: nat)
    ensures n <= |s|
    ensures forall i :: 0 <= i < n ==> keep(s[i])
    ensures n < |s| ==> !keep(s[n])
  {
    if s == [] || !keep(s[0]) then 0 else 1 + RunLen(s[1..], keep)
  }

  /** A sequence of words each of which is a non-empty run of `keep` characters. */
  predicate AllRuns(ws: seq<string>, keep: char -> bool) {
    forall k :: 0 <= k < |ws| ==> ws[k] != [] && forall i :: 0 <= i < |ws[k]| ==> keep(ws[k][i])
  }

  /** The maximal runs of `keep` characters of s, left to right. */
  function Runs(s: string, keep: char -> bool): (r: seq<string>)
    ensures AllRuns(r, keep)
    decreases |s|
  {
    if s == [] then []
    else if !keep(s[0]) then Runs(s[1..], keep)
    else
      var n := RunLen(s, keep);
      [s[..n]] + Runs(s[n..], keep)
  }

  /** A non-empty run of `keep` characters is a single run. */
  lemma RunsOfRun(w: string, keep: char -> bool)
    requires w != [] && forall i :: 0 <= i < |w| ==> keep(w[i])
    ensures Runs(w, keep) == [w]
  {
    RunLenAll(w, keep);
    assert w[..|w|] == w && w[|w|..] == [];
  }

  lemma {:induction false} RunLenAll(w: string, keep: char -> bool)
    requires forall i :: 0 <= i < |w| ==> keep(w[i])
    ensures RunLen(w, keep) == |w|
    decreases |w|
  {
    if w != [] {
      RunLenAll(w[1..], keep);
    }
  }

  /** A character outside the class separates runs: the runs of a + [c] + b
      are the runs of a followed by the runs of b. */
  lemma {:induction false} RunsSeparated(a: string, c: char, b: string, keep: char -> bool)
    requires !keep(c)
    ensures Runs(a + [c] + b, keep) == Runs(a, keep) + Runs(b, keep)
    decreases |a|
  {
    var s := a + [c] + b;
    if a == [] {
      assert s[1..] == b;
    } else if !keep(a[0]) {
      assert s[1..] == a[1..] + [c] + b;
      RunsSeparated(a[1..], c, b, keep);
    } else {
      var n := RunLen(a, keep);
      RunLenBefore(a, [c] + b, keep);
      assert s == a + ([c] + b);
      assert s[..n] == a[..n];
      assert s[n..] == a[n..] + [c] + b;
      RunsSeparated(a[n..], c, b, keep);
    }
  }

  lemma {:induction false} RunLenBefore(a: string, rest: string, keep: char -> bool)
    requires rest != [] && !keep(rest[0])
    ensures RunLen(a + rest, keep) == RunLen(a, keep)
    decreases |a|
  {
    if a == [] {
      assert a + rest == rest;
    } else if keep(a[0]) {
      assert (a + rest)[1..] == a[1..] + rest;
      RunLenBefore(a[1..], rest, keep);
    }
  }

  /** " ".join(ws) */
  function Join(ws: seq<string>): string {
    if ws == [] then ""
    else if |ws| == 1 then ws[0]
    else ws[0] + " " + Join(ws[1..])
  }

  /** Joining two non-empty lists is joining each and putting one space between. */
  lemma {:induction false} JoinAppend(a: seq<string>, b: seq<string>)
    requires a != [] && b != []
    ensures Join(a + b) == Join(a) + " " + Join(b)
  {
    if |a| == 1 {
      assert (a + b)[1..] == b;
    } else {
      assert (a + b)[1..] == a[1..] + b;
      JoinAppend(a[1..], b);
    }
  }

  /** Splitting the words back out of " ".join(ws) recovers ws, whenever the
      words are runs of a class that excludes the space. */
  lemma {:induction false} RunsOfJoin(ws: seq<string>, keep: char -> bool)
    requires !keep(' ')
    requires AllRuns(ws, keep)
    ensures Runs(Join(ws), keep) == ws
  {
    if ws == [] {
    } else {
      var w := ws[0];
      var s := Join(ws);
      assert s[..|w|] == w;
      assert |ws| > 1 ==> s[|w|] == ' ';
      assert RunLen(s, keep) == |w|;
      if |ws| == 1 {
        assert s[|w|..] == [];
      } else {
        var rest := Join(ws[1..]);
        assert s[|w|..] == [' '] + rest;
        assert ([' '] + rest)[1..] == rest;
        RunsOfJoin(ws[1..], keep);
      }
    }
  }

  // ---------------------------------------------------------------------------
  // Whitespace collapse: " ".join(text.split())
  // ---------------------------------------------------------------------------

  /** str.split() with no argument: the maximal non-whitespace runs. */
  function Fields(s: string): (r: seq<string>)
    ensures AllRuns(r, IsNonSpace)
  {
    Runs(s, IsNonSpace)
  }

  /** No whitespace at either end, and every whitespace character inside is a
      single plain space between two non-whitespace characters. */
  predicate IsCollapsed(s: string) {
    forall i :: 0 <= i < |s| && IsSpace(s[i]) ==>
      0 < i < |s| - 1 && s[i] == ' ' && !IsSpace(s[i + 1])
  }

  lemma {:induction false} JoinIsCollapsed(ws: seq<string>)
    requires AllRuns(ws, IsNonSpace)
    ensures IsCollapsed(Join(ws))
    ensures ws != [] ==> Join(ws) != [] && Join(ws)[0] == ws[0][0]
  {
    if |ws| > 1 {
      var w, rest := ws[0], Join(ws[1..]);
      JoinIsCollapsed(ws[1..]);
      var s := Join(ws);
      assert s == w + [' '] + rest;
      forall i | 0 <= i < |s| && IsSpace(s[i])
        ensures 0 < i < |s| - 1 && s[i] == ' ' && !IsSpace(s[i + 1])
      {
        if i > |w| {
          assert s[i] == rest[i - |w| - 1];
          assert i + 1 < |s| && s[i + 1] == rest[i - |w|];
        } else {
          assert i == |w| && s[i + 1] == rest[0];
        }
      }
    }
  }

  /** " ".join(text.split()): the same words, one space apart. */
  function Collapse(s: string): string {
    Join(Fields(s))
  }

  /** Collapsing keeps the words, in order. */
  lemma CollapseKeepsFields(s: string)
    ensures Fields(Collapse(s)) == Fields(s)
  {
    RunsOfJoin(Fields(s), IsNonSpace);
  }

  /** " ".join(text.split()) has no leading, trailing or doubled whitespace,
      and its only whitespace is the plain space. */
  lemma CollapseIsCollapsed(s: string)
    ensures IsCollapsed(Collapse(s))
  {
    JoinIsCollapsed(Fields(s));
  }

  /** Collapsing twice is collapsing once. */
  lemma CollapseIdempotent(s: string)
    ensures Collapse(Collapse(s)) == Collapse(s)
  {
    RunsOfJoin(Fields(s), IsNonSpace);
  }

  // ---------------------------------------------------------------------------
  // Splitting on one space: str.split(" ")
  // ---------------------------------------------------------------------------

  /** str.split(" "): cuts at every single space, keeping empty pieces, so
      there is always one piece more than there are spaces. */
  function SplitOnSpace(s: string): (r: seq<string>)
    ensures |r| >= 1
    ensures forall k :: 0 <= k < |r| ==> ' ' !in r[k]
  {
    if s == [] then [""]
    else
      var rest := SplitOnSpace(s[1..]);
      if s[0] == ' ' then [""] + rest
      else [[s[0]] + rest[0]] + rest[1..]
  }

  /** Joining the pieces of str.split(" ") with " " gives the string back. */
  lemma {:induction false} JoinOfSplitOnSpace(s: string)
    ensures Join(SplitOnSpace(s)) == s
    decreases |s|
  {
    if s != [] {
      var rest := SplitOnSpace(s[1..]);
      JoinOfSplitOnSpace(s[1..]);
      assert s == [s[0]] + s[1..];
      if s[0] == ' ' {
        JoinCons("", rest);
      } else if |rest| > 1 {
        assert rest == [rest[0]] + rest[1..];
        JoinCons(rest[0], rest[1..]);
        JoinCons([s[0]] + rest[0], rest[1..]);
      }
    }
  }

  lemma JoinCons(w: string, ws: seq<string>)
    requires ws != []
    ensures Join([w] + ws) == w + " " + Join(ws)
  {
    assert ([w] + ws)[1..] == ws;
  }

  /** The converse round trip: splitting a " ".join of space-free pieces gives
      the pieces back. */
  lemma {:induction false} SplitOnSpaceOfJoin(ts: seq<string>)
    requires ts != []
    requires forall k :: 0 <= k < |ts| ==> ' ' !in ts[k]
    ensures SplitOnSpace(Join(ts)) == ts
  {
    if |ts| == 1 {
      SplitOfSpaceFree(ts[0]);
    } else {
      var w, rest := ts[0], ts[1..];
      SplitOnSpaceOfJoin(rest);
      SplitPrefix(w, Join(rest));
    }
  }

  lemma {:induction false} SplitOfSpaceFree(w: string)
    requires ' ' !in w
    ensures SplitOnSpace(w) == [w]
    decreases |w|
  {
    if w != [] {
      assert w[0] in w;
      assert forall c :: c in w[1..] ==> c in w;
      SplitOfSpaceFree(w[1..]);
      assert [w[0]] + w[1..] == w;
    }
  }

  lemma {:induction false} SplitPrefix(w: string, t: string)
    requires ' ' !in w
    ensures SplitOnSpace(w + " " + t) == [w] + SplitOnSpace(t)
    decreases |w|
  {
    var s := w + " " + t;
    if w == [] {
      assert s[1..] == t;
    } else {
      assert w[0] in w;
      assert forall c :: c in w[1..] ==> c in w;
      assert s[1..] == w[1..] + " " + t;
      SplitPrefix(w[1..], t);
      assert [w[0]] + w[1..] == w;
    }
  }

  // ---------------------------------------------------------------------------
  // str.strip()
  // ---------------------------------------------------------------------------

  function StripLeft(s: string): (r: string)
    ensures |r| <= |s| && r == s[|s| - |r|..]
    ensures forall i :: 0 <= i < |s| - |r| ==> IsSpace(s[i])
    ensures r == [] || !IsSpace(r[0])
  {
    if s != [] && IsSpace(s[0]) then StripLeft(s[1..]) else s
  }

  function StripRight(s: string): (r: string)
    ensures |r| <= |s| && r == s[..|r|]
    ensures forall i :: |r| <= i < |s| ==> IsSpace(s[i])
    ensures r == [] || !IsSpace(r[|r| - 1])
  {
    if s != [] && IsSpace(s[|s| - 1]) then StripRight(s[..|s| - 1]) else s
  }

  /** str.strip(): s with its leading and trailing whitespace removed. */
  function Strip(s: string): (r: string)
    ensures exists i, j ::
      && 0 <= i <= j <= |s| && r == s[i..j]
      && (forall k :: 0 <= k < i ==> IsSpace(s[k]))
      && (forall k :: j <= k < |s| ==> IsSpace(s[k]))
    ensures r == [] || (!IsSpace(r[0]) && !IsSpace(r[|r| - 1]))
  {
    var left := StripLeft(s);
    var r := StripRight(left);
    var i := |s| - |left|;
    assert r == s[i..i + |r|];
    r
  }

  // ---------------------------------------------------------------------------
  // Substring test: Python's `sub in s`
  // ---------------------------------------------------------------------------

  predicate Contains(s: string, sub: string)
    decreases |s|
  {
    sub <= s || (s != [] && Contains(s[1..], sub))
  }

  /** sub occurs in s starting at position i. */
  predicate OccursAt(s: string, sub: string, i: int) {
    0 <= i <= |s| - |sub| && s[i..i + |sub|] == sub
  }

  /** `sub in s` holds exactly when sub occurs at some position of s. */
  lemma ContainsAt(s: string, sub: string)
    ensures Contains(s, sub) <==> exists i :: OccursAt(s, sub, i)
  {
    if Contains(s, sub) {
      ContainsOccurs(s, sub);
    }
    if exists i :: OccursAt(s, sub, i) {
      var i :| OccursAt(s, sub, i);
      OccursContains(s, sub, i);
    }
  }

  lemma {:induction false} ContainsOccurs(s: string, sub: string)
    requires Contains(s, sub)
    ensures exists i :: OccursAt(s, sub, i)
    decreases |s|
  {
    if sub <= s {
      assert OccursAt(s, sub, 0);
    } else {
      var tail := s[1..];
      ContainsOccurs(tail, sub);
      var i :| OccursAt(tail, sub, i);
      assert tail[i..i + |sub|] == s[i + 1..i + 1 + |sub|];
      assert OccursAt(s, sub, i + 1);
    }
  }

  lemma {:induction false} OccursContains(s: string, sub: string, i: int)
    requires OccursAt(s, sub, i)
    ensures Contains(s, sub)
    decreases i
  {
    if i == 0 {
      assert sub <= s;
    } else {
      var tail := s[1..];
      assert tail[i - 1..i - 1 + |sub|] == s[i..i + |sub|];
      OccursContains(tail, sub, i - 1);
    }
  }

  /** A string that contains `big` contains every substring of `big`. */
  lemma ContainsTransitive(s: string, big: string, small: string)
    requires Contains(s, big) && Contains(big, small)
    ensures Contains(s, small)
  {
    ContainsAt(s, big);
    ContainsAt(big, small);
    var i :| OccursAt(s, big, i);
    var j :| OccursAt(big, small, j);
    forall k | 0 <= k < |small|
      ensures s[i + j + k] == small[k]
    {
      assert small[k] == big[j + k] && big[j + k] == s[i + j + k];
    }
    assert OccursAt(s, small, i + j);
    ContainsAt(s, small);
  }

  // ---------------------------------------------------------------------------
  // str(n) for a natural number
  // ---------------------------------------------------------------------------

  function DigitChar(d: nat): (c: char)
    requires d < 10
    ensures '0' <= c <= '9' && c as int - '0' as int == d
  {
    "0123456789"[d]
  }

  /** str(n) for a non-negative int. */
  function NatToString(n: nat): (r: string)
    ensures r != []
    ensures forall i :: 0 <= i < |r| ==> '0' <= r[i] <= '9'
  {
    if n < 10 then [DigitChar(n)] else NatToString(n / 10) + [DigitChar(n % 10)]
  }

  /** The number a string of decimal digits denotes, int(s). */
  function DecimalValue(s: string): nat
    requires forall i :: 0 <= i < |s| ==> '0' <= s[i] <= '9'
  {
    if s == [] then 0
    else DecimalValue(s[..|s| - 1]) * 10 + (s[|s| - 1] as int - '0' as int)
  }

  /** int(str(n)) == n. */
  lemma {:induction false} NatToStringValue(n: nat)
    ensures DecimalValue(NatToString(n)) == n
  {
    if n >= 10 {
      var r := NatToString(n);
      assert r[..|r| - 1] == NatToString(n / 10);
      NatToStringValue(n / 10);
    }
  }

  /** Different numbers are written differently. */
  lemma NatToStringInjective(a: nat, b: nat)
    ensures NatToString(a) == NatToString(b) <==> a == b
  {
    NatToStringValue(a);
    NatToStringValue(b);
  }
}
