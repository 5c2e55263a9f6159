/** Wildcard matching: the greedy scan with one backtrack point, against the declarative relation. */
module Wildcards {

  function ToLower(c: char): char {
    if 'A' <= c <= 'Z' then (c as int + 32) as char else c
  }

  /** The upper and the lower case of one letter, which is equally far from the first one. */
  predicate SameLetter(c: char, d: char) {
    'A' <= c <= 'Z' && 'a' <= d <= 'z' && c as int - 'A' as int == d as int - 'a' as int
  }

  /** ToLower tells two characters apart unless they are the same or differ only in case. */
  lemma ToLowerIs(c: char, d: char)
    ensures ToLower(c) == ToLower(d) <==> c == d || SameLetter(c, d) || SameLetter(d, c)
    ensures ToLower(c) == c || SameLetter(c, ToLower(c))
  {
  }

  /** A pattern character that is not a star takes one text character. */
  predicate Takes(p: char, t: char) {
    p == '?' || ToLower(p) == ToLower(t)
  }

  /** '*' stands for any text, '?' for any character, and other characters for themselves in either case. */
  predicate Matches(p: string, t: string)
    decreases |p| + |t|
  {
    if p == [] then t == []
    else if p[0] == '*' then Matches(p[1..], t) || (t != [] && Matches(p, t[1..]))
    else t != [] && Takes(p[0], t[0]) && Matches(p[1..], t[1..])
  }

  /** What each character of a pattern asks for: a star any text, a question mark one character, any other one
      itself in either case. */
  lemma {:induction false} MatchesIs(p: string, t: string)
    ensures p == [] ==> (Matches(p, t) <==> t == [])
    ensures p != [] && p[0] == '*' ==> (Matches(p, t) <==> exists k :: 0 <= k <= |t| && Matches(p[1..], t[k..]))
    ensures p != [] && p[0] == '?' ==> (Matches(p, t) <==> t != [] && Matches(p[1..], t[1..]))
    ensures p != [] && p[0] != '*' && p[0] != '?' ==>
      (Matches(p, t) <==> t != [] && (p[0] == t[0] || SameLetter(p[0], t[0]) || SameLetter(t[0], p[0])) && Matches(p[1..], t[1..]))
    decreases |t|
  {
    if p != [] && p[0] == '*' {
      assert t[0..] == t;
      if t != [] {
        MatchesIs(p, t[1..]);
        forall k | 0 <= k < |t| ensures t[1..][k..] == t[k + 1..] {
        }
        if k :| 0 <= k <= |t| && Matches(p[1..], t[k..]) {
          if k > 0 { assert t[1..][k - 1..] == t[k..]; }
        }
        if j :| 0 <= j <= |t[1..]| && Matches(p[1..], t[1..][j..]) {
          assert t[1..][j..] == t[j + 1..];
        }
      }
    } else if p != [] && t != [] {
      ToLowerIs(p[0], t[0]);
    }
  }

  /** Where the scan is: in the text, in the pattern, at which star, and how much text that star has. */
  datatype Scan = Scan(i: nat, j: nat, star: int, taken: nat)

  predicate ValidScan(p: string, t: string, s: Scan) {
    s.taken <= s.i <= |t| && s.j <= |p| && -1 <= s.star < s.j + (if s.star < 0 then 1 else 0)
  }

  datatype Step = Next(s: Scan) | Answer(yes: bool)

  /** One round of the scan. */
  function Advance(p: string, t: string, s: Scan): Step
    requires ValidScan(p, t, s)
  {
    if s.i == |t| then Answer(OnlyStars(p[s.j..]))
    else if s.j < |p| && Takes(p[s.j], t[s.i]) then Next(Scan(s.i + 1, s.j + 1, s.star, s.taken))
    else if s.j < |p| && p[s.j] == '*' then Next(Scan(s.i, s.j + 1, s.j, s.i))
    else if s.star != -1 then Next(Scan(s.taken + 1, s.star + 1, s.star, s.taken + 1))
    else Answer(false)
  }

  predicate OnlyStars(p: string) {
    forall k :: 0 <= k < |p| ==> p[k] == '*'
  }

  /** What the scan answers in the end.  A star that is passed is never returned to, the text that a star
      has only grows, and otherwise the scan moves ahead. */
  function Greedy(p: string, t: string, s: Scan): bool
    requires ValidScan(p, t, s)
    decreases |p| - s.star, |t| - s.taken, |t| - s.i
  {
    match Advance(p, t, s)
    case Next(s') => Greedy(p, t, s')
    case Answer(yes) => yes
  }

  const START := Scan(0, 0, -1, 0)

  /** match. */
  method Match(pattern: string, text: string) returns (matched: bool)
    ensures matched == Greedy(pattern, text, START)
    ensures '*' !in text ==> matched == Matches(pattern, text)
    ensures matched ==> Matches(pattern, text)
  {
    var n, m := |text|, |pattern|;
    var i: nat, j: nat, startIndex: int, taken: nat := 0, 0, -1, 0;
    while i < n
      invariant ValidScan(pattern, text, Scan(i, j, startIndex, taken))
      invariant Greedy(pattern, text, Scan(i, j, startIndex, taken)) == Greedy(pattern, text, START)
      decreases m - startIndex, n - taken, n - i
    {
      if j < m && (pattern[j] == '?' || ToLower(pattern[j]) == ToLower(text[i])) {
        i := i + 1;
        j := j + 1;
      } else if j < m && pattern[j] == '*' {
        startIndex := j;
        taken := i;
        j := j + 1;
      } else if startIndex != -1 {
        j := startIndex + 1;
        taken := taken + 1;
        i := taken;
      } else {
        GreedyIsComplete(pattern, text);
        return false;
      }
    }
    ghost var last := j;
    while j < m && pattern[j] == '*'
      invariant last <= j <= m && forall k :: last <= k < j ==> pattern[k] == '*'
    {
      j := j + 1;
    }
    assert j < m ==> pattern[last..][j - last] == pattern[j];
    GreedyIsComplete(pattern, text);
    return j == m;
  }

  lemma {:induction false} StarsMatchNothing(p: string)
    ensures Matches(p, []) <==> OnlyStars(p)
  {
    if p != [] {
      StarsMatchNothing(p[1..]);
      assert OnlyStars(p) <==> p[0] == '*' && OnlyStars(p[1..]);
    }
  }

  /** A star that may start later may start earlier. */
  lemma {:induction false} StarReaches(p: string, t: string, x: nat, y: nat)
    requires p != [] && p[0] == '*' && y <= x <= |t| && Matches(p, t[x..])
    ensures Matches(p, t[y..])
    decreases x - y
  {
    if y < x {
      StarReaches(p, t, x, y + 1);
      assert t[y..][1..] == t[y + 1..];
    }
  }

  /** A positive answer is right, whatever the text. */
  lemma {:induction false} GreedyIsSound(p: string, t: string, s: Scan)
    requires ValidScan(p, t, s) && Greedy(p, t, s)
    requires s.star >= 0 ==> p[s.star] == '*'
    ensures Matches(p[s.j..], t[s.i..]) || (s.star >= 0 && Matches(p[s.star..], t[s.taken..]))
    decreases |p| - s.star, |t| - s.taken, |t| - s.i
  {
    match Advance(p, t, s)
    case Answer(_) =>
      StarsMatchNothing(p[s.j..]);
    case Next(s') =>
      GreedyIsSound(p, t, s');
      if s'.star != s.star {
        // a new star: what matches after it, matches with it
        assert p[s.j..][1..] == p[s.j + 1..];
      } else if s'.taken != s.taken {
        // the star takes one more character
        assert p[s.star..][1..] == p[s.star + 1..];
        assert t[s.taken..][1..] == t[s.taken + 1..];
      } else {
        // one character against one; a star in the text counts as what a star in the pattern takes
        assert p[s.j..][1..] == p[s.j + 1..] && t[s.i..][1..] == t[s.i + 1..];
        if p[s.j] == '*' {
          assert Matches(p[s.j + 1..], t[s.i + 1..]) ==> Matches(p[s.j..], t[s.i + 1..]);
        }
      }
  }

  /** Since the last star, the pattern has been matched character by character. */
  predicate Aligned(p: string, t: string, s: Scan)
    requires ValidScan(p, t, s)
  {
    s.star >= 0 ==>
      && p[s.star] == '*'
      && s.j - (s.star + 1) == s.i - s.taken
      && forall k :: s.star < k < s.j ==> p[k] != '*' && Takes(p[k], t[s.taken + (k - s.star - 1)])
  }

  /** With its last star taking from x on, the pattern has to take the same characters again. */
  lemma {:induction false} SegmentForced(p: string, t: string, a: nat, b: nat, x: nat)
    requires a <= b <= |p| && x <= |t| && forall k :: a <= k < b ==> p[k] != '*'
    requires Matches(p[a..], t[x..])
    ensures x + (b - a) <= |t| && Matches(p[b..], t[x + (b - a)..])
    decreases b - a
  {
    if a < b {
      assert p[a..][1..] == p[a + 1..] && t[x..] != [] && t[x..][1..] == t[x + 1..];
      SegmentForced(p, t, a + 1, b, x + 1);
    }
  }

  lemma {:induction false} SegmentFits(p: string, t: string, a: nat, b: nat, x: nat)
    requires a <= b <= |p| && x + (b - a) <= |t|
    requires forall k :: a <= k < b ==> p[k] != '*' && Takes(p[k], t[x + (k - a)])
    requires Matches(p[b..], t[x + (b - a)..])
    ensures Matches(p[a..], t[x..])
    decreases b - a
  {
    if a < b {
      forall k | a + 1 <= k < b ensures p[k] != '*' && Takes(p[k], t[x + 1 + (k - (a + 1))]) {
        assert Takes(p[k], t[x + (k - a)]);
      }
      SegmentFits(p, t, a + 1, b, x + 1);
      assert Takes(p[a], t[x + (a - a)]);
      assert p[a..][1..] == p[a + 1..] && t[x..][1..] == t[x + 1..];
    }
  }

  /** What is still possible: a match from here, or one that gives the last star more. */
  predicate Possible(p: string, t: string, s: Scan)
    requires ValidScan(p, t, s)
  {
    if s.star >= 0 then Matches(p[s.star..], t[s.taken..]) else Matches(p[s.j..], t[s.i..])
  }

  /** A star that is given text from taken on, where the scan fails, can do without that start. */
  lemma StarMoves(p: string, t: string, s: Scan)
    requires ValidScan(p, t, s) && s.star >= 0 && Aligned(p, t, s) && Possible(p, t, s)
    requires !Matches(p[s.j..], t[s.i..])
    ensures s.taken < |t| && Matches(p[s.star..], t[s.taken + 1..])
  {
    assert p[s.star..][1..] == p[s.star + 1..];
    if Matches(p[s.star + 1..], t[s.taken..]) {
      SegmentForced(p, t, s.star + 1, s.j, s.taken);
    }
    assert t[s.taken..] != [] ==> t[s.taken..][1..] == t[s.taken + 1..];
  }

  /** One round keeps what is possible, if the text has no star. */
  lemma AdvanceKeeps(p: string, t: string, s: Scan)
    requires '*' !in t && ValidScan(p, t, s) && Aligned(p, t, s)
    ensures match Advance(p, t, s)
      case Answer(yes) => yes == Possible(p, t, s)
      case Next(s') => Aligned(p, t, s') && Possible(p, t, s') == Possible(p, t, s)
  {
    match Advance(p, t, s)
    case Answer(yes) =>
      if s.i == |t| {
        AtTheEnd(p, t, s);
      }
    case Next(s') =>
      if s'.star != s.star {
        NewStar(p, t, s);
      } else if s'.taken != s.taken {
        Backtrack(p, t, s);
      } else {
        OneTaken(p, t, s);
      }
  }

  lemma OneTaken(p: string, t: string, s: Scan)
    requires '*' !in t && ValidScan(p, t, s) && Aligned(p, t, s)
    requires s.i < |t| && s.j < |p| && Takes(p[s.j], t[s.i])
    ensures var s' := Scan(s.i + 1, s.j + 1, s.star, s.taken);
      Aligned(p, t, s') && Possible(p, t, s') == Possible(p, t, s)
  {
    assert p[s.j] != '*';
    assert p[s.j..][1..] == p[s.j + 1..] && t[s.i..][1..] == t[s.i + 1..];
  }

  lemma AtTheEnd(p: string, t: string, s: Scan)
    requires ValidScan(p, t, s) && Aligned(p, t, s) && s.i == |t|
    ensures OnlyStars(p[s.j..]) == Possible(p, t, s)
  {
    StarsMatchNothing(p[s.j..]);
    assert t[s.i..] == [];
    if s.star >= 0 {
      if OnlyStars(p[s.j..]) {
        OldStarHolds(p, t, s);
      } else if Possible(p, t, s) {
        StarTakesSome(p, t, s);
      }
    }
  }

  /** Giving the star more than it has leaves too little text for what follows it. */
  lemma StarTakesSome(p: string, t: string, s: Scan)
    requires ValidScan(p, t, s) && s.star >= 0 && Aligned(p, t, s) && s.i == |t|
    requires Possible(p, t, s)
    ensures Matches(p[s.j..], [])
  {
    var x := StarEnds(p, t, s.star, s.taken);
    SegmentForced(p, t, s.star + 1, s.j, x);
    assert t[x + (s.j - (s.star + 1))..] == [];
  }

  /** Where the text of a star ends. */
  lemma {:induction false} StarEnds(p: string, t: string, star: nat, from: nat) returns (x: nat)
    requires star < |p| && p[star] == '*' && from <= |t| && Matches(p[star..], t[from..])
    ensures from <= x <= |t| && Matches(p[star + 1..], t[x..])
    decreases |t| - from
  {
    assert p[star..][1..] == p[star + 1..];
    if Matches(p[star + 1..], t[from..]) {
      x := from;
    } else {
      assert t[from..][1..] == t[from + 1..];
      x := StarEnds(p, t, star, from + 1);
    }
  }

  lemma NewStar(p: string, t: string, s: Scan)
    requires ValidScan(p, t, s) && Aligned(p, t, s) && s.i < |t| && s.j < |p| && p[s.j] == '*'
    ensures Possible(p, t, s) == Matches(p[s.j..], t[s.i..])
  {
    if s.star >= 0 {
      if Possible(p, t, s) {
        NewStarReaches(p, t, s);
      }
      if Matches(p[s.j..], t[s.i..]) {
        OldStarHolds(p, t, s);
      }
    }
  }

  lemma NewStarReaches(p: string, t: string, s: Scan)
    requires ValidScan(p, t, s) && Aligned(p, t, s) && s.star >= 0 && Possible(p, t, s)
    requires s.j < |p| && p[s.j] == '*'
    ensures Matches(p[s.j..], t[s.i..])
  {
    var x := StarEnds(p, t, s.star, s.taken);
    var len := s.j - (s.star + 1);
    SegmentForced(p, t, s.star + 1, s.j, x);
    hide Matches;
    StarReaches(p[s.j..], t, x + len, s.i);
  }

  lemma OldStarHolds(p: string, t: string, s: Scan)
    requires ValidScan(p, t, s) && Aligned(p, t, s) && s.star >= 0 && Matches(p[s.j..], t[s.i..])
    ensures Possible(p, t, s)
  {
    SegmentFits(p, t, s.star + 1, s.j, s.taken);
    assert p[s.star..][1..] == p[s.star + 1..];
  }

  lemma Backtrack(p: string, t: string, s: Scan)
    requires '*' !in t && ValidScan(p, t, s) && Aligned(p, t, s) && s.i < |t| && s.star >= 0
    requires s.j < |p| ==> !Takes(p[s.j], t[s.i]) && p[s.j] != '*'
    ensures Possible(p, t, s) == Matches(p[s.star..], t[s.taken + 1..])
  {
    assert !Matches(p[s.j..], t[s.i..]);
    if Possible(p, t, s) {
      StarMoves(p, t, s);
    }
    if Matches(p[s.star..], t[s.taken + 1..]) {
      StarReaches(p[s.star..], t, s.taken + 1, s.taken);
    }
  }

  lemma {:induction false} GreedyDecides(p: string, t: string, s: Scan)
    requires '*' !in t && ValidScan(p, t, s) && Aligned(p, t, s)
    ensures Greedy(p, t, s) == Possible(p, t, s)
    decreases |p| - s.star, |t| - s.taken, |t| - s.i
  {
    AdvanceKeeps(p, t, s);
    match Advance(p, t, s)
    case Answer(_) =>
    case Next(s') => GreedyDecides(p, t, s');
  }

  /** On a text without stars no match is lost. */
  lemma GreedyIsComplete(p: string, t: string)
    ensures '*' !in t ==> Greedy(p, t, START) == Matches(p, t)
    ensures Greedy(p, t, START) ==> Matches(p, t)
  {
    assert p[0..] == p && t[0..] == t;
    if '*' !in t {
      GreedyDecides(p, t, START);
    }
    if Greedy(p, t, START) {
      GreedyIsSound(p, t, START);
    }
  }

  /** A pattern that a text with a star defeats: the star in the pattern is taken for the one in the text. */
  function Defeating(t: string, k: nat): (p: string)
    requires k < |t|
    ensures |p| == |t| + 1
    ensures p[k] == '*' && forall i :: 0 <= i <= |t| && i != k ==> p[i] == '?'
  {
    seq(|t| + 1, i => if i == k then '*' else '?')
  }

  lemma {:induction false} AllQuestions(p: string, t: string)
    requires |p| == |t| && forall i :: 0 <= i < |p| ==> p[i] == '?'
    ensures Matches(p, t)
  {
    if p != [] { AllQuestions(p[1..], t[1..]); }
  }

  lemma {:induction false} DefeatingMatches(p: string, t: string, k: nat)
    requires k <= |t| && |p| == |t| + 1
    requires p[k] == '*' && forall i :: 0 <= i < |p| && i != k ==> p[i] == '?'
    ensures Matches(p, t)
    decreases k
  {
    if k == 0 {
      AllQuestions(p[1..], t);
    } else {
      DefeatingMatches(p[1..], t[1..], k - 1);
    }
  }

  lemma {:induction false} DefeatingFails(p: string, t: string, k: nat, i: nat)
    requires k < |t| && t[k] == '*' && i <= |t| && |p| == |t| + 1
    requires p[k] == '*' && forall n :: 0 <= n < |p| && n != k ==> p[n] == '?'
    ensures !Greedy(p, t, Scan(i, i, -1, 0))
    decreases |t| - i
  {
    if i < |t| {
      assert Advance(p, t, Scan(i, i, -1, 0)) == Next(Scan(i + 1, i + 1, -1, 0));
      DefeatingFails(p, t, k, i + 1);
    } else {
      assert p[i..][0] == '?';
    }
  }

  /** A text is matched correctly by every pattern exactly when it has no star. */
  lemma CorrectIff(t: string)
    ensures (forall p :: Greedy(p, t, START) == Matches(p, t)) <==> '*' !in t
  {
    if '*' in t {
      var k :| 0 <= k < |t| && t[k] == '*';
      var p := Defeating(t, k);
      DefeatingMatches(p, t, k);
      DefeatingFails(p, t, k, 0);
      assert Greedy(p, t, START) != Matches(p, t);
    } else {
      forall p ensures Greedy(p, t, START) == Matches(p, t) {
        GreedyIsComplete(p, t);
      }
    }
  }
}
