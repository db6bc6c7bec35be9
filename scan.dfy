/**
 * Replace-all as PHP's `preg_replace` (no limit) and `str_replace` perform it:
 * the subject is scanned left to right; at each position the longest match of
 * the pattern is taken if there is one, and scanning resumes after it, so
 * matches never overlap.  Two patterns are used by the plugin: a literal needle
 * (`str_replace`) and the legacy shortcode `/\[easyleadbox id=[^\n\r]+\]/`.
 */
module Scan {
  import opened Wrappers
  import opened Text

  /** The literal opening of a legacy Easy Leadbox shortcode. */
  const ShortcodeOpen: string := "[easyleadbox id="

  datatype Pattern = Literal(needle: string) | Shortcode

  /**
   * The regular expression `\[easyleadbox id=[^\n\r]+\]` matches the first n
   * characters of t: the opening, at least one character that is not a line
   * break, then a closing bracket.
   */
  predicate ShortcodeMatches(t: string, n: nat) {
    && |ShortcodeOpen| + 2 <= n <= |t|
    && ShortcodeOpen <= t
    && t[n - 1] == ']'
    && forall i :: |ShortcodeOpen| <= i < n - 1 ==> !IsLineBreak(t[i])
  }

  /** p matches the first n characters of t. An empty needle matches nothing. */
  predicate Matches(p: Pattern, t: string, n: nat) {
    match p
    case Literal(needle) => needle != [] && n == |needle| && needle <= t
    case Shortcode => ShortcodeMatches(t, n)
  }

  /** First index at or after j holding a line break, or |t| if none. */
  function LineEnd(t: string, j: nat): (e: nat)
    requires j <= |t|
    ensures j <= e <= |t|
    ensures forall i :: j <= i < e ==> !IsLineBreak(t[i])
    ensures e < |t| ==> IsLineBreak(t[e])
    decreases |t| - j
  {
    if j == |t| || IsLineBreak(t[j]) then j else LineEnd(t, j + 1)
  }

  /** Largest index k with lo <= k < hi and t[k] == ']', if any. */
  function LastClose(t: string, lo: nat, hi: nat): (k: Option<nat>)
    requires hi <= |t|
    ensures k.Some? ==> lo <= k.value < hi && t[k.value] == ']'
    ensures k.Some? ==> forall i :: k.value < i < hi ==> t[i] != ']'
    ensures k.None? ==> forall i :: lo <= i < hi ==> t[i] != ']'
    decreases hi
  {
    if hi <= lo then None
    else if t[hi - 1] == ']' then Some(hi - 1)
    else LastClose(t, lo, hi - 1)
  }

  /**
   * Length of the greedy shortcode match at the start of t: `[^\n\r]+`
   * consumes as much of the line as it can and gives back characters only
   * until a `]` follows, so the match ends at the last `]` of the line.
   */
  function ShortcodeLength(t: string): (r: Option<nat>)
    ensures r.Some? ==> ShortcodeMatches(t, r.value)
    ensures r.Some? ==> forall m :: r.value < m ==> !ShortcodeMatches(t, m)
    ensures r.None? ==> forall m :: !ShortcodeMatches(t, m)
  {
    if ShortcodeOpen <= t then
      var e := LineEnd(t, |ShortcodeOpen|);
      var k := LastClose(t, |ShortcodeOpen| + 1, e);
      assert forall m: nat :: ShortcodeMatches(t, m) ==> m - 1 < e;
      if k.Some? then Some(k.value + 1) else None
    else None
  }

  /** Length of the longest match of p at the start of t, if any. */
  function MatchLength(p: Pattern, t: string): (r: Option<nat>)
    ensures r.Some? ==> Matches(p, t, r.value) && 0 < r.value <= |t|
    ensures r.Some? ==> forall m :: r.value < m ==> !Matches(p, t, m)
    ensures r.None? ==> forall m :: !Matches(p, t, m)
  {
    match p
    case Literal(needle) => if needle != [] && needle <= t then Some(|needle|) else None
    case Shortcode => ShortcodeLength(t)
  }

  /** One step of the scan: a character kept as it is, or a match. */
  datatype Token = Kept(c: char) | Hit(text: string)

  function TokenText(tok: Token): string {
    match tok
    case Kept(c) => [c]
    case Hit(m) => m
  }

  /** The subject text a token sequence stands for. */
  function Flatten(ts: seq<Token>): string {
    if ts == [] then [] else TokenText(ts[0]) + Flatten(ts[1..])
  }

  /** The token sequence with every match replaced by rep. */
  function Render(ts: seq<Token>, rep: string): string {
    if ts == [] then []
    else (match ts[0] case Kept(c) => [c] case Hit(_) => rep) + Render(ts[1..], rep)
  }

  /** The left-to-right scan of t. */
  function Tokens(p: Pattern, t: string): seq<Token>
    decreases |t|
  {
    if t == [] then []
    else match MatchLength(p, t)
      case Some(n) => [Hit(t[..n])] + Tokens(p, t[n..])
      case None => [Kept(t[0])] + Tokens(p, t[1..])
  }

  /** Every match of p in t, leftmost first, replaced by rep. */
  function Replace(p: Pattern, t: string, rep: string): string {
    Render(Tokens(p, t), rep)
  }

  /**
   * Declarative reading of a scan: a character is kept only where no match
   * starts, and a match, where one starts, is the longest one.
   */
  ghost predicate LeftmostLongest(p: Pattern, ts: seq<Token>) {
    ts == [] ||
    (&& (match ts[0]
         case Kept(_) => forall n :: !Matches(p, Flatten(ts), n)
         case Hit(m) =>
           Matches(p, Flatten(ts), |m|) && forall n :: |m| < n ==> !Matches(p, Flatten(ts), n))
     && LeftmostLongest(p, ts[1..]))
  }

  /** How much of a non-empty t the scan's first token takes. */
  function Consumed(p: Pattern, t: string): (k: nat)
    requires t != []
    ensures 0 < k <= |t|
  {
    match MatchLength(p, t)
    case Some(n) => n
    case None => 1
  }

  /** The scan's first token on a non-empty t. */
  function Head(p: Pattern, t: string): Token
    requires t != []
  {
    match MatchLength(p, t)
    case Some(n) => Hit(t[..n])
    case None => Kept(t[0])
  }

  lemma TokensHead(p: Pattern, t: string)
    requires t != []
    ensures Tokens(p, t) == [Head(p, t)] + Tokens(p, t[Consumed(p, t)..])
    ensures TokenText(Head(p, t)) == t[..Consumed(p, t)]
  {
  }

  /** The scan covers the subject exactly: nothing is lost, added or reordered. */
  lemma {:induction false} TokensCover(p: Pattern, t: string)
    ensures Flatten(Tokens(p, t)) == t
    decreases |t|
  {
    if t != [] {
      var k := Consumed(p, t);
      TokensHead(p, t);
      TokensCover(p, t[k..]);
      CoverStep(Tokens(p, t), Head(p, t), Tokens(p, t[k..]), t[..k], t[k..]);
      assert t[..k] + t[k..] == t;
    }
  }

  lemma CoverStep(ts: seq<Token>, x: Token, rest: seq<Token>, a: string, b: string)
    requires ts == [x] + rest && TokenText(x) == a && Flatten(rest) == b
    ensures Flatten(ts) == a + b
  {
    assert ts[1..] == rest;
  }

  /** The scan is leftmost-longest. */
  lemma {:induction false} TokensLeftmostLongest(p: Pattern, t: string)
    ensures LeftmostLongest(p, Tokens(p, t))
    decreases |t|
  {
    TokensCover(p, t);
    if t != [] {
      var ts := Tokens(p, t);
      assert ts[1..] == Tokens(p, if MatchLength(p, t).Some? then t[MatchLength(p, t).value..] else t[1..]);
      match MatchLength(p, t)
      case Some(n) => TokensLeftmostLongest(p, t[n..]);
      case None => TokensLeftmostLongest(p, t[1..]);
    }
  }

  /** A leftmost-longest token sequence is the scan of its own text: it is unique. */
  lemma {:induction false} LeftmostLongestUnique(p: Pattern, ts: seq<Token>)
    requires LeftmostLongest(p, ts)
    ensures Tokens(p, Flatten(ts)) == ts
    decreases |ts|
  {
    if ts != [] {
      LeftmostLongestUnique(p, ts[1..]);
      if ts[0].Kept? {
        UniqueAtKept(p, ts);
      } else {
        UniqueAtHit(p, ts);
      }
    }
  }

  lemma UniqueAtKept(p: Pattern, ts: seq<Token>)
    requires ts != [] && ts[0].Kept? && LeftmostLongest(p, ts)
    requires Tokens(p, Flatten(ts[1..])) == ts[1..]
    ensures Tokens(p, Flatten(ts)) == ts
  {
    var t := Flatten(ts);
    assert t == [ts[0].c] + Flatten(ts[1..]);
    KeptStep(p, t);
    assert t[1..] == Flatten(ts[1..]);
    assert ts == [ts[0]] + ts[1..];
  }

  lemma UniqueAtHit(p: Pattern, ts: seq<Token>)
    requires ts != [] && ts[0].Hit? && LeftmostLongest(p, ts)
    requires Tokens(p, Flatten(ts[1..])) == ts[1..]
    ensures Tokens(p, Flatten(ts)) == ts
  {
    var t := Flatten(ts);
    var m := ts[0].text;
    assert t == m + Flatten(ts[1..]);
    HitStep(p, t, |m|);
    assert t[..|m|] == m;
    assert t[|m|..] == Flatten(ts[1..]);
    assert ts == [ts[0]] + ts[1..];
  }

  lemma KeptStep(p: Pattern, t: string)
    requires t != [] && forall n :: !Matches(p, t, n)
    ensures Tokens(p, t) == [Kept(t[0])] + Tokens(p, t[1..])
  {
  }

  lemma HitStep(p: Pattern, t: string, n: nat)
    requires Matches(p, t, n) && forall m :: n < m ==> !Matches(p, t, m)
    ensures 0 < n <= |t|
    ensures Tokens(p, t) == [Hit(t[..n])] + Tokens(p, t[n..])
  {
    assert MatchLength(p, t) == Some(n);
  }

  /** Some match of p starts at some index of t. */
  predicate MatchesSomewhere(p: Pattern, t: string)
    decreases |t|
  {
    t != [] && (MatchLength(p, t).Some? || MatchesSomewhere(p, t[1..]))
  }

  /** MatchesSomewhere read declaratively: a start index and a length that match. */
  lemma {:induction false} MatchesSomewhereMeans(p: Pattern, t: string)
    ensures MatchesSomewhere(p, t) <==> exists i, n :: 0 <= i < |t| && Matches(p, t[i..], n)
    decreases |t|
  {
    if t != [] {
      MatchesSomewhereMeans(p, t[1..]);
      assert t[0..] == t;
      if MatchesSomewhere(p, t) {
        SomewhereWitness(p, t);
      }
      if exists i, n :: 0 <= i < |t| && Matches(p, t[i..], n) {
        var i, n :| 0 <= i < |t| && Matches(p, t[i..], n);
        if i != 0 {
          assert t[1..][i - 1..] == t[i..];
        }
      }
    }
  }

  lemma SomewhereWitness(p: Pattern, t: string)
    requires t != [] && MatchesSomewhere(p, t)
    requires MatchesSomewhere(p, t[1..]) ==> exists i, n :: 0 <= i < |t[1..]| && Matches(p, t[1..][i..], n)
    ensures exists i, n :: 0 <= i < |t| && Matches(p, t[i..], n)
  {
    if MatchLength(p, t).Some? {
      assert t[0..] == t;
      assert Matches(p, t[0..], MatchLength(p, t).value);
    } else {
      var i, n :| 0 <= i < |t[1..]| && Matches(p, t[1..][i..], n);
      assert t[1..][i..] == t[i + 1..];
    }
  }

  /** Where p matches nowhere in t, replacing leaves t unchanged. */
  lemma {:induction false} ReplaceWithoutMatch(p: Pattern, t: string, rep: string)
    requires !MatchesSomewhere(p, t)
    ensures Replace(p, t, rep) == t
    decreases |t|
  {
    if t != [] {
      ReplaceWithoutMatch(p, t[1..], rep);
      ReplaceKeptStep(p, t, rep);
    }
  }

  // ----- one step of Replace -----

  lemma ReplaceHitStep(p: Pattern, t: string, rep: string, n: nat)
    requires MatchLength(p, t) == Some(n)
    ensures Replace(p, t, rep) == rep + Replace(p, t[n..], rep)
  {
  }

  lemma ReplaceKeptStep(p: Pattern, t: string, rep: string)
    requires t != [] && MatchLength(p, t).None?
    ensures Replace(p, t, rep) == [t[0]] + Replace(p, t[1..], rep)
  {
  }


  /** Replacing skips a prefix in which no match starts. */
  lemma {:induction false} ReplaceSkipsPrefix(p: Pattern, a: string, b: string, rep: string)
    requires forall i :: 0 <= i < |a| ==> MatchLength(p, (a + b)[i..]).None?
    ensures Replace(p, a + b, rep) == a + Replace(p, b, rep)
    decreases |a|
  {
    if a == [] {
      assert a + b == b;
    } else {
      var t := a + b;
      assert t[0..] == t;
      assert t[1..] == a[1..] + b;
      forall i | 0 <= i < |a[1..]| ensures MatchLength(p, (a[1..] + b)[i..]).None? {
        assert (a[1..] + b)[i..] == t[i + 1..];
      }
      ReplaceSkipsPrefix(p, a[1..], b, rep);
      ReplaceKeptStep(p, t, rep);
      var r := Replace(p, b, rep);
      assert Replace(p, t, rep) == [a[0]] + (a[1..] + r);
      assert [a[0]] + (a[1..] + r) == a + r;
    }
  }
}
