/**
 * The post-content rewriter `insertLinkSnippet`: legacy Easy Leadbox shortcodes
 * are removed, or replaced by the call-to-action snippet on single-post views,
 * and when no shortcode was replaced the snippet goes in front of the first
 * case-insensitive occurrence of the insert point; `&nbsp;` is then removed.
 */
module LinkSnippet {
  import opened Wrappers
  import opened Text
  import opened Php
  import opened Scan

  const Nbsp: string := "&nbsp;"

  /** What the rewriter reads of the request besides the content. */
  datatype Request = Request(isSingle: bool, output: Option<string>)

  /** The insert point occurs, ignoring case, at index i of t. */
  predicate MarkerAt(t: string, marker: string, i: nat) {
    i + |marker| <= |t| && SameIgnoringCase(t[i..i + |marker|], marker)
  }

  /** The first index at or after from where the insert point occurs. */
  function FindMarker(t: string, marker: string, from: nat): (r: Option<nat>)
    ensures r.Some? ==> from <= r.value && MarkerAt(t, marker, r.value)
    ensures r.Some? ==> forall j :: from <= j < r.value ==> !MarkerAt(t, marker, j)
    ensures r.None? ==> forall j :: from <= j ==> !MarkerAt(t, marker, j)
    decreases |t| - from
  {
    if from + |marker| > |t| then None
    else if SameIgnoringCase(t[from..from + |marker|], marker) then Some(from)
    else FindMarker(t, marker, from + 1)
  }

  /**
   * `preg_replace('/' . marker . '/i', snippet . marker, t, 1)` for a marker
   * without regular-expression metacharacters: the first occurrence, whatever
   * its case, becomes the snippet followed by the marker as written.
   */
  function InsertAtMarker(t: string, marker: string, snippet: string): (r: string)
    ensures (forall j: nat :: !MarkerAt(t, marker, j)) ==> r == t
    ensures forall i: nat :: MarkerAt(t, marker, i) && (forall j: nat :: j < i ==> !MarkerAt(t, marker, j))
                             ==> r == t[..i] + snippet + marker + t[i + |marker|..]
  {
    match FindMarker(t, marker, 0)
    case None => t
    case Some(i) =>
      t[..i] + snippet + marker + t[i + |marker|..]
  }

  /** `str_replace('&nbsp;', '', s)`. */
  function StripNbsp(s: string): string {
    Replace(Literal(Nbsp), s, "")
  }

  /** The whole rewriter, with the single-view test, `$_GET['output']`, the snippet file and INSERT_POINT as inputs. */
  function InsertLinkSnippet(req: Request, content: string, snippet: string, insertPoint: string): string {
    if !req.isSingle || Truthy(req.output) then
      Replace(Shortcode, content, "")
    else
      var replaced := Replace(Shortcode, content, snippet);
      var result := if replaced == content then InsertAtMarker(content, insertPoint, snippet) else replaced;
      StripNbsp(result)
  }

  /** A shortcode somewhere in t. */
  predicate HasShortcode(t: string) {
    MatchesSomewhere(Shortcode, t)
  }

  // ----- replacing a shortcode changes the content -----

  /** Replacing by a text without '[' removes at least one '[' per shortcode. */
  lemma {:induction false} ReplaceDropsBrackets(t: string, rep: string)
    requires '[' !in rep
    ensures Count('[', Replace(Shortcode, t, rep)) <= Count('[', t)
    ensures HasShortcode(t) ==> Count('[', Replace(Shortcode, t, rep)) < Count('[', t)
    decreases |t|
  {
    if t != [] {
      match MatchLength(Shortcode, t)
      case Some(n) =>
        ReplaceDropsBrackets(t[n..], rep);
        DropAtHit(t, rep, n);
      case None =>
        ReplaceDropsBrackets(t[1..], rep);
        DropAtKept(t, rep);
    }
  }

  lemma DropAtHit(t: string, rep: string, n: nat)
    requires '[' !in rep && MatchLength(Shortcode, t) == Some(n)
    requires Count('[', Replace(Shortcode, t[n..], rep)) <= Count('[', t[n..])
    ensures Count('[', Replace(Shortcode, t, rep)) < Count('[', t)
  {
    var rest := Replace(Shortcode, t[n..], rep);
    ReplaceHitStep(Shortcode, t, rep, n);
    assert Replace(Shortcode, t, rep) == rep + rest;
    CountAppend('[', rep, rest);
    assert Count('[', rep) == 0;
    assert t == t[..n] + t[n..];
    CountAppend('[', t[..n], t[n..]);
    assert t[..n][0] == '[';
    assert Count('[', t[..n]) >= 1;
  }

  lemma DropAtKept(t: string, rep: string)
    requires '[' !in rep && t != [] && MatchLength(Shortcode, t).None?
    requires Count('[', Replace(Shortcode, t[1..], rep)) <= Count('[', t[1..])
    requires HasShortcode(t[1..]) ==> Count('[', Replace(Shortcode, t[1..], rep)) < Count('[', t[1..])
    ensures Count('[', Replace(Shortcode, t, rep)) <= Count('[', t)
    ensures HasShortcode(t) ==> Count('[', Replace(Shortcode, t, rep)) < Count('[', t)
  {
    ReplaceKeptStep(Shortcode, t, rep);
    CountAppend('[', [t[0]], Replace(Shortcode, t[1..], rep));
    assert t == [t[0]] + t[1..];
    CountAppend('[', [t[0]], t[1..]);
  }

  /** With a snippet free of '[', a content with a shortcode always changes. */
  lemma ShortcodeReplacementChanges(t: string, rep: string)
    requires '[' !in rep && HasShortcode(t)
    ensures Replace(Shortcode, t, rep) != t
  {
    ReplaceDropsBrackets(t, rep);
  }

  // ----- deleting shortcodes leaves none behind -----

  lemma OpenHasNoLineBreak()
    ensures forall j :: 0 <= j < |ShortcodeOpen| ==> !IsLineBreak(ShortcodeOpen[j])
  {
  }

  lemma ShortcodeMatchesPrefix(t: string, s: string, n: nat)
    requires ShortcodeMatches(t, n) && n <= |s| && t[..n] == s[..n]
    ensures ShortcodeMatches(s, n)
  {
    assert forall i :: 0 <= i < n ==> t[i] == t[..n][i] == s[..n][i] == s[i];
  }

  /**
   * A shortcode at the start of a + (u with its shortcodes deleted) is already
   * a shortcode at the start of a + u: a deleted shortcode cannot be followed,
   * on its line, by the ']' that would close a new one.
   */
  lemma {:induction false} DeletionCreatesNoMatch(a: string, u: string, n: nat)
    requires ShortcodeMatches(a + Replace(Shortcode, u, ""), n)
    ensures ShortcodeMatches(a + u, n)
    decreases |u|
  {
    if u == [] {
      assert Replace(Shortcode, u, "") == [];
      assert a + u == a + Replace(Shortcode, u, "");
    } else {
      match MatchLength(Shortcode, u)
      case Some(h) =>
        ReplaceHitStep(Shortcode, u, "", h);
        assert "" + Replace(Shortcode, u[h..], "") == Replace(Shortcode, u[h..], "");
        DeletionCreatesNoMatch(a, u[h..], n);
        NoCloseAfterShortcode(a, u, h, n);
        ShortcodeMatchesPrefix(a + u[h..], a + u, n);
      case None =>
        ReplaceKeptStep(Shortcode, u, "");
        assert a + Replace(Shortcode, u, "") == (a + [u[0]]) + Replace(Shortcode, u[1..], "");
        DeletionCreatesNoMatch(a + [u[0]], u[1..], n);
        assert (a + [u[0]]) + u[1..] == a + u;
    }
  }

  /**
   * After a greedy shortcode u[..h], a shortcode starting in a cannot close
   * beyond a: its ']' would lie on the same line and lengthen u's match.
   */
  lemma NoCloseAfterShortcode(a: string, u: string, h: nat, n: nat)
    requires MatchLength(Shortcode, u) == Some(h)
    requires ShortcodeMatches(a + u[h..], n)
    ensures n <= |a|
  {
    if n > |a| {
      ExtendShortcode(a, u, h, n);
      assert false;
    }
  }

  lemma ExtendShortcode(a: string, u: string, h: nat, n: nat)
    requires ShortcodeMatches(u, h) && h <= |u|
    requires ShortcodeMatches(a + u[h..], n) && n > |a|
    ensures ShortcodeMatches(u, h + n - |a|)
  {
    var w := a + u[h..];
    var m := h + n - |a|;
    OpenHasNoLineBreak();
    forall i | |ShortcodeOpen| <= i < m - 1 ensures !IsLineBreak(u[i]) {
      if i >= h {
        var j := |a| + i - h;
        assert u[i] == w[j];
        if j < |ShortcodeOpen| {
          assert w[j] == ShortcodeOpen[j];
        }
      }
    }
    assert u[m - 1] == w[n - 1];
  }

  /** Deleting every shortcode leaves a text without shortcodes. */
  lemma {:induction false} DeletionLeavesNoShortcode(t: string)
    ensures !HasShortcode(Replace(Shortcode, t, ""))
    decreases |t|
  {
    if t != [] {
      match MatchLength(Shortcode, t)
      case Some(h) =>
        ReplaceHitStep(Shortcode, t, "", h);
        assert "" + Replace(Shortcode, t[h..], "") == Replace(Shortcode, t[h..], "");
        DeletionLeavesNoShortcode(t[h..]);
      case None =>
        ReplaceKeptStep(Shortcode, t, "");
        var d := Replace(Shortcode, t[1..], "");
        DeletionLeavesNoShortcode(t[1..]);
        var e := [t[0]] + d;
        assert e[1..] == d;
        if MatchLength(Shortcode, e).Some? {
          assert [t[0]] + t[1..] == t;
          DeletionCreatesNoMatch([t[0]], t[1..], MatchLength(Shortcode, e).value);
          assert false;
        }
    }
  }

  /** Deleting shortcodes a second time changes nothing. */
  lemma DeletionIsIdempotent(t: string)
    ensures Replace(Shortcode, Replace(Shortcode, t, ""), "") == Replace(Shortcode, t, "")
  {
    DeletionLeavesNoShortcode(t);
    ReplaceWithoutMatch(Shortcode, Replace(Shortcode, t, ""), "");
  }

  // ----- the rewriter -----

  /**
   * Off single views, or when the PDF rendition is being rendered, the only
   * change is the deletion of the shortcodes: no shortcode is left, the
   * snippet and insert point play no part, and content without a shortcode
   * comes back unchanged (its `&nbsp;` included).
   */
  lemma OffSingleViewOnlyDeletes(req: Request, content: string, snippet: string, insertPoint: string)
    requires !req.isSingle || Truthy(req.output)
    ensures InsertLinkSnippet(req, content, snippet, insertPoint) == Replace(Shortcode, content, "")
    ensures !HasShortcode(InsertLinkSnippet(req, content, snippet, insertPoint))
    ensures forall s, ip :: InsertLinkSnippet(req, content, s, ip) == InsertLinkSnippet(req, content, snippet, insertPoint)
    ensures !HasShortcode(content) ==> InsertLinkSnippet(req, content, snippet, insertPoint) == content
  {
    DeletionLeavesNoShortcode(content);
    if !HasShortcode(content) {
      ReplaceWithoutMatch(Shortcode, content, "");
    }
  }

  /**
   * On a single view with shortcodes, each shortcode becomes the snippet, the
   * insert point is not consulted, and `&nbsp;` is stripped afterwards (for a
   * snippet without '[', so that the replacement visibly changes the content).
   */
  lemma SingleViewReplacesShortcodes(req: Request, content: string, snippet: string, insertPoint: string)
    requires req.isSingle && !Truthy(req.output)
    requires HasShortcode(content) && '[' !in snippet
    ensures InsertLinkSnippet(req, content, snippet, insertPoint) == StripNbsp(Replace(Shortcode, content, snippet))
    ensures forall ip :: InsertLinkSnippet(req, content, snippet, ip) == InsertLinkSnippet(req, content, snippet, insertPoint)
  {
    ShortcodeReplacementChanges(content, snippet);
  }

  /**
   * On a single view without shortcodes, the snippet goes in front of the first
   * case-insensitive occurrence of the insert point, which is rewritten in the
   * insert point's own casing; without an occurrence only `&nbsp;` is removed.
   */
  lemma SingleViewInsertsAtMarker(req: Request, content: string, snippet: string, insertPoint: string)
    requires req.isSingle && !Truthy(req.output) && !HasShortcode(content)
    ensures forall i: nat ::
              (MarkerAt(content, insertPoint, i) && (forall j: nat :: j < i ==> !MarkerAt(content, insertPoint, j)))
              ==> InsertLinkSnippet(req, content, snippet, insertPoint)
                  == StripNbsp(content[..i] + snippet + insertPoint + content[i + |insertPoint|..])
    ensures (forall j: nat :: !MarkerAt(content, insertPoint, j))
      ==> InsertLinkSnippet(req, content, snippet, insertPoint) == StripNbsp(content)
  {
    ReplaceWithoutMatch(Shortcode, content, snippet);
  }

  /** A text without `&nbsp;` passes the cleanup unchanged. */
  lemma StripWithoutNbspIsIdentity(s: string)
    requires forall i :: 0 <= i < |s| ==> !(Nbsp <= s[i..])
    ensures StripNbsp(s) == s
  {
    MatchesSomewhereMeans(Literal(Nbsp), s);
    ReplaceWithoutMatch(Literal(Nbsp), s, "");
  }

  /** One `str_replace` pass can leave an `&nbsp;` formed by the deletion itself. */
  lemma StripIsSinglePass()
    ensures StripNbsp("&nb&nbsp;sp;") == Nbsp
  {
    var a, b := "&nb", "sp;";
    StripAround(a, b);
    assert a + Nbsp + b == "&nb&nbsp;sp;";
  }

  lemma StripAround(a: string, b: string)
    requires a == "&nb" && b == "sp;"
    ensures StripNbsp(a + Nbsp + b) == Nbsp
  {
    var p := Literal(Nbsp);
    var rest := Nbsp + b;
    assert a + Nbsp + b == a + rest;
    forall i | 0 <= i < |a| ensures MatchLength(p, (a + rest)[i..]).None? {
      if i == 0 {
        assert (a + rest)[0..][3] == '&' != Nbsp[3];
      } else {
        assert (a + rest)[i..][0] == a[i] != '&';
      }
    }
    ReplaceSkipsPrefix(p, a, rest, "");
    assert rest[..|Nbsp|] == Nbsp && rest[|Nbsp|..] == b;
    ReplaceHitStep(p, rest, "", |Nbsp|);
    forall i | 0 <= i < |b| ensures MatchLength(p, (b + [])[i..]).None? {
      assert (b + [])[i..][0] == b[i] != '&';
    }
    assert b + [] == b;
    ReplaceSkipsPrefix(p, b, [], "");
    assert Replace(p, [], "") == [];
    assert a + b == Nbsp;
  }
}
