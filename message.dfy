/**
 * The download e-mail body `formatMessage`: three `str_replace` passes over
 * the mail template, first `{{ url }}` (the site URL), then `{{ title }}`
 * (the post title), then `{{ pdf }}` (the download link).
 */
module Message {
  import opened Wrappers
  import opened Scan

  const UrlTag: string := "{{ url }}"
  const TitleTag: string := "{{ title }}"
  const PdfTag: string := "{{ pdf }}"

  /** The message, with the template file's text as a parameter. */
  function FormatMessage(template: string, siteUrl: string, title: string, downloadUrl: string): string {
    var withUrl := Replace(Literal(UrlTag), template, siteUrl);
    var withTitle := Replace(Literal(TitleTag), withUrl, title);
    Replace(Literal(PdfTag), withTitle, downloadUrl)
  }

  // ----- templates as typed pieces -----

  datatype Field = SiteUrl | Title | Pdf

  function Tag(f: Field): (r: string)
    ensures r != [] && r[0] == '{'
  {
    match f
    case SiteUrl => UrlTag
    case Title => TitleTag
    case Pdf => PdfTag
  }

  /** A template read as literal text and placeholders. */
  datatype Piece = Text(s: string) | Hole(f: Field)

  /** The template text the pieces spell. */
  function Source(ps: seq<Piece>): string {
    if ps == [] then []
    else (match ps[0] case Text(s) => s case Hole(f) => Tag(f)) + Source(ps[1..])
  }

  /** The pieces with every placeholder for f turned into the text v. */
  function Fill(ps: seq<Piece>, f: Field, v: string): (r: seq<Piece>)
    ensures |r| == |ps|
  {
    if ps == [] then []
    else [if ps[0] == Hole(f) then Text(v) else ps[0]] + Fill(ps[1..], f, v)
  }

  function Value(f: Field, siteUrl: string, title: string, downloadUrl: string): string {
    match f
    case SiteUrl => siteUrl
    case Title => title
    case Pdf => downloadUrl
  }

  /** The intended message: each placeholder replaced by its field's value. */
  function Render(ps: seq<Piece>, siteUrl: string, title: string, downloadUrl: string): string {
    if ps == [] then []
    else
      (match ps[0] case Text(s) => s case Hole(f) => Value(f, siteUrl, title, downloadUrl))
      + Render(ps[1..], siteUrl, title, downloadUrl)
  }

  /** No literal piece contains '{', so placeholders are the only braces. */
  predicate PlainTexts(ps: seq<Piece>) {
    forall k :: 0 <= k < |ps| ==> (ps[k].Text? ==> '{' !in ps[k].s)
  }

  predicate Contains(s: string, w: string) {
    exists i :: 0 <= i <= |s| && w <= s[i..]
  }

  // ----- one replace pass over an arrangement of pieces -----

  /** A literal beginning with '{' matches nowhere inside a text without '{'. */
  lemma NoTagInPlainText(f: Field, s: string, b: string)
    requires '{' !in s
    ensures forall i :: 0 <= i < |s| ==> MatchLength(Literal(Tag(f)), (s + b)[i..]).None?
  {
    forall i | 0 <= i < |s| ensures MatchLength(Literal(Tag(f)), (s + b)[i..]).None? {
      assert (s + b)[i..][0] == s[i];
    }
  }

  /** One placeholder matches nowhere inside another. */
  lemma NoTagInOtherTag(f: Field, g: Field, b: string)
    requires f != g
    ensures forall i :: 0 <= i < |Tag(g)| ==> MatchLength(Literal(Tag(f)), (Tag(g) + b)[i..]).None?
  {
    forall i | 0 <= i < |Tag(g)| ensures MatchLength(Literal(Tag(f)), (Tag(g) + b)[i..]).None? {
      NoTagAt(f, g, b, i);
    }
  }

  lemma NoTagAt(f: Field, g: Field, b: string, i: nat)
    requires f != g && i < |Tag(g)|
    ensures !(Tag(f) <= (Tag(g) + b)[i..])
  {
    var t := Tag(g) + b;
    assert t[i..][0] == Tag(g)[i];
    if i == 0 {
      assert t[i..][3] == Tag(g)[3] != Tag(f)[3];
    } else if i == 1 {
      assert t[i..][1] == Tag(g)[2] == ' ';
    } else {
      assert Tag(g)[i] in Tag(g)[2..];
      assert '{' !in Tag(g)[2..];
    }
  }

  /** A pass for f over plain pieces is the same as filling f's placeholders. */
  lemma {:induction false} ReplacePassFills(ps: seq<Piece>, f: Field, v: string)
    requires PlainTexts(ps) && '{' !in v
    ensures Replace(Literal(Tag(f)), Source(ps), v) == Source(Fill(ps, f, v))
    ensures PlainTexts(Fill(ps, f, v))
    decreases |ps|
  {
    var p := Literal(Tag(f));
    if ps != [] {
      var rest := Source(ps[1..]);
      assert PlainTexts(ps[1..]) by {
        forall k | 0 <= k < |ps[1..]| ensures ps[1..][k].Text? ==> '{' !in ps[1..][k].s {
          assert ps[1..][k] == ps[k + 1];
        }
      }
      ReplacePassFills(ps[1..], f, v);
      var fill := Fill(ps, f, v);
      assert fill[1..] == Fill(ps[1..], f, v);
      match ps[0]
      case Text(s) =>
        NoTagInPlainText(f, s, rest);
        ReplaceSkipsPrefix(p, s, rest, v);
      case Hole(g) =>
        if g == f {
          assert (Tag(f) + rest)[..|Tag(f)|] == Tag(f);
          assert MatchLength(p, Tag(f) + rest) == Some(|Tag(f)|);
          assert (Tag(f) + rest)[|Tag(f)|..] == rest;
        } else {
          NoTagInOtherTag(f, g, rest);
          ReplaceSkipsPrefix(p, Tag(g), rest, v);
        }
    }
  }

  /** Filling the three fields in any arrangement spells the intended message. */
  lemma {:induction false} FillAllRenders(ps: seq<Piece>, siteUrl: string, title: string, downloadUrl: string)
    ensures Source(Fill(Fill(Fill(ps, SiteUrl, siteUrl), Title, title), Pdf, downloadUrl))
         == Render(ps, siteUrl, title, downloadUrl)
    decreases |ps|
  {
    if ps != [] {
      FillAllRenders(ps[1..], siteUrl, title, downloadUrl);
      var f1 := Fill(ps, SiteUrl, siteUrl);
      var f2 := Fill(f1, Title, title);
      var f3 := Fill(f2, Pdf, downloadUrl);
      assert f1[1..] == Fill(ps[1..], SiteUrl, siteUrl);
      assert f2[1..] == Fill(f1[1..], Title, title);
      assert f3[1..] == Fill(f2[1..], Pdf, downloadUrl);
    }
  }

  lemma {:induction false} RenderPlain(ps: seq<Piece>, siteUrl: string, title: string, downloadUrl: string)
    requires PlainTexts(ps) && '{' !in siteUrl && '{' !in title && '{' !in downloadUrl
    ensures '{' !in Render(ps, siteUrl, title, downloadUrl)
    decreases |ps|
  {
    if ps != [] {
      assert PlainTexts(ps[1..]) by {
        forall k | 0 <= k < |ps[1..]| ensures ps[1..][k].Text? ==> '{' !in ps[1..][k].s {
          assert ps[1..][k] == ps[k + 1];
        }
      }
      RenderPlain(ps[1..], siteUrl, title, downloadUrl);
    }
  }

  /**
   * For a template made of brace-free text and placeholders, and values
   * without '{', the message is the template with each placeholder replaced
   * by its value, and no placeholder is left in it.
   */
  lemma FormatMessageFillsPlaceholders(ps: seq<Piece>, siteUrl: string, title: string, downloadUrl: string)
    requires PlainTexts(ps) && '{' !in siteUrl && '{' !in title && '{' !in downloadUrl
    ensures FormatMessage(Source(ps), siteUrl, title, downloadUrl) == Render(ps, siteUrl, title, downloadUrl)
    ensures '{' !in FormatMessage(Source(ps), siteUrl, title, downloadUrl)
    ensures forall f :: !Contains(FormatMessage(Source(ps), siteUrl, title, downloadUrl), Tag(f))
  {
    ReplacePassFills(ps, SiteUrl, siteUrl);
    var f1 := Fill(ps, SiteUrl, siteUrl);
    ReplacePassFills(f1, Title, title);
    var f2 := Fill(f1, Title, title);
    ReplacePassFills(f2, Pdf, downloadUrl);
    FillAllRenders(ps, siteUrl, title, downloadUrl);
    RenderPlain(ps, siteUrl, title, downloadUrl);
    var r := Render(ps, siteUrl, title, downloadUrl);
    forall f, i | 0 <= i <= |r| ensures !(Tag(f) <= r[i..]) {
      if i < |r| {
        assert r[i] in r;
        assert r[i..][0] == r[i];
      }
    }
  }

  // ----- the download link reaches the message, for any template -----

  /**
   * A `{{ pdf }}` placeholder at index i of t survives a pass for another field,
   * whatever value that pass puts in: the placeholders cannot overlap.
   */
  lemma {:induction false} OtherPassKeepsPdfTag(g: Field, t: string, v: string, i: nat)
    requires g != Pdf && i <= |t| && PdfTag <= t[i..]
    ensures Contains(Replace(Literal(Tag(g)), t, v), PdfTag)
    decreases |t|
  {
    var p := Literal(Tag(g));
    match MatchLength(p, t)
    case Some(n) =>
      PdfTagNotInsideHit(g, t, n, i);
      assert t[n..][i - n..] == t[i..];
      OtherPassKeepsPdfTag(g, t[n..], v, i - n);
      ReplaceHitStep(p, t, v, n);
      ContainsShift(v, Replace(p, t[n..], v), PdfTag);
    case None =>
      if i == 0 {
        KeepAtStart(g, t, v);
      } else {
        assert t[1..][i - 1..] == t[i..];
        OtherPassKeepsPdfTag(g, t[1..], v, i - 1);
        ReplaceKeptStep(p, t, v);
        ContainsShift([t[0]], Replace(p, t[1..], v), PdfTag);
      }
  }

  /** A `{{ pdf }}` cannot start inside a match of another placeholder. */
  lemma PdfTagNotInsideHit(g: Field, t: string, n: nat, i: nat)
    requires g != Pdf && i <= |t| && PdfTag <= t[i..]
    requires MatchLength(Literal(Tag(g)), t) == Some(n)
    ensures n <= i
  {
    var b := t[n..];
    assert t == Tag(g) + b;
    if i < n {
      NoTagAt(Pdf, g, b, i);
      assert false;
    }
  }

  lemma ContainsShift(a: string, r: string, w: string)
    requires Contains(r, w)
    ensures Contains(a + r, w)
  {
    var j :| 0 <= j <= |r| && w <= r[j..];
    assert (a + r)[|a| + j..] == r[j..];
  }

  lemma KeepAtStart(g: Field, t: string, v: string)
    requires g != Pdf && PdfTag <= t
    ensures Contains(Replace(Literal(Tag(g)), t, v), PdfTag)
  {
    var p := Literal(Tag(g));
    var b := t[|PdfTag|..];
    assert t == PdfTag + b;
    assert Tag(Pdf) == PdfTag;
    NoTagInOtherTag(g, Pdf, b);
    ReplaceSkipsPrefix(p, Tag(Pdf), b, v);
    var r := Replace(p, b, v);
    assert PdfTag <= (PdfTag + r)[0..];
  }

  /** A pass that finds its placeholder somewhere puts its value in. */
  lemma {:induction false} PassPutsValue(f: Field, t: string, v: string, i: nat)
    requires i <= |t| && Tag(f) <= t[i..]
    ensures Contains(Replace(Literal(Tag(f)), t, v), v)
    decreases |t|
  {
    var p := Literal(Tag(f));
    match MatchLength(p, t)
    case Some(n) =>
      ReplaceHitStep(p, t, v, n);
      var r := Replace(p, t[n..], v);
      assert v <= (v + r)[0..];
    case None =>
      if i == 0 {
        assert false;
      }
      assert t[1..][i - 1..] == t[i..];
      PassPutsValue(f, t[1..], v, i - 1);
      ReplaceKeptStep(p, t, v);
      ContainsShift([t[0]], Replace(p, t[1..], v), v);
  }

  /**
   * For every template with a `{{ pdf }}` placeholder and any values, the
   * message carries the download link.
   */
  lemma FormatMessageCarriesLink(template: string, siteUrl: string, title: string, downloadUrl: string)
    requires Contains(template, PdfTag)
    ensures Contains(FormatMessage(template, siteUrl, title, downloadUrl), downloadUrl)
  {
    var i :| 0 <= i <= |template| && PdfTag <= template[i..];
    OtherPassKeepsPdfTag(SiteUrl, template, siteUrl, i);
    var w1 := Replace(Literal(UrlTag), template, siteUrl);
    var j :| 0 <= j <= |w1| && PdfTag <= w1[j..];
    OtherPassKeepsPdfTag(Title, w1, title, j);
    var w2 := Replace(Literal(TitleTag), w1, title);
    var k :| 0 <= k <= |w2| && PdfTag <= w2[k..];
    PassPutsValue(Pdf, w2, downloadUrl, k);
  }

  /**
   * The passes run in a fixed order, and each later pass also sees the values
   * put in by the earlier ones: a site URL reading `{{ title }}` becomes the title.
   */
  lemma LaterPassesSeeEarlierValues(title: string, downloadUrl: string)
    requires '{' !in title
    ensures FormatMessage(UrlTag, TitleTag, title, downloadUrl) == title
  {
    assert UrlTag[..|UrlTag|] == UrlTag && UrlTag[|UrlTag|..] == [];
    assert MatchLength(Literal(UrlTag), UrlTag) == Some(|UrlTag|);
    assert Replace(Literal(UrlTag), UrlTag, TitleTag) == TitleTag;
    assert Source([Hole(Title)]) == TitleTag;
    ReplacePassFills([Hole(Title)], Title, title);
    assert Source(Fill([Hole(Title)], Title, title)) == title;
    NoTagInPlainText(Pdf, title, []);
    assert title + [] == title;
    ReplaceSkipsPrefix(Literal(PdfTag), title, [], downloadUrl);
  }
}
