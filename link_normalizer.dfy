/** The map-then-filter that turns the raw anchors of a rendered page into
    PDF reports (scrapeReports.js, lines 55-75). */
module LinkNormalizer {
  import opened Wrappers

  /** One `<a>` element as extracted from the DOM: `href` is the attribute
      (absent attributes are `null`), `text` the already trimmed text. */
  datatype RawAnchor = RawAnchor(href: Option<string>, text: string)

  /** One emitted report: a display title and a link. */
  datatype Report = Report(title: string, link: string)

  /** What URL handling depends on outside the normaliser.
      `protocol(page)` is the value that the reference `location.protocol`
      evaluates to while the page `page` is normalised: `None` when the
      reference throws (in Node `location` is not defined), the page's own
      scheme, such as `Some("https:")`, in a page context.
      `resolve(href, base)` stands for `new URL(href, base).href`, `None`
      when the constructor throws. */
  datatype UrlEnv = UrlEnv(protocol: string -> Option<string>, resolve: (string, string) -> Option<string>)

  const UntitledPdf: string := "Untitled PDF"

  /** ASCII case folding, the part of `toLowerCase` that can make a string
      contain ".pdf". */
  function LowerChar(c: char): (d: char)
    ensures 'A' <= c <= 'Z' ==> d as int == c as int + 32
    ensures !('A' <= c <= 'Z') ==> d == c
  {
    if 'A' <= c <= 'Z' then (c as int + 32) as char else c
  }

  function ToLower(s: string): (r: string)
    ensures |r| == |s|
    ensures forall i :: 0 <= i < |s| ==> r[i] == LowerChar(s[i])
  {
    if s == [] then [] else [LowerChar(s[0])] + ToLower(s[1..])
  }

  /** `s.includes(pat)`, checked position by position. */
  predicate Includes(s: string, pat: string)
    decreases |s|
  {
    |pat| <= |s| && (s[..|pat|] == pat || Includes(s[1..], pat))
  }

  /** The reference reading of `includes`: `pat` occurs at some offset. */
  ghost predicate OccursAt(s: string, pat: string, i: int)
  {
    0 <= i && i + |pat| <= |s| && s[i..i + |pat|] == pat
  }

  lemma {:induction false} OccursImpliesIncludes(s: string, pat: string, i: int)
    requires OccursAt(s, pat, i)
    ensures Includes(s, pat)
    decreases i
  {
    if i > 0 {
      assert s[1..][i - 1..i - 1 + |pat|] == s[i..i + |pat|];
      OccursImpliesIncludes(s[1..], pat, i - 1);
    }
  }

  lemma {:induction false} IncludesImpliesOccurs(s: string, pat: string)
    requires Includes(s, pat)
    ensures exists i :: OccursAt(s, pat, i)
    decreases |s|
  {
    if s[..|pat|] == pat {
      assert OccursAt(s, pat, 0);
    } else {
      IncludesImpliesOccurs(s[1..], pat);
      var i :| OccursAt(s[1..], pat, i);
      assert s[1..][i..i + |pat|] == s[i + 1..i + 1 + |pat|];
      assert OccursAt(s, pat, i + 1);
    }
  }

  /** `Includes` agrees with the offset reading in both directions. */
  lemma IncludesIffOccurs(s: string, pat: string)
    ensures Includes(s, pat) <==> exists i :: OccursAt(s, pat, i)
  {
    if Includes(s, pat) {
      IncludesImpliesOccurs(s, pat);
    }
    if exists i :: OccursAt(s, pat, i) {
      var i :| OccursAt(s, pat, i);
      OccursImpliesIncludes(s, pat, i);
    }
  }

  lemma {:induction false} IncludesSuffix(p: string, s: string, pat: string)
    requires Includes(s, pat)
    ensures Includes(p + s, pat)
    decreases |p|
  {
    if p != [] {
      assert (p + s)[1..] == p[1..] + s;
      IncludesSuffix(p[1..], s, pat);
      assert Includes((p + s)[1..], pat);
    } else {
      assert p + s == s;
    }
  }

  lemma {:induction false} ToLowerAppend(p: string, s: string)
    ensures ToLower(p + s) == ToLower(p) + ToLower(s)
  {
    var l, r := ToLower(p + s), ToLower(p) + ToLower(s);
    assert |l| == |r|;
    forall i | 0 <= i < |l| ensures l[i] == r[i] {
      if i < |p| { assert (p + s)[i] == p[i]; } else { assert (p + s)[i] == s[i - |p|]; }
    }
  }

  /** A qualifying href: present, non-empty (JavaScript `!href`), and
      containing ".pdf" once lower-cased. */
  predicate Qualifies(a: RawAnchor)
  {
    a.href.Some? && a.href.value != "" && Includes(ToLower(a.href.value), ".pdf")
  }

  /** `text || 'Untitled PDF'`. */
  function TitleFor(text: string): (t: string)
    ensures t != ""
    ensures text != "" ==> t == text
    ensures text == "" ==> t == UntitledPdf
  {
    if text != "" then text else UntitledPdf
  }

  predicate IsHttpUrl(s: string)
  {
    "http://" <= s || "https://" <= s
  }

  /** The callback of `anchors.map(...)`: a report, or `null`. */
  function Normalize(a: RawAnchor, pageUrl: string, env: UrlEnv): (r: Option<Report>)
    ensures !Qualifies(a) ==> r == None
    ensures r.Some? ==> r.value.title == TitleFor(a.text)
    ensures Qualifies(a) && "//" <= a.href.value ==>
      r == (if env.protocol(pageUrl).Some? then Some(Report(TitleFor(a.text), env.protocol(pageUrl).value + a.href.value)) else None)
    ensures Qualifies(a) && !("//" <= a.href.value) && IsHttpUrl(a.href.value) ==>
      r == Some(Report(TitleFor(a.text), a.href.value))
    ensures Qualifies(a) && !("//" <= a.href.value) && !IsHttpUrl(a.href.value) ==>
      r == (if env.resolve(a.href.value, pageUrl).Some?
            then Some(Report(TitleFor(a.text), env.resolve(a.href.value, pageUrl).value))
            else None)
  {
    if a.href.None? || a.href.value == "" then None
    else if !Includes(ToLower(a.href.value), ".pdf") then None
    else
      var href, title := a.href.value, TitleFor(a.text);
      if "//" <= href then
        match env.protocol(pageUrl)
        case None => None
        case Some(p) => Some(Report(title, p + href))
      else if IsHttpUrl(href) then Some(Report(title, href))
      else
        match env.resolve(href, pageUrl)
        case None => None
        case Some(link) => Some(Report(title, link))
  }

  /** `anchors.map(...).filter(Boolean)`. */
  function NormalizeAll(anchors: seq<RawAnchor>, pageUrl: string, env: UrlEnv): (r: seq<Report>)
    ensures |r| <= |anchors|
  {
    if anchors == [] then []
    else
      (match Normalize(anchors[0], pageUrl, env)
       case None => []
       case Some(rep) => [rep])
      + NormalizeAll(anchors[1..], pageUrl, env)
  }

  /** The positions of `xs` whose element `keep` accepts, in ascending order. */
  function Positions<T>(xs: seq<T>, keep: T -> bool): (ks: seq<nat>)
    ensures forall k :: 0 <= k < |ks| ==> ks[k] < |xs|
    ensures forall k, l :: 0 <= k < l < |ks| ==> ks[k] < ks[l]
  {
    if xs == [] then []
    else
      var n := |xs| - 1;
      Positions(xs[..n], keep) + (if keep(xs[n]) then [n] else [])
  }

  /** A position is listed exactly when `keep` accepts its element. */
  lemma {:induction false} PositionsExact<T>(xs: seq<T>, keep: T -> bool)
    ensures forall i :: 0 <= i < |xs| ==> (i in Positions(xs, keep) <==> keep(xs[i]))
    decreases |xs|
  {
    if xs != [] {
      var n := |xs| - 1;
      var prev := Positions(xs[..n], keep);
      var last: seq<nat> := if keep(xs[n]) then [n] else [];
      assert Positions(xs, keep) == prev + last;
      PositionsExact(xs[..n], keep);
      forall i | 0 <= i < |xs|
        ensures i in prev + last <==> keep(xs[i])
      {
        if i < n {
          assert xs[..n][i] == xs[i];
          assert i !in last;
        } else {
          assert i !in prev;
        }
      }
    }
  }

  /** Indices of the anchors that produce a report, in ascending order. */
  function KeptIndices(anchors: seq<RawAnchor>, pageUrl: string, env: UrlEnv): (ks: seq<nat>)
    ensures forall k :: 0 <= k < |ks| ==> ks[k] < |anchors|
    ensures forall k, l :: 0 <= k < l < |ks| ==> ks[k] < ks[l]
  {
    Positions(anchors, a => Normalize(a, pageUrl, env).Some?)
  }

  /** A position is kept exactly when its anchor normalises to a report. */
  lemma KeptIndicesExact(anchors: seq<RawAnchor>, pageUrl: string, env: UrlEnv)
    ensures forall i :: 0 <= i < |anchors| ==>
      (i in KeptIndices(anchors, pageUrl, env) <==> Normalize(anchors[i], pageUrl, env).Some?)
  {
    PositionsExact(anchors, a => Normalize(a, pageUrl, env).Some?);
  }

  /** The filter works element by element: normalising a concatenation
      normalises each part. */
  lemma {:induction false} NormalizeAllAppend(xs: seq<RawAnchor>, ys: seq<RawAnchor>, pageUrl: string, env: UrlEnv)
    ensures NormalizeAll(xs + ys, pageUrl, env) == NormalizeAll(xs, pageUrl, env) + NormalizeAll(ys, pageUrl, env)
    decreases |xs|
  {
    if xs == [] {
      assert xs + ys == ys;
    } else {
      assert (xs + ys)[0] == xs[0];
      assert (xs + ys)[1..] == xs[1..] + ys;
      NormalizeAllAppend(xs[1..], ys, pageUrl, env);
    }
  }

  /** Duplicates are kept: a page that lists the same anchors twice yields
      its reports twice. */
  lemma DuplicatesKept(xs: seq<RawAnchor>, pageUrl: string, env: UrlEnv)
    ensures NormalizeAll(xs + xs, pageUrl, env) == NormalizeAll(xs, pageUrl, env) + NormalizeAll(xs, pageUrl, env)
  {
    NormalizeAllAppend(xs, xs, pageUrl, env);
  }

  /** The output is the subsequence of normalised anchors picked out by
      KeptIndices: same order, one report per kept anchor. */
  lemma {:induction false} NormalizeAllIsSubsequence(anchors: seq<RawAnchor>, pageUrl: string, env: UrlEnv)
    ensures |NormalizeAll(anchors, pageUrl, env)| == |KeptIndices(anchors, pageUrl, env)|
    ensures forall k :: 0 <= k < |KeptIndices(anchors, pageUrl, env)| ==>
      Normalize(anchors[KeptIndices(anchors, pageUrl, env)[k]], pageUrl, env) == Some(NormalizeAll(anchors, pageUrl, env)[k])
    decreases |anchors|
  {
    if anchors != [] {
      var n := |anchors| - 1;
      var init, last := anchors[..n], anchors[n];
      assert anchors == init + [last];
      NormalizeAllIsSubsequence(init, pageUrl, env);
      NormalizeAllAppend(init, [last], pageUrl, env);
      assert NormalizeAll([last], pageUrl, env) ==
        (match Normalize(last, pageUrl, env) case None => [] case Some(rep) => [rep]);
      var ks, ks0 := KeptIndices(anchors, pageUrl, env), KeptIndices(init, pageUrl, env);
      var out, out0 := NormalizeAll(anchors, pageUrl, env), NormalizeAll(init, pageUrl, env);
      forall k | 0 <= k < |ks|
        ensures Normalize(anchors[ks[k]], pageUrl, env) == Some(out[k])
      {
        if k < |ks0| {
          assert ks[k] == ks0[k] && anchors[ks[k]] == init[ks0[k]] && out[k] == out0[k];
        } else {
          assert ks[k] == n && out[k] == Normalize(last, pageUrl, env).value;
        }
      }
    }
  }

  /** Every emitted link is an absolute http(s) URL provided the protocol
      reference and `new URL` only produce those. The code itself does not
      check the scheme of what `new URL` returns. */
  lemma {:induction false} EmittedLinksAreHttp(anchors: seq<RawAnchor>, pageUrl: string, env: UrlEnv)
    requires env.protocol(pageUrl).None? || env.protocol(pageUrl).value in {"http:", "https:"}
    requires forall h, b :: env.resolve(h, b).Some? ==> IsHttpUrl(env.resolve(h, b).value)
    ensures forall r :: r in NormalizeAll(anchors, pageUrl, env) ==> IsHttpUrl(r.link)
    decreases |anchors|
  {
    if anchors != [] {
      EmittedLinksAreHttp(anchors[1..], pageUrl, env);
      var a := anchors[0];
      if Normalize(a, pageUrl, env).Some? && "//" <= a.href.value {
        var p, h := env.protocol(pageUrl).value, a.href.value;
        assert (p + h)[..|p|] == p;
        if p == "http:" {
          assert (p + h)[..7] == p + h[..2];
        } else {
          assert (p + h)[..8] == p + h[..2];
        }
      }
    }
  }

  /** Links kept verbatim or prefixed with the protocol still contain
      ".pdf" case-insensitively. */
  lemma LinkKeepsPdf(a: RawAnchor, pageUrl: string, env: UrlEnv)
    requires Normalize(a, pageUrl, env).Some?
    requires "//" <= a.href.value || IsHttpUrl(a.href.value)
    ensures Includes(ToLower(Normalize(a, pageUrl, env).value.link), ".pdf")
  {
    var h := a.href.value;
    if "//" <= h {
      var p := env.protocol(pageUrl).value;
      assert Normalize(a, pageUrl, env).value.link == p + h;
      ToLowerAppend(p, h);
      IncludesSuffix(ToLower(p), ToLower(h), ".pdf");
    }
  }

  /** An href qualifies as soon as some part of it lower-cases to ".pdf". */
  lemma PdfInfixQualifies(prefix: string, ext: string, rest: string, text: string)
    requires ToLower(ext) == ".pdf"
    ensures Qualifies(RawAnchor(Some(prefix + ext + rest), text))
  {
    var h := prefix + ext + rest;
    ToLowerAppend(prefix + ext, rest);
    ToLowerAppend(prefix, ext);
    assert ToLower(h) == ToLower(prefix) + ".pdf" + ToLower(rest);
    assert ToLower(h)[|prefix|..|prefix| + 4] == ".pdf";
    OccursImpliesIncludes(ToLower(h), ".pdf", |prefix|);
  }

  /** The check is case-insensitive: an upper-case extension, followed by a
      query string or anything else, qualifies. */
  lemma UpperCasePdfQualifies(prefix: string, rest: string, text: string)
    ensures Qualifies(RawAnchor(Some(prefix + ".PDF" + rest), text))
  {
    var ext := ".PDF";
    assert ext == ['.'] + ext[1..] && ext[1..] == ['P'] + ext[2..] && ext[2..] == ['D'] + ext[3..] && ext[3..] == ['F'];
    assert ToLower(ext) == ".pdf";
    PdfInfixQualifies(prefix, ext, rest, text);
  }

  /** An href without a dot cannot name a PDF. */
  lemma NoDotDoesNotQualify(h: string, text: string)
    requires '.' !in h
    ensures !Qualifies(RawAnchor(Some(h), text))
  {
    IncludesIffOccurs(ToLower(h), ".pdf");
    forall i | 0 <= i && i + 4 <= |h| ensures !OccursAt(ToLower(h), ".pdf", i) {
      assert h[i] in h;
      assert ToLower(h)[i..i + 4][0] == LowerChar(h[i]) != '.';
    }
  }

  /** The scheme of a URL with its colon, lower-cased, as `location.protocol`
      gives it for the page; `PageProtocolFirstColon` says which prefix. */
  function PageProtocol(url: string): (r: Option<string>)
    ensures r.None? ==> ':' !in url
    ensures r.Some? ==> 0 < |r.value| <= |url|
  {
    if url == [] then None
    else if url[0] == ':' then Some([':'])
    else
      match PageProtocol(url[1..])
      case None => None
      case Some(p) => Some([LowerChar(url[0])] + p)
  }

  /** The protocol is the prefix up to the first colon, lower-cased. */
  lemma {:induction false} PageProtocolFirstColon(url: string, n: nat)
    requires n < |url| && url[n] == ':' && ':' !in url[..n]
    ensures PageProtocol(url) == Some(ToLower(url[..n + 1]))
    decreases n
  {
    if n == 0 {
      assert url[..1] == [':'];
      assert ToLower([':']) == [':'];
    } else {
      assert url[0] == url[..n][0];
      assert url[1..][..n - 1] == url[1..n];
      PageProtocolFirstColon(url[1..], n - 1);
      assert url[..n + 1] == [url[0]] + url[1..][..n];
      assert ToLower(url[..n + 1]) == [LowerChar(url[0])] + ToLower(url[1..][..n]);
    }
  }

  /** The protocol reference when `location` is not defined, as in Node:
      it throws for every page, so the page URL plays no part. */
  function NodeProtocol(page: string): (r: Option<string>)
    ensures r.None?
    ensures PageProtocol(page).Some? ==> r != PageProtocol(page)
  {
    None
  }

  /** Shorthand for `Normalize` with `NodeProtocol`: the normaliser as it runs
      under Node, where the reference `location.protocol` throws. */
  function NormalizeInNode(a: RawAnchor, pageUrl: string, resolve: (string, string) -> Option<string>): (r: Option<Report>)
    ensures a.href.Some? && "//" <= a.href.value ==> r.None?
    ensures r.Some? ==> a.href.Some? && !("//" <= a.href.value)
  {
    Normalize(a, pageUrl, UrlEnv(NodeProtocol, resolve))
  }

  /** Away from protocol-relative hrefs the protocol reference plays no part,
      so Node and any other reading of it agree. */
  lemma NodeAgreesOffProtocolRelative(a: RawAnchor, pageUrl: string, env: UrlEnv)
    requires !(a.href.Some? && "//" <= a.href.value)
    ensures NormalizeInNode(a, pageUrl, env.resolve) == Normalize(a, pageUrl, env)
  {
  }

  /** Under Node a protocol-relative PDF link is never emitted. */
  lemma ProtocolRelativeDroppedInNode(a: RawAnchor, pageUrl: string, resolve: (string, string) -> Option<string>)
    requires a.href.Some? && "//" <= a.href.value
    ensures NormalizeInNode(a, pageUrl, resolve) == None
  {
  }

  /** The link `//host/a.pdf` on an https page is lost. */
  lemma ProtocolRelativeCounterexample(resolve: (string, string) -> Option<string>)
    ensures NormalizeInNode(RawAnchor(Some("//host/a.pdf"), "A"), "https://acme.example/reports", resolve) == None
  {
  }

  /** The evidently intended normaliser: the protocol is that of the page. */
  function NormalizeWithPageProtocol(a: RawAnchor, pageUrl: string, resolve: (string, string) -> Option<string>): (r: Option<Report>)
    ensures Qualifies(a) && "//" <= a.href.value && PageProtocol(pageUrl).Some? ==>
      r == Some(Report(TitleFor(a.text), PageProtocol(pageUrl).value + a.href.value))
  {
    Normalize(a, pageUrl, UrlEnv(PageProtocol, resolve))
  }

  /** A string without upper-case ASCII letters is its own lower-case form. */
  lemma ToLowerOfLower(s: string)
    requires forall i :: 0 <= i < |s| ==> !('A' <= s[i] <= 'Z')
    ensures ToLower(s) == s
  {
  }

  /** The protocol of `scheme:rest` is the lower-cased scheme with its colon. */
  lemma PageProtocolOfScheme(scheme: string, rest: string)
    requires ':' !in scheme
    ensures PageProtocol(scheme + ":" + rest) == Some(ToLower(scheme) + ":")
  {
    var s := scheme + ":" + rest;
    assert s[..|scheme|] == scheme;
    assert s[..|scheme| + 1] == scheme + ":";
    PageProtocolFirstColon(s, |scheme|);
    ToLowerAppend(scheme, ":");
    assert ToLower(":") == ":";
  }

  /** An https page has the protocol `https:`. */
  lemma HttpsPageProtocol(pageRest: string)
    ensures PageProtocol("https://" + pageRest) == Some("https:")
  {
    assert "https://" + pageRest == "https" + ":" + ("//" + pageRest);
    PageProtocolOfScheme("https", "//" + pageRest);
    ToLowerOfLower("https");
    assert "https" + ":" == "https:";
  }

  /** A protocol-relative href ending in `.pdf` qualifies. */
  lemma ProtocolRelativePdfQualifies(hostPath: string, text: string)
    ensures Qualifies(RawAnchor(Some("//" + hostPath + ".pdf"), text))
    ensures "//" <= "//" + hostPath + ".pdf"
  {
    var h := "//" + hostPath + ".pdf";
    assert ToLower(".pdf") == ".pdf";
    PdfInfixQualifies("//" + hostPath, ".pdf", "", text);
    assert "//" + hostPath + ".pdf" + "" == h;
    assert h[..2] == "//";
  }

  /** With the page's protocol, `//host/a.pdf` on an https page becomes
      `https://host/a.pdf`. */
  lemma ProtocolRelativeIntended(hostPath: string, pageRest: string, text: string, resolve: (string, string) -> Option<string>)
    ensures NormalizeWithPageProtocol(RawAnchor(Some("//" + hostPath + ".pdf"), text), "https://" + pageRest, resolve)
         == Some(Report(TitleFor(text), "https://" + hostPath + ".pdf"))
  {
    HttpsPageProtocol(pageRest);
    ProtocolRelativePdfQualifies(hostPath, text);
    assert "https:" + ("//" + hostPath + ".pdf") == "https://" + hostPath + ".pdf";
  }

  /** `mailto:x.pdf` passes the ".pdf" test and is neither protocol-relative
      nor http(s), so it is emitted as `new URL` gives it back. */
  lemma MailtoLinkEmitted(pageUrl: string, text: string, resolve: (string, string) -> Option<string>)
    requires resolve("mailto:x.pdf", pageUrl) == Some("mailto:x.pdf")
    ensures NormalizeInNode(RawAnchor(Some("mailto:x.pdf"), text), pageUrl, resolve) == Some(Report(TitleFor(text), "mailto:x.pdf"))
    ensures !IsHttpUrl("mailto:x.pdf")
  {
    MailtoQualifies(text);
    MailtoIsNotHttp();
    ResolvedLinkEmitted("mailto:x.pdf", pageUrl, text, resolve);
  }

  /** A qualifying href that is neither protocol-relative nor http(s) is
      emitted as `new URL` resolves it. */
  lemma ResolvedLinkEmitted(h: string, pageUrl: string, text: string, resolve: (string, string) -> Option<string>)
    requires Qualifies(RawAnchor(Some(h), text)) && !("//" <= h) && !IsHttpUrl(h)
    requires resolve(h, pageUrl).Some?
    ensures NormalizeInNode(RawAnchor(Some(h), text), pageUrl, resolve) == Some(Report(TitleFor(text), resolve(h, pageUrl).value))
  {
  }

  lemma MailtoIsNotHttp()
    ensures !("//" <= "mailto:x.pdf") && !IsHttpUrl("mailto:x.pdf")
  {
    var h := "mailto:x.pdf";
    assert h[0] == 'm';
  }

  lemma MailtoQualifies(text: string)
    ensures Qualifies(RawAnchor(Some("mailto:x.pdf"), text))
  {
    assert ToLower(".pdf") == ".pdf";
    PdfInfixQualifies("mailto:x", ".pdf", "", text);
    assert "mailto:x" + ".pdf" + "" == "mailto:x.pdf";
  }

  /** The normaliser with the evidently intended scheme check: a report is
      kept only when its link is an http(s) URL. */
  function NormalizeHttpOnly(a: RawAnchor, pageUrl: string, env: UrlEnv): (r: Option<Report>)
    ensures r.Some? ==> IsHttpUrl(r.value.link) && r == Normalize(a, pageUrl, env)
    ensures Normalize(a, pageUrl, env).Some? && IsHttpUrl(Normalize(a, pageUrl, env).value.link) ==> r.Some?
  {
    match Normalize(a, pageUrl, env)
    case None => None
    case Some(rep) => if IsHttpUrl(rep.link) then Some(rep) else None
  }

  /** `anchors.map(...).filter(Boolean)` with the scheme check: every link
      emitted is an http(s) URL, whatever the protocol and `new URL` yield. */
  function NormalizeAllHttpOnly(anchors: seq<RawAnchor>, pageUrl: string, env: UrlEnv): (r: seq<Report>)
    ensures |r| <= |anchors|
    ensures forall k :: 0 <= k < |r| ==> IsHttpUrl(r[k].link)
  {
    if anchors == [] then []
    else
      (match NormalizeHttpOnly(anchors[0], pageUrl, env)
       case None => []
       case Some(rep) => [rep])
      + NormalizeAllHttpOnly(anchors[1..], pageUrl, env)
  }

  /** The reports whose link is an http(s) URL, in their order. */
  function FilterHttp(rs: seq<Report>): (r: seq<Report>)
    ensures |r| <= |rs|
    ensures forall k :: 0 <= k < |r| ==> IsHttpUrl(r[k].link) && r[k] in rs
    ensures forall x :: x in rs && IsHttpUrl(x.link) ==> x in r
  {
    if rs == [] then []
    else
      var rest := FilterHttp(rs[1..]);
      assert forall x :: x in rs[1..] ==> x in rs;
      assert forall x :: x in rs ==> x == rs[0] || x in rs[1..];
      (if IsHttpUrl(rs[0].link) then [rs[0]] else []) + rest
  }

  lemma {:induction false} FilterHttpAppend(xs: seq<Report>, ys: seq<Report>)
    ensures FilterHttp(xs + ys) == FilterHttp(xs) + FilterHttp(ys)
    decreases |xs|
  {
    if xs == [] {
      assert xs + ys == ys;
    } else {
      assert (xs + ys)[0] == xs[0];
      assert (xs + ys)[1..] == xs[1..] + ys;
      FilterHttpAppend(xs[1..], ys);
    }
  }

  /** A list of http(s) reports passes the filter unchanged. */
  lemma {:induction false} FilterHttpAllHttp(rs: seq<Report>)
    requires forall r :: r in rs ==> IsHttpUrl(r.link)
    ensures FilterHttp(rs) == rs
    decreases |rs|
  {
    if rs != [] {
      assert rs[0] in rs;
      assert forall r :: r in rs[1..] ==> r in rs;
      FilterHttpAllHttp(rs[1..]);
      assert rs == [rs[0]] + rs[1..];
    }
  }

  /** The corrected filter is the code's output with the non-http(s) links
      removed, in order. */
  lemma {:induction false} NormalizeAllHttpOnlyIsFilter(anchors: seq<RawAnchor>, pageUrl: string, env: UrlEnv)
    ensures NormalizeAllHttpOnly(anchors, pageUrl, env) == FilterHttp(NormalizeAll(anchors, pageUrl, env))
    decreases |anchors|
  {
    if anchors != [] {
      var head := match Normalize(anchors[0], pageUrl, env) case None => [] case Some(rep) => [rep];
      var rest := NormalizeAll(anchors[1..], pageUrl, env);
      NormalizeAllHttpOnlyIsFilter(anchors[1..], pageUrl, env);
      FilterHttpAppend(head, rest);
      assert FilterHttp(head) == (match NormalizeHttpOnly(anchors[0], pageUrl, env) case None => [] case Some(rep) => [rep]);
    }
  }

  /** Where the protocol and `new URL` only produce http(s) URLs, the
      corrected filter and the code agree. */
  lemma HttpOnlyAgreesWhenHttp(anchors: seq<RawAnchor>, pageUrl: string, env: UrlEnv)
    requires env.protocol(pageUrl).None? || env.protocol(pageUrl).value in {"http:", "https:"}
    requires forall h, b :: env.resolve(h, b).Some? ==> IsHttpUrl(env.resolve(h, b).value)
    ensures NormalizeAllHttpOnly(anchors, pageUrl, env) == NormalizeAll(anchors, pageUrl, env)
  {
    NormalizeAllHttpOnlyIsFilter(anchors, pageUrl, env);
    EmittedLinksAreHttp(anchors, pageUrl, env);
    FilterHttpAllHttp(NormalizeAll(anchors, pageUrl, env));
  }

  /** With the scheme check, `mailto:x.pdf` is dropped. */
  lemma MailtoLinkDropped(pageUrl: string, text: string, resolve: (string, string) -> Option<string>)
    requires resolve("mailto:x.pdf", pageUrl) == Some("mailto:x.pdf")
    ensures NormalizeAllHttpOnly([RawAnchor(Some("mailto:x.pdf"), text)], pageUrl, UrlEnv(NodeProtocol, resolve)) == []
  {
    MailtoLinkEmitted(pageUrl, text, resolve);
  }
}
