/**
 * The catalogue scraper of scripts/scraper.py: the classification of a
 * listing page from its URL, the choice of the `.pdf` links on it, and the
 * record built for each. The HTTP request and the HTML parsing are inputs
 * (the page's links, or None when the request failed), and so are Python's
 * `unquote` and `urljoin`, whose behaviour the model does not restate.
 */
module Scraper {
  import opened Common
  import Text

  // ---------------------------------------------------------------------------
  // Classification of the page

  /** The niveau of a page, from its decoded, lower-cased URL; the earlier rule wins. */
  function Niveau(u: string): (n: string)
    ensures n == "Sup" <==> Text.Contains(u, "exercices-sup")
    ensures n == "Spé" <==>
              !Text.Contains(u, "exercices-sup") &&
              (Text.Contains(u, "exercices-spé") || Text.Contains(u, "exercices-spe"))
    ensures n == "Oral" <==>
              !Text.Contains(u, "exercices-sup") && !Text.Contains(u, "exercices-spé") &&
              !Text.Contains(u, "exercices-spe") && Text.Contains(u, "exercices-oraux")
    ensures n in ["Sup", "Spé", "Oral", "Autre"]
  {
    if Text.Contains(u, "exercices-sup") then "Sup"
    else if Text.Contains(u, "exercices-spé") || Text.Contains(u, "exercices-spe") then "Spé"
    else if Text.Contains(u, "exercices-oraux") then "Oral"
    else "Autre"
  }

  /** The kind of chapter, from the same URL; the earlier rule wins. */
  function Categorie(u: string): (c: string)
    ensures c == "Algèbre" <==> Text.Contains(u, "algèbre") || Text.Contains(u, "algebre")
    ensures c == "Analyse" <==>
              !Text.Contains(u, "algèbre") && !Text.Contains(u, "algebre") && Text.Contains(u, "analyse")
    ensures c == "Proba" <==>
              !Text.Contains(u, "algèbre") && !Text.Contains(u, "algebre") &&
              !Text.Contains(u, "analyse") && Text.Contains(u, "proba")
    ensures c in ["Algèbre", "Analyse", "Proba", "Autre"]
  {
    if Text.Contains(u, "algèbre") || Text.Contains(u, "algebre") then "Algèbre"
    else if Text.Contains(u, "analyse") then "Analyse"
    else if Text.Contains(u, "proba") then "Proba"
    else "Autre"
  }

  /**
   * The chapter name: "Oraux" for the oral page, otherwise the last folder of
   * the URL, decoded once more and capitalised. Splitting always yields at
   * least one part, so the `chapter_label` fallback is never taken.
   */
  function ChapterName(u: string, niveau: string, unquote: string -> string): (ch: string)
    ensures niveau == "Oral" ==> ch == "Oraux"
    ensures niveau != "Oral" && Text.Strip(u, Text.IsSlash) == [] ==> ch == Text.Capitalize(unquote([]))
    ensures niveau != "Oral" ==>
              forall seg | seg != [] && '/' !in seg &&
                           (Text.Strip(u, Text.IsSlash) == seg || Text.IsSuffix("/" + seg, Text.Strip(u, Text.IsSlash))) ::
                ch == Text.Capitalize(unquote(seg))
  {
    if niveau == "Oral" then "Oraux"
    else
      var t := Text.Strip(u, Text.IsSlash);
      assert forall seg | seg != [] && '/' !in seg && (t == seg || Text.IsSuffix("/" + seg, t)) ::
               Text.LastSegment(t) == seg by {
        forall seg | seg != [] && '/' !in seg && (t == seg || Text.IsSuffix("/" + seg, t))
          ensures Text.LastSegment(t) == seg
        {
          Text.LastSegmentIs(t, seg);
        }
      }
      Text.Capitalize(unquote(Text.LastSegment(t)))
  }

  /** For a folder URL `…/seg/`, the chapter is the folder name, decoded and capitalised. */
  lemma ChapterOfFolder(p: string, seg: string, niveau: string, unquote: string -> string)
    requires seg != [] && '/' !in seg
    requires niveau != "Oral"
    ensures ChapterName(p + "/" + seg + "/", niveau, unquote) == Text.Capitalize(unquote(seg))
  {
    Text.LastSegmentOfDirectory(p, seg);
  }

  /** A URL naming the Sup folder is classified Sup, whatever else it names. */
  lemma SupFolderIsSup(p: string, q: string)
    ensures Niveau(p + "exercices-sup" + q) == "Sup"
  {
    Text.ContainsInfix(p, "exercices-sup", q);
  }

  /** A URL naming the oral folder and neither level folder is classified Oral. */
  lemma OralFolderIsOral(p: string, q: string)
    requires !Text.Contains(p + "exercices-oraux" + q, "exercices-sup")
    requires !Text.Contains(p + "exercices-oraux" + q, "exercices-spé")
    requires !Text.Contains(p + "exercices-oraux" + q, "exercices-spe")
    ensures Niveau(p + "exercices-oraux" + q) == "Oral"
  {
    Text.ContainsInfix(p, "exercices-oraux", q);
  }

  /** Both spellings of an algebra folder give the same kind of chapter. */
  lemma AlgebraSpellings(p: string, q: string)
    ensures Categorie(p + "algèbre" + q) == "Algèbre"
    ensures Categorie(p + "algebre" + q) == "Algèbre"
  {
    Text.ContainsInfix(p, "algèbre", q);
    Text.ContainsInfix(p, "algebre", q);
  }

  // ---------------------------------------------------------------------------
  // Links and records

  /** An `<a>` element: its `href` attribute (None when absent) and its text. */
  datatype Link = Link(href: Option<string>, text: string)

  /** The dictionary built for each PDF link. */
  datatype ScrapedExercise = ScrapedExercise(
    title: string,
    chapter: string,
    niveau: string,
    categorie: string,
    urlEnonce: string,
    isPremium: bool)

  /** `href and href.lower().endswith('.pdf')`. */
  predicate IsPdfHref(href: Option<string>)
    ensures href.None? ==> !IsPdfHref(href)
    ensures href.Some? ==>
              (IsPdfHref(href) <==>
                 var v := href.value;
                 |v| >= 4 && Text.LowerChar(v[|v| - 4]) == '.' && Text.LowerChar(v[|v| - 3]) == 'p' &&
                 Text.LowerChar(v[|v| - 2]) == 'd' && Text.LowerChar(v[|v| - 1]) == 'f')
  {
    href.Some? && href.value != "" && Text.IsSuffix(".pdf", Text.ToLower(href.value))
  }

  /** The `.pdf` test ignores case: upper-case and lower-case extensions both qualify. */
  lemma PdfExtensionAnyCase(name: string)
    ensures IsPdfHref(Some(name + ".pdf"))
    ensures IsPdfHref(Some(name + ".PDF"))
  {
    var a := Text.ToLower(name + ".pdf");
    var b := Text.ToLower(name + ".PDF");
    assert a[|a| - 4..] == ".pdf";
    assert b[|b| - 4..] == ".pdf";
  }

  /** The title: text stripped, ".pdf" removed, dashes and underscores made spaces, capitalised. */
  function CleanTitle(text: string): (t: string)
    ensures |t| <= |text|
    ensures '-' !in t && '_' !in t
    ensures var w := Text.RemoveAll(Text.Strip(text, Text.IsSpace), ".pdf");
            |t| == |w| &&
            (w != [] ==> t[0] == (if w[0] == '-' || w[0] == '_' then ' ' else Text.UpperChar(w[0]))) &&
            (forall i :: 0 < i < |w| ==> t[i] == (if w[i] == '-' || w[i] == '_' then ' ' else Text.LowerChar(w[i])))
  {
    var w := Text.RemoveAll(Text.Strip(text, Text.IsSpace), ".pdf");
    var s := Text.ReplaceChar(Text.ReplaceChar(w, '-', ' '), '_', ' ');
    assert |s| == |w| && forall i :: 0 <= i < |w| ==> s[i] == (if w[i] == '-' || w[i] == '_' then ' ' else w[i]);
    assert Text.UpperChar(' ') == ' ' && Text.LowerChar(' ') == ' ';
    Text.CapitalizeKeepsAbsent(s, '-');
    Text.CapitalizeKeepsAbsent(s, '_');
    Text.Capitalize(s)
  }

  /**
   * A link text that has no surrounding whitespace, no ".pdf", no dash and no
   * underscore is only capitalised.
   */
  lemma CleanTitleOfPlainText(text: string)
    requires text == [] || (!Text.IsSpace(text[0]) && !Text.IsSpace(text[|text| - 1]))
    requires !Text.Contains(text, ".pdf") && '-' !in text && '_' !in text
    ensures CleanTitle(text) == Text.Capitalize(text)
  {
    Text.StripUntrimmed(text, Text.IsSpace);
    Text.RemoveAllAbsent(text, ".pdf");
    Text.ReplaceAbsent(text, '-', ' ');
    Text.ReplaceAbsent(text, '_', ' ');
  }

  /** Stripping and removing ".pdf" leave a text without either untouched. */
  lemma PlainTextWindow(u: string)
    requires u == [] || (!Text.IsSpace(u[0]) && !Text.IsSpace(u[|u| - 1]))
    requires !Text.Contains(u, ".pdf")
    ensures Text.RemoveAll(Text.Strip(u, Text.IsSpace), ".pdf") == u
  {
    Text.StripUntrimmed(u, Text.IsSpace);
    Text.RemoveAllAbsent(u, ".pdf");
  }

  /**
   * A link text without surrounding whitespace and without ".pdf" keeps its
   * length: its dashes and underscores become spaces, its first character is
   * upper-cased and the others lower-cased.
   */
  lemma CleanTitleOfTrimmedText(u: string)
    requires u == [] || (!Text.IsSpace(u[0]) && !Text.IsSpace(u[|u| - 1]))
    requires !Text.Contains(u, ".pdf")
    ensures |CleanTitle(u)| == |u|
    ensures u != [] ==> CleanTitle(u)[0] == (if u[0] == '-' || u[0] == '_' then ' ' else Text.UpperChar(u[0]))
    ensures forall i :: 0 < i < |u| ==>
              CleanTitle(u)[i] == (if u[i] == '-' || u[i] == '_' then ' ' else Text.LowerChar(u[i]))
  {
    PlainTextWindow(u);
  }

  /** The title depends only on what is left once the text is stripped and its ".pdf" removed. */
  lemma CleanTitleOfSameWindow(a: string, b: string)
    requires Text.RemoveAll(Text.Strip(a, Text.IsSpace), ".pdf") == Text.RemoveAll(Text.Strip(b, Text.IsSpace), ".pdf")
    ensures CleanTitle(a) == CleanTitle(b)
  {
  }

  /** A file name and the same name with ".pdf" appended give the same title. */
  lemma CleanTitleDropsPdfExtension(u: string)
    requires u == [] || (!Text.IsSpace(u[0]) && !Text.IsSpace(u[|u| - 1]))
    requires !Text.Contains(u, ".pdf")
    ensures CleanTitle(u + ".pdf") == CleanTitle(u)
  {
    PlainTextWindow(u);
    Text.PdfNameWindow(u);
    CleanTitleOfSameWindow(u + ".pdf", u);
  }

  // The stages of the title example below, one lemma each.

  lemma StripExample()
    ensures Text.Strip(" x-y.pdf\n", Text.IsSpace) == "x-y.pdf"
  {
    var raw := " x-y.pdf\n";
    var body := " x-y.pdf";
    assert Text.TrimEnd(raw, Text.IsSpace) == body by {
      assert raw[..|raw| - 1] == body && Text.IsSpace(raw[|raw| - 1]);
      assert !Text.IsSpace(body[|body| - 1]);
    }
    assert Text.TrimStart(body, Text.IsSpace) == "x-y.pdf" by {
      assert Text.IsSpace(body[0]) && body[1..] == "x-y.pdf";
      assert !Text.IsSpace("x-y.pdf"[0]);
    }
  }

  lemma RemovePdfExample()
    ensures Text.RemoveAll("x-y.pdf", ".pdf") == "x-y"
  {
    var pat := ".pdf";
    assert Text.RemoveAll(pat, pat) == [] by {
      assert pat[..|pat|] == pat && pat[|pat|..] == [];
    }
    assert Text.RemoveAll("y.pdf", pat) == "y" by {
      assert "y.pdf"[..4][0] != pat[0] && "y.pdf"[1..] == pat;
    }
    assert Text.RemoveAll("-y.pdf", pat) == "-y" by {
      assert "-y.pdf"[..4][0] != pat[0] && "-y.pdf"[1..] == "y.pdf";
    }
    assert "x-y.pdf"[..4][0] != pat[0] && "x-y.pdf"[1..] == "-y.pdf";
  }

  lemma ReplaceExample()
    ensures Text.ReplaceChar(Text.ReplaceChar("x-y", '-', ' '), '_', ' ') == "x y"
  {
    assert Text.ReplaceChar("x-y", '-', ' ') == "x y";
  }

  lemma CapitalizeExample()
    ensures Text.Capitalize("x y") == "X y"
  {
    assert Text.UpperChar('x') == 'X';
  }

  /** A link name spelled with a dash becomes a spaced, capitalised title. */
  lemma CleanTitleExample()
    ensures CleanTitle(" x-y.pdf\n") == "X y"
  {
    StripExample();
    RemovePdfExample();
    ReplaceExample();
    CapitalizeExample();
  }

  /** The classification shared by every record of a page. */
  datatype PageClass = PageClass(niveau: string, categorie: string, chapter: string)

  /** `url_decoded = unquote(url).lower()` and the three rules applied to it. */
  function Classify(url: string, unquote: string -> string): (page: PageClass)
    ensures page.niveau in ["Sup", "Spé", "Oral", "Autre"]
    ensures page.categorie in ["Algèbre", "Analyse", "Proba", "Autre"]
    ensures page.niveau == "Sup" <==> Text.Contains(Text.ToLower(unquote(url)), "exercices-sup")
    ensures page.niveau == "Oral" ==> page.chapter == "Oraux"
  {
    var u := Text.ToLower(unquote(url));
    var niveau := Niveau(u);
    PageClass(niveau, Categorie(u), ChapterName(u, niveau, unquote))
  }

  /** The record of one PDF link: its URL resolved against the page, never premium. */
  function RecordOf(url: string, page: PageClass, link: Link, urljoin: (string, string) -> string): (r: ScrapedExercise)
    requires link.href.Some?
    ensures !r.isPremium && r.urlEnonce == urljoin(url, link.href.value)
    ensures r.title == CleanTitle(link.text)
    ensures r.niveau == page.niveau && r.chapter == page.chapter && r.categorie == page.categorie
    ensures |r.title| <= |link.text| && '-' !in r.title && '_' !in r.title
  {
    ScrapedExercise(CleanTitle(link.text), page.chapter, page.niveau, page.categorie,
                    urljoin(url, link.href.value), false)
  }

  /** The links that qualify, in page order. */
  function PdfLinks(links: seq<Link>): seq<Link>
    decreases |links|
  {
    if links == [] then []
    else PdfLinks(links[..|links| - 1]) + (if IsPdfHref(links[|links| - 1].href) then [links[|links| - 1]] else [])
  }

  /** The records `scrape_exercises` returns for a page that was fetched. */
  function Records(url: string, page: PageClass, links: seq<Link>, urljoin: (string, string) -> string): seq<ScrapedExercise>
    decreases |links|
  {
    if links == [] then []
    else
      var last := links[|links| - 1];
      Records(url, page, links[..|links| - 1], urljoin) +
        (if IsPdfHref(last.href) then [RecordOf(url, page, last, urljoin)] else [])
  }

  /** The loop of `scrape_exercises` over the page's links, with the page already classified. */
  method CollectRecords(url: string, page: PageClass, ls: seq<Link>, urljoin: (string, string) -> string)
    returns (records: seq<ScrapedExercise>)
    ensures records == Records(url, page, ls, urljoin)
  {
    records := [];
    for i := 0 to |ls|
      invariant records == Records(url, page, ls[..i], urljoin)
    {
      var link := ls[i];
      assert Records(url, page, ls[..i + 1], urljoin) ==
             Records(url, page, ls[..i], urljoin) +
               (if IsPdfHref(link.href) then [RecordOf(url, page, link, urljoin)] else []) by {
        assert ls[..i + 1][..i] == ls[..i] && ls[..i + 1][i] == link;
      }
      if IsPdfHref(link.href) {
        var title := CleanTitle(link.text);
        var record := ScrapedExercise(title, page.chapter, page.niveau, page.categorie,
                                      urljoin(url, link.href.value), false);
        assert record == RecordOf(url, page, link, urljoin);
        records := records + [record];
      }
    }
    assert ls[..|ls|] == ls;
  }

  /** `scrape_exercises`: nothing when the request failed, else one record per PDF link. */
  method ScrapeExercises(url: string, links: Option<seq<Link>>, unquote: string -> string,
                         urljoin: (string, string) -> string)
    returns (records: seq<ScrapedExercise>)
    ensures links.None? ==> records == []
    ensures links.Some? ==> records == Records(url, Classify(url, unquote), links.value, urljoin)
  {
    if links.None? {
      return [];
    }
    var page := Classify(url, unquote);
    records := CollectRecords(url, page, links.value, urljoin);
  }

  /** The k-th record is built from the k-th link, for every k. */
  ghost predicate Paired(url: string, page: PageClass, ls: seq<Link>, rs: seq<ScrapedExercise>,
                         urljoin: (string, string) -> string)
  {
    |rs| == |ls| &&
    forall k :: 0 <= k < |ls| ==> ls[k].href.Some? && rs[k] == RecordOf(url, page, ls[k], urljoin)
  }

  /** Pairing one more qualifying link with its record keeps the pairing. */
  lemma PairedSnoc(url: string, page: PageClass, ls: seq<Link>, rs: seq<ScrapedExercise>, l: Link,
                   urljoin: (string, string) -> string)
    requires Paired(url, page, ls, rs, urljoin) && l.href.Some?
    ensures Paired(url, page, ls + [l], rs + [RecordOf(url, page, l, urljoin)], urljoin)
  {
    var ls', rs' := ls + [l], rs + [RecordOf(url, page, l, urljoin)];
    forall k | 0 <= k < |ls'|
      ensures ls'[k].href.Some? && rs'[k] == RecordOf(url, page, ls'[k], urljoin)
    {
      if k < |ls| {
        assert ls'[k] == ls[k] && rs'[k] == rs[k];
      }
    }
  }

  /**
   * One record per qualifying link, in the links' order: the k-th record is
   * built from the k-th PDF link.
   */
  lemma {:induction false} RecordsFollowPdfLinks(url: string, page: PageClass, links: seq<Link>,
                                                 urljoin: (string, string) -> string)
    ensures |Records(url, page, links, urljoin)| == |PdfLinks(links)|
    ensures forall k :: 0 <= k < |PdfLinks(links)| ==>
              PdfLinks(links)[k].href.Some? &&
              Records(url, page, links, urljoin)[k] == RecordOf(url, page, PdfLinks(links)[k], urljoin)
  {
    RecordsPaired(url, page, links, urljoin);
  }

  /** The qualifying links and the records pair up one by one. */
  lemma {:induction false} RecordsPaired(url: string, page: PageClass, links: seq<Link>,
                                         urljoin: (string, string) -> string)
    ensures Paired(url, page, PdfLinks(links), Records(url, page, links, urljoin), urljoin)
    decreases |links|
  {
    if links != [] {
      var init, last := links[..|links| - 1], links[|links| - 1];
      RecordsPaired(url, page, init, urljoin);
      if IsPdfHref(last.href) {
        PairedSnoc(url, page, PdfLinks(init), Records(url, page, init, urljoin), last, urljoin);
      }
    }
  }

  /** A link is chosen exactly when it is on the page and its href ends in ".pdf". */
  lemma {:induction false} PdfLinksExactly(links: seq<Link>, l: Link)
    ensures l in PdfLinks(links) <==> l in links && IsPdfHref(l.href)
    decreases |links|
  {
    if links != [] {
      var init := links[..|links| - 1];
      PdfLinksExactly(init, l);
      assert links == init + [links[|links| - 1]];
    }
  }

  /** Choosing links commutes with concatenating pages: the page order is kept. */
  lemma {:induction false} PdfLinksAppend(a: seq<Link>, b: seq<Link>)
    ensures PdfLinks(a + b) == PdfLinks(a) + PdfLinks(b)
    decreases |b|
  {
    if b == [] {
      assert a + b == a;
    } else {
      var init := b[..|b| - 1];
      assert (a + b)[..|a + b| - 1] == a + init;
      PdfLinksAppend(a, init);
    }
  }

  /** Every record is free and carries the page's niveau, chapter and kind. */
  lemma {:induction false} RecordsSharePage(url: string, page: PageClass, links: seq<Link>,
                                            urljoin: (string, string) -> string)
    ensures forall r :: r in Records(url, page, links, urljoin) ==>
              !r.isPremium && r.niveau == page.niveau && r.chapter == page.chapter &&
              r.categorie == page.categorie && '-' !in r.title && '_' !in r.title
    decreases |links|
  {
    if links != [] {
      RecordsSharePage(url, page, links[..|links| - 1], urljoin);
    }
  }
}
