/** The two `retain` filters of `rip`: slash-led simple page links
    (src/main.rs:113-116) and image resources by case-sensitive extension
    (src/main.rs:138-145). */
module Filters {
  import opened Seqs
  import Extract
  import opened Wrappers

  predicate StartsWithSlash(s: string)
  {
    |s| > 0 && s[0] == '/'
  }

  predicate EndsWith(s: string, suffix: string)
  {
    |suffix| <= |s| && s[|s| - |suffix|..] == suffix
  }

  /** The image extensions the resource filter accepts. */
  const ImageExtensions: seq<string> := [".jpg", ".png", ".jpeg", ".gif", ".svg"]

  /** A slash-led suffix with no `:`, `?` or `#`. This is meant to keep
      simple same-site pages, but a protocol-relative `//host/...` passes too. */
  predicate KeepLink(c: string): (b: bool)
    ensures b <==> |c| > 0 && c[0] == '/'
                   && forall k :: 0 <= k < |c| ==> c[k] != ':' && c[k] != '?' && c[k] != '#'
  {
    StartsWithSlash(c) && !(':' in c || '?' in c || '#' in c)
  }

  /** A slash-led image reference; the extension test is case-sensitive. */
  predicate KeepResource(c: string): (b: bool)
    ensures b <==> |c| > 0 && c[0] == '/'
                   && exists e :: e in ImageExtensions && |e| <= |c| && c[|c| - |e|..] == e
  {
    StartsWithSlash(c)
    && (EndsWith(c, ".jpg") || EndsWith(c, ".png") || EndsWith(c, ".jpeg")
        || EndsWith(c, ".gif") || EndsWith(c, ".svg"))
  }

  /** Neither filter looks for a host: a protocol-relative reference such as
      `//upload.example.org/...` has no `:` and passes both, and `Url::join`
      then resolves it against another host. */
  lemma ProtocolRelativePasses()
    ensures KeepLink("//upload.example.org/a")
    ensures KeepResource("//upload.example.org/a.png")
  {
    assert EndsWith("//upload.example.org/a.png", ".png");
  }

  /** What one fetched page contributes to the crawl: the filtered `links`
      and `resources` vectors of `rip`. */
  datatype Page = Page(links: seq<string>, resources: seq<string>)

  /** The scan and both filters of one page. */
  function ScanPage(text: string): (pg: Page)
    ensures forall l :: l in pg.links ==> KeepLink(l)
    ensures forall x :: x in pg.resources ==> KeepResource(x)
  {
    Page(PageLinks(text), PageResources(text))
  }

  /** The page links found in `text`, in document order. */
  function PageLinks(text: string): (r: seq<string>)
    ensures IsSubsequence(r, Extract.Candidates(text, Extract.HrefMarker, Extract.HrefOffset))
    ensures forall l :: l in r <==> l in Extract.Candidates(text, Extract.HrefMarker, Extract.HrefOffset)
                                     && KeepLink(l)
  {
    Filter(Extract.Candidates(text, Extract.HrefMarker, Extract.HrefOffset), KeepLink)
  }

  /** The image references found in `text`, in document order. */
  function PageResources(text: string): (r: seq<string>)
    ensures IsSubsequence(r, Extract.Candidates(text, Extract.SrcMarker, Extract.SrcOffset))
    ensures forall x :: x in r <==> x in Extract.Candidates(text, Extract.SrcMarker, Extract.SrcOffset)
                                     && KeepResource(x)
  {
    Filter(Extract.Candidates(text, Extract.SrcMarker, Extract.SrcOffset), KeepResource)
  }

  /** A string is a page link of `text` exactly when some `href=` occurrence
      reads to it and it passes the link filter. */
  lemma PageLinkExact(text: string, l: string)
    ensures l in PageLinks(text)
            <==> KeepLink(l)
                 && exists i: nat :: Extract.OccursAt(text, Extract.HrefMarker, i)
                                     && Extract.ScanAt(text, i + Extract.HrefOffset) == Some(l)
  {
    Extract.CandidatesExact(text, Extract.HrefMarker, Extract.HrefOffset, l);
  }

  /** A string is a resource of `text` exactly when some `src=` occurrence
      reads to it and it passes the resource filter. */
  lemma PageResourceExact(text: string, x: string)
    ensures x in PageResources(text)
            <==> KeepResource(x)
                 && exists i: nat :: Extract.OccursAt(text, Extract.SrcMarker, i)
                                     && Extract.ScanAt(text, i + Extract.SrcOffset) == Some(x)
  {
    Extract.CandidatesExact(text, Extract.SrcMarker, Extract.SrcOffset, x);
  }

  /** The extension test does not fold case, and `.jpeg` is accepted on its own. */
  lemma ExtensionIsCaseSensitive()
    ensures !KeepResource("/a.JPG") && KeepResource("/a.jpeg") && !KeepResource("a.png")
  {
    assert "/a.JPG"[2..] != ".jpg" by { assert "/a.JPG"[2..][1] != ".jpg"[1]; }
    assert "/a.JPG"[1..] != ".jpeg";
    assert "/a.jpeg"[2..] == ".jpeg";
  }
}
