/**
 * Link discovery: of the `href` targets of an index page, in document
 * order, those ending in `.zim` are kept and resolved against the page URL.
 */
module Links {
  import opened Strings

  const ZimSuffix: string := ".zim"

  /** `href.endswith('.zim')`: case-sensitive, on the last four characters. */
  predicate IsZimHref(href: string)
    ensures IsZimHref(href) <==>
              4 <= |href| && href[|href| - 4] == '.' && href[|href| - 3] == 'z'
              && href[|href| - 2] == 'i' && href[|href| - 1] == 'm'
  {
    EndsWith(href, ZimSuffix)
  }

  /**
   * The archive links of a page whose anchors have the targets `hrefs`;
   * `resolve` stands for `urljoin(page_url, href)`.
   */
  function ZimLinks(hrefs: seq<string>, resolve: string -> string): (links: seq<string>)
    ensures |links| <= |hrefs|
    ensures forall l :: l in links ==> exists h :: h in hrefs && IsZimHref(h) && resolve(h) == l
  {
    if hrefs == [] then []
    else
      var last := hrefs[|hrefs| - 1];
      assert forall h :: h in hrefs[..|hrefs| - 1] ==> h in hrefs;
      ZimLinks(hrefs[..|hrefs| - 1], resolve) + (if IsZimHref(last) then [resolve(last)] else [])
  }

  /** Filtering a page split in two filters each part and keeps their order. */
  lemma {:induction false} ZimLinksAppend(a: seq<string>, b: seq<string>, resolve: string -> string)
    ensures ZimLinks(a + b, resolve) == ZimLinks(a, resolve) + ZimLinks(b, resolve)
    decreases |b|
  {
    if b == [] {
      assert a + b == a;
    } else {
      var b' := b[..|b| - 1];
      assert (a + b)[..|a + b| - 1] == a + b';
      ZimLinksAppend(a, b', resolve);
    }
  }

  /** Every `.zim` target of the page is resolved into the listing. */
  lemma {:induction false} ZimLinksComplete(hrefs: seq<string>, resolve: string -> string, i: nat)
    requires i < |hrefs| && IsZimHref(hrefs[i])
    ensures resolve(hrefs[i]) in ZimLinks(hrefs, resolve)
    decreases |hrefs|
  {
    if i < |hrefs| - 1 {
      ZimLinksComplete(hrefs[..|hrefs| - 1], resolve, i);
    }
  }

  /** Duplicates are not removed: a `.zim` target listed n times yields at least n links. */
  lemma {:induction false} ZimLinksKeepsDuplicates(hrefs: seq<string>, resolve: string -> string, h: string)
    requires IsZimHref(h)
    ensures multiset(ZimLinks(hrefs, resolve))[resolve(h)] >= multiset(hrefs)[h]
    decreases |hrefs|
  {
    if hrefs != [] {
      var init := hrefs[..|hrefs| - 1];
      assert hrefs == init + [hrefs[|hrefs| - 1]];
      ZimLinksKeepsDuplicates(init, resolve, h);
    }
  }
}
