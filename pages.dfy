/**
 * `create_pages`, run on the `the_post` hook: it appends one HTML fragment per
 * slide of the post's first connected slideshow to the page list WordPress
 * built for the post (`$pages`), and switches the post to multi-page when more
 * than one slide was added (`$multipage`, `$numpages`).
 */
module SlideshowPages {
  import opened MetaStore
  import opened FieldReader
  import opened FieldReaderLemmas
  import opened Markup

  /** A slideshow post connected to the current post: `get_the_title` of it, and its meta rows. */
  datatype Slideshow = Slideshow(title: string, meta: Store)

  /**
   * The slides `create_pages` works on: those of the FIRST connected slideshow
   * (only one can be used), none when no slideshow is connected.
   */
  function ConnectedSlides(connected: seq<Slideshow>): seq<Record> {
    if connected == [] then [] else SlideRows(connected[0].meta)
  }

  /** The page fragment of one slide. */
  function SlideFragment(showTitle: string, slide: Record, r: Renderer, numpages: int, multipage: bool): string {
    var title := Prop(slide, "title");
    var image := Prop(slide, "image");
    var content := Prop(slide, "content");
    "<div id=\"slideshow\" class=\"slideshow\">"
    + "<h2 class=\"slideshow-title\">" + showTitle + "</h2>"
    + "<div class=\"slideshow-slide\">"
    + (if !Empty(title) then "<h3 class=\"slide-title\">" + r.escHtml(title) + "</h3>" else "")
    + (if !Empty(image) then "<p class=\"slide-image\">" + r.attachmentImage(image) + "</p>" else "")
    + (if !Empty(content) then r.theContent(content) else "")
    + "</div>"
    + r.linkPages(numpages, multipage)
    + "</div>"
  }

  /** The fragments of all slides, in slide order. */
  function Fragments(showTitle: string, slides: seq<Record>, r: Renderer, numpages: int, multipage: bool): (fs: seq<string>)
    ensures |fs| == |slides|
  {
    seq(|slides|, i requires 0 <= i < |slides| => SlideFragment(showTitle, slides[i], r, numpages, multipage))
  }

  /**
   * One step of the loop: append `fragment` to the page at `index`, which is
   * created empty when it does not exist yet (`isset( $pages[ $page_index ] )`
   * or `''`, then `.=`).
   */
  function WriteAt(pages: seq<string>, index: nat, fragment: string): seq<string>
    requires index <= |pages|
  {
    if index < |pages| then pages[index := pages[index] + fragment] else pages + [fragment]
  }

  /** The page list after fragment k was written at index `|pages| - 1 + k`, for every k in order. */
  function Augmented(pages: seq<string>, fragments: seq<string>): (r: seq<string>)
    requires |pages| >= 1
    ensures |r| == if fragments == [] then |pages| else |pages| + |fragments| - 1
    decreases |fragments|
  {
    if fragments == [] then pages
    else
      var k := |fragments| - 1;
      WriteAt(Augmented(pages, fragments[..k]), |pages| - 1 + k, fragments[k])
  }

  /**
   * What the augmentation does to the page list: pages before the last one are
   * kept, the last page gets the first fragment appended, and every further
   * fragment becomes a page of its own.
   */
  lemma {:induction false} AugmentedPages(pages: seq<string>, fragments: seq<string>)
    requires |pages| >= 1
    ensures var r := Augmented(pages, fragments);
            var last := |pages| - 1;
            && (forall i :: 0 <= i < last ==> r[i] == pages[i])
            && (fragments == [] ==> r == pages)
            && (fragments != [] ==> r[last] == pages[last] + fragments[0])
            && (forall k :: 1 <= k < |fragments| ==> r[last + k] == fragments[k])
    decreases |fragments|
  {
    if fragments != [] {
      var k := |fragments| - 1;
      var init := fragments[..k];
      AugmentedPages(pages, init);
      assert forall j :: 0 <= j < k ==> init[j] == fragments[j];
    }
  }

  lemma AugmentedStep(pages: seq<string>, fragments: seq<string>, k: nat)
    requires |pages| >= 1 && k < |fragments|
    ensures |pages| - 1 + k <= |Augmented(pages, fragments[..k])|
    ensures Augmented(pages, fragments[..k + 1])
         == WriteAt(Augmented(pages, fragments[..k]), |pages| - 1 + k, fragments[k])
  {
    assert fragments[..k + 1][..k] == fragments[..k];
  }

  /** WordPress's own relation between the pagination globals, as `setup_postdata` sets them. */
  predicate PaginationConsistent(pages: seq<string>, multipage: bool, numpages: int) {
    numpages == |pages| && multipage == (|pages| > 1)
  }

  /** The globals `create_pages` works on. */
  class PostPages {
    var pages: seq<string>
    var multipage: bool
    var numpages: int

    constructor (pages: seq<string>, multipage: bool, numpages: int)
      ensures this.pages == pages && this.multipage == multipage && this.numpages == numpages
    {
      this.pages := pages;
      this.multipage := multipage;
      this.numpages := numpages;
    }

    /**
     * The guards of `create_pages`: bail when no slideshow is connected, when
     * the reader returns nothing, or when it holds no non-empty `slides`.
     */
    static method ResolveSlides(connected: seq<Slideshow>) returns (slides: seq<Record>)
      ensures slides == ConnectedSlides(connected)
      ensures slides != [] ==> connected != []
    {
      if |connected| == 0 {
        return [];
      }
      var slideshow := connected[0];
      var fields := GetField(slideshow.meta, Config(), "");
      ReadSlides(slideshow.meta);
      if fields == map[] {
        return [];
      }
      if "slides" !in fields || !Truthy(fields["slides"]) {
        return [];
      }
      slides := fields["slides"].rows;
    }

    /** The `foreach` of `create_pages`: fragment k goes to page `count( $pages ) - 1 + k`. */
    method AddSlides(showTitle: string, slides: seq<Record>, r: Renderer)
      requires |pages| >= 1
      modifies this`pages
      ensures pages == Augmented(old(pages), Fragments(showTitle, slides, r, numpages, multipage))
    {
      ghost var original := pages;
      ghost var fragments := Fragments(showTitle, slides, r, numpages, multipage);
      var index := |pages| - 1;
      var k := 0;
      while k < |slides|
        invariant 0 <= k <= |slides|
        invariant index == |original| - 1 + k
        invariant pages == Augmented(original, fragments[..k])
      {
        var fragment := SlideFragment(showTitle, slides[k], r, numpages, multipage);
        AugmentedStep(original, fragments, k);
        assert fragment == fragments[k];
        pages := WriteAt(pages, index, fragment);
        index := index + 1;
        k := k + 1;
      }
      assert fragments[..k] == fragments;
    }

    /**
     * `create_pages` as written: with more than one slide it sets
     * `$numpages = count( $pages ) + count( $slides )`.
     */
    method CreatePages(connected: seq<Slideshow>, r: Renderer)
      requires |pages| >= 1
      modifies this
      ensures var slides := ConnectedSlides(connected);
              && (slides == [] ==> pages == old(pages) && multipage == old(multipage) && numpages == old(numpages))
              && (|slides| == 1 ==> multipage == old(multipage) && numpages == old(numpages))
              && (|slides| > 1 ==> multipage && numpages == old(|pages|) + |slides|)
              && (slides != [] ==> pages == Augmented(old(pages), Fragments(connected[0].title, slides, r, numpages, multipage)))
      ensures |ConnectedSlides(connected)| > 1 ==> numpages == |pages| + 1
    {
      var slides := ResolveSlides(connected);
      if slides == [] {
        return;
      }
      var count := |slides|;
      var totalPages := |pages| + count;
      if count > 1 {
        multipage := true;
        numpages := totalPages;
      }
      AddSlides(connected[0].title, slides, r);
    }

    /**
     * `create_pages` with `$numpages` set to the number of pages the list
     * really ends with: the first slide shares the post's last page.
     */
    method CreatePagesCorrected(connected: seq<Slideshow>, r: Renderer)
      requires |pages| >= 1
      modifies this
      ensures var slides := ConnectedSlides(connected);
              && (slides == [] ==> pages == old(pages) && multipage == old(multipage) && numpages == old(numpages))
              && (|slides| == 1 ==> multipage == old(multipage) && numpages == old(numpages))
              && (|slides| > 1 ==> multipage && numpages == old(|pages|) + |slides| - 1)
              && (slides != [] ==> pages == Augmented(old(pages), Fragments(connected[0].title, slides, r, numpages, multipage)))
      ensures old(PaginationConsistent(pages, multipage, numpages)) ==> PaginationConsistent(pages, multipage, numpages)
    {
      var slides := ResolveSlides(connected);
      if slides == [] {
        return;
      }
      var count := |slides|;
      var totalPages := |pages| + count - 1;
      if count > 1 {
        multipage := true;
        numpages := totalPages;
      }
      AddSlides(connected[0].title, slides, r);
    }
  }

  /**
   * The overcount in one picture: a one-page post with a two-slide slideshow
   * ends with two pages, while `$numpages` announces three.
   */
  lemma TwoSlidesOnOnePage(body: string, first: string, second: string)
    ensures Augmented([body], [first, second]) == [body + first, second]
    ensures |[body]| + |[first, second]| == |Augmented([body], [first, second])| + 1
  {
    assert [first, second][..1] == [first];
    assert [first][..0] == [];
    assert Augmented([body], [first]) == WriteAt([body], 0, first) == [body + first];
  }

  // ---------------------------------------------------------------------------
  // The `wp_link_pages_link` filter `create_pages` registers.

  const LinkEnd: string := "/\">"
  const AnchoredLinkEnd: string := "/#slideshow\">"

  predicate OccursAt(s: string, pattern: string, i: nat) {
    i + |pattern| <= |s| && s[i..i + |pattern|] == pattern
  }

  predicate Absent(s: string, pattern: string) {
    forall i :: 0 <= i <= |s| ==> !OccursAt(s, pattern, i)
  }

  /** `str_replace( '/">', '/#slideshow">', $link )`: every occurrence, scanning left to right. */
  function AnchorLinks(link: string): string
    decreases |link|
  {
    if link == [] then []
    else if LinkEnd <= link then AnchoredLinkEnd + AnchorLinks(link[|LinkEnd|..])
    else [link[0]] + AnchorLinks(link[1..])
  }

  lemma AnchorLinksHead(link: string)
    requires link != []
    ensures AnchorLinks(link) != []
    ensures AnchorLinks(link)[0] == if LinkEnd <= link then '/' else link[0]
  {
  }

  /** A link without `/">` passes the filter unchanged. */
  lemma {:induction false} AnchorLinksUnchanged(link: string)
    requires Absent(link, LinkEnd)
    ensures AnchorLinks(link) == link
    decreases |link|
  {
    if link != [] {
      assert !OccursAt(link, LinkEnd, 0);
      var rest := link[1..];
      forall i | 0 <= i <= |rest|
        ensures !OccursAt(rest, LinkEnd, i)
      {
        if i + 3 <= |rest| {
          assert rest[i..i + 3] == link[i + 1..i + 4];
        }
        assert !OccursAt(link, LinkEnd, i + 1);
      }
      AnchorLinksUnchanged(rest);
    }
  }

  lemma OccursAtLinkEnd(s: string, i: nat)
    ensures OccursAt(s, LinkEnd, i) <==> i + 3 <= |s| && s[i] == '/' && s[i + 1] == '"' && s[i + 2] == '>'
  {
    if i + 3 <= |s| && s[i] == '/' && s[i + 1] == '"' && s[i + 2] == '>' {
      assert s[i..i + 3] == LinkEnd;
    }
  }

  lemma OccursShifted(out: string, rest: string, d: nat, i: nat)
    requires d <= i && |out| == d + |rest| && out[d..] == rest
    ensures OccursAt(out, LinkEnd, i) ==> OccursAt(rest, LinkEnd, i - d)
  {
    OccursAtLinkEnd(out, i);
    OccursAtLinkEnd(rest, i - d);
    if i + 3 <= |out| {
      assert out[i] == rest[i - d] && out[i + 1] == rest[i - d + 1] && out[i + 2] == rest[i - d + 2];
    }
  }

  /** The replacement text cannot complete a `/">` with what follows it. */
  lemma {:induction false} AnchoredPrefixLeavesNone(rest: string)
    requires Absent(rest, LinkEnd)
    ensures Absent(AnchoredLinkEnd + rest, LinkEnd)
  {
    var out := AnchoredLinkEnd + rest;
    forall i | 0 <= i <= |out|
      ensures !OccursAt(out, LinkEnd, i)
    {
      OccursAtLinkEnd(out, i);
      if i < 13 {
        assert out[i] == AnchoredLinkEnd[i];
        assert out[1] == '#';
      } else {
        assert out[13..] == rest;
        OccursShifted(out, rest, 13, i);
      }
    }
  }

  /** A copied character cannot complete a `/">` either: the text would have started with one. */
  lemma {:induction false} CopiedCharLeavesNone(link: string)
    requires link != [] && !(LinkEnd <= link)
    requires Absent(AnchorLinks(link[1..]), LinkEnd)
    ensures Absent(AnchorLinks(link), LinkEnd)
  {
    var out := AnchorLinks(link);
    var rest := AnchorLinks(link[1..]);
    assert out == [link[0]] + rest;
    forall i | 0 <= i <= |out|
      ensures !OccursAt(out, LinkEnd, i)
    {
      if i == 0 {
        OccursAtLinkEnd(out, 0);
        if OccursAt(out, LinkEnd, 0) {
          AnchorLinksHead(link[1..]);
          assert link[1] == '"' && !(LinkEnd <= link[1..]);
          assert rest == [link[1]] + AnchorLinks(link[2..]);
          AnchorLinksHead(link[2..]);
          assert false;
        }
      } else {
        assert out[1..] == rest;
        OccursShifted(out, rest, 1, i);
      }
    }
  }

  /** After the filter no `/">` is left. */
  lemma {:induction false} AnchorLinksLeavesNone(link: string)
    ensures Absent(AnchorLinks(link), LinkEnd)
    decreases |link|
  {
    if link == [] {
    } else if LinkEnd <= link {
      AnchorLinksLeavesNone(link[3..]);
      AnchoredPrefixLeavesNone(AnchorLinks(link[3..]));
    } else {
      AnchorLinksLeavesNone(link[1..]);
      CopiedCharLeavesNone(link);
    }
  }
}
