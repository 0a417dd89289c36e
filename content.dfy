/**
 * The string assembly of `update_slideshow_post_data` (a save hook the plugin
 * no longer registers): the slides are flattened into post content, one
 * `slideshow-slide` block per slide, with the WordPress page break between
 * consecutive slides, so that WordPress's own pagination splits the content
 * back into one page per slide.
 */
module SlideshowContent {
  import opened MetaStore
  import opened FieldReader
  import opened FieldReaderLemmas
  import opened Markup

  /** The marker WordPress splits post content into pages on. */
  const PageBreak: string := "<!--nextpage-->"

  /**
   * The block of one slide. The title markup is reproduced as written, with
   * its class attribute left unterminated (`class="slide-title>`).
   */
  function SlideBlock(slide: Record, r: Renderer): string {
    var title := Prop(slide, "title");
    var image := Prop(slide, "image");
    var content := Prop(slide, "content");
    "<div class=\"slideshow-slide\">"
    + (if !Empty(title) then "<h3 class=\"slide-title>" + r.escHtml(title) + "</h3>" else "")
    + (if !Empty(image) then "<div class=\"slide-image\">" + r.attachmentImage(image) + "</div>" else "")
    + (if !Empty(content) then r.ksesPost(content) else "")
    + "</div>"
  }

  /** The blocks of all slides, in slide order. */
  function Blocks(slides: seq<Record>, r: Renderer): (bs: seq<string>)
    ensures |bs| == |slides|
  {
    seq(|slides|, i requires 0 <= i < |slides| => SlideBlock(slides[i], r))
  }

  /** The blocks with a page break between each two consecutive ones. */
  function JoinPages(blocks: seq<string>): string
    decreases |blocks|
  {
    if blocks == [] then ""
    else if |blocks| == 1 then blocks[0]
    else blocks[0] + PageBreak + JoinPages(blocks[1..])
  }

  lemma {:induction false} JoinPagesSnoc(blocks: seq<string>, b: string)
    requires blocks != []
    ensures JoinPages(blocks + [b]) == JoinPages(blocks) + PageBreak + b
    decreases |blocks|
  {
    if |blocks| > 1 {
      assert (blocks + [b])[1..] == blocks[1..] + [b];
      JoinPagesSnoc(blocks[1..], b);
    }
  }

  /** Joining one more block of a list adds a page break and that block. */
  lemma JoinPagesStep(blocks: seq<string>, k: nat)
    requires k < |blocks|
    ensures k == 0 ==> JoinPages(blocks[..k + 1]) == blocks[0]
    ensures k > 0 ==> JoinPages(blocks[..k + 1]) == JoinPages(blocks[..k]) + PageBreak + blocks[k]
  {
    assert blocks[..k + 1] == blocks[..k] + [blocks[k]];
    if k > 0 {
      JoinPagesSnoc(blocks[..k], blocks[k]);
    }
  }

  /**
   * `update_slideshow_post_data`'s content: the reader's `slides`, when there
   * are any, flattened; the empty string otherwise.
   */
  method FlattenSlides(store: Store, r: Renderer) returns (content: string)
    ensures content == JoinPages(Blocks(SlideRows(store), r))
  {
    content := "";
    var fields := GetField(store, Config(), "");
    ReadSlides(store);
    if "slides" in fields && Truthy(fields["slides"]) {
      content := JoinSlides(fields["slides"].rows, r);
    }
  }

  /**
   * The flattening loop: a block per slide, and a page break after every
   * slide but the last one (`$key != $last_item_key`).
   */
  method JoinSlides(slides: seq<Record>, r: Renderer) returns (content: string)
    ensures content == JoinPages(Blocks(slides, r))
  {
    content := "";
    ghost var blocks := Blocks(slides, r);
    var lastKey := |slides| - 1;
    var key := 0;
    while key < |slides|
      invariant 0 <= key <= |slides|
      invariant key == 0 ==> content == ""
      invariant 0 < key < |slides| ==> content == JoinPages(blocks[..key]) + PageBreak
      invariant 0 < key == |slides| ==> content == JoinPages(blocks[..key])
    {
      var block := SlideBlock(slides[key], r);
      assert block == blocks[key];
      JoinPagesStep(blocks, key);
      content := content + block;
      if key != lastKey {
        content := content + PageBreak;
      }
      key := key + 1;
    }
    assert blocks[..|slides|] == blocks;
  }

  // ---------------------------------------------------------------------------
  // Splitting the content back into pages.

  predicate BreakAt(s: string, i: nat) {
    i + |PageBreak| <= |s| && s[i..i + |PageBreak|] == PageBreak
  }

  predicate NoBreak(s: string) {
    forall i :: 0 <= i <= |s| ==> !BreakAt(s, i)
  }

  /** `explode( '<!--nextpage-->', $content )`, the split WordPress paginates post content with. */
  function Explode(s: string): (pieces: seq<string>)
    ensures |pieces| >= 1
    decreases |s|
  {
    if s == [] then [""]
    else if PageBreak <= s then [""] + Explode(s[|PageBreak|..])
    else
      var rest := Explode(s[1..]);
      [[s[0]] + rest[0]] + rest[1..]
  }

  lemma NoBreakTail(s: string)
    requires s != [] && NoBreak(s)
    ensures NoBreak(s[1..])
  {
    var t := s[1..];
    forall i | 0 <= i <= |t|
      ensures !BreakAt(t, i)
    {
      if i + |PageBreak| <= |t| {
        assert t[i..i + |PageBreak|] == s[i + 1..i + 1 + |PageBreak|];
      }
      assert !BreakAt(s, i + 1);
    }
  }

  /** A piece without a page break is a page of its own. */
  lemma {:induction false} ExplodeNoBreak(s: string)
    requires NoBreak(s)
    ensures Explode(s) == [s]
    decreases |s|
  {
    if s != [] {
      assert !BreakAt(s, 0);
      assert !(PageBreak <= s) by {
        if |PageBreak| <= |s| {
          assert s[0..|PageBreak|] == s[..|PageBreak|];
        }
      }
      NoBreakTail(s);
      ExplodeNoBreak(s[1..]);
      assert [s[0]] + s[1..] == s;
    }
  }

  /** A page break can only start at its own '<'. */
  lemma BreakNotInsideItself(b: string, t: string)
    requires 1 <= |b| < |PageBreak|
    ensures !(PageBreak <= b + PageBreak + t)
  {
    var s := b + PageBreak + t;
    var j := |b|;
    assert s[j] == PageBreak[0] == '<';
    assert PageBreak[j] != '<';
  }

  /** Splitting a piece followed by a page break yields that piece, then the split of the rest. */
  lemma {:induction false} ExplodeBreak(b: string, t: string)
    requires NoBreak(b)
    ensures Explode(b + PageBreak + t) == [b] + Explode(t)
    decreases |b|
  {
    var s := b + PageBreak + t;
    if b == [] {
      assert s == PageBreak + t;
      assert s[|PageBreak|..] == t;
    } else {
      NoBreakAtStart(b, t);
      NoBreakTail(b);
      assert s[1..] == b[1..] + PageBreak + t;
      ExplodeBreak(b[1..], t);
      ExplodeCopies(s);
      assert [b[0]] + b[1..] == b;
    }
  }

  /** A character that does not start a page break joins the first piece of the rest. */
  lemma ExplodeCopies(s: string)
    requires s != [] && !(PageBreak <= s)
    ensures Explode(s) == [[s[0]] + Explode(s[1..])[0]] + Explode(s[1..])[1..]
  {
  }

  /** A non-empty piece without a page break does not start one, even with a page break after it. */
  lemma NoBreakAtStart(b: string, t: string)
    requires b != [] && NoBreak(b)
    ensures !(PageBreak <= b + PageBreak + t)
  {
    var s := b + PageBreak + t;
    if |b| >= |PageBreak| {
      assert !BreakAt(b, 0);
      assert s[..|PageBreak|] == b[..|PageBreak|] == b[0..|PageBreak|];
    } else {
      BreakNotInsideItself(b, t);
    }
  }

  /** The flattened content splits back into exactly the blocks it was joined from. */
  lemma {:induction false} ExplodeJoinPages(blocks: seq<string>)
    requires blocks != []
    requires forall i :: 0 <= i < |blocks| ==> NoBreak(blocks[i])
    ensures Explode(JoinPages(blocks)) == blocks
    decreases |blocks|
  {
    if |blocks| == 1 {
      ExplodeNoBreak(blocks[0]);
    } else {
      ExplodeBreak(blocks[0], JoinPages(blocks[1..]));
      ExplodeJoinPages(blocks[1..]);
    }
  }

  /**
   * K slides whose blocks hold no page break of their own become exactly K
   * pages, one per slide in order; no slides give empty content.
   */
  lemma FlattenedSlidesPaginate(slides: seq<Record>, r: Renderer)
    requires forall i :: 0 <= i < |slides| ==> NoBreak(SlideBlock(slides[i], r))
    ensures slides == [] ==> JoinPages(Blocks(slides, r)) == ""
    ensures slides != [] ==> Explode(JoinPages(Blocks(slides, r))) == Blocks(slides, r)
  {
    if slides != [] {
      ExplodeJoinPages(Blocks(slides, r));
    }
  }
}
