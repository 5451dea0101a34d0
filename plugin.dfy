/** The back end of the plugin, class `MultiSlider` of includes/MultiSliderPlugin.php: the
    request handlers that insert and delete rows of the two tables, and the `[multi_slider]`
    shortcode that picks the slides to render. The database, the request parameters and the
    WordPress functions the handlers call are parameters of the model. */
module MultiSliderPlugin {
  import opened Numerals
  import opened PhpNumber
  import opened SliderTables

  /** The WordPress functions the handlers call and the model does not define: nonce
      verification (`wp_verify_nonce(nonce, action)`, true for 1 and 2), the sanitising and
      escaping filters, and `wp_get_attachment_image_src(id, 'large')` reduced to the URL
      it returns first (None for `false`). */
  datatype WordPress = WordPress(
    verifyNonce: (string, string) -> bool,
    sanitizeTextField: string -> string,
    sanitizeTitle: string -> string,
    sanitizeTextareaField: string -> string,
    escUrl: string -> string,
    escAttr: string -> string,
    escHtml: string -> string,
    largeImageSrc: int -> Option<string>)

  /** `$_GET`, `$_POST` or the shortcode attributes: parameter names to string values. */
  type Params = map<string, string>

  /** Both tables. */
  datatype Db = Db(sliders: seq<Slider>, slides: seq<Slide>)

  /** The key constraints of both tables hold. */
  predicate Consistent(db: Db)
  {
    SliderKeysUnique(db.sliders) && SlideIdsUnique(db.slides)
  }

  /** `$p[key]` as the sanitisers and `intval` receive it: a missing parameter is null,
      which both read as the empty string. */
  function Param(p: Params, key: string): string
  {
    if key in p then p[key] else ""
  }

  // ---------------------------------------------------------------------------------------
  // Submissions (lines 249-289)

  /** The guard of lines 250-254: the nonce field is present and verifies for
      `multi_slider_create_nonce`, and the `create_slider` button was sent. */
  predicate SliderFormAccepted(post: Params, wp: WordPress)
  {
    && "multi_slider_nonce" in post
    && wp.verifyNonce(post["multi_slider_nonce"], "multi_slider_create_nonce")
    && "create_slider" in post
  }

  /** The row of lines 257-261; `id` is the AUTO_INCREMENT value the database assigns. */
  function SliderFromForm(post: Params, wp: WordPress, id: int): Slider
  {
    Slider(id, wp.sanitizeTextField(Param(post, "slider_title")),
      wp.sanitizeTitle(Param(post, "slider_slug")),
      wp.sanitizeTextareaField(Param(post, "slider_description")))
  }

  /** The guard of lines 271-275. */
  predicate SlideFormAccepted(post: Params, wp: WordPress)
  {
    && "multi_slide_nonce" in post
    && wp.verifyNonce(post["multi_slide_nonce"], "multi_slide_create_nonce")
    && "create_slide" in post
  }

  /** The row of lines 278-285; `sort_order` takes its column default 0. */
  function SlideFromForm(post: Params, wp: WordPress, id: int): Slide
  {
    Slide(id, IntVal(Param(post, "slider_id")), wp.sanitizeTextField(Param(post, "slide_title")),
      IntVal(Param(post, "slide_image_id")), wp.escUrl(Param(post, "slide_link")),
      wp.sanitizeTextareaField(Param(post, "slide_description")),
      wp.sanitizeTextField(Param(post, "slide_alt")), 0)
  }

  /** The tables after `handle_slider_submission`. */
  function SliderSubmitted(db: Db, post: Params, wp: WordPress, id: int): Db
  {
    if SliderFormAccepted(post, wp) then db.(sliders := InsertSlider(db.sliders, SliderFromForm(post, wp, id)))
    else db
  }

  /** The tables after `handle_slide_submission`. */
  function SlideSubmitted(db: Db, post: Params, wp: WordPress, id: int): Db
  {
    if SlideFormAccepted(post, wp) then db.(slides := InsertSlide(db.slides, SlideFromForm(post, wp, id)))
    else db
  }

  /** A slider row is added exactly when the nonce verifies, the button was sent, the
      slug and title fit their columns and the row's id and slug are free; the row added is the one built from the form, at the end,
      and the slides table never changes. Otherwise nothing changes. */
  lemma SliderInsertGated(db: Db, post: Params, wp: WordPress, id: int)
    requires Consistent(db)
    ensures var r := SliderSubmitted(db, post, wp, id);
      && r.slides == db.slides
      && (r.sliders == db.sliders + [SliderFromForm(post, wp, id)] <==>
           SliderFormAccepted(post, wp) && SliderFits(SliderFromForm(post, wp, id))
           && forall x :: x in db.sliders ==> x.id != id && x.slug != SliderFromForm(post, wp, id).slug)
      && (r.sliders == db.sliders || r.sliders == db.sliders + [SliderFromForm(post, wp, id)])
      && (!SliderFormAccepted(post, wp) ==> r == db)
  {
    var row := SliderFromForm(post, wp, id);
    InsertSliderKeepsKeysUnique(db.sliders, row);
    assert |db.sliders + [row]| != |db.sliders|;
  }

  /** A slide row is added exactly when the nonce verifies, the button was sent, the
      title, link and alt text fit their columns and the id is free; otherwise nothing
      changes. */
  lemma SlideInsertGated(db: Db, post: Params, wp: WordPress, id: int)
    requires Consistent(db)
    ensures var r := SlideSubmitted(db, post, wp, id);
      && r.sliders == db.sliders
      && (r.slides == db.slides + [SlideFromForm(post, wp, id)] <==>
           SlideFormAccepted(post, wp) && SlideFits(SlideFromForm(post, wp, id))
           && forall x :: x in db.slides ==> x.id != id)
      && (r.slides == db.slides || r.slides == db.slides + [SlideFromForm(post, wp, id)])
      && (!SlideFormAccepted(post, wp) ==> r == db)
  {
    var row := SlideFromForm(post, wp, id);
    InsertSlideKeepsIdsUnique(db.slides, row);
    assert |db.slides + [row]| != |db.slides|;
  }

  /** A request without the nonce field changes nothing, whatever else it carries. */
  lemma NoNonceNoInsert(db: Db, post: Params, wp: WordPress, id: int)
    requires "multi_slider_nonce" !in post && "multi_slide_nonce" !in post
    ensures SliderSubmitted(db, post, wp, id) == db
    ensures SlideSubmitted(db, post, wp, id) == db
  {
  }

  // ---------------------------------------------------------------------------------------
  // Deletions (lines 349-388)

  /** The guard of lines 352 and 375: `action` is exactly `action` and an `id` is given. */
  predicate AsksFor(get: Params, action: string)
  {
    "action" in get && get["action"] == action && "id" in get
  }

  /** Lines 356-365: first the slides of slider `id`, then the slider row itself. */
  function DeleteSliderCascade(db: Db, id: int): Db
  {
    Db(DeleteSliderRow(db.sliders, id), Select(db.slides, SliderIdIsNot(id)))
  }

  /** Lines 379-382. */
  function DeleteSlide(db: Db, id: int): Db
  {
    db.(slides := Select(db.slides, IdIsNot(id)))
  }

  /** The tables after `handle_slider_deletion`. */
  function SliderDeletionHandled(db: Db, get: Params): Db
  {
    if AsksFor(get, "delete_slider") then DeleteSliderCascade(db, IntVal(get["id"])) else db
  }

  /** The tables after `handle_slide_deletion`. */
  function SlideDeletionHandled(db: Db, get: Params): Db
  {
    if AsksFor(get, "delete_slide") then DeleteSlide(db, IntVal(get["id"])) else db
  }

  /** `init` (lines 54-59) without the table creation: the slider deletion, and the slide
      deletion unless the former redirected and exited. */
  function Initialized(db: Db, get: Params): Db
  {
    if AsksFor(get, "delete_slider") then SliderDeletionHandled(db, get) else SlideDeletionHandled(db, get)
  }

  /** The cascade removes slider `id` and every slide of it, and nothing else: the rows
      left are exactly the others, the slides removed are exactly those of slider `id`, and
      every other slider keeps its slides in their order. */
  lemma CascadeDeletesExactly(db: Db, id: int)
    ensures var r := DeleteSliderCascade(db, id);
      && (forall x :: x in r.sliders <==> x in db.sliders && x.id != id)
      && (forall x :: x in r.slides <==> x in db.slides && x.sliderId != id)
      && multiset(db.slides) == multiset(Select(db.slides, SliderIdIs(id))) + multiset(r.slides)
  {
    DeleteSliderMembers(db.sliders, id);
    SelectMembers(db.slides, SliderIdIsNot(id));
    SelectSplits(db.slides, id);
  }

  /** Another slider's slides are untouched by the cascade, in content and order. */
  lemma CascadeKeepsOtherSliders(db: Db, id: int, other: int)
    requires other != id
    ensures Select(DeleteSliderCascade(db, id).slides, SliderIdIs(other)) == Select(db.slides, SliderIdIs(other))
  {
    var s := Select(db.slides, SliderIdIs(other));
    SelectCommutes(db.slides, SliderIdIsNot(id), SliderIdIs(other));
    SelectMembers(db.slides, SliderIdIs(other));
    assert forall k :: 0 <= k < |s| ==> s[k] in s;
    SelectKeepsAll(s, SliderIdIsNot(id));
  }

  /** With unique ids, deleting slide row i removes that row alone and keeps the order of
      the others; the sliders table is unchanged. */
  lemma SlideDeleteRemovesOne(db: Db, i: int)
    requires Consistent(db) && 0 <= i < |db.slides|
    ensures DeleteSlide(db, db.slides[i].id) == db.(slides := db.slides[..i] + db.slides[i + 1..])
  {
    DeleteByUniqueId(db.slides, i);
  }

  /** Deleting an id no slide has changes nothing. */
  lemma SlideDeleteOfUnknownId(db: Db, id: int)
    requires forall x :: x in db.slides ==> x.id != id
    ensures DeleteSlide(db, id) == db
  {
    assert forall k :: 0 <= k < |db.slides| ==> db.slides[k] in db.slides;
    SelectKeepsAll(db.slides, IdIsNot(id));
  }

  /** The deletion links the admin page prints, `...&action=delete_slide&id=<k>` and
      `...&action=delete_slider&id=<k>` (lines 325, 339), reach the handlers with id k. */
  lemma DeleteLinksRoundTrip(db: Db, k: int)
    requires PhpIntMin <= k <= PhpIntMax
    ensures SlideDeletionHandled(db, map["action" := "delete_slide", "id" := ShowInt(k)]) == DeleteSlide(db, k)
    ensures SliderDeletionHandled(db, map["action" := "delete_slider", "id" := ShowInt(k)]) == DeleteSliderCascade(db, k)
  {
    IntValOfShow(k);
  }

  /** A request that asks for no deletion leaves both tables as they are. */
  lemma OtherRequestsDeleteNothing(db: Db, get: Params)
    requires "action" !in get || (get["action"] != "delete_slider" && get["action"] != "delete_slide")
    ensures Initialized(db, get) == db
  {
  }

  /** The slider insert handler keeps the key constraints. */
  lemma SliderSubmissionKeepsConsistent(db: Db, post: Params, wp: WordPress, id: int)
    requires Consistent(db)
    ensures Consistent(SliderSubmitted(db, post, wp, id))
  {
    InsertSliderKeepsKeysUnique(db.sliders, SliderFromForm(post, wp, id));
  }

  /** The slide insert handler keeps the key constraints. */
  lemma SlideSubmissionKeepsConsistent(db: Db, post: Params, wp: WordPress, id: int)
    requires Consistent(db)
    ensures Consistent(SlideSubmitted(db, post, wp, id))
  {
    InsertSlideKeepsIdsUnique(db.slides, SlideFromForm(post, wp, id));
  }

  /** The deletion pass of `init` keeps the key constraints. */
  lemma DeletionsKeepConsistent(db: Db, get: Params)
    requires Consistent(db)
    ensures Consistent(Initialized(db, get))
  {
    if AsksFor(get, "delete_slider") {
      var k := IntVal(get["id"]);
      DeleteSliderKeepsKeysUnique(db.sliders, k);
      SelectKeepsIdsUnique(db.slides, SliderIdIsNot(k));
    } else if AsksFor(get, "delete_slide") {
      SelectKeepsIdsUnique(db.slides, IdIsNot(IntVal(get["id"])));
    }
  }

  // ---------------------------------------------------------------------------------------
  // The shortcode (lines 396-448)

  /** `shortcode_atts(['id' => ''], $atts)['id']`: the slug asked for. */
  function ShortcodeSlug(atts: Params): string
  {
    Param(atts, "id")
  }

  /** The result of `SELECT * FROM slides WHERE slider_id = %d ORDER BY sort_order`
      (lines 413-418); rows with the same sort order are taken in table order. */
  function SlideRows(slides: seq<Slide>, sliderId: int): seq<Slide>
  {
    SortByOrder(Select(slides, SliderIdIs(sliderId)))
  }

  /** The rows that the loop of lines 428-444 renders: those with a large image. */
  function ShownSlides(slides: seq<Slide>, sliderId: int, wp: WordPress): seq<Slide>
  {
    Select(SlideRows(slides, sliderId), HasImage(wp.largeImageSrc))
  }

  /** One `<div class="slide">` of lines 432-443: link, image source, alt text, title and
      description, each through its escaping function. */
  datatype SlideMarkup = SlideMarkup(href: string, src: string, alt: string, title: string, description: string)

  /** What the shortcode returns: `''`, or the `<div class="multi-slider">` wrapper with
      its `data-slider-id` and the slides inside it. */
  datatype ShortcodeOutput = Blank | Wrapper(dataSliderId: string, slides: seq<SlideMarkup>)

  function RenderSlide(x: Slide, src: string, wp: WordPress): SlideMarkup
  {
    SlideMarkup(wp.escUrl(x.linkUrl), wp.escUrl(src), wp.escAttr(x.altText), wp.escHtml(x.title), wp.escHtml(x.description))
  }

  /** The URL of the large image of row x, `$image[0]`. */
  function ImageUrl(x: Slide, wp: WordPress): string
  {
    match wp.largeImageSrc(x.imageId)
    case Some(u) => u
    case None => ""
  }

  /** The markup of each row, in order. */
  function RenderAll(rows: seq<Slide>, wp: WordPress): (r: seq<SlideMarkup>)
    ensures |r| == |rows|
  {
    if rows == [] then [] else [RenderSlide(rows[0], ImageUrl(rows[0], wp), wp)] + RenderAll(rows[1..], wp)
  }

  /** Slide i of the markup is rendered from row i. */
  lemma {:induction false} RenderAllAt(rows: seq<Slide>, wp: WordPress, i: int)
    requires 0 <= i < |rows|
    ensures RenderAll(rows, wp)[i] == RenderSlide(rows[i], ImageUrl(rows[i], wp), wp)
  {
    if i > 0 {
      RenderAllAt(rows[1..], wp, i - 1);
    }
  }

  lemma {:induction false} RenderAllAppend(a: seq<Slide>, b: seq<Slide>, wp: WordPress)
    ensures RenderAll(a + b, wp) == RenderAll(a, wp) + RenderAll(b, wp)
  {
    if a == [] {
      assert a + b == b;
    } else {
      Uncons(a);
      ConsAppend(a[0], a[1..], b);
      RenderAllAppend(a[1..], b, wp);
    }
  }

  /** One turn of the loop of lines 428-444: row i is rendered when it has an image and
      skipped (`continue`) otherwise. */
  lemma RenderStep(rows: seq<Slide>, i: int, wp: WordPress)
    requires 0 <= i < |rows|
    ensures var img := HasImage(wp.largeImageSrc);
      RenderAll(Select(rows[..i + 1], img), wp) ==
      RenderAll(Select(rows[..i], img), wp) +
        match wp.largeImageSrc(rows[i].imageId)
        case None => []
        case Some(u) => [RenderSlide(rows[i], u, wp)]
  {
    var img := HasImage(wp.largeImageSrc);
    TakeOneMore(rows, i);
    SelectAppend(rows[..i], [rows[i]], img);
    SelectCons(rows[i], [], img);
    RenderAllAppend(Select(rows[..i], img), Select([rows[i]], img), wp);
  }

  /** `render_slider_shortcode`. */
  function Shortcode(db: Db, atts: Params, wp: WordPress): ShortcodeOutput
  {
    var slug := ShortcodeSlug(atts);
    match FindBySlug(db.sliders, slug)
    case None => Blank
    case Some(slider) =>
      if SlideRows(db.slides, slider.id) == [] then Blank
      else Wrapper(wp.escAttr(slug), RenderAll(ShownSlides(db.slides, slider.id, wp), wp))
  }

  /** The query of lines 413-418 returns no row exactly when the slider has no slide. */
  lemma SlideRowsEmpty(slides: seq<Slide>, sliderId: int)
    ensures SlideRows(slides, sliderId) == [] <==> forall x :: x in slides ==> x.sliderId != sliderId
  {
    var s := Select(slides, SliderIdIs(sliderId));
    SelectMembers(slides, SliderIdIs(sliderId));
    if s != [] {
      assert s[0] in s;
    }
  }

  /** The two `''` exits (lines 409-411, 420-422): the shortcode is `''` exactly when no
      slider has the slug, or the first one that has it has no slide row. */
  lemma ShortcodeBlankExactly(db: Db, atts: Params, wp: WordPress)
    ensures Shortcode(db, atts, wp) == Blank <==>
      match FindBySlug(db.sliders, ShortcodeSlug(atts))
      case None => true
      case Some(slider) => forall x :: x in db.slides ==> x.sliderId != slider.id
  {
    match FindBySlug(db.sliders, ShortcodeSlug(atts))
    case None =>
    case Some(slider) => SlideRowsEmpty(db.slides, slider.id);
  }

  /** An unknown slug gives `''`. */
  lemma UnknownSlugIsBlank(db: Db, atts: Params, wp: WordPress)
    requires forall x :: x in db.sliders ==> x.slug != ShortcodeSlug(atts)
    ensures Shortcode(db, atts, wp) == Blank
  {
  }

  /** A slider whose slides all lack an image gives the wrapper with no slide in it,
      not `''`. */
  lemma NoImageGivesEmptyWrapper(db: Db, atts: Params, wp: WordPress, slider: Slider, x: Slide)
    requires FindBySlug(db.sliders, ShortcodeSlug(atts)) == Some(slider)
    requires x in db.slides && x.sliderId == slider.id
    requires forall y :: y in db.slides && y.sliderId == slider.id ==> wp.largeImageSrc(y.imageId).None?
    ensures Shortcode(db, atts, wp) == Wrapper(wp.escAttr(ShortcodeSlug(atts)), [])
  {
    SlideRowsEmpty(db.slides, slider.id);
    var t := Select(db.slides, SliderIdIs(slider.id));
    var img := HasImage(wp.largeImageSrc);
    SelectMembers(db.slides, SliderIdIs(slider.id));
    assert forall k :: 0 <= k < |t| ==> !Holds(img, t[k]) by {
      assert forall k :: 0 <= k < |t| ==> t[k] in t;
    }
    SelectKeepsNone(t, img);
    SortSelectPermutation(t, img);
    assert |Select(SortByOrder(t), img)| == |multiset(Select(SortByOrder(t), img))|;
  }

  /** The slides shown are the slider's rows with an image, each as often as in the table. */
  lemma ShownSlidesPermutation(slides: seq<Slide>, sliderId: int, wp: WordPress)
    ensures multiset(ShownSlides(slides, sliderId, wp))
      == multiset(Select(Select(slides, SliderIdIs(sliderId)), HasImage(wp.largeImageSrc)))
  {
    SortSelectPermutation(Select(slides, SliderIdIs(sliderId)), HasImage(wp.largeImageSrc));
  }

  /** A row is shown exactly when it belongs to the slider and has an image. */
  lemma ShownSlidesExactly(slides: seq<Slide>, sliderId: int, wp: WordPress)
    ensures forall x :: x in ShownSlides(slides, sliderId, wp) <==>
      x in slides && x.sliderId == sliderId && wp.largeImageSrc(x.imageId).Some?
  {
    var t := Select(slides, SliderIdIs(sliderId));
    var img := HasImage(wp.largeImageSrc);
    var shown := ShownSlides(slides, sliderId, wp);
    ShownSlidesPermutation(slides, sliderId, wp);
    SelectMembers(slides, SliderIdIs(sliderId));
    SelectMembers(t, img);
    forall x
      ensures x in shown <==> x in Select(t, img)
    {
      assert x in shown <==> x in multiset(shown);
      assert x in Select(t, img) <==> x in multiset(Select(t, img));
    }
  }

  /** When the shortcode renders the wrapper, it carries the escaped slug, and slide i of
      it is the markup of the i-th shown row with that row's large image URL. */
  lemma ShortcodeRendersShown(db: Db, atts: Params, wp: WordPress, slider: Slider)
    requires FindBySlug(db.sliders, ShortcodeSlug(atts)) == Some(slider)
    requires Shortcode(db, atts, wp).Wrapper?
    ensures var out := Shortcode(db, atts, wp);
      var shown := ShownSlides(db.slides, slider.id, wp);
      && out.dataSliderId == wp.escAttr(ShortcodeSlug(atts))
      && |out.slides| == |shown|
      && forall i :: 0 <= i < |shown| ==>
        wp.largeImageSrc(shown[i].imageId).Some? &&
        out.slides[i] == RenderSlide(shown[i], wp.largeImageSrc(shown[i].imageId).value, wp)
  {
    var shown := ShownSlides(db.slides, slider.id, wp);
    SelectMembers(SlideRows(db.slides, slider.id), HasImage(wp.largeImageSrc));
    forall i | 0 <= i < |shown|
      ensures wp.largeImageSrc(shown[i].imageId).Some?
      ensures RenderAll(shown, wp)[i] == RenderSlide(shown[i], wp.largeImageSrc(shown[i].imageId).value, wp)
    {
      assert shown[i] in shown;
      RenderAllAt(shown, wp, i);
    }
  }

  /** The slides shown come in non-decreasing sort order. */
  lemma ShownSlidesSorted(slides: seq<Slide>, sliderId: int, wp: WordPress)
    ensures SortedByOrder(ShownSlides(slides, sliderId, wp))
  {
    SortIsSorted(Select(slides, SliderIdIs(sliderId)));
    SelectKeepsSorted(SlideRows(slides, sliderId), HasImage(wp.largeImageSrc));
  }

  /** Stability: the shown slides that share a sort order appear in table order. */
  lemma ShownSlidesStable(slides: seq<Slide>, sliderId: int, wp: WordPress, v: int)
    ensures Select(ShownSlides(slides, sliderId, wp), SortOrderIs(v))
      == Select(Select(Select(slides, SliderIdIs(sliderId)), HasImage(wp.largeImageSrc)), SortOrderIs(v))
  {
    var t := Select(slides, SliderIdIs(sliderId));
    var img := HasImage(wp.largeImageSrc);
    SelectCommutes(SortByOrder(t), img, SortOrderIs(v));
    SortIsStable(t, v);
    SelectCommutes(t, SortOrderIs(v), img);
  }

  /** Selecting after the sort keeps the same rows as selecting before it. */
  lemma {:induction false} SortSelectPermutation(s: seq<Slide>, c: Condition)
    ensures multiset(Select(SortByOrder(s), c)) == multiset(Select(s, c))
  {
    if s != [] {
      var t := s[1..];
      SortSelectPermutation(t, c);
      InsertSelectPermutation(s[0], SortByOrder(t), c);
      SelectCons(s[0], SortByOrder(t), c);
      Uncons(s);
      SelectCons(s[0], t, c);
    }
  }

  lemma {:induction false} InsertSelectPermutation(x: Slide, s: seq<Slide>, c: Condition)
    ensures multiset(Select(InsertByOrder(x, s), c)) == multiset(Select([x] + s, c))
  {
    if s != [] && x.sortOrder > s[0].sortOrder {
      var t := s[1..];
      InsertSelectPermutation(x, t, c);
      SelectCons(s[0], InsertByOrder(x, t), c);
      SelectCons(x, t, c);
      SelectCons(x, s, c);
      Uncons(s);
      SelectCons(s[0], t, c);
    }
  }

  /** Once a slider is deleted its slug renders `''`. */
  lemma DeletedSliderRendersBlank(db: Db, i: int, atts: Params, wp: WordPress)
    requires Consistent(db) && 0 <= i < |db.sliders| && db.sliders[i].slug == ShortcodeSlug(atts)
    ensures Shortcode(DeleteSliderCascade(db, db.sliders[i].id), atts, wp) == Blank
  {
    var t := db.sliders;
    DeleteSliderMembers(t, t[i].id);
    forall x | x in DeleteSliderRow(t, t[i].id)
      ensures x.slug != ShortcodeSlug(atts)
    {
      var k :| 0 <= k < |t| && t[k] == x;
      assert k != i;
    }
    assert FindBySlug(DeleteSliderRow(t, t[i].id), ShortcodeSlug(atts)).None?;
  }

  /** Once a slide is deleted it is shown by no slider. */
  lemma DeletedSlideNotShown(db: Db, id: int, sliderId: int, wp: WordPress)
    ensures forall x :: x in ShownSlides(DeleteSlide(db, id).slides, sliderId, wp) ==> x.id != id
  {
    var s := DeleteSlide(db, id).slides;
    ShownSlidesExactly(s, sliderId, wp);
    SelectMembers(db.slides, IdIsNot(id));
  }

  // ---------------------------------------------------------------------------------------

  /** The plugin's two tables, changed in place by the request handlers. */
  class MultiSlider {
    var sliders: seq<Slider>
    var slides: seq<Slide>

    ghost function State(): Db
      reads this
    {
      Db(sliders, slides)
    }

    ghost predicate Valid()
      reads this
    {
      Consistent(State())
    }

    /** The tables as the plugin finds them. */
    constructor (sliders: seq<Slider>, slides: seq<Slide>)
      requires Consistent(Db(sliders, slides))
      ensures Valid() && State() == Db(sliders, slides)
    {
      this.sliders := sliders;
      this.slides := slides;
    }

    /** `handle_slider_submission`, lines 249-265; `newId` is the AUTO_INCREMENT value. */
    method HandleSliderSubmission(post: Params, wp: WordPress, newId: int)
      requires Valid()
      modifies this
      ensures Valid() && State() == SliderSubmitted(old(State()), post, wp, newId)
    {
      if "multi_slider_nonce" in post && wp.verifyNonce(post["multi_slider_nonce"], "multi_slider_create_nonce")
        && "create_slider" in post
      {
        var data := SliderFromForm(post, wp, newId);
        InsertSliderKeepsKeysUnique(sliders, data);
        sliders := InsertSlider(sliders, data);
      }
    }

    /** `handle_slide_submission`, lines 270-289. */
    method HandleSlideSubmission(post: Params, wp: WordPress, newId: int)
      requires Valid()
      modifies this
      ensures Valid() && State() == SlideSubmitted(old(State()), post, wp, newId)
    {
      if "multi_slide_nonce" in post && wp.verifyNonce(post["multi_slide_nonce"], "multi_slide_create_nonce")
        && "create_slide" in post
      {
        var data := SlideFromForm(post, wp, newId);
        InsertSlideKeepsIdsUnique(slides, data);
        slides := InsertSlide(slides, data);
      }
    }

    /** `handle_slider_deletion`, lines 349-371; `exits` tells that the redirect and `exit`
        of lines 368-369 were reached. */
    method HandleSliderDeletion(get: Params) returns (exits: bool)
      requires Valid()
      modifies this
      ensures Valid() && State() == SliderDeletionHandled(old(State()), get)
      ensures exits == AsksFor(get, "delete_slider")
    {
      exits := false;
      if "action" in get && get["action"] == "delete_slider" && "id" in get {
        var sliderId := IntVal(get["id"]);
        SelectKeepsIdsUnique(slides, SliderIdIsNot(sliderId));
        slides := Select(slides, SliderIdIsNot(sliderId));
        DeleteSliderKeepsKeysUnique(sliders, sliderId);
        sliders := DeleteSliderRow(sliders, sliderId);
        exits := true;
      }
    }

    /** `handle_slide_deletion`, lines 372-388. */
    method HandleSlideDeletion(get: Params) returns (exits: bool)
      requires Valid()
      modifies this
      ensures Valid() && State() == SlideDeletionHandled(old(State()), get)
      ensures exits == AsksFor(get, "delete_slide")
    {
      exits := false;
      if "action" in get && get["action"] == "delete_slide" && "id" in get {
        var slideId := IntVal(get["id"]);
        SelectKeepsIdsUnique(slides, IdIsNot(slideId));
        slides := Select(slides, IdIsNot(slideId));
        exits := true;
      }
    }

    /** `init`, lines 54-59, without the table creation. */
    method Init(get: Params)
      requires Valid()
      modifies this
      ensures Valid() && State() == Initialized(old(State()), get)
    {
      var exits := HandleSliderDeletion(get);
      if !exits {
        exits := HandleSlideDeletion(get);
      }
    }

    /** `render_slider_shortcode`, lines 396-448. */
    method RenderSliderShortcode(atts: Params, wp: WordPress) returns (out: ShortcodeOutput)
      ensures out == Shortcode(State(), atts, wp)
    {
      var slug := ShortcodeSlug(atts);
      var slider := FindBySlug(sliders, slug);
      if slider.None? {
        return Blank;
      }
      var rows := SlideRows(slides, slider.value.id);
      if rows == [] {
        return Blank;
      }
      var img := HasImage(wp.largeImageSrc);
      var rendered: seq<SlideMarkup> := [];
      for i := 0 to |rows|
        invariant rendered == RenderAll(Select(rows[..i], img), wp)
      {
        RenderStep(rows, i, wp);
        var image := wp.largeImageSrc(rows[i].imageId);
        if image.None? {
          continue;
        }
        rendered := rendered + [RenderSlide(rows[i], image.value, wp)];
      }
      assert rows[..|rows|] == rows;
      assert rendered == RenderAll(ShownSlides(slides, slider.value.id, wp), wp);
      return Wrapper(wp.escAttr(slug), rendered);
    }
  }
}
