/** The two tables of the plugin, `{prefix}multi_slider_groups` (sliders) and
    `{prefix}multi_slider_slides` (slides), as sequences of rows in table order, with the row
    selections, orderings and key constraints that the plugin's queries rely on. */
module SliderTables {

  datatype Option<T> = None | Some(value: T)

  /** A row of the sliders table (`created_at` is not modelled). */
  datatype Slider = Slider(id: int, title: string, slug: string, description: string)

  /** A row of the slides table (`created_at` is not modelled). */
  datatype Slide = Slide(
    id: int, sliderId: int, title: string, imageId: int,
    linkUrl: string, description: string, altText: string, sortOrder: int)

  /** PRIMARY KEY (id) and UNIQUE slug of the sliders table. */
  predicate SliderKeysUnique(t: seq<Slider>)
  {
    forall i, j :: 0 <= i < j < |t| ==> t[i].id != t[j].id && t[i].slug != t[j].slug
  }

  /** PRIMARY KEY (id) of the slides table. */
  predicate SlideIdsUnique(t: seq<Slide>)
  {
    forall i, j :: 0 <= i < j < |t| ==> t[i].id != t[j].id
  }

  /** The conditions by which the plugin picks slide rows: the WHERE clause of the
      shortcode's query, the rows a delete keeps (those where its WHERE clause fails), and
      the image test of the shortcode loop (`src` stands for `wp_get_attachment_image_src`,
      None for its `false`); sort order picks the rows of one rank. */
  datatype Condition =
    | SliderIdIs(sliderId: int)
    | SliderIdIsNot(sliderId: int)
    | IdIsNot(id: int)
    | SortOrderIs(sortOrder: int)
    | HasImage(src: int -> Option<string>)

  predicate Holds(c: Condition, x: Slide)
  {
    match c
    case SliderIdIs(j) => x.sliderId == j
    case SliderIdIsNot(j) => x.sliderId != j
    case IdIsNot(j) => x.id != j
    case SortOrderIs(v) => x.sortOrder == v
    case HasImage(src) => src(x.imageId).Some?
  }

  /** The rows of `s` that satisfy `c`, in table order. */
  function Select(s: seq<Slide>, c: Condition): (r: seq<Slide>)
    ensures |r| <= |s|
  {
    if s == [] then []
    else if Holds(c, s[0]) then [s[0]] + Select(s[1..], c)
    else Select(s[1..], c)
  }

  /** One step of `Select` on a table written as its first row and the rest. */
  lemma SelectCons(x: Slide, u: seq<Slide>, c: Condition)
    ensures Select([x] + u, c) == if Holds(c, x) then [x] + Select(u, c) else Select(u, c)
  {
    assert ([x] + u)[1..] == u;
  }

  /** The selected rows are exactly the rows that satisfy the condition. */
  lemma {:induction false} SelectMembers(s: seq<Slide>, c: Condition)
    ensures forall x :: x in Select(s, c) <==> x in s && Holds(c, x)
  {
    if s != [] {
      SelectMembers(s[1..], c);
      Uncons(s);
    }
  }

  lemma {:induction false} SelectAppend(a: seq<Slide>, b: seq<Slide>, c: Condition)
    ensures Select(a + b, c) == Select(a, c) + Select(b, c)
  {
    if a == [] {
      assert a + b == b;
    } else {
      SelectAppend(a[1..], b, c);
      Uncons(a);
      SelectAppendStep(a[0], a[1..], b, c);
    }
  }

  /** The inductive step of `SelectAppend`: one more row in front of the first table. */
  lemma SelectAppendStep(x: Slide, t: seq<Slide>, b: seq<Slide>, c: Condition)
    requires Select(t + b, c) == Select(t, c) + Select(b, c)
    ensures Select(([x] + t) + b, c) == Select([x] + t, c) + Select(b, c)
  {
    ConsAppend(x, t, b);
    SelectCons(x, t + b, c);
    SelectCons(x, t, c);
    if Holds(c, x) {
      ConsAppend(x, Select(t, c), Select(b, c));
    }
  }

  lemma Uncons<T>(s: seq<T>)
    requires s != []
    ensures s == [s[0]] + s[1..]
  {
  }

  lemma TakeOneMore<T>(s: seq<T>, i: int)
    requires 0 <= i < |s|
    ensures s[..i + 1] == s[..i] + [s[i]]
  {
  }

  lemma ConsAppend<T>(x: T, t: seq<T>, b: seq<T>)
    ensures ([x] + t) + b == [x] + (t + b)
  {
  }

  /** Every row belongs to slider `j` or not, and no row is lost or duplicated. */
  lemma {:induction false} SelectSplits(s: seq<Slide>, j: int)
    ensures multiset(s) == multiset(Select(s, SliderIdIs(j))) + multiset(Select(s, SliderIdIsNot(j)))
  {
    if s != [] {
      var x, t := s[0], s[1..];
      SelectSplits(t, j);
      Uncons(s);
      assert multiset(s) == multiset{x} + multiset(t);
      var a, b := Select(t, SliderIdIs(j)), Select(t, SliderIdIsNot(j));
      if x.sliderId == j {
        assert Select(s, SliderIdIs(j)) == [x] + a;
        assert Select(s, SliderIdIsNot(j)) == b;
        assert multiset([x] + a) == multiset{x} + multiset(a);
      } else {
        assert Select(s, SliderIdIs(j)) == a;
        assert Select(s, SliderIdIsNot(j)) == [x] + b;
        assert multiset([x] + b) == multiset{x} + multiset(b);
      }
    }
  }

  /** Selecting by two conditions does not depend on their order. */
  lemma {:induction false} SelectCommutes(s: seq<Slide>, c: Condition, d: Condition)
    ensures Select(Select(s, c), d) == Select(Select(s, d), c)
  {
    if s != [] {
      var x, t := s[0], s[1..];
      SelectCommutes(t, c, d);
      if Holds(c, x) {
        SelectCons(x, Select(t, c), d);
      }
      if Holds(d, x) {
        SelectCons(x, Select(t, d), c);
      }
    }
  }

  /** A condition that every row satisfies selects the whole table. */
  lemma {:induction false} SelectKeepsAll(s: seq<Slide>, c: Condition)
    requires forall k :: 0 <= k < |s| ==> Holds(c, s[k])
    ensures Select(s, c) == s
  {
    if s != [] {
      SelectKeepsAll(s[1..], c);
    }
  }

  /** A condition that no row satisfies selects nothing. */
  lemma {:induction false} SelectKeepsNone(s: seq<Slide>, c: Condition)
    requires forall k :: 0 <= k < |s| ==> !Holds(c, s[k])
    ensures Select(s, c) == []
  {
    if s != [] {
      SelectKeepsNone(s[1..], c);
    }
  }

  /** With unique ids, deleting the rows with the id of row i removes exactly row i and
      keeps the others in their order. */
  lemma DeleteByUniqueId(s: seq<Slide>, i: int)
    requires SlideIdsUnique(s) && 0 <= i < |s|
    ensures Select(s, IdIsNot(s[i].id)) == s[..i] + s[i + 1..]
  {
    var c := IdIsNot(s[i].id);
    var before, after := s[..i], s[i + 1..];
    KeepsRowsBefore(s, i);
    KeepsRowsAfter(s, i);
    SelectCons(s[i], after, c);
    SelectAppend(before, [s[i]] + after, c);
    SplitAt(s, i);
  }

  lemma SplitAt(s: seq<Slide>, i: int)
    requires 0 <= i < |s|
    ensures s == s[..i] + ([s[i]] + s[i + 1..])
  {
  }

  lemma KeepsRowsBefore(s: seq<Slide>, i: int)
    requires SlideIdsUnique(s) && 0 <= i < |s|
    ensures Select(s[..i], IdIsNot(s[i].id)) == s[..i]
  {
    var before := s[..i];
    assert forall k :: 0 <= k < |before| ==> before[k] == s[k];
    SelectKeepsAll(before, IdIsNot(s[i].id));
  }

  lemma KeepsRowsAfter(s: seq<Slide>, i: int)
    requires SlideIdsUnique(s) && 0 <= i < |s|
    ensures Select(s[i + 1..], IdIsNot(s[i].id)) == s[i + 1..]
  {
    var after := s[i + 1..];
    assert forall k :: 0 <= k < |after| ==> after[k] == s[i + 1 + k];
    SelectKeepsAll(after, IdIsNot(s[i].id));
  }

  /** No row of `s` has id `id`. */
  predicate IdAbsent(s: seq<Slide>, id: int)
  {
    forall k :: 0 <= k < |s| ==> s[k].id != id
  }

  lemma {:induction false} SelectKeepsIdAbsent(s: seq<Slide>, c: Condition, id: int)
    requires IdAbsent(s, id)
    ensures IdAbsent(Select(s, c), id)
  {
    if s != [] {
      SelectKeepsIdAbsent(s[1..], c, id);
    }
  }

  lemma UniqueCons(x: Slide, r: seq<Slide>)
    requires SlideIdsUnique(r) && IdAbsent(r, x.id)
    ensures SlideIdsUnique([x] + r)
  {
    var s := [x] + r;
    assert forall k :: 1 <= k < |s| ==> s[k] == r[k - 1];
  }

  /** Removing rows keeps the remaining ids unique. */
  lemma {:induction false} SelectKeepsIdsUnique(s: seq<Slide>, c: Condition)
    requires SlideIdsUnique(s)
    ensures SlideIdsUnique(Select(s, c))
  {
    if s != [] {
      var t := s[1..];
      assert SlideIdsUnique(t) && IdAbsent(t, s[0].id) by {
        assert forall k :: 0 <= k < |t| ==> t[k] == s[k + 1];
      }
      SelectKeepsIdsUnique(t, c);
      if Holds(c, s[0]) {
        SelectKeepsIdAbsent(t, c, s[0].id);
        UniqueCons(s[0], Select(t, c));
      }
    }
  }

  /** ORDER BY sort_order: non-decreasing sort order. */
  predicate SortedByOrder(s: seq<Slide>)
  {
    forall i, j :: 0 <= i < j < |s| ==> s[i].sortOrder <= s[j].sortOrder
  }

  /** No row of `s` has a sort order below `v`. */
  predicate OrderAtLeast(s: seq<Slide>, v: int)
  {
    forall k :: 0 <= k < |s| ==> v <= s[k].sortOrder
  }

  lemma SortedCons(x: Slide, r: seq<Slide>)
    requires SortedByOrder(r) && OrderAtLeast(r, x.sortOrder)
    ensures SortedByOrder([x] + r)
  {
    var s := [x] + r;
    assert forall k :: 1 <= k < |s| ==> s[k] == r[k - 1];
  }

  lemma SortedTail(s: seq<Slide>)
    requires SortedByOrder(s) && s != []
    ensures SortedByOrder(s[1..]) && OrderAtLeast(s[1..], s[0].sortOrder)
  {
    var t := s[1..];
    assert forall k :: 0 <= k < |t| ==> t[k] == s[k + 1];
  }

  /** Puts `x` in front of the first row whose sort order is not smaller. */
  function InsertByOrder(x: Slide, s: seq<Slide>): (r: seq<Slide>)
    ensures |r| == |s| + 1
  {
    if s == [] || x.sortOrder <= s[0].sortOrder then [x] + s
    else [s[0]] + InsertByOrder(x, s[1..])
  }

  /** The rows of `s` ordered by sort order, rows with equal sort order in table order. */
  function SortByOrder(s: seq<Slide>): (r: seq<Slide>)
    ensures |r| == |s|
  {
    if s == [] then [] else InsertByOrder(s[0], SortByOrder(s[1..]))
  }

  lemma {:induction false} InsertIsPermutation(x: Slide, s: seq<Slide>)
    ensures multiset(InsertByOrder(x, s)) == multiset(s) + multiset{x}
  {
    if s != [] && x.sortOrder > s[0].sortOrder {
      InsertIsPermutation(x, s[1..]);
      Uncons(s);
    }
  }

  /** The sort is a permutation: no row is lost, added or duplicated. */
  lemma {:induction false} SortIsPermutation(s: seq<Slide>)
    ensures multiset(SortByOrder(s)) == multiset(s)
  {
    if s != [] {
      SortIsPermutation(s[1..]);
      InsertIsPermutation(s[0], SortByOrder(s[1..]));
      Uncons(s);
    }
  }

  lemma {:induction false} InsertKeepsOrderAtLeast(x: Slide, s: seq<Slide>, v: int)
    requires OrderAtLeast(s, v) && v <= x.sortOrder
    ensures OrderAtLeast(InsertByOrder(x, s), v)
  {
    if s != [] && x.sortOrder > s[0].sortOrder {
      var t := s[1..];
      assert OrderAtLeast(t, v) by {
        assert forall k :: 0 <= k < |t| ==> t[k] == s[k + 1];
      }
      InsertKeepsOrderAtLeast(x, t, v);
      var r := InsertByOrder(x, t);
      assert forall k :: 1 <= k <= |r| ==> ([s[0]] + r)[k] == r[k - 1];
    }
  }

  lemma {:induction false} InsertKeepsSorted(x: Slide, s: seq<Slide>)
    requires SortedByOrder(s)
    ensures SortedByOrder(InsertByOrder(x, s))
  {
    if s == [] || x.sortOrder <= s[0].sortOrder {
      if s != [] {
        SortedTail(s);
        assert forall k :: 0 <= k < |s| ==> x.sortOrder <= s[k].sortOrder by {
          assert forall k :: 1 <= k < |s| ==> s[k] == s[1..][k - 1];
        }
      }
      SortedCons(x, s);
    } else {
      SortedTail(s);
      InsertKeepsSorted(x, s[1..]);
      InsertKeepsOrderAtLeast(x, s[1..], s[0].sortOrder);
      SortedCons(s[0], InsertByOrder(x, s[1..]));
    }
  }

  /** The sort yields non-decreasing sort order. */
  lemma {:induction false} SortIsSorted(s: seq<Slide>)
    ensures SortedByOrder(SortByOrder(s))
  {
    if s != [] {
      SortIsSorted(s[1..]);
      InsertKeepsSorted(s[0], SortByOrder(s[1..]));
    }
  }

  /** Inserting `x` keeps the relative order of the rows that share a sort order. */
  lemma {:induction false} InsertIsStable(x: Slide, s: seq<Slide>, v: int)
    ensures Select(InsertByOrder(x, s), SortOrderIs(v)) == Select([x] + s, SortOrderIs(v))
  {
    var c := SortOrderIs(v);
    if s != [] && x.sortOrder > s[0].sortOrder {
      var t := s[1..];
      InsertIsStable(x, t, v);
      SelectCons(s[0], InsertByOrder(x, t), c);
      SelectCons(x, t, c);
      SelectCons(x, s, c);
      Uncons(s);
      SelectCons(s[0], t, c);
    }
  }

  /** Stability: the rows of any one sort order come out of the sort in table order. */
  lemma {:induction false} SortIsStable(s: seq<Slide>, v: int)
    ensures Select(SortByOrder(s), SortOrderIs(v)) == Select(s, SortOrderIs(v))
  {
    if s != [] {
      var c := SortOrderIs(v);
      var t := s[1..];
      SortIsStable(t, v);
      InsertIsStable(s[0], SortByOrder(t), v);
      SelectCons(s[0], SortByOrder(t), c);
      Uncons(s);
      SelectCons(s[0], t, c);
    }
  }

  lemma {:induction false} SelectKeepsOrderAtLeast(s: seq<Slide>, c: Condition, v: int)
    requires OrderAtLeast(s, v)
    ensures OrderAtLeast(Select(s, c), v)
  {
    if s != [] {
      var t := s[1..];
      assert OrderAtLeast(t, v) by {
        assert forall k :: 0 <= k < |t| ==> t[k] == s[k + 1];
      }
      SelectKeepsOrderAtLeast(t, c, v);
      var r := Select(t, c);
      assert forall k :: 1 <= k <= |r| ==> ([s[0]] + r)[k] == r[k - 1];
    }
  }

  /** Dropping rows keeps a sorted sequence sorted. */
  lemma {:induction false} SelectKeepsSorted(s: seq<Slide>, c: Condition)
    requires SortedByOrder(s)
    ensures SortedByOrder(Select(s, c))
  {
    if s != [] {
      SortedTail(s);
      SelectKeepsSorted(s[1..], c);
      if Holds(c, s[0]) {
        SelectKeepsOrderAtLeast(s[1..], c, s[0].sortOrder);
        SortedCons(s[0], Select(s[1..], c));
      }
    }
  }

  /** `SELECT * ... WHERE slug = %s` with `get_row`: the first slider with that slug. */
  function FindBySlug(t: seq<Slider>, slug: string): (r: Option<Slider>)
    ensures r.Some? ==> r.value in t && r.value.slug == slug
    ensures r.None? <==> forall x :: x in t ==> x.slug != slug
  {
    if t == [] then None
    else if t[0].slug == slug then Some(t[0])
    else FindBySlug(t[1..], slug)
  }

  /** `$wpdb->delete` on the sliders table with `['id' => id]`. */
  function DeleteSliderRow(t: seq<Slider>, id: int): (r: seq<Slider>)
    ensures |r| <= |t|
  {
    if t == [] then []
    else if t[0].id == id then DeleteSliderRow(t[1..], id)
    else [t[0]] + DeleteSliderRow(t[1..], id)
  }

  /** The rows left are exactly those with another id. */
  lemma {:induction false} DeleteSliderMembers(t: seq<Slider>, id: int)
    ensures forall x :: x in DeleteSliderRow(t, id) <==> x in t && x.id != id
  {
    if t != [] {
      DeleteSliderMembers(t[1..], id);
      Uncons(t);
    }
  }

  /** No slider row of `t` shares a key with `row`. */
  predicate SliderKeysFree(t: seq<Slider>, row: Slider)
  {
    forall k :: 0 <= k < |t| ==> t[k].id != row.id && t[k].slug != row.slug
  }

  lemma {:induction false} DeleteSliderKeepsKeysFree(t: seq<Slider>, id: int, row: Slider)
    requires SliderKeysFree(t, row)
    ensures SliderKeysFree(DeleteSliderRow(t, id), row)
  {
    if t != [] {
      var u := t[1..];
      assert SliderKeysFree(u, row) by {
        assert forall k :: 0 <= k < |u| ==> u[k] == t[k + 1];
      }
      DeleteSliderKeepsKeysFree(u, id, row);
      var r := DeleteSliderRow(u, id);
      assert forall k :: 1 <= k <= |r| ==> ([t[0]] + r)[k] == r[k - 1];
    }
  }

  /** Deleting a slider row keeps the keys of the remaining rows unique. */
  lemma {:induction false} DeleteSliderKeepsKeysUnique(t: seq<Slider>, id: int)
    requires SliderKeysUnique(t)
    ensures SliderKeysUnique(DeleteSliderRow(t, id))
  {
    if t != [] {
      var u := t[1..];
      assert SliderKeysUnique(u) && SliderKeysFree(u, t[0]) by {
        assert forall k :: 0 <= k < |u| ==> u[k] == t[k + 1];
      }
      DeleteSliderKeepsKeysUnique(u, id);
      if t[0].id != id {
        DeleteSliderKeepsKeysFree(u, id, t[0]);
        var r := DeleteSliderRow(u, id);
        assert forall k :: 1 <= k <= |r| ==> ([t[0]] + r)[k] == r[k - 1];
      }
    }
  }

  /** Widths of the string columns, in characters: `slug VARCHAR(100)`, and `VARCHAR(255)`
      for the sliders' `title` and the slides' `title`, `link_url` and `alt_text`. */
  const SlugWidth := 100
  const TextWidth := 255

  /** wpdb measures every value against its column before it sends the query, and
      `$wpdb->insert` fails when one is too long. */
  predicate SliderFits(row: Slider)
  {
    |row.slug| <= SlugWidth && |row.title| <= TextWidth
  }

  predicate SlideFits(row: Slide)
  {
    |row.title| <= TextWidth && |row.linkUrl| <= TextWidth && |row.altText| <= TextWidth
  }

  /** `$wpdb->insert` into the sliders table: refused, leaving the table as it was, when
      a value is too long for its column or the row would repeat an id or a slug;
      appended otherwise. */
  function InsertSlider(t: seq<Slider>, row: Slider): (r: seq<Slider>)
    ensures r == t || r == t + [row]
  {
    if SliderFits(row) && SliderKeysFree(t, row) then t + [row] else t
  }

  /** The insert keeps the keys unique, and it adds the row exactly when its values fit
      their columns and no row has its id or its slug. */
  lemma InsertSliderKeepsKeysUnique(t: seq<Slider>, row: Slider)
    requires SliderKeysUnique(t)
    ensures SliderKeysUnique(InsertSlider(t, row))
    ensures InsertSlider(t, row) == t + [row] <==>
      |row.slug| <= 100 && |row.title| <= 255 && forall x :: x in t ==> x.id != row.id && x.slug != row.slug
  {
    if !(SliderFits(row) && SliderKeysFree(t, row)) {
      assert |t + [row]| != |t|;
      if !SliderKeysFree(t, row) {
        var k :| 0 <= k < |t| && (t[k].id == row.id || t[k].slug == row.slug);
        assert t[k] in t;
      }
    }
  }

  /** `$wpdb->insert` into the slides table: refused when a value is too long for its
      column or the id is taken. */
  function InsertSlide(t: seq<Slide>, row: Slide): (r: seq<Slide>)
    ensures r == t || r == t + [row]
  {
    if SlideFits(row) && IdAbsent(t, row.id) then t + [row] else t
  }

  /** The insert keeps the ids unique, and it adds the row exactly when its values fit
      their columns and no row has its id. */
  lemma InsertSlideKeepsIdsUnique(t: seq<Slide>, row: Slide)
    requires SlideIdsUnique(t)
    ensures SlideIdsUnique(InsertSlide(t, row))
    ensures InsertSlide(t, row) == t + [row] <==>
      |row.title| <= 255 && |row.linkUrl| <= 255 && |row.altText| <= 255 && forall x :: x in t ==> x.id != row.id
  {
    if !(SlideFits(row) && IdAbsent(t, row.id)) {
      assert |t + [row]| != |t|;
      if !IdAbsent(t, row.id) {
        var k :| 0 <= k < |t| && t[k].id == row.id;
        assert t[k] in t;
      }
    }
  }
}
