/** The gallery page: the search, category and year filters, the category
    statistic and colours, and the lightbox that shows one image of the
    filtered list at a time. */
module Gallery {
  import opened Wrappers
  import opened Seqs
  import opened Strings
  import opened Records
  import Events

  /** The filter an item must pass: the search term occurs, ignoring case, in
      the title, and category and year equal the selected ones unless those are `'all'`. */
  predicate ItemMatches(item: Record, term: string, category: string, year: string)
  {
    Matches(Text(item, "title"), term)
    && (category == "all" || FieldIs(item, "category", category))
    && (year == "all" || YearOf(Text(item, "date")) == year)
  }

  function ItemFilter(term: string, category: string, year: string): Record -> bool
  {
    (item: Record) => ItemMatches(item, term, category, year)
  }

  /** `filteredImages`; the page shows "Showing |r| of |gallery| photos". */
  function FilteredImages(gallery: seq<Record>, term: string, category: string, year: string): (r: seq<Record>)
    ensures |r| <= |gallery|
    ensures forall i :: 0 <= i < |r| ==> ItemMatches(r[i], term, category, year)
  {
    Filter(gallery, ItemFilter(term, category, year))
  }

  /** The filtered list is the items that pass the filter, in catalog order. */
  lemma FilteredImagesExact(gallery: seq<Record>, term: string, category: string, year: string)
    ensures IsSubseq(FilteredImages(gallery, term, category, year), gallery)
    ensures forall item :: item in FilteredImages(gallery, term, category, year) <==>
              item in gallery && ItemMatches(item, term, category, year)
  {
    var f := ItemFilter(term, category, year);
    FilterIsSubseq(gallery, f);
    forall item ensures item in Filter(gallery, f) <==> item in gallery && f(item) {
      FilterMembership(gallery, f, item);
    }
  }

  /** With no search term and every selector on `'all'`, every item is shown. */
  lemma NoFilterShowsAllImages(gallery: seq<Record>)
    ensures FilteredImages(gallery, "", "all", "all") == gallery
  {
    forall i | 0 <= i < |gallery| ensures ItemFilter("", "all", "all")(gallery[i]) {
      MatchesEmpty(Text(gallery[i], "title"));
    }
    FilterKeepsAll(gallery, ItemFilter("", "all", "all"));
  }

  function CategoryOf(item: Record): Option<Value>
  {
    Get(item, "category")
  }

  /** The "Categories" statistic: the number of distinct `category` values. */
  function CategoryCount(gallery: seq<Record>): (n: nat)
    ensures n == |Image(gallery, CategoryOf)|
  {
    DistinctMapCount(gallery, CategoryOf);
    |Distinct(MapSeq(gallery, CategoryOf))|
  }

  const CategoryColors: map<string, string> := map[
    "workshop" := "bg-blue-100 text-blue-800 dark:bg-blue-900 dark:text-blue-300",
    "event" := "bg-green-100 text-green-800 dark:bg-green-900 dark:text-green-300",
    "presentation" := "bg-purple-100 text-purple-800 dark:bg-purple-900 dark:text-purple-300",
    "social" := "bg-orange-100 text-orange-800 dark:bg-orange-900 dark:text-orange-300",
    "competition" := "bg-pink-100 text-pink-800 dark:bg-pink-900 dark:text-pink-300"]

  /** `getCategoryColor`: gray exactly for the categories without a colour of their own. */
  function CategoryColor(category: string): (c: string)
    ensures c == Events.Gray <==> category !in {"workshop", "event", "presentation", "social", "competition"}
    ensures c in CategoryColors.Values || c == Events.Gray
  {
    Events.Lookup(CategoryColors, category, Events.Gray)
  }

  /** The index after `i` in a list of `n` images, wrapping to the first. */
  function NextIndex(i: nat, n: nat): (j: nat)
    requires n > 0
    ensures j < n
    ensures i + 1 < n ==> j == i + 1
    ensures i + 1 == n ==> j == 0
  {
    (i + 1) % n
  }

  /** The index before `i` in a list of `n` images, wrapping to the last.
      `i - 1 + n` is never negative, so the remainder is the same whether
      `%` truncates or floors. */
  function PrevIndex(i: nat, n: nat): (j: nat)
    requires n > 0
    ensures j < n
    ensures 0 < i <= n ==> j == i - 1
    ensures i == 0 ==> j == n - 1
  {
    (i - 1 + n) % n
  }

  /** Going forward and then back, or back and then forward, returns to the
      image one started from. */
  lemma NextPrevInverse(i: nat, n: nat)
    requires i < n
    ensures PrevIndex(NextIndex(i, n), n) == i
    ensures NextIndex(PrevIndex(i, n), n) == i
  {
  }

  /** The image shown after pressing "next" `steps` times, starting from image `i`. */
  function Forward(i: nat, n: nat, steps: nat): (j: nat)
    requires n > 0 && i < n
    ensures j < n
  {
    if steps == 0 then i else NextIndex(Forward(i, n, steps - 1), n)
  }

  /** Before the wrap, going forward `k` times moves `k` places. */
  lemma {:induction false} ForwardNoWrap(i: nat, n: nat, k: nat)
    requires n > 0 && i + k < n
    ensures Forward(i, n, k) == i + k
  {
    if k > 0 {
      ForwardNoWrap(i, n, k - 1);
    }
  }

  lemma {:induction false} ForwardCompose(i: nat, n: nat, a: nat, b: nat)
    requires n > 0 && i < n
    ensures Forward(i, n, a + b) == Forward(Forward(i, n, a), n, b)
  {
    if b > 0 {
      ForwardCompose(i, n, a, b - 1);
    }
  }

  /** Going forward once per image in the list comes back to the starting image. */
  lemma ForwardCycle(i: nat, n: nat)
    requires n > 0 && i < n
    ensures Forward(i, n, n) == i
  {
    ForwardNoWrap(i, n, n - 1 - i);
    assert Forward(i, n, n - i) == 0;
    ForwardCompose(i, n, n - i, i);
    ForwardNoWrap(0, n, i);
  }

  /** The lightbox: the image on display, if any, and its position in the filtered list. */
  class Lightbox {
    var image: Option<Record>
    var index: nat

    /** A closed lightbox. */
    constructor()
      ensures image == None && index == 0
    {
      image := None;
      index := 0;
    }

    /** The lightbox shows the image at its index in `filtered`. */
    predicate Shows(filtered: seq<Record>)
      reads this
    {
      index < |filtered| && image == Some(filtered[index])
    }

    /** `openLightbox(item, index)`, called with the item at `index` in the filtered list. */
    method Open(item: Record, at: nat)
      modifies this
      ensures image == Some(item) && index == at
    {
      image := Some(item);
      index := at;
    }

    /** `closeLightbox`. */
    method Close()
      modifies this
      ensures image == None && index == 0
    {
      image := None;
      index := 0;
    }

    /** `navigateLightbox(direction)`: `'next'` moves forward, anything else
        back, wrapping around the filtered list; the buttons are shown only
        when the list has more than one image. */
    method Navigate(direction: string, filtered: seq<Record>)
      requires |filtered| > 1
      modifies this
      ensures index == (if direction == "next" then NextIndex(old(index), |filtered|)
                        else PrevIndex(old(index), |filtered|))
      ensures Shows(filtered)
    {
      var n := |filtered|;
      var next := if direction == "next" then (index + 1) % n else (index - 1 + n) % n;
      index := next;
      image := Some(filtered[next]);
    }
  }

  /** Clicking the `i`-th card opens the lightbox on that image. */
  method OpenCard(lightbox: Lightbox, filtered: seq<Record>, i: nat)
    requires i < |filtered|
    modifies lightbox
    ensures lightbox.image == Some(filtered[i]) && lightbox.index == i
    ensures lightbox.Shows(filtered)
  {
    lightbox.Open(filtered[i], i);
  }
}
