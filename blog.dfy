/** The blog list page: the tag list, the search and tag filter, the featured
    post, the remaining posts, the reading-time estimate, the tag colours and
    the statistics. The post page shares the reading time and the tag colours. */
module Blog {
  import opened Wrappers
  import opened Seqs
  import opened Strings
  import opened Records

  /** All tags of the posts, post by post, in catalog order, repetitions included. */
  function TagStream(posts: seq<Record>): seq<string>
  {
    if posts == [] then [] else TagStream(posts[..|posts| - 1]) + List(posts[|posts| - 1], "tags")
  }

  /** `allTags`: `'all'` followed by every tag once, in the order in which the
      posts first use them. */
  function AllTagsSpec(posts: seq<Record>): (tags: seq<string>)
    ensures |tags| >= 1 && tags[0] == "all"
    ensures NoDuplicates(tags[1..])
  {
    assert (["all"] + Distinct(TagStream(posts)))[1..] == Distinct(TagStream(posts));
    ["all"] + Distinct(TagStream(posts))
  }

  /** The loop that builds `allTags`: every tag of every post is added to a
      set that keeps insertion order. */
  method AllTags(posts: seq<Record>) returns (tags: seq<string>)
    ensures tags == AllTagsSpec(posts)
  {
    var seen: seq<string> := [];
    var i := 0;
    while i < |posts|
      invariant 0 <= i <= |posts|
      invariant seen == Distinct(TagStream(posts[..i]))
    {
      seen := AddTags(seen, TagStream(posts[..i]), List(posts[i], "tags"));
      TagStreamNext(posts, i);
      i := i + 1;
    }
    assert posts[..|posts|] == posts;
    tags := ["all"] + seen;
  }

  /** `post.tags.forEach(tag => tags.add(tag))` on a set holding the distinct
      elements of `before`. */
  method AddTags(seen: seq<string>, ghost before: seq<string>, ts: seq<string>) returns (r: seq<string>)
    requires seen == Distinct(before)
    ensures r == Distinct(before + ts)
  {
    r := seen;
    var j := 0;
    assert before + ts[..0] == before;
    while j < |ts|
      invariant 0 <= j <= |ts|
      invariant r == Distinct(before + ts[..j])
    {
      AddTagStep(before, ts, j);
      if ts[j] !in r {
        r := r + [ts[j]];
      }
      j := j + 1;
    }
    assert ts[..|ts|] == ts;
  }

  lemma AddTagStep(before: seq<string>, ts: seq<string>, j: nat)
    requires j < |ts|
    ensures Distinct(before + ts[..j + 1]) ==
              if ts[j] in Distinct(before + ts[..j]) then Distinct(before + ts[..j])
              else Distinct(before + ts[..j]) + [ts[j]]
  {
    DistinctSnoc(before + ts[..j], ts[j]);
    DistinctMembership(before + ts[..j], ts[j]);
    assert ts[..j + 1] == ts[..j] + [ts[j]];
    Assoc(before, ts[..j], [ts[j]]);
  }

  lemma TagStreamNext(posts: seq<Record>, i: nat)
    requires i < |posts|
    ensures TagStream(posts[..i + 1]) == TagStream(posts[..i]) + List(posts[i], "tags")
  {
    assert posts[..i + 1][..i] == posts[..i];
  }

  lemma {:induction false} TagStreamMembership(posts: seq<Record>, t: string)
    ensures t in TagStream(posts) <==> exists i :: 0 <= i < |posts| && t in List(posts[i], "tags")
  {
    if posts != [] {
      var init, k := posts[..|posts| - 1], |posts| - 1;
      assert TagStream(posts) == TagStream(init) + List(posts[k], "tags");
      TagStreamMembership(init, t);
      if t in TagStream(init) {
        var i :| 0 <= i < |init| && t in List(init[i], "tags");
        assert posts[i] == init[i];
      } else if t in List(posts[k], "tags") {
        assert 0 <= k < |posts|;
      } else {
        forall i | 0 <= i < |posts|
          ensures t !in List(posts[i], "tags")
        {
          if i < k {
            assert posts[i] == init[i];
          }
        }
      }
    }
  }

  /** The tag buttons: a tag is offered exactly when some post carries it. */
  lemma AllTagsOffersEveryTag(posts: seq<Record>, t: string)
    ensures t in AllTagsSpec(posts)[1..] <==> exists i :: 0 <= i < |posts| && t in List(posts[i], "tags")
  {
    assert AllTagsSpec(posts)[1..] == Distinct(TagStream(posts));
    DistinctMembership(TagStream(posts), t);
    TagStreamMembership(posts, t);
  }

  lemma {:induction false} TagStreamSplit(posts: seq<Record>, k: nat)
    requires k <= |posts|
    ensures TagStream(posts) == TagStream(posts[..k]) + TagStream(posts[k..])
    decreases |posts|
  {
    if k < |posts| {
      var init := posts[..|posts| - 1];
      TagStreamSplit(init, k);
      assert init[..k] == posts[..k];
      assert posts[k..] == init[k..] + [posts[|posts| - 1]];
      assert posts[k..][..|posts[k..]| - 1] == init[k..];
    } else {
      assert posts[..k] == posts;
      assert posts[k..] == [];
    }
  }

  /** Insertion order: the tag list of the first `k` posts is a prefix of the
      tag list of all posts, so adding posts never reorders the buttons. */
  lemma AllTagsInFirstUseOrder(posts: seq<Record>, k: nat)
    requires k <= |posts|
    ensures |AllTagsSpec(posts[..k])| <= |AllTagsSpec(posts)|
    ensures AllTagsSpec(posts[..k]) == AllTagsSpec(posts)[..|AllTagsSpec(posts[..k])|]
  {
    var xs := TagStream(posts);
    var n := |TagStream(posts[..k])|;
    TagStreamSplit(posts, k);
    assert xs[..n] == TagStream(posts[..k]);
    DistinctPrefix(xs, n);
  }

  /** "Topics Covered", `allTags.length - 1`: the number of distinct tags. */
  function TopicsCovered(posts: seq<Record>): (n: nat)
    ensures n == |set t | t in TagStream(posts)|
  {
    var xs := TagStream(posts);
    DistinctCount(xs);
    assert (set i | 0 <= i < |xs| :: xs[i]) == (set t | t in xs);
    |AllTagsSpec(posts)| - 1
  }

  function AuthorOf(p: Record): Option<Value>
  {
    Get(p, "author")
  }

  /** "Contributors": the number of distinct `author` values. */
  function ContributorCount(posts: seq<Record>): (n: nat)
    ensures n == |Image(posts, AuthorOf)|
    ensures n <= |posts|
  {
    DistinctMapCount(posts, AuthorOf);
    DistinctLength(MapSeq(posts, AuthorOf));
    |Distinct(MapSeq(posts, AuthorOf))|
  }

  /** The filter a post must pass: the search term occurs, ignoring case, in
      the title, excerpt or author, and the selected tag is `'all'` or one of
      the post's tags. */
  predicate PostMatches(p: Record, term: string, tag: string)
  {
    (Matches(Text(p, "title"), term) || Matches(Text(p, "excerpt"), term) || Matches(Text(p, "author"), term))
    && (tag == "all" || tag in List(p, "tags"))
  }

  function PostFilter(term: string, tag: string): Record -> bool
  {
    (p: Record) => PostMatches(p, term, tag)
  }

  /** `filteredPosts`. */
  function FilteredPosts(posts: seq<Record>, term: string, tag: string): (r: seq<Record>)
    ensures |r| <= |posts|
    ensures forall i :: 0 <= i < |r| ==> PostMatches(r[i], term, tag)
  {
    Filter(posts, PostFilter(term, tag))
  }

  /** The filtered list is the posts that pass the filter, in catalog order. */
  lemma FilteredPostsExact(posts: seq<Record>, term: string, tag: string)
    ensures IsSubseq(FilteredPosts(posts, term, tag), posts)
    ensures forall p :: p in FilteredPosts(posts, term, tag) <==> p in posts && PostMatches(p, term, tag)
  {
    var f := PostFilter(term, tag);
    FilterIsSubseq(posts, f);
    forall p ensures p in Filter(posts, f) <==> p in posts && f(p) {
      FilterMembership(posts, f, p);
    }
  }

  /** Every offered tag button, together with an empty search, shows exactly
      the posts that carry that tag. */
  lemma TagButtonShowsTaggedPosts(posts: seq<Record>, tag: string, p: Record)
    requires tag != "all"
    ensures p in FilteredPosts(posts, "", tag) <==> p in posts && tag in List(p, "tags")
  {
    FilteredPostsExact(posts, "", tag);
    MatchesEmpty(Text(p, "title"));
  }

  function IsFeatured(p: Record): bool
  {
    Truthy(Get(p, "featured"))
  }

  /** `featuredPost`: the first post marked featured, else the first post,
      else nothing when there are no posts. */
  function FeaturedPost(posts: seq<Record>): (f: Option<Record>)
    ensures f.None? <==> posts == []
    ensures f.Some? ==> f.value in posts
    ensures f.Some? && IsFeatured(f.value) ==>
              exists i :: 0 <= i < |posts| && posts[i] == f.value && forall j :: 0 <= j < i ==> !IsFeatured(posts[j])
    ensures f.Some? && !IsFeatured(f.value) ==>
              f.value == posts[0] && forall i :: 0 <= i < |posts| ==> !IsFeatured(posts[i])
  {
    match Find(posts, IsFeatured)
    case Some(p) => Some(p)
    case None => if posts == [] then None else Some(posts[0])
  }

  /** `featuredPost?.id`. */
  function FeaturedId(posts: seq<Record>): Option<Value>
  {
    match FeaturedPost(posts)
    case None => None
    case Some(f) => Get(f, "id")
  }

  function NotFeatured(fid: Option<Value>): Record -> bool
  {
    (p: Record) => Get(p, "id") != fid
  }

  /** `regularPosts`: the filtered posts whose id differs from the featured post's. */
  function RegularPosts(posts: seq<Record>, term: string, tag: string): (r: seq<Record>)
    ensures |r| <= |FilteredPosts(posts, term, tag)|
    ensures forall i :: 0 <= i < |r| ==> Get(r[i], "id") != FeaturedId(posts)
    ensures IsSubseq(r, FilteredPosts(posts, term, tag))
  {
    FilterIsSubseq(FilteredPosts(posts, term, tag), NotFeatured(FeaturedId(posts)));
    Filter(FilteredPosts(posts, term, tag), NotFeatured(FeaturedId(posts)))
  }

  /** The featured post is never listed again below it, and every other
      filtered post is. */
  lemma RegularPostsExact(posts: seq<Record>, term: string, tag: string, p: Record)
    ensures p in RegularPosts(posts, term, tag) <==>
              p in posts && PostMatches(p, term, tag) && Get(p, "id") != FeaturedId(posts)
    ensures FeaturedPost(posts).Some? ==> FeaturedPost(posts).value !in RegularPosts(posts, term, tag)
  {
    FilteredPostsExact(posts, term, tag);
    FilterMembership(FilteredPosts(posts, term, tag), NotFeatured(FeaturedId(posts)), p);
    if FeaturedPost(posts).Some? {
      FilterMembership(FilteredPosts(posts, term, tag), NotFeatured(FeaturedId(posts)), FeaturedPost(posts).value);
    }
  }

  const WordsPerMinute := 200

  /** `Math.ceil(a / b)` for a positive divisor. */
  function CeilDiv(a: nat, b: nat): (q: nat)
    requires b > 0
    ensures b * q >= a && (q == 0 || b * (q - 1) < a)
  {
    (a + b - 1) / b
  }

  /** `getReadingTime`: the number of space-separated pieces of the content,
      per 200 words, rounded up. */
  function ReadingTime(content: string): (minutes: nat)
    ensures minutes >= 1
  {
    CeilDiv(|Split(content, " ")|, WordsPerMinute)
  }

  /** The estimate is the smallest whole number of minutes in which 200 words a
      minute cover the pieces, and the pieces are one more than the spaces. */
  lemma ReadingTimeBounds(content: string)
    ensures WordsPerMinute * (ReadingTime(content) - 1) < Occurrences(content, ' ') + 1
    ensures Occurrences(content, ' ') + 1 <= WordsPerMinute * ReadingTime(content)
  {
    SplitCharCount(content, ' ');
  }

  /** 400 space-separated words take two minutes, 401 take three. */
  lemma ReadingTimeAtBoundary(content: string)
    ensures Occurrences(content, ' ') == 399 ==> ReadingTime(content) == 2
    ensures Occurrences(content, ' ') == 400 ==> ReadingTime(content) == 3
  {
    SplitCharCount(content, ' ');
  }

  const TagPalette: seq<string> := [
    "bg-blue-100 text-blue-800 dark:bg-blue-900 dark:text-blue-300",
    "bg-green-100 text-green-800 dark:bg-green-900 dark:text-green-300",
    "bg-purple-100 text-purple-800 dark:bg-purple-900 dark:text-purple-300",
    "bg-orange-100 text-orange-800 dark:bg-orange-900 dark:text-orange-300",
    "bg-pink-100 text-pink-800 dark:bg-pink-900 dark:text-pink-300"]

  /** `getTagColor`: the colour is chosen by the tag's length modulo five. */
  function TagColor(tag: string): (c: string)
    ensures c in TagPalette
  {
    TagPalette[|tag| % |TagPalette|]
  }

  /** Two tags share a colour exactly when their lengths differ by a multiple of five. */
  lemma TagColorByLength(a: string, b: string)
    ensures TagColor(a) == TagColor(b) <==> |a| % 5 == |b| % 5
  {
    assert forall i, j :: 0 <= i < j < |TagPalette| ==> TagPalette[i] != TagPalette[j];
  }
}
