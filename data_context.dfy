/** The catalog store: one piece of state holding the five collections, and
    the operations the admin pages call to add, update and delete entries.
    Each operation replaces one collection of the state with a new one computed
    by a pure function of the old one. The clock readings (`Date.now()` for the
    id, today's `YYYY-MM-DD` date) are parameters. */
module DataContext {
  import opened Wrappers
  import opened Seqs
  import opened Strings
  import opened Records

  datatype CatalogData = CatalogData(
    events: seq<Record>,
    members: seq<Record>,
    blogPosts: seq<Record>,
    gallery: seq<Record>,
    formSubmissions: seq<Record>)

  /** `x.id === id`. */
  predicate HasId(r: Record, id: string)
  {
    FieldIs(r, "id", id)
  }

  // ----- Slugs -----

  predicate IsSlugChar(c: char)
  {
    'a' <= c <= 'z' || '0' <= c <= '9' || c == '-'
  }

  predicate IsLowerAlnum(c: char)
  {
    'a' <= c <= 'z' || '0' <= c <= '9'
  }

  /** `name.toLowerCase().replace(/\s+/g, '-')`: no white space and no capital
      letter is left, and apart from white space and hyphens the characters are
      those of the lower-cased name, in order. */
  function MemberSlug(name: string): (slug: string)
    ensures forall i :: 0 <= i < |slug| ==> !IsSpace(slug[i]) && !('A' <= slug[i] <= 'Z')
    ensures Squeeze(slug, '-') == Squeeze(Lower(name), '-')
  {
    var lower := Lower(name);
    CollapseSpacesNoSpace(lower, '-');
    CollapseSpacesFrom(lower, '-');
    CollapseSpacesKeepsText(lower, '-');
    assert forall c :: c in lower ==> !('A' <= c <= 'Z');
    CollapseSpaces(lower, '-')
  }

  lemma {:induction false} SqueezeKeepsAlnum(s: string)
    ensures Filter(Squeeze(s, '-'), IsLowerAlnum) == Filter(s, IsLowerAlnum)
  {
    if s != [] {
      SqueezeKeepsAlnum(s[1..]);
      var head := if IsSpace(s[0]) || s[0] == '-' then [] else [s[0]];
      FilterAppend(head, Squeeze(s[1..], '-'), IsLowerAlnum);
      if IsLowerAlnum(s[0]) {
        assert !IsSpace(s[0]);
      }
    }
  }

  /** `title.toLowerCase().replace(/\s+/g, '-').replace(/[^a-z0-9-]/g, '')`:
      only lower-case letters, digits and hyphens remain, and the letters and
      digits are exactly those of the lower-cased title, in order. */
  function PostSlug(title: string): (slug: string)
    ensures forall i :: 0 <= i < |slug| ==> IsSlugChar(slug[i])
    ensures Filter(slug, IsLowerAlnum) == Filter(Lower(title), IsLowerAlnum)
  {
    var lower := Lower(title);
    var collapsed := CollapseSpaces(lower, '-');
    FilterNarrow(collapsed, IsSlugChar, IsLowerAlnum);
    SqueezeKeepsAlnum(collapsed);
    SqueezeKeepsAlnum(lower);
    CollapseSpacesKeepsText(lower, '-');
    Filter(collapsed, IsSlugChar)
  }

  /** A slug is its own slug. */
  lemma MemberSlugIdempotent(name: string)
    ensures MemberSlug(MemberSlug(name)) == MemberSlug(name)
  {
    var slug := MemberSlug(name);
    LowerIdentity(slug);
    CollapseSpacesIdentity(slug, '-');
  }

  /** A slug is its own slug. */
  lemma PostSlugIdempotent(title: string)
    ensures PostSlug(PostSlug(title)) == PostSlug(title)
  {
    var slug := PostSlug(title);
    LowerIdentity(slug);
    CollapseSpacesIdentity(slug, '-');
    FilterKeepsAll(slug, IsSlugChar);
  }

  /** A name made of words separated by single spaces ("Sarah Johnson") gets
      the lower-cased words joined by hyphens ("sarah-johnson"). */
  lemma {:induction false} MemberSlugOfWords(words: seq<string>)
    requires forall i :: 0 <= i < |words| ==> IsWord(words[i])
    ensures MemberSlug(Join(words, " ")) == Join(MapSeq(words, Lower), "-")
  {
    LowerJoin(words, " ");
    assert Lower(" ") == " ";
    var lw := MapSeq(words, Lower);
    forall i | 0 <= i < |lw| ensures IsWord(lw[i]) {
      assert lw[i] == Lower(words[i]);
    }
    CollapseSpacesJoin(lw, '-');
  }

  /** Any name: words separated by runs of white space of any length, with
      an optional run before the first word and after the last. Each run becomes
      exactly one hyphen, so "a  b" gets "a-b" and " Sarah Johnson " gets
      "-sarah-johnson-". */
  lemma MemberSlugOfRuns(words: seq<string>, gaps: seq<string>)
    requires words != [] && |gaps| == |words| + 1
    requires forall i :: 0 <= i < |words| ==> IsWord(words[i])
    requires forall i :: 0 <= i < |gaps| ==> AllSpace(gaps[i])
    requires forall i :: 0 < i < |words| ==> gaps[i] != []
    ensures MemberSlug(Spread(words, gaps)) ==
              Gap(gaps[0], '-') + Join(MapSeq(words, Lower), "-") + Gap(gaps[|words|], '-')
  {
    LowerSpread(words, gaps);
    var lw := MapSeq(words, Lower);
    forall i | 0 <= i < |lw| ensures IsWord(lw[i]) {
      assert lw[i] == Lower(words[i]);
    }
    CollapseSpread(lw, gaps, '-');
  }

  /** A name made of white space only gets the slug "-". */
  lemma MemberSlugOfBlank(name: string)
    requires name != [] && AllSpace(name)
    ensures MemberSlug(name) == "-"
  {
    LowerIdentity(name);
    CollapseRun(name, [], '-');
    assert name + [] == name;
  }

  /** The part of one word that survives in a post slug. */
  function SlugWord(w: string): string
  {
    Filter(Lower(w), IsSlugChar)
  }

  lemma {:induction false} FilterHyphenJoin(ws: seq<string>)
    ensures Filter(Join(ws, "-"), IsSlugChar) == Join(MapSeq(ws, (w: string) => Filter(w, IsSlugChar)), "-")
  {
    if |ws| > 1 {
      FilterHyphenJoin(ws[1..]);
      var f := (w: string) => Filter(w, IsSlugChar);
      var m := MapSeq(ws, f);
      assert m[1..] == MapSeq(ws[1..], f);
      assert Join(m, "-") == m[0] + "-" + Join(m[1..], "-");
      FilterAppend(ws[0] + "-", Join(ws[1..], "-"), IsSlugChar);
      FilterAppend(ws[0], "-", IsSlugChar);
      assert Filter("-", IsSlugChar) == "-";
    }
  }

  /** A title made of words separated by single spaces ("Hello, World! 2024")
      gets the slug characters of each lower-cased word joined by hyphens
      ("hello-world-2024"). */
  lemma {:induction false} PostSlugOfWords(words: seq<string>)
    requires forall i :: 0 <= i < |words| ==> IsWord(words[i])
    ensures PostSlug(Join(words, " ")) == Join(MapSeq(words, SlugWord), "-")
  {
    MemberSlugOfWords(words);
    var lw := MapSeq(words, Lower);
    FilterHyphenJoin(lw);
    var f := (w: string) => Filter(w, IsSlugChar);
    assert MapSeq(lw, f) == MapSeq(words, SlugWord);
  }

  lemma SarahLower()
    ensures Lower("Sarah") == "sarah"
  {
    assert forall i :: 0 <= i < 5 ==> Lower("Sarah")[i] == "sarah"[i];
  }

  lemma JohnsonLower()
    ensures Lower("Johnson") == "johnson"
  {
    assert forall i :: 0 <= i < 7 ==> Lower("Johnson")[i] == "johnson"[i];
  }

  /** The name "Sarah Johnson", as its two space-separated words, gets the
      slug "sarah-johnson". */
  lemma SarahJohnsonSlug(ws: seq<string>)
    requires ws == ["Sarah", "Johnson"]
    ensures MemberSlug(Join(ws, " ")) == "sarah-johnson"
  {
    assert IsWord(ws[0]) && IsWord(ws[1]);
    MemberSlugOfWords(ws);
    SarahLower();
    JohnsonLower();
    var out := MapSeq(ws, Lower);
    assert out == ["sarah", "johnson"];
    assert Join(out[1..], "-") == "johnson";
  }

  lemma HelloLower()
    ensures Lower("Hello,") == "hello,"
  {
    assert forall i :: 0 <= i < 6 ==> Lower("Hello,")[i] == "hello,"[i];
  }

  lemma WorldLower()
    ensures Lower("World!") == "world!"
  {
    assert forall i :: 0 <= i < 6 ==> Lower("World!")[i] == "world!"[i];
  }

  lemma HelloSlugWord()
    ensures SlugWord("Hello,") == "hello"
  {
    HelloLower();
    var s := "hello,";
    assert s[1..] == "ello,";
    assert s[2..] == "llo,";
    assert s[3..] == "lo,";
    assert s[4..] == "o,";
    assert s[5..] == ",";
    assert Filter(",", IsSlugChar) == [];
  }

  lemma WorldSlugWord()
    ensures SlugWord("World!") == "world"
  {
    WorldLower();
    var s := "world!";
    assert s[1..] == "orld!";
    assert s[2..] == "rld!";
    assert s[3..] == "ld!";
    assert s[4..] == "d!";
    assert s[5..] == "!";
    assert Filter("!", IsSlugChar) == [];
  }

  lemma YearSlugWord()
    ensures SlugWord("2024") == "2024"
  {
    assert forall i :: 0 <= i < 4 ==> Lower("2024")[i] == "2024"[i];
    FilterKeepsAll("2024", IsSlugChar);
  }

  lemma HelloWorldWords()
    ensures forall i :: 0 <= i < 3 ==> IsWord(["Hello,", "World!", "2024"][i])
  {
    assert IsWord("Hello,");
    assert IsWord("World!");
    assert IsWord("2024");
  }

  /** The title "Hello, World! 2024", as its three space-separated words,
      gets the slug "hello-world-2024". */
  lemma HelloWorldSlug(ws: seq<string>)
    requires ws == ["Hello,", "World!", "2024"]
    ensures PostSlug(Join(ws, " ")) == "hello-world-2024"
  {
    HelloWorldWords();
    PostSlugOfWords(ws);
    HelloWorldSlugWords(ws);
    HyphenJoin(MapSeq(ws, SlugWord));
  }

  lemma HelloWorldSlugWords(ws: seq<string>)
    requires ws == ["Hello,", "World!", "2024"]
    ensures MapSeq(ws, SlugWord) == ["hello", "world", "2024"]
  {
    HelloSlugWord();
    WorldSlugWord();
    YearSlugWord();
  }

  lemma HyphenJoin(out: seq<string>)
    requires out == ["hello", "world", "2024"]
    ensures Join(out, "-") == "hello-world-2024"
  {
    assert Join(out[2..], "-") == "2024";
    assert Join(out[1..], "-") == "world-2024";
  }

  // ----- New records -----

  /** `{...event, id: Date.now().toString()}`: the id is always the clock
      token, whatever id the caller supplied; every other property is kept. */
  function NewEvent(event: Record, token: string): (r: Record)
    ensures HasId(r, token)
    ensures r.Keys == event.Keys + {"id"}
    ensures forall k :: k in event && k != "id" ==> r[k] == event[k]
  {
    event["id" := Str(token)]
  }

  /** `{...member, id, slug, joinDate}`. The slug is computed from `member.name`
      with `toLowerCase`, which throws when the name is not a string: then
      there is no new member. */
  function NewMember(member: Record, token: string, today: string): (r: Option<Record>)
    ensures r.Some? <==> IsText(member, "name")
    ensures r.Some? ==> HasId(r.value, token)
                        && FieldIs(r.value, "slug", MemberSlug(Text(member, "name")))
                        && FieldIs(r.value, "joinDate", today)
    ensures r.Some? ==> r.value.Keys == member.Keys + {"id", "slug", "joinDate"}
    ensures r.Some? ==> forall k :: k in member && k != "id" && k != "slug" && k != "joinDate" ==> r.value[k] == member[k]
  {
    if IsText(member, "name") then
      Some(member["id" := Str(token)]["slug" := Str(MemberSlug(member["name"].s))]["joinDate" := Str(today)])
    else None
  }

  /** `{...post, id, slug, date}`; like a member's name, the title must be a string. */
  function NewBlogPost(post: Record, token: string, today: string): (r: Option<Record>)
    ensures r.Some? <==> IsText(post, "title")
    ensures r.Some? ==> HasId(r.value, token)
                        && FieldIs(r.value, "slug", PostSlug(Text(post, "title")))
                        && FieldIs(r.value, "date", today)
    ensures r.Some? ==> r.value.Keys == post.Keys + {"id", "slug", "date"}
    ensures r.Some? ==> forall k :: k in post && k != "id" && k != "slug" && k != "date" ==> r.value[k] == post[k]
  {
    if IsText(post, "title") then
      Some(post["id" := Str(token)]["slug" := Str(PostSlug(post["title"].s))]["date" := Str(today)])
    else None
  }

  /** `{...item, id, date}`. */
  function NewGalleryItem(item: Record, token: string, today: string): (r: Record)
    ensures HasId(r, token) && FieldIs(r, "date", today)
    ensures r.Keys == item.Keys + {"id", "date"}
    ensures forall k :: k in item && k != "id" && k != "date" ==> r[k] == item[k]
  {
    item["id" := Str(token)]["date" := Str(today)]
  }

  /** `{...submission, id, date, status: 'unread'}`: a new submission is
      unread even when the caller supplied another status. */
  function NewFormSubmission(submission: Record, token: string, today: string): (r: Record)
    ensures HasId(r, token) && FieldIs(r, "date", today) && FieldIs(r, "status", "unread")
    ensures r.Keys == submission.Keys + {"id", "date", "status"}
    ensures forall k :: k in submission && k != "id" && k != "date" && k != "status" ==> r[k] == submission[k]
  {
    submission["id" := Str(token)]["date" := Str(today)]["status" := Str("unread")]
  }

  // ----- Update and delete -----

  /** `coll.map(x => x.id === id ? {...x, ...patch} : x)`. */
  function UpdateById(coll: seq<Record>, id: string, patch: Record): (r: seq<Record>)
    ensures |r| == |coll|
    ensures forall i :: 0 <= i < |coll| && !HasId(coll[i], id) ==> r[i] == coll[i]
    ensures forall i :: 0 <= i < |coll| && HasId(coll[i], id) ==> r[i] == Merge(coll[i], patch)
  {
    if coll == [] then []
    else [if HasId(coll[0], id) then Merge(coll[0], patch) else coll[0]] + UpdateById(coll[1..], id, patch)
  }

  /** An update with an id that no element carries changes nothing. */
  lemma UpdateUnknownId(coll: seq<Record>, id: string, patch: Record)
    requires forall i :: 0 <= i < |coll| ==> !HasId(coll[i], id)
    ensures UpdateById(coll, id, patch) == coll
  {
  }

  /** An updated element takes the patched properties and keeps all others. */
  lemma UpdateKeepsUnpatched(coll: seq<Record>, id: string, patch: Record, i: nat, k: string)
    requires i < |coll| && HasId(coll[i], id)
    ensures k in patch ==> k in UpdateById(coll, id, patch)[i] && UpdateById(coll, id, patch)[i][k] == patch[k]
    ensures k in coll[i] && k !in patch ==> k in UpdateById(coll, id, patch)[i] && UpdateById(coll, id, patch)[i][k] == coll[i][k]
    ensures k !in coll[i] && k !in patch ==> k !in UpdateById(coll, id, patch)[i]
  {
  }

  /** A patch without an `id` property leaves every element's id as it was. */
  lemma UpdateKeepsIds(coll: seq<Record>, id: string, patch: Record, other: string)
    requires "id" !in patch
    ensures forall i :: 0 <= i < |coll| ==> (HasId(UpdateById(coll, id, patch)[i], other) <==> HasId(coll[i], other))
  {
  }

  /** The predicate `x => x.id !== id`. */
  function NotId(id: string): Record -> bool
  {
    (x: Record) => !HasId(x, id)
  }

  /** `coll.filter(x => x.id !== id)`. */
  function DeleteById(coll: seq<Record>, id: string): (r: seq<Record>)
    ensures forall i :: 0 <= i < |r| ==> !HasId(r[i], id)
    ensures |r| <= |coll|
  {
    Filter(coll, NotId(id))
  }

  /** Deleting keeps exactly the elements with another id, in their order. */
  lemma DeleteKeepsOthers(coll: seq<Record>, id: string)
    ensures IsSubseq(DeleteById(coll, id), coll)
    ensures forall x :: x in DeleteById(coll, id) <==> x in coll && !HasId(x, id)
  {
    FilterIsSubseq(coll, NotId(id));
    forall x ensures x in DeleteById(coll, id) <==> x in coll && !HasId(x, id) {
      FilterMembership(coll, NotId(id), x);
    }
  }

  /** Deleting twice is deleting once. */
  lemma DeleteIdempotent(coll: seq<Record>, id: string)
    ensures DeleteById(DeleteById(coll, id), id) == DeleteById(coll, id)
  {
    FilterIdempotent(coll, NotId(id));
  }

  /** Deleting an id that no element carries changes nothing. */
  lemma DeleteUnknownId(coll: seq<Record>, id: string)
    requires forall i :: 0 <= i < |coll| ==> !HasId(coll[i], id)
    ensures DeleteById(coll, id) == coll
  {
    FilterKeepsAll(coll, NotId(id));
  }

  // ----- The store's interface -----

  /** The operations the store exposes. There is no operation that deletes a
      form submission and none that updates a gallery item. */
  datatype Op =
    | AddEvent(event: Record, token: string)
    | UpdateEvent(id: string, patch: Record)
    | DeleteEvent(id: string)
    | AddMember(member: Record, token: string, today: string)
    | UpdateMember(id: string, patch: Record)
    | DeleteMember(id: string)
    | AddBlogPost(post: Record, token: string, today: string)
    | UpdateBlogPost(id: string, patch: Record)
    | DeleteBlogPost(id: string)
    | AddGalleryItem(item: Record, token: string, today: string)
    | DeleteGalleryItem(id: string)
    | AddFormSubmission(submission: Record, token: string, today: string)
    | UpdateFormSubmission(id: string, patch: Record)

  /** The state after one operation: `setData(prev => ...)`. */
  function Step(c: CatalogData, op: Op): CatalogData
  {
    match op
    case AddEvent(event, token) => c.(events := c.events + [NewEvent(event, token)])
    case UpdateEvent(id, patch) => c.(events := UpdateById(c.events, id, patch))
    case DeleteEvent(id) => c.(events := DeleteById(c.events, id))
    case AddMember(member, token, today) =>
      (match NewMember(member, token, today)
       case None => c
       case Some(m) => c.(members := c.members + [m]))
    case UpdateMember(id, patch) => c.(members := UpdateById(c.members, id, patch))
    case DeleteMember(id) => c.(members := DeleteById(c.members, id))
    case AddBlogPost(post, token, today) =>
      (match NewBlogPost(post, token, today)
       case None => c
       case Some(p) => c.(blogPosts := c.blogPosts + [p]))
    case UpdateBlogPost(id, patch) => c.(blogPosts := UpdateById(c.blogPosts, id, patch))
    case DeleteBlogPost(id) => c.(blogPosts := DeleteById(c.blogPosts, id))
    case AddGalleryItem(item, token, today) => c.(gallery := c.gallery + [NewGalleryItem(item, token, today)])
    case DeleteGalleryItem(id) => c.(gallery := DeleteById(c.gallery, id))
    case AddFormSubmission(submission, token, today) =>
      c.(formSubmissions := c.formSubmissions + [NewFormSubmission(submission, token, today)])
    case UpdateFormSubmission(id, patch) => c.(formSubmissions := UpdateById(c.formSubmissions, id, patch))
  }

  /** No operation removes a form submission: each one stays at its place,
      changed at most by a shallow merge. */
  lemma FormSubmissionsNeverRemoved(c: CatalogData, op: Op)
    ensures |Step(c, op).formSubmissions| >= |c.formSubmissions|
    ensures forall i :: 0 <= i < |c.formSubmissions| ==>
              Step(c, op).formSubmissions[i] == c.formSubmissions[i]
              || (op.UpdateFormSubmission? && Step(c, op).formSubmissions[i] == Merge(c.formSubmissions[i], op.patch))
  {
  }

  /** No operation edits a gallery item: every item afterwards was there
      before, or is the one just added. */
  lemma GalleryItemsNeverEdited(c: CatalogData, op: Op)
    ensures forall x :: x in Step(c, op).gallery ==>
              x in c.gallery || (op.AddGalleryItem? && x == NewGalleryItem(op.item, op.token, op.today))
  {
    if op.DeleteGalleryItem? {
      DeleteKeepsOthers(c.gallery, op.id);
    }
  }

  /** The store: one piece of state whose operations replace one collection at a time. */
  class Catalog {
    var data: CatalogData

    constructor (initial: CatalogData)
      ensures data == initial
    {
      data := initial;
    }

    method AddEvent(event: Record, token: string)
      modifies this
      ensures data == old(data).(events := old(data).events + [NewEvent(event, token)])
    {
      data := Step(data, Op.AddEvent(event, token));
    }

    method UpdateEvent(id: string, patch: Record)
      modifies this
      ensures data == old(data).(events := UpdateById(old(data).events, id, patch))
    {
      data := Step(data, Op.UpdateEvent(id, patch));
    }

    method DeleteEvent(id: string)
      modifies this
      ensures data == old(data).(events := DeleteById(old(data).events, id))
    {
      data := Step(data, Op.DeleteEvent(id));
    }

    /** `ok` is false when the name is not a string, where `addMember` throws before changing anything. */
    method AddMember(member: Record, token: string, today: string) returns (ok: bool)
      modifies this
      ensures ok <==> IsText(member, "name")
      ensures ok ==> data == old(data).(members := old(data).members + [NewMember(member, token, today).value])
      ensures !ok ==> data == old(data)
    {
      ok := IsText(member, "name");
      data := Step(data, Op.AddMember(member, token, today));
    }

    method UpdateMember(id: string, patch: Record)
      modifies this
      ensures data == old(data).(members := UpdateById(old(data).members, id, patch))
    {
      data := Step(data, Op.UpdateMember(id, patch));
    }

    method DeleteMember(id: string)
      modifies this
      ensures data == old(data).(members := DeleteById(old(data).members, id))
    {
      data := Step(data, Op.DeleteMember(id));
    }

    /** `ok` is false when the title is not a string, where `addBlogPost` throws before changing anything. */
    method AddBlogPost(post: Record, token: string, today: string) returns (ok: bool)
      modifies this
      ensures ok <==> IsText(post, "title")
      ensures ok ==> data == old(data).(blogPosts := old(data).blogPosts + [NewBlogPost(post, token, today).value])
      ensures !ok ==> data == old(data)
    {
      ok := IsText(post, "title");
      data := Step(data, Op.AddBlogPost(post, token, today));
    }

    method UpdateBlogPost(id: string, patch: Record)
      modifies this
      ensures data == old(data).(blogPosts := UpdateById(old(data).blogPosts, id, patch))
    {
      data := Step(data, Op.UpdateBlogPost(id, patch));
    }

    method DeleteBlogPost(id: string)
      modifies this
      ensures data == old(data).(blogPosts := DeleteById(old(data).blogPosts, id))
    {
      data := Step(data, Op.DeleteBlogPost(id));
    }

    method AddGalleryItem(item: Record, token: string, today: string)
      modifies this
      ensures data == old(data).(gallery := old(data).gallery + [NewGalleryItem(item, token, today)])
    {
      data := Step(data, Op.AddGalleryItem(item, token, today));
    }

    method DeleteGalleryItem(id: string)
      modifies this
      ensures data == old(data).(gallery := DeleteById(old(data).gallery, id))
    {
      data := Step(data, Op.DeleteGalleryItem(id));
    }

    method AddFormSubmission(submission: Record, token: string, today: string)
      modifies this
      ensures data == old(data).(formSubmissions := old(data).formSubmissions + [NewFormSubmission(submission, token, today)])
    {
      data := Step(data, Op.AddFormSubmission(submission, token, today));
    }

    method UpdateFormSubmission(id: string, patch: Record)
      modifies this
      ensures data == old(data).(formSubmissions := UpdateById(old(data).formSubmissions, id, patch))
    {
      data := Step(data, Op.UpdateFormSubmission(id, patch));
    }
  }
}
