/** The article page: the post chosen by the slug in the address, the related
    posts, and the classifier that turns each paragraph of the article text
    into a heading, a list or a paragraph. */
module BlogPost {
  import opened Wrappers
  import opened Seqs
  import opened Strings
  import opened Records
  import DataContext

  /** A post created by `addBlogPost` is found at its slug: it is the post
      shown unless an older post already has the same slug. */
  lemma NewPostReachable(posts: seq<Record>, post: Record, token: string, today: string)
    requires IsText(post, "title")
    ensures DataContext.NewBlogPost(post, token, today).Some?
    ensures var p := DataContext.NewBlogPost(post, token, today).value;
            var slug := DataContext.PostSlug(Text(post, "title"));
            BySlug(posts + [p], slug) ==
              if BySlug(posts, slug).Some? then BySlug(posts, slug) else Some(p)
  {
    var p := DataContext.NewBlogPost(post, token, today).value;
    var slug := DataContext.PostSlug(Text(post, "title"));
    FindSnoc(posts, p, SlugIs(slug));
  }

  /** Two posts share a tag when both have tags and one tag appears in both lists. */
  predicate SharesTag(a: Record, b: Record)
  {
    var ta, tb := List(a, "tags"), List(b, "tags");
    exists i :: 0 <= i < |ta| && ta[i] in tb
  }

  /** The related-post test: a different id, and the same author or a shared tag. */
  predicate IsRelated(post: Record, p: Record)
  {
    Get(p, "id") != Get(post, "id") && (Get(p, "author") == Get(post, "author") || SharesTag(p, post))
  }

  function RelatedTo(post: Record): Record -> bool
  {
    (p: Record) => IsRelated(post, p)
  }

  /** `relatedPosts`: the first three related posts in catalog order. */
  function RelatedPosts(posts: seq<Record>, post: Record): (r: seq<Record>)
    ensures |r| <= 3
    ensures forall i :: 0 <= i < |r| ==> IsRelated(post, r[i])
    ensures post !in r
  {
    Take(Filter(posts, RelatedTo(post)), 3)
  }

  /** The related posts are the catalog's related posts in order, cut off after
      three: a related post is left out only when three are already shown, and
      the posts shown are all the related posts of some prefix of the catalog,
      so none is skipped in favour of a later one. */
  lemma RelatedPostsExact(posts: seq<Record>, post: Record, p: Record)
    ensures IsSubseq(RelatedPosts(posts, post), posts)
    ensures p in RelatedPosts(posts, post) ==> p in posts
    ensures p in posts && IsRelated(post, p) && p !in RelatedPosts(posts, post) ==>
              |RelatedPosts(posts, post)| == 3
    ensures exists m :: 0 <= m <= |posts| && (m == |posts| || |RelatedPosts(posts, post)| == 3)
                        && RelatedPosts(posts, post) == Filter(posts[..m], RelatedTo(post))
                        && forall x :: x in RelatedPosts(posts, post) <==> x in posts[..m] && IsRelated(post, x)
  {
    TakeFilterExact(posts, RelatedTo(post), 3, p);
    TakeFilterPrefix(posts, RelatedTo(post), 3);
    var m :| 0 <= m <= |posts| && Take(Filter(posts, RelatedTo(post)), 3) == Filter(posts[..m], RelatedTo(post))
             && (m == |posts| || |Take(Filter(posts, RelatedTo(post)), 3)| == 3);
    forall x ensures x in RelatedPosts(posts, post) <==> x in posts[..m] && IsRelated(post, x) {
      FilterMembership(posts[..m], RelatedTo(post), x);
    }
  }

  /** What one paragraph of the article renders as. */
  datatype Block =
    | Heading2(text: string)
    | Heading3(text: string)
    | BulletList(items: seq<string>)
    | NumberedList(items: seq<string>)
    | Paragraph(text: string)
    | Nothing

  /** The number of decimal digits at the front of `s`. */
  function LeadingDigits(s: string): (k: nat)
    ensures k <= |s|
    ensures forall i :: 0 <= i < k ==> IsDigit(s[i])
    ensures k < |s| ==> !IsDigit(s[k])
  {
    if s != [] && IsDigit(s[0]) then 1 + LeadingDigits(s[1..]) else 0
  }

  /** `s.match(/^\d+\./)`: one or more digits and then a full stop. */
  predicate IsNumbered(s: string)
  {
    var k := LeadingDigits(s);
    0 < k < |s| && s[k] == '.'
  }

  /** A number followed by a full stop is recognised whatever follows it. */
  lemma {:induction false} NumberedMarker(digits: string, rest: string)
    requires digits != [] && forall i :: 0 <= i < |digits| ==> IsDigit(digits[i])
    ensures IsNumbered(digits + "." + rest)
  {
    LeadingDigitsPrefix(digits, "." + rest);
    assert (digits + "." + rest)[|digits|] == '.';
  }

  lemma {:induction false} LeadingDigitsPrefix(digits: string, rest: string)
    requires forall i :: 0 <= i < |digits| ==> IsDigit(digits[i])
    requires rest == [] || !IsDigit(rest[0])
    ensures LeadingDigits(digits + rest) == |digits|
  {
    if digits != [] {
      assert (digits + rest)[1..] == digits[1..] + rest;
      LeadingDigitsPrefix(digits[1..], rest);
    } else {
      assert digits + rest == rest;
    }
  }

  function LineStartsWith(marker: string): string -> bool
  {
    (line: string) => StartsWith(line, marker)
  }

  /** `paragraph.split('\n').filter(item => item.startsWith(marker))`. */
  function MarkedLines(p: string, marker: string): (items: seq<string>)
    ensures forall i :: 0 <= i < |items| ==> StartsWith(items[i], marker)
  {
    Filter(Split(p, "\n"), LineStartsWith(marker))
  }

  /** `paragraph.split('\n').filter(item => item.match(/^\d+\./))`. */
  function NumberedLines(p: string): (items: seq<string>)
    ensures forall i :: 0 <= i < |items| ==> IsNumbered(items[i])
  {
    Filter(Split(p, "\n"), IsNumbered)
  }

  /** The items of a list are exactly the paragraph's lines that carry the
      list's marker, in the order of the lines. */
  lemma ListItemsExact(p: string, marker: string, line: string)
    ensures IsSubseq(MarkedLines(p, marker), Split(p, "\n"))
    ensures line in MarkedLines(p, marker) <==> line in Split(p, "\n") && StartsWith(line, marker)
    ensures IsSubseq(NumberedLines(p), Split(p, "\n"))
    ensures line in NumberedLines(p) <==> line in Split(p, "\n") && IsNumbered(line)
  {
    FilterIsSubseq(Split(p, "\n"), LineStartsWith(marker));
    FilterMembership(Split(p, "\n"), LineStartsWith(marker), line);
    FilterIsSubseq(Split(p, "\n"), IsNumbered);
    FilterMembership(Split(p, "\n"), IsNumbered, line);
  }

  /** A list paragraph never renders as an empty list: the paragraph's first
      line carries the marker, so it is the first item. */
  lemma MarkedLinesStartWithFirstLine(p: string, marker: string)
    requires StartsWith(p, marker) && '\n' !in marker
    ensures MarkedLines(p, marker) != [] && MarkedLines(p, marker)[0] == Split(p, "\n")[0]
  {
    var line := Split(p, "\n")[0];
    SplitHead(p, "\n");
    forall i | 0 <= i < |marker| ensures !OccursAt(p, "\n", i) {
      assert p[i] == marker[i];
      assert p[i..i + 1] == [p[i]];
    }
    assert |line| >= |marker|;
    assert line[..|marker|] == p[..|marker|];
  }

  /** The HTML of a bullet item: `- **Name**: text` becomes
      `<strong>Name:</strong> text`. */
  function Emphasize(item: string): string
  {
    ReplaceFirst(ReplaceFirst(item, "- **", "<strong>"), "**:", ":</strong>")
  }

  lemma EmphasizeName(name: string, text: string)
    requires forall i :: 0 <= i < |name| ==> name[i] != '*'
    ensures Emphasize("- **" + name + "**:" + text) == "<strong>" + name + ":</strong>" + text
  {
    assert "- **" + name + "**:" + text == "- **" + (name + "**:" + text);
    ReplaceFirstAtStart("- **", name + "**:" + text, "<strong>");
    var head := "<strong>" + name;
    assert "<strong>" + (name + "**:" + text) == head + "**:" + text;
    assert forall i :: 0 <= i < |head| ==> head[i] != '*';
    CloseStrong(head, text);
  }

  /** The first `**:` after a text without asterisks is the one that follows it. */
  lemma CloseStrong(head: string, text: string)
    requires forall i :: 0 <= i < |head| ==> head[i] != '*'
    ensures ReplaceFirst(head + "**:" + text, "**:", ":</strong>") == head + ":</strong>" + text
  {
    forall j ensures !OccursAt(head + "**", "**:", j) {
      if 0 <= j < |head| {
        assert (head + "**")[j..j + 3][0] == head[j] != '*';
      }
    }
    ContainsIff(head + "**", "**:");
    assert "**:"[..2] == "**";
    IndexOfAfterClean(head, "**:", text);
    assert (head + "**:" + text)[..|head|] == head;
    assert (head + "**:" + text)[|head| + 3..] == text;
  }

  /** The branches after the two heading tests, which the page takes in this
      order: a paragraph starting with `- ` is a bullet list (the `- **` test
      only chooses which lines become items), one starting with a number and a
      full stop is a numbered list, and any other paragraph with text is shown
      as it is. */
  function ClassifyBody(p: string): (b: Block)
    ensures b.BulletList? <==> StartsWith(p, "- ")
    ensures b.NumberedList? <==> IsNumbered(p)
    ensures b == Paragraph(p) <==> HasNonSpace(p) && !StartsWith(p, "- ") && !IsNumbered(p)
    ensures !b.Heading2? && !b.Heading3?
  {
    if StartsWith(p, "- **") then
      StartsWithHead(p, "- **");
      assert p[..2] == p[..4][..2];
      BulletList(MapSeq(MarkedLines(p, "- **"), Emphasize))
    else if IsNumbered(p) then
      NotStartsWithHead(p, "- ");
      NumberedList(NumberedLines(p))
    else if StartsWith(p, "- ") then
      StartsWithHead(p, "- ");
      BulletList(MapSeq(MarkedLines(p, "- "), Emphasize))
    else if HasNonSpace(p) then Paragraph(p)
    else Nothing
  }

  /** The paragraph classifier as the page writes it: `'##'` is tested before
      `'###'`, so a `###` paragraph takes the first branch. */
  function ClassifyAsWritten(p: string): (b: Block)
    ensures b.Heading2? <==> StartsWith(p, "##")
    ensures b.BulletList? <==> StartsWith(p, "- ")
    ensures b.NumberedList? <==> IsNumbered(p)
    ensures b == Paragraph(p) <==> HasNonSpace(p) && !StartsWith(p, "##") && !StartsWith(p, "- ") && !IsNumbered(p)
  {
    if StartsWith(p, "##") then
      StartsWithHead(p, "##");
      NotStartsWithHead(p, "- ");
      Heading2(ReplaceFirst(p, "## ", ""))
    else ClassifyAfterHeading2(p)
  }

  /** The rest of the page's chain, from the `'###'` test on. Every paragraph
      that passes that test has already passed the `'##'` one. */
  function ClassifyAfterHeading2(p: string): (b: Block)
    ensures !StartsWith(p, "##") ==> b == ClassifyBody(p)
  {
    if StartsWith(p, "###") then
      assert p[..2] == p[..3][..2];
      Heading3(ReplaceFirst(p, "### ", ""))
    else ClassifyBody(p)
  }

  /** The third-level branch is dead: no paragraph renders as `<h3>`. */
  lemma ClassifyAsWrittenNeverHeading3(p: string)
    ensures !ClassifyAsWritten(p).Heading3?
  {
    if StartsWith(p, "###") {
      assert p[..2] == p[..3][..2];
    }
  }

  /** `### Title` renders as a second-level heading reading `#Title`. */
  lemma ClassifyAsWrittenMangles(t: string)
    ensures ClassifyAsWritten("### " + t) == Heading2("#" + t)
  {
    var p := "### " + t;
    assert p == "#" + "## " + t;
    assert StartsWith(p, "##");
    assert "## "[..2] == "##";
    forall j ensures !OccursAt("###", "## ", j) {
      if j == 0 {
        assert "###"[0..3][2] != "## "[2];
      }
    }
    ContainsIff("###", "## ");
    IndexOfAfterClean("#", "## ", t);
    assert p[..1] == "#";
    assert p[1 + 3..] == t;
  }

  /** The classifier with the more specific `'###'` test first. */
  function Classify(p: string): (b: Block)
    ensures b.Heading3? <==> StartsWith(p, "###")
    ensures b.Heading2? <==> StartsWith(p, "##") && !StartsWith(p, "###")
    ensures b.BulletList? <==> StartsWith(p, "- ")
    ensures b.NumberedList? <==> IsNumbered(p)
    ensures b == Paragraph(p) <==> HasNonSpace(p) && !StartsWith(p, "##") && !StartsWith(p, "- ") && !IsNumbered(p)
  {
    if StartsWith(p, "###") then
      StartsWithHead(p, "###");
      NotStartsWithHead(p, "- ");
      assert p[..2] == p[..3][..2];
      Heading3(ReplaceFirst(p, "### ", ""))
    else if StartsWith(p, "##") then
      StartsWithHead(p, "##");
      NotStartsWithHead(p, "- ");
      Heading2(ReplaceFirst(p, "## ", ""))
    else ClassifyBody(p)
  }

  /** A list paragraph renders the same under both classifiers. A `- **`
      paragraph lists exactly its `- **` lines, emphasised, so its plain `- `
      lines are dropped; another `- ` paragraph lists its `- ` lines, and a
      numbered paragraph its numbered lines. */
  lemma ListBlockItems(p: string, line: string)
    ensures StartsWith(p, "- **") ==>
              Classify(p) == ClassifyAsWritten(p) == BulletList(MapSeq(MarkedLines(p, "- **"), Emphasize))
    ensures StartsWith(p, "- ") && !StartsWith(p, "- **") ==>
              Classify(p) == ClassifyAsWritten(p) == BulletList(MapSeq(MarkedLines(p, "- "), Emphasize))
    ensures IsNumbered(p) ==> Classify(p) == ClassifyAsWritten(p) == NumberedList(NumberedLines(p))
    ensures line in MarkedLines(p, "- **") <==> line in Split(p, "\n") && StartsWith(line, "- **")
  {
    if StartsWith(p, "- **") {
      StartsWithHead(p, "- **");
      BodyParagraph(p);
    } else if StartsWith(p, "- ") {
      StartsWithHead(p, "- ");
      BodyParagraph(p);
    } else if IsNumbered(p) {
      BodyParagraph(p);
    }
    ListItemsExact(p, "- **", line);
  }

  /** A paragraph that does not start with `#` takes the same branches in both orders. */
  lemma BodyParagraph(p: string)
    requires p != [] && p[0] != '#'
    ensures Classify(p) == ClassifyAsWritten(p) == ClassifyBody(p)
  {
    NotStartsWithHead(p, "##");
    NotStartsWithHead(p, "###");
  }

  /** The heading markers are removed and the title is kept. */
  lemma ClassifyHeadings(t: string)
    ensures Classify("## " + t) == Heading2(t)
    ensures Classify("### " + t) == Heading3(t)
  {
    ReplaceFirstAtStart("## ", t, "");
    ReplaceFirstAtStart("### ", t, "");
    assert ("## " + t)[..3] == "## ";
  }

  /** A paragraph renders as nothing exactly when it is white space only. */
  lemma ClassifyNothing(p: string)
    ensures Classify(p) == Nothing <==> !HasNonSpace(p)
  {
    if !HasNonSpace(p) && p != [] {
      assert !IsSpace(p[0]) ==> HasNonSpace(p);
      NotStartsWithHead(p, "##");
      NotStartsWithHead(p, "###");
      NotStartsWithHead(p, "- **");
      NotStartsWithHead(p, "- ");
      assert LeadingDigits(p) == 0;
    }
  }

  /** The article body with the corrected classifier: the text cut at every
      blank line, each paragraph classified. */
  function Render(text: string): (blocks: seq<Block>)
    ensures |blocks| == |Split(text, "\n\n")|
    ensures forall i :: 0 <= i < |blocks| ==> blocks[i] == Classify(Split(text, "\n\n")[i])
  {
    MapSeq(Split(text, "\n\n"), Classify)
  }

  /** The article body as the page renders it, with the as-written classifier. */
  function RenderAsWritten(text: string): (blocks: seq<Block>)
    ensures |blocks| == |Split(text, "\n\n")|
    ensures forall i :: 0 <= i < |blocks| ==> blocks[i] == ClassifyAsWritten(Split(text, "\n\n")[i])
  {
    MapSeq(Split(text, "\n\n"), ClassifyAsWritten)
  }

  /** The as-written and the corrected classifier disagree exactly on the
      paragraphs that start with `###`. */
  lemma ClassifyAsWrittenAgrees(p: string)
    ensures ClassifyAsWritten(p) == Classify(p) <==> !StartsWith(p, "###")
  {
    if StartsWith(p, "###") {
      assert p[..2] == p[..3][..2];
    }
  }

  /** The page renders an article as the corrected classifier would exactly
      when none of its paragraphs starts with `###`. */
  lemma RenderAgrees(text: string)
    ensures RenderAsWritten(text) == Render(text) <==>
              forall i :: 0 <= i < |Split(text, "\n\n")| ==> !StartsWith(Split(text, "\n\n")[i], "###")
  {
    var parts := Split(text, "\n\n");
    MapSeqAgree(parts, ClassifyAsWritten, Classify);
    forall i | 0 <= i < |parts|
      ensures ClassifyAsWritten(parts[i]) == Classify(parts[i]) <==> !StartsWith(parts[i], "###")
    {
      ClassifyAsWrittenAgrees(parts[i]);
    }
  }

  /** No line break in `s` is directly followed by another. */
  predicate NoBlankLine(s: string)
  {
    forall i :: 0 <= i < |s| - 1 ==> !(s[i] == '\n' && s[i + 1] == '\n')
  }

  /** A piece of text that can stand as one paragraph of an article: it holds
      no blank line and does not end with a line break. */
  predicate IsSection(s: string)
  {
    NoBlankLine(s) && (s == [] || s[|s| - 1] != '\n')
  }

  lemma NoBlankLineAppend(a: string, b: string)
    requires NoBlankLine(a) && NoBlankLine(b)
    requires a == [] || a[|a| - 1] != '\n'
    ensures NoBlankLine(a + b)
  {
    var s := a + b;
    forall i | 0 <= i < |s| - 1 ensures !(s[i] == '\n' && s[i + 1] == '\n') {
      if i < |a| - 1 {
        assert s[i] == a[i] && s[i + 1] == a[i + 1];
      } else if i >= |a| {
        assert s[i] == b[i - |a|] && s[i + 1] == b[i + 1 - |a|];
      }
    }
  }

  lemma NoBlankLineSplit(s: string)
    requires NoBlankLine(s)
    ensures Split(s, "\n\n") == [s]
  {
    forall i ensures !OccursAt(s, "\n\n", i) {
      if 0 <= i && i + 2 <= |s| {
        assert s[i..i + 2][0] == s[i] && s[i..i + 2][1] == s[i + 1];
      }
    }
    ContainsIff(s, "\n\n");
  }

  /** The source text indents every line of the template by four spaces: each
      line break inside a piece is followed by the indentation. */
  function Indent(s: string): string
  {
    if s == [] then [] else (if s[0] == '\n' then "\n    " else [s[0]]) + Indent(s[1..])
  }

  lemma {:induction false} IndentNoBlankLine(s: string)
    ensures IsSection(Indent(s))
  {
    if s != [] {
      IndentNoBlankLine(s[1..]);
      var head := if s[0] == '\n' then "\n    " else [s[0]];
      assert IsSection(head);
      NoBlankLineAppend(head, Indent(s[1..]));
    }
  }

  /** The demo sections as the indented template literal lays them out: every
      "blank" line between two sections holds the four spaces of indentation. */
  function IndentedSections(sections: seq<string>): string
  {
    if sections == [] then [] else "\n    \n    " + Indent(sections[0]) + IndentedSections(sections[1..])
  }

  lemma {:induction false} IndentedSectionsNoBlankLine(sections: seq<string>)
    ensures IsSection(IndentedSections(sections))
  {
    if sections != [] {
      IndentedSectionsNoBlankLine(sections[1..]);
      IndentNoBlankLine(sections[0]);
      var gap := "\n    \n    ";
      assert IsSection(gap);
      NoBlankLineAppend(gap, Indent(sections[0]));
      NoBlankLineAppend(gap + Indent(sections[0]), IndentedSections(sections[1..]));
    }
  }

  /** `extendedContent` as written: the post's content on an indented line,
      then the demo sections, each after an indented "blank" line. */
  function ExtendedContentAsWritten(content: string, sections: seq<string>): string
  {
    "\n    " + content + IndentedSections(sections) + "\n  "
  }

  /** Whatever the demo sections say, an article whose content holds no blank
      line renders as one single paragraph: the separators hold spaces, so
      `split('\n\n')` never cuts, and the demo's headings and lists are shown as
      plain text. This holds for either order of the heading tests. */
  lemma ExtendedContentAsWrittenIsOneParagraph(content: string, sections: seq<string>)
    requires IsSection(content) && HasNonSpace(content)
    ensures var text := ExtendedContentAsWritten(content, sections);
            RenderAsWritten(text) == [Paragraph(text)] && Render(text) == [Paragraph(text)]
  {
    var text := ExtendedContentAsWritten(content, sections);
    AsWrittenNoBlankLine(content, sections);
    NoBlankLineSplit(text);
    var i :| 0 <= i < |content| && !IsSpace(content[i]);
    assert text[5 + i] == content[i];
    PlainParagraph(text);
  }

  lemma AsWrittenNoBlankLine(content: string, sections: seq<string>)
    requires IsSection(content)
    ensures NoBlankLine(ExtendedContentAsWritten(content, sections))
  {
    var lead := "\n    ";
    IndentedSectionsNoBlankLine(sections);
    assert IsSection(lead);
    NoBlankLineAppend(lead, content);
    assert IsSection(lead + content);
    NoBlankLineAppend(lead + content, IndentedSections(sections));
    NoBlankLineAppend(lead + content + IndentedSections(sections), "\n  ");
  }

  /** A paragraph that holds some text and does not begin with a heading,
      list or number marker is a plain paragraph. */
  lemma PlainParagraph(p: string)
    requires p != [] && p[0] != '#' && p[0] != '-' && !IsDigit(p[0]) && HasNonSpace(p)
    ensures ClassifyAsWritten(p) == Paragraph(p) && Classify(p) == Paragraph(p)
  {
    NotStartsWithHead(p, "##");
    NotStartsWithHead(p, "###");
    NotStartsWithHead(p, "- **");
    NotStartsWithHead(p, "- ");
    assert LeadingDigits(p) == 0;
  }

  /** `extendedContent` with the indentation removed: the content and the demo
      sections separated by empty lines. */
  function ExtendedContent(content: string, sections: seq<string>): string
  {
    Join([content] + sections, "\n\n")
  }

  lemma SectionEndsCleanly(s: string)
    requires IsSection(s)
    ensures EndsCleanly(s, "\n\n")
  {
    assert "\n\n"[..1] == "\n";
    NoBlankLineAppend(s, "\n");
    forall i ensures !OccursAt(s + "\n", "\n\n", i) {
      if 0 <= i && i + 2 <= |s| + 1 {
        assert (s + "\n")[i..i + 2][0] == (s + "\n")[i];
        assert (s + "\n")[i..i + 2][1] == (s + "\n")[i + 1];
      }
    }
    ContainsIff(s + "\n", "\n\n");
  }

  /** With empty separator lines, the content and every demo section are each
      a paragraph of their own and are classified one by one, so a section
      `## Introduction` renders as the heading "Introduction". */
  lemma ExtendedContentSections(content: string, sections: seq<string>)
    requires IsSection(content)
    requires forall i :: 0 <= i < |sections| ==> IsSection(sections[i])
    ensures Render(ExtendedContent(content, sections)) == MapSeq([content] + sections, Classify)
  {
    var parts := [content] + sections;
    forall i | 0 <= i < |parts| ensures EndsCleanly(parts[i], "\n\n") {
      SectionEndsCleanly(parts[i]);
    }
    JoinSplit(parts, "\n\n");
  }

  /** A post whose content is `Hello`, with one demo section `## Introduction`:
      as written the page shows one paragraph. */
  lemma HelloArticleAsWritten()
    ensures |RenderAsWritten(ExtendedContentAsWritten("Hello", ["## Introduction"]))| == 1
  {
    HelloIsSection();
    ExtendedContentAsWrittenIsOneParagraph("Hello", ["## Introduction"]);
  }

  lemma HelloIsSection()
    ensures IsSection("Hello") && HasNonSpace("Hello")
  {
    assert !IsSpace("Hello"[0]);
  }

  /** The same post with empty separator lines shows the heading "Introduction"
      after the content. */
  lemma HelloArticle()
    ensures Render(ExtendedContent("Hello", ["## Introduction"])) == [Paragraph("Hello"), Heading2("Introduction")]
  {
    HelloIsSection();
    IntroIsSection();
    ExtendedContentSections("Hello", ["## Introduction"]);
    assert ["Hello"] + ["## Introduction"] == ["Hello", "## Introduction"];
    MapSeqPair("Hello", "## Introduction", Classify);
    HelloIsParagraph();
    ClassifyHeadings("Introduction");
  }

  lemma HelloIsParagraph()
    ensures Classify("Hello") == Paragraph("Hello")
  {
    HelloIsSection();
    assert "Hello"[0] == 'H';
    PlainParagraph("Hello");
  }

  lemma IntroIsSection()
    ensures IsSection("## Introduction") && "## Introduction" == "## " + "Introduction"
  {
  }
}
