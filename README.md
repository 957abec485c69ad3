# IEEE student chapter site: catalog store and page logic

This project models the data layer of a student-chapter website. The site keeps one catalog with five collections: events, members, blog posts, gallery images and contact-form submissions. A React context (`DataContext`) holds the catalog and exposes thirteen operations that add, update and delete entries. No page in this source calls them yet; the model covers them as the store's interface. The public pages (Events, Members, Blog, Gallery and the detail pages for a post, an event and a member) derive what they show from the catalog: filtered lists, statistics, badge colours, related items, the lightbox position and the article body split into blocks.

How entities are modelled:
- A stored entity is a JavaScript object, modelled as a `Record = map<string, Value>`.
- A missing property is `None` (`undefined`).
- JavaScript truthiness, `===` on strings, `{...a, ...b}` and `toLowerCase().includes(...)` are each written out once in `Records`.

How the store is modelled:
- `DataContext.Catalog` is a class with one `data` field.
- Each of its methods replaces exactly one collection with a pure function of the old one, stated in full in its `ensures`.
- `DataContext.Step` gives the same transition on values, so lemmas can quantify over every operation.
- The clock readings are parameters: `token` for `Date.now().toString()` and `today` for the ISO date.

Modules:
- `Wrappers`: the `Option` type.
- `Seqs`: filters, prefixes, first-match search and de-duplication, with the sub-sequence order they keep.
- `Strings`: search, split and join, and the regex replacements used for slugs.
- `Records`, `DataContext`: the entities and the store.
- One module per page: `Events`, `Members`, `Blog`, `Gallery`, `BlogPost`, `EventDetail`, `MemberProfile`.

## Model

| member | source | states |
|---|---|---|
| DataContext.Catalog.constructor | src/contexts/DataContext.jsx:213-216 | the store starts with the given catalog (the saved one or the built-in one) |
| DataContext.Catalog.AddEvent | src/contexts/DataContext.jsx:222-231 | the new event is appended at the end of the events and no other collection changes |
| DataContext.Catalog.UpdateEvent | src/contexts/DataContext.jsx:233-240 | events become `UpdateById` of the old events and nothing else changes |
| DataContext.Catalog.DeleteEvent | src/contexts/DataContext.jsx:242-247 | events become `DeleteById` of the old events and nothing else changes |
| DataContext.Catalog.AddMember | src/contexts/DataContext.jsx:249-260 | succeeds iff the name is a string; then the new member is appended; otherwise the state is unchanged (the page throws before `setData`) |
| DataContext.Catalog.UpdateMember | src/contexts/DataContext.jsx:262-269 | members become `UpdateById` of the old members and nothing else changes |
| DataContext.Catalog.DeleteMember | src/contexts/DataContext.jsx:271-276 | members become `DeleteById` of the old members and nothing else changes |
| DataContext.Catalog.AddBlogPost | src/contexts/DataContext.jsx:278-289 | succeeds iff the title is a string; then the new post is appended; otherwise the state is unchanged |
| DataContext.Catalog.UpdateBlogPost | src/contexts/DataContext.jsx:291-298 | posts become `UpdateById` of the old posts and nothing else changes |
| DataContext.Catalog.DeleteBlogPost | src/contexts/DataContext.jsx:300-305 | posts become `DeleteById` of the old posts and nothing else changes |
| DataContext.Catalog.AddGalleryItem | src/contexts/DataContext.jsx:307-317 | the new item is appended to the gallery and nothing else changes |
| DataContext.Catalog.DeleteGalleryItem | src/contexts/DataContext.jsx:319-324 | the gallery becomes `DeleteById` of the old gallery and nothing else changes |
| DataContext.Catalog.AddFormSubmission | src/contexts/DataContext.jsx:326-337 | the new submission is appended and nothing else changes |
| DataContext.Catalog.UpdateFormSubmission | src/contexts/DataContext.jsx:339-346 | submissions become `UpdateById` of the old submissions and nothing else changes |
| DataContext.NewEvent | src/contexts/DataContext.jsx:223-226 | the id is always the clock token, even when the caller supplied one; the keys are the event's plus `id`; every other property is kept |
| DataContext.NewMember | src/contexts/DataContext.jsx:250-255 | a member exists iff the name is a string; it carries the token id, the slug of the name and today's join date; every other property is kept |
| DataContext.NewBlogPost | src/contexts/DataContext.jsx:279-284 | a post exists iff the title is a string; it carries the token id, the slug of the title and today's date; every other property is kept |
| DataContext.NewGalleryItem | src/contexts/DataContext.jsx:308-312 | the item carries the token id and today's date; every other property is kept |
| DataContext.NewFormSubmission | src/contexts/DataContext.jsx:327-332 | a new submission is always `unread`, whatever status the caller gave; it carries the token id and today's date |
| DataContext.MemberSlug | src/contexts/DataContext.jsx:253 | the slug has no white space and no capital letter, and it equals the lower-cased name once white space and hyphens are dropped |
| DataContext.MemberSlugIdempotent | src/contexts/DataContext.jsx:253 | a member slug is its own slug |
| DataContext.MemberSlugOfWords | src/contexts/DataContext.jsx:253 | a name of single-space-separated words slugs to its lower-cased words joined by `-` |
| DataContext.MemberSlugOfRuns | src/contexts/DataContext.jsx:253 | for any name of words separated by white-space runs of any length, each run becomes exactly one `-`, a leading or trailing run included, and the words are lower-cased |
| DataContext.MemberSlugOfBlank | src/contexts/DataContext.jsx:253 | a name of white space only slugs to `-` |
| DataContext.SarahJohnsonSlug | src/contexts/DataContext.jsx:253 | "Sarah Johnson" slugs to "sarah-johnson" |
| DataContext.PostSlug | src/contexts/DataContext.jsx:282 | only `a-z`, `0-9` and `-` remain, and the letters and digits are exactly those of the lower-cased title, in order |
| DataContext.PostSlugIdempotent | src/contexts/DataContext.jsx:282 | a post slug is its own slug |
| DataContext.PostSlugOfWords | src/contexts/DataContext.jsx:282 | a title of single-space-separated words slugs to each word's surviving slug characters joined by `-` |
| DataContext.HelloWorldSlug | src/contexts/DataContext.jsx:282 | "Hello, World! 2024" slugs to "hello-world-2024" |
| DataContext.UpdateById | src/contexts/DataContext.jsx:236-238 | same length; an element with another id is unchanged; the element with the id becomes the shallow merge with the patch |
| DataContext.UpdateUnknownId | src/contexts/DataContext.jsx:236-238 | updating an id that no element carries changes nothing |
| DataContext.UpdateKeepsUnpatched | src/contexts/DataContext.jsx:237 | an updated element takes the patched properties, keeps every other property and gains no other key |
| DataContext.UpdateKeepsIds | src/contexts/DataContext.jsx:237 | a patch without `id` leaves every element's id as it was |
| DataContext.DeleteById | src/contexts/DataContext.jsx:245 | no element with the id remains and the collection never grows |
| DataContext.DeleteKeepsOthers | src/contexts/DataContext.jsx:245 | deletion keeps exactly the elements with another id, in their order |
| DataContext.DeleteIdempotent | src/contexts/DataContext.jsx:245 | deleting twice is deleting once |
| DataContext.DeleteUnknownId | src/contexts/DataContext.jsx:245 | deleting an id that no element carries changes nothing |
| DataContext.FormSubmissionsNeverRemoved | src/contexts/DataContext.jsx:348-363 | no operation of the store removes a submission; each keeps its place and changes at most by a merge from `updateFormSubmission` |
| DataContext.GalleryItemsNeverEdited | src/contexts/DataContext.jsx:348-363 | no operation edits a gallery item: every item afterwards was there before or is the one just added |
| Records.Merge | src/contexts/DataContext.jsx:237 | `{...x, ...patch}`: the patch's properties win, all others are kept, none is removed |
| Records.MatchesEmpty | src/pages/Events.jsx:37-39 | an empty search term matches every text |
| Events.FilteredEvents | src/pages/Events.jsx:35-48 | the shown count never exceeds the total, and every shown event passes search, type, status and year |
| Events.FilteredEventsExact | src/pages/Events.jsx:35-48 | the filtered list is a sub-sequence of the events and holds exactly the events that pass the filter |
| Events.NoFilterShowsAll | src/pages/Events.jsx:35-48 | with an empty search and every selector on `all`, every event is shown |
| Events.StatusCountsBounded | src/pages/Events.jsx:50-51 | the upcoming and completed counts together never exceed the number of events |
| Events.EventTypeCount | src/pages/Events.jsx:114 | the "Event Types" figure is the number of distinct `type` values |
| Events.EventTypeColor | src/pages/Events.jsx:59-68 | gray iff the type is not one of the five known types; otherwise a colour from the table; the event page's identical table at EventDetail.jsx:64-73 is the same function |
| Events.EventStatusColor | src/pages/Events.jsx:70-77 | gray iff the status is neither `upcoming` nor `cancelled` (`completed` is gray too); the event page's identical table at EventDetail.jsx:75-82 is the same function |
| Members.FilteredMembers | src/pages/Members.jsx:35-47 | never more than all members; each shown member passes search, team, year and status |
| Members.FilteredMembersExact | src/pages/Members.jsx:35-47 | the filtered list is a sub-sequence holding exactly the members that pass the filter |
| Members.MemberStatsOf | src/pages/Members.jsx:49-56 | total is the member count; active plus alumni is at most the total; teams is the number of distinct team values |
| Members.TeamBadgeClass | src/pages/Members.jsx:64-72 | `team-technical` iff the team is not management, marketing or design; always a class from the table; the profile page's identical table at MemberProfile.jsx:53-61 is the same function |
| Members.StatusBadgeClass | src/pages/Members.jsx:74-81 | `status-inactive` iff the status is neither active nor alumni; always a class from the table; the profile page's identical table at MemberProfile.jsx:63-70 is the same function |
| Members.SkillsPreviewOf | src/pages/Members.jsx:275-286 | no skill row iff there are no skills; otherwise the first min(3, n) skills are shown; "+N" appears iff there are more than three, and shown plus N is the number of skills |
| Blog.AllTagsSpec | src/pages/Blog.jsx:30-38 | the tag list starts with `all` and has no repeated tag after it |
| Blog.AllTags | src/pages/Blog.jsx:30-38 | the set-building loop yields `all` followed by each tag once, in order of first use |
| Blog.AddTags | src/pages/Blog.jsx:34 | adding one post's tags to the set keeps it equal to the distinct tags seen so far |
| Blog.AllTagsOffersEveryTag | src/pages/Blog.jsx:30-38 | a tag is offered iff some post carries it |
| Blog.AllTagsInFirstUseOrder | src/pages/Blog.jsx:30-38 | the tag list of the first k posts is a prefix of the full tag list |
| Blog.TopicsCovered | src/pages/Blog.jsx:107 | "Topics Covered" is the number of distinct tags over all posts |
| Blog.ContributorCount | src/pages/Blog.jsx:106 | "Contributors" is the number of distinct authors, never more than the posts |
| Blog.FilteredPosts | src/pages/Blog.jsx:40-50 | never more than all posts; each shown post matches the search and the selected tag |
| Blog.FilteredPostsExact | src/pages/Blog.jsx:40-50 | the filtered list is a sub-sequence holding exactly the posts that pass the filter |
| Blog.TagButtonShowsTaggedPosts | src/pages/Blog.jsx:46 | with an empty search, a tag button shows exactly the posts carrying that tag |
| Blog.FeaturedPost | src/pages/Blog.jsx:52 | none iff there are no posts; otherwise the first featured post, or the first post when none is featured |
| Blog.RegularPosts | src/pages/Blog.jsx:53 | an ordered sub-sequence of the filtered posts; none has the featured post's id |
| Blog.RegularPostsExact | src/pages/Blog.jsx:53 | a post is listed iff it passes the filter and its id differs from the featured one; the featured post is never listed twice |
| Blog.CeilDiv | src/pages/Blog.jsx:58 | `Math.ceil(a / b)`: the least q with `b * q >= a` |
| Blog.ReadingTime | src/pages/Blog.jsx:55-59 | at least one minute for any content, the empty text included |
| Blog.ReadingTimeBounds | src/pages/Blog.jsx:55-59 | the word count (spaces plus one) lies in `(200*(m-1), 200*m]` for m minutes |
| Blog.ReadingTimeAtBoundary | src/pages/Blog.jsx:55-59 | 400 words read in 2 minutes and 401 words in 3 |
| Blog.TagColor | src/pages/Blog.jsx:61-71 | always one of the five palette colours |
| Blog.TagColorByLength | src/pages/Blog.jsx:69-70 | two tags share a colour iff their lengths agree modulo 5 |
| Gallery.FilteredImages | src/pages/Gallery.jsx:34-43 | never more than all images; each shown image passes search, category and year |
| Gallery.FilteredImagesExact | src/pages/Gallery.jsx:34-43 | the filtered list is a sub-sequence holding exactly the images that pass the filter |
| Gallery.NoFilterShowsAllImages | src/pages/Gallery.jsx:34-43 | with no search and both selectors on `all`, every image is shown |
| Gallery.CategoryCount | src/pages/Gallery.jsx:120 | "Categories" is the number of distinct category values |
| Gallery.CategoryColor | src/pages/Gallery.jsx:76-85 | gray iff the category is not one of the five known ones |
| Gallery.NextIndex | src/pages/Gallery.jsx:56-57 | stays in range; one more, or 0 after the last image |
| Gallery.PrevIndex | src/pages/Gallery.jsx:58 | stays in range; one less, or the last image before the first |
| Gallery.NextPrevInverse | src/pages/Gallery.jsx:55-62 | "next" then "previous", and "previous" then "next", return to the same image |
| Gallery.ForwardCompose | src/pages/Gallery.jsx:56-57 | a+b steps forward are a steps and then b steps |
| Gallery.ForwardCycle | src/pages/Gallery.jsx:56-57 | n "next" clicks over n images come back to the start |
| Gallery.Lightbox.constructor | src/pages/Gallery.jsx:28-29 | the lightbox starts closed at index 0 |
| Gallery.Lightbox.Open | src/pages/Gallery.jsx:45-48 | shows the given image at the given index |
| Gallery.Lightbox.Close | src/pages/Gallery.jsx:50-53 | clears the image and resets the index to 0 |
| Gallery.Lightbox.Navigate | src/pages/Gallery.jsx:55-62 | moves the index to the next or previous position and shows the image at that position |
| Gallery.OpenCard | src/pages/Gallery.jsx:226 | clicking the `i`-th card opens the lightbox on the `i`-th filtered image, with index `i` |
| Records.BySlug | src/pages/BlogPost.jsx:29 | none ("Article Not Found", or "Member Not Found" for the same lookup at MemberProfile.jsx:28) iff no record has the slug; otherwise the first record with that slug |
| BlogPost.NewPostReachable | src/pages/BlogPost.jsx:29 | a post just added is found by its slug, unless an earlier post already has it |
| BlogPost.RelatedPosts | src/pages/BlogPost.jsx:91-96 | at most three; each has another id and the same author or a shared tag; never the post itself |
| BlogPost.RelatedPostsExact | src/pages/BlogPost.jsx:91-96 | related posts keep catalog order; they equal the related posts of some prefix of the catalog, in order and with repeats, which is all of it unless three are shown, so no related post is skipped for a later one |
| BlogPost.LeadingDigits | src/pages/BlogPost.jsx:300 | the length of the longest digit prefix |
| BlogPost.NumberedMarker | src/pages/BlogPost.jsx:300 | digits followed by `.` match `/^\d+\./` |
| BlogPost.ListItemsExact | src/pages/BlogPost.jsx:287-325 | list items are exactly the paragraph's lines that carry the marker, in order |
| BlogPost.MarkedLinesStartWithFirstLine | src/pages/BlogPost.jsx:287-288 | a paragraph that starts with the marker lists its own first line first |
| BlogPost.EmphasizeName | src/pages/BlogPost.jsx:294 | `- **Name**: text` becomes `<strong>Name:</strong> text` |
| BlogPost.ClassifyAsWrittenNeverHeading3 | src/pages/BlogPost.jsx:275-286 | as written, no paragraph becomes a third-level heading |
| BlogPost.ClassifyAsWritten | src/pages/BlogPost.jsx:275-333 | as written: second-level heading iff the paragraph starts with `##`; bullet list iff it starts with `- `; numbered list iff it starts with digits and `.`; the paragraph itself iff it has text and is none of these |
| BlogPost.ClassifyAsWrittenMangles | src/pages/BlogPost.jsx:275-280 | as written, `### T` renders as a second-level heading `#T` |
| BlogPost.ClassifyBody | src/pages/BlogPost.jsx:287-333 | after the heading tests: a bullet list iff the paragraph starts with `- `, a numbered list iff it starts with digits and `.`, the paragraph itself iff it has text and is neither |
| BlogPost.ClassifyAfterHeading2 | src/pages/BlogPost.jsx:281-333 | the page's chain from the `###` test on, which a paragraph reaches only when it does not start with `##`, gives the body branches |
| BlogPost.Classify | src/pages/BlogPost.jsx:274-334 | the corrected classifier of the first finding below: third-level heading iff the paragraph starts with `###`; second-level iff it starts with `##` and not `###`; bullet list iff it starts with `- `; numbered list iff it starts with digits and `.`; the paragraph itself iff it has text and is none of these |
| BlogPost.ListBlockItems | src/pages/BlogPost.jsx:287-325 | a list paragraph renders the same under both orders; a `- **` paragraph lists exactly its `- **` lines, emphasised, dropping plain `- ` lines; other `- ` and numbered paragraphs list their own marked lines |
| BlogPost.ClassifyHeadings | src/pages/BlogPost.jsx:275-286 | the heading marker is removed and the title kept |
| BlogPost.ClassifyNothing | src/pages/BlogPost.jsx:326-333 | a paragraph renders as nothing iff it is white space only |
| BlogPost.RenderAsWritten | src/pages/BlogPost.jsx:274 | the page's rendering: one block per blank-line-separated paragraph, each as the as-written classifier makes it |
| BlogPost.Render | src/pages/BlogPost.jsx:274 | the corrected rendering: one block per blank-line-separated paragraph, each as the corrected classifier makes it |
| BlogPost.ClassifyAsWrittenAgrees | src/pages/BlogPost.jsx:275-286 | the as-written and corrected classifiers agree on a paragraph iff it does not start with `###` |
| BlogPost.RenderAgrees | src/pages/BlogPost.jsx:274-286 | the page renders an article as the corrected classifier would iff no paragraph starts with `###` |
| BlogPost.ExtendedContentAsWrittenIsOneParagraph | src/pages/BlogPost.jsx:99-157 | as written, the indented template has no blank line, so the whole article renders as one paragraph |
| BlogPost.HelloArticleAsWritten | src/pages/BlogPost.jsx:99-157 | as written, content "Hello" with an "## Introduction" section renders as a single block |
| BlogPost.ExtendedContentSections | src/pages/BlogPost.jsx:99-157 | with sections joined by blank lines, each section renders as its own block |
| BlogPost.HelloArticle | src/pages/BlogPost.jsx:99-157 | corrected, "Hello" and "## Introduction" render as a paragraph and a heading |
| EventDetail.EventById | src/pages/EventDetail.jsx:27 | none ("Event Not Found") iff no event has the id; otherwise an event with that id |
| EventDetail.NewEventReachable | src/pages/EventDetail.jsx:27 | an event just added is found by its token id, unless an earlier event already has it |
| EventDetail.RelatedEvents | src/pages/EventDetail.jsx:85-87 | at most three; each has another id and the same type or organizer; never the event itself |
| EventDetail.RelatedEventsExact | src/pages/EventDetail.jsx:85-87 | related events keep catalog order; they equal the related events of some prefix of the catalog, in order and with repeats, which is all of it unless three are shown, so no related event is skipped for a later one |
| EventDetail.StatusPanel | src/pages/EventDetail.jsx:385-420 | the registration panel iff the status is upcoming; the completed panel iff completed; otherwise the cancelled text |
| EventDetail.PanelTitle | src/pages/EventDetail.jsx:381 | the title is "Registration" iff the registration panel is shown |
| EventDetail.StatusPartsAgree | src/pages/EventDetail.jsx:160-420 | the register button shows iff the registration panel does, resources iff the completed panel does, and never both |
| MemberProfile.NewMemberReachable | src/pages/MemberProfile.jsx:28 | a member just added is found by its generated slug, unless an earlier member already has it |
| MemberProfile.MemberEvents | src/pages/MemberProfile.jsx:73-75 | never more than all events; each has a non-empty organizer containing the member's team, ignoring case |
| MemberProfile.MemberEventsExact | src/pages/MemberProfile.jsx:73-75 | the member's events are a sub-sequence holding exactly the events organized by the team |
| MemberProfile.EventsCardOf | src/pages/MemberProfile.jsx:192-230 | no card iff the member has no events; otherwise the first min(3, n) events are shown; "View All" iff there are more than three |
| MemberProfile.FirstName | src/pages/MemberProfile.jsx:152 | the prefix of the name up to its first space: it has no space, and it is the whole name or is followed by a space |
| MemberProfile.FirstNameOf | src/pages/MemberProfile.jsx:152 | for "First Rest" the first name is "First" |
| MemberProfile.AboutText | src/pages/MemberProfile.jsx:157 | the bio when it is truthy; otherwise a text that starts with the member's name and mentions "<team> team" and "As a <role>," |
| MemberProfile.DefaultBio | src/pages/MemberProfile.jsx:157 | starts with the name and mentions "<team> team" and "As a <role>," |

## Left out

- Persistence (src/contexts/DataContext.jsx:213-220): reading and writing `localStorage` is I/O. The saved catalog is the constructor's argument. `JSON.parse` failing on corrupt storage is not modelled.
- Clocks: `Date.now()` and `new Date().toISOString()` are parameters (`token`, `today`). The model does not promise that ids are fresh. Two adds in the same millisecond would share an id, and lookups then return the first match.
- Duplicate ids and slugs: updates touch every element with the id and deletes remove them all, as the code does. Lookups return the first match.
- `Records.YearOf`: `new Date(date).getFullYear()` is modelled as the first four characters of a `YYYY-MM-DD` date, or `NaN` when shorter. Time-zone shifts and other date formats are not modelled.
- Blog.TagColor: `|tag|` counts Unicode scalar values, while JavaScript's `tag.length` counts UTF-16 code units. A tag with a character outside the Basic Multilingual Plane, such as an emoji, can therefore get a different colour than on the page. The same applies to `Blog.TagColorByLength`.
- `Strings.Lower`: ASCII lower-casing only. Unicode case mapping is not modelled.
- `Records.Text` / `Records.List`: a missing or non-string title, team or content, or non-array tags or skills, reads as `""` or `[]`. The JavaScript would throw there and the page would not render. Only `addMember`/`addBlogPost` model their throw, because that case decides whether the state changes.
- Equality: `===` on array-valued properties compares references in JavaScript. The model compares values.
- Colour and class tables: keys such as `constructor` or `toString`, which an object literal inherits, are not modelled. They would return a function instead of the fallback.
- Numbered list items: the regex rewrite `/^\d+\.\s\*\*(.*?)\*\*:/` of an item's HTML (src/pages/BlogPost.jsx:307) is not modelled. Items are kept as their raw lines.
- The demo paragraphs of the article template (src/pages/BlogPost.jsx:102-156) are a parameter `sections`, not their literal text.
- Reading time on the detail page (src/pages/BlogPost.jsx:225, 414) is `Blog.ReadingTime` applied to the template text, spaces of its indentation included. The model reuses the list page's function.
- `MemberProfile.AboutText`: a non-string bio is shown through `Records.Shown`, a simplification of JavaScript's string conversion for booleans and arrays.
- The skills list on the profile page (src/pages/MemberProfile.jsx:164-186) shows all skills unchanged, so it needs no model. The status dot colour (src/pages/MemberProfile.jsx:373-374) is not modelled.
- The admin login gate, routing, animation, toasts, SEO tags and all JSX markup are presentation, not catalog logic.

## Findings

| source | as written | input that shows it | evidently intended | confidence | as-written member | corrected member |
|---|---|---|---|---|---|---|
| src/pages/BlogPost.jsx:275-286 | `startsWith('##')` is tested before `startsWith('###')`, so the `<h3>` branch can never be taken | a paragraph `### Fundamental Principles` renders as `<h2>#Fundamental Principles</h2>` | test `###` first, so the paragraph renders `<h3>Fundamental Principles</h3>` | not executed | BlogPost.ClassifyAsWrittenMangles | BlogPost.ClassifyHeadings |
| src/pages/BlogPost.jsx:99-157 | the template literal is indented, so its "blank" lines hold four spaces and `split('\n\n')` never cuts it | post content "Hello": the whole article, `## Introduction` included, renders as one `<p>` | sections separated by real blank lines, each rendered as a heading, list or paragraph | not executed | BlogPost.ExtendedContentAsWrittenIsOneParagraph | BlogPost.ExtendedContentSections |
