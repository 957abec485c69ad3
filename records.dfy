/** Stored entities as the JavaScript code sees them: plain objects whose
    properties are looked up by name. A property that is not there reads as
    `undefined`, modelled as `None`. */
module Records {
  import opened Wrappers
  import opened Seqs
  import opened Strings

  /** A property value: a string, a boolean, or an array of strings. */
  datatype Value = Str(s: string) | Flag(b: bool) | Strs(items: seq<string>)

  /** An event, member, blog post, gallery item or form submission. */
  type Record = map<string, Value>

  /** `r[key]`. */
  function Get(r: Record, key: string): Option<Value>
  {
    if key in r then Some(r[key]) else None
  }

  /** JavaScript truthiness of a property value (`undefined`, `''` and `false` are falsy). */
  predicate Truthy(v: Option<Value>)
  {
    match v
    case None => false
    case Some(Str(s)) => s != []
    case Some(Flag(b)) => b
    case Some(Strs(_)) => true
  }

  /** `r[key] === v` for a string `v`. */
  predicate FieldIs(r: Record, key: string, v: string)
  {
    key in r && r[key] == Str(v)
  }

  function SlugIs(slug: string): Record -> bool
  {
    (r: Record) => FieldIs(r, "slug", slug)
  }

  /** `find(r => r.slug === slug)`, the lookup both the article page and the
      member profile page make; `None` shows their "not found" screen. */
  function BySlug(rs: seq<Record>, slug: string): (r: Option<Record>)
    ensures r.None? <==> forall i :: 0 <= i < |rs| ==> !FieldIs(rs[i], "slug", slug)
    ensures r.Some? ==> exists i :: 0 <= i < |rs| && rs[i] == r.value && FieldIs(r.value, "slug", slug)
                          && forall j :: 0 <= j < i ==> !FieldIs(rs[j], "slug", slug)
  {
    Find(rs, SlugIs(slug))
  }

  /** `typeof r[key] === 'string'`. */
  predicate IsText(r: Record, key: string)
  {
    key in r && r[key].Str?
  }

  /** A string property; one that is missing or not a string reads as `''`. */
  function Text(r: Record, key: string): string
  {
    if key in r && r[key].Str? then r[key].s else []
  }

  /** An array property; one that is missing or not an array reads as `[]`. */
  function List(r: Record, key: string): seq<string>
  {
    if key in r && r[key].Strs? then r[key].items else []
  }

  /** How a template literal shows a property value (`${value}`). */
  function Shown(v: Option<Value>): string
  {
    match v
    case None => "undefined"
    case Some(Str(s)) => s
    case Some(Flag(b)) => if b then "true" else "false"
    case Some(Strs(items)) => Join(items, ",")
  }

  /** The shallow merge `{...r, ...patch}`: the properties of `patch` win and
      every other property of `r` is kept; no property is ever removed. */
  function Merge(r: Record, patch: Record): (m: Record)
    ensures m.Keys == r.Keys + patch.Keys
    ensures forall k :: k in patch ==> m[k] == patch[k]
    ensures forall k :: k in r && k !in patch ==> m[k] == r[k]
  {
    r + patch
  }

  /** The case-insensitive search `text.toLowerCase().includes(term.toLowerCase())`. */
  predicate Matches(text: string, term: string)
  {
    Contains(Lower(text), Lower(term))
  }

  /** An empty search term matches every text. */
  lemma MatchesEmpty(text: string)
    ensures Matches(text, [])
  {
    ContainsEmpty(Lower(text));
  }

  /** `new Date(date).getFullYear().toString()` for a `YYYY-MM-DD` date: its
      first four characters; a shorter string is an invalid date, shown as `NaN`. */
  function YearOf(date: string): string
  {
    if |date| >= 4 then date[..4] else "NaN"
  }
}
