/** The string operations the pages and the data store use: ASCII
    `toLowerCase`, `includes`, `startsWith`, `indexOf`, `split`, `replace` with a
    string pattern, and `replace(/\s+/g, c)`. Strings are sequences of characters. */
module Strings {
  import opened Wrappers
  import opened Seqs

  /** The characters that JavaScript's `\s` and `trim` treat as white space
      (the WhiteSpace and LineTerminator characters of ECMAScript). */
  predicate IsSpace(c: char)
  {
    var n := c as int;
    (9 <= n <= 13) || n == 0x20 || n == 0xA0 || n == 0x1680 || (0x2000 <= n <= 0x200A)
    || n == 0x2028 || n == 0x2029 || n == 0x202F || n == 0x205F || n == 0x3000 || n == 0xFEFF
  }

  predicate IsDigit(c: char)
  {
    '0' <= c <= '9'
  }

  /** `toLowerCase` on one character, for the ASCII letters only. */
  function LowerChar(c: char): (d: char)
    ensures !('A' <= d <= 'Z')
    ensures 'a' <= d <= 'z' <==> 'a' <= c <= 'z' || 'A' <= c <= 'Z'
    ensures !('A' <= c <= 'Z') ==> d == c
  {
    if 'A' <= c <= 'Z' then (c as int + 32) as char else c
  }

  function Lower(s: string): (r: string)
    ensures |r| == |s|
    ensures forall i :: 0 <= i < |s| ==> r[i] == LowerChar(s[i])
  {
    MapSeq(s, LowerChar)
  }

  predicate StartsWith(s: string, prefix: string)
  {
    |prefix| <= |s| && s[..|prefix|] == prefix
  }

  /** A string that starts with a prefix starts with the prefix's first character. */
  lemma StartsWithHead(s: string, prefix: string)
    requires prefix != [] && StartsWith(s, prefix)
    ensures s != [] && s[0] == prefix[0]
  {
    assert s[..|prefix|][0] == s[0];
  }

  /** A string does not start with a prefix whose first character it lacks. */
  lemma NotStartsWithHead(s: string, prefix: string)
    requires s != [] && prefix != [] && s[0] != prefix[0]
    ensures !StartsWith(s, prefix)
  {
    if |prefix| <= |s| {
      assert s[..|prefix|][0] == s[0];
    }
  }

  /** `t` occurs in `s` starting at position `i`. */
  predicate OccursAt(s: string, t: string, i: int)
  {
    0 <= i && i + |t| <= |s| && s[i..i + |t|] == t
  }

  /** `s.includes(t)`. */
  predicate Contains(s: string, t: string)
    decreases |s|
  {
    StartsWith(s, t) || (s != [] && Contains(s[1..], t))
  }

  lemma {:induction false} ContainsWitness(s: string, t: string)
    requires Contains(s, t)
    ensures exists i :: OccursAt(s, t, i)
    decreases |s|
  {
    if StartsWith(s, t) {
      assert OccursAt(s, t, 0);
    } else {
      ContainsWitness(s[1..], t);
      var i :| OccursAt(s[1..], t, i);
      assert s[1..][i..i + |t|] == s[i + 1..i + 1 + |t|];
      assert OccursAt(s, t, i + 1);
    }
  }

  lemma {:induction false} ContainsAt(s: string, t: string, i: int)
    requires OccursAt(s, t, i)
    ensures Contains(s, t)
    decreases i
  {
    if i == 0 {
      assert StartsWith(s, t);
    } else {
      assert s[1..][i - 1..i - 1 + |t|] == s[i..i + |t|];
      ContainsAt(s[1..], t, i - 1);
    }
  }

  /** `includes` holds exactly when `t` occurs at some position of `s`. */
  lemma ContainsIff(s: string, t: string)
    ensures Contains(s, t) <==> exists i :: OccursAt(s, t, i)
  {
    if Contains(s, t) {
      ContainsWitness(s, t);
    }
    forall i | OccursAt(s, t, i) ensures Contains(s, t) {
      ContainsAt(s, t, i);
    }
  }

  /** Every string includes the empty string. */
  lemma ContainsEmpty(s: string)
    ensures Contains(s, [])
  {
    assert StartsWith(s, []);
  }

  /** `s.indexOf(t)`, with `None` for -1: the first position where `t` occurs. */
  function IndexOf(s: string, t: string): (r: Option<nat>)
    ensures r.Some? ==> OccursAt(s, t, r.value)
    ensures r.Some? ==> forall j :: 0 <= j < r.value ==> !OccursAt(s, t, j)
    ensures r.None? <==> !Contains(s, t)
    decreases |s|
  {
    if StartsWith(s, t) then Some(0)
    else if s == [] then None
    else match IndexOf(s[1..], t)
      case None => None
      case Some(i) =>
        assert s[1..][i..i + |t|] == s[i + 1..i + 1 + |t|];
        assert forall j :: 1 <= j < i + 1 && OccursAt(s, t, j) ==> OccursAt(s[1..], t, j - 1) by {
          forall j | 1 <= j < i + 1 && OccursAt(s, t, j) ensures OccursAt(s[1..], t, j - 1) {
            assert s[1..][j - 1..j - 1 + |t|] == s[j..j + |t|];
          }
        }
        Some(i + 1)
  }

  /** `s.split(sep)` for a non-empty separator: the pieces between the
      occurrences of `sep`, found left to right without overlap. */
  function Split(s: string, sep: string): (parts: seq<string>)
    requires sep != []
    ensures parts != []
    decreases |s|
  {
    match IndexOf(s, sep)
    case None => [s]
    case Some(i) => [s[..i]] + Split(s[i + |sep|..], sep)
  }

  /** `parts.join(sep)`. */
  function Join(parts: seq<string>, sep: string): string
  {
    if parts == [] then []
    else if |parts| == 1 then parts[0]
    else parts[0] + sep + Join(parts[1..], sep)
  }

  /** Splitting loses nothing: joining the pieces back gives the original string. */
  lemma {:induction false} SplitJoin(s: string, sep: string)
    requires sep != []
    ensures Join(Split(s, sep), sep) == s
    decreases |s|
  {
    match IndexOf(s, sep)
    case None =>
    case Some(i) =>
      var rest := s[i + |sep|..];
      SplitJoin(rest, sep);
      assert s == s[..i] + sep + rest;
  }

  /** The first piece is the part of `s` before the first separator: a prefix
      of `s` free of `sep`, followed in `s` by `sep` when it is not all of `s`. */
  lemma SplitHead(s: string, sep: string)
    requires sep != []
    ensures StartsWith(s, Split(s, sep)[0])
    ensures !Contains(Split(s, sep)[0], sep)
    ensures |Split(s, sep)[0]| < |s| ==> OccursAt(s, sep, |Split(s, sep)[0]|)
  {
    var head := Split(s, sep)[0];
    match IndexOf(s, sep)
    case None =>
    case Some(i) =>
      assert head == s[..i];
      ContainsIff(head, sep);
      if Contains(head, sep) {
        var j :| OccursAt(head, sep, j);
        assert head[j..j + |sep|] == s[j..j + |sep|];
        assert OccursAt(s, sep, j);
      }
  }

  /** The number of occurrences of `c` in `s`. */
  function Occurrences(s: string, c: char): nat
  {
    if s == [] then 0 else (if s[0] == c then 1 else 0) + Occurrences(s[1..], c)
  }

  lemma {:induction false} OccurrencesAppend(a: string, b: string, c: char)
    ensures Occurrences(a + b, c) == Occurrences(a, c) + Occurrences(b, c)
  {
    if a == [] {
      assert a + b == b;
    } else {
      OccurrencesAppend(a[1..], b, c);
      assert (a + b)[1..] == a[1..] + b;
    }
  }

  lemma {:induction false} OccurrencesNone(s: string, c: char)
    requires forall j :: 0 <= j < |s| ==> s[j] != c
    ensures Occurrences(s, c) == 0
  {
    if s != [] {
      OccurrencesNone(s[1..], c);
    }
  }

  /** Splitting on one character gives one more piece than there are occurrences of it. */
  lemma {:induction false} SplitCharCount(s: string, c: char)
    ensures |Split(s, [c])| == Occurrences(s, c) + 1
    decreases |s|
  {
    match IndexOf(s, [c])
    case None =>
      ContainsIff(s, [c]);
      forall j | 0 <= j < |s| ensures s[j] != c {
        if s[j] == c {
          assert s[j..j + 1] == [c];
          assert OccursAt(s, [c], j);
        }
      }
      OccurrencesNone(s, c);
    case Some(i) =>
      var rest := s[i + 1..];
      SplitCharCount(rest, c);
      forall j | 0 <= j < i ensures s[..i][j] != c {
        assert !OccursAt(s, [c], j);
        assert s[j..j + 1] == [s[j]];
      }
      OccurrencesNone(s[..i], c);
      assert s[i..i + 1] == [c];
      assert s == s[..i] + [c] + rest;
      OccurrencesAppend(s[..i] + [c], rest, c);
      OccurrencesAppend(s[..i], [c], c);
  }

  /** `s.replace(pat, rep)` with a string pattern: only the first occurrence is replaced. */
  function ReplaceFirst(s: string, pat: string, rep: string): (r: string)
    requires pat != []
    ensures !Contains(s, pat) ==> r == s
  {
    match IndexOf(s, pat)
    case None => s
    case Some(i) => s[..i] + rep + s[i + |pat|..]
  }

  /** `s.trim() !== ''`: some character of `s` is not white space. */
  predicate HasNonSpace(s: string)
  {
    exists i :: 0 <= i < |s| && !IsSpace(s[i])
  }

  /** Drops the white space at the front of `s`. */
  function DropSpaces(s: string): (r: string)
    ensures |r| <= |s| && r == s[|s| - |r|..]
    ensures r == [] || !IsSpace(r[0])
    ensures forall i :: 0 <= i < |s| - |r| ==> IsSpace(s[i])
  {
    if s != [] && IsSpace(s[0]) then
      var t := DropSpaces(s[1..]);
      assert s[1..][|s| - 1 - |t|..] == s[|s| - |t|..];
      assert forall i :: 1 <= i < |s| - |t| ==> s[i] == s[1..][i - 1];
      t
    else s
  }

  /** `s.replace(/\s+/g, fill)`: every maximal run of white space becomes one `fill`. */
  function CollapseSpaces(s: string, fill: char): (r: string)
    decreases |s|
  {
    if s == [] then []
    else if IsSpace(s[0]) then [fill] + CollapseSpaces(DropSpaces(s[1..]), fill)
    else [s[0]] + CollapseSpaces(s[1..], fill)
  }

  /** With a fill that is not white space, no white space is left. */
  lemma {:induction false} CollapseSpacesNoSpace(s: string, fill: char)
    requires !IsSpace(fill)
    ensures forall i :: 0 <= i < |CollapseSpaces(s, fill)| ==> !IsSpace(CollapseSpaces(s, fill)[i])
    decreases |s|
  {
    if s != [] {
      if IsSpace(s[0]) {
        CollapseSpacesNoSpace(DropSpaces(s[1..]), fill);
      } else {
        CollapseSpacesNoSpace(s[1..], fill);
      }
    }
  }

  /** Every character of the result is `fill` or a character of `s` that is not white space. */
  lemma {:induction false} CollapseSpacesFrom(s: string, fill: char)
    ensures forall i :: 0 <= i < |CollapseSpaces(s, fill)| ==>
              CollapseSpaces(s, fill)[i] == fill || (CollapseSpaces(s, fill)[i] in s && !IsSpace(CollapseSpaces(s, fill)[i]))
    decreases |s|
  {
    if s != [] {
      var r := CollapseSpaces(s, fill);
      var t := if IsSpace(s[0]) then DropSpaces(s[1..]) else s[1..];
      var rt := CollapseSpaces(t, fill);
      CollapseSpacesFrom(t, fill);
      assert r == [r[0]] + rt;
      assert r[0] == fill || (r[0] == s[0] && !IsSpace(s[0]));
      assert t == s[|s| - |t|..];
      forall i | 1 <= i < |r|
        ensures r[i] == fill || (r[i] in s && !IsSpace(r[i]))
      {
        assert r[i] == rt[i - 1];
        if r[i] != fill {
          var j :| 0 <= j < |t| && t[j] == r[i];
          assert s[|s| - |t| + j] == r[i];
        }
      }
    }
  }

  /** `toLowerCase` leaves a string without ASCII capitals as it is. */
  lemma LowerIdentity(s: string)
    requires forall i :: 0 <= i < |s| ==> !('A' <= s[i] <= 'Z')
    ensures Lower(s) == s
  {
  }

  /** A string without white space is left as it is. */
  lemma {:induction false} CollapseSpacesIdentity(s: string, fill: char)
    requires forall i :: 0 <= i < |s| ==> !IsSpace(s[i])
    ensures CollapseSpaces(s, fill) == s
  {
    if s != [] {
      CollapseSpacesIdentity(s[1..], fill);
    }
  }

  /** A leading stretch without white space is copied through unchanged. */
  lemma {:induction false} CollapseSpacesWordFirst(a: string, b: string, fill: char)
    requires forall i :: 0 <= i < |a| ==> !IsSpace(a[i])
    ensures CollapseSpaces(a + b, fill) == a + CollapseSpaces(b, fill)
  {
    if a == [] {
      assert a + b == b;
    } else {
      var s := a + b;
      assert s[0] == a[0] && !IsSpace(s[0]);
      assert s[1..] == a[1..] + b;
      assert CollapseSpaces(s, fill) == [s[0]] + CollapseSpaces(s[1..], fill);
      CollapseSpacesWordFirst(a[1..], b, fill);
      assert a == [a[0]] + a[1..];
    }
  }

  /** A string that is not empty and has no white space. */
  predicate IsWord(w: string)
  {
    w != [] && forall i :: 0 <= i < |w| ==> !IsSpace(w[i])
  }

  lemma JoinHead(ws: seq<string>, sep: string)
    requires ws != [] && ws[0] != []
    ensures Join(ws, sep) != [] && Join(ws, sep)[0] == ws[0][0]
  {
  }

  /** Words separated by single spaces come out separated by single `fill`s. */
  lemma {:induction false} CollapseSpacesJoin(ws: seq<string>, fill: char)
    requires forall i :: 0 <= i < |ws| ==> IsWord(ws[i])
    ensures CollapseSpaces(Join(ws, " "), fill) == Join(ws, [fill])
  {
    if |ws| == 1 {
      CollapseSpacesIdentity(ws[0], fill);
    } else if |ws| > 1 {
      var rest := Join(ws[1..], " ");
      assert forall i :: 0 <= i < |ws[1..]| ==> IsWord(ws[1..][i]);
      CollapseSpacesJoin(ws[1..], fill);
      CollapseSpacesWordFirst(ws[0], " " + rest, fill);
      Assoc(ws[0], " ", rest);
      JoinHead(ws[1..], " ");
      assert DropSpaces(rest) == rest;
      assert (" " + rest)[1..] == rest;
      Assoc(ws[0], [fill], Join(ws[1..], [fill]));
    }
  }

  lemma {:induction false} LowerJoin(ws: seq<string>, sep: string)
    ensures Lower(Join(ws, sep)) == Join(MapSeq(ws, Lower), Lower(sep))
  {
    if |ws| > 1 {
      LowerJoin(ws[1..], sep);
      assert MapSeq(ws, Lower)[1..] == MapSeq(ws[1..], Lower);
      var b := Join(ws[1..], sep);
      LowerAppend(ws[0] + sep, b);
      LowerAppend(ws[0], sep);
    }
  }

  /** `toLowerCase` works character by character, so it distributes over concatenation. */
  lemma LowerAppend(a: string, b: string)
    ensures Lower(a + b) == Lower(a) + Lower(b)
  {
  }

  /** The characters of `s` that are neither white space nor `fill`, in order. */
  function Squeeze(s: string, fill: char): string
  {
    if s == [] then []
    else (if IsSpace(s[0]) || s[0] == fill then [] else [s[0]]) + Squeeze(s[1..], fill)
  }

  lemma {:induction false} SqueezeDropSpaces(s: string, fill: char)
    ensures Squeeze(DropSpaces(s), fill) == Squeeze(s, fill)
  {
    if s != [] && IsSpace(s[0]) {
      SqueezeDropSpaces(s[1..], fill);
    }
  }

  /** Collapsing touches only white space: every other character survives, in order. */
  lemma {:induction false} CollapseSpacesKeepsText(s: string, fill: char)
    ensures Squeeze(CollapseSpaces(s, fill), fill) == Squeeze(s, fill)
    decreases |s|
  {
    if s != [] {
      if IsSpace(s[0]) {
        var t := DropSpaces(s[1..]);
        CollapseSpacesKeepsText(t, fill);
        SqueezeDropSpaces(s[1..], fill);
        assert ([fill] + CollapseSpaces(t, fill))[1..] == CollapseSpaces(t, fill);
      } else {
        CollapseSpacesKeepsText(s[1..], fill);
        assert ([s[0]] + CollapseSpaces(s[1..], fill))[1..] == CollapseSpaces(s[1..], fill);
      }
    }
  }

  lemma {:induction false} CollapseSpacesShorter(s: string, fill: char)
    ensures |CollapseSpaces(s, fill)| <= |s|
    decreases |s|
  {
    if s != [] {
      if IsSpace(s[0]) {
        CollapseSpacesShorter(DropSpaces(s[1..]), fill);
      } else {
        CollapseSpacesShorter(s[1..], fill);
      }
    }
  }

  /** `part` followed by `sep` holds no occurrence of `sep` other than that one:
      splitting `part + sep + rest` then cuts exactly after `part`. */
  predicate EndsCleanly(part: string, sep: string)
    requires sep != []
  {
    !Contains(part + sep[..|sep| - 1], sep)
  }

  lemma IndexOfAfterClean(part: string, sep: string, rest: string)
    requires sep != [] && EndsCleanly(part, sep)
    ensures IndexOf(part + sep + rest, sep) == Some(|part|)
  {
    var s := part + sep + rest;
    assert s[|part|..|part| + |sep|] == sep;
    assert OccursAt(s, sep, |part|);
    ContainsAt(s, sep, |part|);
    var i := IndexOf(s, sep).value;
    if i < |part| {
      var t := part + sep[..|sep| - 1];
      assert i + |sep| <= |t|;
      forall j | i <= j < i + |sep| ensures s[j] == t[j] {
        if j >= |part| {
          assert s[j] == sep[j - |part|];
        }
      }
      assert s[i..i + |sep|] == t[i..i + |sep|];
      ContainsAt(t, sep, i);
    }
  }

  /** Joining pieces that each end cleanly, then splitting, gives the pieces back. */
  lemma {:induction false} JoinSplit(parts: seq<string>, sep: string)
    requires sep != [] && parts != []
    requires forall i :: 0 <= i < |parts| ==> EndsCleanly(parts[i], sep)
    ensures Split(Join(parts, sep), sep) == parts
  {
    if |parts| == 1 {
      if Contains(parts[0], sep) {
        ContainsWitness(parts[0], sep);
        var j :| OccursAt(parts[0], sep, j);
        assert (parts[0] + sep[..|sep| - 1])[j..j + |sep|] == parts[0][j..j + |sep|];
        ContainsAt(parts[0] + sep[..|sep| - 1], sep, j);
      }
    } else {
      var rest := Join(parts[1..], sep);
      assert Join(parts, sep) == parts[0] + sep + rest;
      IndexOfAfterClean(parts[0], sep, rest);
      assert (parts[0] + sep + rest)[|parts[0]| + |sep|..] == rest;
      assert (parts[0] + sep + rest)[..|parts[0]|] == parts[0];
      JoinSplit(parts[1..], sep);
    }
  }

  /** `(pat + t).replace(pat, rep)` replaces the leading `pat`. */
  lemma ReplaceFirstAtStart(pat: string, t: string, rep: string)
    requires pat != []
    ensures ReplaceFirst(pat + t, pat, rep) == rep + t
  {
    assert StartsWith(pat + t, pat);
    assert (pat + t)[|pat|..] == t;
  }
  /** A stretch made of white space only (possibly empty). */
  predicate AllSpace(r: string)
  {
    forall i :: 0 <= i < |r| ==> IsSpace(r[i])
  }

  /** Words with a stretch of white space before, between and after them:
      `gaps[0] + ws[0] + gaps[1] + ... + ws[n-1] + gaps[n]`. */
  function Spread(ws: seq<string>, gaps: seq<string>): string
    requires |gaps| == |ws| + 1
    decreases |ws|
  {
    if ws == [] then gaps[0] else gaps[0] + ws[0] + Spread(ws[1..], gaps[1..])
  }

  /** What a stretch of white space becomes under `replace(/\s+/g, fill)`:
      nothing when it is empty, one `fill` otherwise. */
  function Gap(r: string, fill: char): string
  {
    if r == [] then [] else [fill]
  }

  lemma {:induction false} DropRun(r: string, rest: string)
    requires AllSpace(r) && (rest == [] || !IsSpace(rest[0]))
    ensures DropSpaces(r + rest) == rest
  {
    if r == [] {
      assert r + rest == rest;
    } else {
      assert (r + rest)[1..] == r[1..] + rest;
      DropRun(r[1..], rest);
    }
  }

  /** A whole run of white space in front of a non-space becomes one `fill`. */
  lemma CollapseRun(r: string, rest: string, fill: char)
    requires AllSpace(r) && (rest == [] || !IsSpace(rest[0]))
    ensures CollapseSpaces(r + rest, fill) == Gap(r, fill) + CollapseSpaces(rest, fill)
  {
    if r == [] {
      assert r + rest == rest;
    } else {
      assert (r + rest)[0] == r[0];
      assert (r + rest)[1..] == r[1..] + rest;
      DropRun(r[1..], rest);
    }
  }

  /** A run of white space and then a word: the run becomes `Gap`, the word is kept. */
  lemma CollapseFront(g: string, w: string, tail: string, fill: char)
    requires AllSpace(g) && IsWord(w)
    ensures CollapseSpaces(g + w + tail, fill) == Gap(g, fill) + w + CollapseSpaces(tail, fill)
  {
    assert g + w + tail == g + (w + tail);
    assert (w + tail)[0] == w[0];
    CollapseRun(g, w + tail, fill);
    CollapseSpacesWordFirst(w, tail, fill);
  }

  lemma Regroup(a: string, b: string, c: string, d: string, e: string)
    ensures a + b + (c + d + e) == a + (b + c + d) + e
  {
  }

  /** Each run of white space between words, of any length, becomes exactly
      one `fill`; a leading or trailing run becomes one `fill` too. */
  lemma {:induction false} CollapseSpread(ws: seq<string>, gaps: seq<string>, fill: char)
    requires ws != [] && |gaps| == |ws| + 1
    requires forall i :: 0 <= i < |ws| ==> IsWord(ws[i])
    requires forall i :: 0 <= i < |gaps| ==> AllSpace(gaps[i])
    requires forall i :: 0 < i < |ws| ==> gaps[i] != []
    ensures CollapseSpaces(Spread(ws, gaps), fill) == Gap(gaps[0], fill) + Join(ws, [fill]) + Gap(gaps[|ws|], fill)
    decreases |ws|
  {
    var tail := Spread(ws[1..], gaps[1..]);
    var last := Gap(gaps[|ws|], fill);
    assert Spread(ws, gaps) == gaps[0] + ws[0] + tail;
    if |ws| == 1 {
      CollapseFront(gaps[0], ws[0], tail, fill);
      assert tail == gaps[1] + [];
      CollapseRun(gaps[1], [], fill);
      assert Join(ws, [fill]) == ws[0];
    } else {
      var ws', gaps' := ws[1..], gaps[1..];
      assert gaps'[0] == gaps[1] != [];
      TailIndex(gaps, |ws'|);
      assert forall i :: 0 <= i < |ws'| ==> ws'[i] == ws[i + 1];
      assert forall i :: 0 <= i < |gaps'| ==> gaps'[i] == gaps[i + 1];
      CollapseSpread(ws', gaps', fill);
      CollapseSpreadCons(gaps[0], ws[0], tail, Join(ws', [fill]), last, fill);
    }
  }

  /** One word and the gap before it put in front of a collapsed tail. */
  lemma CollapseSpreadCons(g: string, w: string, tail: string, joined: string, last: string, fill: char)
    requires AllSpace(g) && IsWord(w)
    requires CollapseSpaces(tail, fill) == [fill] + joined + last
    ensures CollapseSpaces(g + w + tail, fill) == Gap(g, fill) + (w + [fill] + joined) + last
  {
    CollapseFront(g, w, tail, fill);
    Regroup(Gap(g, fill), w, [fill], joined, last);
  }

  /** Lower-casing leaves the white space alone and lower-cases each word. */
  lemma {:induction false} LowerSpread(ws: seq<string>, gaps: seq<string>)
    requires |gaps| == |ws| + 1
    requires forall i :: 0 <= i < |gaps| ==> AllSpace(gaps[i])
    ensures Lower(Spread(ws, gaps)) == Spread(MapSeq(ws, Lower), gaps)
    decreases |ws|
  {
    assert AllSpace(gaps[0]);
    LowerIdentity(gaps[0]);
    if ws != [] {
      var tail := Spread(ws[1..], gaps[1..]);
      assert forall i :: 0 <= i < |gaps[1..]| ==> AllSpace(gaps[1..][i]);
      LowerSpread(ws[1..], gaps[1..]);
      assert MapSeq(ws, Lower)[1..] == MapSeq(ws[1..], Lower);
      assert Lower(gaps[0] + ws[0] + tail) == Lower(gaps[0]) + Lower(ws[0]) + Lower(tail);
    }
  }
}
