/**
 * The string handling of the "add topic" handler (app.js): normalising the
 * query before the exact-title lookup, and cutting the summary down to its
 * first two sentences.
 *
 * JavaScript's `split` with a string separator, `Array.prototype.join`,
 * `toLowerCase` and `toUpperCase` are modelled here; case mapping is
 * restricted to ASCII letters, every other character is left as it is.
 */
module Text {
  import opened Wrappers

  predicate IsUpper(c: char) { 'A' <= c <= 'Z' }
  predicate IsLower(c: char) { 'a' <= c <= 'z' }

  /** `toLowerCase` on one character (ASCII only). */
  function ToLower(c: char): (d: char)
    ensures !IsUpper(d)
    ensures IsUpper(c) ==> IsLower(d)
    ensures !IsUpper(c) ==> d == c
  {
    if IsUpper(c) then (c as int + 32) as char else c
  }

  /** `toUpperCase` on one character (ASCII only). */
  function ToUpper(c: char): (d: char)
    ensures !IsLower(d)
    ensures IsLower(c) ==> IsUpper(d) && ToLower(d) == c
    ensures !IsLower(c) ==> d == c
  {
    if IsLower(c) then (c as int - 32) as char else c
  }

  /** `String.prototype.toLowerCase`. */
  function LowerCase(s: string): (r: string)
    ensures |r| == |s|
    ensures forall k :: 0 <= k < |s| ==> r[k] == ToLower(s[k])
  {
    seq(|s|, k requires 0 <= k < |s| => ToLower(s[k]))
  }

  /** `sep` occurs in `s` starting at index `k`. */
  predicate OccursAt(s: string, sep: string, k: int)
  {
    0 <= k && k + |sep| <= |s| && forall m :: 0 <= m < |sep| ==> s[k + m] == sep[m]
  }

  lemma OccursAtTail(s: string, sep: string, k: int)
    requires |s| > 0 && 1 <= k
    ensures OccursAt(s, sep, k) <==> OccursAt(s[1..], sep, k - 1)
  {
    var t := s[1..];
    if OccursAt(s, sep, k) {
      forall m | 0 <= m < |sep| ensures t[k - 1 + m] == sep[m] {
        assert t[k - 1 + m] == s[k + m];
      }
    }
    if OccursAt(t, sep, k - 1) {
      forall m | 0 <= m < |sep| ensures s[k + m] == sep[m] {
        assert t[k - 1 + m] == s[k + m];
      }
    }
  }

  lemma OccursAtPrefix(s: string, sep: string, n: nat, k: int)
    requires n <= |s|
    ensures OccursAt(s[..n], sep, k) ==> OccursAt(s, sep, k)
  {
    if OccursAt(s[..n], sep, k) {
      forall m | 0 <= m < |sep| ensures s[k + m] == sep[m] {
        assert s[..n][k + m] == s[k + m];
      }
    }
  }

  lemma OccursAtChar(s: string, c: char, k: int)
    ensures OccursAt(s, [c], k) <==> 0 <= k < |s| && s[k] == c
  {
    if OccursAt(s, [c], k) {
      assert s[k + 0] == [c][0];
    }
  }

  /** `s.indexOf(sep)`: the leftmost occurrence of a non-empty separator. */
  function Find(s: string, sep: string): (r: Option<nat>)
    requires |sep| > 0
    ensures r.Some? ==> OccursAt(s, sep, r.value)
    ensures r.Some? ==> forall k :: 0 <= k < r.value ==> !OccursAt(s, sep, k)
    ensures r.None? ==> forall k :: !OccursAt(s, sep, k)
    decreases |s|
  {
    if |s| < |sep| then None
    else if OccursAt(s, sep, 0) then Some(0)
    else
      var tail := Find(s[1..], sep);
      assert forall k :: 1 <= k ==> (OccursAt(s, sep, k) <==> OccursAt(s[1..], sep, k - 1)) by {
        forall k | 1 <= k { OccursAtTail(s, sep, k); }
      }
      match tail
      case None => None
      case Some(i) => Some(i + 1)
  }

  /**
   * `s.split(sep)` for a non-empty separator: the pieces between the
   * left-to-right, non-overlapping occurrences of `sep`. Empty pieces are
   * kept, and there is always at least one piece.
   */
  function SplitOn(s: string, sep: string): (r: seq<string>)
    requires |sep| > 0
    ensures |r| >= 1
    decreases |s|
  {
    match Find(s, sep)
    case None => [s]
    case Some(i) => [s[..i]] + SplitOn(s[i + |sep|..], sep)
  }

  /** No piece of a split contains the separator, and every piece's characters come from the input. */
  lemma {:induction false} SplitOnPieces(s: string, sep: string)
    requires |sep| > 0
    ensures forall i, k :: 0 <= i < |SplitOn(s, sep)| ==> !OccursAt(SplitOn(s, sep)[i], sep, k)
    ensures forall i, c :: 0 <= i < |SplitOn(s, sep)| && c in SplitOn(s, sep)[i] ==> c in s
    decreases |s|
  {
    match Find(s, sep)
    case None =>
    case Some(i) =>
      var tail := s[i + |sep|..];
      SplitOnPieces(tail, sep);
      forall k ensures !OccursAt(s[..i], sep, k) {
        OccursAtPrefix(s, sep, i, k);
      }
      assert forall c :: c in s[..i] ==> c in s;
      assert forall c :: c in tail ==> c in s;
      assert SplitOn(s, sep) == [s[..i]] + SplitOn(tail, sep);
  }

  /** `ts.join(sep)`. */
  function Join(ts: seq<string>, sep: string): string
  {
    if |ts| == 0 then ""
    else if |ts| == 1 then ts[0]
    else ts[0] + sep + Join(ts[1..], sep)
  }

  /** Joining the pieces of a split with the same separator gives the string back. */
  lemma {:induction false} JoinOfSplit(s: string, sep: string)
    requires |sep| > 0
    ensures Join(SplitOn(s, sep), sep) == s
    decreases |s|
  {
    match Find(s, sep)
    case None =>
    case Some(i) =>
      var rest := SplitOn(s[i + |sep|..], sep);
      assert SplitOn(s, sep) == [s[..i]] + rest;
      JoinOfSplit(s[i + |sep|..], sep);
      assert ([s[..i]] + rest)[1..] == rest;
      assert Join([s[..i]] + rest, sep) == s[..i] + sep + Join(rest, sep);
      assert s == s[..i] + sep + s[i + |sep|..];
  }

  lemma FindCharAfter(w: string, c: char, rest: string)
    requires c !in w
    ensures Find(w + [c] + rest, [c]) == Some(|w|)
  {
    var s := w + [c] + rest;
    OccursAtChar(s, c, |w|);
    forall k | 0 <= k < |w| ensures !OccursAt(s, [c], k) {
      OccursAtChar(s, c, k);
    }
  }

  lemma FindCharNone(w: string, c: char)
    requires c !in w
    ensures Find(w, [c]) == None
  {
    if Find(w, [c]).Some? {
      OccursAtChar(w, c, Find(w, [c]).value);
    }
  }

  /** Splitting on a one-character separator undoes joining pieces that do not contain it. */
  lemma {:induction false} SplitOfJoin(ts: seq<string>, c: char)
    requires |ts| >= 1
    requires forall i :: 0 <= i < |ts| ==> c !in ts[i]
    ensures SplitOn(Join(ts, [c]), [c]) == ts
    decreases |ts|
  {
    if |ts| == 1 {
      FindCharNone(ts[0], c);
    } else {
      var tail := Join(ts[1..], [c]);
      FindCharAfter(ts[0], c, tail);
      var s := ts[0] + [c] + tail;
      assert s[..|ts[0]|] == ts[0];
      assert s[|ts[0]| + 1..] == tail;
      SplitOfJoin(ts[1..], c);
    }
  }

  // ---------------------------------------------------------------------
  // Query normalisation (app.js:195-199)
  // ---------------------------------------------------------------------

  const Space := ' '

  /** `word.charAt(0).toUpperCase() + word.slice(1)`; the empty word stays empty. */
  function Capitalize(w: string): string
  {
    if w == "" then "" else [ToUpper(w[0])] + w[1..]
  }

  function CapitalizeAll(ws: seq<string>): (r: seq<string>)
    ensures |r| == |ws|
    ensures forall i :: 0 <= i < |ws| ==> r[i] == Capitalize(ws[i])
  {
    if ws == [] then [] else [Capitalize(ws[0])] + CapitalizeAll(ws[1..])
  }

  /** The query as sent to the exact-title lookup: lower-case, split on ' ', capitalise each piece, join with ' '. */
  function Normalize(query: string): string
  {
    Join(CapitalizeAll(SplitOn(LowerCase(query), [Space])), [Space])
  }

  /**
   * Reference definition of normalisation, one character at a time: every
   * character is lower-cased, and one at the start of the string (when
   * `atStart`) or right after a space is upper-cased instead.
   */
  function TitleCase(s: string, atStart: bool): (r: string)
    ensures |r| == |s|
    decreases |s|
  {
    if s == "" then ""
    else
      var c := if atStart then ToUpper(ToLower(s[0])) else ToLower(s[0]);
      [c] + TitleCase(s[1..], s[0] == Space)
  }

  /** Whether the character after `a` starts a word, given whether `a`'s first character does. */
  function StartsAfter(a: string, atStart: bool): bool
  {
    if a == "" then atStart else a[|a| - 1] == Space
  }

  /** The reference definition keeps every space where it is and makes no new ones. */
  lemma {:induction false} TitleCaseKeepsSpaces(s: string, atStart: bool)
    ensures forall k :: 0 <= k < |s| ==> (TitleCase(s, atStart)[k] == Space <==> s[k] == Space)
    decreases |s|
  {
    if s != "" {
      TitleCaseKeepsSpaces(s[1..], s[0] == Space);
      assert forall k :: 1 <= k < |s| ==> TitleCase(s, atStart)[k] == TitleCase(s[1..], s[0] == Space)[k - 1];
    }
  }

  lemma {:induction false} TitleCaseAppend(a: string, b: string, atStart: bool)
    ensures TitleCase(a + b, atStart) == TitleCase(a, atStart) + TitleCase(b, StartsAfter(a, atStart))
    decreases |a|
  {
    if a != "" {
      var next := a[0] == Space;
      var c := if atStart then ToUpper(ToLower(a[0])) else ToLower(a[0]);
      assert (a + b)[0] == a[0];
      assert (a + b)[1..] == a[1..] + b;
      TitleCaseAppend(a[1..], b, next);
      assert StartsAfter(a[1..], next) == StartsAfter(a, atStart);
      calc {
        TitleCase(a + b, atStart);
        [c] + TitleCase(a[1..] + b, next);
        [c] + (TitleCase(a[1..], next) + TitleCase(b, StartsAfter(a, atStart)));
        ([c] + TitleCase(a[1..], next)) + TitleCase(b, StartsAfter(a, atStart));
      }
    } else {
      assert a + b == b;
    }
  }

  lemma {:induction false} TitleCaseInsideWord(v: string)
    requires Space !in v
    requires forall c :: c in v ==> !IsUpper(c)
    ensures TitleCase(v, false) == v
    decreases |v|
  {
    if v != "" {
      TitleCaseInsideWord(v[1..]);
    }
  }

  lemma TitleCaseOfWord(w: string)
    requires Space !in w
    requires forall c :: c in w ==> !IsUpper(c)
    ensures TitleCase(w, true) == Capitalize(w)
  {
    if w != "" {
      TitleCaseInsideWord(w[1..]);
    }
  }

  /** A piece of a split on ' ' holds no ' '. */
  lemma PieceHasNoSpace(w: string)
    requires forall k :: !OccursAt(w, [Space], k)
    ensures Space !in w
  {
    forall k | 0 <= k < |w| ensures w[k] != Space {
      OccursAtChar(w, Space, k);
    }
  }

  lemma TitleCaseAfterSpace(rest: string, atStart: bool)
    ensures TitleCase([Space] + rest, atStart) == [Space] + TitleCase(rest, true)
  {
    assert ([Space] + rest)[1..] == rest;
  }

  lemma JoinCapitalizedCons(w: string, pieces: seq<string>)
    requires |pieces| >= 1
    ensures Join(CapitalizeAll([w] + pieces), [Space]) == Capitalize(w) + [Space] + Join(CapitalizeAll(pieces), [Space])
  {
    var caps := CapitalizeAll([w] + pieces);
    assert caps[1..] == CapitalizeAll(pieces);
  }

  lemma TitleCaseAroundSpace(w: string, rest: string)
    ensures TitleCase(w + [Space] + rest, true) == TitleCase(w, true) + [Space] + TitleCase(rest, true)
  {
    assert w + [Space] + rest == w + ([Space] + rest);
    TitleCaseAppend(w, [Space] + rest, true);
    TitleCaseAfterSpace(rest, StartsAfter(w, true));
  }

  /** On a string with no upper-case letters, capitalising the space-separated pieces is the reference definition. */
  lemma {:induction false} CapitalizePiecesIsTitleCase(t: string)
    requires forall c :: c in t ==> !IsUpper(c)
    ensures Join(CapitalizeAll(SplitOn(t, [Space])), [Space]) == TitleCase(t, true)
    decreases |t|
  {
    SplitOnPieces(t, [Space]);
    match Find(t, [Space])
    case None =>
      assert SplitOn(t, [Space]) == [t];
      PieceHasNoSpace(t);
      TitleCaseOfWord(t);
    case Some(i) =>
      var w, rest := t[..i], t[i + 1..];
      var pieces := SplitOn(rest, [Space]);
      assert SplitOn(t, [Space]) == [w] + pieces;
      assert SplitOn(t, [Space])[0] == w;
      PieceHasNoSpace(w);
      assert forall c :: c in w ==> c in t;
      assert forall c :: c in rest ==> c in t;
      TitleCaseOfWord(w);
      CapitalizePiecesIsTitleCase(rest);
      JoinCapitalizedCons(w, pieces);
      assert t == w + [Space] + rest;
      TitleCaseAroundSpace(w, rest);
  }

  lemma {:induction false} TitleCaseOfLowerCase(s: string, atStart: bool)
    ensures TitleCase(LowerCase(s), atStart) == TitleCase(s, atStart)
    decreases |s|
  {
    if s != "" {
      assert LowerCase(s)[1..] == LowerCase(s[1..]);
      TitleCaseOfLowerCase(s[1..], s[0] == Space);
    }
  }

  /** The split/map/join pipeline agrees with the character-wise reference definition. */
  lemma NormalizeIsTitleCase(query: string)
    ensures Normalize(query) == TitleCase(query, true)
  {
    CapitalizePiecesIsTitleCase(LowerCase(query));
    TitleCaseOfLowerCase(query, true);
  }

  /** Normalisation changes no character into or out of a space and keeps the length. */
  lemma NormalizeKeepsShape(query: string)
    ensures |Normalize(query)| == |query|
    ensures forall k :: 0 <= k < |query| ==> (Normalize(query)[k] == Space <==> query[k] == Space)
  {
    NormalizeIsTitleCase(query);
    TitleCaseKeepsSpaces(query, true);
  }

  lemma FindAgrees(a: string, b: string, sep: string)
    requires |sep| > 0
    requires forall k :: OccursAt(a, sep, k) <==> OccursAt(b, sep, k)
    ensures Find(a, sep) == Find(b, sep)
  {
    var fa, fb := Find(a, sep), Find(b, sep);
    match fa
    case None =>
    case Some(i) =>
      assert OccursAt(b, sep, i);
      match fb
      case None =>
      case Some(j) =>
        assert OccursAt(a, sep, j);
        assert !(j < i) && !(i < j);
  }

  /** Two strings with spaces at the same positions split into the same number of pieces. */
  lemma {:induction false} SameSpacesSamePieceCount(a: string, b: string)
    requires |a| == |b|
    requires forall k :: 0 <= k < |a| ==> (a[k] == Space <==> b[k] == Space)
    ensures |SplitOn(a, [Space])| == |SplitOn(b, [Space])|
    decreases |a|
  {
    forall k ensures OccursAt(a, [Space], k) <==> OccursAt(b, [Space], k) {
      OccursAtChar(a, Space, k);
      OccursAtChar(b, Space, k);
    }
    FindAgrees(a, b, [Space]);
    match Find(a, [Space])
    case None =>
    case Some(i) =>
      SameSpacesSamePieceCount(a[i + 1..], b[i + 1..]);
  }

  /** Normalisation keeps the number of ' '-separated pieces. */
  lemma NormalizeKeepsPieceCount(query: string)
    ensures |SplitOn(Normalize(query), [Space])| == |SplitOn(query, [Space])|
  {
    NormalizeKeepsShape(query);
    SameSpacesSamePieceCount(Normalize(query), query);
  }

  lemma CaseRoundTrips(c: char)
    ensures ToUpper(ToLower(ToUpper(ToLower(c)))) == ToUpper(ToLower(c))
    ensures ToLower(ToLower(c)) == ToLower(c)
  {
  }

  lemma {:induction false} TitleCaseIdempotent(s: string, atStart: bool)
    ensures TitleCase(TitleCase(s, atStart), atStart) == TitleCase(s, atStart)
    decreases |s|
  {
    if s != "" {
      CaseRoundTrips(s[0]);
      var r := TitleCase(s, atStart);
      assert r[1..] == TitleCase(s[1..], s[0] == Space);
      TitleCaseIdempotent(s[1..], s[0] == Space);
    }
  }

  /** Normalising an already normalised query changes nothing. */
  lemma NormalizeIdempotent(query: string)
    ensures Normalize(Normalize(query)) == Normalize(query)
  {
    NormalizeIsTitleCase(query);
    NormalizeIsTitleCase(Normalize(query));
    TitleCaseIdempotent(query, true);
  }

  /** A word whose first character is not a lower-case letter and whose other characters are not upper-case letters. */
  predicate Titled(w: string)
  {
    w == "" || (!IsLower(w[0]) && forall j :: 1 <= j < |w| ==> !IsUpper(w[j]))
  }

  lemma CapitalizeTitled(w: string)
    requires forall c :: c in w ==> !IsUpper(c)
    ensures Titled(Capitalize(w))
  {
    if w != "" {
      forall j | 1 <= j < |w| ensures !IsUpper(Capitalize(w)[j]) {
        assert Capitalize(w)[j] == w[j];
      }
    }
  }

  /** Every ' '-separated piece of a normalised query is capitalised and otherwise lower-case. */
  lemma NormalizedPiecesTitled(query: string)
    ensures forall i :: 0 <= i < |SplitOn(Normalize(query), [Space])| ==> Titled(SplitOn(Normalize(query), [Space])[i])
  {
    var lower := LowerCase(query);
    var lowered := SplitOn(lower, [Space]);
    var caps := CapitalizeAll(lowered);
    SplitOnPieces(lower, [Space]);
    assert forall c :: c in lower ==> !IsUpper(c);
    forall i | 0 <= i < |caps| ensures Space !in caps[i] && Titled(caps[i]) {
      PieceHasNoSpace(lowered[i]);
      assert forall c :: c in lowered[i] ==> c in lower;
      CapitalizeTitled(lowered[i]);
    }
    SplitOfJoin(caps, Space);
  }

  // ---------------------------------------------------------------------
  // Summary truncation (app.js:228)
  // ---------------------------------------------------------------------

  const SentenceBreak := ". "

  /** `ts.slice(0, n)`. */
  function Take(ts: seq<string>, n: nat): (r: seq<string>)
    ensures |r| == if |ts| < n then |ts| else n
    ensures r == ts[..|r|]
  {
    if |ts| < n then ts else ts[..n]
  }

  /** `extract.split('. ').slice(0, 2).join('. ') + '.'` */
  function Truncate(extract: string): string
  {
    Join(Take(SplitOn(extract, SentenceBreak), 2), SentenceBreak) + "."
  }

  lemma OccursAtSuffix(s: string, sep: string, d: nat, k: int)
    requires d <= |s|
    ensures OccursAt(s[d..], sep, k) ==> OccursAt(s, sep, d + k)
  {
    if OccursAt(s[d..], sep, k) {
      forall m | 0 <= m < |sep| ensures s[d + k + m] == sep[m] {
        assert s[d..][k + m] == s[d + k + m];
      }
    }
  }

  /** Where the second sentence break of `e` starts, when `e` has at least two. */
  function SecondBreak(e: string): (r: Option<nat>)
    ensures r.Some? ==> OccursAt(e, SentenceBreak, r.value)
  {
    match Find(e, SentenceBreak)
    case None => None
    case Some(i) =>
      match Find(e[i + 2..], SentenceBreak)
      case None => None
      case Some(j) =>
        OccursAtSuffix(e, SentenceBreak, i + 2, j);
        Some(i + 2 + j)
  }

  /** The extract has a second sentence break exactly when it splits into three or more pieces. */
  lemma SecondBreakIffThreePieces(e: string)
    ensures SecondBreak(e).Some? <==> |SplitOn(e, SentenceBreak)| >= 3
  {
    match Find(e, SentenceBreak)
    case None =>
      SplitOnNotFound(e, SentenceBreak);
    case Some(i) =>
      SplitOnFound(e, SentenceBreak, i);
      match Find(e[i + 2..], SentenceBreak)
      case None =>
        SplitOnNotFound(e[i + 2..], SentenceBreak);
      case Some(j) =>
        SplitOnFound(e[i + 2..], SentenceBreak, j);
  }

  lemma SplitOnFound(s: string, sep: string, i: nat)
    requires |sep| > 0 && Find(s, sep) == Some(i)
    ensures SplitOn(s, sep) == [s[..i]] + SplitOn(s[i + |sep|..], sep)
  {
  }

  lemma SplitOnNotFound(s: string, sep: string)
    requires |sep| > 0 && Find(s, sep) == None
    ensures SplitOn(s, sep) == [s]
  {
  }

  /** Cutting a string after its first occurrence of a separator does not move that occurrence. */
  lemma FindInPrefix(s: string, sep: string, n: nat, i: nat)
    requires |sep| > 0 && n <= |s|
    requires Find(s, sep) == Some(i) && i + |sep| <= n
    ensures Find(s[..n], sep) == Some(i)
  {
    var p := s[..n];
    assert OccursAt(s, sep, i);
    assert OccursAt(p, sep, i) by {
      forall m | 0 <= m < |sep| ensures p[i + m] == sep[m] {
        assert p[i + m] == s[i + m];
      }
    }
    var f := Find(p, sep);
    assert f.Some?;
    OccursAtPrefix(s, sep, n, f.value);
    assert f.value == i;
  }

  /** Cutting a string just before its first occurrence of a separator leaves none. */
  lemma FindNoneBefore(s: string, sep: string, j: nat)
    requires |sep| > 0 && Find(s, sep) == Some(j)
    ensures Find(s[..j], sep) == None
  {
    forall k ensures !OccursAt(s[..j], sep, k) {
      OccursAtPrefix(s, sep, j, k);
    }
  }

  /** A string is the part before an occurrence, the separator, and the part after. */
  lemma AroundOccurrence(s: string, sep: string, i: int)
    requires OccursAt(s, sep, i)
    ensures s == s[..i] + sep + s[i + |sep|..]
  {
    assert s[i..i + |sep|] == sep by {
      forall m | 0 <= m < |sep| ensures s[i..i + |sep|][m] == sep[m] {
        assert s[i..i + |sep|][m] == s[i + m];
      }
    }
    assert s == s[..i] + s[i..i + |sep|] + s[i + |sep|..];
  }

  lemma TruncateBody(e: string)
    ensures var r := Truncate(e);
      |r| >= 1 && r[|r| - 1] == '.' && r[..|r| - 1] == Join(Take(SplitOn(e, SentenceBreak), 2), SentenceBreak)
  {
  }

  /**
   * The truncated summary is the extract cut just before its second
   * sentence break (or the whole extract when it has fewer than two),
   * followed by one '.'.
   */
  lemma TruncateCutsAtSecondBreak(e: string)
    ensures var r := Truncate(e);
      |r| >= 1 && r[|r| - 1] == '.' &&
      r[..|r| - 1] == Cut(e)
  {
    TruncateBody(e);
    match Find(e, SentenceBreak)
    case None =>
      SplitOnNotFound(e, SentenceBreak);
    case Some(i) =>
      var rest := e[i + 2..];
      SplitOnFound(e, SentenceBreak, i);
      var pieces := SplitOn(rest, SentenceBreak);
      assert Take(SplitOn(e, SentenceBreak), 2) == [e[..i], pieces[0]];
      match Find(rest, SentenceBreak)
      case None =>
        SplitOnNotFound(rest, SentenceBreak);
        AroundOccurrence(e, SentenceBreak, i);
      case Some(j) =>
        SplitOnFound(rest, SentenceBreak, j);
        AroundOccurrence(e, SentenceBreak, i);
        assert e[..i + 2 + j] == e[..i] + SentenceBreak + rest[..j];
  }

  /** Splitting a prefix that still holds the first occurrence of the separator. */
  lemma SplitPrefixAt(e: string, sep: string, i: nat, m: nat)
    requires |sep| > 0 && i + |sep| + m <= |e|
    requires Find(e, sep) == Some(i)
    ensures SplitOn(e[..i + |sep| + m], sep) == [e[..i]] + SplitOn(e[i + |sep|..][..m], sep)
  {
    var body := e[..i + |sep| + m];
    assert Find(body, sep) == Some(i) by {
      FindInPrefix(e, sep, i + |sep| + m, i);
    }
    assert SplitOn(body, sep) == [body[..i]] + SplitOn(body[i + |sep|..], sep) by {
      SplitOnFound(body, sep, i);
    }
    assert body[..i] == e[..i];
    assert body[i + |sep|..] == e[i + |sep|..][..m];
  }

  /** The text before the first occurrence of the separator is a single piece. */
  lemma SplitBeforeFirst(s: string, sep: string, j: nat)
    requires |sep| > 0 && Find(s, sep) == Some(j)
    ensures SplitOn(s[..j], sep) == [s[..j]]
  {
    FindNoneBefore(s, sep, j);
    SplitOnNotFound(s[..j], sep);
  }

  /** Cut before the second break, the extract splits into two pieces. */
  lemma SplitOfSecondCut(e: string, i: nat, j: nat)
    requires Find(e, SentenceBreak) == Some(i)
    requires Find(e[i + 2..], SentenceBreak) == Some(j)
    ensures SplitOn(e[..i + 2 + j], SentenceBreak) == [e[..i], e[i + 2..][..j]]
  {
    var head, mid := e[..i], e[i + 2..][..j];
    assert SplitOn(mid, SentenceBreak) == [mid] by {
      SplitBeforeFirst(e[i + 2..], SentenceBreak, j);
    }
    assert SplitOn(e[..i + 2 + j], SentenceBreak) == [head] + SplitOn(mid, SentenceBreak) by {
      SplitPrefixAt(e, SentenceBreak, i, j);
    }
  }

  /** With two breaks, the first two pieces of the split are the text before each. */
  lemma FirstTwoPieces(e: string, i: nat, j: nat)
    requires Find(e, SentenceBreak) == Some(i)
    requires Find(e[i + 2..], SentenceBreak) == Some(j)
    ensures Take(SplitOn(e, SentenceBreak), 2) == [e[..i], e[i + 2..][..j]]
  {
    var rest := e[i + 2..];
    SplitOnFound(e, SentenceBreak, i);
    SplitOnFound(rest, SentenceBreak, j);
  }

  /** With one break or none, the split already has at most two pieces. */
  lemma FewBreaksFewPieces(e: string)
    requires SecondBreak(e) == None
    ensures Take(SplitOn(e, SentenceBreak), 2) == SplitOn(e, SentenceBreak)
  {
    SecondBreakIffThreePieces(e);
  }

  /** The extract cut at its second sentence break, or the whole extract when it has none. */
  function Cut(e: string): (r: string)
    ensures |r| <= |e| && r == e[..|r|]
  {
    match SecondBreak(e)
    case None => e
    case Some(p) => e[..p]
  }

  /** The extract cut before its second sentence break splits into the extract's first two sentences. */
  lemma SplitOfCut(e: string)
    ensures SplitOn(Cut(e), SentenceBreak) == Take(SplitOn(e, SentenceBreak), 2)
  {
    if SecondBreak(e) == None {
      FewBreaksFewPieces(e);
    } else {
      var i := Find(e, SentenceBreak).value;
      var j := Find(e[i + 2..], SentenceBreak).value;
      assert Cut(e) == e[..i + 2 + j];
      SplitOfSecondCut(e, i, j);
      FirstTwoPieces(e, i, j);
    }
  }

  /** What remains before the final '.' splits into exactly the first two sentences of the extract (or all of them, if fewer). */
  lemma TruncateKeepsFirstTwoSentences(e: string)
    ensures var r := Truncate(e);
      |r| >= 1 && SplitOn(r[..|r| - 1], SentenceBreak) == Take(SplitOn(e, SentenceBreak), 2)
  {
    TruncateCutsAtSecondBreak(e);
    SplitOfCut(e);
  }

  /** A one-sentence extract keeps its own full stop and gains another. */
  lemma TruncateOneSentence()
    ensures Truncate("A.") == "A.."
  {
    var e := "A.";
    assert !OccursAt(e, SentenceBreak, 0) by {
      assert e[0 + 0] == 'A' != SentenceBreak[0];
    }
    assert Find(e, SentenceBreak) == None;
  }
}
