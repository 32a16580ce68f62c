/** The comment pattern of LocalizeDocument.swift,
    `^(?:(?:\/\/)|(?:\/\*+))\s*(.+?)\s*(?:\*+\/)?$`, as a backtracking scanner over a
    whole key. It explores the choices in the order the regular-expression engine does:
    the `//` alternative, else the longest run of stars first; then the longest run of
    leading spaces first; then the SHORTEST body (`.+?` is lazy) after which only
    spaces and an optional closer (stars then a slash) remain. Positions are indices
    into the key `s`. */
module CommentPattern {
  import opened Wrappers
  import opened Strings

  /** `s[i..j]` is all `\s`. */
  predicate SpacesIn(s: string, i: int, j: int) {
    forall x | i <= x < j && 0 <= x < |s| :: IsRegexSpace(s[x])
  }

  /** `s[q..p]` holds no line terminator, which `.` never matches. */
  predicate NoNewlineIn(s: string, q: int, p: int) {
    forall x | q <= x < p && 0 <= x < |s| :: !IsNewline(s[x])
  }

  /** Where the longest run of `\s` starting at `i` ends (greedy `\s*`). */
  function SpaceEnd(s: string, i: nat): (k: nat)
    requires i <= |s|
    ensures i <= k <= |s| && SpacesIn(s, i, k)
    ensures k < |s| ==> !IsRegexSpace(s[k])
    decreases |s| - i
  {
    if i == |s| || !IsRegexSpace(s[i]) then i else SpaceEnd(s, i + 1)
  }

  /** Where the longest run of `*` starting at `i` ends (greedy `\*+`). */
  function StarEnd(s: string, i: nat): (k: nat)
    requires i <= |s|
    ensures i <= k <= |s| && forall x | i <= x < k :: s[x] == '*'
    ensures k < |s| ==> s[k] != '*'
    decreases |s| - i
  {
    if i == |s| || s[i] != '*' then i else StarEnd(s, i + 1)
  }

  /** `\*+\/$` matches `s[k..]`. */
  predicate CloserFrom(s: string, k: int) {
    0 <= k && k + 2 <= |s| && s[|s| - 1] == '/' && forall x | k <= x < |s| - 1 :: s[x] == '*'
  }

  /** `\s*(?:\*+\/)?$` matches `s[p..]`. */
  predicate TrailerAt(s: string, p: int) {
    0 <= p <= |s| && var k := SpaceEnd(s, p); k == |s| || CloserFrom(s, k)
  }

  /** `(?:\/\/)|(?:\/\*+)` matches `s[..i]`. */
  predicate OpenerIn(s: string, i: int) {
    2 <= i <= |s| && s[0] == '/'
    && ((i == 2 && s[1] == '/') || forall x | 1 <= x < i :: s[x] == '*')
  }

  /** A body `s[q..p]` followed by a trailer. */
  predicate BodyAt(s: string, q: int, p: int) {
    0 <= q < p <= |s| && NoNewlineIn(s, q, p) && TrailerAt(s, p)
  }

  /** One way for the whole pattern to match `s`: opener `s[..i]`, spaces `s[i..j]`,
      group 1 `s[j..k]`, trailer `s[k..]`. */
  predicate Splits(s: string, i: int, j: int, k: int) {
    OpenerIn(s, i) && i <= j && SpacesIn(s, i, j) && BodyAt(s, j, k)
  }

  /** Given the opener `s[..i]`, the engine reaches `(j, k)` first: no later start of the
      body after the spaces has any body (greedy `\s*`), and no shorter body ends a match
      (lazy `.+?`). */
  predicate FirstAfter(s: string, i: int, j: int, k: int)
    requires 0 <= i <= |s|
  {
    i <= j && SpacesIn(s, i, j) && BodyAt(s, j, k)
    && (forall q | j < q <= SpaceEnd(s, i) :: NoBodyAt(s, q))
    && (forall p | j < p < k :: !BodyAt(s, j, p))
  }

  /** `(i, j, k)` is the split the engine returns: the longest opener that leads to a
      match, then the longest run of spaces, then the shortest body. */
  ghost predicate FirstSplit(s: string, i: int, j: int, k: int) {
    && Splits(s, i, j, k)
    && (forall i', j', k' | Splits(s, i', j', k') :: i' <= i)
    && (forall j', k' | Splits(s, i, j', k') :: j' <= j)
    && (forall p | j < p < k :: !BodyAt(s, j, p))
  }

  /** The range of group 1 within the key. */
  datatype Span = Span(start: nat, end: nat)

  predicate NoBodyAt(s: string, q: int) {
    forall p | q < p <= |s| :: !BodyAt(s, q, p)
  }

  /** Lazy `(.+?)` from `s[q]`: tries ends `p`, `p + 1`, … and stops at a line terminator. */
  function BodyEnd(s: string, q: nat, p: nat): (r: Option<nat>)
    requires q < p <= |s| + 1
    requires NoNewlineIn(s, q, p - 1)
    ensures r.Some? ==> p <= r.value && BodyAt(s, q, r.value)
    ensures r.Some? ==> forall p' | p <= p' < r.value :: !BodyAt(s, q, p')
    ensures r.None? ==> forall p' | p <= p' <= |s| :: !BodyAt(s, q, p')
    decreases |s| + 1 - p
  {
    if p > |s| || IsNewline(s[p - 1]) then None
    else if TrailerAt(s, p) then Some(p)
    else BodyEnd(s, q, p + 1)
  }

  /** Greedy `\s*` after an opener ending at `i`: tries `s[i..j]`, then one space fewer. */
  function SpaceSearch(s: string, i: nat, j: nat): (r: Option<Span>)
    requires i <= j <= |s| && SpacesIn(s, i, j)
    ensures r.Some? ==> i <= r.value.start <= j && SpacesIn(s, i, r.value.start)
                        && BodyAt(s, r.value.start, r.value.end)
    ensures r.None? ==> forall q | i <= q <= j :: NoBodyAt(s, q)
    ensures r.Some? ==> forall q | r.value.start < q <= j :: NoBodyAt(s, q)
    ensures r.Some? ==> forall p | r.value.start < p < r.value.end :: !BodyAt(s, r.value.start, p)
    decreases j - i
  {
    match BodyEnd(s, j, j + 1)
    case Some(k) => Some(Span(j, k))
    case None => if j == i then None else SpaceSearch(s, i, j - 1)
  }

  /** Every split of the spaces after an opener ending at `i` fails. */
  predicate NoCaptureAfter(s: string, i: int)
    requires 0 <= i <= |s|
  {
    forall q | i <= q <= SpaceEnd(s, i) :: NoBodyAt(s, q)
  }

  function SpacesAfter(s: string, i: nat): (r: Option<Span>)
    requires i <= |s|
    ensures r.Some? ==> i <= r.value.start && SpacesIn(s, i, r.value.start) && BodyAt(s, r.value.start, r.value.end)
    ensures r.None? ==> NoCaptureAfter(s, i)
    ensures r.Some? ==> FirstAfter(s, i, r.value.start, r.value.end)
  {
    SpaceSearch(s, i, SpaceEnd(s, i))
  }

  /** Greedy `\/\*+`: tries the opener `s[..i]`, then one star fewer. */
  function StarSearch(s: string, i: nat): (r: Option<Span>)
    requires 2 <= i <= |s| && s[0] == '/' && forall x | 1 <= x < i :: s[x] == '*'
    ensures r.Some? ==> exists i' | 2 <= i' <= i ::
      && Splits(s, i', r.value.start, r.value.end) && FirstAfter(s, i', r.value.start, r.value.end)
      && forall i'' | i' < i'' <= i :: NoCaptureAfter(s, i'')
    ensures r.None? ==> forall i' | 2 <= i' <= i :: NoCaptureAfter(s, i')
    decreases i
  {
    match SpacesAfter(s, i)
    case Some(sp) =>
      assert Splits(s, i, sp.start, sp.end);
      Some(sp)
    case None => if i == 2 then None else StarSearch(s, i - 1)
  }

  /** `commentRegex.firstMatch(in: key, …)`, as the range of group 1. */
  function FindComment(s: string): (r: Option<Span>)
    ensures r.Some? ==> exists i :: Splits(s, i, r.value.start, r.value.end)
    ensures r.Some? ==> exists i :: FirstSplit(s, i, r.value.start, r.value.end)
  {
    if |s| >= 2 && s[0] == '/' && s[1] == '/' then
      match SpacesAfter(s, 2)
      case Some(sp) =>
        assert Splits(s, 2, sp.start, sp.end);
        LineOpenerOnly(s);
        FirstAfterIsFirst(s, 2, sp.start, sp.end);
        assert FirstSplit(s, 2, sp.start, sp.end);
        Some(sp)
      case None => None
    else if |s| >= 2 && s[0] == '/' && s[1] == '*' then
      var r := StarSearch(s, StarEnd(s, 1));
      if r.Some? then
        var i :| 2 <= i <= StarEnd(s, 1) && Splits(s, i, r.value.start, r.value.end)
          && FirstAfter(s, i, r.value.start, r.value.end)
          && forall i'' | i < i'' <= StarEnd(s, 1) :: NoCaptureAfter(s, i'');
        BlockOpenerLongest(s, i);
        FirstAfterIsFirst(s, i, r.value.start, r.value.end);
        assert FirstSplit(s, i, r.value.start, r.value.end);
        r
      else r
    else None
  }

  /** A key opening with `//` has no other opener. */
  lemma LineOpenerOnly(s: string)
    requires |s| >= 2 && s[0] == '/' && s[1] == '/'
    ensures forall i', j', k' | Splits(s, i', j', k') :: i' <= 2
  {
  }

  /** A star opener longer than the first one leading to a match leads to none. */
  lemma BlockOpenerLongest(s: string, i: int)
    requires 2 <= i <= |s| && s[0] == '/' && s[1] == '*'
    requires forall i'' | i < i'' <= StarEnd(s, 1) :: NoCaptureAfter(s, i'')
    ensures forall i', j', k' | Splits(s, i', j', k') :: i' <= i
  {
    forall i', j', k' | Splits(s, i', j', k')
      ensures i' <= i
    {
      StarEndCovers(s, i');
      SpaceEndCovers(s, i', j');
      assert !NoBodyAt(s, j');
      assert i' > i ==> NoCaptureAfter(s, i');
    }
  }

  /** The greedy spaces are the longest that lead to a match after the opener. */
  lemma FirstAfterIsFirst(s: string, i: int, j: int, k: int)
    requires 0 <= i <= |s| && FirstAfter(s, i, j, k)
    ensures forall j', k' | Splits(s, i, j', k') :: j' <= j
  {
    forall j', k' | Splits(s, i, j', k')
      ensures j' <= j
    {
      SpaceEndCovers(s, i, j');
      assert !NoBodyAt(s, j');
    }
  }

  /** The engine's split is unique, so the capture is determined. */
  lemma FirstSplitUnique(s: string, i: int, j: int, k: int, i': int, j': int, k': int)
    requires FirstSplit(s, i, j, k) && FirstSplit(s, i', j', k')
    ensures i == i' && j == j' && k == k'
  {
    assert i' <= i && i <= i';
    assert j' <= j && j <= j';
  }

  /** Some split of the whole of `s` fits the pattern. */
  ghost predicate Matches(s: string) {
    exists i, j, k :: Splits(s, i, j, k)
  }

  /** The captured comment text, `key[range]`. */
  function CommentBody(s: string): (r: Option<string>)
    ensures r.Some? <==> Matches(s)
    ensures r.Some? ==> exists i, j, k | Splits(s, i, j, k) :: r.value == s[j..k]
    ensures r.Some? ==> exists i, j, k | FirstSplit(s, i, j, k) :: r.value == s[j..k]
    ensures r.Some? ==> |r.value| >= 1 && forall x | 0 <= x < |r.value| :: !IsNewline(r.value[x])
    ensures r.Some? ==> |s| >= 2 && s[0] == '/' && (s[1] == '/' || s[1] == '*')
  {
    FindCommentComplete(s);
    match FindComment(s)
    case None => None
    case Some(sp) =>
      var i :| Splits(s, i, sp.start, sp.end);
      Some(s[sp.start..sp.end])
  }

  /** The reading of `\s*(?:\*+\/)?$` with the spaces chosen freely agrees with the greedy one. */
  lemma TrailerIff(s: string, p: int)
    requires 0 <= p <= |s|
    ensures TrailerAt(s, p) <==> exists k | p <= k <= |s| :: SpacesIn(s, p, k) && (k == |s| || CloserFrom(s, k))
  {
    var n := SpaceEnd(s, p);
    if exists k | p <= k <= |s| :: SpacesIn(s, p, k) && (k == |s| || CloserFrom(s, k)) {
      var k :| p <= k <= |s| && SpacesIn(s, p, k) && (k == |s| || CloserFrom(s, k));
      SpaceEndCovers(s, p, k);
      if k < |s| {
        assert s[k] == '*';
      }
    }
    if TrailerAt(s, p) {
      assert SpacesIn(s, p, n) && (n == |s| || CloserFrom(s, n));
    }
  }

  lemma SpaceEndCovers(s: string, i: nat, j: int)
    requires i <= j <= |s| && SpacesIn(s, i, j)
    ensures j <= SpaceEnd(s, i)
  {
  }

  lemma StarEndCovers(s: string, i: int)
    requires 2 <= i <= |s| && forall x | 1 <= x < i :: s[x] == '*'
    ensures i <= StarEnd(s, 1)
  {
    var n := StarEnd(s, 1);
  }

  /** The scanner finds a match exactly when the pattern matches the whole key. */
  lemma FindCommentComplete(s: string)
    ensures FindComment(s).Some? <==> Matches(s)
  {
    if Matches(s) {
      var i, j, k :| Splits(s, i, j, k);
      SpaceEndCovers(s, i, j);
      assert !NoBodyAt(s, j);
      assert !NoCaptureAfter(s, i);
      if s[1] == '/' {
        assert i == 2;
      } else {
        assert s[1] == '*';
        StarEndCovers(s, i);
      }
    }
  }

  /** A body end is found exactly at the first trailer position. */
  lemma ShortestBody(s: string, q: nat, e: nat)
    requires BodyAt(s, q, e)
    requires forall p | q < p < e :: !TrailerAt(s, p)
    ensures BodyEnd(s, q, q + 1) == Some(e)
  {
    var r := BodyEnd(s, q, q + 1);
  }

  /** A character that cannot end a trailer or begin one. */
  predicate EndsBody(c: char) {
    !IsRegexSpace(c) && c != '*' && c != '/'
  }

  /** No trailer starts strictly inside a body whose last character is plain. */
  lemma NoTrailerInside(s: string, x: nat, e: int)
    requires x < e <= |s| && EndsBody(s[e - 1])
    ensures !TrailerAt(s, x)
  {
    var y := SpaceEnd(s, x);
    assert y < e;
  }

  /** When a body follows all the spaces after the opener, it is the one taken. */
  lemma SpacesAfterFirst(s: string, i: nat, j: nat, e: nat)
    requires i <= j < |s| && SpacesIn(s, i, j) && !IsRegexSpace(s[j])
    requires BodyEnd(s, j, j + 1) == Some(e)
    ensures SpacesAfter(s, i) == Some(Span(j, e))
  {
    SpaceEndCovers(s, i, j);
    assert SpaceEnd(s, i) == j;
    SpaceSearchFirst(s, i, j, e);
  }

  lemma SpaceSearchFirst(s: string, i: nat, j: nat, e: nat)
    requires i <= j <= |s| && SpacesIn(s, i, j)
    requires BodyEnd(s, j, j + 1) == Some(e)
    ensures SpaceSearch(s, i, j) == Some(Span(j, e))
  {
  }

  /** With `//` and spaces up to `j`, the first body tried is the capture. */
  lemma LineScan(s: string, j: nat, e: nat)
    requires 2 <= j < |s| && s[0] == '/' && s[1] == '/' && SpacesIn(s, 2, j) && !IsRegexSpace(s[j])
    requires BodyEnd(s, j, j + 1) == Some(e)
    ensures FindComment(s) == Some(Span(j, e))
  {
    SpacesAfterFirst(s, 2, j, e);
  }

  /** With a slash and a single star as opener and spaces up to `j`, the first body tried is the capture. */
  lemma BlockScan(s: string, j: nat, e: nat)
    requires 2 <= j < |s| && s[0] == '/' && s[1] == '*' && s[2] != '*'
    requires SpacesIn(s, 2, j) && !IsRegexSpace(s[j])
    requires BodyEnd(s, j, j + 1) == Some(e)
    ensures FindComment(s) == Some(Span(j, e))
  {
    assert StarEnd(s, 1) == 2;
    SpacesAfterFirst(s, 2, j, e);
    assert StarSearch(s, 2) == Some(Span(j, e));
  }

  /** The capture of a line comment runs from the first non-space to the end of the key. */
  lemma LineCommentAt(s: string, j: nat)
    requires 2 <= j < |s| && s[0] == '/' && s[1] == '/' && SpacesIn(s, 2, j) && !IsRegexSpace(s[j])
    requires NoNewlineIn(s, j, |s|) && EndsBody(s[|s| - 1])
    ensures CommentBody(s) == Some(s[j..])
  {
    assert TrailerAt(s, |s|);
    forall p | j < p < |s|
      ensures !TrailerAt(s, p)
    {
      NoTrailerInside(s, p, |s|);
    }
    ShortestBody(s, j, |s|);
    LineScan(s, j, |s|);
    assert s[j..|s|] == s[j..];
  }

  /** The capture of a block comment runs from the first non-space to `e`, where only
      spaces and the closer follow. */
  lemma BlockCommentAt(s: string, j: nat, e: nat)
    requires 2 <= j < e <= |s| && s[0] == '/' && s[1] == '*' && s[2] != '*'
    requires SpacesIn(s, 2, j) && !IsRegexSpace(s[j])
    requires NoNewlineIn(s, j, e) && EndsBody(s[e - 1]) && TrailerAt(s, e)
    ensures CommentBody(s) == Some(s[j..e])
  {
    forall p | j < p < e
      ensures !TrailerAt(s, p)
    {
      NoTrailerInside(s, p, e);
    }
    ShortestBody(s, j, e);
    BlockScan(s, j, e);
  }

  /** The capture is the text between the spaces after `//` and the end of the key,
      e.g. `// note` yields `note`. */
  lemma LineCommentBody(w: string, b: string)
    requires SpacesIn(w, 0, |w|)
    requires b != [] && NoNewlineIn(b, 0, |b|) && !IsRegexSpace(b[0]) && EndsBody(b[|b| - 1])
    ensures CommentBody("//" + w + b) == Some(b)
  {
    var s := "//" + w + b;
    var j := 2 + |w|;
    assert s[j..] == b;
    assert forall x | 2 <= x < j :: s[x] == w[x - 2];
    assert forall x | j <= x < |s| :: s[x] == b[x - j];
    LineCommentAt(s, j);
  }

  /** The capture is the text between the spaces after the opener and the spaces
      before the closer, e.g. the key "/* General */" yields "General". */
  lemma BlockCommentBody(w: string, b: string, v: string)
    requires SpacesIn(w, 0, |w|) && SpacesIn(v, 0, |v|)
    requires b != [] && NoNewlineIn(b, 0, |b|) && !IsRegexSpace(b[0]) && b[0] != '*'
    requires EndsBody(b[|b| - 1])
    ensures CommentBody("/*" + w + b + v + "*/") == Some(b)
  {
    var s := "/*" + w + b + v + "*/";
    var j := 2 + |w|;
    var e := j + |b|;
    assert s[j..e] == b;
    assert forall x | 2 <= x < j :: s[x] == w[x - 2];
    assert forall x | j <= x < e :: s[x] == b[x - j];
    assert TrailerAt(s, e) by {
      assert forall x | e <= x < e + |v| :: s[x] == v[x - e];
      assert s[e + |v|] == '*' && s[|s| - 1] == '/';
      SpaceEndCovers(s, e, e + |v|);
      assert SpaceEnd(s, e) == e + |v|;
    }
    BlockCommentAt(s, j, e);
  }
}
