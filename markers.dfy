/**
 * Citation markers, as mdcites.go recognises them with the pattern
 *
 *     \[(@([[:alnum:]]+-?)+(;[[:blank:]]+)?)+\]
 *
 * and how it takes the citation keys out of a marker: strip the
 * brackets, split on `@`, trim white space and one trailing `;`, and drop
 * what is left empty.
 *
 * Between its brackets the pattern matches groups `@token(;blank+)?`.
 * Neither a token nor a separator holds an `@`, so a string matches the
 * repeated group exactly when it starts with `@` and every piece between
 * two `@` (and after the last) is a token followed by an optional
 * separator; `IsMarkerInside` says so. `ScanLine` finds the markers of a
 * line from left to right without overlap (Go's `FindAllString`), and
 * `ExtractKeys` is the source's split-and-trim; `ExtractKeysGroups` proves
 * that it yields the token of every group, so every key is well formed.
 */
module Markers {
  import opened Strings

  /** A character of `([[:alnum:]]+-?)+`. */
  predicate IsTokenChar(c: char) {
    IsAlnum(c) || c == '-'
  }

  /** What `([[:alnum:]]+-?)+` matches: alphanumeric runs, each followed
      by at most one hyphen. */
  predicate IsToken(s: string) {
    && |s| > 0
    && IsAlnum(s[0])
    && (forall k :: 0 <= k < |s| ==> IsTokenChar(s[k]))
    && NoDoubleHyphen(s)
  }

  /** No `-` directly follows another. */
  predicate NoDoubleHyphen(s: string) {
    |s| < 2 || ((s[0] != '-' || s[1] != '-') && NoDoubleHyphen(s[1..]))
  }

  /** What `(;[[:blank:]]+)?` matches. */
  predicate IsSeparator(s: string) {
    s == [] || (|s| >= 2 && s[0] == ';' && forall k :: 1 <= k < |s| ==> IsBlank(s[k]))
  }

  /** The length of the longest prefix of `s` whose characters satisfy `p`. */
  function PrefixRun(s: string, p: char -> bool): (n: nat)
    ensures n <= |s|
    ensures forall k :: 0 <= k < n ==> p(s[k])
    ensures n < |s| ==> !p(s[n])
  {
    if s != [] && p(s[0]) then 1 + PrefixRun(s[1..], p) else 0
  }

  /** The token that opens a group: its longest run of token characters.
      A group's token must be that whole run, because a separator starts
      with `;`, which is not a token character. */
  function GroupToken(g: string): string {
    g[..PrefixRun(g, IsTokenChar)]
  }

  /** What `([[:alnum:]]+-?)+(;[[:blank:]]+)?` matches: a group without
      its `@`. */
  predicate IsGroup(g: string) {
    IsToken(GroupToken(g)) && IsSeparator(g[PrefixRun(g, IsTokenChar)..])
  }

  /** The groups of a string that starts with `@`: the pieces between the
      `@`s. */
  function GroupsOf(s: string): (groups: seq<string>)
    requires s != []
    ensures |groups| >= 1
  {
    Split(s[1..], '@')
  }

  /** The inside of a marker: what `(@([[:alnum:]]+-?)+(;[[:blank:]]+)?)+`
      matches as a whole. */
  predicate IsMarkerInside(s: string) {
    && s != [] && s[0] == '@'
    && forall k :: 0 <= k < |GroupsOf(s)| ==> IsGroup(GroupsOf(s)[k])
  }

  /** `IsGroup` is the pattern: a token followed by a separator is a
      group, and the token is the one `GroupToken` picks. */
  lemma GroupOfParts(token: string, sep: string)
    requires IsToken(token) && IsSeparator(sep)
    ensures IsGroup(token + sep)
    ensures GroupToken(token + sep) == token
  {
    var g := token + sep;
    var n := PrefixRun(g, IsTokenChar);
    forall k | 0 <= k < |token| ensures IsTokenChar(g[k]) {
      assert g[k] == token[k];
    }
    if sep != [] {
      assert g[|token|] == ';';
    }
    assert n == |token|;
    assert g[..n] == token;
    assert g[n..] == sep;
  }

  /** And every group is a token followed by a separator. */
  lemma GroupParts(g: string)
    requires IsGroup(g)
    ensures g == GroupToken(g) + g[|GroupToken(g)|..]
    ensures IsSeparator(g[|GroupToken(g)|..])
  {
    assert g == g[..PrefixRun(g, IsTokenChar)] + g[PrefixRun(g, IsTokenChar)..];
  }

  /** A group holds no bracket and no `@`. */
  lemma GroupChars(g: string)
    requires IsGroup(g)
    ensures '[' !in g && ']' !in g && '@' !in g
  {
    var n := PrefixRun(g, IsTokenChar);
    var sep := g[n..];
    forall k | 0 <= k < |g| ensures g[k] != '[' && g[k] != ']' && g[k] != '@' {
      if k >= n {
        assert g[k] == sep[k - n];
      }
    }
  }

  /** A token holds no `@`, no `;`, no bracket and no white space. */
  lemma TokenAvoids(t: string)
    requires IsToken(t)
    ensures '@' !in t && ';' !in t && '[' !in t && ']' !in t
    ensures forall k :: 0 <= k < |t| ==> !IsSpace(t[k])
  {
    forall k | 0 <= k < |t| ensures t[k] != '@' && t[k] != ';' && t[k] != '[' && t[k] != ']' && !IsSpace(t[k]) {
      assert IsTokenChar(t[k]);
    }
  }

  /** A marker's inside holds no bracket. */
  lemma InsideHasNoBracket(s: string)
    requires IsMarkerInside(s)
    ensures '[' !in s && ']' !in s
  {
    var groups := GroupsOf(s);
    forall k | 0 <= k < |groups| ensures '[' !in groups[k] && ']' !in groups[k] {
      GroupChars(groups[k]);
    }
    JoinSplit(s[1..], '@');
    JoinAvoids(groups, '@', '[');
    JoinAvoids(groups, '@', ']');
    assert s == [s[0]] + s[1..];
  }

  /** A whole marker, brackets included, as `FindAllString` returns it. */
  predicate IsMarkerText(c: string) {
    |c| >= 2 && c[0] == '[' && c[|c| - 1] == ']' && IsMarkerInside(c[1..|c| - 1])
  }

  /** The marker pattern matches `line[i..j + 1]`. */
  predicate MarkerAt(line: string, i: int, j: int) {
    0 <= i < j < |line| && line[i] == '[' && line[j] == ']' && IsMarkerInside(line[i + 1..j])
  }

  /** The first `]` at or after position `from`. */
  function NextClose(line: string, from: nat): (r: Option<nat>)
    requires from <= |line|
    ensures r.Some? ==> from <= r.value < |line|
    decreases |line| - from
  {
    if from == |line| then None
    else if line[from] == ']' then Some(from)
    else NextClose(line, from + 1)
  }

  /** `NextClose` finds a `]`, and none comes before it. */
  lemma {:induction false} NextCloseSpec(line: string, from: nat)
    requires from <= |line|
    ensures NextClose(line, from).Some? ==> line[NextClose(line, from).value] == ']'
    ensures forall k :: from <= k < |line| && (NextClose(line, from).None? || k < NextClose(line, from).value) ==> line[k] != ']'
    decreases |line| - from
  {
    if from < |line| && line[from] != ']' {
      NextCloseSpec(line, from + 1);
    }
  }

  /** Where a marker stands in a line: its `[` and its `]`. */
  datatype Span = Span(open: nat, close: nat)

  /** The end of the match that starts at position `i`, if one does: a
      match can only start at a `[` and, since a marker's inside holds no
      bracket, can only end at the next `]`. */
  function MatchAt(line: string, i: nat): (r: Option<nat>)
    requires i < |line|
  {
    if line[i] != '[' then None
    else
      match NextClose(line, i + 1)
      case None => None
      case Some(j) => if IsMarkerInside(line[i + 1..j]) then Some(j) else None
  }

  /** What `MatchAt` finds is a marker. */
  lemma MatchAtSound(line: string, i: nat)
    requires i < |line|
    ensures MatchAt(line, i).Some? ==> MarkerAt(line, i, MatchAt(line, i).value)
  {
    if line[i] == '[' {
      NextCloseSpec(line, i + 1);
    }
  }

  /** A marker closes at the first `]` after its `[`, so `MatchAt` finds
      every marker. */
  lemma MatchAtComplete(line: string, i: nat, j: int)
    requires i < |line| && MarkerAt(line, i, j)
    ensures MatchAt(line, i) == Some(j)
  {
    var inside := line[i + 1..j];
    InsideHasNoBracket(inside);
    NextCloseSpec(line, i + 1);
    forall k | i + 1 <= k < j ensures line[k] != ']' {
      assert line[k] == inside[k - i - 1];
    }
  }

  /** No `[` stands inside a marker or at its end. */
  lemma NoOpenWithin(line: string, i: int, j: int, a: int)
    requires MarkerAt(line, i, j) && i < a <= j
    ensures line[a] != '['
  {
    if a < j {
      var inside := line[i + 1..j];
      InsideHasNoBracket(inside);
      assert line[a] == inside[a - i - 1];
    }
  }

  /** The markers of `line` from position `i` on, found the way Go's
      `FindAllString` finds them: the search resumes after a match and one
      character later after a miss. */
  function MarkersFrom(line: string, i: nat): seq<Span>
    requires i <= |line|
    decreases |line| - i
  {
    if i == |line| then []
    else
      match MatchAt(line, i)
      case Some(j) => [Span(i, j)] + MarkersFrom(line, j + 1)
      case None => MarkersFrom(line, i + 1)
  }

  /** One step of the search. */
  lemma MarkersFromStep(line: string, i: nat)
    requires i < |line|
    ensures MatchAt(line, i).Some? ==>
      MarkersFrom(line, i) == [Span(i, MatchAt(line, i).value)] + MarkersFrom(line, MatchAt(line, i).value + 1)
    ensures MatchAt(line, i).None? ==> MarkersFrom(line, i) == MarkersFrom(line, i + 1)
  {
  }

  /** A match at `i` is the next span; the search resumes after it. */
  lemma MarkersFromHit(line: string, i: nat, j: nat, next: nat)
    requires i < |line| && MatchAt(line, i) == Some(j) && next == j + 1
    ensures MarkersFrom(line, i) == [Span(i, j)] + MarkersFrom(line, next)
  {
  }

  /** No match at `i`: the search goes on at the next character. */
  lemma MarkersFromMiss(line: string, i: nat, next: nat)
    requires i < |line| && MatchAt(line, i) == None && next == i + 1
    ensures MarkersFrom(line, i) == MarkersFrom(line, next)
  {
  }

  /** The spans `MarkersFrom` returns are markers at or after `i`. */
  lemma {:induction false} MarkersFromSound(line: string, i: nat)
    requires i <= |line|
    ensures forall k :: 0 <= k < |MarkersFrom(line, i)| ==>
      i <= MarkersFrom(line, i)[k].open && MarkerAt(line, MarkersFrom(line, i)[k].open, MarkersFrom(line, i)[k].close)
    decreases |line| - i
  {
    if i < |line| {
      MarkersFromStep(line, i);
      MatchAtSound(line, i);
      var r := MatchAt(line, i);
      var spans := MarkersFrom(line, i);
      if r.Some? {
        var rest := MarkersFrom(line, r.value + 1);
        MarkersFromSound(line, r.value + 1);
        forall k | 0 <= k < |spans| ensures i <= spans[k].open && MarkerAt(line, spans[k].open, spans[k].close) {
          if k > 0 {
            assert spans[k] == rest[k - 1];
          }
        }
      } else {
        MarkersFromSound(line, i + 1);
      }
    }
  }

  /** The spans `MarkersFrom` returns are in order and do not overlap. */
  lemma {:induction false} MarkersFromOrdered(line: string, i: nat)
    requires i <= |line|
    ensures forall k :: 0 <= k < |MarkersFrom(line, i)| ==> i <= MarkersFrom(line, i)[k].open
    ensures forall k :: 0 <= k < |MarkersFrom(line, i)| ==> MarkersFrom(line, i)[k].open < MarkersFrom(line, i)[k].close
    ensures forall k :: 0 <= k < |MarkersFrom(line, i)| - 1 ==>
      MarkersFrom(line, i)[k].close < MarkersFrom(line, i)[k + 1].open
    decreases |line| - i
  {
    if i < |line| {
      MarkersFromStep(line, i);
      var r := MatchAt(line, i);
      var spans := MarkersFrom(line, i);
      if r.Some? {
        var rest := MarkersFrom(line, r.value + 1);
        MarkersFromOrdered(line, r.value + 1);
        forall k | 0 < k < |spans| ensures spans[k] == rest[k - 1] {
        }
      } else {
        MarkersFromOrdered(line, i + 1);
      }
    }
  }

  /** `MarkersFrom` misses no marker: every marker that starts at or after
      `i` is among the spans it returns. With `MarkersFromSound` this says
      the spans are exactly the marker occurrences, in increasing order. */
  lemma {:induction false} MarkersFromComplete(line: string, i: nat, a: int, b: int)
    requires i <= |line|
    requires i <= a && MarkerAt(line, a, b)
    ensures Span(a, b) in MarkersFrom(line, i)
    decreases |line| - i
  {
    var r := MatchAt(line, i);
    if i == a {
      MatchAtComplete(line, a, b);
      MarkersFromHit(line, a, b, b + 1);
      assert MarkersFrom(line, i)[0] == Span(a, b);
    } else if r.Some? {
      var j := r.value;
      MatchAtSound(line, i);
      if a <= j {
        NoOpenWithin(line, i, j, a);
      } else {
        var rest := MarkersFrom(line, j + 1);
        MarkersFromHit(line, i, j, j + 1);
        MarkersFromComplete(line, j + 1, a, b);
        assert Span(a, b) in rest;
        assert MarkersFrom(line, i) == [Span(i, j)] + rest;
      }
    } else {
      MarkersFromMiss(line, i, i + 1);
      MarkersFromComplete(line, i + 1, a, b);
    }
  }

  /** The text of a marker, brackets included. */
  function MarkerText(line: string, span: Span): (c: string)
    requires MarkerAt(line, span.open, span.close)
    ensures IsMarkerText(c)
  {
    SliceOfSlice(line, span.open, span.close + 1, 1, span.close - span.open);
    line[span.open..span.close + 1]
  }

  /** The texts of the given markers of a line. */
  function Texts(line: string, spans: seq<Span>): (cs: seq<string>)
    requires forall k :: 0 <= k < |spans| ==> MarkerAt(line, spans[k].open, spans[k].close)
    ensures forall k :: 0 <= k < |cs| ==> IsMarkerText(cs[k])
  {
    seq(|spans|, k requires 0 <= k < |spans| => MarkerText(line, spans[k]))
  }

  /** Go's `exp.FindAllString(line, -1)` with the marker pattern: the
      text of every marker of the line, left to right. */
  function ScanLine(line: string): seq<string> {
    MarkersFromSound(line, 0);
    Texts(line, MarkersFrom(line, 0))
  }

  /** Spans moved `d` characters to the right. */
  function Shift(spans: seq<Span>, d: nat): seq<Span> {
    seq(|spans|, k requires 0 <= k < |spans| => Span(spans[k].open + d, spans[k].close + d))
  }

  lemma ShiftCons(span: Span, spans: seq<Span>, d: nat)
    ensures Shift([span] + spans, d) == [Span(span.open + d, span.close + d)] + Shift(spans, d)
  {
    var l, r := Shift([span] + spans, d), [Span(span.open + d, span.close + d)] + Shift(spans, d);
    forall k | 0 < k < |l| ensures l[k] == r[k] {
      assert ([span] + spans)[k] == spans[k - 1];
    }
  }

  /** A position counted in `y` is `|x|` further on in `x + y`. */
  function Later(r: Option<nat>, d: nat): Option<nat> {
    match r
    case None => None
    case Some(j) => Some(j + d)
  }

  lemma {:induction false} NextCloseShift(x: string, y: string, from: nat)
    requires from <= |y|
    ensures NextClose(x + y, |x| + from) == Later(NextClose(y, from), |x|)
    decreases |y| - from
  {
    if from < |y| {
      assert (x + y)[|x| + from] == y[from];
      NextCloseShift(x, y, from + 1);
    }
  }

  /** Whether a marker starts at a position does not depend on what comes
      before the line's suffix from there. */
  lemma MatchAtShift(x: string, y: string, i: nat)
    requires i < |y|
    ensures MatchAt(x + y, |x| + i) == Later(MatchAt(y, i), |x|)
  {
    assert (x + y)[|x| + i] == y[i];
    if y[i] == '[' {
      NextCloseShift(x, y, i + 1);
      match NextClose(y, i + 1)
      case None =>
      case Some(j) =>
        assert (x + y)[|x| + i + 1..|x| + j] == y[i + 1..j];
    }
  }

  /** Scanning the `y` part of `x + y` finds the markers of `y`, moved by
      `|x|`. */
  lemma {:induction false} MarkersFromShift(x: string, y: string, i: nat)
    requires i <= |y|
    ensures MarkersFrom(x + y, |x| + i) == Shift(MarkersFrom(y, i), |x|)
    decreases |y| - i
  {
    var line, d := x + y, |x|;
    if i < |y| {
      MatchAtShift(x, y, i);
      var m := MatchAt(y, i);
      if m.Some? {
        var j := m.value;
        var n := j + 1;
        MarkersFromHit(line, d + i, d + j, d + n);
        MarkersFromHit(y, i, j, n);
        MarkersFromShift(x, y, n);
        ShiftHitStep(MarkersFrom(line, d + i), MarkersFrom(y, i), MarkersFrom(line, d + n), MarkersFrom(y, n), i, j, d);
      } else {
        MarkersFromMiss(line, d + i, d + (i + 1));
        MarkersFromMiss(y, i, i + 1);
        MarkersFromShift(x, y, i + 1);
      }
    } else {
      assert MarkersFrom(y, i) == [];
      assert Shift([], d) == [];
    }
  }

  /** The step of `MarkersFromShift` at a match, on plain sequences. */
  lemma ShiftHitStep(l: seq<Span>, r: seq<Span>, found: seq<Span>, rest: seq<Span>, i: nat, j: nat, d: nat)
    requires l == [Span(d + i, d + j)] + found && found == Shift(rest, d)
    requires r == [Span(i, j)] + rest
    ensures l == Shift(r, d)
  {
    ShiftCons(Span(i, j), rest, d);
  }

  /** Positions without `[` are passed over. */
  lemma {:induction false} MarkersFromSkip(line: string, i: nat, j: nat)
    requires i <= j <= |line|
    requires forall k :: i <= k < j ==> line[k] != '['
    ensures MarkersFrom(line, i) == MarkersFrom(line, j)
    decreases j - i
  {
    if i < j {
      var next := i + 1;
      assert line[i] != '[';
      assert MatchAt(line, i) == None;
      MarkersFromMiss(line, i, next);
      MarkersFromSkip(line, next, j);
    }
  }

  /** A marker of `y` is a marker of `x + y`, `|x|` further on. */
  lemma MarkerAtShift(x: string, y: string, a: int, b: int)
    requires MarkerAt(y, a, b)
    ensures MarkerAt(x + y, |x| + a, |x| + b)
    ensures MarkerText(x + y, Span(|x| + a, |x| + b)) == MarkerText(y, Span(a, b))
  {
    assert (x + y)[|x| + a + 1..|x| + b] == y[a + 1..b];
    assert (x + y)[|x| + a..|x| + b + 1] == y[a..b + 1];
  }

  lemma TextsShift(x: string, y: string, spans: seq<Span>)
    requires forall k :: 0 <= k < |spans| ==> MarkerAt(y, spans[k].open, spans[k].close)
    ensures forall k :: 0 <= k < |spans| ==> MarkerAt(x + y, Shift(spans, |x|)[k].open, Shift(spans, |x|)[k].close)
    ensures Texts(x + y, Shift(spans, |x|)) == Texts(y, spans)
  {
    forall k | 0 <= k < |spans|
      ensures MarkerAt(x + y, Shift(spans, |x|)[k].open, Shift(spans, |x|)[k].close)
      ensures MarkerText(x + y, Shift(spans, |x|)[k]) == MarkerText(y, spans[k])
    {
      MarkerAtShift(x, y, spans[k].open, spans[k].close);
    }
  }

  /** Scanning from the end of `x` in `x + y` finds what scanning `y`
      finds. */
  lemma ScanAfter(x: string, y: string)
    ensures forall k :: 0 <= k < |MarkersFrom(x + y, |x|)| ==>
      MarkerAt(x + y, MarkersFrom(x + y, |x|)[k].open, MarkersFrom(x + y, |x|)[k].close)
    ensures Texts(x + y, MarkersFrom(x + y, |x|)) == ScanLine(y)
  {
    MarkersFromShift(x, y, 0);
    MarkersFromSound(y, 0);
    TextsShift(x, y, MarkersFrom(y, 0));
  }

  /** Text without `[` in front of a line adds no marker. */
  lemma ScanLineSkip(x: string, y: string)
    requires '[' !in x
    ensures ScanLine(x + y) == ScanLine(y)
  {
    forall k | 0 <= k < |x| ensures (x + y)[k] != '[' {
      assert (x + y)[k] == x[k];
    }
    MarkersFromSkip(x + y, 0, |x|);
    ScanAfter(x, y);
  }

  /** A marker in front of a line is the first marker found. */
  lemma ScanLineMarker(c: string, y: string)
    requires IsMarkerText(c)
    ensures ScanLine(c + y) == [c] + ScanLine(y)
  {
    var line, n := c + y, |c|;
    var j := n - 1;
    assert line[1..j] == c[1..j];
    assert MarkerAt(line, 0, j);
    MatchAtComplete(line, 0, j);
    MarkersFromHit(line, 0, j, n);
    ScanAfter(c, y);
    MarkersFromSound(line, 0);
    TextsCons(line, Span(0, j), MarkersFrom(line, n));
    assert line[0..n] == c;
  }

  /** The texts of a first marker and the rest. */
  lemma TextsCons(line: string, span: Span, spans: seq<Span>)
    requires MarkerAt(line, span.open, span.close)
    requires forall k :: 0 <= k < |spans| ==> MarkerAt(line, spans[k].open, spans[k].close)
    ensures forall k :: 0 <= k < |[span] + spans| ==> MarkerAt(line, ([span] + spans)[k].open, ([span] + spans)[k].close)
    ensures Texts(line, [span] + spans) == [MarkerText(line, span)] + Texts(line, spans)
  {
    var all := [span] + spans;
    forall k | 0 <= k < |all| ensures MarkerAt(line, all[k].open, all[k].close) {
      if k > 0 {
        assert all[k] == spans[k - 1];
      }
    }
    var l, r := Texts(line, all), [MarkerText(line, span)] + Texts(line, spans);
    forall k | 0 <= k < |l| ensures l[k] == r[k] {
      if k > 0 {
        assert all[k] == spans[k - 1];
      }
    }
  }

  /** Brackets whose inside is not a marker's, with no other bracket in
      between, hold no marker. */
  lemma ScanLineNonMarker(c: string, y: string)
    requires |c| >= 2 && c[0] == '[' && c[|c| - 1] == ']'
    requires '[' !in c[1..] && ']' !in c[1..|c| - 1]
    requires !IsMarkerInside(c[1..|c| - 1])
    ensures ScanLine(c + y) == ScanLine(y)
  {
    var line := c + y;
    forall k | 1 <= k < |c| ensures line[k] != '[' && (k < |c| - 1 ==> line[k] != ']') {
      assert line[k] == c[1..][k - 1];
      if k < |c| - 1 {
        assert line[k] == c[1..|c| - 1][k - 1];
      }
    }
    assert line[|c| - 1] == ']';
    NextCloseSpec(line, 1);
    assert NextClose(line, 1) == Some(|c| - 1);
    assert line[1..|c| - 1] == c[1..|c| - 1];
    assert MatchAt(line, 0) == None;
    MarkersFromMiss(line, 0, 1);
    MarkersFromSkip(line, 1, |c|);
    ScanAfter(c, y);
  }

  /** The key that one split piece yields, if any: white space trimmed,
      then one `;`, and dropped when nothing is left (lines 77-81). */
  function PieceKeys(piece: string): seq<string> {
    var a := TrimSuffix(TrimSpace(piece), ';');
    if a == "" then [] else [a]
  }

  /** The citation keys of one marker's inside, as mdcites.go computes them
      (lines 75-81): split on `@`, then normalise and filter every piece. */
  function ExtractKeys(inside: string): seq<string> {
    ConcatMap(PieceKeys, Split(inside, '@'))
  }

  /** A group's piece (its token and its optional separator) yields the
      token. */
  lemma NormalizeGroup(token: string, sep: string)
    requires IsToken(token) && IsSeparator(sep)
    ensures PieceKeys(token + sep) == [token]
  {
    var s := token + sep;
    assert !IsSpace(s[0]);
    assert TrimLeft(s) == s;
    var r := TrimRight(s);
    TrimRightSpec(s);
    if sep == [] {
      assert !IsSpace(s[|s| - 1]);
      assert r == s;
    } else {
      assert !IsSpace(s[|token|]);
      assert |token| < |r|;
      assert forall k :: |token| < k < |s| ==> IsSpace(s[k]) by {
        forall k | |token| < k < |s| ensures IsSpace(s[k]) {
          assert s[k] == sep[k - |token|];
        }
      }
      assert !IsSpace(s[|r| - 1]);
      assert |r| == |token| + 1;
      assert r == token + [';'];
    }
  }

  /** Every group yields its token. */
  lemma GroupKeys(g: string)
    requires IsGroup(g)
    ensures PieceKeys(g) == [GroupToken(g)]
  {
    GroupParts(g);
    NormalizeGroup(GroupToken(g), g[|GroupToken(g)|..]);
  }

  /** Pieces that are all groups yield their tokens, one each, in order. */
  lemma GroupsKeys(groups: seq<string>)
    requires forall k :: 0 <= k < |groups| ==> IsGroup(groups[k])
    ensures |ConcatMap(PieceKeys, groups)| == |groups|
    ensures forall k :: 0 <= k < |groups| ==> ConcatMap(PieceKeys, groups)[k] == GroupToken(groups[k])
  {
    forall k | 0 <= k < |groups| ensures PieceKeys(groups[k]) == [GroupToken(groups[k])] {
      GroupKeys(groups[k]);
    }
    ConcatMapSingles(PieceKeys, groups);
  }

  lemma EmptyPieceKeys()
    ensures PieceKeys("") == []
  {
    assert TrimLeft("") == "";
  }

  /** The split-and-trim of the source yields exactly the token of every
      group, in order. */
  lemma ExtractKeysGroups(s: string)
    requires IsMarkerInside(s)
    ensures |ExtractKeys(s)| == |GroupsOf(s)|
    ensures forall k :: 0 <= k < |GroupsOf(s)| ==> ExtractKeys(s)[k] == GroupToken(GroupsOf(s)[k])
  {
    var groups := GroupsOf(s);
    SplitLeadingSeparator(s, '@');
    assert Split(s, '@') == [""] + groups;
    ConcatMapAppend(PieceKeys, [""], groups);
    EmptyPieceKeys();
    assert ConcatMap(PieceKeys, [""]) == [];
    assert ExtractKeys(s) == ConcatMap(PieceKeys, groups);
    GroupsKeys(groups);
  }

  /** The citation keys of one marker, brackets included (line 74 strips
      them). */
  function MarkerKeys(c: string): seq<string>
    requires IsMarkerText(c)
  {
    ExtractKeys(c[1..|c| - 1])
  }

  /** A marker cites at least one key, and every key is a token. */
  lemma MarkerKeysTokens(c: string)
    requires IsMarkerText(c)
    ensures |MarkerKeys(c)| >= 1
    ensures forall k :: 0 <= k < |MarkerKeys(c)| ==> IsToken(MarkerKeys(c)[k])
  {
    var inside := c[1..|c| - 1];
    var groups := GroupsOf(inside);
    ExtractKeysGroups(inside);
    forall k | 0 <= k < |groups| ensures IsToken(GroupToken(groups[k])) {
      assert IsGroup(groups[k]);
    }
  }

  /** The keys of a sequence of markers, marker by marker. */
  function MarkersKeys(cs: seq<string>): seq<string>
    requires forall k :: 0 <= k < |cs| ==> IsMarkerText(cs[k])
  {
    if cs == [] then []
    else MarkersKeys(cs[..|cs| - 1]) + MarkerKeys(cs[|cs| - 1])
  }

  /** Keys that are all tokens stay tokens when put together. */
  lemma TokensAppend(a: seq<string>, b: seq<string>)
    requires forall k :: 0 <= k < |a| ==> IsToken(a[k])
    requires forall k :: 0 <= k < |b| ==> IsToken(b[k])
    ensures forall k :: 0 <= k < |a + b| ==> IsToken((a + b)[k])
  {
    forall k | 0 <= k < |a + b| ensures IsToken((a + b)[k]) {
      if k < |a| {
        assert (a + b)[k] == a[k];
      } else {
        assert (a + b)[k] == b[k - |a|];
      }
    }
  }

  /** Markers yield tokens, and some exactly when there is a marker. */
  lemma {:induction false} MarkersKeysTokens(cs: seq<string>)
    requires forall k :: 0 <= k < |cs| ==> IsMarkerText(cs[k])
    ensures forall k :: 0 <= k < |MarkersKeys(cs)| ==> IsToken(MarkersKeys(cs)[k])
    ensures MarkersKeys(cs) == [] <==> cs == []
  {
    if cs != [] {
      var init, last := cs[..|cs| - 1], cs[|cs| - 1];
      var a, b := MarkersKeys(init), MarkerKeys(last);
      MarkersKeysTokens(init);
      MarkerKeysTokens(last);
      assert MarkersKeys(cs) == a + b;
      TokensAppend(a, b);
    }
  }

  /** Extending a prefix of markers by one marker adds its keys. */
  lemma MarkersKeysPrefix(cs: seq<string>, i: nat)
    requires forall k :: 0 <= k < |cs| ==> IsMarkerText(cs[k])
    requires i < |cs|
    ensures MarkersKeys(cs[..i + 1]) == MarkersKeys(cs[..i]) + MarkerKeys(cs[i])
  {
    assert cs[..i + 1][..i] == cs[..i];
  }

  /** The citation keys that one line contributes, in order of appearance. */
  function LineKeys(line: string): seq<string> {
    MarkersKeys(ScanLine(line))
  }

  /** Every key a line contributes is a token. */
  lemma LineKeysTokens(line: string)
    ensures forall k :: 0 <= k < |LineKeys(line)| ==> IsToken(LineKeys(line)[k])
  {
    MarkersKeysTokens(ScanLine(line));
  }

  /** Every marker of the line is among the texts `ScanLine` returns. */
  lemma ScanLineFinds(line: string, a: int, b: int)
    requires MarkerAt(line, a, b)
    ensures line[a..b + 1] in ScanLine(line)
  {
    var spans := MarkersFrom(line, 0);
    MarkersFromComplete(line, 0, a, b);
    var k :| 0 <= k < |spans| && spans[k] == Span(a, b);
    assert ScanLine(line)[k] == line[a..b + 1];
  }

  /** A line contributes keys exactly when it holds a marker. */
  lemma LineKeysEmpty(line: string)
    ensures LineKeys(line) == [] <==> forall a, b :: !MarkerAt(line, a, b)
  {
    MarkersKeysTokens(ScanLine(line));
    forall a, b | MarkerAt(line, a, b) ensures ScanLine(line) != [] {
      ScanLineFinds(line, a, b);
    }
    var spans := MarkersFrom(line, 0);
    if spans != [] {
      MarkersFromSound(line, 0);
      assert MarkerAt(line, spans[0].open, spans[0].close);
    }
  }

  /** A line without `[` contributes no keys. */
  lemma NoBracketNoKeys(line: string)
    requires '[' !in line
    ensures LineKeys(line) == []
  {
    LineKeysEmpty(line);
  }

  /** The keys of markers in a row: those of the first, then the rest. */
  lemma {:induction false} MarkersKeysCons(c: string, cs: seq<string>)
    requires IsMarkerText(c) && forall k :: 0 <= k < |cs| ==> IsMarkerText(cs[k])
    ensures forall k :: 0 <= k < |[c] + cs| ==> IsMarkerText(([c] + cs)[k])
    ensures MarkersKeys([c] + cs) == MarkerKeys(c) + MarkersKeys(cs)
    decreases |cs|
  {
    var all := [c] + cs;
    assert forall k :: 0 <= k < |all| ==> IsMarkerText(all[k]) by {
      forall k | 0 <= k < |all| ensures IsMarkerText(all[k]) {
        if k > 0 {
          assert all[k] == cs[k - 1];
        }
      }
    }
    if cs == [] {
      assert all[..0] == [];
    } else {
      var init, last := cs[..|cs| - 1], cs[|cs| - 1];
      assert all[..|all| - 1] == [c] + init;
      assert all[|all| - 1] == last;
      MarkersKeysCons(c, init);
      ConcatAssoc(MarkerKeys(c), MarkersKeys(init), MarkerKeys(last));
    }
  }

  /** Text without `[` in front of a line cites nothing. */
  lemma LineKeysSkip(x: string, y: string)
    requires '[' !in x
    ensures LineKeys(x + y) == LineKeys(y)
  {
    ScanLineSkip(x, y);
  }

  /** A marker in front of a line cites its keys before those of the
      rest of the line. */
  lemma LineKeysMarker(c: string, y: string)
    requires IsMarkerText(c)
    ensures LineKeys(c + y) == MarkerKeys(c) + LineKeys(y)
  {
    ScanLineMarker(c, y);
    MarkersKeysCons(c, ScanLine(y));
  }

  /** Brackets around something that is not a marker's inside, with no
      bracket in between, cite nothing. */
  lemma LineKeysNonMarker(c: string, y: string)
    requires |c| >= 2 && c[0] == '[' && c[|c| - 1] == ']'
    requires '[' !in c[1..] && ']' !in c[1..|c| - 1]
    requires !IsMarkerInside(c[1..|c| - 1])
    ensures LineKeys(c + y) == LineKeys(y)
  {
    ScanLineNonMarker(c, y);
  }

  /** A group of a marker taken apart: its token and the separator after
      it (empty, or `;` and blanks). */
  datatype Group = Group(token: string, sep: string)

  /** At least one group, each with a token and a separator. */
  predicate ValidGroups(gs: seq<Group>) {
    |gs| >= 1 && forall k :: 0 <= k < |gs| ==> IsToken(gs[k].token) && IsSeparator(gs[k].sep)
  }

  /** The inside of the marker made of `gs`, each group written as `@`,
      its token and its separator: the pattern's `(@token(;blank+)?)+`. */
  function Render(gs: seq<Group>): string {
    if gs == [] then "" else "@" + gs[0].token + gs[0].sep + Render(gs[1..])
  }

  /** What each group puts between two `@`. */
  function Pieces(gs: seq<Group>): (ps: seq<string>)
    ensures |ps| == |gs|
  {
    seq(|gs|, k requires 0 <= k < |gs| => gs[k].token + gs[k].sep)
  }

  /** The tokens of the groups, in order. */
  function Tokens(gs: seq<Group>): (ts: seq<string>)
    ensures |ts| == |gs|
  {
    seq(|gs|, k requires 0 <= k < |gs| => gs[k].token)
  }

  lemma PiecesCons(gs: seq<Group>)
    requires gs != []
    ensures Pieces(gs) == [gs[0].token + gs[0].sep] + Pieces(gs[1..])
  {
    var l, r := Pieces(gs), [gs[0].token + gs[0].sep] + Pieces(gs[1..]);
    forall k | 0 < k < |gs| ensures l[k] == r[k] {
      assert gs[1..][k - 1] == gs[k];
    }
  }

  /** One rendered group, then the rest. */
  lemma RenderCons(gs: seq<Group>)
    requires gs != []
    ensures Render(gs) == "@" + (gs[0].token + gs[0].sep) + Render(gs[1..])
  {
    ConcatAssoc("@", gs[0].token, gs[0].sep);
  }

  /** The `@`-separated pieces of a rendering are the groups' pieces. */
  lemma {:induction false} RenderGroups(gs: seq<Group>)
    requires ValidGroups(gs)
    ensures Render(gs) != [] && GroupsOf(Render(gs)) == Pieces(gs)
    decreases |gs|
  {
    var g := gs[0].token + gs[0].sep;
    var after := Render(gs[1..]);
    GroupOfParts(gs[0].token, gs[0].sep);
    GroupChars(g);
    RenderCons(gs);
    PiecesCons(gs);
    assert Render(gs)[1..] == g + after;
    if |gs| == 1 {
      assert after == "";
      assert g + after == g;
      SplitWithoutSeparator(g, '@');
    } else {
      var tail := gs[1..];
      assert ValidGroups(tail) by {
        forall k | 0 <= k < |tail| ensures IsToken(tail[k].token) && IsSeparator(tail[k].sep) {
          assert tail[k] == gs[k + 1];
        }
      }
      RenderGroups(tail);
      RenderCons(tail);
      SplitAtFirst(g, '@', after);
    }
  }

  /** Rendering well-formed groups gives a marker's inside, and the
      source's split-and-trim gives back their tokens, in order. */
  lemma RenderKeys(gs: seq<Group>)
    requires ValidGroups(gs)
    ensures IsMarkerInside(Render(gs))
    ensures ExtractKeys(Render(gs)) == Tokens(gs)
  {
    var s := Render(gs);
    RenderGroups(gs);
    RenderCons(gs);
    var pieces := Pieces(gs);
    forall k | 0 <= k < |gs| ensures IsGroup(pieces[k]) && GroupToken(pieces[k]) == gs[k].token {
      GroupOfParts(gs[k].token, gs[k].sep);
    }
    ExtractKeysGroups(s);
  }

  /** A rendering is `@` followed by the pieces joined with `@`. */
  lemma {:induction false} RenderJoin(gs: seq<Group>)
    requires gs != []
    ensures Render(gs) == "@" + Join(Pieces(gs), '@')
    decreases |gs|
  {
    var g := gs[0].token + gs[0].sep;
    RenderCons(gs);
    PiecesCons(gs);
    if |gs| == 1 {
      assert Render(gs[1..]) == "";
      assert Join(Pieces(gs), '@') == g;
    } else {
      RenderJoin(gs[1..]);
      assert Join(Pieces(gs), '@') == g + ['@'] + Join(Pieces(gs[1..]), '@');
    }
  }

  /** Every marker's inside is the rendering of its groups. */
  lemma InsideRendered(s: string)
    requires IsMarkerInside(s)
    ensures exists gs :: ValidGroups(gs) && Render(gs) == s
  {
    var groups := GroupsOf(s);
    var gs := seq(|groups|, k requires 0 <= k < |groups| =>
      Group(GroupToken(groups[k]), groups[k][|GroupToken(groups[k])|..]));
    forall k | 0 <= k < |groups|
      ensures IsToken(gs[k].token) && IsSeparator(gs[k].sep) && Pieces(gs)[k] == groups[k]
    {
      GroupParts(groups[k]);
    }
    assert Pieces(gs) == groups;
    RenderJoin(gs);
    JoinSplit(s[1..], '@');
    assert s == "@" + s[1..];
    assert ValidGroups(gs) && Render(gs) == s;
  }

  /** The recogniser is the pattern: a string is a marker's inside exactly
      when it is one or more well-formed groups written out. */
  lemma InsideIsRendering(s: string)
    ensures IsMarkerInside(s) <==> exists gs :: ValidGroups(gs) && Render(gs) == s
  {
    if IsMarkerInside(s) {
      InsideRendered(s);
    }
    if exists gs :: ValidGroups(gs) && Render(gs) == s {
      var gs :| ValidGroups(gs) && Render(gs) == s;
      RenderKeys(gs);
    }
  }

  /** The marker made of well-formed groups cites their tokens. */
  lemma MarkerOfGroups(gs: seq<Group>)
    requires ValidGroups(gs)
    ensures IsMarkerText("[" + Render(gs) + "]")
    ensures MarkerKeys("[" + Render(gs) + "]") == Tokens(gs)
  {
    var c := "[" + Render(gs) + "]";
    assert c[1..|c| - 1] == Render(gs);
    RenderKeys(gs);
  }

  /** A string of letters and digits has no `--`. */
  lemma {:induction false} AlnumNoDouble(s: string)
    requires forall k :: 0 <= k < |s| ==> IsAlnum(s[k])
    ensures NoDoubleHyphen(s)
  {
    if |s| >= 2 {
      AlnumNoDouble(s[1..]);
    }
  }

  /** A non-empty string of letters and digits is a token. */
  lemma AlnumToken(s: string)
    requires s != [] && forall k :: 0 <= k < |s| ==> IsAlnum(s[k])
    ensures IsToken(s)
  {
    AlnumNoDouble(s);
  }

  /** `[@t]` cites `t`. */
  lemma SingleKeyMarker(t: string)
    requires IsToken(t)
    ensures IsMarkerText("[@" + t + "]") && MarkerKeys("[@" + t + "]") == [t]
  {
    var gs := [Group(t, "")];
    MarkerOfGroups(gs);
    assert Render(gs) == "@" + t;
    assert "[" + ("@" + t) + "]" == "[@" + t + "]";
    assert Tokens(gs) == [t];
  }

  /** `[@t1 sep @t2]` cites `t1`, then `t2`. */
  lemma TwoKeyMarker(t1: string, sep: string, t2: string)
    requires IsToken(t1) && IsSeparator(sep) && IsToken(t2)
    ensures IsMarkerText("[@" + t1 + sep + "@" + t2 + "]")
    ensures MarkerKeys("[@" + t1 + sep + "@" + t2 + "]") == [t1, t2]
  {
    var gs := [Group(t1, sep), Group(t2, "")];
    var tail := gs[1..];
    assert tail == [Group(t2, "")] && tail[1..] == [];
    assert Render(tail) == "@" + t2 + "" + Render([]);
    assert "@" + t2 + "" == "@" + t2;
    assert Render(gs) == "@" + t1 + sep + ("@" + t2);
    assert "[" + Render(gs) + "]" == "[@" + t1 + sep + "@" + t2 + "]";
    assert Tokens(gs) == [t1, t2];
    MarkerOfGroups(gs);
  }

  /** Text around markers does not change what they cite: with no `[` in
      `p` and `q`, the line `p[@a]q[@b sep @c]` cites `a`, `b` and `c`, in
      that order. */
  lemma TwoMarkersKeys(p: string, a: string, q: string, b: string, sep: string, c: string)
    requires '[' !in p && '[' !in q
    requires IsToken(a) && IsToken(b) && IsSeparator(sep) && IsToken(c)
    ensures LineKeys(p + ("[@" + a + "]") + q + ("[@" + b + sep + "@" + c + "]")) == [a, b, c]
  {
    var m1, m2 := "[@" + a + "]", "[@" + b + sep + "@" + c + "]";
    SingleKeyMarker(a);
    TwoKeyMarker(b, sep, c);
    assert LineKeys(q + m2) == [b, c] by {
      assert m2 + "" == m2;
      LineKeysMarker(m2, "");
      NoBracketNoKeys("");
      LineKeysSkip(q, m2);
    }
    var r := q + m2;
    LineKeysMarker(m1, r);
    assert [a] + [b, c] == [a, b, c];
    var s := m1 + r;
    LineKeysSkip(p, s);
    ConcatAssoc(p, m1, q);
    ConcatAssoc(p + m1, q, m2);
    ConcatAssoc(p, m1, r);
  }

  /** The keys of the sentence below are tokens. */
  lemma SentenceToken(t: string)
    requires t == "Smith2020" || t == "Jones19" || t == "Lee21"
    ensures IsToken(t)
  {
    AlnumToken(t);
  }

  /** The text around and between the sentence's markers holds no `[`,
      and `; ` separates. */
  lemma SentenceGaps()
    ensures '[' !in "See " && '[' !in " and " && IsSeparator("; ")
  {
  }

  /** The sentence is text, a one-key marker, text and a two-key marker. */
  lemma SentenceLayout(line: string)
    requires line == "See [@Smith2020] and [@Jones19; @Lee21]"
    ensures line == "See " + ("[@" + "Smith2020" + "]") + " and " + ("[@" + "Jones19" + "; " + "@" + "Lee21" + "]")
  {
  }

  /** `See [@Smith2020] and [@Jones19; @Lee21]` cites `Smith2020`,
      `Jones19` and `Lee21`, in that order. */
  lemma SentenceExample(line: string)
    requires line == "See [@Smith2020] and [@Jones19; @Lee21]"
    ensures LineKeys(line) == ["Smith2020", "Jones19", "Lee21"]
  {
    SentenceLayout(line);
    SentenceToken("Smith2020");
    SentenceToken("Jones19");
    SentenceToken("Lee21");
    SentenceGaps();
    TwoMarkersKeys("See ", "Smith2020", " and ", "Jones19", "; ", "Lee21");
  }

  /** Two markers written back to back each cite their own key, in order. */
  lemma AdjacentMarkers(t1: string, t2: string)
    requires IsToken(t1) && IsToken(t2)
    ensures LineKeys(("[@" + t1 + "]") + ("[@" + t2 + "]")) == [t1, t2]
  {
    var m1, m2 := "[@" + t1 + "]", "[@" + t2 + "]";
    SingleKeyMarker(t1);
    SingleKeyMarker(t2);
    assert LineKeys(m2) == [t2] by {
      LineKeysMarker(m2, "");
      NoBracketNoKeys("");
      assert m2 + "" == m2;
    }
    LineKeysMarker(m1, m2);
    assert [t1] + [t2] == [t1, t2];
  }

  /** Adjacent markers `[@A][@B]` cite `A`, then `B`. */
  lemma AdjacentExample()
    ensures LineKeys("[@A][@B]") == ["A", "B"]
  {
    assert ("[@" + "A" + "]") + ("[@" + "B" + "]") == "[@A][@B]";
    AlnumToken("A");
    AlnumToken("B");
    AdjacentMarkers("A", "B");
  }

  /** Groups written without separator, `[@A@B]`, cite `A`, then `B`. */
  lemma ConcatenatedExample()
    ensures LineKeys("[@A@B]") == ["A", "B"]
  {
    var gs := [Group("A", ""), Group("B", "")];
    MarkerOfGroups(gs);
    var m := "[" + Render(gs) + "]";
    assert m == "[@A@B]";
    LineKeysMarker(m, "");
    NoBracketNoKeys("");
    assert m + "" == m;
    assert Tokens(gs) == ["A", "B"];
  }

  /** A separator may end the marker: `[@A; ]` cites `A`. */
  lemma TrailingSeparatorExample()
    ensures LineKeys("[@A; ]") == ["A"]
  {
    var gs := [Group("A", "; ")];
    assert IsSeparator("; ");
    MarkerOfGroups(gs);
    var m := "[" + Render(gs) + "]";
    assert m == "[@A; ]";
    LineKeysMarker(m, "");
    NoBracketNoKeys("");
    assert m + "" == m;
    assert Tokens(gs) == ["A"];
  }

  /** `[@A;@B]` is no marker: a `;` must be followed by a blank. */
  lemma MissingBlankExample()
    ensures !IsMarkerInside("@A;@B")
  {
    var s := "@A;@B";
    assert s[1..] == "A;" + "@B";
    SplitAtFirst("A;", '@', "@B");
    assert GroupsOf(s)[0] == "A;";
    assert PrefixRun("A;", IsTokenChar) == 1;
    assert "A;"[1..] == ";";
  }

  /** `[@]` is no marker: a group needs a token. */
  lemma EmptyKeyExample()
    ensures !IsMarkerInside("@")
  {
    assert "@"[1..] == "";
    assert GroupsOf("@") == [""];
    assert PrefixRun("", IsTokenChar) == 0;
    assert !IsGroup(GroupsOf("@")[0]);
  }

  /** `[@A;]` is no marker: the `;` needs a blank after it. */
  lemma NoBlankExample()
    ensures !IsMarkerInside("@A;")
  {
    var s := "@A;";
    assert s[1..] == "A;";
    SplitWithoutSeparator("A;", '@');
    assert GroupsOf(s)[0] == "A;";
    assert PrefixRun("A;", IsTokenChar) == 1;
    assert "A;"[1..] == ";";
  }

  /** The line `[@A;@B]` cites nothing. */
  lemma MissingBlankLine()
    ensures LineKeys("[@A;@B]") == []
  {
    var c := "[@A;@B]";
    assert c + "" == c;
    assert c[1..|c| - 1] == "@A;@B" && c[1..] == "@A;@B]";
    MissingBlankExample();
    NoBracketNoKeys("");
    LineKeysNonMarker(c, "");
  }

  /** The line `[@A;]` cites nothing. */
  lemma NoBlankLine()
    ensures LineKeys("[@A;]") == []
  {
    var c := "[@A;]";
    assert c + "" == c;
    assert c[1..|c| - 1] == "@A;" && c[1..] == "@A;]";
    NoBlankExample();
    NoBracketNoKeys("");
    LineKeysNonMarker(c, "");
  }

  /** The line `[@]` cites nothing. */
  lemma EmptyKeyLine()
    ensures LineKeys("[@]") == []
  {
    var c := "[@]";
    assert c + "" == c;
    assert c[1..|c| - 1] == "@" && c[1..] == "@]";
    EmptyKeyExample();
    NoBracketNoKeys("");
    LineKeysNonMarker(c, "");
  }
}
