/** `fs_grep` on one file: a single pass with a window of context lines. */
module Grep {

  import opened Base
  import opened TextEdit
  import opened Lines
  import opened Utf8

  // ---------- matching ----------

  /** The compiled pattern. A regular expression is known only by the lines it accepts. */
  datatype Matcher = Literal(pattern: Text, caseSensitive: bool) | Regex(search: Text -> bool)

  function LowerByte(c: byte): byte {
    if 0x41 <= c <= 0x5A then c | 0x20 else c
  }

  function LowercaseCopy(text: Text): (r: Text)
    ensures |r| == |text| && forall i :: 0 <= i < |r| ==> r[i] == LowerByte(text[i])
  {
    seq(|text|, i requires 0 <= i < |text| => LowerByte(text[i]))
  }

  predicate TextMatches(text: Text, m: Matcher) {
    match m
    case Regex(search) => search(text)
    case Literal(pattern, caseSensitive) =>
      if caseSensitive then Find(text, pattern, 0).Some?
      else Find(LowercaseCopy(text), LowercaseCopy(pattern), 0).Some?
  }

  /** The pattern stands at position `i` when letter case is ignored. */
  predicate OccursIgnoringCase(text: Text, pattern: Text, i: int) {
    0 <= i && i + |pattern| <= |text| &&
    forall j :: 0 <= j < |pattern| ==> LowerByte(text[i..][j]) == LowerByte(pattern[j])
  }

  lemma {:induction false} LowerOccurs(text: Text, pattern: Text, i: int)
    ensures OccursAt(LowercaseCopy(text), LowercaseCopy(pattern), i) <==> OccursIgnoringCase(text, pattern, i)
  {
    var t, p := LowercaseCopy(text), LowercaseCopy(pattern);
    if 0 <= i && i + |pattern| <= |text| {
      forall j | 0 <= j < |pattern|
        ensures t[i..i + |p|][j] == LowerByte(text[i..][j]) && p[j] == LowerByte(pattern[j])
      {
      }
      if OccursIgnoringCase(text, pattern, i) {
        assert t[i..i + |p|] == p;
      }
    }
  }

  /** A literal pattern matches a line exactly when it occurs in it, up to letter case on request;
      ignoring case never loses a match. */
  lemma {:induction false} LiteralMeaning(text: Text, pattern: Text)
    ensures TextMatches(text, Literal(pattern, true)) <==> exists i :: OccursAt(text, pattern, i)
    ensures TextMatches(text, Literal(pattern, false)) <==> exists i :: OccursIgnoringCase(text, pattern, i)
    ensures TextMatches(text, Literal(pattern, true)) ==> TextMatches(text, Literal(pattern, false))
  {
    forall i
      ensures OccursAt(LowercaseCopy(text), LowercaseCopy(pattern), i) <==> OccursIgnoringCase(text, pattern, i)
    {
      LowerOccurs(text, pattern, i);
    }
    if i :| OccursAt(text, pattern, i) {
      forall j | 0 <= j < |pattern| ensures text[i..][j] == pattern[j] {
        assert text[i..i + |pattern|][j] == pattern[j];
      }
      assert OccursIgnoringCase(text, pattern, i);
    }
    if i :| OccursIgnoringCase(text, pattern, i) {
      assert OccursAt(LowercaseCopy(text), LowercaseCopy(pattern), i);
    }
  }

  /** What a matcher accepts: a literal pattern the texts it occurs in, in either letter case on request;
      a regular expression the texts that it accepts itself. */
  ghost predicate Accepts(text: Text, m: Matcher) {
    match m
    case Literal(pattern, true) => exists i :: OccursAt(text, pattern, i)
    case Literal(pattern, false) => exists i :: OccursIgnoringCase(text, pattern, i)
    case Regex(search) => search(text)
  }

  lemma {:induction false} MatchingIsAccepting(text: Text, m: Matcher)
    ensures TextMatches(text, m) <==> Accepts(text, m)
  {
    hide OccursAt, OccursIgnoringCase, Find;
    if m.Literal? {
      LiteralMeaning(text, m.pattern);
    }
  }

  /** Letter case is that of ASCII: two bytes are equal without it if they are equal, or are the same
      letter, whose cases are 32 apart. */
  lemma {:induction false} SameLetter(a: byte, b: byte)
    ensures LowerByte(a) == LowerByte(b)
       <==> (|| a == b
             || (0x41 <= a <= 0x5A && b as int == a as int + 32)
             || (0x41 <= b <= 0x5A && a as int == b as int + 32))
  {
    Lowered(a);
    Lowered(b);
  }

  lemma {:induction false} Lowered(a: byte)
    ensures 0x41 <= a <= 0x5A ==> LowerByte(a) as int == a as int + 32
  {
    assert 0x41 <= a <= 0x5A ==> a | 0x20 == a + 0x20;
  }

  // ---------- the definition ----------

  datatype ContextLine = ContextLine(line: nat, text: Text, isMatch: bool)

  datatype Hit<P> = Hit(path: P, line: nat, text: Text, context: seq<ContextLine>)

  function Max(a: int, b: int): (m: int)
    ensures m >= a && m >= b && (m == a || m == b)
  {
    if a <= b then b else a
  }

  /** Lines `max(1, l - c)` to `min(n, l + c)` of the file, with line `l` flagged. */
  function ContextOf(lines: seq<Text>, c: nat, l: nat): (r: seq<ContextLine>)
    requires 1 <= l <= |lines|
  {
    var low, high := Max(1, l - c), Min(|lines|, l + c);
    seq(high - low + 1, i requires 0 <= i < high - low + 1 =>
      ContextLine(low + i, Sanitize(lines[low + i - 1]), low + i == l))
  }

  function HitAt<P>(path: P, lines: seq<Text>, c: nat, l: nat): Hit<P>
    requires 1 <= l <= |lines|
  {
    Hit(path, l, Sanitize(lines[l - 1]), ContextOf(lines, c, l))
  }

  /** The hits on the first `k` lines. */
  function HitsUpTo<P>(path: P, lines: seq<Text>, c: nat, m: Matcher, k: nat): seq<Hit<P>>
    requires k <= |lines|
    decreases k, lines
  {
    if k == 0 then [] else
    HitsUpTo(path, lines, c, m, k - 1) + (if TextMatches(lines[k - 1], m) then [HitAt(path, lines, c, k)] else [])
  }

  /** A file as the search sees it: `skipped` if it cannot be opened or looks binary. */
  datatype File = File(text: Text, skipped: bool)

  function FileHits<P>(path: P, file: File, c: nat, m: Matcher): seq<Hit<P>> {
    if file.skipped then [] else
    var lines := LinesOf(file.text);
    HitsUpTo(path, lines, c, m, |lines|)
  }

  /** What a hit says: the path, the sanitized text of its line, and the lines from `max(1, l - c)` to
      `min(n, l + c)` under their numbers, with the line itself flagged and no other. */
  ghost predicate TellsTheTruth<P>(h: Hit<P>, path: P, lines: seq<Text>, c: nat) {
    && 1 <= h.line <= |lines| && h.path == path && h.text == Sanitize(lines[h.line - 1])
    && var low := if h.line > c then h.line - c else 1;
       var high := if h.line + c < |lines| then h.line + c else |lines|;
       && |h.context| == high - low + 1
       && forall i :: 0 <= i < |h.context| ==>
            && h.context[i].line == low + i
            && h.context[i].text == Sanitize(lines[low + i - 1])
            && (h.context[i].isMatch <==> low + i == h.line)
  }

  lemma {:induction false} HitTells<P>(path: P, lines: seq<Text>, c: nat, l: nat)
    requires 1 <= l <= |lines|
    ensures TellsTheTruth(HitAt(path, lines, c, l), path, lines, c)
  {
    hide Sanitize;
  }

  predicate IsReported<P>(hits: seq<Hit<P>>, l: nat) {
    exists i :: 0 <= i < |hits| && hits[i].line == l
  }

  /** One hit for every line up to line `k` that is accepted and no other, in order, each telling the
      truth about its line. */
  ghost predicate AreTheHits<P>(hits: seq<Hit<P>>, path: P, lines: seq<Text>, c: nat, m: Matcher, k: nat) {
    && (forall i :: 0 <= i < |hits| ==>
         TellsTheTruth(hits[i], path, lines, c) && hits[i].line <= k && Accepts(lines[hits[i].line - 1], m))
    && (forall i, j :: 0 <= i < j < |hits| ==> hits[i].line < hits[j].line)
    && (forall l :: 0 <= l < |lines| && l < k && Accepts(lines[l], m) ==> IsReported(hits, l + 1))
  }

  lemma {:induction false} OneMoreHit<P>(hits: seq<Hit<P>>, path: P, lines: seq<Text>, c: nat, m: Matcher, k: nat)
    requires k < |lines| && AreTheHits(hits, path, lines, c, m, k)
    ensures AreTheHits(hits + (if TextMatches(lines[k], m) then [HitAt(path, lines, c, k + 1)] else []),
                       path, lines, c, m, k + 1)
  {
    hide HitAt, TextMatches, Accepts, TellsTheTruth;
    MatchingIsAccepting(lines[k], m);
    HitTells(path, lines, c, k + 1);
    HitLine(path, lines, c, k + 1);
    var more := hits + (if TextMatches(lines[k], m) then [HitAt(path, lines, c, k + 1)] else []);
    forall l | 0 <= l <= k && Accepts(lines[l], m) ensures IsReported(more, l + 1) {
      if l < k {
        var i :| 0 <= i < |hits| && hits[i].line == l + 1;
        assert more[i] == hits[i];
      } else {
        assert more[|hits|].line == k + 1;
      }
    }
  }

  /** The hits on the first `k` lines are what they should be. */
  lemma {:induction false} HitsAreTheMatches<P>(path: P, lines: seq<Text>, c: nat, m: Matcher, k: nat)
    requires k <= |lines|
    ensures AreTheHits(HitsUpTo(path, lines, c, m, k), path, lines, c, m, k)
    decreases k
  {
    hide TextMatches, HitAt;
    if k > 0 {
      hide AreTheHits;
      HitsAreTheMatches(path, lines, c, m, k - 1);
      OneMoreHit(HitsUpTo(path, lines, c, m, k - 1), path, lines, c, m, k - 1);
    }
  }

  /** The hits of a file are the hits of its lines; a file that is skipped has none. */
  lemma {:induction false} FileHitsMeaning<P>(path: P, file: File, c: nat, m: Matcher)
    ensures var lines := LinesOf(file.text);
            if file.skipped then FileHits(path, file, c, m) == []
            else AreTheHits(FileHits(path, file, c, m), path, lines, c, m, |lines|)
  {
    hide HitsUpTo, LinesOf, AreTheHits;
    if !file.skipped {
      HitsAreTheMatches(path, LinesOf(file.text), c, m, |LinesOf(file.text)|);
    }
  }

  lemma {:induction false} HitLine<P>(path: P, lines: seq<Text>, c: nat, l: nat)
    requires 1 <= l <= |lines|
    ensures HitAt(path, lines, c, l).line == l
  {
    hide Sanitize, ContextOf;
  }

  /** And so for what the pass over a file reports: the matches found before, and then hits of this file. */
  lemma {:induction false} ReportedHits<P>(path: P, file: File, c: nat, m: Matcher, limit: nat, found: seq<Hit<P>>)
    requires |found| <= limit
    ensures var matches := Take(found + FileHits(path, file, c, m), limit);
            && found <= matches && |matches| <= limit
            && (forall i :: |found| <= i < |matches| ==>
                 !file.skipped && TellsTheTruth(matches[i], path, LinesOf(file.text), c)
                 && Accepts(LinesOf(file.text)[matches[i].line - 1], m))
            && (|matches| < limit ==> matches == found + FileHits(path, file, c, m))
  {
    hide FileHits, Accepts, LinesOf, TellsTheTruth, IsReported;
    FileHitsMeaning(path, file, c, m);
  }

  // ---------- the window ----------

  /** The loop's invariant when line `l` is current: `prev` and `lookahead` are the context lines
      around it, and the stream stands behind the last of them. */
  ghost predicate Window(lines: seq<Text>, c: nat, l: nat, prev: seq<Numbered>, curr: Numbered,
                         lookahead: seq<Numbered>, unread: seq<Text>)
  {
    && 1 <= l <= |lines|
    && var numbered := Number(lines);
    && prev == numbered[Max(0, l - 1 - c)..l - 1]
    && curr == numbered[l - 1]
    && lookahead == numbered[l..Min(|lines|, l + c)]
    && unread == lines[Min(|lines|, l + c)..]
  }

  lemma {:induction false} WindowSize(lines: seq<Text>, c: nat, l: nat, prev: seq<Numbered>, curr: Numbered,
                                      lookahead: seq<Numbered>, unread: seq<Text>)
    requires Window(lines, c, l, prev, curr, lookahead, unread)
    ensures |prev| <= c && |lookahead| <= c
    ensures curr == Numbered(l, lines[l - 1])
  {
  }

  /** With nothing ahead in the window but lines left in the file, no context was asked for: the loop
      that refills the window after such a line is read runs zero times. */
  lemma {:induction false} RefillNeverReads(lines: seq<Text>, c: nat, l: nat, prev: seq<Numbered>, curr: Numbered,
                                            lookahead: seq<Numbered>, unread: seq<Text>)
    requires Window(lines, c, l, prev, curr, lookahead, unread)
    requires |lookahead| == 0 && |unread| > 0
    ensures c == 0
  {
  }

  /** `prev` after the current line has moved into it. */
  function Shift(prev: seq<Numbered>, curr: Numbered, c: nat): seq<Numbered> {
    var longer := prev + [curr];
    if |longer| > c then longer[1..] else longer
  }

  lemma {:induction false} PrevSlides(all: seq<Numbered>, c: nat, l: nat)
    requires 1 <= l <= |all|
    ensures Shift(all[Max(0, l - 1 - c)..l - 1], all[l - 1], c) == all[Max(0, l - c)..l]
  {
    assert all[Max(0, l - 1 - c)..l - 1] + [all[l - 1]] == all[Max(0, l - 1 - c)..l];
  }

  lemma {:induction false} WindowSlides(lines: seq<Text>, c: nat, l: nat, prev: seq<Numbered>, curr: Numbered,
                                        lookahead: seq<Numbered>, unread: seq<Text>)
    requires Window(lines, c, l, prev, curr, lookahead, unread)
    ensures |lookahead| > 0 && |unread| > 0 ==>
      Window(lines, c, l + 1, Shift(prev, curr, c), lookahead[0],
             lookahead[1..] + [Numbered(l + |lookahead| + 1, unread[0])], unread[1..])
    ensures |lookahead| > 0 && |unread| == 0 ==>
      Window(lines, c, l + 1, Shift(prev, curr, c), lookahead[0], lookahead[1..], unread)
    ensures |lookahead| == 0 && |unread| > 0 ==>
      Window(lines, c, l + 1, Shift(prev, curr, c), Numbered(l + 1, unread[0]), [], unread[1..])
    ensures |lookahead| == 0 && |unread| == 0 <==> l == |lines|
  {
    hide Shift;
    var n := |lines|;
    var numbered := Number(lines);
    if l < n {
      PrevSlides(numbered, c, l);
      if |lookahead| > 0 {
        assert lookahead[0] == numbered[l];
        if |unread| > 0 {
          assert lookahead[1..] + [Numbered(l + c + 1, unread[0])] == numbered[l + 1..l + 1 + c];
          assert unread[1..] == lines[l + 1 + c..];
        } else {
          assert lookahead[1..] == numbered[l + 1..n];
        }
      } else {
        assert unread[1..] == lines[l + 1..];
      }
    }
  }

  // ---------- the pass ----------

  function Flagged(lines: seq<Numbered>): (r: seq<ContextLine>)
    ensures |r| == |lines|
  {
    seq(|lines|, i requires 0 <= i < |lines| => ContextLine(lines[i].line, Sanitize(lines[i].text), false))
  }

  lemma {:induction false} WindowIsContext(lines: seq<Text>, c: nat, l: nat, prev: seq<Numbered>, curr: Numbered,
                                           lookahead: seq<Numbered>, unread: seq<Text>)
    requires Window(lines, c, l, prev, curr, lookahead, unread)
    ensures Flagged(prev) + [ContextLine(curr.line, Sanitize(curr.text), true)] + Flagged(lookahead)
         == ContextOf(lines, c, l)
  {
    hide Sanitize;
    var r := Flagged(prev) + [ContextLine(curr.line, Sanitize(curr.text), true)] + Flagged(lookahead);
    var context := ContextOf(lines, c, l);
    forall i | 0 <= i < |r| ensures i < |context| && r[i] == context[i] {
      if i < |prev| {
        assert r[i] == Flagged(prev)[i];
      } else if i > |prev| {
        assert r[i] == Flagged(lookahead)[i - |prev| - 1];
      }
    }
  }

  method PushUnflagged(surrounding: seq<ContextLine>, lines: seq<Numbered>) returns (r: seq<ContextLine>)
    ensures r == surrounding + Flagged(lines)
  {
    hide Sanitize;
    r := surrounding;
    for i := 0 to |lines|
      invariant r == surrounding + Flagged(lines)[..i]
    {
      var text := SanitizeUtf8(lines[i].text);
      r := r + [ContextLine(lines[i].line, text, false)];
    }
  }

  /** The match object for the current line. */
  method ReportHit<P>(path: P, ghost lines: seq<Text>, ghost c: nat, ghost l: nat, prev: seq<Numbered>, curr: Numbered,
                      lookahead: seq<Numbered>, ghost unread: seq<Text>)
      returns (hit: Hit<P>)
    requires Window(lines, c, l, prev, curr, lookahead, unread)
    ensures hit == HitAt(path, lines, c, l)
  {
    hide Sanitize, Window, Flagged, ContextOf;
    WindowIsContext(lines, c, l, prev, curr, lookahead, unread);
    WindowSize(lines, c, l, prev, curr, lookahead, unread);
    var surrounding := PushUnflagged([], prev);
    assert [] + Flagged(prev) == Flagged(prev);
    var text := SanitizeUtf8(curr.text);
    surrounding := surrounding + [ContextLine(curr.line, text, true)];
    surrounding := PushUnflagged(surrounding, lookahead);
    return Hit(path, curr.line, text, surrounding);
  }

  function NumberFrom(first: nat, lines: seq<Text>): (r: seq<Numbered>)
    ensures |r| == |lines|
  {
    seq(|lines|, i requires 0 <= i < |lines| => Numbered(first + i, lines[i]))
  }

  /** The loops that fill the window: up to `c` more lines, as far as the file goes. */
  method FillLookahead(input: LineReader, line: Text, c: nat, lineNo: nat, lookahead: seq<Numbered>)
      returns (line': Text, lineNo': nat, lookahead': seq<Numbered>)
    modifies input
    ensures var unread := old(LinesOf(input.rest));
            var k := Min(c, |unread|);
            && LinesOf(input.rest) == unread[k..] && lineNo' == lineNo + k
            && lookahead' == lookahead + NumberFrom(lineNo + 1, unread[..k])
  {
    hide LinesOf;
    line', lineNo', lookahead' := line, lineNo, lookahead;
    ghost var unread := LinesOf(input.rest);
    for i := 0 to c
      invariant i <= |unread| && LinesOf(input.rest) == unread[i..] && lineNo' == lineNo + i
      invariant lookahead' == lookahead + NumberFrom(lineNo + 1, unread[..i])
    {
      var more;
      more, line' := input.GetLine(line');
      if !more {
        return;
      }
      assert unread[i..][0] == unread[i] && unread[..i + 1] == unread[..i] + [unread[i]];
      lineNo' := lineNo' + 1;
      lookahead' := lookahead' + [Numbered(lineNo', line')];
    }
  }

  lemma {:induction false} FirstWindow(lines: seq<Text>, c: nat, lookahead: seq<Numbered>, unread: seq<Text>)
    requires |lines| > 0
    requires var k := Min(c, |lines| - 1);
             lookahead == NumberFrom(2, lines[1..][..k]) && unread == lines[1..][k..]
    ensures Window(lines, c, 1, [], Numbered(1, lines[0]), lookahead, unread)
  {
  }

  /** Scan one file, adding its hits to `matches` until there are `maxResults` of them. */
  method SearchFile<P>(path: P, file: File, c: nat, m: Matcher, maxResults: nat, found: seq<Hit<P>>)
      returns (matches: seq<Hit<P>>)
    requires |found| <= maxResults
    ensures matches == Take(found + FileHits(path, file, c, m), maxResults)
  {
    hide LinesOf, Window, NumberFrom, TextMatches, ContextOf, Sanitize, Flagged, HitsUpTo, Take;
    matches := found;
    NothingTaken(found, maxResults);
    if file.skipped {
      return;
    }
    ghost var lines := LinesOf(file.text);
    var input := new LineReader(file.text);
    var empty: Text := [];
    var more, line := input.GetLine(empty);
    NoHitsBefore(path, lines, c, m);
    if !more {
      return;
    }
    var lineNo: nat := 1;
    var curr := Numbered(lineNo, line);
    var lookahead: seq<Numbered> := [];
    ghost var unread := LinesOf(input.rest);
    line, lineNo, lookahead := FillLookahead(input, line, c, lineNo, lookahead);
    assert [] + NumberFrom(2, unread[..Min(c, |unread|)]) == lookahead;
    unread := LinesOf(input.rest);
    FirstWindow(lines, c, lookahead, unread);
    var prev: seq<Numbered> := [];
    ghost var l: nat := 1;
    while true
      invariant fresh(input) && LinesOf(input.rest) == unread
      invariant Window(lines, c, l, prev, curr, lookahead, unread)
      invariant 1 <= l <= |lines| && lineNo == l + |lookahead|
      invariant matches == found + HitsUpTo(path, lines, c, m, l - 1) && |matches| <= maxResults
      decreases |lines| - l
    {
      WindowSize(lines, c, l, prev, curr, lookahead, unread);
      if |matches| >= maxResults {
        HitsGrow(path, lines, c, m, l - 1, |lines|);
        TakeStops(found, HitsUpTo(path, lines, c, m, l - 1), HitsUpTo(path, lines, c, m, |lines|), maxResults);
        return;
      }
      HitsStep(path, lines, c, m, l, found);
      if TextMatches(curr.text, m) {
        var hit := ReportHit(path, lines, c, l, prev, curr, lookahead, unread);
        matches := matches + [hit];
        if |matches| >= maxResults {
          HitsGrow(path, lines, c, m, l, |lines|);
          TakeStops(found, HitsUpTo(path, lines, c, m, l), HitsUpTo(path, lines, c, m, |lines|), maxResults);
          return;
        }
      }
      WindowSlides(lines, c, l, prev, curr, lookahead, unread);
      if |lookahead| == 0 && |unread| > 0 {
        RefillNeverReads(lines, c, l, prev, curr, lookahead, unread);
      }
      prev := prev + [curr];
      if |prev| > c {
        prev := prev[1..];
      }
      if |lookahead| > 0 {
        curr := lookahead[0];
        lookahead := lookahead[1..];
        more, line := input.GetLine(line);
        if more {
          lineNo := lineNo + 1;
          lookahead := lookahead + [Numbered(lineNo, line)];
        }
        unread, l := LinesOf(input.rest), l + 1;
        continue;
      }
      more, line := input.GetLine(line);
      if more {
        lineNo := lineNo + 1;
        curr := Numbered(lineNo, line);
        line, lineNo, lookahead := FillLookahead(input, line, c, lineNo, lookahead);
        unread, l := LinesOf(input.rest), l + 1;
        continue;
      }
      break;
    }
    NothingTaken(matches, maxResults);
  }

  lemma {:induction false} NoHitsBefore<P>(path: P, lines: seq<Text>, c: nat, m: Matcher)
    ensures HitsUpTo(path, lines, c, m, 0) == []
  {
  }

  lemma {:induction false} HitsStep<P>(path: P, lines: seq<Text>, c: nat, m: Matcher, l: nat, found: seq<Hit<P>>)
    requires 1 <= l <= |lines|
    ensures found + HitsUpTo(path, lines, c, m, l)
         == found + HitsUpTo(path, lines, c, m, l - 1)
            + (if TextMatches(lines[l - 1], m) then [HitAt(path, lines, c, l)] else [])
  {
  }

  lemma {:induction false} NothingTaken<T>(s: seq<T>, k: nat)
    requires |s| <= k
    ensures Take(s, k) == s && Take(s + [], k) == s
  {
    assert s + [] == s;
  }

  /** The hits on more lines start with the hits on fewer lines. */
  lemma {:induction false} HitsGrow<P>(path: P, lines: seq<Text>, c: nat, m: Matcher, j: nat, k: nat)
    requires j <= k <= |lines|
    ensures HitsUpTo(path, lines, c, m, j) <= HitsUpTo(path, lines, c, m, k)
    decreases k
  {
    if j < k {
      HitsGrow(path, lines, c, m, j, k - 1);
    }
  }

  /** Once the limit is reached, hits that follow change nothing. */
  lemma {:induction false} TakeStops<T>(found: seq<T>, some: seq<T>, all: seq<T>, k: nat)
    requires some <= all && |found + some| == k
    ensures Take(found + all, k) == found + some
  {
  }
}
