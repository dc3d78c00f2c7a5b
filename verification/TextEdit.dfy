/** The four in-place edits of one byte string, and the split/join algebra that says what they do. */
module TextEdit {

  import opened Base

  // ---------- searching ----------

  predicate OccursAt(s: Text, needle: Text, i: int) {
    0 <= i && i + |needle| <= |s| && s[i..i + |needle|] == needle
  }

  ghost predicate Contains(s: Text, needle: Text) {
    exists i :: OccursAt(s, needle, i)
  }

  /** `std::string::find(needle, from)`: the leftmost occurrence at or after `from`. */
  function Find(s: Text, needle: Text, from: nat): (r: Option<nat>)
    requires from <= |s|
    ensures r.None? ==> forall i :: from <= i ==> !OccursAt(s, needle, i)
    ensures r.Some? ==> from <= r.value && r.value + |needle| <= |s| && OccursAt(s, needle, r.value)
    ensures r.Some? ==> forall i :: from <= i < r.value ==> !OccursAt(s, needle, i)
    decreases |s| - from, needle
  {
    if OccursAt(s, needle, from) then Some(from)
    else if from == |s| then None
    else Find(s, needle, from + 1)
  }

  /** Only one position can be the leftmost occurrence, so its properties determine `Find`. */
  lemma {:induction false} FindIs(s: Text, needle: Text, from: nat, p: nat)
    requires from <= p && OccursAt(s, needle, p)
    requires forall i :: from <= i < p ==> !OccursAt(s, needle, i)
    ensures Find(s, needle, from) == Some(p)
  {
  }

  /** A start position with no occurrence before `later` may be moved up to `later`. */
  lemma {:induction false} FindFromLater(s: Text, needle: Text, from: nat, later: nat)
    requires from <= later <= |s|
    requires forall i :: from <= i < later ==> !OccursAt(s, needle, i)
    ensures Find(s, needle, from) == Find(s, needle, later)
    decreases later - from
  {
    if from < later {
      FindFromLater(s, needle, from + 1, later);
    }
  }

  /** Searching from a cursor is searching the text behind the cursor. */
  lemma {:induction false} FindBehindCursor(s: Text, needle: Text, cursor: nat)
    requires cursor <= |s|
    ensures var r := Find(s[cursor..], needle, 0);
            Find(s, needle, cursor) == if r.Some? then Some(cursor + r.value) else None
  {
    hide Find;
    var t := s[cursor..];
    forall i ensures OccursAt(t, needle, i) <==> 0 <= i && OccursAt(s, needle, cursor + i) {
      if 0 <= i && i + |needle| <= |t| {
        assert t[i..i + |needle|] == s[cursor + i..cursor + i + |needle|];
      }
    }
    match Find(t, needle, 0)
    case Some(p) =>
      forall j | cursor <= j < cursor + p ensures !OccursAt(s, needle, j) {
        assert !OccursAt(t, needle, j - cursor);
      }
      FindIs(s, needle, cursor, cursor + p);
    case None =>
      forall j | cursor <= j ensures !OccursAt(s, needle, j) {
        assert !OccursAt(t, needle, j - cursor);
      }
  }

  lemma {:induction false} OccurrenceStart(s: Text, needle: Text, i: int)
    requires |needle| > 0 && OccursAt(s, needle, i)
    ensures i < |s| && s[i] == needle[0]
  {
    assert s[i..i + |needle|][0] == needle[0];
  }

  lemma {:induction false} FindInFrontOf(done: Text, rest: Text, needle: Text)
    ensures var r := Find(rest, needle, 0);
            Find(done + rest, needle, |done|) == if r.Some? then Some(|done| + r.value) else None
  {
    assert (done + rest)[|done|..] == rest;
    FindBehindCursor(done + rest, needle, |done|);
  }

  /** A needle cannot start at a byte that it does not hold. */
  lemma {:induction false} NoForeignStart(s: Text, needle: Text, foreign: Text, i: int)
    requires |needle| > 0 && ShareNoByte(needle, foreign)
    requires 0 <= i < |s| && s[i] in foreign
    ensures !OccursAt(s, needle, i)
  {
    assert needle[0] in needle;
    if OccursAt(s, needle, i) {
      OccurrenceStart(s, needle, i);
    }
  }

  /** A needle none of whose bytes occurs before `p` is not found before `p`. */
  lemma {:induction false} FindPastForeignText(s: Text, needle: Text, p: nat)
    requires |needle| > 0 && OccursAt(s, needle, p)
    requires ShareNoByte(needle, s[..p])
    ensures Find(s, needle, 0) == Some(p)
  {
    forall i | 0 <= i < p ensures !OccursAt(s, needle, i) {
      assert s[i] == s[..p][i];
      NoForeignStart(s, needle, s[..p], i);
    }
    FindIs(s, needle, 0, p);
  }

  // ---------- splitting and joining ----------

  /** Cut `s` at the leftmost occurrence of the needle, then cut what follows that occurrence. */
  function Split(s: Text, needle: Text): (parts: seq<Text>)
    requires |needle| > 0
    ensures |parts| > 0
    decreases |s|
  {
    match Find(s, needle, 0)
    case None => [s]
    case Some(p) => [s[..p]] + Split(s[p + |needle|..], needle)
  }

  lemma {:induction false} SplitTooShort(s: Text, needle: Text)
    requires |s| < |needle|
    ensures Split(s, needle) == [s]
  {
  }

  function Join(parts: seq<Text>, sep: Text): Text
    requires |parts| > 0
  {
    if |parts| == 1 then parts[0] else parts[0] + sep + Join(parts[1..], sep)
  }

  lemma {:induction false} JoinSnoc(parts: seq<Text>, last: Text, sep: Text)
    requires |parts| > 0
    ensures Join(parts + [last], sep) == Join(parts, sep) + sep + last
  {
    var longer := parts + [last];
    if |parts| == 1 {
      assert longer[1..] == [last];
    } else {
      assert longer[1..] == parts[1..] + [last];
      JoinSnoc(parts[1..], last, sep);
      Associative(parts[0] + sep, Join(parts[1..], sep) + sep, last);
      Associative(parts[0] + sep, Join(parts[1..], sep), sep);
    }
  }

  /** The number of leftmost non-overlapping occurrences. */
  function Cuts(s: Text, needle: Text): nat
    requires |needle| > 0
  {
    |Split(s, needle)| - 1
  }

  /** What it means to have cut `s` at the leftmost non-overlapping occurrences, without saying how:
      the parts spell `s`, the needle is found in a part followed by the needle only at its end,
      and the last part holds no needle. */
  ghost predicate IsLeftmostSplit(parts: seq<Text>, s: Text, needle: Text)
    requires |needle| > 0
  {
    && |parts| > 0
    && Join(parts, needle) == s
    && (forall k :: 0 <= k < |parts| - 1 ==> Find(parts[k] + needle, needle, 0) == Some(|parts[k]|))
    && Find(parts[|parts| - 1], needle, 0) == None
  }

  /** The first part of a text that continues with the needle decides where `Find` stops. */
  lemma {:induction false} FindAtPartEnd(part: Text, needle: Text, rest: Text)
    ensures Find(part + needle, needle, 0) == Some(|part|) <==> Find(part + needle + rest, needle, 0) == Some(|part|)
  {
    var short, long := part + needle, part + needle + rest;
    assert OccursAt(short, needle, |part|) && OccursAt(long, needle, |part|);
    forall i | 0 <= i < |part| ensures OccursAt(short, needle, i) <==> OccursAt(long, needle, i) {
      assert short[i..i + |needle|] == long[i..i + |needle|];
    }
    if Find(short, needle, 0) == Some(|part|) {
      FindIs(long, needle, 0, |part|);
    }
    if Find(long, needle, 0) == Some(|part|) {
      FindIs(short, needle, 0, |part|);
    }
  }

  /** One more cut in front. */
  lemma {:induction false} PrependPart(part: Text, parts: seq<Text>, rest: Text, needle: Text)
    requires |needle| > 0 && IsLeftmostSplit(parts, rest, needle)
    requires Find(part + needle, needle, 0) == Some(|part|)
    ensures IsLeftmostSplit([part] + parts, part + needle + rest, needle)
  {
    var all := [part] + parts;
    assert all[1..] == parts;
    forall k | 0 <= k < |all| - 1 ensures Find(all[k] + needle, needle, 0) == Some(|all[k]|) {
      if k > 0 { assert all[k] == parts[k - 1]; }
    }
  }

  lemma {:induction false} SplitIsLeftmost(s: Text, needle: Text)
    requires |needle| > 0
    ensures IsLeftmostSplit(Split(s, needle), s, needle)
    decreases |s|
  {
    match Find(s, needle, 0)
    case None =>
    case Some(p) =>
      var part, rest := s[..p], s[p + |needle|..];
      SplitIsLeftmost(rest, needle);
      assert s == part + needle + rest;
      FindAtPartEnd(part, needle, rest);
      PrependPart(part, Split(rest, needle), rest, needle);
  }

  /** The inverse of `PrependPart`. */
  lemma {:induction false} DropPart(parts: seq<Text>, s: Text, needle: Text)
    requires |needle| > 0 && IsLeftmostSplit(parts, s, needle) && |parts| > 1
    ensures var rest := Join(parts[1..], needle);
            && s == parts[0] + needle + rest
            && IsLeftmostSplit(parts[1..], rest, needle)
            && Find(s, needle, 0) == Some(|parts[0]|)
  {
    var tail := parts[1..];
    FindAtPartEnd(parts[0], needle, Join(tail, needle));
    forall k | 0 <= k < |tail| - 1 ensures Find(tail[k] + needle, needle, 0) == Some(|tail[k]|) {
      assert tail[k] == parts[k + 1];
    }
  }

  lemma {:induction false} LeftmostSplitIsUnique(parts: seq<Text>, s: Text, needle: Text)
    requires |needle| > 0 && IsLeftmostSplit(parts, s, needle)
    ensures parts == Split(s, needle)
    decreases |parts|
  {
    hide Find, OccursAt;
    if |parts| == 1 {
    } else {
      var part, rest := parts[0], Join(parts[1..], needle);
      DropPart(parts, s, needle);
      LeftmostSplitIsUnique(parts[1..], rest, needle);
      assert s[..|part|] == part && s[|part| + |needle|..] == rest;
    }
  }

  /** Total length of the parts. */
  ghost function Length(parts: seq<Text>): nat {
    if |parts| == 0 then 0 else |parts[0]| + Length(parts[1..])
  }

  lemma {:induction false} JoinLength(parts: seq<Text>, sep: Text)
    requires |parts| > 0
    ensures |Join(parts, sep)| == Length(parts) + (|parts| - 1) * |sep|
  {
    if |parts| > 1 {
      JoinLength(parts[1..], sep);
      assert (|parts| - 1) * |sep| == |sep| + (|parts| - 2) * |sep|;
    } else {
      assert Length(parts[1..]) == 0;
    }
  }

  lemma {:induction false} PartsHoldBytesOf(s: Text, needle: Text)
    requires |needle| > 0
    ensures forall k, x :: 0 <= k < |Split(s, needle)| && x in Split(s, needle)[k] ==> x in s
    decreases |s|
  {
    match Find(s, needle, 0)
    case None =>
    case Some(p) =>
      var rest := s[p + |needle|..];
      PartsHoldBytesOf(rest, needle);
      forall k, x | 0 <= k < |Split(s, needle)| && x in Split(s, needle)[k] ensures x in s {
        if k > 0 {
          assert Split(s, needle)[k] == Split(rest, needle)[k - 1];
          assert x in rest;
        }
      }
  }

  /** Parts that share no byte with a separator are exactly what splitting their join gives back. */
  lemma {:induction false} SplitOfJoin(parts: seq<Text>, sep: Text)
    requires |parts| > 0 && |sep| > 0
    requires forall k :: 0 <= k < |parts| ==> ShareNoByte(sep, parts[k])
    ensures Split(Join(parts, sep), sep) == parts
  {
    forall k | 0 <= k < |parts| ensures Find(parts[k] + sep, sep, 0) == Some(|parts[k]|) {
      assert (parts[k] + sep)[..|parts[k]|] == parts[k];
      FindPastForeignText(parts[k] + sep, sep, |parts[k]|);
    }
    var final := parts[|parts| - 1];
    forall i | 0 <= i ensures !OccursAt(final, sep, i) {
      if i < |final| { NoForeignStart(final, sep, final, i); }
    }
    LeftmostSplitIsUnique(parts, Join(parts, sep), sep);
  }

  // ---------- the edits, on values ----------

  /** An edited text and the number of matches the edit reports. */
  datatype Edit = Edit(text: Text, matches: nat)

  /** `std::string::replace(position, count, t)`, with `till == position + count`. */
  function Splice(s: Text, position: nat, till: nat, t: Text): Text
    requires position <= till <= |s|
  {
    s[..position] + t + s[till..]
  }

  /** Replace the leftmost occurrence. The empty needle occurs at 0, so it prepends. */
  function ReplaceFirst(s: Text, needle: Text, replacement: Text): Edit {
    match Find(s, needle, 0)
    case None => Edit(s, 0)
    case Some(p) => Edit(Splice(s, p, p + |needle|, replacement), 1)
  }

  /** Insert beside the leftmost occurrence. */
  function InsertFirst(s: Text, needle: Text, payload: Text, after: bool): Edit {
    match Find(s, needle, 0)
    case None => Edit(s, 0)
    case Some(p) =>
      var at := if after then p + |needle| else p;
      Edit(Splice(s, at, at, payload), 1)
  }

  function ReplaceEvery(s: Text, needle: Text, replacement: Text): Edit
    requires |needle| > 0
  {
    Edit(Join(Split(s, needle), replacement), Cuts(s, needle))
  }

  /** An edit that found nothing changed nothing, and it found nothing only where nothing occurs. */
  lemma {:induction false} ReplaceFirstMeaning(s: Text, needle: Text, replacement: Text)
    ensures var e := ReplaceFirst(s, needle, replacement);
            && (e.matches == 0 <==> !Contains(s, needle))
            && (e.matches == 0 ==> e.text == s)
            && e.matches <= 1
            && |e.text| == |s| + e.matches * (|replacement| - |needle|)
  {
    if Contains(s, needle) {
      var i :| OccursAt(s, needle, i);
    }
  }

  /** However a text is taken apart around a needle, if the needle starts nowhere earlier then this is
      the occurrence that is replaced. */
  lemma {:induction false} ReplaceFirstActsOnLeftmost(front: Text, needle: Text, back: Text, replacement: Text)
    requires forall i :: 0 <= i < |front| ==> !OccursAt(front + needle + back, needle, i)
    ensures ReplaceFirst(front + needle + back, needle, replacement) == Edit(front + replacement + back, 1)
  {
    var s := front + needle + back;
    assert OccursAt(s, needle, |front|);
    FindIs(s, needle, 0, |front|);
    assert s[..|front|] == front && s[|front| + |needle|..] == back;
  }

  lemma {:induction false} ReplaceEveryMeaning(s: Text, needle: Text, replacement: Text)
    requires |needle| > 0
    ensures var e := ReplaceEvery(s, needle, replacement);
            && (e.matches == 0 <==> !Contains(s, needle))
            && (e.matches == 0 ==> e.text == s)
            && |e.text| == |s| + e.matches * (|replacement| - |needle|)
  {
    var parts := Split(s, needle);
    SplitIsLeftmost(s, needle);
    JoinLength(parts, needle);
    JoinLength(parts, replacement);
    assert (|parts| - 1) * |replacement| - (|parts| - 1) * |needle|
        == (|parts| - 1) * (|replacement| - |needle|);
    if Contains(s, needle) {
      var i :| OccursAt(s, needle, i);
    }
  }

  /** Replacing the needle by `mark`, then `mark` by the needle, is the identity with the same count,
      for every mark that is not empty and none of whose bytes occurs in the text. */
  lemma {:induction false} ReplaceEveryRoundTrip(s: Text, needle: Text, mark: Text)
    requires |needle| > 0 && |mark| > 0 && ShareNoByte(mark, s)
    ensures ReplaceEvery(ReplaceEvery(s, needle, mark).text, mark, needle) == Edit(s, Cuts(s, needle))
  {
    var parts := Split(s, needle);
    PartsHoldBytesOf(s, needle);
    SplitOfJoin(parts, mark);
    SplitIsLeftmost(s, needle);
  }

  lemma {:induction false} InsertIsReplace(s: Text, needle: Text, payload: Text, p: nat)
    requires OccursAt(s, needle, p)
    ensures Splice(s, p, p, payload) == Splice(s, p, p + |needle|, payload + needle)
    ensures Splice(s, p + |needle|, p + |needle|, payload) == Splice(s, p, p + |needle|, needle + payload)
  {
    assert s == s[..p] + needle + s[p + |needle|..];
  }

  /** Inserting beside an occurrence is replacing the occurrence by itself with the payload beside it. */
  lemma {:induction false} InsertFirstIsReplaceFirst(s: Text, needle: Text, payload: Text, after: bool)
    ensures InsertFirst(s, needle, payload, after)
         == ReplaceFirst(s, needle, if after then needle + payload else payload + needle)
  {
    hide Find, OccursAt, Splice;
    var r := Find(s, needle, 0);
    if r.Some? {
      InsertIsReplace(s, needle, payload, r.value);
    }
  }

  // ---------- one edit at a time ----------

  /** `k` rounds of replacing the leftmost occurrence. */
  function Rounds(s: Text, needle: Text, replacement: Text, k: nat): Text
    decreases k
  {
    if k == 0 then s else Rounds(ReplaceFirst(s, needle, replacement).text, needle, replacement, k - 1)
  }

  /** No match starts inside `front`, whatever follows it. */
  ghost predicate Sealed(front: Text, needle: Text) {
    forall t: Text, i :: 0 <= i < |front| ==> !OccursAt(front + t, needle, i)
  }

  lemma {:induction false} NoMatchAcross(part: Text, stop: Text, t: Text, needle: Text, i: int)
    requires |needle| > 0 && |stop| > 0 && ShareNoByte(needle, stop)
    requires 0 <= i < |part| && !OccursAt(part + needle, needle, i)
    ensures !OccursAt(part + stop + t, needle, i)
  {
    var s := part + stop + t;
    if i + |needle| <= |part| {
      assert (part + needle)[i..i + |needle|] == s[i..i + |needle|];
    } else if i + |needle| <= |s| {
      assert s[i..i + |needle|][|part| - i] == stop[0];
      assert needle[|part| - i] in needle && stop[0] in stop;
    }
  }

  /** Text without the needle, closed off by text that shares no byte with the needle, is sealed. */
  lemma {:induction false} ClosedOffIsSealed(part: Text, stop: Text, needle: Text)
    requires |needle| > 0 && |stop| > 0 && ShareNoByte(needle, stop)
    requires forall i :: 0 <= i < |part| ==> !OccursAt(part + needle, needle, i)
    ensures Sealed(part + stop, needle)
  {
    forall t: Text, i | 0 <= i < |part + stop| ensures !OccursAt(part + stop + t, needle, i) {
      if i < |part| {
        NoMatchAcross(part, stop, t, needle, i);
      } else {
        var s := part + stop + t;
        assert s[i] == stop[i - |part|];
        NoForeignStart(s, needle, stop, i);
      }
    }
  }

  lemma {:induction false} FindBehindSealed(front: Text, s: Text, needle: Text)
    requires Sealed(front, needle)
    ensures var r := Find(s, needle, 0);
            Find(front + s, needle, 0) == if r.Some? then Some(|front| + r.value) else None
  {
    hide Find;
    assert (front + s)[|front|..] == s;
    FindBehindCursor(front + s, needle, |front|);
    FindFromLater(front + s, needle, 0, |front|);
  }

  /** Splicing behind a front is splicing, and then putting the front before the result. */
  lemma {:induction false} SpliceBehind(front: Text, s: Text, p: nat, q: nat, t: Text)
    requires p <= q <= |s|
    ensures Splice(front + s, |front| + p, |front| + q, t) == front + Splice(s, p, q, t)
  {
  }

  lemma {:induction false} RoundBehindSealed(front: Text, s: Text, needle: Text, replacement: Text)
    requires Sealed(front, needle)
    ensures ReplaceFirst(front + s, needle, replacement).text == front + ReplaceFirst(s, needle, replacement).text
  {
    hide Find, Sealed, Splice;
    FindBehindSealed(front, s, needle);
    if Find(s, needle, 0).Some? {
      var p := Find(s, needle, 0).value;
      SpliceBehind(front, s, p, p + |needle|, replacement);
    }
  }

  lemma {:induction false} RoundsBehindSealed(front: Text, s: Text, needle: Text, replacement: Text, k: nat)
    requires Sealed(front, needle)
    ensures Rounds(front + s, needle, replacement, k) == front + Rounds(s, needle, replacement, k)
    decreases k
  {
    hide Find, Sealed, ReplaceFirst;
    if k > 0 {
      RoundBehindSealed(front, s, needle, replacement);
      RoundsBehindSealed(front, ReplaceFirst(s, needle, replacement).text, needle, replacement, k - 1);
    }
  }

  /** After the first round, the rounds that follow work behind a sealed front. */
  lemma {:induction false} RoundAfterFirst(s: Text, needle: Text, replacement: Text, p: nat, k: nat)
    requires |needle| > 0 && |replacement| > 0 && ShareNoByte(needle, replacement)
    requires Find(s, needle, 0) == Some(p) && k > 0
    ensures var later := Rounds(s[p + |needle|..], needle, replacement, k - 1);
            && Rounds(s, needle, replacement, k) == s[..p] + replacement + later
            && (Find(Rounds(s, needle, replacement, k), needle, 0).Some? <==> Find(later, needle, 0).Some?)
  {
    hide OccursAt, Sealed, Find;
    var part, rest := s[..p], s[p + |needle|..];
    SealAfterFirst(s, needle, replacement, p);
    RoundsBehindSealed(part + replacement, rest, needle, replacement, k - 1);
    FindBehindSealed(part + replacement, Rounds(rest, needle, replacement, k - 1), needle);
  }

  /** What the first round leaves before the rest of the text is sealed. */
  lemma {:induction false} SealAfterFirst(s: Text, needle: Text, replacement: Text, p: nat)
    requires |needle| > 0 && |replacement| > 0 && ShareNoByte(needle, replacement)
    requires Find(s, needle, 0) == Some(p)
    ensures Sealed(s[..p] + replacement, needle)
  {
    var part, rest := s[..p], s[p + |needle|..];
    assert s == part + needle + rest;
    FindAtPartEnd(part, needle, rest);
    ClosedOffIsSealed(part, replacement, needle);
  }

  lemma {:induction false} CutsAfterFirst(s: Text, needle: Text, replacement: Text, p: nat)
    requires |needle| > 0 && Find(s, needle, 0) == Some(p)
    ensures var rest := s[p + |needle|..];
            && Cuts(s, needle) == 1 + Cuts(rest, needle)
            && Join(Split(s, needle), replacement) == s[..p] + replacement + Join(Split(rest, needle), replacement)
  {
    hide Find;
    assert Split(s, needle)[1..] == Split(s[p + |needle|..], needle);
  }

  /** Replacing one occurrence at a time until none is left takes exactly as many rounds as
      `ReplaceEvery` counts matches and ends in the same text, when neither the needle nor the
      replacement is empty and they share no byte. */
  lemma {:induction false} RoundsReachReplaceEvery(s: Text, needle: Text, replacement: Text)
    requires |needle| > 0 && |replacement| > 0 && ShareNoByte(needle, replacement)
    ensures var n := Cuts(s, needle);
            && Rounds(s, needle, replacement, n) == ReplaceEvery(s, needle, replacement).text
            && Find(Rounds(s, needle, replacement, n), needle, 0) == None
            && forall k :: 0 <= k < n ==> Find(Rounds(s, needle, replacement, k), needle, 0).Some?
    decreases |s|
  {
    match Find(s, needle, 0)
    case None =>
    case Some(p) =>
      var rest := s[p + |needle|..];
      RoundsReachReplaceEvery(rest, needle, replacement);
      CutsAfterFirst(s, needle, replacement, p);
      RoundAfterFirst(s, needle, replacement, p, Cuts(s, needle));
      forall k | 0 <= k < Cuts(s, needle) ensures Find(Rounds(s, needle, replacement, k), needle, 0).Some? {
        if k > 0 { RoundAfterFirst(s, needle, replacement, p, k); }
      }
  }

  // ---------- what deletion leaves ----------

  /** One byte, repeated. */
  predicate IsUniform(needle: Text) {
    forall i :: 0 <= i < |needle| ==> needle[i] == needle[0]
  }

  /** Any other needle can come back: its first byte, itself and its other bytes, as "aabb" for "ab",
      are reduced to the needle again. */
  lemma {:induction false} DeletionCanRevealNeedle(needle: Text)
    requires |needle| > 0 && !IsUniform(needle)
    ensures ReplaceEvery(needle[..1] + needle + needle[1..], needle, []) == Edit(needle, 1)
  {
    hide Find, Split;
    var front, back := needle[..1], needle[1..];
    var s := front + needle + back;
    if OccursAt(s, needle, 0) {
      forall i | 0 <= i < |needle| ensures needle[i] == needle[0] {
        ShiftedOnce(s, needle, i);
      }
    }
    assert OccursAt(s, needle, 1);
    FindIs(s, needle, 0, 1);
    assert s[1 + |needle|..] == back && s[..1] == front;
    CutsAfterFirst(s, needle, [], 1);
    SplitTooShort(back, needle);
    assert front + [] + back == needle;
  }

  lemma {:induction false} ShiftedOnce(s: Text, needle: Text, i: nat)
    requires i < |needle| && OccursAt(s, needle, 0) && needle <= s[1..]
    ensures needle[i] == needle[0]
  {
    if i > 0 {
      ShiftedOnce(s, needle, i - 1);
      assert s[..|needle|][i] == s[1..][i - 1];
    }
  }

  lemma {:induction false} UniformNeedleEarlier(part: Text, needle: Text)
    requires |needle| > 0 && IsUniform(needle) && |part| > 0 && part[|part| - 1] == needle[0]
    ensures OccursAt(part + needle, needle, |part| - 1)
  {
    var whole, last := part + needle, |part| - 1;
    forall k | 0 <= k < |needle| ensures whole[last..last + |needle|][k] == needle[k] {
      assert k > 0 ==> whole[last + k] == needle[k - 1];
    }
    assert whole[last..last + |needle|] == needle;
  }

  /** A part before a cut at a uniform needle does not end in the needle's byte, so nothing that follows
      it instead of the needle can complete a needle that starts in it. */
  lemma {:induction false} NoUniformNeedleInPart(part: Text, needle: Text, t: Text, i: int)
    requires |needle| > 0 && IsUniform(needle) && Find(part + needle, needle, 0) == Some(|part|)
    requires 0 <= i < |part|
    ensures !OccursAt(part + t, needle, i)
  {
    hide Find;
    var whole, s := part + needle, part + t;
    assert !OccursAt(whole, needle, i);
    if i + |needle| <= |part| {
      assert whole[i..i + |needle|] == s[i..i + |needle|];
    } else {
      if part[|part| - 1] == needle[0] {
        UniformNeedleEarlier(part, needle);
      }
      if i + |needle| <= |s| {
        assert s[i..i + |needle|][|part| - 1 - i] == part[|part| - 1];
      }
    }
  }

  lemma {:induction false} DeletionLeavesNone(s: Text, needle: Text)
    requires |needle| > 0 && IsUniform(needle)
    ensures !Contains(ReplaceEvery(s, needle, []).text, needle)
    decreases |s|
  {
    hide Find, OccursAt, Join;
    match Find(s, needle, 0)
    case None => ReplaceEveryMeaning(s, needle, []);
    case Some(p) =>
      var part, rest := s[..p], s[p + |needle|..];
      var after := ReplaceEvery(rest, needle, []).text;
      DeletionLeavesNone(rest, needle);
      CutsAfterFirst(s, needle, [], p);
      assert part + [] + after == part + after;
      assert s == part + needle + rest by { assert s[p..p + |needle|] == needle by { CutIsNeedle(s, needle, p); } }
      FindAtPartEnd(part, needle, rest);
      forall i ensures !OccursAt(part + after, needle, i) {
        if 0 <= i < p {
          NoUniformNeedleInPart(part, needle, after, i);
        } else if OccursAt(part + after, needle, i) {
          OccursBehind(part, after, needle, i);
        }
      }
  }

  lemma {:induction false} CutIsNeedle(s: Text, needle: Text, p: nat)
    requires OccursAt(s, needle, p)
    ensures s[p..p + |needle|] == needle
  {
  }

  lemma {:induction false} OccursBehind(front: Text, back: Text, needle: Text, i: int)
    requires OccursAt(front + back, needle, i) && (i < 0 || |front| <= i)
    ensures Contains(back, needle)
  {
    assert back[i - |front|..i - |front| + |needle|] == (front + back)[i..i + |needle|];
    assert OccursAt(back, needle, i - |front|);
  }

  /** Deleting every occurrence leaves none, whatever the text, exactly for the needles that repeat one byte. */
  lemma {:induction false} DeletionLeavesNoneExactly(needle: Text)
    requires |needle| > 0
    ensures (forall s: Text :: !Contains(ReplaceEvery(s, needle, []).text, needle)) <==> IsUniform(needle)
  {
    hide ReplaceEvery;
    if IsUniform(needle) {
      forall s: Text ensures !Contains(ReplaceEvery(s, needle, []).text, needle) {
        DeletionLeavesNone(s, needle);
      }
    } else {
      DeletionCanRevealNeedle(needle);
      assert OccursAt(needle, needle, 0);
    }
  }

  // ---------- what replacing leaves ----------

  /** A replacement that neither holds a uniform needle nor ends in its byte. */
  ghost predicate Separates(replacement: Text, needle: Text)
    requires |needle| > 0
  {
    |replacement| > 0 && replacement[|replacement| - 1] != needle[0] && !Contains(replacement, needle)
  }

  lemma {:induction false} NoUniformNeedleInReplacement(front: Text, replacement: Text, needle: Text, t: Text, i: int)
    requires |needle| > 0 && IsUniform(needle) && Separates(replacement, needle)
    requires |front| <= i < |front| + |replacement|
    ensures !OccursAt(front + replacement + t, needle, i)
  {
    var s, last := front + replacement + t, |front| + |replacement| - 1;
    assert !OccursAt(replacement, needle, i - |front|);
    if i + |needle| <= |front| + |replacement| {
      assert replacement[i - |front|..i - |front| + |needle|] == s[i..i + |needle|];
    } else if i + |needle| <= |s| {
      assert s[i..i + |needle|][last - i] == replacement[|replacement| - 1];
    }
  }

  lemma {:induction false} SeparatedIsSealed(part: Text, replacement: Text, needle: Text)
    requires |needle| > 0 && IsUniform(needle) && Separates(replacement, needle)
    requires Find(part + needle, needle, 0) == Some(|part|)
    ensures Sealed(part + replacement, needle)
  {
    hide Find, OccursAt, Separates;
    forall t: Text, i | 0 <= i < |part + replacement| ensures !OccursAt(part + replacement + t, needle, i) {
      if i < |part| {
        Associative(part, replacement, t);
        NoUniformNeedleInPart(part, needle, replacement + t, i);
      } else {
        NoUniformNeedleInReplacement(part, replacement, needle, t, i);
      }
    }
  }

  lemma {:induction false} FindIsContains(s: Text, needle: Text)
    ensures Find(s, needle, 0).Some? <==> Contains(s, needle)
  {
    if i :| OccursAt(s, needle, i) {
      assert Find(s, needle, 0).Some?;
    }
  }

  lemma {:induction false} SeparatingLeavesNone(s: Text, needle: Text, replacement: Text)
    requires |needle| > 0 && IsUniform(needle) && Separates(replacement, needle)
    ensures !Contains(ReplaceEvery(s, needle, replacement).text, needle)
    decreases |s|
  {
    hide Find, OccursAt, Join, Separates, Contains;
    match Find(s, needle, 0)
    case None =>
      ReplaceEveryMeaning(s, needle, replacement);
      FindIsContains(s, needle);
    case Some(p) =>
      var part, rest := s[..p], s[p + |needle|..];
      var after := ReplaceEvery(rest, needle, replacement).text;
      SeparatingLeavesNone(rest, needle, replacement);
      CutsAfterFirst(s, needle, replacement, p);
      CutIsNeedle(s, needle, p);
      assert s == part + needle + rest;
      FindAtPartEnd(part, needle, rest);
      SeparatedIsSealed(part, replacement, needle);
      FindBehindSealed(part + replacement, after, needle);
      FindIsContains(after, needle);
      FindIsContains(part + replacement + after, needle);
  }

  /** Any other replacement brings the needle back, from one needle or from almost two. */
  lemma {:induction false} ReplacementCanRevealNeedle(needle: Text, replacement: Text) returns (s: Text)
    requires |needle| > 0 && IsUniform(needle) && |replacement| > 0 && !Separates(replacement, needle)
    ensures Contains(ReplaceEvery(s, needle, replacement).text, needle)
  {
    hide Find, Split;
    var back := if Contains(replacement, needle) then [] else needle[1..];
    s := needle + back;
    assert OccursAt(s, needle, 0);
    FindIs(s, needle, 0, 0);
    assert s[|needle|..] == back && s[..0] == [];
    CutsAfterFirst(s, needle, replacement, 0);
    SplitTooShort(back, needle);
    var text := replacement + back;
    assert [] + replacement + back == text;
    if i :| OccursAt(replacement, needle, i) {
      assert text[i..i + |needle|] == replacement[i..i + |needle|];
      assert OccursAt(text, needle, i);
    } else {
      var last := |replacement| - 1;
      forall k | 0 <= k < |needle| ensures text[last..last + |needle|][k] == needle[k] {
        assert k > 0 ==> text[last + k] == needle[k];
      }
      assert OccursAt(text, needle, last);
    }
  }

  /** For a needle that repeats one byte: replacing every occurrence leaves none, whatever the text,
      exactly if the replacement is empty, or does not hold the needle and does not end in its byte. */
  lemma {:induction false} ReplacingLeavesNoneExactly(needle: Text, replacement: Text)
    requires |needle| > 0 && IsUniform(needle)
    ensures (forall s: Text :: !Contains(ReplaceEvery(s, needle, replacement).text, needle))
       <==> |replacement| == 0 || Separates(replacement, needle)
  {
    hide ReplaceEvery, Contains, Separates;
    if |replacement| == 0 {
      DeletionLeavesNoneExactly(needle);
      assert replacement == [];
    } else if Separates(replacement, needle) {
      forall s: Text ensures !Contains(ReplaceEvery(s, needle, replacement).text, needle) {
        SeparatingLeavesNone(s, needle, replacement);
      }
    } else {
      var s := ReplacementCanRevealNeedle(needle, replacement);
    }
  }

  /** The replacing loop's invariant: after `count` replacements `done` is final, and cutting up
      `rest`, the original text that is still ahead, completes the work on `original`. */
  ghost predicate Progress(original: Text, done: Text, rest: Text, count: nat, needle: Text, replacement: Text)
    requires |needle| > 0
  {
    && done + Join(Split(rest, needle), replacement) == Join(Split(original, needle), replacement)
    && count + Cuts(rest, needle) == Cuts(original, needle)
  }

  lemma {:induction false} ProgressStart(original: Text, needle: Text, replacement: Text) returns (done: Text)
    requires |needle| > 0
    ensures |done| == 0 && original == done + original
    ensures Progress(original, done, original, 0, needle, replacement)
  {
    done := [];
  }

  lemma {:induction false} ProgressStep(original: Text, done: Text, rest: Text, count: nat, gap: nat,
                                        needle: Text, replacement: Text)
      returns (done': Text, rest': Text)
    requires |needle| > 0 && Find(rest, needle, 0) == Some(gap)
    requires Progress(original, done, rest, count, needle, replacement)
    ensures |done'| == |done| + gap + |replacement| && |rest'| < |rest|
    ensures Splice(done + rest, |done| + gap, |done| + gap + |needle|, replacement) == done' + rest'
    ensures Progress(original, done', rest', count + 1, needle, replacement)
  {
    hide Find, Join, Split;
    done', rest' := done + rest[..gap] + replacement, rest[gap + |needle|..];
    CutsAfterFirst(rest, needle, replacement, gap);
    SpliceBehind(done, rest, gap, gap + |needle|, replacement);
    Reassociate(done, rest[..gap], replacement, rest');
    Reassociate(done, rest[..gap], replacement, Join(Split(rest', needle), replacement));
  }

  lemma {:induction false} ProgressEnd(original: Text, done: Text, rest: Text, count: nat,
                                       needle: Text, replacement: Text)
    requires |needle| > 0 && Find(rest, needle, 0) == None
    requires Progress(original, done, rest, count, needle, replacement)
    ensures ReplaceEvery(original, needle, replacement) == Edit(done + rest, count)
  {
  }

  lemma {:induction false} Reassociate(a: Text, b: Text, c: Text, d: Text)
    ensures a + (b + c + d) == a + b + c + d
  {
  }

  // ---------- the edits, in place ----------

  datatype EditError = EmptyFind

  /** The mutable `std::string` that the edits work on. */
  class TextBuffer {
    var data: Text

    constructor (text: Text)
      ensures data == text
    {
      data := text;
    }

    method Replace(position: nat, count: nat, replacement: Text)
      requires position + count <= |data|
      modifies this
      ensures data == Splice(old(data), position, position + count, replacement)
    {
      data := data[..position] + replacement + data[position + count..];
    }

    method ReplaceSingle(needle: Text, replacement: Text) returns (matches: nat)
      modifies this
      ensures Edit(data, matches) == ReplaceFirst(old(data), needle, replacement)
    {
      var position := Find(data, needle, 0);
      if position == None {
        return 0;
      }
      Replace(position.value, |needle|, replacement);
      return 1;
    }

    method ReplaceAll(needle: Text, replacement: Text) returns (r: Result<nat, EditError>)
      modifies this
      ensures |needle| == 0 ==> r == Err(EmptyFind) && data == old(data)
      ensures |needle| > 0 ==> r.Ok? && Edit(data, r.value) == ReplaceEvery(old(data), needle, replacement)
    {
      hide Find, OccursAt, Progress, ReplaceEvery, Splice;
      if |needle| == 0 {
        return Err(EmptyFind);
      }
      var replacements: nat := 0;
      var cursor: nat := 0;
      ghost var original := data;
      ghost var rest := original;
      ghost var done := ProgressStart(original, needle, replacement);
      var position := Find(data, needle, cursor);
      while position.Some?
        invariant data == done + rest && |done| == cursor
        invariant position == Find(data, needle, cursor)
        invariant Progress(original, done, rest, replacements, needle, replacement)
        decreases |data| - cursor
      {
        FindInFrontOf(done, rest, needle);
        ghost var gap := position.value - cursor;
        done, rest := ProgressStep(original, done, rest, replacements, gap, needle, replacement);
        cursor := position.value;
        Replace(cursor, |needle|, replacement);
        cursor := cursor + |replacement|;
        replacements := replacements + 1;
        position := Find(data, needle, cursor);
      }
      FindInFrontOf(done, rest, needle);
      ProgressEnd(original, done, rest, replacements, needle, replacement);
      return Ok(replacements);
    }

    method InsertRelative(needle: Text, payload: Text, after: bool) returns (r: Result<nat, EditError>)
      modifies this
      ensures |needle| == 0 ==> r == Err(EmptyFind) && data == old(data)
      ensures |needle| > 0 ==>
        && r.Ok?
        && Edit(data, r.value) == ReplaceFirst(old(data), needle, if after then needle + payload else payload + needle)
    {
      hide Find, Splice, OccursAt;
      if |needle| == 0 {
        return Err(EmptyFind);
      }
      var position := Find(data, needle, 0);
      if position == None {
        return Ok(0);
      }
      var insertionPoint := if after then position.value + |needle| else position.value;
      InsertIsReplace(data, needle, payload, position.value);
      Replace(insertionPoint, 0, payload);
      return Ok(1);
    }

    method DeleteSingle(needle: Text) returns (r: Result<nat, EditError>)
      modifies this
      ensures |needle| == 0 ==> r == Err(EmptyFind) && data == old(data)
      ensures |needle| > 0 ==> r.Ok? && Edit(data, r.value) == ReplaceFirst(old(data), needle, [])
    {
      if |needle| == 0 {
        return Err(EmptyFind);
      }
      var position := Find(data, needle, 0);
      if position == None {
        return Ok(0);
      }
      Replace(position.value, |needle|, []);
      return Ok(1);
    }
  }
}
