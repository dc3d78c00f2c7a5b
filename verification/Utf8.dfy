/** `sanitize_utf8`: the byte scanner that makes matched lines fit for a JSON string. */
module Utf8 {

  import opened Base

  /** U+FFFD as three bytes. */
  function Replacement(): Text {
    [0xEF, 0xBF, 0xBD]
  }

  /** The unit length that a lead byte announces, or 0 for a byte that leads nothing. */
  function UnitLength(c: byte): (n: nat)
    ensures n <= 4
  {
    if c < 0x80 then 1
    else if c & 0xE0 == 0xC0 then 2
    else if c & 0xF0 == 0xE0 then 3
    else if c & 0xF8 == 0xF0 then 4
    else 0
  }

  predicate IsContinuation(c: byte) {
    c & 0xC0 == 0x80
  }

  /** A lead byte with exactly the continuation bytes that it announces. */
  predicate IsUnit(u: Text) {
    && |u| > 0
    && UnitLength(u[0]) == |u|
    && forall j :: 1 <= j < |u| ==> IsContinuation(u[j])
  }

  /** True if `s` starts with a complete unit. */
  predicate StartsWithUnit(s: Text)
    requires |s| > 0
  {
    var n := UnitLength(s[0]);
    0 < n <= |s| && IsUnit(s[..n])
  }

  /** True if the announced unit runs past the end of `s`. */
  predicate ShortTail(s: Text)
    requires |s| > 0
  {
    UnitLength(s[0]) > |s|
  }

  function Sanitize(s: Text): Text {
    if |s| == 0 then []
    else if ShortTail(s) then Replacement()
    else if StartsWithUnit(s) then
      var n := UnitLength(s[0]);
      s[..n] + Sanitize(s[n..])
    else Replacement() + Sanitize(s[1..])
  }

  // ---------- the loop ----------

  /** What a scanning step emits, and how far it goes. */
  function Emitted(s: Text): (r: (Text, nat))
    requires |s| > 0 && !ShortTail(s)
    ensures 0 < r.1 <= |s| && 0 < |r.0|
  {
    var n := UnitLength(s[0]);
    if StartsWithUnit(s) then (s[..n], n) else (Replacement(), 1)
  }

  /** The loop's invariant: `out` is what the scan of `s` has emitted when `tail` is still unread. */
  ghost predicate Scanned(s: Text, out: Text, tail: Text) {
    out + Sanitize(tail) == Sanitize(s)
  }

  lemma {:induction false} ScanStep(s: Text, out: Text, tail: Text)
    requires Scanned(s, out, tail) && |tail| > 0
    ensures ShortTail(tail) ==> out + Replacement() == Sanitize(s)
    ensures !ShortTail(tail) ==> Scanned(s, out + Emitted(tail).0, tail[Emitted(tail).1..])
  {
    if !ShortTail(tail) {
      var (piece, n) := Emitted(tail);
      Associative(out, piece, Sanitize(tail[n..]));
    }
  }

  lemma {:induction false} ScanBounds(s: Text)
    ensures Scanned(s, [], s)
    ensures forall out: Text :: Scanned(s, out, []) ==> out == Sanitize(s)
  {
    assert [] + Sanitize(s) == Sanitize(s);
    forall out: Text | Scanned(s, out, []) ensures out == Sanitize(s) {
      assert out + [] == out;
    }
  }

  lemma {:induction false} AsciiUnit(s: Text)
    requires |s| > 0 && s[0] < 0x80
    ensures !ShortTail(s) && Emitted(s) == ([s[0]], 1)
  {
    assert s[..1] == [s[0]];
  }

  lemma {:induction false} NoUnit(s: Text, j: nat)
    requires |s| > 0 && UnitLength(s[0]) <= |s|
    requires UnitLength(s[0]) == 0 || (1 <= j < UnitLength(s[0]) && !IsContinuation(s[j]))
    ensures !ShortTail(s) && Emitted(s) == (Replacement(), 1)
  {
    if UnitLength(s[0]) > 0 {
      assert s[..UnitLength(s[0])][j] == s[j];
    }
  }

  lemma {:induction false} WholeUnit(s: Text)
    requires |s| > 0 && 0 < UnitLength(s[0]) <= |s|
    requires forall j :: 1 <= j < UnitLength(s[0]) ==> IsContinuation(s[j])
    ensures !ShortTail(s) && Emitted(s) == (s[..UnitLength(s[0])], UnitLength(s[0]))
  {
  }

  lemma {:induction false} ShortTailIs(s: Text)
    requires |s| > 0
    ensures ShortTail(s) <==> UnitLength(s[0]) > |s|
  {
  }

  lemma {:induction false} TailFurther(s: Text, i: nat, n: nat)
    requires i + n <= |s|
    ensures s[i..][n..] == s[i + n..]
  {
  }

  method SanitizeUtf8(s: Text) returns (out: Text)
    ensures out == Sanitize(s)
  {
    hide Sanitize, Scanned, Emitted, ShortTail, StartsWithUnit;
    out := [];
    var i: nat := 0;
    ScanBounds(s);
    assert s[0..] == s;
    while i < |s|
      invariant i <= |s| && Scanned(s, out, s[i..])
    {
      var c := s[i];
      ghost var before, tail := out, s[i..];
      ScanStep(s, before, tail);
      TailFurther(s, i, 1);
      if c < 0x80 {
        AsciiUnit(tail);
        out := out + [c];
        i := i + 1;
        continue;
      }
      var len: nat := 0;
      if c & 0xE0 == 0xC0 {
        len := 2;
      } else if c & 0xF0 == 0xE0 {
        len := 3;
      } else if c & 0xF8 == 0xF0 {
        len := 4;
      } else {
        NoUnit(tail, 1);
        out := out + Replacement();
        i := i + 1;
        continue;
      }
      ShortTailIs(tail);
      if i + len > |s| {
        out := out + Replacement();
        return;
      }
      var ok := true;
      var j := 1;
      while j < len
        invariant 1 <= j <= len
        invariant forall k :: 1 <= k < j ==> IsContinuation(tail[k])
      {
        if s[i + j] & 0xC0 != 0x80 {
          ok := false;
          NoUnit(tail, j);
          break;
        }
        j := j + 1;
      }
      if !ok {
        out := out + Replacement();
        i := i + 1;
        continue;
      }
      for k := 0 to len
        invariant out == before + tail[..k]
      {
        out := out + [s[i + k]];
      }
      WholeUnit(tail);
      TailFurther(s, i, len);
      i := i + len;
    }
    assert s[i..] == [];
  }

  // ---------- shape ----------

  /** A concatenation of complete units. */
  predicate Shaped(s: Text) {
    |s| == 0 || (StartsWithUnit(s) && Shaped(s[UnitLength(s[0])..]))
  }

  lemma {:induction false} ShapedPrepend(u: Text, s: Text)
    requires IsUnit(u) && Shaped(s)
    ensures Shaped(u + s)
  {
    assert (u + s)[..|u|] == u && (u + s)[|u|..] == s;
  }

  lemma {:induction false} ReplacementIsUnit()
    ensures IsUnit(Replacement())
  {
  }

  /** The output is always a concatenation of complete units. */
  lemma {:induction false} SanitizeIsShaped(s: Text)
    ensures Shaped(Sanitize(s))
  {
    ReplacementIsUnit();
    if |s| == 0 {
    } else if ShortTail(s) {
      ShapedPrepend(Replacement(), []);
      assert Replacement() + [] == Replacement();
    } else if StartsWithUnit(s) {
      var n := UnitLength(s[0]);
      SanitizeIsShaped(s[n..]);
      ShapedPrepend(s[..n], Sanitize(s[n..]));
    } else {
      SanitizeIsShaped(s[1..]);
      ShapedPrepend(Replacement(), Sanitize(s[1..]));
    }
  }

  lemma {:induction false} SanitizeKeepsShaped(s: Text)
    requires Shaped(s)
    ensures Sanitize(s) == s
  {
    hide IsUnit, IsContinuation, UnitLength;
    if |s| > 0 {
      var n := UnitLength(s[0]);
      SanitizeKeepsShaped(s[n..]);
      assert s[..n] + s[n..] == s;
    }
  }

  /** Exactly the concatenations of complete units pass unchanged, and sanitizing twice is sanitizing once. */
  lemma {:induction false} SanitizeFixedPoints(s: Text)
    ensures Sanitize(s) == s <==> Shaped(s)
    ensures Sanitize(Sanitize(s)) == Sanitize(s)
  {
    SanitizeIsShaped(s);
    SanitizeKeepsShaped(Sanitize(s));
    if Shaped(s) {
      SanitizeKeepsShaped(s);
    }
  }

  lemma {:induction false} SanitizeSize(s: Text)
    ensures |Sanitize(s)| <= 3 * |s|
  {
    if |s| == 0 || ShortTail(s) {
    } else if StartsWithUnit(s) {
      SanitizeSize(s[UnitLength(s[0])..]);
    } else {
      SanitizeSize(s[1..]);
    }
  }

  // ---------- what the scan shows ----------

  /** A text taken apart from the left: a complete unit where one starts, the whole rest where a unit
      runs past the end, and otherwise a single byte. */
  ghost predicate IsScan(pieces: seq<Text>, s: Text)
    decreases |pieces|
  {
    if |pieces| == 0 then |s| == 0
    else
      && 0 < |pieces[0]| <= |s| && pieces[0] == s[..|pieces[0]|]
      && (|| IsUnit(pieces[0])
          || (UnitLength(s[0]) > |s| && pieces[0] == s)
          || (UnitLength(s[0]) <= |s| && |pieces[0]| == 1 && forall n :: 0 < n <= |s| ==> !IsUnit(s[..n])))
      && IsScan(pieces[1..], s[|pieces[0]|..])
  }

  /** Complete units as they are, and for any other piece the character U+FFFD. */
  function Shown(pieces: seq<Text>): Text {
    if |pieces| == 0 then [] else (if IsUnit(pieces[0]) then pieces[0] else [0xEF, 0xBF, 0xBD]) + Shown(pieces[1..])
  }

  lemma {:induction false} UnitIsItsLength(s: Text, n: nat)
    requires 0 < n <= |s| && IsUnit(s[..n])
    ensures n == UnitLength(s[0]) && StartsWithUnit(s) && !ShortTail(s)
  {
    assert s[..n][0] == s[0];
  }

  /** However a text is taken apart in that way, sanitizing shows the pieces. */
  lemma {:induction false} SanitizeShows(s: Text, pieces: seq<Text>)
    requires IsScan(pieces, s)
    ensures Sanitize(s) == Shown(pieces)
    decreases |pieces|
  {
    hide UnitLength, IsUnit, Sanitize, Shown;
    SanitizeUnfold(s);
    ShownUnfold(pieces);
    if |pieces| > 0 {
      var n := |pieces[0]|;
      SanitizeShows(s[n..], pieces[1..]);
      if IsUnit(pieces[0]) {
        UnitIsItsLength(s, n);
      } else if UnitLength(s[0]) > |s| {
        SanitizeUnfold(s[n..]);
        assert Replacement() + [] == Replacement();
      } else {
        assert !StartsWithUnit(s);
      }
    }
  }

  lemma {:induction false} SanitizeUnfold(s: Text)
    ensures |s| == 0 ==> Sanitize(s) == []
    ensures |s| > 0 && ShortTail(s) ==> Sanitize(s) == Replacement()
    ensures |s| > 0 && !ShortTail(s) && StartsWithUnit(s) ==>
      Sanitize(s) == s[..UnitLength(s[0])] + Sanitize(s[UnitLength(s[0])..])
    ensures |s| > 0 && !ShortTail(s) && !StartsWithUnit(s) ==> Sanitize(s) == Replacement() + Sanitize(s[1..])
  {
    hide UnitLength, IsUnit;
  }

  lemma {:induction false} ShownUnfold(pieces: seq<Text>)
    ensures |pieces| == 0 ==> Shown(pieces) == []
    ensures |pieces| > 0 ==>
      Shown(pieces) == (if IsUnit(pieces[0]) then pieces[0] else Replacement()) + Shown(pieces[1..])
  {
    hide UnitLength, IsUnit;
  }

  /** Every text can be taken apart in that way. */
  lemma {:induction false} ScanExists(s: Text) returns (pieces: seq<Text>)
    ensures IsScan(pieces, s)
    decreases |s|
  {
    hide UnitLength, IsUnit;
    pieces := [];
    if |s| > 0 {
      var n := if ShortTail(s) then |s| else if StartsWithUnit(s) then UnitLength(s[0]) else 1;
      forall k | 0 < k <= |s| && IsUnit(s[..k]) ensures StartsWithUnit(s) && !ShortTail(s) {
        UnitIsItsLength(s, k);
      }
      var rest := ScanExists(s[n..]);
      pieces := [s[..n]] + rest;
      assert pieces[1..] == rest;
      if ShortTail(s) { assert s[..n] == s; }
    }
  }

  /** What stands for malformed bytes is U+FFFD, the replacement character. */
  lemma {:induction false} ReplacementIsFFFD()
    ensures IsUnit(Replacement()) && CodePoint(Replacement()) == 0xFFFD && StrictChar(Replacement())
  {
  }

  // ---------- concatenation ----------

  /** True if the scan of `s` stops early because a unit runs past the end. */
  predicate EndsShort(s: Text): (r: bool)
    ensures r ==> |s| > 0
  {
    |s| > 0 &&
    (ShortTail(s) || EndsShort(s[if StartsWithUnit(s) then UnitLength(s[0]) else 1..]))
  }

  /** Whether the scan ends short shows in the last three bytes: one of them announces a unit that runs
      past the end. No unit can swallow such a byte, for inside a unit there are continuations only. */
  lemma {:induction false} EndsShortLocally(a: Text)
    ensures EndsShort(a) <==> exists i :: |a| - 3 <= i < |a| && i >= 0 && UnitLength(a[i]) > |a| - i
  {
    if |a| > 0 && !ShortTail(a) {
      var n := Emitted(a).1;
      EndsShortLocally(a[n..]);
      if i :| |a| - 3 <= i < |a| && i >= 0 && UnitLength(a[i]) > |a| - i {
        if i < n {
          NothingInsideUnit(a, i);
        }
        assert a[n..][i - n] == a[i];
      }
      if i :| |a[n..]| - 3 <= i < |a[n..]| && i >= 0 && UnitLength(a[n..][i]) > |a[n..]| - i {
        assert a[n + i] == a[n..][i];
      }
    }
  }

  lemma {:induction false} NothingInsideUnit(a: Text, i: nat)
    requires |a| > 0 && !ShortTail(a) && i < Emitted(a).1
    ensures UnitLength(a[i]) <= |a| - i
  {
    if i > 0 {
      assert IsContinuation(a[..Emitted(a).1][i]);
    }
  }

  /** The first scanning step of a text looks at its first unit only. */
  lemma {:induction false} StepIsLocal(a: Text, b: Text)
    requires |a| > 0 && !ShortTail(a)
    ensures !ShortTail(a + b) && (StartsWithUnit(a + b) <==> StartsWithUnit(a))
  {
    var n := UnitLength(a[0]);
    assert (a + b)[0] == a[0];
    assert (a + b)[..n] == a[..n];
  }

  lemma {:induction false} SanitizeStep(a: Text, b: Text)
    requires |a| > 0 && !ShortTail(a)
    ensures var (out, n) := Emitted(a);
            Sanitize(a + b) == out + Sanitize(a[n..] + b)
  {
    StepIsLocal(a, b);
    var n := Emitted(a).1;
    assert (a + b)[0] == a[0];
    assert (a + b)[..n] == a[..n];
    assert (a + b)[n..] == a[n..] + b;
  }

  lemma {:induction false} ScanUnfolds(a: Text)
    requires |a| > 0 && !ShortTail(a)
    ensures var (out, n) := Emitted(a);
            Sanitize(a) == out + Sanitize(a[n..]) && (EndsShort(a) <==> EndsShort(a[n..]))
  {
  }

  lemma {:induction false} SanitizeDistributes(a: Text, b: Text)
    requires !EndsShort(a)
    ensures Sanitize(a + b) == Sanitize(a) + Sanitize(b)
    decreases |a|
  {
    hide Sanitize, EndsShort, Emitted, StartsWithUnit, ShortTail;
    if |a| == 0 {
      assert a + b == b;
      SanitizeNothing(a, b);
    } else {
      StopsShort(a);
      var (out, n) := Emitted(a);
      ScanUnfolds(a);
      SanitizeStep(a, b);
      SanitizeDistributes(a[n..], b);
      Associative(out, Sanitize(a[n..]), Sanitize(b));
    }
  }

  lemma {:induction false} SanitizeNothing(a: Text, b: Text)
    requires |a| == 0
    ensures Sanitize(a) + Sanitize(b) == Sanitize(b)
  {
  }

  lemma {:induction false} StopsShort(a: Text)
    requires |a| > 0 && !EndsShort(a)
    ensures !ShortTail(a)
  {
  }

  /** Three ASCII bytes behind a text are never swallowed, and the text leaves a trace before them. */
  lemma {:induction false} AsciiSurvives(x: Text, c: byte) returns (y: Text)
    requires c < 0x80
    ensures Sanitize(x + [c, c, c]) == y + [c, c, c] && |y| >= (if |x| > 0 then 1 else 0)
    decreases |x|
  {
    var abc := [c, c, c];
    if |x| == 0 {
      assert x + abc == abc;
      AsciiIsShaped(c);
      SanitizeKeepsShaped(abc);
      y := [];
      assert y + abc == abc;
    } else {
      var s := x + abc;
      assert s[0] == x[0];
      var (out, n) := Emitted(s);
      assert !IsContinuation(c);
      if |x| < UnitLength(x[0]) {
        assert s[..UnitLength(x[0])][|x|] == c;
      }
      assert s[n..] == x[n..] + abc;
      var z := AsciiSurvives(x[n..], c);
      y := out + z;
      assert out + (z + abc) == y + abc;
    }
  }

  lemma {:induction false} AsciiIsShaped(c: byte)
    requires c < 0x80
    ensures Shaped([c, c, c])
  {
    assert IsUnit([c]);
    assert Shaped([]);
    ShapedPrepend([c], []);
    assert [c] + [] == [c];
    ShapedPrepend([c], [c]);
    assert [c] + [c] == [c, c];
    ShapedPrepend([c], [c, c]);
    assert [c] + [c, c] == [c, c, c];
  }

  /** A text whose scan ends short has a continuation that tells the two orders apart. */
  lemma {:induction false} ShortTailDoesNotDistribute(a: Text) returns (b: Text)
    requires |a| > 0 && ShortTail(a)
    ensures Sanitize(a + b) != Sanitize(a) + Sanitize(b)
  {
    if |a| == 1 {
      b := LoneLead(a[0]);
      assert [a[0]] == a;
    } else {
      b := [0x41, 0x41, 0x41];
      var s := a + b;
      assert s[0] == a[0];
      assert s[..UnitLength(a[0])][|a|] == 0x41;
      assert !IsContinuation(0x41);
      assert s[1..] == a[1..] + b;
      var y := AsciiSurvives(a[1..], 0x41);
      var empty: Text := [];
      var z := AsciiSurvives(empty, 0x41);
      assert empty + b == b;
      AsciiIsShaped(0x41);
      SanitizeKeepsShaped(b);
    }
  }

  lemma {:induction false} LoneLead(c: byte) returns (b: Text)
    requires UnitLength(c) > 1
    ensures Sanitize([c] + b) != Sanitize([c]) + Sanitize(b)
  {
    var n := UnitLength(c);
    b := seq(n - 1, _ => 0x80);
    var whole := [c] + b;
    assert whole[..n] == whole;
    assert IsUnit(whole);
    assert Shaped(whole[n..]);
    SanitizeKeepsShaped(whole);
    assert Sanitize([c]) == Replacement();
    assert (Sanitize([c]) + Sanitize(b))[1] == 0xBF;
    assert whole[1] == 0x80;
  }

  lemma {:induction false} EndsShortDoesNotDistribute(a: Text) returns (b: Text)
    requires EndsShort(a)
    ensures Sanitize(a + b) != Sanitize(a) + Sanitize(b)
    decreases |a|
  {
    hide Sanitize, EndsShort, Emitted, ShortTail;
    if ShortTail(a) {
      b := ShortTailDoesNotDistribute(a);
    } else {
      var (out, n) := Emitted(a);
      ScanUnfolds(a);
      b := EndsShortDoesNotDistribute(a[n..]);
      SanitizeStep(a, b);
      var x, y := Sanitize(a[n..] + b), Sanitize(a[n..]) + Sanitize(b);
      Associative(out, Sanitize(a[n..]), Sanitize(b));
      assert (out + x)[|out|..] == x && (out + y)[|out|..] == y;
    }
  }

  /** Sanitizing distributes over every way to continue `a` exactly when the scan of `a` does not end short. */
  lemma {:induction false} SanitizeDistributesExactly(a: Text)
    ensures !EndsShort(a) <==> forall b: Text :: Sanitize(a + b) == Sanitize(a) + Sanitize(b)
  {
    if EndsShort(a) {
      var b := EndsShortDoesNotDistribute(a);
    } else {
      forall b: Text ensures Sanitize(a + b) == Sanitize(a) + Sanitize(b) {
        SanitizeDistributes(a, b);
      }
    }
  }

  // ---------- what is lost ----------

  /** The ASCII bytes of a text, in order. */
  function AsciiOf(s: Text): Text {
    if |s| == 0 then [] else (if s[0] < 0x80 then [s[0]] else []) + AsciiOf(s[1..])
  }

  /** The bytes behind which the scan stops early; none if it reads to the end. */
  function Dropped(s: Text): (tail: Text)
    ensures |tail| <= 3 && (|tail| > 0 <==> EndsShort(s))
  {
    if |s| == 0 then [] else if ShortTail(s) then s else Dropped(s[Emitted(s).1..])
  }

  lemma {:induction false} AsciiOfConcat(a: Text, b: Text)
    ensures AsciiOf(a + b) == AsciiOf(a) + AsciiOf(b)
  {
    if |a| == 0 {
      assert a + b == b;
    } else {
      assert (a + b)[1..] == a[1..] + b;
      AsciiOfConcat(a[1..], b);
      Associative(if a[0] < 0x80 then [a[0]] else [], AsciiOf(a[1..]), AsciiOf(b));
    }
  }

  lemma {:induction false} AsciiOfEmitted(s: Text)
    requires |s| > 0 && !ShortTail(s)
    ensures AsciiOf(Emitted(s).0) == AsciiOf(s[..Emitted(s).1])
  {
    if !StartsWithUnit(s) {
      var r := Replacement();
      assert s[..1] == [s[0]] && r[1..] == [r[1], r[2]] && r[1..][1..] == [r[2]] && r[1..][1..][1..] == [];
      assert [s[0]][1..] == [];
      if s[0] < 0x80 { AsciiUnit(s); }
    }
  }

  /** No ASCII byte is lost, added or moved, except those among the at most three dropped bytes. */
  lemma {:induction false} AsciiIsConserved(s: Text)
    ensures AsciiOf(Sanitize(s)) + AsciiOf(Dropped(s)) == AsciiOf(s)
  {
    hide StartsWithUnit, Emitted, AsciiOf;
    if |s| == 0 {
      AsciiOfConcat(s, s);
      assert s + s == s;
    } else if ShortTail(s) {
      ReplacementHoldsNoAscii();
      assert [] + AsciiOf(s) == AsciiOf(s);
    } else {
      var (piece, n) := Emitted(s);
      ScanUnfolds(s);
      AsciiIsConserved(s[n..]);
      AsciiOfEmitted(s);
      AsciiOfConcat(piece, Sanitize(s[n..]));
      assert s == s[..n] + s[n..];
      AsciiOfConcat(s[..n], s[n..]);
      Associative(AsciiOf(piece), AsciiOf(Sanitize(s[n..])), AsciiOf(Dropped(s[n..])));
    }
  }

  lemma {:induction false} ReplacementHoldsNoAscii()
    ensures AsciiOf(Replacement()) == []
  {
    var r := Replacement();
    assert r[1..] == [r[1], r[2]] && r[1..][1..] == [r[2]] && r[1..][1..][1..] == [];
  }

  // ---------- section 4 of RFC 3629 ----------

  predicate InRange(c: byte, low: byte, high: byte) {
    low <= c <= high
  }

  predicate Tail(c: byte) {
    InRange(c, 0x80, 0xBF)
  }

  /** The `UTF8-char` rule of the grammar in section 4 of RFC 3629. */
  predicate StrictChar(u: Text) {
    || (|u| == 1 && u[0] <= 0x7F)
    || (|u| == 2 && InRange(u[0], 0xC2, 0xDF) && Tail(u[1]))
    || (|u| == 3 && Tail(u[2]) &&
        (|| (u[0] == 0xE0 && InRange(u[1], 0xA0, 0xBF))
         || (InRange(u[0], 0xE1, 0xEC) && Tail(u[1]))
         || (u[0] == 0xED && InRange(u[1], 0x80, 0x9F))
         || (InRange(u[0], 0xEE, 0xEF) && Tail(u[1]))))
    || (|u| == 4 && Tail(u[2]) && Tail(u[3]) &&
        (|| (u[0] == 0xF0 && InRange(u[1], 0x90, 0xBF))
         || (InRange(u[0], 0xF1, 0xF3) && Tail(u[1]))
         || (u[0] == 0xF4 && InRange(u[1], 0x80, 0x8F))))
  }

  /** The `UTF8-octets` rule: any number of characters. */
  predicate Valid(s: Text) {
    || |s| == 0
    || (exists n :: 1 <= n <= 4 && n <= |s| && StrictChar(s[..n]) && Valid(s[n..]))
  }

  /** The scalar value that a unit encodes (section 3 of RFC 3629). */
  function CodePoint(u: Text): bv32
    requires IsUnit(u)
  {
    if |u| == 1 then u[0] as bv32
    else if |u| == 2 then ((u[0] & 0x1F) as bv32 << 6) | ((u[1] & 0x3F) as bv32)
    else if |u| == 3 then
      ((u[0] & 0x0F) as bv32 << 12) | ((u[1] & 0x3F) as bv32 << 6) | ((u[2] & 0x3F) as bv32)
    else
      ((u[0] & 0x07) as bv32 << 18) | ((u[1] & 0x3F) as bv32 << 12) | ((u[2] & 0x3F) as bv32 << 6)
        | ((u[3] & 0x3F) as bv32)
  }

  /** A shorter unit encodes the same value. */
  predicate Overlong(u: Text)
    requires IsUnit(u)
  {
    || (|u| == 2 && CodePoint(u) < 0x80)
    || (|u| == 3 && CodePoint(u) < 0x800)
    || (|u| == 4 && CodePoint(u) < 0x10000)
  }

  predicate Surrogate(u: Text)
    requires IsUnit(u)
  {
    0xD800 <= CodePoint(u) <= 0xDFFF
  }

  predicate TooLarge(u: Text)
    requires IsUnit(u)
  {
    CodePoint(u) > 0x10FFFF
  }

  predicate Forbidden(u: Text)
    requires IsUnit(u)
  {
    Overlong(u) || Surrogate(u) || TooLarge(u)
  }

  lemma {:induction false} StrictCharIsUnit(u: Text)
    requires StrictChar(u)
    ensures IsUnit(u)
  {
  }

  /** The unit lengths and continuation bits leave exactly three kinds of unit to forbid. */
  lemma {:induction false} StrictCharExactly(u: Text)
    requires IsUnit(u)
    ensures StrictChar(u) <==> !Forbidden(u)
  {
    if |u| == 1 {
    } else if |u| == 2 {
      Strict2(u[0], u[1]);
    } else if |u| == 3 {
      Strict3(u[0], u[1], u[2]);
    } else {
      Strict4(u[0], u[1], u[2], u[3]);
    }
  }

  lemma {:induction false} Strict2(a: byte, b: byte)
    requires a & 0xE0 == 0xC0 && b & 0xC0 == 0x80
    ensures var p := ((a & 0x1F) as bv32 << 6) | ((b & 0x3F) as bv32);
            && (InRange(a, 0xC2, 0xDF) && Tail(b) <==> !(p < 0x80))
            && p < 0xD800
  {
  }

  lemma {:induction false} Strict3(a: byte, b: byte, c: byte)
    requires a & 0xF0 == 0xE0 && b & 0xC0 == 0x80 && c & 0xC0 == 0x80
    ensures var p := ((a & 0x0F) as bv32 << 12) | ((b & 0x3F) as bv32 << 6) | ((c & 0x3F) as bv32);
            && (StrictChar([a, b, c]) <==> !(p < 0x800 || 0xD800 <= p <= 0xDFFF))
            && p <= 0x10FFFF
  {
  }

  lemma {:induction false} Strict4(a: byte, b: byte, c: byte, d: byte)
    requires a & 0xF8 == 0xF0 && b & 0xC0 == 0x80 && c & 0xC0 == 0x80 && d & 0xC0 == 0x80
    ensures var p := ((a & 0x07) as bv32 << 18) | ((b & 0x3F) as bv32 << 12)
                     | ((c & 0x3F) as bv32 << 6) | ((d & 0x3F) as bv32);
            StrictChar([a, b, c, d]) <==> !(p < 0x10000 || p > 0x10FFFF)
  {
  }

  /** A valid text that starts with a unit is that unit, strict, and a valid rest. */
  lemma {:induction false} ValidUnit(u: Text, s: Text)
    requires IsUnit(u)
    ensures Valid(u + s) <==> StrictChar(u) && Valid(s)
  {
    var t := u + s;
    assert t[..|u|] == u && t[|u|..] == s && t[0] == u[0];
    if Valid(t) {
      var n :| 1 <= n <= 4 && n <= |t| && StrictChar(t[..n]) && Valid(t[n..]);
      StrictCharIsUnit(t[..n]);
      assert t[..n][0] == t[0];
      assert n == |u|;
    }
  }

  lemma {:induction false} ValidIsShaped(s: Text)
    requires Valid(s)
    ensures Shaped(s)
  {
    if |s| > 0 {
      var n :| 1 <= n <= 4 && n <= |s| && StrictChar(s[..n]) && Valid(s[n..]);
      StrictCharIsUnit(s[..n]);
      ValidIsShaped(s[n..]);
      ShapedPrepend(s[..n], s[n..]);
      assert s[..n] + s[n..] == s;
    }
  }

  /** Valid text passes unchanged. */
  lemma {:induction false} SanitizeKeepsValid(s: Text)
    requires Valid(s)
    ensures Sanitize(s) == s
  {
    ValidIsShaped(s);
    SanitizeKeepsShaped(s);
  }

  /** The multi-byte and ASCII units that the scan copies, in order. */
  ghost function Copied(s: Text): (units: seq<Text>)
    ensures forall u :: u in units ==> IsUnit(u)
  {
    if |s| == 0 || ShortTail(s) then []
    else if StartsWithUnit(s) then
      var n := UnitLength(s[0]);
      [s[..n]] + Copied(s[n..])
    else Copied(s[1..])
  }

  /** The output is valid exactly when no copied unit is overlong, a surrogate or above U+10FFFF. */
  lemma {:induction false} SanitizeValidExactly(s: Text)
    ensures Valid(Sanitize(s)) <==> forall u :: u in Copied(s) ==> !Forbidden(u)
  {
    ReplacementIsUnit();
    assert StrictChar(Replacement());
    if |s| == 0 {
    } else if ShortTail(s) {
      ValidUnit(Replacement(), []);
      assert Replacement() + [] == Replacement();
    } else if StartsWithUnit(s) {
      var n := UnitLength(s[0]);
      SanitizeValidExactly(s[n..]);
      ValidUnit(s[..n], Sanitize(s[n..]));
      StrictCharExactly(s[..n]);
      assert s[..n] in Copied(s);
    } else {
      SanitizeValidExactly(s[1..]);
      ValidUnit(Replacement(), Sanitize(s[1..]));
    }
  }

  /** Full validity is not guaranteed: the overlong slash is a unit, so it passes. */
  lemma {:induction false} OverlongPasses()
    ensures Sanitize([0xC0, 0xAF]) == [0xC0, 0xAF] && !Valid([0xC0, 0xAF])
  {
    var u: Text := [0xC0, 0xAF];
    assert IsUnit(u);
    ShapedPrepend(u, []);
    ValidUnit(u, []);
    assert u + [] == u;
    SanitizeKeepsShaped(u);
  }
}
