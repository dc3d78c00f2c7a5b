/** The lines of a text, and a stream that hands them out one `getline` at a time. */
module Lines {

  import opened Base
  import opened TextEdit

  function Newline(): (t: Text)
    ensures |t| == 1
  {
    [NEWLINE]
  }

  /** The pieces between newlines, without the empty piece behind a final newline. */
  function LinesOf(text: Text): seq<Text> {
    if |text| == 0 then [] else
    var parts := Split(text, Newline());
    if |parts[|parts| - 1]| == 0 then parts[..|parts| - 1] else parts
  }

  /** The text without its final newline, if it has one. */
  function Chomp(text: Text): Text {
    if |text| > 0 && text[|text| - 1] == NEWLINE then text[..|text| - 1] else text
  }

  /** Lines written one under the other. */
  function Stack(lines: seq<Text>): Text {
    if |lines| == 0 then [] else Join(lines, Newline())
  }

  lemma {:induction false} LinesUnfold(text: Text)
    requires |text| > 0
    ensures var r := Find(text, Newline(), 0);
            && (r.None? ==> LinesOf(text) == [text])
            && (r.Some? ==> LinesOf(text) == [text[..r.value]] + LinesOf(text[r.value + 1..]))
  {
    hide Find;
    var r := Find(text, Newline(), 0);
    if r.Some? {
      var rest := text[r.value + 1..];
      var parts, tail := Split(text, Newline()), Split(rest, Newline());
      assert parts == [text[..r.value]] + tail;
      assert parts[|parts| - 1] == tail[|tail| - 1];
      if |rest| == 0 {
        SplitTooShort(rest, Newline());
        assert parts[..|parts| - 1] == [text[..r.value]];
      } else if |tail[|tail| - 1]| == 0 {
        assert parts[..|parts| - 1] == [text[..r.value]] + tail[..|tail| - 1];
      }
    }
  }

  function Newlines(text: Text): nat {
    if |text| == 0 then 0 else (if text[0] == NEWLINE then 1 else 0) + Newlines(text[1..])
  }

  lemma {:induction false} NewlinesAppend(a: Text, b: Text)
    ensures Newlines(a + b) == Newlines(a) + Newlines(b)
  {
    if |a| == 0 {
      assert a + b == b;
    } else {
      assert (a + b)[1..] == a[1..] + b;
      NewlinesAppend(a[1..], b);
    }
  }

  lemma {:induction false} NewlineFree(text: Text)
    requires NEWLINE !in text
    ensures Newlines(text) == 0
  {
    if |text| > 0 {
      NewlineFree(text[1..]);
    }
  }

  lemma {:induction false} NewlineIsFound(text: Text, from: nat)
    requires from <= |text| && forall i :: from <= i ==> !OccursAt(text, Newline(), i)
    ensures forall i :: from <= i < |text| ==> text[i] != NEWLINE
  {
    forall i | from <= i < |text| ensures text[i] != NEWLINE {
      assert !OccursAt(text, Newline(), i);
      assert text[i..i + 1] == [text[i]];
    }
  }

  lemma {:induction false} NewlineBefore(text: Text, p: nat)
    requires p <= |text| && forall i :: 0 <= i < p ==> !OccursAt(text, Newline(), i)
    ensures NEWLINE !in text[..p]
  {
    forall i | 0 <= i < p ensures text[i] != NEWLINE {
      assert !OccursAt(text, Newline(), i);
      assert text[i..i + 1] == [text[i]];
    }
  }

  /** There are as many lines as newlines, and one more if the text does not end in one. */
  lemma {:induction false} LineCount(text: Text)
    ensures |LinesOf(text)| == Newlines(text) + (if |text| > 0 && text[|text| - 1] != NEWLINE then 1 else 0)
    decreases |text|
  {
    hide LinesOf, Find, OccursAt, Newlines;
    if |text| == 0 {
      NoLines(text);
    } else {
      LinesUnfold(text);
      var r := Find(text, Newline(), 0);
      match r
      case None =>
        NewlineIsFound(text, 0);
        NewlineFree(text);
      case Some(p) =>
        var rest := text[p + 1..];
        LineCount(rest);
        NewlineBefore(text, p);
        NewlineFree(text[..p]);
        NewlineAt(text, p);
        NewlinesAppend(text[..p] + Newline(), rest);
        NewlinesAppend(text[..p], Newline());
        assert text == text[..p] + Newline() + rest;
    }
  }

  lemma {:induction false} NewlineAt(text: Text, p: nat)
    requires OccursAt(text, Newline(), p)
    ensures text[p] == NEWLINE && Newlines(Newline()) == 1
  {
    assert text[p..p + 1] == [text[p]];
    assert |Newline()[1..]| == 0;
  }

  lemma {:induction false} NoLines(text: Text)
    requires |text| == 0
    ensures |LinesOf(text)| == 0 && Newlines(text) == 0
  {
  }

  /** A `std::ifstream` positioned in its file. */
  class LineReader {
    var rest: Text

    constructor (text: Text)
      ensures rest == text
    {
      rest := text;
    }

    /** `std::getline`: false at the end of the file, and then the line is left alone. */
    method GetLine(line: Text) returns (ok: bool, next: Text)
      modifies this
      ensures ok <==> |LinesOf(old(rest))| > 0
      ensures ok ==> LinesOf(old(rest)) == [next] + LinesOf(rest)
      ensures ok ==> |rest| < |old(rest)|
      ensures !ok ==> rest == old(rest) && next == line
    {
      hide Find;
      if |rest| == 0 {
        return false, line;
      }
      LinesUnfold(rest);
      var position := Find(rest, Newline(), 0);
      if position.Some? {
        next := rest[..position.value];
        rest := rest[position.value + 1..];
      } else {
        next := rest;
        rest := [];
      }
      return true, next;
    }
  }

  // ---------- lines spell the text ----------

  lemma {:induction false} JoinDropsEmptyEnd(parts: seq<Text>, sep: Text)
    requires |parts| > 1 && |parts[|parts| - 1]| == 0
    ensures Join(parts, sep) == Join(parts[..|parts| - 1], sep) + sep
  {
    var front := parts[..|parts| - 1];
    JoinSnoc(front, parts[|parts| - 1], sep);
    assert front + [parts[|parts| - 1]] == parts;
  }

  lemma {:induction false} JoinEndsWithLastPart(parts: seq<Text>, sep: Text)
    requires |parts| > 0
    ensures var last := parts[|parts| - 1];
            |last| > 0 ==> |Join(parts, sep)| > 0 && Join(parts, sep)[|Join(parts, sep)| - 1] == last[|last| - 1]
  {
    if |parts| > 1 {
      JoinEndsWithLastPart(parts[1..], sep);
    }
  }

  lemma {:induction false} PartsHoldNoNewline(text: Text, k: nat)
    requires k < |Split(text, Newline())|
    ensures NEWLINE !in Split(text, Newline())[k]
  {
    SplitIsLeftmost(text, Newline());
    var part := Split(text, Newline())[k];
    if i :| 0 <= i < |part| && part[i] == NEWLINE {
      assert OccursAt(part, Newline(), i);
      assert OccursAt(part + Newline(), Newline(), i) by {
        assert (part + Newline())[i..i + 1] == part[i..i + 1];
      }
    }
  }

  /** Written one under the other, the lines give back the text without its final newline; none of
      them holds a newline. */
  lemma {:induction false} LinesSpellText(text: Text)
    ensures Stack(LinesOf(text)) == Chomp(text)
    ensures forall k :: 0 <= k < |LinesOf(text)| ==> NEWLINE !in LinesOf(text)[k]
  {
    hide Find, Join, Split;
    if |text| > 0 {
      var nl := Newline();
      var parts := Split(text, nl);
      var last := parts[|parts| - 1];
      SplitIsLeftmost(text, nl);
      forall k | 0 <= k < |LinesOf(text)| ensures NEWLINE !in LinesOf(text)[k] {
        PartsHoldNoNewline(text, k);
      }
      if |last| > 0 {
        JoinEndsWithLastPart(parts, nl);
        PartsHoldNoNewline(text, |parts| - 1);
        assert last[|last| - 1] in last;
      } else {
        OnePartIsText(text);
        JoinDropsEmptyEnd(parts, nl);
      }
    }
  }

  lemma {:induction false} OnePartIsText(text: Text)
    ensures |Split(text, Newline())| == 1 ==> Split(text, Newline()) == [text]
  {
    SplitIsLeftmost(text, Newline());
  }

  // ---------- numbering ----------

  /** A line and its number, counted from 1. */
  datatype Numbered = Numbered(line: nat, text: Text)

  function Number(lines: seq<Text>): (r: seq<Numbered>)
    ensures |r| == |lines|
    ensures forall i :: 0 <= i < |r| ==> r[i] == Numbered(i + 1, lines[i])
  {
    seq(|lines|, i requires 0 <= i < |lines| => Numbered(i + 1, lines[i]))
  }
}
