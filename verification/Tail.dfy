/** `fs_tail`: the trailing lines of a file, kept in a bounded window while it is read once. */
module Tail {

  import opened Base
  import opened TextEdit
  import opened Lines

  datatype TailResult = TailResult(lineCount: nat, startLine: nat, truncated: bool, lines: seq<Numbered>, content: Text)

  datatype TailError = LinesMustBePositive

  function Texts(lines: seq<Numbered>): (r: seq<Text>)
    ensures |r| == |lines|
  {
    seq(|lines|, i requires 0 <= i < |lines| => lines[i].text)
  }

  /** What the call returns, read off the line array. */
  function TailOf(text: Text, requested: nat): TailResult
    requires requested > 0
  {
    var all := Number(LinesOf(text));
    var kept := Last(all, requested);
    TailResult(|all|, |all| - |kept| + (if |kept| > 0 then 1 else 0), |all| > requested, kept, Stack(Texts(kept)))
  }

  /** The window after the lines `read`. */
  ghost predicate Window(trailing: seq<Numbered>, read: seq<Text>, requested: nat) {
    trailing == Last(Number(read), requested)
  }

  lemma {:induction false} WindowStep(trailing: seq<Numbered>, read: seq<Text>, line: Text, requested: nat)
    requires requested > 0 && Window(trailing, read, requested)
    ensures var longer := trailing + [Numbered(|read| + 1, line)];
            && |longer| <= requested + 1
            && Window(if |longer| > requested then longer[1..] else longer, read + [line], requested)
  {
    assert Number(read + [line]) == Number(read) + [Numbered(|read| + 1, line)];
  }

  lemma {:induction false} StackSnoc(lines: seq<Text>, line: Text)
    ensures Stack(lines + [line]) == if |lines| == 0 then line else Stack(lines) + Newline() + line
  {
    if |lines| == 0 {
      assert lines + [line] == [line];
    } else {
      JoinSnoc(lines, line, Newline());
    }
  }

  lemma {:induction false} StackNext(lines: seq<Numbered>, i: nat)
    requires i < |lines|
    ensures var before := Stack(Texts(lines[..i]));
            Stack(Texts(lines[..i + 1])) == if i == 0 then lines[0].text else before + Newline() + lines[i].text
  {
    assert Texts(lines[..i + 1]) == Texts(lines[..i]) + [lines[i].text];
    StackSnoc(Texts(lines[..i]), lines[i].text);
  }

  /** The second loop: the texts of the window, written one under the other. */
  method JoinLines(trailing: seq<Numbered>) returns (content: Text)
    ensures content == Stack(Texts(trailing))
  {
    hide Texts, Join;
    content := [];
    var first := true;
    assert Texts(trailing[..0]) == [];
    for i := 0 to |trailing|
      invariant first <==> i == 0
      invariant content == Stack(Texts(trailing[..i]))
    {
      StackNext(trailing, i);
      if !first {
        content := content + Newline();
      }
      first := false;
      content := content + trailing[i].text;
    }
    assert trailing[..|trailing|] == trailing;
  }

  method CallFsTail(text: Text, requested: nat) returns (r: Result<TailResult, TailError>)
    ensures requested == 0 ==> r == Err(LinesMustBePositive)
    ensures requested > 0 ==> r == Ok(TailOf(text, requested))
  {
    hide LinesOf, Stack, Window, TailOf;
    if requested == 0 {
      return Err(LinesMustBePositive);
    }
    var input := new LineReader(text);
    var trailing: seq<Numbered> := [];
    var totalLines: nat := 0;
    ghost var all, read := LinesOf(text), [];
    WindowStart(requested);
    var empty: Text := [];
    var more, line := input.GetLine(empty);
    while more
      invariant fresh(input)
      invariant all == if more then read + ([line] + LinesOf(input.rest)) else read
      invariant totalLines == |read|
      invariant |trailing| <= requested && Window(trailing, read, requested)
      decreases |input.rest|, more
    {
      totalLines := totalLines + 1;
      WindowStep(trailing, read, line, requested);
      trailing := trailing + [Numbered(totalLines, line)];
      if |trailing| > requested {
        trailing := trailing[1..];
      }
      Associative(read, [line], LinesOf(input.rest));
      read := read + [line];
      more, line := input.GetLine(line);
    }
    var content := JoinLines(trailing);
    var startLine := if |trailing| == 0 then 0 else trailing[0].line;
    WindowEnd(trailing, text, requested);
    return Ok(TailResult(totalLines, startLine, totalLines > |trailing|, trailing, content));
  }

  lemma {:induction false} WindowStart(requested: nat)
    ensures Window([], [], requested)
  {
  }

  lemma {:induction false} WindowEnd(trailing: seq<Numbered>, text: Text, requested: nat)
    requires requested > 0 && Window(trailing, LinesOf(text), requested)
    ensures var n := |LinesOf(text)|;
            TailOf(text, requested)
            == TailResult(n, if |trailing| == 0 then 0 else trailing[0].line, n > |trailing|, trailing,
                          Stack(Texts(trailing)))
  {
    hide LinesOf, Stack, Texts;
  }

  // ---------- what the window means ----------

  lemma {:induction false} StackLast(lines: seq<Text>, k: nat)
    requires 0 < k
    ensures var whole, part := Stack(lines), Stack(Last(lines, k));
            && |part| <= |whole| && part == whole[|whole| - |part|..]
            && (|lines| > k ==> |part| < |whole|)
    decreases |lines|
  {
    if |lines| <= k {
      assert Last(lines, k) == lines;
    } else {
      StackLast(lines[1..], k);
      assert Last(lines[1..], k) == Last(lines, k);
    }
  }

  /** The result is the last lines of the file under their true numbers. */
  lemma {:induction false} TailLines(text: Text, requested: nat)
    requires requested > 0
    ensures var r, n := TailOf(text, requested), |LinesOf(text)|;
            var first := n - |r.lines|;
            && |r.lines| == Min(requested, n) && r.lineCount == n
            && (forall i :: 0 <= i < |r.lines| ==> r.lines[i] == Numbered(first + i + 1, LinesOf(text)[first + i]))
            && r.startLine == (if |r.lines| > 0 then r.lines[0].line else 0)
            && (r.truncated <==> n > |r.lines|)
  {
    hide LinesOf, Stack;
  }

  /** The joined content is a suffix of the text without its final newline, and is all of that
      exactly when no line was cut off. */
  lemma {:induction false} TailContent(text: Text, requested: nat)
    requires requested > 0
    ensures var r, whole := TailOf(text, requested), Chomp(text);
            && |r.content| <= |whole|
            && r.content == whole[|whole| - |r.content|..]
            && (r.content == whole <==> !r.truncated)
  {
    hide LinesOf, Stack, Chomp;
    var lines := LinesOf(text);
    LinesSpellText(text);
    StackLast(lines, requested);
    assert Texts(Last(Number(lines), requested)) == Last(lines, requested);
    if |lines| <= requested {
      assert Last(lines, requested) == lines;
    }
  }
}
