/** `fs_patch`: a list of literal edits run over the contents of a file. */
module Patch {

  import opened Base
  import opened Json
  import opened TextEdit

  // ---------- operations ----------

  datatype Action =
    | Replace(text: Text)
    | InsertBefore(payload: Text)
    | InsertAfter(payload: Text)
    | Delete

  datatype Op = Op(action: Action, find: Text, all: bool)

  function KindOf(action: Action): Text {
    match action
    case Replace(_) => Ascii("replace")
    case InsertBefore(_) => Ascii("insert_before")
    case InsertAfter(_) => Ascii("insert_after")
    case Delete => Ascii("delete")
  }

  /** The member that names the kind. */
  function KindKey(arguments: map<string, Json>): string {
    if "op" in arguments then "op" else "type"
  }

  /** One element of the operation list, as the loop reads it. */
  function ParseOperation(operation: Json): Result<Op, ToolError> {
    if !operation.Object? then Err(MustBeObject) else
    var members := operation.members;
    var kind :- if "op" in members then RequireString(members, "op") else RequireString(members, "type");
    var find :- RequireString(members, "find");
    var all :- OptionalBool(members, "all", false);
    if kind == Ascii("replace") then
      var text :- OptionalString(members, "replace", []);
      Ok(Op(Replace(text), find, all))
    else if kind == Ascii("insert_before") then
      var payload :- OptionalString(members, "content", []);
      Ok(Op(InsertBefore(payload), find, all))
    else if kind == Ascii("insert_after") then
      var payload :- OptionalString(members, "content", []);
      Ok(Op(InsertAfter(payload), find, all))
    else if kind == Ascii("delete") then
      Ok(Op(Delete, find, all))
    else
      Err(UnsupportedOperation(kind))
  }

  /** The JSON form of an operation. */
  function EncodeOperation(op: Op): Json {
    var common := map["op" := Str(KindOf(op.action)), "find" := Str(op.find), "all" := Bool(op.all)];
    match op.action
    case Replace(text) => Object(common["replace" := Str(text)])
    case InsertBefore(payload) => Object(common["content" := Str(payload)])
    case InsertAfter(payload) => Object(common["content" := Str(payload)])
    case Delete => Object(common)
  }

  lemma {:induction false} KindsDiffer()
    ensures Ascii("replace") != Ascii("insert_before") && Ascii("replace") != Ascii("insert_after")
    ensures Ascii("replace") != Ascii("delete") && Ascii("insert_before") != Ascii("insert_after")
    ensures Ascii("insert_before") != Ascii("delete") && Ascii("insert_after") != Ascii("delete")
  {
    assert |"replace"| == 7 && |"insert_before"| == 13 && |"insert_after"| == 12 && |"delete"| == 6;
  }

  /** Every operation is what its own JSON form parses to. */
  lemma {:induction false} ParseEncoded(op: Op)
    ensures ParseOperation(EncodeOperation(op)) == Ok(op)
  {
    hide Ascii;
    KindsDiffer();
  }

  /** How the operations are written: the kinds by name, `op` or else `type` naming them, `find`, the text
      under `replace` or `content` and empty by default, and `all` false by default. */
  lemma {:induction false} WrittenForms(key: string, find: Text, text: Text, all: bool)
    requires key == "op" || key == "type"
    ensures var replace := map[key := Str(Ascii("replace")), "find" := Str(find)];
            && ParseOperation(Object(replace)) == Ok(Op(Replace([]), find, false))
            && ParseOperation(Object(replace["replace" := Str(text)]["all" := Bool(all)]))
               == Ok(Op(Replace(text), find, all))
    ensures var before := map[key := Str(Ascii("insert_before")), "find" := Str(find)];
            && ParseOperation(Object(before)) == Ok(Op(InsertBefore([]), find, false))
            && ParseOperation(Object(before["content" := Str(text)]["all" := Bool(all)]))
               == Ok(Op(InsertBefore(text), find, all))
    ensures var after := map[key := Str(Ascii("insert_after")), "find" := Str(find)];
            && ParseOperation(Object(after)) == Ok(Op(InsertAfter([]), find, false))
            && ParseOperation(Object(after["content" := Str(text)]["all" := Bool(all)]))
               == Ok(Op(InsertAfter(text), find, all))
    ensures var delete := map[key := Str(Ascii("delete")), "find" := Str(find)];
            && ParseOperation(Object(delete)) == Ok(Op(Delete, find, false))
            && ParseOperation(Object(delete["all" := Bool(all)])) == Ok(Op(Delete, find, all))
  {
    hide Ascii;
    KindsDiffer();
  }

  /** The list elements that parse: the kind is one of four, `op` before its old name `type`, and the
      arguments that this kind uses have the right type. */
  lemma {:induction false} ParseAcceptsExactly(members: map<string, Json>)
    ensures var key := KindKey(members);
            var str := (k: string) => k in members && members[k].Str?;
            ParseOperation(Object(members)).Ok? <==>
              && str(key) && str("find") && ("all" in members ==> members["all"].Bool?)
              && (|| (members[key].text == Ascii("replace") && ("replace" in members ==> str("replace")))
                  || (members[key].text == Ascii("insert_before") && ("content" in members ==> str("content")))
                  || (members[key].text == Ascii("insert_after") && ("content" in members ==> str("content")))
                  || members[key].text == Ascii("delete"))
  {
    hide Ascii;
    KindsDiffer();
  }

  // ---------- programs ----------

  /** A list element that parsed, or the error its parsing throws when the loop reaches it. */
  type Step = Result<Op, ToolError>

  datatype Applied = Applied(kind: Text, matches: nat)

  datatype Outcome = Done(text: Text, applied: seq<Applied>) | Failed(index: nat, error: ToolError)

  /** The edit an operation asks for. `all` matters for replace and delete only, and only the
      single replace accepts an empty find text. */
  function ApplyOp(op: Op, s: Text): Result<Edit, ToolError> {
    if |op.find| == 0 && !(op.action.Replace? && !op.all) then Err(EmptyFindText) else
    match op.action
    case Replace(text) => Ok(if op.all then ReplaceEvery(s, op.find, text) else ReplaceFirst(s, op.find, text))
    case InsertBefore(payload) => Ok(InsertFirst(s, op.find, payload, false))
    case InsertAfter(payload) => Ok(InsertFirst(s, op.find, payload, true))
    case Delete => Ok(if op.all then ReplaceEvery(s, op.find, []) else ReplaceFirst(s, op.find, []))
  }

  /** One turn of the loop: an operation that matches nothing is an error. */
  function RunStep(step: Step, s: Text): Result<Edit, ToolError> {
    var op :- step;
    var edit :- ApplyOp(op, s);
    if edit.matches == 0 then Err(NoMatch(KindOf(op.action))) else Ok(edit)
  }

  function Report(step: Step, edit: Edit): Applied
    requires step.Ok?
  {
    Applied(KindOf(step.value.action), edit.matches)
  }

  /** Outcome of a run that had already applied `before` when the rest of it came out as `o`. */
  function After(before: seq<Applied>, o: Outcome): Outcome {
    match o
    case Done(text, applied) => Done(text, before + applied)
    case Failed(index, error) => Failed(|before| + index, error)
  }

  function Run(steps: seq<Step>, s: Text): Outcome {
    if |steps| == 0 then Done(s, []) else
    match RunStep(steps[0], s)
    case Err(e) => Failed(0, e)
    case Ok(edit) => After([Report(steps[0], edit)], Run(steps[1..], edit.text))
  }

  /** Running `a + b` is running `a` and then, if `a` succeeded, running `b` on its result. */
  lemma {:induction false} RunComposes(a: seq<Step>, b: seq<Step>, s: Text)
    ensures var first := Run(a, s);
            Run(a + b, s) == if first.Done? then After(first.applied, Run(b, first.text)) else first
  {
    hide ApplyOp, Report;
    if |a| == 0 {
      assert a + b == b;
      AfterNothing(Run(b, s));
    } else {
      assert (a + b)[1..] == a[1..] + b;
      var r := RunStep(a[0], s);
      if r.Ok? {
        RunComposes(a[1..], b, r.value.text);
        var head, rest := [Report(a[0], r.value)], Run(a[1..], r.value.text);
        if rest.Done? {
          AfterAfter(head, rest.applied, Run(b, rest.text));
        }
      }
    }
  }

  lemma {:induction false} AfterNothing(o: Outcome)
    ensures After([], o) == o
  {
    if o.Done? { assert [] + o.applied == o.applied; }
  }

  lemma {:induction false} AfterAfter(a: seq<Applied>, b: seq<Applied>, o: Outcome)
    ensures After(a, After(b, o)) == After(a + b, o)
  {
    if o.Done? { assert a + (b + o.applied) == a + b + o.applied; }
  }

  /** A run reports one entry per operation, each with at least one match. */
  lemma {:induction false} RunReportsEveryStep(steps: seq<Step>, s: Text)
    ensures var o := Run(steps, s);
            && (o.Done? ==> |o.applied| == |steps| && forall k :: 0 <= k < |steps| ==> o.applied[k].matches > 0)
            && (o.Failed? ==> o.index < |steps|)
  {
    if |steps| > 0 {
      var r := RunStep(steps[0], s);
      if r.Ok? {
        RunReportsEveryStep(steps[1..], r.value.text);
      }
    }
  }

  /** One operation more: its edit of the text so far and one more entry in the report, with the kind it
      was asked for and the matches it made; or the end of the run, with its index and its error. */
  lemma {:induction false} RunOneMore(steps: seq<Step>, s: Text, k: nat)
    requires k < |steps| && Run(steps[..k], s).Done?
    ensures var before := Run(steps[..k], s);
            var r := RunStep(steps[k], before.text);
            Run(steps[..k + 1], s)
            == if r.Err? then Failed(k, r.error)
               else Done(r.value.text, before.applied + [Applied(KindOf(steps[k].value.action), r.value.matches)])
  {
    hide RunStep, KindOf;
    assert steps[..k + 1] == steps[..k] + [steps[k]];
    RunComposes(steps[..k], [steps[k]], s);
    RunReportsEveryStep(steps[..k], s);
    RunOne(steps[k], Run(steps[..k], s).text);
  }

  /** A run that fails has done all operations before the failing one and reports the error of that one. */
  lemma {:induction false} RunFailsAtFirst(steps: seq<Step>, s: Text)
    requires Run(steps, s).Failed?
    ensures var o := Run(steps, s);
            && o.index < |steps| && Run(steps[..o.index], s).Done?
            && RunStep(steps[o.index], Run(steps[..o.index], s).text) == Err(o.error)
  {
    hide RunStep;
    var o := Run(steps, s);
    RunReportsEveryStep(steps, s);
    var front, back := steps[..o.index], steps[o.index..];
    assert front + back == steps;
    RunComposes(front, back, s);
    if Run(front, s).Failed? {
      RunReportsEveryStep(front, s);
    } else {
      RunReportsEveryStep(front, s);
      RunReportsEveryStep(back, Run(front, s).text);
      assert back[0] == steps[o.index];
    }
  }

  // ---------- what one operation does ----------

  /** With `all`, replace and delete exchange every needle of the leftmost split, and count them. */
  lemma {:induction false} AllMeansEvery(op: Op, s: Text, parts: seq<Text>)
    requires |op.find| > 0 && op.all && (op.action.Replace? || op.action.Delete?)
    requires IsLeftmostSplit(parts, s, op.find)
    ensures ApplyOp(op, s)
         == Ok(Edit(Join(parts, if op.action.Replace? then op.action.text else []), |parts| - 1))
  {
    LeftmostSplitIsUnique(parts, s, op.find);
  }

  /** Otherwise one occurrence is edited, the leftmost: exchanged, dropped, or given the payload on the
      side that was asked for; inserts do so with `all` as well. */
  lemma {:induction false} OneMeansLeftmost(op: Op, front: Text, back: Text)
    requires |op.find| > 0 || (op.action.Replace? && !op.all)
    requires op.all ==> op.action.InsertBefore? || op.action.InsertAfter?
    requires forall i :: 0 <= i < |front| ==> !OccursAt(front + op.find + back, op.find, i)
    ensures var r := ApplyOp(op, front + op.find + back);
            && (op.action.Replace? ==> r == Ok(Edit(front + op.action.text + back, 1)))
            && (op.action.Delete? ==> r == Ok(Edit(front + back, 1)))
            && (op.action.InsertBefore? ==> r == Ok(Edit(front + op.action.payload + op.find + back, 1)))
            && (op.action.InsertAfter? ==> r == Ok(Edit(front + op.find + op.action.payload + back, 1)))
  {
    hide Find, OccursAt, ReplaceFirst, InsertFirst;
    var s := front + op.find + back;
    match op.action
    case Replace(text) => ReplaceFirstActsOnLeftmost(front, op.find, back, text);
    case InsertBefore(payload) =>
      InsertFirstIsReplaceFirst(s, op.find, payload, false);
      ReplaceFirstActsOnLeftmost(front, op.find, back, payload + op.find);
      assert front + (payload + op.find) + back == front + payload + op.find + back;
    case InsertAfter(payload) =>
      InsertFirstIsReplaceFirst(s, op.find, payload, true);
      ReplaceFirstActsOnLeftmost(front, op.find, back, op.find + payload);
      assert front + (op.find + payload) + back == front + op.find + payload + back;
    case Delete =>
      ReplaceFirstActsOnLeftmost(front, op.find, back, []);
      assert front + [] + back == front + back;
  }

  /** An operation fails exactly if its find text is empty, which only the single replace accepts, or
      occurs nowhere. */
  lemma {:induction false} StepFailsExactly(op: Op, s: Text)
    ensures var r := RunStep(Ok(op), s);
            && (r == Err(EmptyFindText) <==> |op.find| == 0 && !(op.action.Replace? && !op.all))
            && (r == Err(NoMatch(KindOf(op.action))) <==> |op.find| > 0 && !Contains(s, op.find))
            && (r.Err? ==> r == Err(EmptyFindText) || r == Err(NoMatch(KindOf(op.action))))
  {
    hide Find, OccursAt, Contains, Splice, Split, Join;
    FindIsContains(s, op.find);
    if |op.find| == 0 {
      EmptyOccurs(s, op.find);
    } else if op.action.Replace? || op.action.Delete? {
      ReplaceEveryMeaning(s, op.find, if op.action.Replace? then op.action.text else []);
    }
  }

  lemma {:induction false} EmptyOccurs(s: Text, needle: Text)
    requires |needle| == 0
    ensures Contains(s, needle)
  {
    assert OccursAt(s, needle, 0);
  }

  // ---------- sizes ----------

  /** How much longer one match of an operation makes the text. */
  function Delta(op: Op): int {
    match op.action
    case Replace(text) => |text| - |op.find|
    case InsertBefore(payload) => |payload|
    case InsertAfter(payload) => |payload|
    case Delete => -|op.find|
  }

  function Growth(steps: seq<Step>, applied: seq<Applied>): int
    requires |steps| == |applied| && forall k :: 0 <= k < |steps| ==> steps[k].Ok?
  {
    if |steps| == 0 then 0 else applied[0].matches * Delta(steps[0].value) + Growth(steps[1..], applied[1..])
  }

  lemma {:induction false} ApplyOpSize(op: Op, s: Text)
    ensures var r := ApplyOp(op, s);
            r.Ok? ==> |r.value.text| == |s| + r.value.matches * Delta(op)
  {
    hide Find;
    match op.action
    case Replace(text) =>
      ReplaceFirstMeaning(s, op.find, text);
      if |op.find| > 0 { ReplaceEveryMeaning(s, op.find, text); }
    case InsertBefore(payload) =>
    case InsertAfter(payload) =>
    case Delete =>
      ReplaceFirstMeaning(s, op.find, []);
      if |op.find| > 0 { ReplaceEveryMeaning(s, op.find, []); }
  }

  /** The final size is the initial size plus the match-weighted size change of every operation. */
  lemma {:induction false} RunSize(steps: seq<Step>, s: Text)
    requires Run(steps, s).Done?
    ensures forall k :: 0 <= k < |steps| ==> steps[k].Ok?
    ensures |steps| == |Run(steps, s).applied|
    ensures |Run(steps, s).text| == |s| + Growth(steps, Run(steps, s).applied)
  {
    hide ApplyOp;
    if |steps| > 0 {
      var edit := RunStep(steps[0], s).value;
      RunSize(steps[1..], edit.text);
      ApplyOpSize(steps[0].value, s);
      forall k | 0 <= k < |steps| ensures steps[k].Ok? {
        if k > 0 { assert steps[k] == steps[1..][k - 1]; }
      }
      assert Run(steps, s).applied[1..] == Run(steps[1..], edit.text).applied;
    }
  }

  // ---------- everything is a replacement ----------

  /** The replace operation that does the work of `op`. */
  function Desugar(op: Op): Op {
    match op.action
    case Replace(_) => op
    case InsertBefore(payload) => Op(Replace(payload + op.find), op.find, false)
    case InsertAfter(payload) => Op(Replace(op.find + payload), op.find, false)
    case Delete => Op(Replace([]), op.find, op.all)
  }

  function DesugarStep(step: Step): Step {
    match step
    case Err(e) => step
    case Ok(op) => Ok(Desugar(op))
  }

  function DesugarAll(steps: seq<Step>): (r: seq<Step>)
    ensures |r| == |steps|
  {
    seq(|steps|, i requires 0 <= i < |steps| => DesugarStep(steps[i]))
  }

  /** Equal up to the operation names in the report and in the error. */
  ghost predicate SameRun(a: Outcome, b: Outcome) {
    match (a, b)
    case (Done(s, x), Done(t, y)) => s == t && |x| == |y| && forall k :: 0 <= k < |x| ==> x[k].matches == y[k].matches
    case (Failed(i, _), Failed(j, _)) => i == j
    case _ => false
  }

  ghost predicate SameEdit(a: Result<Edit, ToolError>, b: Result<Edit, ToolError>) {
    match (a, b)
    case (Ok(x), Ok(y)) => x == y
    case (Err(_), Err(_)) => true
    case _ => false
  }

  /** The operations whose desugared form rejects an empty find text exactly when they do. */
  predicate Desugarable(op: Op) {
    |op.find| > 0 || op.action.Replace? || (op.action.Delete? && op.all)
  }

  lemma {:induction false} DesugarSound(op: Op, s: Text)
    requires Desugarable(op)
    ensures SameEdit(RunStep(Ok(Desugar(op)), s), RunStep(Ok(op), s))
  {
    match op.action
    case Replace(_) =>
    case InsertBefore(payload) => InsertFirstIsReplaceFirst(s, op.find, payload, false);
    case InsertAfter(payload) => InsertFirstIsReplaceFirst(s, op.find, payload, true);
    case Delete =>
  }

  /** Desugaring one operation is sound on every text exactly for the desugarable operations: the
      others reject their empty find text, while the single replace accepts it. */
  lemma {:induction false} DesugarExact(op: Op)
    ensures Desugarable(op) <==> forall s: Text :: SameEdit(RunStep(Ok(Desugar(op)), s), RunStep(Ok(op), s))
  {
    if Desugarable(op) {
      forall s: Text ensures SameEdit(RunStep(Ok(Desugar(op)), s), RunStep(Ok(op), s)) {
        DesugarSound(op, s);
      }
    } else {
      var s: Text := [];
      assert OccursAt(s, op.find, 0);
      assert !SameEdit(RunStep(Ok(Desugar(op)), s), RunStep(Ok(op), s));
    }
  }

  /** Whole programs keep their final text, match counts and failing index under desugaring. */
  lemma {:induction false} DesugarPreservesRuns(steps: seq<Step>, s: Text)
    requires forall k :: 0 <= k < |steps| && steps[k].Ok? ==> Desugarable(steps[k].value)
    ensures SameRun(Run(DesugarAll(steps), s), Run(steps, s))
    ensures forall k :: 0 <= k < |steps| && steps[k].Ok? ==>
              var op, plain := steps[k].value, DesugarAll(steps)[k];
              && plain.Ok? && plain.value.action.Replace? && plain.value.find == op.find
              && (op.action.InsertBefore? ==> plain.value.action.text == op.action.payload + op.find)
              && (op.action.InsertAfter? ==> plain.value.action.text == op.find + op.action.payload)
              && (op.action.Delete? ==> plain.value.action.text == [])
  {
    DesugaredAreReplacements(steps);
    hide RunStep, Desugar, Desugarable;
    if |steps| > 0 {
      assert DesugarAll(steps)[1..] == DesugarAll(steps[1..]);
      var step := steps[0];
      StepErrorStays(step, s);
      if step.Ok? { DesugarSound(step.value, s); }
      var r := RunStep(step, s);
      if r.Ok? {
        DesugarPreservesRuns(steps[1..], r.value.text);
      }
    }
  }

  lemma {:induction false} DesugaredAreReplacements(steps: seq<Step>)
    ensures forall k :: 0 <= k < |steps| && steps[k].Ok? ==>
              var op, plain := steps[k].value, DesugarAll(steps)[k];
              && plain.Ok? && plain.value.action.Replace? && plain.value.find == op.find
              && (op.action.InsertBefore? ==> plain.value.action.text == op.action.payload + op.find)
              && (op.action.InsertAfter? ==> plain.value.action.text == op.find + op.action.payload)
              && (op.action.Delete? ==> plain.value.action.text == [])
  {
  }

  lemma {:induction false} StepErrorStays(step: Step, s: Text)
    ensures step.Err? ==> RunStep(step, s).Err? && DesugarStep(step) == step
  {
  }

  // ---------- undoing inserts ----------

  predicate IsInsert(step: Step) {
    step.Ok? && (step.value.action.InsertBefore? || step.value.action.InsertAfter?)
  }

  /** A program of inserts, each of a payload that is not empty and shares no byte with the text it meets. */
  ghost predicate FreshInserts(steps: seq<Step>, s: Text) {
    |steps| > 0 ==>
      && IsInsert(steps[0])
      && var payload := steps[0].value.action.payload;
      && |payload| > 0 && ShareNoByte(payload, s)
      && (RunStep(steps[0], s).Ok? ==> FreshInserts(steps[1..], RunStep(steps[0], s).value.text))
  }

  /** Delete the payloads, last insert first. */
  function Undo(steps: seq<Step>): seq<Step>
    requires forall k :: 0 <= k < |steps| ==> IsInsert(steps[k])
  {
    if |steps| == 0 then [] else
    assert IsInsert(steps[0]);
    Undo(steps[1..]) + [Ok(Op(Delete, steps[0].value.action.payload, false))]
  }

  lemma {:induction false} DeleteUndoesSplice(s: Text, at: nat, payload: Text)
    requires at <= |s| && |payload| > 0 && ShareNoByte(payload, s)
    ensures ReplaceFirst(Splice(s, at, at, payload), payload, []) == Edit(s, 1)
  {
    hide Find;
    var t := Splice(s, at, at, payload);
    assert t[..at] == s[..at];
    FindPastForeignText(t, payload, at);
    assert t[..at] + [] + t[at + |payload|..] == s;
  }

  lemma {:induction false} DeleteUndoesInsert(step: Step, s: Text)
    requires FreshInserts([step], s) && RunStep(step, s).Ok?
    ensures RunStep(Ok(Op(Delete, step.value.action.payload, false)), RunStep(step, s).value.text) == Ok(Edit(s, 1))
  {
    hide Find;
    assert [step][0] == step;
    var op := step.value;
    var p := Find(s, op.find, 0).value;
    DeleteUndoesSplice(s, if op.action.InsertAfter? then p + |op.find| else p, op.action.payload);
  }

  lemma {:induction false} FreshInsertsAreInserts(steps: seq<Step>, s: Text)
    requires FreshInserts(steps, s) && Run(steps, s).Done?
    ensures forall k :: 0 <= k < |steps| ==> IsInsert(steps[k])
  {
    hide RunStep;
    if |steps| > 0 {
      FreshInsertsAreInserts(steps[1..], RunStep(steps[0], s).value.text);
      forall k | 0 <= k < |steps| ensures IsInsert(steps[k]) {
        if k > 0 { assert steps[k] == steps[1..][k - 1]; }
      }
    }
  }

  /** Deleting the payloads in reverse order takes the patched text back to the original. */
  lemma {:induction false} UndoRestores(steps: seq<Step>, s: Text)
    requires FreshInserts(steps, s) && Run(steps, s).Done?
    ensures forall k :: 0 <= k < |steps| ==> IsInsert(steps[k])
    ensures var undone := Run(Undo(steps), Run(steps, s).text);
            undone.Done? && undone.text == s && forall a :: a in undone.applied ==> a.matches == 1
  {
    hide RunStep, IsInsert;
    FreshInsertsAreInserts(steps, s);
    if |steps| > 0 {
      var middle := RunStep(steps[0], s).value.text;
      UndoRestores(steps[1..], middle);
      FreshHead(steps, s);
      DeleteUndoesInsert(steps[0], s);
      var last: Step := Ok(Op(Delete, steps[0].value.action.payload, false));
      RunOne(last, middle);
      RunComposes(Undo(steps[1..]), [last], Run(steps, s).text);
    }
  }

  lemma {:induction false} FreshHead(steps: seq<Step>, s: Text)
    requires |steps| > 0 && FreshInserts(steps, s)
    ensures FreshInserts([steps[0]], s) && IsInsert(steps[0])
  {
    assert |[steps[0]][1..]| == 0;
  }

  lemma {:induction false} RunOne(step: Step, s: Text)
    ensures var r := RunStep(step, s);
            Run([step], s) == if r.Ok? then Done(r.value.text, [Report(step, r.value)]) else Failed(0, r.error)
  {
    assert |[step][1..]| == 0;
  }

  // ---------- the tool call ----------

  /** The first argument of the flat form that is missing or of the wrong type, if any. */
  function CheckArguments(arguments: map<string, Json>): Result<(), ToolError> {
    var key := KindKey(arguments);
    var kind :- if key in arguments then RequireString(arguments, key) else Ok(Ascii("replace"));
    var find :- RequireString(arguments, "find");
    var text :- OptionalString(arguments, "replace", []);
    var payload :- OptionalString(arguments, "content", []);
    var all :- OptionalBool(arguments, "all", false);
    Ok(())
  }

  /** The arguments that an operation has, with `replace` as its kind when none is given. */
  function KeptArguments(arguments: map<string, Json>): map<string, Json> {
    var key := KindKey(arguments);
    var kept := map k | k in arguments && k in {key, "find", "replace", "content", "all"} :: arguments[k];
    if key in arguments then kept else kept["op" := Str(Ascii("replace"))]
  }

  /** The operation that the flat argument form stands for. */
  function OperationFromArguments(arguments: map<string, Json>): Result<map<string, Json>, ToolError> {
    var ok :- CheckArguments(arguments);
    Ok(KeptArguments(arguments))
  }

  /** `value`, if there is one, as the member `key`. */
  function WithMember(members: map<string, Json>, key: string, source: map<string, Json>): map<string, Json> {
    if key in source then members[key := source[key]] else members
  }

  lemma {:induction false} KeptMembers(arguments: map<string, Json>, start: map<string, Json>)
    requires "find" in arguments
    requires start == if KindKey(arguments) in arguments
                      then map[KindKey(arguments) := arguments[KindKey(arguments)]]
                      else map["op" := Str(Ascii("replace"))]
    ensures var filled := WithMember(start["find" := arguments["find"]], "replace", arguments);
            WithMember(WithMember(filled, "content", arguments), "all", arguments)
              == KeptArguments(arguments)
  {
  }

  method MakeOperationFromArguments(arguments: map<string, Json>) returns (r: Result<map<string, Json>, ToolError>)
    ensures r == OperationFromArguments(arguments)
  {
    hide KeptArguments;
    var operation: map<string, Json> := map[];
    if "op" in arguments {
      var kind :- RequireString(arguments, "op");
      operation := operation["op" := Str(kind)];
    } else if "type" in arguments {
      var kind :- RequireString(arguments, "type");
      operation := operation["type" := Str(kind)];
    } else {
      operation := operation["op" := Str(Ascii("replace"))];
    }
    ghost var start := operation;
    var find :- RequireString(arguments, "find");
    operation := operation["find" := Str(find)];
    if "replace" in arguments {
      var text :- OptionalString(arguments, "replace", []);
      operation := operation["replace" := Str(text)];
    }
    if "content" in arguments {
      var payload :- OptionalString(arguments, "content", []);
      operation := operation["content" := Str(payload)];
    }
    if "all" in arguments {
      var all :- OptionalBool(arguments, "all", false);
      operation := operation["all" := Bool(all)];
    }
    KeptMembers(arguments, start);
    return Ok(operation);
  }

  function ParseAll(items: seq<Json>): (steps: seq<Step>)
    ensures |steps| == |items|
  {
    seq(|items|, i requires 0 <= i < |items| => ParseOperation(items[i]))
  }

  /** The operation list a call names, or the error that choosing it throws. */
  function Operations(arguments: map<string, Json>): Result<seq<Json>, ToolError> {
    if "operations" in arguments then
      if arguments["operations"].Array? then Ok(arguments["operations"].items) else Err(MustBeArray)
    else
      var operation :- OperationFromArguments(arguments);
      Ok([Object(operation)])
  }

  /** What a call does to the text of the file. */
  function PatchOutcome(arguments: map<string, Json>, s: Text): Outcome {
    match Operations(arguments)
    case Err(e) => Failed(0, e)
    case Ok(items) => Run(ParseAll(items), s)
  }

  /** A regular file. */
  class RegularFile {
    var bytes: Text

    constructor (bytes: Text)
      ensures this.bytes == bytes
    {
      this.bytes := bytes;
    }
  }

  /** `content` is edited in memory and written once, so a call that throws leaves the file alone. */
  method CallFsPatch(file: RegularFile, arguments: map<string, Json>) returns (r: Result<seq<Applied>, ToolError>)
    modifies file
    ensures var o := PatchOutcome(arguments, old(file.bytes));
            && (o.Done? ==> r == Ok(o.applied) && file.bytes == o.text)
            && (o.Failed? ==> r == Err(o.error) && file.bytes == old(file.bytes))
  {
    hide ApplyOp, OperationFromArguments, ParseOperation;
    var content := new TextBuffer(file.bytes);
    var operations: seq<Json>;
    if "operations" in arguments {
      if !arguments["operations"].Array? {
        return Err(MustBeArray);
      }
      operations := arguments["operations"].items;
    } else {
      var operation :- MakeOperationFromArguments(arguments);
      operations := [Object(operation)];
    }
    var applied: seq<Applied> := [];
    ghost var steps := ParseAll(operations);
    AfterNothing(Run(steps, content.data));
    assert steps[0..] == steps;
    for i := 0 to |operations|
      invariant fresh(content) && |applied| == i && file.bytes == old(file.bytes)
      invariant Run(steps, file.bytes) == After(applied, Run(steps[i..], content.data))
    {
      ghost var before := content.data;
      assert steps[i..][1..] == steps[i + 1..];
      var op :- ParseOperation(operations[i]);
      var matches :- ApplyInPlace(content, op);
      if matches == 0 {
        return Err(NoMatch(KindOf(op.action)));
      }
      ghost var entry := [Applied(KindOf(op.action), matches)];
      AfterAfter(applied, entry, Run(steps[i + 1..], content.data));
      applied := applied + [Applied(KindOf(op.action), matches)];
    }
    assert applied + [] == applied;
    file.bytes := content.data;
    return Ok(applied);
  }

  /** The dispatch on the operation kind. */
  method ApplyInPlace(content: TextBuffer, op: Op) returns (r: Result<nat, ToolError>)
    modifies content
    ensures var edit := ApplyOp(op, old(content.data));
            && (edit.Ok? ==> r == Ok(edit.value.matches) && content.data == edit.value.text)
            && (edit.Err? ==> r == Err(edit.error) && content.data == old(content.data))
  {
    hide InsertFirst, ReplaceFirst, ReplaceEvery;
    var matches: Result<nat, EditError>;
    match op.action {
      case Replace(text) =>
        if op.all {
          matches := content.ReplaceAll(op.find, text);
        } else {
          var n := content.ReplaceSingle(op.find, text);
          matches := Ok(n);
        }
      case InsertBefore(payload) =>
        InsertFirstIsReplaceFirst(content.data, op.find, payload, false);
        matches := content.InsertRelative(op.find, payload, false);
      case InsertAfter(payload) =>
        InsertFirstIsReplaceFirst(content.data, op.find, payload, true);
        matches := content.InsertRelative(op.find, payload, true);
      case Delete =>
        if op.all {
          matches := content.ReplaceAll(op.find, []);
        } else {
          matches := content.DeleteSingle(op.find);
        }
    }
    return if matches.Ok? then Ok(matches.value) else Err(EmptyFindText);
  }

  // ---------- the flat form ----------

  /** The flat arguments as the single element of an operation list. */
  function AsListElement(arguments: map<string, Json>): Json {
    Object(if KindKey(arguments) in arguments then arguments else arguments["op" := Str(Ascii("replace"))])
  }

  predicate ExtrasAreStrings(arguments: map<string, Json>) {
    && ("replace" in arguments ==> arguments["replace"].Str?)
    && ("content" in arguments ==> arguments["content"].Str?)
  }

  lemma {:induction false} FlatFormParses(arguments: map<string, Json>)
    ensures var operation := OperationFromArguments(arguments);
            var element := ParseOperation(AsListElement(arguments));
            && (operation.Ok? ==> ParseOperation(Object(operation.value)) == element && ExtrasAreStrings(arguments))
            && (operation.Err? && ExtrasAreStrings(arguments) ==> element.Err?)
  {
  }

  /** The flat form does what the one-element list does, except that it also rejects a `replace` or
      `content` argument that is not a string when the kind of the operation does not use it. */
  lemma {:induction false} FlatFormIsOneElementList(arguments: map<string, Json>, s: Text)
    requires "operations" !in arguments
    ensures var flat := PatchOutcome(arguments, s);
            var listed := PatchOutcome(map["operations" := Array([AsListElement(arguments)])], s);
            && (flat.Done? <==> listed.Done? && ExtrasAreStrings(arguments))
            && (flat.Done? ==> flat == listed)
  {
    hide ParseOperation, OperationFromArguments, ExtrasAreStrings, AsListElement;
    FlatFormParses(arguments);
    var element := AsListElement(arguments);
    var operation := OperationFromArguments(arguments);
    assert ParseAll([element]) == [ParseOperation(element)];
    if operation.Ok? {
      assert ParseAll([Object(operation.value)]) == [ParseOperation(Object(operation.value))];
    } else if ParseOperation(element).Err? {
      RunOne(ParseOperation(element), s);
    }
  }

  /** The other case: a deletion that also carries a `replace` argument of the wrong type. */
  lemma {:induction false} FlatFormIsStricter(find: Text)
    requires |find| > 0
    ensures var arguments := map["op" := Str(Ascii("delete")), "find" := Str(find), "replace" := Null];
            && PatchOutcome(arguments, find).Failed?
            && PatchOutcome(map["operations" := Array([AsListElement(arguments)])], find).Done?
  {
    hide Ascii, Find;
    var arguments := map["op" := Str(Ascii("delete")), "find" := Str(find), "replace" := Null];
    KindsDiffer();
    var element := AsListElement(arguments);
    var step: Step := Ok(Op(Delete, find, false));
    assert ParseOperation(element) == step;
    assert ParseAll([element]) == [step];
    assert OccursAt(find, find, 0);
    FindIs(find, find, 0, 0);
    RunOne(step, find);
  }

  /** A call with a list runs exactly that list; one with anything else for a list fails. */
  lemma {:induction false} CallRunsItsList(arguments: map<string, Json>, ops: seq<Op>, s: Text)
    requires "operations" in arguments
    ensures arguments["operations"] == Array(seq(|ops|, i requires 0 <= i < |ops| => EncodeOperation(ops[i]))) ==>
      PatchOutcome(arguments, s) == Run(seq(|ops|, i requires 0 <= i < |ops| => Ok(ops[i])), s)
    ensures !arguments["operations"].Array? ==> PatchOutcome(arguments, s).Failed?
  {
    hide Run, EncodeOperation, ParseOperation;
    var items := seq(|ops|, i requires 0 <= i < |ops| => EncodeOperation(ops[i]));
    var steps: seq<Step> := seq(|ops|, i requires 0 <= i < |ops| => Ok(ops[i]));
    forall i | 0 <= i < |ops| ensures ParseAll(items)[i] == steps[i] {
      ParseEncoded(ops[i]);
    }
    assert ParseAll(items) == steps;
  }
}
