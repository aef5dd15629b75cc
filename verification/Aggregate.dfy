/**
 * mexFcnWrapper of sql_interface.hpp: SQLite calls back a MATLAB function, or the step and the final
 * function of an aggregate. All groups of an aggregate share one data cell.
 */
module Aggregate {
  /** A MATLAB value, as far as it matters here whether it is empty. */
  datatype Mx = EmptyCell | OtherEmpty | Full(id: int)

  datatype Outcome = Returned(value: Mx) | Threw
  datatype Kind = Fcn | Step | Final

  /**
   * The three handles of a MexFunctors object: which of them are function handles, and what they do.
   * toSql tells which values can be returned to SQLite.
   */
  datatype Script = Script(
    hasFcn: bool, hasStep: bool, hasFinal: bool,
    fcn: seq<Mx> -> Outcome,
    step: (Mx, seq<Mx>) -> Outcome,
    final: Mx -> Outcome,
    toSql: Mx -> bool)
  {
    predicate Has(kind: Kind) {
      match kind case Fcn => hasFcn case Step => hasStep case Final => hasFinal
    }

    function Calling(kind: Kind, data: Mx, args: seq<Mx>): Outcome {
      match kind case Fcn => fcn(args) case Step => step(data, args) case Final => final(data)
    }
  }

  /**
   * One callback. While MATLAB is busy with it, it may run queries that call the same function
   * again: the nested calls. Arguments may turn out not to be convertible.
   */
  datatype Call = Call(kind: Kind, args: seq<Mx>, convertible: bool, nested: seq<Call>)

  datatype Reply = InvalidFunction | RecursiveCall | BadArgument | BadResult | Exception | Null | Value(value: Mx)

  // ----- The code ------------------------------------------------------------------------------

  class MexFunctors {
    const script: Script
    var busy: bool
    var groupData: Mx

    constructor (script: Script)
      ensures this.script == script && !busy && groupData == EmptyCell
    {
      this.script := script;
      busy := false;
      groupData := EmptyCell;
    }

    method InitGroupData()
      modifies this`groupData
      ensures groupData == EmptyCell
    {
      groupData := EmptyCell;
    }

    method Wrapper(c: Call) returns (reply: Reply)
      modifies this
      ensures busy == old(busy)
      ensures old(busy) ==> reply == RecursiveCall && groupData == if c.kind.Final? then EmptyCell else old(groupData)
      ensures !old(busy) ==>
        reply == ReplyTo(script, old(groupData), c) && groupData == After(script, old(groupData), c)
      decreases c
    {
      var failed := false;
      reply := Null;
      if !script.Has(c.kind) {
        reply := InvalidFunction;
        failed := true;
      }
      if busy {
        reply := RecursiveCall;
        failed := true;
      }
      if !failed && !c.convertible {
        reply := BadArgument;
        failed := true;
      }
      if !failed {
        var data := groupData;  // the call gets a duplicate
        busy := true;
        Nested(c);
        var outcome := script.Calling(c.kind, data, c.args);
        busy := false;
        match outcome {
          case Threw => reply := Exception;
          case Returned(item) =>
            if c.kind.Step? {
              if item.Full? {
                groupData := item;
              }
              reply := Null;
            } else {
              reply := if !item.Full? then Null else if script.toSql(item) then Value(item) else BadResult;
            }
        }
      }
      if c.kind.Final? {
        InitGroupData();
      }
    }

    method Nested(c: Call)
      requires busy
      modifies this
      ensures busy && groupData == Reset(old(groupData), c.nested)
      decreases c, 0
    {
      for i := 0 to |c.nested|
        invariant busy && groupData == Reset(old(groupData), c.nested[..i])
      {
        var _ := Wrapper(c.nested[i]);
        OneMore(c.nested, i);
      }
      assert c.nested[..|c.nested|] == c.nested;
    }

    /** The callbacks of any number of queries. */
    method CallAll(calls: seq<Call>) returns (replies: seq<Reply>)
      requires !busy
      modifies this
      ensures !busy && replies == Replies(script, old(groupData), calls)
      ensures groupData == AfterAll(script, old(groupData), calls)
    {
      replies := [];
      for i := 0 to |calls|
        invariant !busy && groupData == AfterAll(script, old(groupData), calls[..i])
        invariant replies == Replies(script, old(groupData), calls[..i])
      {
        assert calls[..i + 1][..i] == calls[..i];
        var reply := Wrapper(calls[i]);
        replies := replies + [reply];
      }
      assert calls[..|calls|] == calls;
    }
  }

  // ----- One call ------------------------------------------------------------------------------

  predicate HasFinal(calls: seq<Call>) { exists i :: 0 <= i < |calls| && calls[i].kind.Final? }

  lemma OneMore(calls: seq<Call>, i: nat)
    requires i < |calls|
    ensures HasFinal(calls[..i + 1]) <==> HasFinal(calls[..i]) || calls[i].kind.Final?
  {}

  /** The data after calls that are refused: a refused final call still clears them. */
  function Reset(data: Mx, calls: seq<Call>): Mx {
    if HasFinal(calls) then EmptyCell else data
  }

  predicate Runs(m: Script, c: Call) { m.Has(c.kind) && c.convertible }

  function After(m: Script, data: Mx, c: Call): Mx {
    if c.kind.Final? then EmptyCell
    else if !Runs(m, c) then data
    else if c.kind.Step? && m.step(data, c.args).Returned? && m.step(data, c.args).value.Full? then
      m.step(data, c.args).value
    else Reset(data, c.nested)
  }

  function ReplyTo(m: Script, data: Mx, c: Call): Reply {
    if !m.Has(c.kind) then InvalidFunction
    else if !c.convertible then BadArgument
    else Finish(m, c.kind, m.Calling(c.kind, data, c.args))
  }

  function Finish(m: Script, kind: Kind, outcome: Outcome): Reply {
    if outcome.Threw? then Exception
    else if kind.Step? || !outcome.value.Full? then Null
    else if m.toSql(outcome.value) then Value(outcome.value)
    else BadResult
  }

  /** What is returned to SQLite for a value that MATLAB returned. */
  lemma ReplyForValue(m: Script, kind: Kind, item: Mx)
    ensures var reply := Finish(m, kind, Returned(item));
      && (reply == Value(item) <==> !kind.Step? && item.Full? && m.toSql(item))
      && (reply == BadResult <==> !kind.Step? && item.Full? && !m.toSql(item))
      && (reply == Null <==> kind.Step? || item == EmptyCell || item == OtherEmpty)
    ensures Finish(m, kind, Threw) == Exception
  {}

  /** A function is applied to its arguments, and leaves the group data alone unless a nested final call clears them. */
  lemma FunctionCall(m: Script, data: Mx, c: Call)
    requires c.kind.Fcn? && m.hasFcn && c.convertible
    ensures ReplyTo(m, data, c) == Finish(m, Fcn, m.fcn(c.args))
    ensures After(m, data, c) == if exists n :: n in c.nested && n.kind.Final? then EmptyCell else data
  {}

  /** A step is applied to the group data and its arguments; a value that is not empty becomes the group data. */
  lemma StepEffect(m: Script, data: Mx, c: Call)
    requires c.kind.Step? && m.hasStep && c.convertible
    ensures m.step(data, c.args).Threw? ==> ReplyTo(m, data, c) == Exception
    ensures m.step(data, c.args).Returned? ==> ReplyTo(m, data, c) == Null
    ensures forall id :: m.step(data, c.args) == Returned(Full(id)) ==> After(m, data, c) == Full(id)
    ensures !(exists id :: m.step(data, c.args) == Returned(Full(id))) ==>
      After(m, data, c) == if exists n :: n in c.nested && n.kind.Final? then EmptyCell else data
  {
    var outcome := m.step(data, c.args);
    if outcome.Returned? && outcome.value.Full? {
      assert outcome == Returned(Full(outcome.value.id));
    }
  }

  /** A final function is applied to the group data, which are cleared whatever comes of it. */
  lemma FinalEffect(m: Script, data: Mx, c: Call)
    requires c.kind.Final?
    ensures m.hasFinal && c.convertible ==> ReplyTo(m, data, c) == Finish(m, Final, m.final(data))
    ensures After(m, data, c) == EmptyCell
  {}

  /** A callback without a handle for it, or with arguments that cannot be converted, calls nothing. */
  lemma NothingCalled(m: Script, data: Mx, c: Call)
    ensures var has := if c.kind.Fcn? then m.hasFcn else if c.kind.Step? then m.hasStep else m.hasFinal;
      && (!has ==> ReplyTo(m, data, c) == InvalidFunction)
      && (has && !c.convertible ==> ReplyTo(m, data, c) == BadArgument)
      && ((!has || !c.convertible) && !c.kind.Final? ==> After(m, data, c) == data)
  {}

  // ----- Any number of calls -------------------------------------------------------------------

  function AfterAll(m: Script, data: Mx, calls: seq<Call>): Mx {
    if calls == [] then data
    else After(m, AfterAll(m, data, calls[..|calls| - 1]), calls[|calls| - 1])
  }

  function Replies(m: Script, data: Mx, calls: seq<Call>): (replies: seq<Reply>)
    ensures |replies| == |calls|
  {
    if calls == [] then []
    else
      var before := calls[..|calls| - 1];
      Replies(m, data, before) + [ReplyTo(m, AfterAll(m, data, before), calls[|calls| - 1])]
  }

  /** The calls since the last final call. */
  function SinceFinal(calls: seq<Call>): seq<Call> {
    if calls == [] || calls[|calls| - 1].kind.Final? then []
    else SinceFinal(calls[..|calls| - 1]) + [calls[|calls| - 1]]
  }

  lemma {:induction false} AfterAppend(m: Script, data: Mx, calls: seq<Call>, more: seq<Call>)
    ensures AfterAll(m, data, calls + more) == AfterAll(m, AfterAll(m, data, calls), more)
    ensures Replies(m, data, calls + more) == Replies(m, data, calls) + Replies(m, AfterAll(m, data, calls), more)
  {
    if more == [] {
      assert calls + more == calls;
    } else {
      var n := |more| - 1;
      assert (calls + more)[..|calls + more| - 1] == calls + more[..n];
      AfterAppend(m, data, calls, more[..n]);
    }
  }

  /**
   * Whatever happened before, the data are what the calls since the last final call made of an
   * empty cell. So a final call always sees those, and nothing from before the previous one.
   */
  lemma {:induction false} DataSinceFinal(m: Script, calls: seq<Call>)
    ensures AfterAll(m, EmptyCell, calls) == AfterAll(m, EmptyCell, SinceFinal(calls))
  {
    if calls != [] && !calls[|calls| - 1].kind.Final? {
      DataSinceFinal(m, calls[..|calls| - 1]);
      var s := SinceFinal(calls[..|calls| - 1]);
      assert (s + [calls[|calls| - 1]])[..|s|] == s;
    }
  }

  lemma {:induction false} FinalSees(m: Script, calls: seq<Call>, k: nat)
    requires k < |calls| && calls[k].kind.Final? && Runs(m, calls[k])
    ensures Replies(m, EmptyCell, calls)[k] ==
      Finish(m, Final, m.final(AfterAll(m, EmptyCell, SinceFinal(calls[..k]))))
  {
    var c := calls[k];
    assert calls == calls[..k] + ([c] + calls[k + 1..]);
    AfterAppend(m, EmptyCell, calls[..k], [c] + calls[k + 1..]);
    var data := AfterAll(m, EmptyCell, calls[..k]);
    AfterAppend(m, data, [c], calls[k + 1..]);
    assert Replies(m, data, [c]) == [ReplyTo(m, data, c)] by {
      assert [c][..0] == [];
    }
    DataSinceFinal(m, calls[..k]);
  }

  // ----- Groups --------------------------------------------------------------------------------

  /** What an aggregate is meant to be: a left fold over the rows of a group. */
  function Accumulate(m: Script, acc: Mx, row: seq<Mx>): Mx {
    if m.step(acc, row).Returned? && m.step(acc, row).value.Full? then m.step(acc, row).value else acc
  }

  function FoldRows(m: Script, acc: Mx, rows: seq<seq<Mx>>): Mx
    decreases rows
  {
    if rows == [] then acc else FoldRows(m, Accumulate(m, acc, rows[0]), rows[1..])
  }

  /** A step call for each row, with no nested final call of this function. */
  ghost predicate StepsFor(calls: seq<Call>, rows: seq<seq<Mx>>) {
    && |calls| == |rows|
    && forall i :: 0 <= i < |calls| ==>
        calls[i].kind.Step? && calls[i].convertible && calls[i].args == rows[i] && !HasFinal(calls[i].nested)
  }

  lemma {:induction false} StepsFold(m: Script, data: Mx, calls: seq<Call>, rows: seq<seq<Mx>>)
    requires m.hasStep && StepsFor(calls, rows)
    ensures AfterAll(m, data, calls) == FoldRows(m, data, rows)
    decreases rows
  {
    if calls != [] {
      assert calls == [calls[0]] + calls[1..];
      AfterAppend(m, data, [calls[0]], calls[1..]);
      assert [calls[0]][..0] == [];
      StepsFold(m, Accumulate(m, data, rows[0]), calls[1..], rows[1..]);
    }
  }

  /** The calls of one group after the other: steps, then a final call. */
  ghost predicate GroupsFor(calls: seq<Call>, groups: seq<seq<seq<Mx>>>)
    decreases groups
  {
    if groups == [] then calls == []
    else
      var n := |groups[0]|;
      && n < |calls|
      && StepsFor(calls[..n], groups[0])
      && calls[n].kind.Final? && calls[n].convertible
      && GroupsFor(calls[n + 1..], groups[1..])
  }

  /** Where the final call of a group stands. */
  function FinalIndex(groups: seq<seq<seq<Mx>>>, k: nat): nat
    requires k < |groups|
  {
    if k == 0 then |groups[0]| else |groups[0]| + 1 + FinalIndex(groups[1..], k - 1)
  }

  lemma OneGroup(m: Script, data: Mx, steps: seq<Call>, rows: seq<seq<Mx>>, c: Call)
    requires m.hasStep && m.hasFinal && StepsFor(steps, rows) && c.kind.Final? && c.convertible
    ensures AfterAll(m, data, steps + [c]) == EmptyCell
    ensures Replies(m, data, steps + [c])[|rows|] == Finish(m, Final, m.final(FoldRows(m, data, rows)))
  {
    assert (steps + [c])[..|steps|] == steps;
    StepsFold(m, data, steps, rows);
  }

  /**
   * Contiguous groups: the result of each is its final function applied to the fold over its own
   * rows. Only the first one sees what was left behind before.
   */
  lemma {:induction false} EachGroup(m: Script, data: Mx, calls: seq<Call>, groups: seq<seq<seq<Mx>>>, k: nat)
    requires m.hasStep && m.hasFinal && GroupsFor(calls, groups) && k < |groups|
    ensures FinalIndex(groups, k) < |calls|
    ensures Replies(m, data, calls)[FinalIndex(groups, k)] ==
      Finish(m, Final, m.final(FoldRows(m, if k == 0 then data else EmptyCell, groups[k])))
    decreases k
  {
    hide Replies, AfterAll, StepsFor;
    var n := |groups[0]|;
    var steps, c, rest := calls[..n], calls[n], calls[n + 1..];
    assert calls == (steps + [c]) + rest;
    AfterAppend(m, data, steps + [c], rest);
    OneGroup(m, data, steps, groups[0], c);
    if k > 0 {
      EachGroup(m, EmptyCell, rest, groups[1..], k - 1);
    }
  }

  // ----- When the result of a group is right ----------------------------------------------------

  /** What the result of a group with these rows should be. */
  function GroupResult(m: Script, rows: seq<seq<Mx>>): Reply {
    Finish(m, Final, m.final(FoldRows(m, EmptyCell, rows)))
  }

  predicate IsAggregate(m: Script) { m.hasStep && m.hasFinal }

  /** Whatever the step and final functions are, call k returns the result of a group with these rows. */
  ghost predicate AlwaysRight(calls: seq<Call>, k: nat, rows: seq<seq<Mx>>) {
    k < |calls| && forall m: Script :: IsAggregate(m) ==> Replies(m, EmptyCell, calls)[k] == GroupResult(m, rows)
  }

  /** How many rows have been recognized; negative if one was not. */
  function Count(data: Mx): int {
    match data case EmptyCell => 0 case OtherEmpty => -1 case Full(id) => id
  }

  /** An aggregate that recognizes exactly these rows. */
  function Recognizer(rows: seq<seq<Mx>>): Script {
    Script(false, true, true,
           args => Threw,
           (data, args) =>
             Returned(Full(if 0 <= Count(data) < |rows| && rows[Count(data)] == args then Count(data) + 1 else -1)),
           data => Returned(Full(if Count(data) == |rows| then 1 else 0)),
           value => true)
  }

  lemma {:induction false} Recognizes(rows: seq<seq<Mx>>, data: Mx, seen: seq<seq<Mx>>)
    requires Count(data) <= |rows|
    ensures Count(FoldRows(Recognizer(rows), data, seen)) == |rows| <==>
      (Count(data) >= 0 && rows[Count(data)..] == seen)
    decreases seen
  {
    var m := Recognizer(rows);
    if seen != [] {
      var next := Accumulate(m, data, seen[0]);
      Recognizes(rows, next, seen[1..]);
      if Count(next) >= 0 {
        assert rows[Count(data)..] == [rows[Count(data)]] + rows[Count(next)..];
        assert seen == [seen[0]] + seen[1..];
      }
    }
  }

  /**
   * The result of a final call is right for every aggregate if and only if the rows stepped through
   * since the final call before are the rows of its group, all of them, in order, and no others.
   */
  lemma RightIffOwnRows(calls: seq<Call>, k: nat, seen: seq<seq<Mx>>, rows: seq<seq<Mx>>)
    requires k < |calls| && calls[k].kind.Final? && calls[k].convertible
    requires StepsFor(SinceFinal(calls[..k]), seen)
    ensures AlwaysRight(calls, k, rows) <==> seen == rows
  {
    forall m: Script | IsAggregate(m) ensures Replies(m, EmptyCell, calls)[k] == GroupResult(m, seen) {
      FinalSees(m, calls, k);
      StepsFold(m, EmptyCell, SinceFinal(calls[..k]), seen);
    }
    var m := Recognizer(rows);
    Recognizes(rows, EmptyCell, seen);
    Recognizes(rows, EmptyCell, rows);
    assert IsAggregate(m) && rows[0..] == rows;
    assert GroupResult(m, seen) == GroupResult(m, rows) <==> seen == rows;
  }

  lemma {:induction false} StepsSinceFinal(calls: seq<Call>, steps: seq<Call>, rows: seq<seq<Mx>>)
    requires StepsFor(steps, rows) && (calls == [] || calls[|calls| - 1].kind.Final?)
    ensures SinceFinal(calls + steps) == steps
    decreases rows
  {
    hide HasFinal;
    var all := calls + steps;
    if steps == [] {
      assert all == calls;
    } else {
      var n := |steps| - 1;
      assert all[..|all| - 1] == calls + steps[..n] && all[|all| - 1] == steps[n];
      StepsSinceFinal(calls, steps[..n], rows[..n]);
      assert steps == steps[..n] + [steps[n]];
    }
  }

  /**
   * A group that is abandoned without its final call, as after an error, makes the next result that
   * of the rows of both groups: right for every aggregate only if no row had been abandoned.
   */
  lemma AbandonedGroupLeaks(abandoned: seq<Call>, rows0: seq<seq<Mx>>, steps: seq<Call>, rows: seq<seq<Mx>>,
                            final: Call)
    requires StepsFor(abandoned, rows0) && StepsFor(steps, rows) && final.kind.Final? && final.convertible
    ensures var calls, k := abandoned + steps + [final], |rows0| + |rows|;
      && AlwaysRight(calls, k, rows0 + rows)
      && (AlwaysRight(calls, k, rows) <==> rows0 == [])
  {
    var both, k := abandoned + steps, |rows0| + |rows|;
    var calls := both + [final];
    assert StepsFor(both, rows0 + rows);
    StepsSinceFinal([], both, rows0 + rows);
    assert [] + both == both == calls[..k];
    RightIffOwnRows(calls, k, rows0 + rows, rows0 + rows);
    RightIffOwnRows(calls, k, rows0 + rows, rows);
    if rows0 == [] {
      assert rows0 + rows == rows;
    }
  }

  /** seen has the rows of two groups, each in its order. */
  ghost predicate Interleaves(seen: seq<seq<Mx>>, rows1: seq<seq<Mx>>, rows2: seq<seq<Mx>>)
    decreases seen
  {
    if seen == [] then rows1 == [] && rows2 == []
    else
      || (rows1 != [] && seen[0] == rows1[0] && Interleaves(seen[1..], rows1[1..], rows2))
      || (rows2 != [] && seen[0] == rows2[0] && Interleaves(seen[1..], rows1, rows2[1..]))
  }

  lemma {:induction false} InterleavedLength(seen: seq<seq<Mx>>, rows1: seq<seq<Mx>>, rows2: seq<seq<Mx>>)
    requires Interleaves(seen, rows1, rows2)
    ensures |seen| == |rows1| + |rows2| && (rows2 == [] ==> seen == rows1)
    decreases seen
  {
    if seen != [] {
      if rows1 != [] && seen[0] == rows1[0] && Interleaves(seen[1..], rows1[1..], rows2) {
        InterleavedLength(seen[1..], rows1[1..], rows2);
        assert rows2 == [] ==> seen == [seen[0]] + seen[1..] == [rows1[0]] + rows1[1..];
      } else {
        InterleavedLength(seen[1..], rows1, rows2[1..]);
      }
    }
  }

  /**
   * Two uses of one aggregate in the same query share the data. Whatever the order of their rows, the
   * first result is that of the rows of both and the second that of none: both are right for every
   * aggregate only if the second use has no rows.
   */
  lemma InterleavedGroupsMix(steps: seq<Call>, seen: seq<seq<Mx>>, rows1: seq<seq<Mx>>, rows2: seq<seq<Mx>>,
                             first: Call, second: Call)
    requires StepsFor(steps, seen) && Interleaves(seen, rows1, rows2)
    requires first.kind.Final? && second.kind.Final? && first.convertible && second.convertible
    ensures var calls, k := steps + [first, second], |seen|;
      && AlwaysRight(calls, k, seen) && AlwaysRight(calls, k + 1, [])
      && (AlwaysRight(calls, k, rows1) <==> rows2 == [])
      && (AlwaysRight(calls, k + 1, rows2) <==> rows2 == [])
  {
    hide *;
    var calls, k := steps + [first, second], |seen|;
    InterleavedLength(seen, rows1, rows2);
    StepsSinceFinal([], steps, seen);
    StepsMatch(steps, seen);
    assert [] + steps == steps == calls[..k];
    RightIffOwnRows(calls, k, seen, seen);
    RightIffOwnRows(calls, k, seen, rows1);
    assert calls[..k + 1] == steps + [first];
    JustFinished(steps, first);
    RightIffOwnRows(calls, k + 1, [], []);
    RightIffOwnRows(calls, k + 1, [], rows2);
  }

  lemma StepsMatch(steps: seq<Call>, seen: seq<seq<Mx>>)
    requires StepsFor(steps, seen)
    ensures |steps| == |seen|
  {}

  lemma JustFinished(calls: seq<Call>, c: Call)
    requires c.kind.Final?
    ensures SinceFinal(calls + [c]) == [] && StepsFor([], [])
  {}

  /** An aggregate that adds up its first argument. */
  function Sum(): Script {
    Script(false, true, true,
           args => Threw,
           (data, args) => Returned(Full(Count(data) + if |args| > 0 then Count(args[0]) else 0)),
           data => Returned(data),
           value => true)
  }

  function StepCall(x: int): Call { Call(Step, [Full(x)], true, []) }

  const FINAL_CALL := Call(Final, [], true, [])

  lemma {:induction false} SumStep(data: Mx, calls: seq<Call>, x: int)
    ensures AfterAll(Sum(), data, calls + [StepCall(x)]) == Full(Count(AfterAll(Sum(), data, calls)) + x)
  {
    assert (calls + [StepCall(x)])[..|calls|] == calls;
  }

  lemma {:induction false} SumFinal(data: Mx, calls: seq<Call>)
    ensures AfterAll(Sum(), data, calls + [FINAL_CALL]) == EmptyCell
    ensures Replies(Sum(), data, calls + [FINAL_CALL]) ==
      Replies(Sum(), data, calls) + [Finish(Sum(), Final, Returned(AfterAll(Sum(), data, calls)))]
  {
    assert (calls + [FINAL_CALL])[..|calls|] == calls;
  }

  lemma SumOf(x: int)
    ensures GroupResult(Sum(), [[Full(x)]]) == Value(Full(x))
    ensures Finish(Sum(), Final, Returned(Full(x))) == Value(Full(x))
    ensures Finish(Sum(), Final, Returned(EmptyCell)) == Null
  {
    assert FoldRows(Sum(), EmptyCell, [[Full(x)]]) == FoldRows(Sum(), Full(x), []);
  }

  lemma NothingSummed(data: Mx)
    ensures AfterAll(Sum(), data, []) == data
  {}

  /** Two rows, then two final calls. */
  lemma {:induction false} TwoRowsTwoFinals(x: int, y: int, rows: seq<Call>, once: seq<Call>, twice: seq<Call>)
    requires rows == [StepCall(x)] + [StepCall(y)] && once == rows + [FINAL_CALL] && twice == once + [FINAL_CALL]
    ensures |Replies(Sum(), EmptyCell, once)| == 3 && Replies(Sum(), EmptyCell, once)[2] == Value(Full(x + y))
    ensures |Replies(Sum(), EmptyCell, twice)| == 4
    ensures Replies(Sum(), EmptyCell, twice)[2] == Value(Full(x + y)) && Replies(Sum(), EmptyCell, twice)[3] == Null
  {
    hide Replies, AfterAll, Finish, GroupResult, FoldRows, Sum;
    NothingSummed(EmptyCell);
    SumStep(EmptyCell, [], x);
    assert [] + [StepCall(x)] == [StepCall(x)];
    SumStep(EmptyCell, [StepCall(x)], y);
    SumFinal(EmptyCell, rows);
    SumFinal(EmptyCell, once);
    SumOf(x + y);
  }

  /** A row 1 is abandoned; the sum over the single row 2 of the next group becomes 3. */
  lemma AbandonedSum()
    ensures Replies(Sum(), EmptyCell, [StepCall(1), StepCall(2), FINAL_CALL])[2] == Value(Full(3))
    ensures GroupResult(Sum(), [[Full(2)]]) == Value(Full(2)) != Value(Full(3))
  {
    hide *;
    var rows := [StepCall(1)] + [StepCall(2)];
    TwoRowsTwoFinals(1, 2, rows, rows + [FINAL_CALL], rows + [FINAL_CALL] + [FINAL_CALL]);
    assert rows + [FINAL_CALL] == [StepCall(1), StepCall(2), FINAL_CALL];
    SumOf(2);
  }

  /** Sums over the row 1 and over the row 2, in the same query: 3 and NULL, instead of 1 and 2. */
  lemma MixedSums()
    ensures var replies := Replies(Sum(), EmptyCell, [StepCall(1), StepCall(2), FINAL_CALL, FINAL_CALL]);
      replies[2] == Value(Full(3)) && replies[3] == Null
    ensures GroupResult(Sum(), [[Full(1)]]) == Value(Full(1)) && GroupResult(Sum(), [[Full(2)]]) == Value(Full(2))
  {
    hide *;
    var rows := [StepCall(1)] + [StepCall(2)];
    TwoRowsTwoFinals(1, 2, rows, rows + [FINAL_CALL], rows + [FINAL_CALL] + [FINAL_CALL]);
    assert rows + [FINAL_CALL] + [FINAL_CALL] == [StepCall(1), StepCall(2), FINAL_CALL, FINAL_CALL];
    SumOf(1);
    SumOf(2);
  }
}
